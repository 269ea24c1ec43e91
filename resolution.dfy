/** What resolving a stylesheet computes, as functions: the maps of the
    imported files in `@import` order, their merge, and the overlay of the
    stylesheet's own custom-property declarations. The imperative walk with
    its cache (module Resolver) is proved to compute exactly this. */
module Resolution {
  import opened Stylesheet
  import opened PropertyName
  import opened ImportPath

  /** Every key of the map is a custom-property name. */
  predicate WellNamed(m: PropertyMap) {
    forall k :: k in m ==> IsCustomPropertyName(k)
  }

  /** Some declaration among `items` has the custom-property name `k`. */
  predicate DeclaresCustom(items: seq<Item>, k: string) {
    exists i :: 0 <= i < |items| && items[i].Decl? && items[i].prop == k && IsCustomPropertyName(k)
  }

  /** `items[i]` is the last declaration of `k` among `items`. */
  predicate IsLastDecl(items: seq<Item>, k: string, i: int) {
    0 <= i < |items| && items[i].Decl? && items[i].prop == k
    && forall j :: i < j < |items| ==> !(items[j].Decl? && items[j].prop == k)
  }

  // ---------------------------------------------------------------------
  // Termination: the import graph is assumed to be acyclic, witnessed by a
  // rank on paths that every import of a readable file decreases.
  // ---------------------------------------------------------------------

  /** Every import among `items` that resolves names a path of rank below `r`. */
  predicate ImportsBelow(host: Host, rank: Path -> nat, dir: Path, items: seq<Item>, r: nat) {
    forall i :: 0 <= i < |items| && items[i].Import? && Target(host, dir, items[i].param).Ok? ==>
      rank(Target(host, dir, items[i].param).value) < r
  }

  /** The import graph of the readable files descends along `rank`, so no
      file imports itself, directly or through others. */
  predicate Acyclic(host: Host, rank: Path -> nat) {
    forall p :: p in host.files && host.files[p].Some? ==>
      ImportsBelow(host, rank, SourceDir(host, Some(p)), host.files[p].value, rank(p))
  }

  /** One more than the highest rank among the paths that the imports among
      `items` resolve to, 0 when none resolves: the measure of a walk. */
  function Bound(host: Host, rank: Path -> nat, dir: Path, items: seq<Item>): nat {
    if items == [] then 0
    else
      var b := Bound(host, rank, dir, items[..|items| - 1]);
      match items[|items| - 1]
      case Decl(_, _) => b
      case Import(param) =>
        match Target(host, dir, param)
        case Ok(t) => if b <= rank(t) then rank(t) + 1 else b
        case Err(_) => b
  }

  /** When every resolving import lies below `r`, so does the bound (what
      recursing from a file into its own walk needs). */
  lemma {:induction false} BoundWithin(host: Host, rank: Path -> nat, dir: Path, items: seq<Item>, r: nat)
    requires ImportsBelow(host, rank, dir, items, r)
    ensures Bound(host, rank, dir, items) <= r
    decreases |items|
  {
    if items != [] {
      var init := items[..|items| - 1];
      assert ImportsBelow(host, rank, dir, init, r) by {
        forall i | 0 <= i < |init| ensures init[i] == items[i] { }
      }
      BoundWithin(host, rank, dir, init, r);
    }
  }

  /** Every import that resolves lies below the bound (the direction needed to
      recurse from a stylesheet into the files it imports). */
  lemma {:induction false} BelowBound(host: Host, rank: Path -> nat, dir: Path, items: seq<Item>, i: int)
    requires 0 <= i < |items| && items[i].Import? && Target(host, dir, items[i].param).Ok?
    ensures rank(Target(host, dir, items[i].param).value) < Bound(host, rank, dir, items)
    decreases |items|
  {
    var init := items[..|items| - 1];
    if i < |items| - 1 {
      assert init[i] == items[i];
      BelowBound(host, rank, dir, init, i);
    }
  }

  // ---------------------------------------------------------------------
  // The resolution itself
  // ---------------------------------------------------------------------

  /** The maps of the imported files, one per `@import` in document order,
      or the error of the first `~` reference that cannot be resolved. */
  function ImportedMaps(host: Host, rank: Path -> nat, dir: Path, items: seq<Item>): (r: Result<seq<PropertyMap>>)
    requires Acyclic(host, rank)
    ensures r.Ok? ==> |r.value| == |Imports(items)|
    ensures r.Ok? ==> forall j :: 0 <= j < |r.value| ==> WellNamed(r.value[j])
    decreases Bound(host, rank, dir, items), 0, |items|
  {
    if items == [] then Ok([])
    else
      match ImportedMaps(host, rank, dir, items[..|items| - 1])
      case Err(e) => Err(e)
      case Ok(ms) =>
        match items[|items| - 1]
        case Decl(_, _) => Ok(ms)
        case Import(param) =>
          match Target(host, dir, param)
          case Err(e) => Err(e)
          case Ok(t) => Ok(ms + [FileProps(host, rank, t)])
  }

  /** The imported maps merged in order into a fresh map, a later map's
      value winning for a key that several hold. */
  function MergeAll(ms: seq<PropertyMap>): (r: PropertyMap)
    ensures forall k :: k in r <==> exists j :: 0 <= j < |ms| && k in ms[j]
  {
    if ms == [] then map[]
    else MergeAll(ms[..|ms| - 1]) + ms[|ms| - 1]
  }

  /** The declarations among `items` whose name is a custom-property name,
      written over `acc` in document order. */
  function Overlay(acc: PropertyMap, items: seq<Item>): (r: PropertyMap)
    ensures forall k :: k in r <==> k in acc || DeclaresCustom(items, k)
  {
    if items == [] then acc
    else
      var m := Overlay(acc, items[..|items| - 1]);
      var last := items[|items| - 1];
      assert forall k :: DeclaresCustom(items[..|items| - 1], k) ==> DeclaresCustom(items, k) by {
        forall i | 0 <= i < |items| - 1 ensures items[..|items| - 1][i] == items[i] { }
      }
      assert forall k :: DeclaresCustom(items, k) && !(last.Decl? && last.prop == k) ==> DeclaresCustom(items[..|items| - 1], k) by {
        forall k | DeclaresCustom(items, k) && !(last.Decl? && last.prop == k)
          ensures DeclaresCustom(items[..|items| - 1], k)
        {
          var i :| 0 <= i < |items| && items[i].Decl? && items[i].prop == k && IsCustomPropertyName(k);
          assert items[..|items| - 1][i] == items[i];
        }
      }
      if last.Decl? && IsCustomPropertyName(last.prop) then m[last.prop := last.value] else m
  }

  /** The custom properties of a stylesheet: the imported maps merged, then
      its own declarations on top; an error when a `~` import cannot be
      resolved. Keys are always custom-property names. */
  function RootProps(host: Host, rank: Path -> nat, root: Root): (r: Result<PropertyMap>)
    requires Acyclic(host, rank)
    ensures r.Ok? ==> WellNamed(r.value)
    decreases Bound(host, rank, SourceDir(host, root.file), root.items), 1, 0
  {
    match ImportedMaps(host, rank, SourceDir(host, root.file), root.items)
    case Err(e) => Err(e)
    case Ok(ms) => Ok(Overlay(MergeAll(ms), root.items))
  }

  /** The custom properties of an imported file: the file is read and
      parsed and resolved like a stylesheet; a failed read or parse, and any
      error in resolving it, give the empty map. */
  function FileProps(host: Host, rank: Path -> nat, p: Path): (r: PropertyMap)
    requires Acyclic(host, rank)
    ensures WellNamed(r)
    decreases rank(p), 2, 0
  {
    if p !in host.files || host.files[p].None? then map[]
    else
      var items := host.files[p].value;
      BoundWithin(host, rank, SourceDir(host, Some(p)), items, rank(p));
      match RootProps(host, rank, Root(Some(p), items))
      case Ok(m) => m
      case Err(_) => map[]
  }
}
