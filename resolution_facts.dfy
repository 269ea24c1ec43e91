/** What the resolution promises: last declaration wins, local declarations
    beat imports wherever the `@import` stands, later imports beat earlier
    ones, and a failed import is silently empty. */
module ResolutionFacts {
  import opened Stylesheet
  import opened PropertyName
  import opened ImportPath
  import opened Resolution

  // ---------------------------------------------------------------------
  // The declaration overlay
  // ---------------------------------------------------------------------

  /** The last declaration of a custom-property name gives its value. */
  lemma {:induction false} OverlayLastWins(acc: PropertyMap, items: seq<Item>, k: string, i: int)
    requires IsLastDecl(items, k, i) && IsCustomPropertyName(k)
    ensures k in Overlay(acc, items) && Overlay(acc, items)[k] == items[i].value
    decreases |items|
  {
    var init := items[..|items| - 1];
    if i < |items| - 1 {
      assert IsLastDecl(init, k, i) by {
        forall j | i < j < |init| ensures init[j] == items[j] { }
      }
      OverlayLastWins(acc, init, k, i);
    }
  }

  /** A name no custom-property declaration uses keeps the value it had. */
  lemma {:induction false} OverlayKeepsOthers(acc: PropertyMap, items: seq<Item>, k: string)
    requires !DeclaresCustom(items, k)
    ensures k in Overlay(acc, items) <==> k in acc
    ensures k in acc ==> Overlay(acc, items)[k] == acc[k]
    decreases |items|
  {
    if items != [] {
      var init := items[..|items| - 1];
      OverlayKeepsOthers(acc, init, k);
    }
  }

  /** Overlaying the declarations of `a + b` is overlaying `a`, then `b`. */
  lemma {:induction false} OverlayConcat(acc: PropertyMap, a: seq<Item>, b: seq<Item>)
    ensures Overlay(acc, a + b) == Overlay(Overlay(acc, a), b)
    decreases |b|
  {
    if b == [] {
      assert a + b == a;
    } else {
      assert (a + b)[..|a + b| - 1] == a + b[..|b| - 1];
      assert (a + b)[|a + b| - 1] == b[|b| - 1];
      OverlayConcat(acc, a, b[..|b| - 1]);
    }
  }

  // ---------------------------------------------------------------------
  // The merge of the imported maps
  // ---------------------------------------------------------------------

  /** For a key several imported maps hold, the latest of them in the list
      gives the value. */
  lemma {:induction false} MergeAllLastWins(ms: seq<PropertyMap>, k: string, j: int)
    requires 0 <= j < |ms| && k in ms[j]
    requires forall l :: j < l < |ms| ==> k !in ms[l]
    ensures k in MergeAll(ms) && MergeAll(ms)[k] == ms[j][k]
    decreases |ms|
  {
    if j < |ms| - 1 {
      var init := ms[..|ms| - 1];
      assert init[j] == ms[j];
      assert forall l :: j < l < |init| ==> init[l] == ms[l];
      MergeAllLastWins(init, k, j);
    }
  }

  lemma MapUnionAssoc(x: PropertyMap, y: PropertyMap, z: PropertyMap)
    ensures (x + y) + z == x + (y + z)
  {
  }

  /** Merging `a + b` is merging `a`, merging `b`, and letting `b` win. */
  lemma {:induction false} MergeAllConcat(a: seq<PropertyMap>, b: seq<PropertyMap>)
    ensures MergeAll(a + b) == MergeAll(a) + MergeAll(b)
    decreases |b|
  {
    if b == [] {
      assert a + b == a;
      assert MergeAll(a) + map[] == MergeAll(a);
    } else {
      var b0 := b[..|b| - 1];
      assert (a + b)[..|a + b| - 1] == a + b0;
      assert (a + b)[|a + b| - 1] == b[|b| - 1];
      MergeAllConcat(a, b0);
      MapUnionAssoc(MergeAll(a), MergeAll(b0), b[|b| - 1]);
    }
  }

  /** An empty imported map changes nothing, wherever it stands. */
  lemma MergeAllSkipsEmpty(a: seq<PropertyMap>, b: seq<PropertyMap>)
    ensures MergeAll(a + [map[]] + b) == MergeAll(a + b)
  {
    var a1 := a + [map[]];
    assert a1[..|a1| - 1] == a && a1[|a1| - 1] == map[];
    var x := MergeAll(a);
    assert MergeAll(a1) == x + map[];
    assert x + map[] == x;
    MergeAllConcat(a1, b);
    MergeAllConcat(a, b);
  }

  // ---------------------------------------------------------------------
  // The imported maps
  // ---------------------------------------------------------------------

  /** One step of the walk: the last item either leaves the imported maps as
      they were (a declaration) or adds the map of its target, failing when
      the walk so far or its own reference fails. */
  lemma ImportedMapsStep(host: Host, rank: Path -> nat, dir: Path, items: seq<Item>)
    requires Acyclic(host, rank) && items != []
    ensures var init := items[..|items| - 1];
      var last := items[|items| - 1];
      var r0 := ImportedMaps(host, rank, dir, init);
      if last.Decl? then
        Imports(items) == Imports(init) && ImportedMaps(host, rank, dir, items) == r0
      else
        Imports(items) == Imports(init) + [last.param]
        && ImportedMaps(host, rank, dir, items) ==
             (if r0.Err? then r0
              else if Target(host, dir, last.param).Err? then Err(Target(host, dir, last.param).error)
              else Ok(r0.value + [FileProps(host, rank, Target(host, dir, last.param).value)]))
  {
  }

  /** One step of the walk seen on prefixes: the walk over `items[..i + 1]`
      in terms of the walk over `items[..i]` and the item `items[i]`. */
  lemma ImportedMapsPrefixStep(host: Host, rank: Path -> nat, dir: Path, items: seq<Item>, i: int)
    requires Acyclic(host, rank) && 0 <= i < |items|
    ensures var r0 := ImportedMaps(host, rank, dir, items[..i]);
      var r1 := ImportedMaps(host, rank, dir, items[..i + 1]);
      Imports(items[..i + 1]) == (if items[i].Import? then Imports(items[..i]) + [items[i].param] else Imports(items[..i]))
      && (items[i].Decl? ==> r1 == r0)
      && (items[i].Import? && r0.Ok? && Target(host, dir, items[i].param).Ok? ==>
            r1 == Ok(r0.value + [FileProps(host, rank, Target(host, dir, items[i].param).value)]))
      && (items[i].Import? && r0.Ok? && Target(host, dir, items[i].param).Err? ==>
            r1 == Err(Target(host, dir, items[i].param).error))
  {
    assert items[..i + 1][..i] == items[..i];
    ImportedMapsStep(host, rank, dir, items[..i + 1]);
  }

  /** The j-th map of a successful walk is the properties of the file that
      the j-th `@import` resolves to. */
  lemma {:induction false} ImportedMapsAt(host: Host, rank: Path -> nat, dir: Path, items: seq<Item>, j: int)
    requires Acyclic(host, rank)
    requires ImportedMaps(host, rank, dir, items).Ok?
    requires 0 <= j < |Imports(items)|
    ensures Target(host, dir, Imports(items)[j]).Ok?
    ensures ImportedMaps(host, rank, dir, items).value[j] == FileProps(host, rank, Target(host, dir, Imports(items)[j]).value)
    decreases |items|
  {
    var init := items[..|items| - 1];
    ImportedMapsStep(host, rank, dir, items);
    if items[|items| - 1].Decl? || j < |Imports(init)| {
      ImportedMapsAt(host, rank, dir, init, j);
    }
  }

  /** A walk whose every `@import` resolves succeeds. */
  lemma {:induction false} ImportedMapsResolving(host: Host, rank: Path -> nat, dir: Path, items: seq<Item>)
    requires Acyclic(host, rank)
    requires forall j :: 0 <= j < |Imports(items)| ==> Target(host, dir, Imports(items)[j]).Ok?
    ensures ImportedMaps(host, rank, dir, items).Ok?
    decreases |items|
  {
    if items != [] {
      var init := items[..|items| - 1];
      ImportedMapsStep(host, rank, dir, items);
      assert forall j :: 0 <= j < |Imports(init)| ==> Imports(items)[j] == Imports(init)[j];
      ImportedMapsResolving(host, rank, dir, init);
      if items[|items| - 1].Import? {
        assert Imports(items)[|Imports(init)|] == items[|items| - 1].param;
      }
    }
  }

  /** The walk over the imports succeeds exactly when every `@import`
      resolves, and then gives, for the j-th `@import` in document order,
      the properties of the file it resolves to. */
  lemma ImportedMapsInOrder(host: Host, rank: Path -> nat, dir: Path, items: seq<Item>)
    requires Acyclic(host, rank)
    ensures var ps := Imports(items);
      (ImportedMaps(host, rank, dir, items).Ok? <==> forall j :: 0 <= j < |ps| ==> Target(host, dir, ps[j]).Ok?)
      && (ImportedMaps(host, rank, dir, items).Ok? ==>
            forall j :: 0 <= j < |ps| ==>
              ImportedMaps(host, rank, dir, items).value[j] == FileProps(host, rank, Target(host, dir, ps[j]).value))
  {
    var ps := Imports(items);
    if forall j :: 0 <= j < |ps| ==> Target(host, dir, ps[j]).Ok? {
      ImportedMapsResolving(host, rank, dir, items);
    }
    if ImportedMaps(host, rank, dir, items).Ok? {
      forall j | 0 <= j < |ps|
        ensures Target(host, dir, ps[j]).Ok?
        ensures ImportedMaps(host, rank, dir, items).value[j] == FileProps(host, rank, Target(host, dir, ps[j]).value)
      {
        ImportedMapsAt(host, rank, dir, items, j);
      }
    }
  }

  /** When the walk fails, the error is that of the first `@import` in
      document order whose `~` reference cannot be resolved. */
  lemma {:induction false} ImportedMapsFirstError(host: Host, rank: Path -> nat, dir: Path, items: seq<Item>)
    requires Acyclic(host, rank)
    requires ImportedMaps(host, rank, dir, items).Err?
    ensures exists j :: (0 <= j < |Imports(items)|
      && Target(host, dir, Imports(items)[j]) == Err(ImportedMaps(host, rank, dir, items).error)
      && forall l :: 0 <= l < j ==> Target(host, dir, Imports(items)[l]).Ok?)
    decreases |items|
  {
    var init := items[..|items| - 1];
    var ps0 := Imports(init);
    var e := ImportedMaps(host, rank, dir, items).error;
    ImportedMapsStep(host, rank, dir, items);
    assert forall l :: 0 <= l < |ps0| ==> Imports(items)[l] == ps0[l];
    if ImportedMaps(host, rank, dir, init).Err? {
      ImportedMapsFirstError(host, rank, dir, init);
      var j :| 0 <= j < |ps0| && Target(host, dir, ps0[j]) == Err(e)
        && forall l :: 0 <= l < j ==> Target(host, dir, ps0[l]).Ok?;
      assert Target(host, dir, Imports(items)[j]) == Err(e);
    } else {
      forall l | 0 <= l < |ps0| ensures Target(host, dir, ps0[l]).Ok? {
        ImportedMapsAt(host, rank, dir, init, l);
      }
      assert Target(host, dir, Imports(items)[|ps0|]) == Err(e);
    }
  }

  /** Once a prefix of the walk fails, the whole walk fails with that error:
      nothing after the first unresolvable `~` import can repair it. */
  lemma {:induction false} ImportedMapsErrPrefix(host: Host, rank: Path -> nat, dir: Path, items: seq<Item>, n: int)
    requires Acyclic(host, rank)
    requires 0 <= n <= |items|
    requires ImportedMaps(host, rank, dir, items[..n]).Err?
    ensures ImportedMaps(host, rank, dir, items) == ImportedMaps(host, rank, dir, items[..n])
    decreases |items| - n
  {
    if n == |items| {
      assert items[..n] == items;
    } else {
      var init := items[..|items| - 1];
      assert init[..n] == items[..n];
      ImportedMapsErrPrefix(host, rank, dir, init, n);
    }
  }

  /** A stylesheet without `@import` rules imports nothing. */
  lemma {:induction false} NoImportsNoMaps(host: Host, rank: Path -> nat, dir: Path, items: seq<Item>)
    requires Acyclic(host, rank)
    requires forall i :: 0 <= i < |items| ==> items[i].Decl?
    ensures ImportedMaps(host, rank, dir, items) == Ok([])
    decreases |items|
  {
    if items != [] {
      var init := items[..|items| - 1];
      assert forall i :: 0 <= i < |init| ==> init[i] == items[i];
      NoImportsNoMaps(host, rank, dir, init);
    }
  }

  /** Splitting the items splits the walk: the maps of `a + b` are those of
      `a` followed by those of `b`, failing with the first failure. */
  function Chain(r1: Result<seq<PropertyMap>>, r2: Result<seq<PropertyMap>>): Result<seq<PropertyMap>> {
    match r1
    case Err(e) => Err(e)
    case Ok(ms) =>
      match r2
      case Err(e) => Err(e)
      case Ok(ns) => Ok(ms + ns)
  }

  lemma {:induction false} ImportedMapsConcat(host: Host, rank: Path -> nat, dir: Path, a: seq<Item>, b: seq<Item>)
    requires Acyclic(host, rank)
    ensures ImportedMaps(host, rank, dir, a + b)
         == Chain(ImportedMaps(host, rank, dir, a), ImportedMaps(host, rank, dir, b))
    decreases |b|
  {
    if b == [] {
      assert a + b == a;
      if ImportedMaps(host, rank, dir, a).Ok? {
        assert ImportedMaps(host, rank, dir, a).value + [] == ImportedMaps(host, rank, dir, a).value;
      }
    } else {
      var b0 := b[..|b| - 1];
      assert (a + b)[..|a + b| - 1] == a + b0;
      assert (a + b)[|a + b| - 1] == b[|b| - 1];
      ImportedMapsConcat(host, rank, dir, a, b0);
      var ra, rb0 := ImportedMaps(host, rank, dir, a), ImportedMaps(host, rank, dir, b0);
      if ra.Ok? && rb0.Ok? {
        match b[|b| - 1]
        case Decl(_, _) =>
        case Import(param) =>
          match Target(host, dir, param)
          case Err(_) =>
          case Ok(t) =>
            assert ra.value + (rb0.value + [FileProps(host, rank, t)])
                == (ra.value + rb0.value) + [FileProps(host, rank, t)];
      }
    }
  }

  // ---------------------------------------------------------------------
  // The resolution of a stylesheet
  // ---------------------------------------------------------------------

  /** A stylesheet with no `@import` and no custom-property declaration has
      no custom properties. */
  lemma EmptyStylesheet(host: Host, rank: Path -> nat, root: Root)
    requires Acyclic(host, rank)
    requires forall i :: 0 <= i < |root.items| ==> root.items[i].Decl?
    requires forall k :: !DeclaresCustom(root.items, k)
    ensures RootProps(host, rank, root) == Ok(map[])
  {
    NoImportsNoMaps(host, rank, SourceDir(host, root.file), root.items);
    var m := Overlay(MergeAll([]), root.items);
    assert m.Keys == {};
  }

  /** A declaration is captured exactly when its name is a custom-property
      name, and the last declaration of that name gives the value, whatever
      the imports hold. */
  lemma DeclarationCaptured(host: Host, rank: Path -> nat, root: Root, i: int)
    requires Acyclic(host, rank)
    requires RootProps(host, rank, root).Ok?
    requires 0 <= i < |root.items| && root.items[i].Decl?
    ensures root.items[i].prop in RootProps(host, rank, root).value <==> IsCustomPropertyName(root.items[i].prop)
    ensures IsLastDecl(root.items, root.items[i].prop, i) && IsCustomPropertyName(root.items[i].prop) ==>
      RootProps(host, rank, root).value[root.items[i].prop] == root.items[i].value
  {
    var ms := ImportedMaps(host, rank, SourceDir(host, root.file), root.items).value;
    var k := root.items[i].prop;
    if IsLastDecl(root.items, k, i) && IsCustomPropertyName(k) {
      OverlayLastWins(MergeAll(ms), root.items, k, i);
    }
  }

  /** A local declaration overrides every imported value of its name, and
      later declarations of other names change nothing: the `@import` rules
      may stand anywhere in `prefix` or in `rest`, before or after it. */
  lemma LastDeclWins(host: Host, rank: Path -> nat, file: Option<Path>, prefix: seq<Item>, k: string, v: string, rest: seq<Item>)
    requires Acyclic(host, rank)
    requires IsCustomPropertyName(k)
    requires forall j :: 0 <= j < |rest| ==> !(rest[j].Decl? && rest[j].prop == k)
    requires RootProps(host, rank, Root(file, prefix + [Decl(k, v)] + rest)).Ok?
    ensures var m := RootProps(host, rank, Root(file, prefix + [Decl(k, v)] + rest)).value;
      k in m && m[k] == v
  {
    var items := prefix + [Decl(k, v)] + rest;
    assert items[|prefix|] == Decl(k, v);
    forall j | |prefix| < j < |items| ensures items[j] == rest[j - |prefix| - 1] { }
    assert IsLastDecl(items, k, |prefix|);
    DeclarationCaptured(host, rank, Root(file, items), |prefix|);
  }

  /** For a name the stylesheet does not declare, the value comes from the
      latest `@import` in document order whose file holds the name. */
  lemma LaterImportWins(host: Host, rank: Path -> nat, root: Root, k: string, j: int)
    requires Acyclic(host, rank)
    requires RootProps(host, rank, root).Ok?
    requires !DeclaresCustom(root.items, k)
    requires 0 <= j < |Imports(root.items)|
    requires Target(host, SourceDir(host, root.file), Imports(root.items)[j]).Ok?
    requires k in FileProps(host, rank, Target(host, SourceDir(host, root.file), Imports(root.items)[j]).value)
    requires forall l :: j < l < |Imports(root.items)| && Target(host, SourceDir(host, root.file), Imports(root.items)[l]).Ok? ==>
      k !in FileProps(host, rank, Target(host, SourceDir(host, root.file), Imports(root.items)[l]).value)
    ensures k in RootProps(host, rank, root).value
    ensures RootProps(host, rank, root).value[k]
         == FileProps(host, rank, Target(host, SourceDir(host, root.file), Imports(root.items)[j]).value)[k]
  {
    var dir := SourceDir(host, root.file);
    ImportedMapsInOrder(host, rank, dir, root.items);
    var ms := ImportedMaps(host, rank, dir, root.items).value;
    MergeAllLastWins(ms, k, j);
    OverlayKeepsOthers(MergeAll(ms), root.items, k);
  }

  /** Resolving a stylesheet fails only when one of its own `~` imports
      cannot be resolved, and then with the first such error; unreadable or
      malformed imported files never make it fail. */
  lemma OnlyModuleResolutionFails(host: Host, rank: Path -> nat, root: Root)
    requires Acyclic(host, rank)
    ensures var ps := Imports(root.items);
      RootProps(host, rank, root).Err? <==>
        exists j :: 0 <= j < |ps| && Target(host, SourceDir(host, root.file), ps[j]).Err?
    ensures var ps := Imports(root.items);
      RootProps(host, rank, root).Err? ==>
        exists j :: 0 <= j < |ps| && Target(host, SourceDir(host, root.file), ps[j]) == Err(RootProps(host, rank, root).error)
          && forall l :: 0 <= l < j ==> Target(host, SourceDir(host, root.file), ps[l]).Ok?
  {
    var dir := SourceDir(host, root.file);
    ImportedMapsInOrder(host, rank, dir, root.items);
    if RootProps(host, rank, root).Err? {
      ImportedMapsFirstError(host, rank, dir, root.items);
    }
  }

  /** An `@import` rule plays no part in the declaration overlay. */
  lemma OverlaySkipsImport(acc: PropertyMap, a: seq<Item>, param: string, b: seq<Item>)
    ensures Overlay(acc, a + [Import(param)] + b) == Overlay(acc, a + b)
  {
    var x := [Import(param)];
    OverlayConcat(acc, a + x, b);
    OverlayConcat(acc, a, x);
    OverlayConcat(acc, a, b);
    assert x[..0] == [];
    assert Overlay(Overlay(acc, a), x) == Overlay(acc, a);
  }

  /** An `@import` of a file that contributes the empty map adds an empty
      map at its place in the walk, and nothing else. */
  lemma ImportedMapsWithEmpty(host: Host, rank: Path -> nat, dir: Path, a: seq<Item>, param: string, b: seq<Item>)
    requires Acyclic(host, rank)
    requires Target(host, dir, param).Ok?
    requires FileProps(host, rank, Target(host, dir, param).value) == map[]
    ensures var r1, r0 := ImportedMaps(host, rank, dir, a + [Import(param)] + b), ImportedMaps(host, rank, dir, a + b);
      (r1.Err? <==> r0.Err?) && (r1.Err? ==> r1 == r0)
      && (r1.Ok? ==> exists ms, ns :: r1.value == ms + [map[]] + ns && r0.value == ms + ns)
  {
    var x := [Import(param)];
    var ra, rx, rb := ImportedMaps(host, rank, dir, a), ImportedMaps(host, rank, dir, x), ImportedMaps(host, rank, dir, b);
    assert rx == Ok([map[]]) by {
      var t := Target(host, dir, param).value;
      assert x[..0] == [];
      assert ImportedMaps(host, rank, dir, x[..0]) == Ok([]);
      assert rx == Ok([] + [FileProps(host, rank, t)]);
      assert [] + [FileProps(host, rank, t)] == [map[]];
    }
    ImportedMapsConcat(host, rank, dir, a, x);
    ImportedMapsConcat(host, rank, dir, a + x, b);
    ImportedMapsConcat(host, rank, dir, a, b);
    var r1, r0 := ImportedMaps(host, rank, dir, a + x + b), ImportedMaps(host, rank, dir, a + b);
    assert r1 == Chain(Chain(ra, rx), rb);
    assert r0 == Chain(ra, rb);
    if ra.Ok? && rb.Ok? {
      assert r1.value == ra.value + [map[]] + rb.value;
      assert r0.value == ra.value + rb.value;
    }
  }

  /** An `@import` whose file contributes nothing (it cannot be read or
      parsed, or has no custom properties) can be deleted without changing
      the result. */
  lemma EmptyImportIsNoOp(host: Host, rank: Path -> nat, file: Option<Path>, a: seq<Item>, param: string, b: seq<Item>)
    requires Acyclic(host, rank)
    requires Target(host, SourceDir(host, file), param).Ok?
    requires FileProps(host, rank, Target(host, SourceDir(host, file), param).value) == map[]
    ensures RootProps(host, rank, Root(file, a + [Import(param)] + b)) == RootProps(host, rank, Root(file, a + b))
  {
    var dir := SourceDir(host, file);
    var items1, items0 := a + [Import(param)] + b, a + b;
    ImportedMapsWithEmpty(host, rank, dir, a, param, b);
    var r1, r0 := ImportedMaps(host, rank, dir, items1), ImportedMaps(host, rank, dir, items0);
    if r1.Ok? {
      var ms, ns :| r1.value == ms + [map[]] + ns && r0.value == ms + ns;
      MergeAllSkipsEmpty(ms, ns);
      OverlaySkipsImport(MergeAll(r0.value), a, param, b);
      assert RootProps(host, rank, Root(file, items1)) == Ok(Overlay(MergeAll(r1.value), items1));
      assert RootProps(host, rank, Root(file, items0)) == Ok(Overlay(MergeAll(r0.value), items0));
    }
  }

  /** An `@import` whose file cannot be read or parsed, or whose own
      resolution fails, can be deleted without changing the result: the
      try/catch around an imported file hides every such failure. */
  lemma FailedImportIsNoOp(host: Host, rank: Path -> nat, file: Option<Path>, a: seq<Item>, param: string, b: seq<Item>)
    requires Acyclic(host, rank)
    requires Target(host, SourceDir(host, file), param).Ok?
    requires var t := Target(host, SourceDir(host, file), param).value;
      t !in host.files || host.files[t].None?
      || RootProps(host, rank, Root(Some(t), host.files[t].value)).Err?
    ensures RootProps(host, rank, Root(file, a + [Import(param)] + b)) == RootProps(host, rank, Root(file, a + b))
  {
    var t := Target(host, SourceDir(host, file), param).value;
    assert FileProps(host, rank, t) == map[];
    EmptyImportIsNoOp(host, rank, file, a, param, b);
  }
}
