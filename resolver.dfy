/** The resolver as it runs: a walk over the `@import` rules that consults and
    fills the import cache, a merge of the imported maps into a fresh
    accumulator, and the overlay of the stylesheet's own declarations. Each
    step is proved to compute what module Resolution specifies, and every
    file to be read at most once. */
module Resolver {
  import opened Stylesheet
  import opened PropertyName
  import opened ImportPath
  import opened Resolution
  import opened ResolutionFacts

  class PropertyResolver {
    /** The file system, its parser and the path resolvers. */
    const host: Host
    /** The rank that witnesses an acyclic import graph. */
    ghost const rank: Path -> nat
    /** The import cache: resolved path to the custom properties of that file. */
    var importCache: map<Path, PropertyMap>
    /** The paths whose file was read, in the order of the reads. */
    ghost var readLog: seq<Path>

    /** Every cache entry holds the properties of its file and was read, and
        no path was read twice. */
    ghost predicate Valid()
      reads this
    {
      Acyclic(host, rank)
      && (forall p :: p in importCache ==> importCache[p] == FileProps(host, rank, p))
      && (forall p :: p in importCache ==> p in readLog)
      && NoDuplicates(readLog)
    }

    /** The paths that were read and whose entry is not yet in the cache:
        the files whose resolution is still under way further up the call
        chain. None are left once a call from outside returns. */
    ghost function Pending(): set<Path>
      reads this
    {
      set q | q in readLog && q !in importCache
    }

    constructor (host: Host, rank: Path -> nat)
      requires Acyclic(host, rank)
      ensures Valid()
      ensures this.host == host && this.rank == rank
      ensures importCache == map[] && readLog == [] && Pending() == {}
    {
      this.host := host;
      this.rank := rank;
      importCache := map[];
      readLog := [];
    }

    /** The custom properties of a parsed stylesheet, or the error of its first
        `~` import that module resolution cannot find. The cache keeps every
        entry it had and gains entries only for files below the stylesheet in
        the import graph; every file read on the way has its entry when the
        call returns. */
    method GetCustomPropertiesFromRoot(root: Root) returns (r: Result<PropertyMap>)
      requires Valid()
      requires forall q :: q in Pending() ==> rank(q) >= Bound(host, rank, SourceDir(host, root.file), root.items)
      modifies this
      ensures Valid()
      ensures r == RootProps(host, rank, root)
      ensures r.Ok? ==> ImportsCached(host, importCache, SourceDir(host, root.file), root.items)
      ensures forall p :: p in old(importCache) ==> p in importCache && importCache[p] == old(importCache[p])
      ensures forall p :: p in importCache && p !in old(importCache) ==>
        rank(p) < Bound(host, rank, SourceDir(host, root.file), root.items)
      ensures old(readLog) <= readLog && Pending() == old(Pending())
      decreases Bound(host, rank, SourceDir(host, root.file), root.items), 1, 0
    {
      var sourceDir := SourceDir(host, root.file);
      var walked := WalkImports(sourceDir, root.items);
      match walked
      case Err(e) =>
        r := Err(e);
      case Ok(importedMaps) =>
        var customProperties := MergeImports(importedMaps);
        customProperties := WriteDeclarations(customProperties, root.items);
        r := Ok(customProperties);
    }

    /** The walk over the `@import` rules: each parameter is resolved to a
        path and looked up in the cache, and the cache entries are collected
        in document order; the first `~` reference that cannot be resolved
        ends the walk with its error. */
    method WalkImports(sourceDir: Path, items: seq<Item>) returns (r: Result<seq<PropertyMap>>)
      requires Valid()
      requires forall q :: q in Pending() ==> rank(q) >= Bound(host, rank, sourceDir, items)
      modifies this
      ensures Valid()
      ensures r == ImportedMaps(host, rank, sourceDir, items)
      ensures r.Ok? ==> ImportsCached(host, importCache, sourceDir, items)
      ensures forall p :: p in old(importCache) ==> p in importCache && importCache[p] == old(importCache[p])
      ensures forall p :: p in importCache && p !in old(importCache) ==> rank(p) < Bound(host, rank, sourceDir, items)
      ensures old(readLog) <= readLog && Pending() == old(Pending())
      decreases Bound(host, rank, sourceDir, items), 0, 0
    {
      ghost var bound := Bound(host, rank, sourceDir, items);
      var importedMaps: seq<PropertyMap> := [];
      var i := 0;
      while i < |items|
        invariant 0 <= i <= |items|
        invariant Valid()
        invariant ImportedMaps(host, rank, sourceDir, items[..i]) == Ok(importedMaps)
        invariant ImportsCached(host, importCache, sourceDir, items[..i])
        invariant forall p :: p in old(importCache) ==> p in importCache && importCache[p] == old(importCache[p])
        invariant forall p :: p in importCache && p !in old(importCache) ==> rank(p) < bound
        invariant old(readLog) <= readLog && Pending() == old(Pending())
      {
        ImportedMapsPrefixStep(host, rank, sourceDir, items, i);
        if items[i].Import? {
          match Target(host, sourceDir, items[i].param)
          case Err(e) =>
            ImportedMapsErrPrefix(host, rank, sourceDir, items, i + 1);
            return Err(e);
          case Ok(resolvedFileName) =>
            BelowBound(host, rank, sourceDir, items, i);
            ghost var before := importCache;
            var fromImport := CachedImport(resolvedFileName);
            ImportsCachedGrows(host, before, importCache, sourceDir, items[..i]);
            importedMaps := importedMaps + [fromImport];
        }
        ImportsCachedStep(host, importCache, sourceDir, items, i);
        i := i + 1;
      }
      assert items[..|items|] == items;
      r := Ok(importedMaps);
    }

    /** The cache lookup of one import: a path without an entry is read and
        resolved, once, and entered; a path with one is served from it, and
        then nothing is read and the cache does not change. No entry is ever
        replaced. */
    method CachedImport(resolvedFileName: Path) returns (m: PropertyMap)
      requires Valid()
      requires forall q :: q in Pending() ==> rank(q) > rank(resolvedFileName)
      modifies this
      ensures Valid()
      ensures m == FileProps(host, rank, resolvedFileName)
      ensures resolvedFileName in importCache && importCache[resolvedFileName] == m
      ensures old(resolvedFileName in importCache) ==> importCache == old(importCache) && readLog == old(readLog)
      ensures !old(resolvedFileName in importCache) ==>
        resolvedFileName !in old(readLog) && |readLog| > |old(readLog)| && readLog[|old(readLog)|] == resolvedFileName
      ensures forall q :: q in old(importCache) ==> q in importCache && importCache[q] == old(importCache[q])
      ensures forall q :: q in importCache && q !in old(importCache) ==> rank(q) <= rank(resolvedFileName)
      ensures old(readLog) <= readLog && Pending() == old(Pending())
      decreases rank(resolvedFileName), 3, 0
    {
      if resolvedFileName !in importCache {
        assert resolvedFileName !in Pending();
        var fromFile := GetCustomPropertiesFromCSSFile(resolvedFileName);
        importCache := importCache[resolvedFileName := fromFile];
      }
      m := importCache[resolvedFileName];
    }

    /** The custom properties of the file at path `p`: read, parse and
        resolve it, turning any failure into the empty map. The file is read
        here and nowhere else, and only if it was never read before. The
        cache gains entries only for files below `p` in the import graph,
        and `p` is pending until its caller enters it. */
    method GetCustomPropertiesFromCSSFile(p: Path) returns (m: PropertyMap)
      requires Valid()
      requires p !in readLog
      requires forall q :: q in Pending() ==> rank(q) >= rank(p)
      modifies this
      ensures Valid()
      ensures m == FileProps(host, rank, p)
      ensures forall q :: q in old(importCache) ==> q in importCache && importCache[q] == old(importCache[q])
      ensures forall q :: q in importCache && q !in old(importCache) ==> rank(q) < rank(p)
      ensures old(readLog) + [p] <= readLog && Pending() == old(Pending()) + {p}
      decreases rank(p), 2, 0
    {
      readLog := readLog + [p];
      if p !in host.files || host.files[p].None? {
        return map[];
      }
      var items := host.files[p].value;
      BoundWithin(host, rank, SourceDir(host, Some(p)), items, rank(p));
      var r := GetCustomPropertiesFromRoot(Root(Some(p), items));
      if r.Ok? {
        m := r.value;
      } else {
        m := map[];
      }
    }
  }

  /** Every `@import` among `items` resolves to a path with an entry in `cache`. */
  ghost predicate ImportsCached(host: Host, cache: map<Path, PropertyMap>, sourceDir: Path, items: seq<Item>) {
    forall j :: 0 <= j < |Imports(items)| ==>
      Target(host, sourceDir, Imports(items)[j]).Ok? && Target(host, sourceDir, Imports(items)[j]).value in cache
  }

  /** A cache that only gains entries keeps every import cached. */
  lemma ImportsCachedGrows(host: Host, c1: map<Path, PropertyMap>, c2: map<Path, PropertyMap>, sourceDir: Path, items: seq<Item>)
    requires ImportsCached(host, c1, sourceDir, items)
    requires forall p :: p in c1 ==> p in c2
    ensures ImportsCached(host, c2, sourceDir, items)
  {
  }

  /** One more item of the walk: a declaration changes nothing, and an
      `@import` whose target has an entry extends the cached prefix. */
  lemma ImportsCachedStep(host: Host, cache: map<Path, PropertyMap>, sourceDir: Path, items: seq<Item>, i: int)
    requires 0 <= i < |items|
    requires ImportsCached(host, cache, sourceDir, items[..i])
    requires items[i].Import? ==>
      Target(host, sourceDir, items[i].param).Ok? && Target(host, sourceDir, items[i].param).value in cache
    ensures ImportsCached(host, cache, sourceDir, items[..i + 1])
  {
    assert items[..i + 1][..i] == items[..i];
    var ps0 := Imports(items[..i]);
    if items[i].Import? {
      assert Imports(items[..i + 1]) == ps0 + [items[i].param];
      assert forall j :: 0 <= j < |ps0| ==> Imports(items[..i + 1])[j] == ps0[j];
    } else {
      assert Imports(items[..i + 1]) == ps0;
    }
  }

  /** The imported maps merged in order into a fresh accumulator, each one's
      keys overwriting the earlier values. */
  method MergeImports(importedMaps: seq<PropertyMap>) returns (customProperties: PropertyMap)
    ensures customProperties == MergeAll(importedMaps)
  {
    customProperties := map[];
    var j := 0;
    while j < |importedMaps|
      invariant 0 <= j <= |importedMaps|
      invariant customProperties == MergeAll(importedMaps[..j])
    {
      assert importedMaps[..j + 1][..j] == importedMaps[..j];
      customProperties := customProperties + importedMaps[j];
      j := j + 1;
    }
    assert importedMaps[..|importedMaps|] == importedMaps;
  }

  /** The custom-property declarations among `items` written over `acc` in
      document order. */
  method WriteDeclarations(acc: PropertyMap, items: seq<Item>) returns (customProperties: PropertyMap)
    ensures customProperties == Overlay(acc, items)
  {
    customProperties := acc;
    var k := 0;
    while k < |items|
      invariant 0 <= k <= |items|
      invariant customProperties == Overlay(acc, items[..k])
    {
      assert items[..k + 1][..k] == items[..k];
      if items[k].Decl? && IsCustomPropertyName(items[k].prop) {
        customProperties := customProperties[items[k].prop := items[k].value];
      }
      k := k + 1;
    }
    assert items[..|items|] == items;
  }
}
