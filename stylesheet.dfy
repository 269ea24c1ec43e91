/** The data the resolver works on: a parsed stylesheet, the resulting
    custom-property map, and the collaborators it delegates to (the file
    system with its parser, and the two path resolvers). */
module Stylesheet {

  type Path = string

  /** A flat map from custom-property name to its raw, unevaluated value. */
  type PropertyMap = map<string, string>

  datatype Option<T> = None | Some(value: T)

  /** The one failure the resolver lets escape: a `~` reference that module
      resolution cannot find. */
  datatype ResolveError = ModuleNotFound(request: string)

  datatype Result<T> = Ok(value: T) | Err(error: ResolveError)

  /** The nodes the resolver visits: `@import` at-rules with their raw
      parameter, and declarations with their property name and raw value. */
  datatype Item = Import(param: string) | Decl(prop: string, value: string)

  /** A parsed stylesheet: the file it was parsed from, if any, and its
      `@import` rules and declarations in document (walk) order. */
  datatype Root = Root(file: Option<Path>, items: seq<Item>)

  /** Everything outside the resolver.
      - moduleDir: the directory of the resolver's own module, the fallback
        base directory;
      - dirname, resolvePath: the directory of a path, and a reference
        resolved against a directory;
      - requireResolve: module resolution of a package reference, None when
        the module cannot be found;
      - files: what reading and parsing a path gives, None (or no entry) when
        the read or the parse fails. */
  datatype Host = Host(
    moduleDir: Path,
    dirname: Path -> Path,
    resolvePath: (Path, string) -> Path,
    requireResolve: string -> Option<Path>,
    files: map<Path, Option<seq<Item>>>)

  /** The parameters of the `@import` rules among `items`, in order. */
  function Imports(items: seq<Item>): (ps: seq<string>)
    ensures |ps| <= |items|
  {
    if items == [] then []
    else
      var ps0 := Imports(items[..|items| - 1]);
      match items[|items| - 1]
      case Import(param) => ps0 + [param]
      case Decl(_, _) => ps0
  }

  predicate NoDuplicates<T(==)>(s: seq<T>) {
    forall i, j :: 0 <= i < j < |s| ==> s[i] != s[j]
  }
}
