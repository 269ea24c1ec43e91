/** From an `@import` parameter to the path whose properties it imports:
    clean-up of the parameter, the base directory, and the choice between
    module resolution and relative resolution. */
module ImportPath {
  import opened Stylesheet

  /** The characters of the class `['|"]`, which the clean-up deletes. */
  predicate IsQuoteChar(c: char) {
    c == '\'' || c == '"' || c == '|'
  }

  /** The parameter with every `'`, `"` and `|` deleted, wherever it stands. */
  function StripQuotes(s: string): (r: string)
    ensures |r| <= |s|
    ensures forall k :: 0 <= k < |r| ==> !IsQuoteChar(r[k])
  {
    if s == [] then []
    else
      var r0 := StripQuotes(s[..|s| - 1]);
      var c := s[|s| - 1];
      if IsQuoteChar(c) then r0 else r0 + [c]
  }

  /** The clean-up deletes nothing else: every other character occurs in
      the cleaned parameter exactly as often as in the parameter. */
  lemma {:induction false} StripQuotesCounts(s: string, c: char)
    requires !IsQuoteChar(c)
    ensures multiset(StripQuotes(s))[c] == multiset(s)[c]
    decreases |s|
  {
    if s != [] {
      var init, last := s[..|s| - 1], s[|s| - 1];
      StripQuotesCounts(init, c);
      assert s == init + [last];
      assert multiset(s) == multiset(init) + multiset{last};
      if !IsQuoteChar(last) {
        assert multiset(StripQuotes(s)) == multiset(StripQuotes(init)) + multiset{last};
      }
    }
  }

  /** Deletion works character by character: it distributes over
      concatenation, so the characters it keeps stay in their order. */
  lemma {:induction false} StripQuotesConcat(a: string, b: string)
    ensures StripQuotes(a + b) == StripQuotes(a) + StripQuotes(b)
    decreases |b|
  {
    if b == [] {
      assert a + b == a;
    } else {
      var b0 := b[..|b| - 1];
      assert (a + b)[..|a + b| - 1] == a + b0;
      assert (a + b)[|a + b| - 1] == b[|b| - 1];
      StripQuotesConcat(a, b0);
    }
  }

  /** A parameter with nothing to delete is left as it is. */
  lemma {:induction false} StripQuotesKeepsClean(s: string)
    requires forall k :: 0 <= k < |s| ==> !IsQuoteChar(s[k])
    ensures StripQuotes(s) == s
    decreases |s|
  {
    if s != [] {
      StripQuotesKeepsClean(s[..|s| - 1]);
      assert s == s[..|s| - 1] + [s[|s| - 1]];
    }
  }

  /** Cleaning twice is cleaning once. */
  lemma StripQuotesIdempotent(s: string)
    ensures StripQuotes(StripQuotes(s)) == StripQuotes(s)
  {
    StripQuotesKeepsClean(StripQuotes(s));
  }

  /** The base directory for relative imports: the directory of the file the
      stylesheet was parsed from, or the module directory when there is no
      file name (an empty name counts as none). */
  function SourceDir(host: Host, file: Option<Path>): Path
  {
    if file.Some? && file.value != "" then host.dirname(file.value) else host.moduleDir
  }

  /** Whether a cleaned parameter names a package: it begins with `~`. */
  predicate IsModuleReference(fileName: string) {
    |fileName| > 0 && fileName[0] == '~'
  }

  /** The path an `@import` parameter resolves to. After the clean-up, a
      leading `~` is dropped and the rest goes to module resolution, whose
      failure is the one error; anything else is resolved against `dir`. */
  function Target(host: Host, dir: Path, param: string): Result<Path>
  {
    var fileName := StripQuotes(param);
    if IsModuleReference(fileName) then
      var request := fileName[1..];
      match host.requireResolve(request)
      case Some(p) => Ok(p)
      case None => Err(ModuleNotFound(request))
    else
      Ok(host.resolvePath(dir, fileName))
  }

  /** Quoting the parameter, with either quote character, and even around a
      `~`, does not change what it resolves to. */
  lemma QuotingIsIrrelevant(host: Host, dir: Path, q: char, s: string)
    requires IsQuoteChar(q)
    ensures Target(host, dir, [q] + s + [q]) == Target(host, dir, s)
  {
    var x := [q] + s + [q];
    assert StripQuotes([q]) == [] by {
      assert [q][..0] == [];
    }
    StripQuotesConcat([q], s);
    StripQuotesConcat([q] + s, [q]);
    assert StripQuotes(x) == StripQuotes(s);
  }

  /** The number of `'`, `"` and `|` characters at the front of `s`: the
      index of the first character the clean-up keeps, or `|s|`. */
  function LeadingQuotes(s: string): (n: nat)
    ensures n <= |s|
    ensures forall k :: 0 <= k < n ==> IsQuoteChar(s[k])
    ensures n < |s| ==> !IsQuoteChar(s[n])
  {
    if s == [] || !IsQuoteChar(s[0]) then 0 else 1 + LeadingQuotes(s[1..])
  }

  /** A parameter made only of quote characters is cleaned to nothing. */
  lemma {:induction false} StripQuotesAllQuotes(s: string)
    requires forall k :: 0 <= k < |s| ==> IsQuoteChar(s[k])
    ensures StripQuotes(s) == []
    decreases |s|
  {
    if s != [] {
      StripQuotesAllQuotes(s[..|s| - 1]);
    }
  }

  /** Cleaning a parameter from the front: its first character is kept in
      front of the cleaned rest, unless it is a `'`, `"` or `|`. */
  lemma StripQuotesFront(s: string)
    requires s != []
    ensures StripQuotes(s) == (if IsQuoteChar(s[0]) then [] else [s[0]]) + StripQuotes(s[1..])
  {
    var one := [s[0]];
    assert one[..0] == [] && one[0] == s[0];
    assert StripQuotes(one) == (if IsQuoteChar(s[0]) then [] else [s[0]]);
    assert s == one + s[1..];
    StripQuotesConcat(one, s[1..]);
  }

  /** The cleaned parameter starts with the first character the clean-up
      keeps, followed by the cleaned rest. */
  lemma {:induction false} StripQuotesAtFirstKept(s: string)
    requires LeadingQuotes(s) < |s|
    ensures StripQuotes(s) == [s[LeadingQuotes(s)]] + StripQuotes(s[LeadingQuotes(s) + 1..])
    decreases |s|
  {
    StripQuotesFront(s);
    if IsQuoteChar(s[0]) {
      var t := s[1..];
      var m := LeadingQuotes(t);
      assert LeadingQuotes(s) == m + 1;
      StripQuotesAtFirstKept(t);
      assert t[m] == s[m + 1];
      assert t[m + 1..] == s[m + 2..];
    }
  }

  /** A cleaned parameter is a module reference exactly when the first
      character that is not `'`, `"` or `|` is `~`; the module request is
      then the cleaned remainder after that `~`. */
  lemma ModuleReferenceByFirstKept(param: string)
    ensures var n := LeadingQuotes(param);
      IsModuleReference(StripQuotes(param)) <==> n < |param| && param[n] == '~'
    ensures var n := LeadingQuotes(param);
      n < |param| && param[n] == '~' ==> StripQuotes(param)[1..] == StripQuotes(param[n + 1..])
  {
    var n := LeadingQuotes(param);
    if n < |param| {
      StripQuotesAtFirstKept(param);
    } else {
      StripQuotesAllQuotes(param);
    }
  }

  /** The choice of resolver, on the raw parameter: when the first character
      that is not `'`, `"` or `|` is `~`, the cleaned remainder after it goes
      to module resolution, whatever the base directory, and fails exactly
      when module resolution does; any other parameter resolves, cleaned,
      against the base directory. */
  lemma ResolutionChoice(host: Host, dir: Path, param: string)
    ensures var n := LeadingQuotes(param);
      n < |param| && param[n] == '~' ==>
        var request := StripQuotes(param[n + 1..]);
        Target(host, dir, param) ==
          (match host.requireResolve(request)
           case Some(p) => Ok(p)
           case None => Err(ModuleNotFound(request)))
    ensures var n := LeadingQuotes(param);
      !(n < |param| && param[n] == '~') ==> Target(host, dir, param) == Ok(host.resolvePath(dir, StripQuotes(param)))
  {
    ModuleReferenceByFirstKept(param);
  }

  /** One character in front of a `~`: a `'`, `"` or `|` does not hide it,
      so `"~s` and `|~s` request the cleaned `s` from module resolution;
      any other character, a space say, makes a relative import. */
  lemma CharacterBeforeTilde(c: char, s: string)
    ensures IsQuoteChar(c) ==>
      IsModuleReference(StripQuotes([c, '~'] + s)) && StripQuotes([c, '~'] + s)[1..] == StripQuotes(s)
    ensures !IsQuoteChar(c) && c != '~' ==> !IsModuleReference(StripQuotes([c, '~'] + s))
  {
    var x := [c, '~'] + s;
    assert x[0] == c && x[1..][0] == '~';
    assert x[2..] == s;
    ModuleReferenceByFirstKept(x);
  }
}
