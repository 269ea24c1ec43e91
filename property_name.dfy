/** Which declarations count as custom properties: the language of the
    regular expression `^--[A-z][\w-]*$`, character classes as written. */
module PropertyName {

  /** The class `[A-z]`: every code point from 'A' (65) to 'z' (122), which
      includes `[`, `\`, `]`, `^`, `_` and the backtick besides the letters. */
  predicate InAtoZRange(c: char) {
    'A' <= c <= 'z'
  }

  /** The class `[\w-]`: ASCII letters, digits, `_` and `-`. */
  predicate IsWordOrHyphen(c: char) {
    ('A' <= c <= 'Z') || ('a' <= c <= 'z') || ('0' <= c <= '9') || c == '_' || c == '-'
  }

  /** The whole name matches: `--`, one character of `[A-z]`, then any number
      of `[\w-]`, and nothing else (the pattern is anchored at both ends). */
  predicate IsCustomPropertyName(name: string) {
    |name| >= 3 && name[0] == '-' && name[1] == '-' && InAtoZRange(name[2])
    && forall k :: 3 <= k < |name| ==> IsWordOrHyphen(name[k])
  }

  /** The pattern split at its three parts: a name matches exactly when it is
      `--`, a head character in `[A-z]` and a tail drawn from `[\w-]`. */
  lemma MatchesAsConcatenation(head: char, tail: string)
    ensures IsCustomPropertyName("--" + [head] + tail)
        <==> InAtoZRange(head) && forall k :: 0 <= k < |tail| ==> IsWordOrHyphen(tail[k])
  {
    var name := "--" + [head] + tail;
    assert name[2] == head;
    forall k | 0 <= k < |tail| ensures name[k + 3] == tail[k] { }
    if IsCustomPropertyName(name) {
      forall k | 0 <= k < |tail| ensures IsWordOrHyphen(tail[k]) {
        assert name[k + 3] == tail[k];
      }
    }
  }

  /** Names the pattern accepts and rejects; among the accepted ones are
      names whose head is punctuation that `[A-z]` lets through. */
  lemma Examples()
    ensures IsCustomPropertyName("--Abc")
    ensures IsCustomPropertyName("--_x")
    ensures IsCustomPropertyName("--x-1_y")
    ensures IsCustomPropertyName("--[") && IsCustomPropertyName("--^a") && IsCustomPropertyName("--`")
    ensures !IsCustomPropertyName("--1abc")
    ensures !IsCustomPropertyName("color")
    ensures !IsCustomPropertyName("--")
    ensures !IsCustomPropertyName("-x")
    ensures !IsCustomPropertyName("--a.b")
    ensures !IsCustomPropertyName("--{")
  {
    assert "--a.b"[3] == '.';
  }
}
