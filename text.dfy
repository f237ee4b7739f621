/** Character classes and sequence relations shared by the normalisation stages. */
module Text {

  /** Unicode `White_Space`: the class behind Rust's `char::is_whitespace`,
      `str::trim` and the regex class `\s` (25 code points). */
  predicate IsWhitespace(c: char) {
    ('\t' <= c <= '\r') || c == ' ' || c == '\U{0085}' || c == '\U{00A0}'
    || c == '\U{1680}' || ('\U{2000}' <= c <= '\U{200A}')
    || c == '\U{2028}' || c == '\U{2029}' || c == '\U{202F}'
    || c == '\U{205F}' || c == '\U{3000}'
  }

  /** A precomposed Hangul syllable, '가' (U+AC00) through '힣' (U+D7A3). */
  predicate IsSyllable(c: char) {
    '가' <= c <= '힣'
  }

  /** The "impossible" character (U+1D54A) with which the stateful scans seed
      their previous-character state. */
  const SENTINEL: char := '\U{1D54A}'

  /** `a` can be obtained from `b` by deleting characters. */
  predicate IsSubsequence(a: string, b: string)
    decreases |b|
  {
    a == [] ||
    (b != [] &&
     ((a[|a| - 1] == b[|b| - 1] && IsSubsequence(a[..|a| - 1], b[..|b| - 1]))
      || IsSubsequence(a, b[..|b| - 1])))
  }

  /** The characters of `s` that are not whitespace, in order. */
  function NonWhitespace(s: string): string {
    if s == [] then []
    else NonWhitespace(s[..|s| - 1])
         + (if IsWhitespace(s[|s| - 1]) then [] else [s[|s| - 1]])
  }

  /** Deleting whitespace distributes over concatenation. */
  lemma {:induction false} NonWhitespaceAppend(a: string, b: string)
    ensures NonWhitespace(a + b) == NonWhitespace(a) + NonWhitespace(b)
    decreases |b|
  {
    if b != [] {
      var b' := b[..|b| - 1];
      assert (a + b)[..|a + b| - 1] == a + b';
      NonWhitespaceAppend(a, b');
    } else {
      assert a + b == a;
    }
  }

  lemma NonWhitespaceSingle(c: char)
    ensures NonWhitespace([c]) == if IsWhitespace(c) then [] else [c]
  {
    assert [c][..0] == [];
  }

  /** Every character of a subsequence occurs in the sequence it was taken from. */
  lemma {:induction false} SubsequenceMembers(a: string, b: string)
    requires IsSubsequence(a, b)
    ensures forall c :: c in a ==> c in b
    decreases |b|
  {
    if a != [] {
      var b' := b[..|b| - 1];
      if a[|a| - 1] == b[|b| - 1] && IsSubsequence(a[..|a| - 1], b') {
        SubsequenceMembers(a[..|a| - 1], b');
        forall c | c in a ensures c in b {
          if c != a[|a| - 1] {
            assert a == a[..|a| - 1] + [a[|a| - 1]];
            assert c in a[..|a| - 1];
          }
        }
      } else {
        SubsequenceMembers(a, b');
        forall c | c in a ensures c in b {
          assert c in b';
          assert b == b' + [b[|b| - 1]];
        }
      }
    }
  }
}
