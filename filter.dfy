/** `control_chars`: every character outside an allow-list is replaced, one
    match per character, by the replacement text. */
module Filter {
  import opened Text

  /** The characters the filter lets through: the negated regex class of
      `control_chars`, i.e. `A-Za-z0-9`, the compatibility jamo ranges
      'ㄱ'-'ㅎ' and 'ㅏ'-'ㅣ', the syllables '가'-'힣', the punctuation
      below, `\s` (Unicode White_Space) and '\n'. */
  predicate IsAllowed(c: char) {
    ('A' <= c <= 'Z') || ('a' <= c <= 'z') || ('0' <= c <= '9')
    || ('ㄱ' <= c <= 'ㅎ') || ('ㅏ' <= c <= 'ㅣ') || IsSyllable(c)
    || IsPunctuation(c) || IsWhitespace(c) || c == '\n'
  }

  /** The punctuation of the class: `~ ! ? . , ( ) : ; * / = + - [ ] < >`. */
  predicate IsPunctuation(c: char) {
    c == '~' || c == '!' || c == '?' || c == '.' || c == ',' || c == '(' || c == ')'
    || c == ':' || c == ';' || c == '*' || c == '/' || c == '=' || c == '+' || c == '-'
    || c == '[' || c == ']' || c == '<' || c == '>'
  }

  /** A replacement that the regex engine inserts literally: it contains no
      `$`, so no capture-group reference is expanded. */
  predicate IsLiteral(replacement: string) {
    '$' !in replacement
  }

  /** Number of characters of `text` the filter replaces. */
  function CountDisallowed(text: string): (k: nat)
    ensures k <= |text|
  {
    if text == [] then 0
    else (if IsAllowed(text[0]) then 0 else 1) + CountDisallowed(text[1..])
  }

  /** The filter: allowed characters are kept, each disallowed character
      becomes its own copy of `replacement`. */
  function ControlChars(text: string, replacement: string): (r: string)
    requires IsLiteral(replacement)
  {
    if text == [] then []
    else (if IsAllowed(text[0]) then [text[0]] else replacement)
         + ControlChars(text[1..], replacement)
  }

  /** Every output character is an allowed input character or comes from the
      replacement. */
  lemma {:induction false} ControlCharsMembers(text: string, replacement: string)
    requires IsLiteral(replacement)
    ensures forall c :: c in ControlChars(text, replacement) ==>
              (c in text && IsAllowed(c)) || c in replacement
  {
    if text != [] {
      ControlCharsMembers(text[1..], replacement);
      assert forall c :: c in text[1..] ==> c in text;
    }
  }

  /** Output length: one character per kept character plus one copy of the
      replacement per replaced character. */
  lemma {:induction false} ControlCharsLength(text: string, replacement: string)
    requires IsLiteral(replacement)
    ensures |ControlChars(text, replacement)|
            == (|text| - CountDisallowed(text)) + CountDisallowed(text) * |replacement|
  {
    if text != [] {
      ControlCharsLength(text[1..], replacement);
      var d := CountDisallowed(text[1..]);
      assert (d + 1) * |replacement| == d * |replacement| + |replacement|;
    }
  }

  /** The filter works character by character, so it distributes over
      concatenation. */
  lemma {:induction false} ControlCharsAppend(a: string, b: string, replacement: string)
    requires IsLiteral(replacement)
    ensures ControlChars(a + b, replacement)
            == ControlChars(a, replacement) + ControlChars(b, replacement)
    decreases |a|
  {
    if a == [] {
      assert a + b == b;
    } else {
      assert (a + b)[0] == a[0];
      assert (a + b)[1..] == a[1..] + b;
      ControlCharsAppend(a[1..], b, replacement);
    }
  }

  /** Text that is entirely allowed passes through unchanged. */
  lemma {:induction false} AllowedTextUnchanged(text: string, replacement: string)
    requires IsLiteral(replacement)
    requires forall c :: c in text ==> IsAllowed(c)
    ensures CountDisallowed(text) == 0
    ensures ControlChars(text, replacement) == text
  {
    if text != [] {
      assert text[0] in text;
      assert forall c :: c in text[1..] ==> c in text;
      AllowedTextUnchanged(text[1..], replacement);
    }
  }

  /** With an allowed replacement the output is entirely allowed, and
      filtering a second time changes nothing. */
  lemma ControlCharsIdempotent(text: string, replacement: string)
    requires IsLiteral(replacement)
    requires forall c :: c in replacement ==> IsAllowed(c)
    ensures forall c :: c in ControlChars(text, replacement) ==> IsAllowed(c)
    ensures ControlChars(ControlChars(text, replacement), replacement)
            == ControlChars(text, replacement)
  {
    ControlCharsMembers(text, replacement);
    AllowedTextUnchanged(ControlChars(text, replacement), replacement);
  }

  /** Two allowed stretches, each followed by one disallowed character: each
      of the two is replaced by its own copy of the replacement. */
  lemma ReplaceTwo(a: string, x: char, b: string, y: char, replacement: string)
    requires IsLiteral(replacement)
    requires forall c :: c in a + b ==> IsAllowed(c)
    requires !IsAllowed(x) && !IsAllowed(y)
    ensures ControlChars(a + [x] + b + [y], replacement)
            == a + replacement + b + replacement
  {
    assert forall c :: c in a ==> c in a + b;
    assert forall c :: c in b ==> c in a + b;
    AllowedTextUnchanged(a, replacement);
    AllowedTextUnchanged(b, replacement);
    assert ControlChars([x], replacement) == replacement;
    assert ControlChars([y], replacement) == replacement;
    ControlCharsAppend(a + [x] + b, [y], replacement);
    ControlCharsAppend(a + [x], b, replacement);
    ControlCharsAppend(a, [x], replacement);
  }

  /** The unit test of `control_chars`: '#' and '&' are each replaced. */
  lemma ControlCharsExample()
    ensures ControlChars("가힣#ㄱㅏz1()!?[]/ &", "흠") == "가힣흠ㄱㅏz1()!?[]/ 흠"
  {
    assert "가힣#ㄱㅏz1()!?[]/ &" == "가힣" + ['#'] + "ㄱㅏz1()!?[]/ " + ['&'];
    assert "가힣흠ㄱㅏz1()!?[]/ 흠" == "가힣" + "흠" + "ㄱㅏz1()!?[]/ " + "흠";
    ReplaceTwo("가힣", '#', "ㄱㅏz1()!?[]/ ", '&', "흠");
  }
}
