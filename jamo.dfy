/** `hangul_to_jamo`: each precomposed Hangul syllable is split, by the
    arithmetic of section 3.12 of the Unicode Standard ("Conjoining Jamo
    Behavior"), into its leading consonant, vowel and optional trailing
    consonant, written as compatibility jamo. */
module Jamo {
  import opened Text

  /** Leading consonants, indexed by `cho`. */
  const CHO: string := "ㄱㄲㄴㄷㄸㄹㅁㅂㅃㅅㅆㅇㅈㅉㅊㅋㅌㅍㅎ"
  /** Vowels, indexed by `jung`. */
  const JUNG: string := "ㅏㅐㅑㅒㅓㅔㅕㅖㅗㅘㅙㅚㅛㅜㅝㅞㅟㅠㅡㅢㅣ"
  /** Trailing consonants, indexed by `jong`; entry 0 ('\0') means "none". */
  const JONG: string := "\0ㄱㄲㄳㄴㄵㄶㄷㄹㄺㄻㄼㄽㄾㄿㅀㅁㅂㅄㅅㅆㅇㅈㅊㅋㅌㅍㅎ"

  /* The arithmetic below is written with the literal constants of the
     Hangul syllable algorithm: SBase = 44032 (U+AC00, '가'), NCount = 588
     syllables per leading consonant (21 vowels times 28 trailing forms) and
     TCount = 28 trailing forms per vowel, "none" included. */

  /** A compatibility jamo letter, 'ㄱ' (U+3131) through 'ㅣ' (U+3163). */
  predicate IsCompatJamo(c: char) {
    'ㄱ' <= c <= 'ㅣ'
  }

  /** Positions of a syllable's parts in the three tables. */
  datatype Parts = Parts(cho: nat, jung: nat, jong: nat)

  predicate InRange(p: Parts) {
    p.cho < |CHO| && p.jung < |JUNG| && p.jong < |JONG|
  }

  /** The syllable built from the given parts. */
  function Compose(p: Parts): (c: char)
    requires InRange(p)
    ensures IsSyllable(c)
  {
    (44032 + p.cho * 588 + p.jung * 28 + p.jong) as char
  }

  /** The index arithmetic of `hangul_to_jamo`: every syllable yields indices
      within the bounds of the three tables. */
  function SyllableParts(c: char): (p: Parts)
    requires IsSyllable(c)
    ensures InRange(p)
  {
    var offset := c as int - 44032;
    var cho := offset / 588;
    var jung := (offset - cho * 588) / 28;
    var jong := offset - cho * 588 - jung * 28;
    Parts(cho, jung, jong)
  }

  /** Splitting a syllable and recomposing its parts gives the syllable back:
      its offset from '가' is `cho * 588 + jung * 28 + jong`. */
  lemma SplitThenCompose(c: char)
    requires IsSyllable(c)
    ensures Compose(SyllableParts(c)) == c
  {
  }

  /** Every in-range triple of parts is what its syllable splits into. */
  lemma ComposeThenSplit(p: Parts)
    requires InRange(p)
    ensures SyllableParts(Compose(p)) == p
  {
    var offset := p.cho * 588 + p.jung * 28 + p.jong;
    assert p.jung * 28 + p.jong < 588;
    assert p.cho * 588 <= offset < (p.cho + 1) * 588;
    assert offset / 588 == p.cho;
    assert (offset - p.cho * 588) / 28 == p.jung;
  }

  /** Every table entry is a compatibility jamo, except JONG's "none" entry
      '\0'; the tables hold neither syllables nor further '\0'. */
  lemma TableEntries()
    ensures forall i :: 0 <= i < |CHO| ==> IsCompatJamo(CHO[i])
    ensures forall i :: 0 <= i < |JUNG| ==> IsCompatJamo(JUNG[i])
    ensures JONG[0] == '\0'
    ensures forall i :: 0 < i < |JONG| ==> IsCompatJamo(JONG[i])
  {
  }

  /** The three characters that `flat_map` produces for one input character:
      the looked-up parts of a syllable (with '\0' as the "no trailing
      consonant" part), or the character padded with two '\0'. */
  function Group(c: char): (g: string)
    ensures |g| == 3
  {
    if IsSyllable(c) then
      var p := SyllableParts(c);
      [CHO[p.cho], JUNG[p.jung], JONG[p.jong]]
    else
      [c, '\0', '\0']
  }

  /** The `flat_map` stage: the groups of all characters, in order. */
  function Groups(text: string): string {
    if text == [] then [] else Group(text[0]) + Groups(text[1..])
  }

  /** The `filter` stage: every '\0' removed. */
  function DropNul(s: string): (r: string)
    ensures '\0' !in r
    ensures forall c :: c in r ==> c in s
  {
    if s == [] then []
    else (if s[0] == '\0' then [] else [s[0]]) + DropNul(s[1..])
  }

  /** `hangul_to_jamo` as written: pad, flatten, then filter out '\0'. */
  function HangulToJamo(text: string): string {
    DropNul(Groups(text))
  }

  /** What one character becomes: a syllable its leading consonant and vowel,
      followed by its trailing consonant when it has one; '\0' nothing; any
      other character itself. */
  function Decompose(c: char): (r: string)
    ensures IsSyllable(c) ==> (|r| == 3 <==> SyllableParts(c).jong != 0) && 2 <= |r| <= 3
    ensures IsSyllable(c) ==> forall x :: x in r ==> IsCompatJamo(x)
    ensures !IsSyllable(c) ==> r == if c == '\0' then [] else [c]
  {
    TableEntries();
    if IsSyllable(c) then
      var p := SyllableParts(c);
      [CHO[p.cho], JUNG[p.jung]] + (if p.jong != 0 then [JONG[p.jong]] else [])
    else if c == '\0' then []
    else [c]
  }

  /** The per-character reference: every character decomposed, in order. */
  function DecomposeAll(text: string): string {
    if text == [] then [] else Decompose(text[0]) + DecomposeAll(text[1..])
  }

  lemma {:induction false} DropNulAppend(a: string, b: string)
    ensures DropNul(a + b) == DropNul(a) + DropNul(b)
    decreases |a|
  {
    if a == [] {
      assert a + b == b;
    } else {
      assert (a + b)[0] == a[0];
      assert (a + b)[1..] == a[1..] + b;
      DropNulAppend(a[1..], b);
    }
  }

  /** Padding with '\0' and filtering it out again is the same as decomposing
      each character on its own. */
  lemma {:induction false} HangulToJamoPerCharacter(text: string)
    ensures HangulToJamo(text) == DecomposeAll(text)
  {
    if text != [] {
      var c := text[0];
      DropNulAppend(Group(c), Groups(text[1..]));
      HangulToJamoPerCharacter(text[1..]);
      TableEntries();
      var g := Group(c);
      assert DropNul(g) == Decompose(c) by {
        assert DropNul(g) == (if g[0] == '\0' then [] else [g[0]]) + DropNul(g[1..]);
        assert DropNul(g[1..]) == (if g[1] == '\0' then [] else [g[1]]) + DropNul(g[2..]);
        assert DropNul(g[2..]) == (if g[2] == '\0' then [] else [g[2]]) + DropNul(g[3..]);
        assert g[3..] == [];
      }
    }
  }

  lemma {:induction false} DecomposeAllAppend(a: string, b: string)
    ensures DecomposeAll(a + b) == DecomposeAll(a) + DecomposeAll(b)
    decreases |a|
  {
    if a == [] {
      assert a + b == b;
    } else {
      assert (a + b)[0] == a[0];
      assert (a + b)[1..] == a[1..] + b;
      DecomposeAllAppend(a[1..], b);
    }
  }

  /** Decomposition works character by character, so it distributes over
      concatenation. */
  lemma HangulToJamoAppend(a: string, b: string)
    ensures HangulToJamo(a + b) == HangulToJamo(a) + HangulToJamo(b)
  {
    HangulToJamoPerCharacter(a + b);
    HangulToJamoPerCharacter(a);
    HangulToJamoPerCharacter(b);
    DecomposeAllAppend(a, b);
  }

  /** Text without syllables comes out unchanged, except that every '\0' is
      deleted. */
  lemma {:induction false} NonSyllablesPassThrough(text: string)
    requires forall c :: c in text ==> !IsSyllable(c)
    ensures HangulToJamo(text) == DropNul(text)
  {
    HangulToJamoPerCharacter(text);
    if text != [] {
      assert text[0] in text;
      assert forall c :: c in text[1..] ==> c in text;
      NonSyllablesPassThrough(text[1..]);
      HangulToJamoPerCharacter(text[1..]);
    }
  }

  /** The output holds no syllable and no '\0'; every output character is a
      compatibility jamo or an input character that is not a syllable. */
  lemma {:induction false} HangulToJamoClean(text: string)
    ensures forall c :: c in HangulToJamo(text) ==> !IsSyllable(c) && c != '\0'
    ensures forall c :: c in HangulToJamo(text) ==> IsCompatJamo(c) || (c in text && !IsSyllable(c))
  {
    HangulToJamoPerCharacter(text);
    if text != [] {
      HangulToJamoClean(text[1..]);
      HangulToJamoPerCharacter(text[1..]);
      forall c | c in HangulToJamo(text)
        ensures !IsSyllable(c) && c != '\0'
        ensures IsCompatJamo(c) || (c in text && !IsSyllable(c))
      {
        if c in Decompose(text[0]) {
          TableEntries();
        } else {
          assert c in DecomposeAll(text[1..]);
          assert forall x :: x in text[1..] ==> x in text;
        }
      }
    }
  }

  /** Decomposing twice is the same as decomposing once. */
  lemma HangulToJamoIdempotent(text: string)
    ensures HangulToJamo(HangulToJamo(text)) == HangulToJamo(text)
  {
    var once := HangulToJamo(text);
    HangulToJamoClean(text);
    NonSyllablesPassThrough(once);
    DropNulIdentity(once);
  }

  lemma {:induction false} DropNulIdentity(s: string)
    requires '\0' !in s
    ensures DropNul(s) == s
  {
    if s != [] {
      assert s[0] != '\0';
      assert '\0' !in s[1..] by { assert forall x :: x in s[1..] ==> x in s; }
      DropNulIdentity(s[1..]);
    }
  }

  /** A syllable built from in-range parts decomposes into exactly those
      parts' letters, the trailing one only when it is not "none". */
  lemma {:induction false} DecomposeComposed(p: Parts)
    requires InRange(p)
    ensures HangulToJamo([Compose(p)])
            == [CHO[p.cho], JUNG[p.jung]] + (if p.jong != 0 then [JONG[p.jong]] else [])
  {
    ComposeThenSplit(p);
    HangulToJamoPerCharacter([Compose(p)]);
    assert [Compose(p)][1..] == [];
  }

  /** Text with neither syllables nor '\0' comes out unchanged. */
  lemma PlainTextUnchanged(text: string)
    requires forall c :: c in text ==> !IsSyllable(c) && c != '\0'
    ensures HangulToJamo(text) == text
  {
    NonSyllablesPassThrough(text);
    DropNulIdentity(text);
  }

  /** The first two syllables of the unit test. */
  lemma ExampleSyllablesA()
    ensures HangulToJamo("가") == [CHO[0], JUNG[0]]
    ensures HangulToJamo("힣") == [CHO[18], JUNG[20], JONG[27]]
  {
    assert Compose(Parts(0, 0, 0)) == '가';
    DecomposeComposed(Parts(0, 0, 0));
    assert Compose(Parts(18, 20, 27)) == '힣';
    DecomposeComposed(Parts(18, 20, 27));
  }

  /** The last two syllables of the unit test. */
  lemma ExampleSyllablesB()
    ensures HangulToJamo("뷁") == [CHO[7], JUNG[15], JONG[9]]
    ensures HangulToJamo("킼") == [CHO[15], JUNG[20], JONG[24]]
  {
    assert Compose(Parts(7, 15, 9)) == '뷁';
    DecomposeComposed(Parts(7, 15, 9));
    assert Compose(Parts(15, 20, 24)) == '킼';
    DecomposeComposed(Parts(15, 20, 24));
  }

  /** The unit test's text between the syllables. */
  lemma ExamplePlainPieces()
    ensures HangulToJamo(" ") == " " && HangulToJamo(" ab123") == " ab123"
    ensures HangulToJamo("ㄱㄴㄷ") == "ㄱㄴㄷ"
  {
    PlainTextUnchanged("ㄱㄴㄷ");
    PlainTextUnchanged(" ab123");
    PlainTextUnchanged(" ");
  }

  /** The unit test's input, cut between syllables and other text. */
  lemma ExampleSplit()
    ensures HangulToJamo("가힣 뷁 ab123킼ㄱㄴㄷ")
            == HangulToJamo("가") + HangulToJamo("힣") + HangulToJamo(" ") + HangulToJamo("뷁")
               + HangulToJamo(" ab123") + HangulToJamo("킼") + HangulToJamo("ㄱㄴㄷ")
  {
    var t := "가" + "힣" + " " + "뷁" + " ab123" + "킼" + "ㄱㄴㄷ";
    assert "가힣 뷁 ab123킼ㄱㄴㄷ" == t;
    HangulToJamoAppend("가" + "힣" + " " + "뷁" + " ab123" + "킼", "ㄱㄴㄷ");
    HangulToJamoAppend("가" + "힣" + " " + "뷁" + " ab123", "킼");
    HangulToJamoAppend("가" + "힣" + " " + "뷁", " ab123");
    HangulToJamoAppend("가" + "힣" + " ", "뷁");
    HangulToJamoAppend("가" + "힣", " ");
    HangulToJamoAppend("가", "힣");
  }

  /** The unit test of `hangul_to_jamo`. */
  lemma HangulToJamoExample()
    ensures HangulToJamo("가힣 뷁 ab123킼ㄱㄴㄷ") == "ㄱㅏㅎㅣㅎ ㅂㅞㄺ ab123ㅋㅣㅋㄱㄴㄷ"
  {
    assert [CHO[0], JUNG[0]] + [CHO[18], JUNG[20], JONG[27]] + " "
           + [CHO[7], JUNG[15], JONG[9]] + " ab123" + [CHO[15], JUNG[20], JONG[24]] + "ㄱㄴㄷ"
        == "ㄱㅏㅎㅣㅎ ㅂㅞㄺ ab123ㅋㅣㅋㄱㄴㄷ";
    ExampleSplit();
    ExampleSyllablesA();
    ExampleSyllablesB();
    ExamplePlainPieces();
  }
}
