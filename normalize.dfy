/** `normalize`: the stages applied in a fixed order (filter, derepeat,
    whitespace, decomposition), each one only when its option is set. */
module Pipeline {
  import opened Text
  import opened Filter
  import opened Jamo
  import opened Repeat
  import opened Whitespace

  datatype Option<T> = None | Some(value: T)

  /** `NormalizeConfig`: one option per stage. */
  datatype NormalizeConfig = NormalizeConfig(
    hangulToJamo: bool,
    controlChars: Option<string>,
    repeat: Option<nat>,
    whitespaceLess: bool)

  /** A configuration whose replacement text is inserted literally. */
  predicate LiteralReplacement(opts: NormalizeConfig) {
    opts.controlChars.Some? ==> IsLiteral(opts.controlChars.value)
  }

  /** `normalize`. */
  function Normalize(text: string, opts: NormalizeConfig): string
    requires LiteralReplacement(opts)
  {
    var filtered := match opts.controlChars
      case Some(replacement) => ControlChars(text, replacement)
      case None => text;
    var derepeated := match opts.repeat
      case Some(n) => Derepeated(filtered, n)
      case None => filtered;
    var compacted := if opts.whitespaceLess then Compacted(derepeated) else derepeated;
    if opts.hangulToJamo then HangulToJamo(compacted) else compacted
  }

  /** With every option off the text is returned unchanged. */
  lemma AllOffIdentity(text: string)
    ensures Normalize(text, NormalizeConfig(false, None, None, false)) == text
  {
  }

  /** A single enabled stage is that stage alone. */
  lemma SingleStages(text: string, replacement: string, n: nat)
    requires IsLiteral(replacement)
    ensures Normalize(text, NormalizeConfig(false, Some(replacement), None, false))
            == ControlChars(text, replacement)
    ensures Normalize(text, NormalizeConfig(false, None, Some(n), false)) == Derepeated(text, n)
    ensures Normalize(text, NormalizeConfig(false, None, None, true)) == Compacted(text)
    ensures Normalize(text, NormalizeConfig(true, None, None, false)) == HangulToJamo(text)
  {
  }

  /** Derepeating only deletes characters. */
  lemma DerepeatedMembers(text: string, n: nat)
    ensures forall c :: c in Derepeated(text, n) ==> c in text
  {
    DerepeatSubsequence(text, n, |text|);
    assert text[..|text|] == text;
    SubsequenceMembers(Derepeated(text, n), text);
  }

  /** Compatibility jamo, syllables and the characters the filter allows are
      never whitespace other than the whitespace it allows itself. */
  lemma CompatJamoAllowed(c: char)
    requires IsCompatJamo(c)
    ensures IsAllowed(c) && !IsWhitespace(c) && !IsSyllable(c)
  {
  }

  /** With an allowed replacement and every stage on, the output holds only
      allowed characters, and no precomposed syllable and no U+0000. */
  lemma FullPipelineClean(text: string, replacement: string, n: nat)
    requires IsLiteral(replacement)
    requires forall c :: c in replacement ==> IsAllowed(c)
    ensures var r := Normalize(text, NormalizeConfig(true, Some(replacement), Some(n), true));
            forall c :: c in r ==> IsAllowed(c) && !IsSyllable(c) && c != '\0'
  {
    var compacted := Compacted(Derepeated(ControlChars(text, replacement), n));
    ControlCharsIdempotent(text, replacement);
    MiddleAllowed(ControlChars(text, replacement), n);
    HangulToJamoClean(compacted);
    forall c | c in HangulToJamo(compacted)
      ensures IsAllowed(c)
    {
      if IsCompatJamo(c) {
        CompatJamoAllowed(c);
      }
    }
  }

  /** Decomposing a character other than U+0000 yields at least one
      character; whitespace comes out as itself, anything else as
      non-whitespace. */
  lemma DecomposeWhitespace(c: char)
    requires c != '\0'
    ensures Decompose(c) != []
    ensures IsWhitespace(c) ==> Decompose(c) == [c]
    ensures !IsWhitespace(c) ==> forall x :: x in Decompose(c) ==> !IsWhitespace(x)
    ensures TabAfterWhitespace(Decompose(c))
  {
    if IsSyllable(c) {
      forall x | x in Decompose(c) ensures !IsWhitespace(x) {
        CompatJamoAllowed(x);
      }
    }
  }

  /** Joining two texts keeps "a tab after every whitespace pair" when the
      seam keeps it too. */
  lemma TabAfterJoin(a: string, b: string)
    requires TabAfterWhitespace(a) && TabAfterWhitespace(b)
    requires a != [] && b != [] && IsWhitespace(a[|a| - 1]) && IsWhitespace(b[0]) ==> b[0] == '\t'
    ensures TabAfterWhitespace(a + b)
  {
    var s := a + b;
    forall i | 0 < i < |s| && IsWhitespace(s[i - 1]) && IsWhitespace(s[i])
      ensures s[i] == '\t'
    {
      if i < |a| {
        assert s[i - 1] == a[i - 1] && s[i] == a[i];
      } else if i > |a| {
        assert s[i - 1] == b[i - 1 - |a|] && s[i] == b[i - |a|];
      }
    }
  }

  /** Decomposition of a text without U+0000 keeps the whitespace-ness of its
      first character, and keeps it as it is when it is whitespace. */
  lemma DecomposeFirst(s: string)
    requires s != [] && s[0] != '\0'
    ensures DecomposeAll(s) != []
    ensures IsWhitespace(s[0]) ==> DecomposeAll(s)[0] == s[0]
    ensures !IsWhitespace(s[0]) ==> !IsWhitespace(DecomposeAll(s)[0])
  {
    DecomposeWhitespace(s[0]);
    var d := Decompose(s[0]);
    assert d[0] in d;
    assert DecomposeAll(s)[0] == d[0];
  }

  /** The same for the last character. */
  lemma {:induction false} DecomposeLast(s: string)
    requires s != [] && '\0' !in s
    ensures DecomposeAll(s) != []
    ensures IsWhitespace(s[|s| - 1]) ==> DecomposeAll(s)[|DecomposeAll(s)| - 1] == s[|s| - 1]
    ensures !IsWhitespace(s[|s| - 1]) ==> !IsWhitespace(DecomposeAll(s)[|DecomposeAll(s)| - 1])
  {
    var rest := s[1..];
    DecomposeWhitespace(s[0]);
    var d := Decompose(s[0]);
    if rest == [] {
      assert DecomposeAll(s) == d;
      assert d[|d| - 1] in d;
    } else {
      assert '\0' !in rest by {
        assert forall x :: x in rest ==> x in s;
      }
      DecomposeLast(rest);
      assert rest[|rest| - 1] == s[|s| - 1];
    }
  }

  /** Text without U+0000 in which every pair of adjacent whitespace
      characters has a tab second keeps that shape when decomposed. */
  lemma {:induction false} DecomposeTabs(s: string)
    requires '\0' !in s && TabAfterWhitespace(s)
    ensures TabAfterWhitespace(DecomposeAll(s))
  {
    if s != [] {
      var c, rest := s[0], s[1..];
      assert '\0' !in rest by {
        assert forall x :: x in rest ==> x in s;
      }
      assert TabAfterWhitespace(rest) by {
        forall i | 0 < i < |rest| && IsWhitespace(rest[i - 1]) && IsWhitespace(rest[i])
          ensures rest[i] == '\t'
        {
          assert rest[i - 1] == s[i] && rest[i] == s[i + 1];
        }
      }
      DecomposeTabs(rest);
      if rest != [] {
        DecomposeFirst(rest);
      }
      DecomposeWhitespace(c);
      var d := Decompose(c);
      assert d[|d| - 1] in d;
      TabAfterJoin(d, DecomposeAll(rest));
    }
  }

  /** Derepeating and removing whitespace pass on only characters they
      receive, so only allowed characters when they receive only those. */
  lemma MiddleAllowed(s: string, n: nat)
    requires forall c :: c in s ==> IsAllowed(c)
    ensures forall c :: c in Compacted(Derepeated(s, n)) ==> c in s
    ensures forall c :: c in Compacted(Derepeated(s, n)) ==> IsAllowed(c)
  {
    DerepeatedMembers(s, n);
    CompactedMembers(Derepeated(s, n));
  }

  /** With an allowed replacement the first three stages leave no U+0000. */
  lemma MiddleNoNul(text: string, replacement: string, n: nat)
    requires IsLiteral(replacement)
    requires forall c :: c in replacement ==> IsAllowed(c)
    ensures '\0' !in Compacted(Derepeated(ControlChars(text, replacement), n))
  {
    ControlCharsIdempotent(text, replacement);
    MiddleAllowed(ControlChars(text, replacement), n);
    assert !IsAllowed('\0');
  }

  /** With an allowed replacement and every stage on, the output also has the
      whitespace shape the whitespace stage gives: no whitespace at either
      end, and a tab second in every pair of adjacent whitespace characters. */
  lemma FullPipelineShape(text: string, replacement: string, n: nat)
    requires IsLiteral(replacement)
    requires forall c :: c in replacement ==> IsAllowed(c)
    ensures var r := Normalize(text, NormalizeConfig(true, Some(replacement), Some(n), true));
            (r == [] || (!IsWhitespace(r[0]) && !IsWhitespace(r[|r| - 1])))
            && TabAfterWhitespace(r)
  {
    var derepeated := Derepeated(ControlChars(text, replacement), n);
    var compacted := Compacted(derepeated);
    MiddleNoNul(text, replacement, n);
    Shape(derepeated);
    if compacted != [] {
      DecomposeFirst(compacted);
      DecomposeLast(compacted);
    }
    DecomposeTabs(compacted);
    HangulToJamoPerCharacter(compacted);
  }

  /** Without the filter the shape can be lost: `whitespace_less` keeps a
      U+0000 between two spaces, and decomposition then deletes it, leaving
      two adjacent spaces. */
  lemma NulBetweenSpaces()
    ensures Normalize("a \0 b", NormalizeConfig(true, None, None, true)) == "a  b"
    ensures !TabAfterWhitespace("a  b")
  {
    NulKeptByWhitespaceLess();
    NulDeletedByDecomposition();
    AdjacentSpaces();
  }

  lemma AdjacentSpaces()
    ensures !TabAfterWhitespace("a  b")
  {
    assert "a  b"[1] == ' ' && "a  b"[2] == ' ';
  }

  lemma NulKeptByWhitespaceLess()
    ensures Compacted("a \0 b") == "a \0 b"
  {
    var t := "a \0 b";
    assert TabAfterWhitespace(t) by {
      assert !IsWhitespace(t[0]) && !IsWhitespace(t[2]) && !IsWhitespace(t[4]);
    }
    KeptWhole(t);
  }

  /** Text that neither starts nor ends with whitespace and whose adjacent
      whitespace pairs all have a tab second is returned by `whitespace_less`
      unchanged. */
  lemma KeptWhole(t: string)
    requires t == [] || (!IsWhitespace(t[0]) && !IsWhitespace(t[|t| - 1]))
    requires TabAfterWhitespace(t)
    ensures Compacted(t) == t
  {
    TrimNoop(t);
    SqueezeKeepsAll(t, |t|);
    assert t[..|t|] == t;
  }

  lemma NulDeletedByDecomposition()
    ensures HangulToJamo("a \0 b") == "a  b"
  {
    assert "a \0 b" == "a " + ['\0'] + " b";
    NulDeleted("a ", " b");
  }

  /** A U+0000 between two stretches of plain text is deleted, joining them. */
  lemma NulDeleted(a: string, b: string)
    requires forall c :: c in a ==> !IsSyllable(c) && c != '\0'
    requires forall c :: c in b ==> !IsSyllable(c) && c != '\0'
    ensures HangulToJamo(a + ['\0'] + b) == a + b
  {
    var left := a + ['\0'];
    HangulToJamoAppend(left, b);
    HangulToJamoAppend(a, ['\0']);
    PlainTextUnchanged(a);
    PlainTextUnchanged(b);
    NulAlone();
    assert HangulToJamo(left) == a;
  }

  lemma NulAlone()
    ensures HangulToJamo(['\0']) == []
  {
    HangulToJamoPerCharacter(['\0']);
    assert DecomposeAll(['\0']) == Decompose('\0') + DecomposeAll([]);
  }
}
