/** `whitespace_less`: trim the text, then drop every whitespace character
    that follows whitespace, unless it is a tab. */
module Whitespace {
  import opened Text

  /** `str::trim_start`: leading White_Space removed. */
  function TrimStart(s: string): (r: string)
    ensures |r| <= |s| && r == s[|s| - |r|..]
    ensures r == [] || !IsWhitespace(r[0])
    ensures forall i :: 0 <= i < |s| - |r| ==> IsWhitespace(s[i])
  {
    if s != [] && IsWhitespace(s[0]) then TrimStart(s[1..]) else s
  }

  /** `str::trim_end`: trailing White_Space removed. */
  function TrimEnd(s: string): (r: string)
    ensures |r| <= |s| && r == s[..|r|]
    ensures r == [] || !IsWhitespace(r[|r| - 1])
    ensures forall i :: |r| <= i < |s| ==> IsWhitespace(s[i])
  {
    if s != [] && IsWhitespace(s[|s| - 1]) then TrimEnd(s[..|s| - 1]) else s
  }

  /** `str::trim`. */
  function Trim(s: string): string {
    TrimEnd(TrimStart(s))
  }

  /** Whether the scan keeps `t[i]`: it drops a whitespace character right
      after whitespace, unless it is a tab. */
  predicate Keeps(t: string, i: nat)
    requires i < |t|
  {
    !(i > 0 && IsWhitespace(t[i - 1]) && IsWhitespace(t[i])) || t[i] == '\t'
  }

  /** The characters among the first `k` of `t` that the scan keeps. */
  function Squeeze(t: string, k: nat): string
    requires k <= |t|
  {
    if k == 0 then [] else Squeeze(t, k - 1) + (if Keeps(t, k - 1) then [t[k - 1]] else [])
  }

  /** What `whitespace_less(text)` returns. */
  function Compacted(text: string): string {
    Squeeze(Trim(text), |Trim(text)|)
  }

  /** `whitespace_less`: the filter closure remembers the last character it
      let through other than a tab that followed whitespace, and drops a
      whitespace character when that remembered character is whitespace too
      (a tab is let through but not remembered). */
  method WhitespaceLess(text: string) returns (r: string)
    ensures r == Compacted(text)
  {
    var t := Trim(text);
    var lastChar := SENTINEL;
    r := [];
    var i := 0;
    while i < |t|
      invariant i <= |t|
      invariant r == Squeeze(t, i)
      invariant i == 0 ==> lastChar == SENTINEL
      invariant i > 0 ==> (IsWhitespace(lastChar) <==> IsWhitespace(t[i - 1]))
    {
      var c := t[i];
      if IsWhitespace(lastChar) && IsWhitespace(c) {
        if c == '\t' {
          r := r + [c];
        }
      } else {
        lastChar := c;
        r := r + [c];
      }
      i := i + 1;
    }
  }

  /** Any two adjacent whitespace characters of `s` have a tab second. */
  predicate TabAfterWhitespace(s: string) {
    forall i :: 0 < i < |s| && IsWhitespace(s[i - 1]) && IsWhitespace(s[i]) ==> s[i] == '\t'
  }

  /** The first character is always kept, and the last kept character is
      whitespace exactly when the last character read is. */
  lemma {:induction false} SqueezeEnds(t: string, k: nat)
    requires 0 < k <= |t|
    ensures Squeeze(t, k) != [] && Squeeze(t, k)[0] == t[0]
    ensures IsWhitespace(Squeeze(t, k)[|Squeeze(t, k)| - 1]) <==> IsWhitespace(t[k - 1])
    ensures Keeps(t, k - 1) ==> Squeeze(t, k)[|Squeeze(t, k)| - 1] == t[k - 1]
  {
    if k > 1 {
      SqueezeEnds(t, k - 1);
    }
  }

  /** The scan leaves no two adjacent whitespace characters, except where the
      second is a tab. */
  lemma {:induction false} SqueezeTabs(t: string, k: nat)
    requires k <= |t|
    ensures TabAfterWhitespace(Squeeze(t, k))
  {
    if k > 0 {
      SqueezeTabs(t, k - 1);
      var s := Squeeze(t, k - 1);
      if Keeps(t, k - 1) {
        if k > 1 {
          SqueezeEnds(t, k - 1);
        }
        var s' := s + [t[k - 1]];
        forall i | 0 < i < |s'| && IsWhitespace(s'[i - 1]) && IsWhitespace(s'[i])
          ensures s'[i] == '\t'
        {
          if i < |s| {
            assert s'[i - 1] == s[i - 1] && s'[i] == s[i];
          }
        }
      } else {
        assert Squeeze(t, k) == s;
      }
    }
  }

  /** The scan drops only whitespace. */
  lemma {:induction false} SqueezeNonWhitespace(t: string, k: nat)
    requires k <= |t|
    ensures NonWhitespace(Squeeze(t, k)) == NonWhitespace(t[..k])
  {
    if k > 0 {
      SqueezeNonWhitespace(t, k - 1);
      var s := Squeeze(t, k - 1);
      var c := t[k - 1];
      assert t[..k] == t[..k - 1] + [c];
      NonWhitespaceAppend(t[..k - 1], [c]);
      NonWhitespaceSingle(c);
      if Keeps(t, k - 1) {
        NonWhitespaceAppend(s, [c]);
      } else {
        assert Squeeze(t, k) == s;
      }
    }
  }

  /** Every kept character comes from the text read so far. */
  lemma {:induction false} SqueezeMembers(t: string, k: nat)
    requires k <= |t|
    ensures forall c :: c in Squeeze(t, k) ==> c in t
  {
    if k > 0 {
      SqueezeMembers(t, k - 1);
    }
  }

  /** Text with no whitespace pair other than before a tab is kept whole. */
  lemma {:induction false} SqueezeKeepsAll(t: string, k: nat)
    requires TabAfterWhitespace(t) && k <= |t|
    ensures Squeeze(t, k) == t[..k]
  {
    if k > 0 {
      SqueezeKeepsAll(t, k - 1);
      assert t[..k] == t[..k - 1] + [t[k - 1]];
    }
  }

  /** A trimmed text neither starts nor ends with whitespace. */
  lemma TrimEnds(s: string)
    ensures Trim(s) == [] || (!IsWhitespace(Trim(s)[0]) && !IsWhitespace(Trim(s)[|Trim(s)| - 1]))
  {
    var u := TrimStart(s);
    if TrimEnd(u) != [] {
      assert TrimEnd(u)[0] == u[0];
    }
  }

  /** Text that neither starts nor ends with whitespace is its own trim. */
  lemma TrimNoop(s: string)
    requires s == [] || (!IsWhitespace(s[0]) && !IsWhitespace(s[|s| - 1]))
    ensures Trim(s) == s
  {
  }

  /** Whitespace around a text that neither starts nor ends with whitespace
      is exactly what trimming removes. */
  lemma {:induction false} TrimAround(lead: string, mid: string, trail: string)
    requires forall c :: c in lead ==> IsWhitespace(c)
    requires forall c :: c in trail ==> IsWhitespace(c)
    requires mid != [] && !IsWhitespace(mid[0]) && !IsWhitespace(mid[|mid| - 1])
    ensures Trim(lead + mid + trail) == mid
  {
    TrimStartAround(lead, mid + trail);
    assert lead + mid + trail == lead + (mid + trail);
    TrimEndAround(mid, trail);
  }

  lemma {:induction false} TrimStartAround(lead: string, rest: string)
    requires forall c :: c in lead ==> IsWhitespace(c)
    requires rest != [] && !IsWhitespace(rest[0])
    ensures TrimStart(lead + rest) == rest
    decreases |lead|
  {
    if lead != [] {
      assert (lead + rest)[1..] == lead[1..] + rest;
      assert lead[0] in lead;
      TrimStartAround(lead[1..], rest);
    } else {
      assert lead + rest == rest;
    }
  }

  lemma {:induction false} TrimEndAround(mid: string, trail: string)
    requires forall c :: c in trail ==> IsWhitespace(c)
    requires mid != [] && !IsWhitespace(mid[|mid| - 1])
    ensures TrimEnd(mid + trail) == mid
    decreases |trail|
  {
    if trail != [] {
      var t' := trail[..|trail| - 1];
      assert (mid + trail)[..|mid + trail| - 1] == mid + t';
      assert trail[|trail| - 1] in trail;
      TrimEndAround(mid, t');
    } else {
      assert mid + trail == mid;
    }
  }

  /** The output neither starts nor ends with whitespace, and any two
      adjacent whitespace characters in it have a tab second. */
  lemma Shape(text: string)
    ensures Compacted(text) == [] || (!IsWhitespace(Compacted(text)[0])
                                     && !IsWhitespace(Compacted(text)[|Compacted(text)| - 1]))
    ensures TabAfterWhitespace(Compacted(text))
  {
    var t := Trim(text);
    TrimEnds(text);
    SqueezeTabs(t, |t|);
    if t != [] {
      SqueezeEnds(t, |t|);
    }
  }

  /** The non-whitespace characters of the output are exactly those of the
      input, in order. */
  lemma KeepsNonWhitespace(text: string)
    ensures NonWhitespace(Compacted(text)) == NonWhitespace(text)
  {
    var t := Trim(text);
    SqueezeNonWhitespace(t, |t|);
    assert t[..|t|] == t;
    TrimStartNonWhitespace(text);
    TrimEndNonWhitespace(TrimStart(text));
  }

  /** Trimming the start deletes only whitespace. */
  lemma TrimStartNonWhitespace(s: string)
    ensures NonWhitespace(TrimStart(s)) == NonWhitespace(s)
  {
    var u := TrimStart(s);
    var i := |s| - |u|;
    var lead := s[..i];
    assert u == s[i..];
    assert s == lead + u;
    assert forall m :: 0 <= m < |lead| ==> IsWhitespace(lead[m]);
    AllWhitespaceDeleted(lead);
    NonWhitespaceAppend(lead, u);
  }

  /** Trimming the end deletes only whitespace. */
  lemma TrimEndNonWhitespace(s: string)
    ensures NonWhitespace(TrimEnd(s)) == NonWhitespace(s)
  {
    var u := TrimEnd(s);
    var trail := s[|u|..];
    assert s == u + trail;
    assert forall m :: 0 <= m < |trail| ==> IsWhitespace(trail[m]);
    AllWhitespaceDeleted(trail);
    NonWhitespaceAppend(u, trail);
  }

  /** Text made only of whitespace has no non-whitespace characters. */
  lemma {:induction false} AllWhitespaceDeleted(s: string)
    requires forall m :: 0 <= m < |s| ==> IsWhitespace(s[m])
    ensures NonWhitespace(s) == []
  {
    if s != [] {
      AllWhitespaceDeleted(s[..|s| - 1]);
    }
  }

  /** Every output character occurs in the input. */
  lemma CompactedMembers(text: string)
    ensures forall c :: c in Compacted(text) ==> c in text
  {
    var t := Trim(text);
    TrimEnds(text);
    SqueezeMembers(t, |t|);
  }

  /** Applying the stage twice is the same as applying it once. */
  lemma CompactedIdempotent(text: string)
    ensures Compacted(Compacted(text)) == Compacted(text)
  {
    var r := Compacted(text);
    Shape(text);
    TrimNoop(r);
    SqueezeKeepsAll(r, |r|);
  }

  /** The unit test's trimmed text. */
  lemma ExampleTrim()
    ensures Trim("   가     나  다 라    ") == "가     나  다 라"
  {
    assert "   가     나  다 라    " == "   " + "가     나  다 라" + "    ";
    TrimAround("   ", "가     나  다 라", "    ");
  }

  /** The scan over the unit test's trimmed text, a few characters at a time. */
  lemma ExampleSqueeze()
    ensures Squeeze("가     나  다 라", 12) == "가 나 다 라"
  {
    var t := "가     나  다 라";
    assert Squeeze(t, 2) == "가 ";
    assert Squeeze(t, 4) == "가 ";
    assert Squeeze(t, 6) == "가 ";
    assert Squeeze(t, 7) == "가 나";
    assert Squeeze(t, 9) == "가 나 ";
    assert Squeeze(t, 10) == "가 나 다";
    assert Squeeze(t, 11) == "가 나 다 ";
  }

  /** The unit test of `whitespace_less`. */
  lemma WhitespaceLessExample()
    ensures Compacted("   가     나  다 라    ") == "가 나 다 라"
  {
    ExampleTrim();
    ExampleSqueeze();
  }
}
