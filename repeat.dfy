/** `derepeat`: a left-to-right scan that keeps only the first `n` characters
    of every run of identical characters. */
module Repeat {
  import opened Text

  /** The counter `repeat` that the scan holds after reading `text[i]`: how
      many characters of the same run precede position `i`, plus one when the
      run starts the text and consists of the sentinel (the scan's initial
      previous character). */
  function RunPos(text: string, i: nat): nat
    requires i < |text|
  {
    if i == 0 then (if text[0] == SENTINEL then 1 else 0)
    else if text[i - 1] == text[i] then RunPos(text, i - 1) + 1
    else 0
  }

  /** The characters among the first `k` of `text` that the scan keeps: those
      whose counter is below `n`. */
  function Capped(text: string, n: nat, k: nat): string
    requires k <= |text|
  {
    if k == 0 then []
    else Capped(text, n, k - 1) + (if RunPos(text, k - 1) < n then [text[k - 1]] else [])
  }

  /** What `derepeat(text, n)` returns. */
  function Derepeated(text: string, n: nat): string {
    Capped(text, n, |text|)
  }

  /** `derepeat`: the filter closure updates `last_char` and `repeat` once per
      character and keeps the character while `repeat < n`. */
  method Derepeat(text: string, n: nat) returns (r: string)
    ensures r == Derepeated(text, n)
  {
    var lastChar := SENTINEL;
    var repeat: nat := 0;
    r := [];
    var i := 0;
    while i < |text|
      invariant i <= |text|
      invariant r == Capped(text, n, i)
      invariant i == 0 ==> lastChar == SENTINEL && repeat == 0
      invariant i > 0 ==> lastChar == text[i - 1] && repeat == RunPos(text, i - 1)
    {
      var c := text[i];
      if lastChar == c {
        repeat := repeat + 1;
      } else {
        repeat := 0;
        lastChar := c;
      }
      if repeat < n {
        r := r + [c];
      }
      i := i + 1;
    }
  }

  /** Number of copies of `c` at the end of `s`. */
  function TrailRun(s: string, c: char): (k: nat)
    ensures k <= |s|
  {
    if s != [] && s[|s| - 1] == c then TrailRun(s[..|s| - 1], c) + 1 else 0
  }

  /** No run of identical characters in `s` is longer than `n`. */
  predicate RunsAtMost(s: string, n: nat) {
    forall j :: 0 < j <= |s| ==> TrailRun(s[..j], s[j - 1]) <= n
  }

  /** The counter is the 1-based position of `text[i]` in its run, minus one,
      plus one when that run starts the text and is a run of the sentinel. */
  lemma {:induction false} RunPosIsRunPosition(text: string, i: nat)
    requires i < |text|
    ensures RunPos(text, i) + 1
            == TrailRun(text[..i + 1], text[i])
               + (if text[0] == SENTINEL && TrailRun(text[..i + 1], text[i]) == i + 1 then 1 else 0)
  {
    var s := text[..i + 1];
    assert s[..i] == text[..i];
    if i == 0 {
      assert TrailRun(s[..0], text[0]) == 0;
    } else {
      RunPosIsRunPosition(text, i - 1);
      assert text[..i][..i] == text[..i];
      if text[i - 1] != text[i] {
        assert TrailRun(text[..i], text[i]) == 0;
      }
    }
  }

  /** A zero cap removes every character. */
  lemma {:induction false} DerepeatZero(text: string, k: nat)
    requires k <= |text|
    ensures Capped(text, 0, k) == []
  {
    if k > 0 {
      DerepeatZero(text, k - 1);
    }
  }

  /** The output is the input with some characters deleted. */
  lemma {:induction false} DerepeatSubsequence(text: string, n: nat, k: nat)
    requires k <= |text|
    ensures IsSubsequence(Capped(text, n, k), text[..k])
  {
    if k > 0 {
      DerepeatSubsequence(text, n, k - 1);
      var r0 := Capped(text, n, k - 1);
      var t := text[..k];
      assert t[..k - 1] == text[..k - 1];
      if RunPos(text, k - 1) < n {
        var r := r0 + [text[k - 1]];
        assert r[..|r| - 1] == r0;
        assert r[|r| - 1] == t[|t| - 1];
      } else {
        assert Capped(text, n, k) == r0;
        if r0 != [] {
          assert IsSubsequence(r0, t[..|t| - 1]);
        }
      }
    }
  }

  /** After `k` characters (for `n >= 1`) the output is empty or ends with
      `text[k - 1]`, and its trailing run of that character is no longer than
      the input's. */
  lemma {:induction false} CappedEnd(text: string, n: nat, k: nat)
    requires 1 <= n && 0 < k <= |text|
    ensures Capped(text, n, k) == [] || Capped(text, n, k)[|Capped(text, n, k)| - 1] == text[k - 1]
    ensures TrailRun(Capped(text, n, k), text[k - 1]) <= RunPos(text, k - 1) + 1
  {
    var r := Capped(text, n, k - 1);
    var c := text[k - 1];
    if k > 1 {
      CappedEnd(text, n, k - 1);
    }
    TrailBeforeBounded(text, n, k);
    if RunPos(text, k - 1) < n {
      assert Capped(text, n, k) == r + [c];
      assert (r + [c])[..|r|] == r;
    } else {
      assert Capped(text, n, k) == r;
    }
  }

  /** Before the `k`-th character is read, the output's trailing run of that
      character is bounded by its counter. */
  lemma TrailBeforeBounded(text: string, n: nat, k: nat)
    requires 1 <= n && 0 < k <= |text|
    requires k > 1 ==> TrailRun(Capped(text, n, k - 1), text[k - 2]) <= RunPos(text, k - 2) + 1
    requires k > 1 ==> Capped(text, n, k - 1) == [] || Capped(text, n, k - 1)[|Capped(text, n, k - 1)| - 1] == text[k - 2]
    ensures TrailRun(Capped(text, n, k - 1), text[k - 1]) <= RunPos(text, k - 1)
  {
    var r := Capped(text, n, k - 1);
    if k > 1 && text[k - 2] != text[k - 1] {
      assert TrailRun(r, text[k - 1]) == 0;
    }
  }

  /** Appending one character to a text whose runs are bounded keeps them
      bounded when the new trailing run is. */
  lemma RunsAtMostSnoc(s: string, c: char, n: nat)
    requires RunsAtMost(s, n)
    requires TrailRun(s + [c], c) <= n
    ensures RunsAtMost(s + [c], n)
  {
    forall j | 0 < j <= |s + [c]|
      ensures TrailRun((s + [c])[..j], (s + [c])[j - 1]) <= n
    {
      if j <= |s| {
        assert (s + [c])[..j] == s[..j];
      } else {
        assert (s + [c])[..j] == s + [c];
      }
    }
  }

  /** A kept character never makes its run in the output longer than `n`. */
  lemma KeptRunBounded(text: string, n: nat, k: nat)
    requires 1 <= n && 0 < k <= |text| && RunPos(text, k - 1) < n
    ensures TrailRun(Capped(text, n, k - 1) + [text[k - 1]], text[k - 1]) <= n
  {
    var r := Capped(text, n, k - 1);
    var c := text[k - 1];
    assert (r + [c])[..|r|] == r;
    if k > 1 {
      CappedEnd(text, n, k - 1);
      if text[k - 2] != c {
        assert TrailRun(r, c) == 0;
      }
    }
  }

  /** For `n >= 1` no run in the output is longer than `n`. */
  lemma {:induction false} DerepeatRunsBounded(text: string, n: nat, k: nat)
    requires 1 <= n && k <= |text|
    ensures RunsAtMost(Capped(text, n, k), n)
  {
    if k > 0 {
      DerepeatRunsBounded(text, n, k - 1);
      if RunPos(text, k - 1) < n {
        KeptRunBounded(text, n, k);
        RunsAtMostSnoc(Capped(text, n, k - 1), text[k - 1], n);
      } else {
        assert Capped(text, n, k) == Capped(text, n, k - 1);
      }
    }
  }

  /** The counter at a position depends only on the text up to it. */
  lemma {:induction false} RunPosPrefix(a: string, b: string, i: nat)
    requires i < |a|
    ensures RunPos(a + b, i) == RunPos(a, i)
  {
    if i > 0 {
      RunPosPrefix(a, b, i - 1);
    }
  }

  lemma {:induction false} CappedPrefix(a: string, b: string, n: nat, k: nat)
    requires k <= |a|
    ensures Capped(a + b, n, k) == Capped(a, n, k)
  {
    if k > 0 {
      CappedPrefix(a, b, n, k - 1);
      RunPosPrefix(a, b, k - 1);
    }
  }

  /** `m` copies of `c`. */
  function Block(c: char, m: nat): (s: string)
    ensures |s| == m && forall j :: 0 <= j < m ==> s[j] == c
  {
    seq(m, _ => c)
  }

  /** Inside a run that begins after a different character, the counter is the
      position in the run; in a run that begins the text it is one more when
      the run is a run of the sentinel. */
  lemma {:induction false} RunPosInBlock(a: string, c: char, m: nat, j: nat)
    requires a == [] || a[|a| - 1] != c
    requires j < m
    ensures RunPos(a + Block(c, m), |a| + j) == j + (if a == [] && c == SENTINEL then 1 else 0)
  {
    if j > 0 {
      RunPosInBlock(a, c, m, j - 1);
    }
  }

  lemma {:induction false} CappedBlock(a: string, c: char, m: nat, n: nat, k: nat)
    requires a == [] || a[|a| - 1] != c
    requires 1 <= n && k <= m
    ensures Capped(a + Block(c, m), n, |a| + k)
            == Capped(a, n, |a|)
               + Block(c, Min(k, n - (if a == [] && c == SENTINEL then 1 else 0)))
  {
    var lead := if a == [] && c == SENTINEL then 1 else 0;
    var text := a + Block(c, m);
    if k == 0 {
      CappedPrefix(a, Block(c, m), n, |a|);
    } else {
      var before := Capped(text, n, |a| + k - 1);
      CappedBlock(a, c, m, n, k - 1);
      RunPosInBlock(a, c, m, k - 1);
      assert text[|a| + k - 1] == c;
      if k - 1 < n - lead {
        assert Capped(text, n, |a| + k) == before + [c];
        BlockSnoc(c, k - 1);
      } else {
        assert Capped(text, n, |a| + k) == before;
      }
    }
  }

  lemma BlockSnoc(c: char, m: nat)
    ensures Block(c, m) + [c] == Block(c, m + 1)
  {
  }

  function Min(x: int, y: int): int {
    if x <= y then x else y
  }

  /** A run of `len` copies of `ch`. */
  datatype Run = Run(ch: char, len: nat)

  /** The text made of the given runs, in order. */
  function RunText(rs: seq<Run>): string {
    if rs == [] then [] else RunText(rs[..|rs| - 1]) + Block(rs[|rs| - 1].ch, rs[|rs| - 1].len)
  }

  /** Runs that are maximal: non-empty, and each differs in character from
      the one before it. */
  predicate Maximal(rs: seq<Run>) {
    (forall i :: 0 <= i < |rs| ==> rs[i].len > 0)
    && (forall i :: 0 < i < |rs| ==> rs[i - 1].ch != rs[i].ch)
  }

  /** The runs each cut to at most `n` characters; a leading run of the
      sentinel is cut to `n - 1`, since the seeded state already counts one
      occurrence. */
  function CapRuns(rs: seq<Run>, n: nat): (out: seq<Run>)
    requires 1 <= n
    ensures |out| == |rs|
    ensures forall i :: 0 <= i < |rs| ==>
              out[i] == Run(rs[i].ch, Min(rs[i].len, n - (if i == 0 && rs[i].ch == SENTINEL then 1 else 0)))
  {
    if rs == [] then []
    else
      var last := rs[|rs| - 1];
      var lead := if |rs| == 1 && last.ch == SENTINEL then 1 else 0;
      CapRuns(rs[..|rs| - 1], n) + [Run(last.ch, Min(last.len, n - lead))]
  }

  lemma {:induction false} RunTextEnd(rs: seq<Run>)
    requires Maximal(rs) && rs != []
    ensures RunText(rs) != [] && RunText(rs)[|RunText(rs)| - 1] == rs[|rs| - 1].ch
  {
  }

  /** Run by run: every maximal run of the input keeps its first `n`
      characters, or its first `n - 1` when it is a leading run of the
      sentinel. */
  lemma {:induction false} DerepeatRuns(rs: seq<Run>, n: nat)
    requires 1 <= n && Maximal(rs)
    ensures Derepeated(RunText(rs), n) == RunText(CapRuns(rs, n))
  {
    if rs != [] {
      LastRunBoundary(rs);
      DerepeatRuns(rs[..|rs| - 1], n);
      DerepeatRunsStep(rs, n);
    }
  }

  /** The step of `DerepeatRuns`: if the runs before the last come out cut,
      so do all of them. */
  lemma DerepeatRunsStep(rs: seq<Run>, n: nat)
    requires 1 <= n && rs != []
    requires RunText(rs[..|rs| - 1]) == [] <==> rs[..|rs| - 1] == []
    requires RunText(rs[..|rs| - 1]) == []
             || RunText(rs[..|rs| - 1])[|RunText(rs[..|rs| - 1])| - 1] != rs[|rs| - 1].ch
    requires Derepeated(RunText(rs[..|rs| - 1]), n) == RunText(CapRuns(rs[..|rs| - 1], n))
    ensures Derepeated(RunText(rs), n) == RunText(CapRuns(rs, n))
  {
    var init, last := rs[..|rs| - 1], rs[|rs| - 1];
    CappedBlock(RunText(init), last.ch, last.len, n, last.len);
    CapRunsText(rs, n);
  }

  /** Dropping the last run keeps the runs maximal, and the text of the
      others does not end with the last run's character. */
  lemma LastRunBoundary(rs: seq<Run>)
    requires Maximal(rs) && rs != []
    ensures Maximal(rs[..|rs| - 1])
    ensures RunText(rs[..|rs| - 1]) == [] <==> rs[..|rs| - 1] == []
    ensures RunText(rs[..|rs| - 1]) == []
            || RunText(rs[..|rs| - 1])[|RunText(rs[..|rs| - 1])| - 1] != rs[|rs| - 1].ch
  {
    var init := rs[..|rs| - 1];
    if init != [] {
      RunTextEnd(init);
    }
  }

  /** The text of capped runs grows by the capped last run. */
  lemma CapRunsText(rs: seq<Run>, n: nat)
    requires 1 <= n && rs != []
    ensures RunText(CapRuns(rs, n))
            == RunText(CapRuns(rs[..|rs| - 1], n))
               + Block(rs[|rs| - 1].ch,
                       Min(rs[|rs| - 1].len,
                           n - (if rs[..|rs| - 1] == [] && rs[|rs| - 1].ch == SENTINEL then 1 else 0)))
  {
    var init, last := rs[..|rs| - 1], rs[|rs| - 1];
    var lead := if |rs| == 1 && last.ch == SENTINEL then 1 else 0;
    var capped := CapRuns(rs, n);
    var tail := Run(last.ch, Min(last.len, n - lead));
    assert capped == CapRuns(init, n) + [tail];
    assert capped[..|capped| - 1] == CapRuns(init, n);
    assert capped[|capped| - 1] == tail;
    assert (init == []) == (|rs| == 1);
  }

  /** A text that starts with a run of the sentinel keeps one character fewer
      of that run: the seeded state already counts one occurrence. */
  lemma LeadingSentinelRun(m: nat, n: nat)
    requires 1 <= n
    ensures Derepeated(Block(SENTINEL, m), n) == Block(SENTINEL, Min(m, n - 1))
  {
    CappedBlock([], SENTINEL, m, n, m);
    assert [] + Block(SENTINEL, m) == Block(SENTINEL, m);
  }

  /** Input whose runs are all at most `n` long comes out unchanged, unless it
      starts with the sentinel. */
  lemma {:induction false} ShortRunsUnchanged(text: string, n: nat, k: nat)
    requires 1 <= n && RunsAtMost(text, n) && k <= |text|
    requires text == [] || text[0] != SENTINEL
    ensures Capped(text, n, k) == text[..k]
  {
    if k > 0 {
      ShortRunsUnchanged(text, n, k - 1);
      RunPosIsRunPosition(text, k - 1);
      assert text[..k - 1] + [text[k - 1]] == text[..k];
    }
  }

  /** The runs of the unit test's input and of its expected output. */
  const EXAMPLE_INPUT: seq<Run> :=
    [Run('아', 5), Run(' ', 1), Run('음', 3), Run(' ', 1),
     Run('호', 4), Run(' ', 1), Run('홀', 2), Run(' ', 1)]
  const EXAMPLE_OUTPUT: seq<Run> :=
    [Run('아', 3), Run(' ', 1), Run('음', 3), Run(' ', 1),
     Run('호', 3), Run(' ', 1), Run('홀', 2), Run(' ', 1)]

  lemma ExampleInput()
    ensures RunText(EXAMPLE_INPUT) == "아아아아아 음음음 호호호호 홀홀 "
  {
    var rs := EXAMPLE_INPUT;
    assert RunText(rs[..1]) == "아아아아아" by { assert rs[..1][..0] == []; }
    assert RunText(rs[..2]) == "아아아아아 " by { assert rs[..2][..1] == rs[..1]; }
    assert RunText(rs[..3]) == "아아아아아 음음음" by { assert rs[..3][..2] == rs[..2]; }
    assert RunText(rs[..4]) == "아아아아아 음음음 " by { assert rs[..4][..3] == rs[..3]; }
    assert RunText(rs[..5]) == "아아아아아 음음음 호호호호" by { assert rs[..5][..4] == rs[..4]; }
    assert RunText(rs[..6]) == "아아아아아 음음음 호호호호 " by { assert rs[..6][..5] == rs[..5]; }
    assert RunText(rs[..7]) == "아아아아아 음음음 호호호호 홀홀" by { assert rs[..7][..6] == rs[..6]; }
    assert rs[..8] == rs;
  }

  lemma ExampleOutput()
    ensures RunText(EXAMPLE_OUTPUT) == "아아아 음음음 호호호 홀홀 "
  {
    var rs := EXAMPLE_OUTPUT;
    assert RunText(rs[..1]) == "아아아" by { assert rs[..1][..0] == []; }
    assert RunText(rs[..2]) == "아아아 " by { assert rs[..2][..1] == rs[..1]; }
    assert RunText(rs[..3]) == "아아아 음음음" by { assert rs[..3][..2] == rs[..2]; }
    assert RunText(rs[..4]) == "아아아 음음음 " by { assert rs[..4][..3] == rs[..3]; }
    assert RunText(rs[..5]) == "아아아 음음음 호호호" by { assert rs[..5][..4] == rs[..4]; }
    assert RunText(rs[..6]) == "아아아 음음음 호호호 " by { assert rs[..6][..5] == rs[..5]; }
    assert RunText(rs[..7]) == "아아아 음음음 호호호 홀홀" by { assert rs[..7][..6] == rs[..6]; }
    assert rs[..8] == rs;
  }

  /** The unit test of `derepeat`, as runs. */
  lemma DerepeatExample()
    ensures Derepeated("아아아아아 음음음 호호호호 홀홀 ", 3) == "아아아 음음음 호호호 홀홀 "
  {
    assert CapRuns(EXAMPLE_INPUT, 3) == EXAMPLE_OUTPUT;
    ExampleInput();
    ExampleOutput();
    DerepeatRuns(EXAMPLE_INPUT, 3);
  }
}
