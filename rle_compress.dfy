/** Single-pass run-length compression, RLE.compress (RLE.java:66-85):
    every maximal run of one character becomes its length followed by the
    character, and a run of length one is copied bare. */
module RleCompress {
  import opened RleText

  /** One maximal run: `len` copies of `ch`. */
  datatype Run = Run(ch: char, len: nat)

  /** The length of the run that starts `s`: the inner loop at RLE.java:74-75. */
  function RunLength(s: string): (n: nat)
    requires |s| > 0
    ensures 1 <= n <= |s|
  {
    if |s| == 1 || s[1] != s[0] then 1 else 1 + RunLength(s[1..])
  }

  /** The run that starts `s` is made of its first character and is
      maximal: the character after it differs. */
  lemma {:induction false} RunLengthRun(s: string)
    requires |s| > 0
    ensures forall i :: 0 <= i < RunLength(s) ==> s[i] == s[0]
    ensures RunLength(s) < |s| ==> s[RunLength(s)] != s[0]
    decreases |s|
  {
    if |s| > 1 && s[1] == s[0] {
      RunLengthRun(s[1..]);
      forall i | 0 <= i < RunLength(s) ensures s[i] == s[0] {
        if i > 0 {
          assert s[i] == s[1..][i - 1];
        }
      }
    }
  }

  /** The run that starts `s` has length `n` exactly when the first `n`
      characters agree and the next one (if any) differs. */
  lemma {:induction false} RunLengthIs(s: string, n: nat)
    requires 1 <= n <= |s|
    requires forall i :: 0 <= i < n ==> s[i] == s[0]
    requires n < |s| ==> s[n] != s[0]
    ensures RunLength(s) == n
    decreases n
  {
    if n > 1 {
      var t := s[1..];
      forall i | 0 <= i < n - 1 ensures t[i] == t[0] {
        assert t[i] == s[i + 1] && t[0] == s[1];
      }
      if n < |s| {
        assert t[n - 1] == s[n];
      }
      RunLengthIs(t, n - 1);
    }
  }

  /** `s` cut into maximal runs, left to right. */
  function Runs(s: string): seq<Run>
    decreases |s|
  {
    if s == [] then [] else [Run(s[0], RunLength(s))] + Runs(s[RunLength(s)..])
  }

  function Expand(rs: seq<Run>): string {
    if rs == [] then "" else Repeat([rs[0].ch], rs[0].len) + Expand(rs[1..])
  }

  /** Every run is non-empty and neighbouring runs hold different characters. */
  predicate Maximal(rs: seq<Run>) {
    && (forall i :: 0 <= i < |rs| ==> rs[i].len >= 1)
    && (forall i :: 0 <= i < |rs| - 1 ==> rs[i].ch != rs[i + 1].ch)
  }

  /** The count is written only before runs of two or more (RLE.java:78-80),
      then the character itself (RLE.java:81). */
  function EncodeRun(r: Run): string {
    (if r.len >= 2 then DecimalString(r.len) else "") + [r.ch]
  }

  function EncodeRuns(rs: seq<Run>): string {
    if rs == [] then "" else EncodeRun(rs[0]) + EncodeRuns(rs[1..])
  }

  /** The string RLE.compress returns. */
  function RunLengthEncoding(s: string): string {
    EncodeRuns(Runs(s))
  }

  /** One turn of the outer loop of RLE.compress emits the code of the run
      at `pos`, which ends at `pos2`. */
  lemma EncodingStep(str: string, pos: nat, pos2: nat)
    requires pos < pos2 <= |str|
    requires forall i :: pos <= i < pos2 ==> str[i] == str[pos]
    requires pos2 < |str| ==> str[pos2] != str[pos]
    ensures RunLengthEncoding(str[pos..])
         == EncodeRun(Run(str[pos], pos2 - pos)) + RunLengthEncoding(str[pos2..])
  {
    var rest := str[pos..];
    RunLengthIs(rest, pos2 - pos);
    assert rest[pos2 - pos..] == str[pos2..];
  }

  /** RLE.compress, loop for loop. */
  method Compress(str: string) returns (ret: string)
    ensures ret == RunLengthEncoding(str)
  {
    ret := "";
    var pos := 0;
    assert str[0..] == str;
    while pos != |str|
      invariant 0 <= pos <= |str|
      invariant ret + RunLengthEncoding(str[pos..]) == RunLengthEncoding(str)
    {
      var pos2 := pos + 1;
      while pos2 != |str| && str[pos] == str[pos2]
        invariant pos < pos2 <= |str|
        invariant forall i :: pos <= i < pos2 ==> str[i] == str[pos]
      {
        pos2 := pos2 + 1;
      }
      EncodingStep(str, pos, pos2);
      ghost var before := ret;
      if pos2 != pos + 1 {
        ret := ret + DecimalString(pos2 - pos);
      }
      ret := ret + [str[pos]];
      assert ret == before + EncodeRun(Run(str[pos], pos2 - pos));
      Assoc(before, EncodeRun(Run(str[pos], pos2 - pos)), RunLengthEncoding(str[pos2..]));
      pos := pos2;
    }
  }

  /** Where the inner loop of RLE.compress stops when it starts a run at
      `pos` (RLE.java:73-76): the first later position holding another
      character, or the end. */
  function RunEnd(s: string, pos: nat): (e: nat)
    requires pos < |s|
    ensures pos < e <= |s|
    decreases |s| - pos
  {
    if pos + 1 == |s| || s[pos + 1] != s[pos] then pos + 1 else RunEnd(s, pos + 1)
  }

  /** What the outer loop of RLE.compress still appends once it has reached
      `pos`: the code of the run there, then the rest. */
  function EncodingFrom(s: string, pos: nat): string
    requires pos <= |s|
    decreases |s| - pos
  {
    if pos == |s| then "" else EncodeRun(Run(s[pos], RunEnd(s, pos) - pos)) + EncodingFrom(s, RunEnd(s, pos))
  }

  /** The run from `pos` to RunEnd(s, pos) holds one character and is maximal. */
  lemma {:induction false} RunEndRun(s: string, pos: nat)
    requires pos < |s|
    ensures forall k :: pos <= k < RunEnd(s, pos) ==> s[k] == s[pos]
    ensures RunEnd(s, pos) < |s| ==> s[RunEnd(s, pos)] != s[pos]
    decreases |s| - pos
  {
    if pos + 1 < |s| && s[pos + 1] == s[pos] {
      RunEndRun(s, pos + 1);
    }
  }

  /** `t` is `s` without its first `k` characters. */
  predicate DropsFirst(s: string, k: nat, t: string) {
    |t| + k == |s| && forall i :: 0 <= i < |t| ==> t[i] == s[k + i]
  }

  /** A run ends at the same place whether it is scanned in `s` or in `s`
      without its first `k` characters. */
  lemma {:induction false} RunEndShift(s: string, k: nat, t: string, pos: nat)
    requires DropsFirst(s, k, t) && pos < |t|
    ensures RunEnd(s, k + pos) == k + RunEnd(t, pos)
    decreases |t| - pos
  {
    if pos + 1 < |t| && t[pos + 1] == t[pos] {
      RunEndShift(s, k, t, pos + 1);
    }
  }

  lemma {:induction false} EncodingShift(s: string, k: nat, t: string, pos: nat)
    requires DropsFirst(s, k, t) && pos <= |t|
    ensures EncodingFrom(s, k + pos) == EncodingFrom(t, pos)
    decreases |t| - pos
  {
    if pos < |t| {
      var e := RunEnd(t, pos);
      RunEndShift(s, k, t, pos);
      assert s[k + pos] == t[pos];
      EncodingShift(s, k, t, e);
      assert EncodingFrom(s, k + pos) == EncodeRun(Run(t[pos], e - pos)) + EncodingFrom(s, k + e);
    }
  }

  /** The loop-by-loop reading of RLE.compress writes the codes of the
      maximal runs of `s`, in order. */
  lemma {:induction false} EncodingIsRle(s: string)
    ensures EncodingFrom(s, 0) == RunLengthEncoding(s)
    decreases |s|
  {
    if s != [] {
      var e := RunEnd(s, 0);
      RunEndRun(s, 0);
      RunLengthIs(s, e);
      EncodingShift(s, e, s[e..], 0);
      EncodingIsRle(s[e..]);
      RunsFirst(s);
    }
  }

  /** Compressing the empty string gives the empty string (RLE.java:69-71). */
  lemma CompressEmpty()
    ensures RunLengthEncoding("") == ""
  {
  }

  /** The first `n` characters of a string whose run has length `n`. */
  lemma RunIsRepeat(s: string, n: nat)
    requires 1 <= n <= |s|
    requires forall i :: 0 <= i < n ==> s[i] == s[0]
    ensures Repeat([s[0]], n) == s[..n]
  {
    forall i | 0 <= i < n ensures Repeat([s[0]], n)[i] == s[..n][i] {
      RepeatChar(s[0], n, i);
    }
  }

  lemma MaximalCons(r: Run, rs: seq<Run>)
    requires Maximal(rs) && r.len >= 1
    requires rs != [] ==> r.ch != rs[0].ch
    ensures Maximal([r] + rs)
  {
    var t := [r] + rs;
    forall i | 0 <= i < |t| - 1 ensures t[i].ch != t[i + 1].ch {
      if i > 0 {
        assert t[i] == rs[i - 1] && t[i + 1] == rs[i];
      }
    }
  }

  /** The first run of a non-empty string, and the runs of the rest. */
  lemma RunsFirst(s: string)
    requires s != []
    ensures |Runs(s)| >= 1
    ensures Runs(s)[0] == Run(s[0], RunLength(s))
    ensures Runs(s)[1..] == Runs(s[RunLength(s)..])
  {
  }

  /** The runs of `s` are maximal. */
  lemma {:induction false} RunsMaximal(s: string)
    ensures Maximal(Runs(s))
    decreases |s|
  {
    if s != [] {
      var n := RunLength(s);
      var rs := Runs(s);
      var tail := Runs(s[n..]);
      RunsMaximal(s[n..]);
      RunsFirst(s);
      RunLengthRun(s);
      if tail != [] {
        RunsFirst(s[n..]);
        assert tail[0].ch == s[n..][0] == s[n];
      }
      MaximalCons(Run(s[0], n), tail);
      assert rs == [rs[0]] + rs[1..];
    }
  }

  /** The runs of `s` spell out `s` again. */
  lemma {:induction false} RunsExpand(s: string)
    ensures Expand(Runs(s)) == s
    decreases |s|
  {
    if s != [] {
      var n := RunLength(s);
      var rs := Runs(s);
      RunsFirst(s);
      RunsExpand(s[n..]);
      var head, rest := Repeat([s[0]], n), Expand(rs[1..]);
      assert Expand(rs) == head + rest;
      RunLengthRun(s);
      RunIsRepeat(s, n);
      assert head + rest == s[..n] + s[n..];
      assert s[..n] + s[n..] == s;
    }
  }

  lemma ExpandStart(rs: seq<Run>)
    requires Maximal(rs) && rs != []
    ensures |Expand(rs)| >= 1 && Expand(rs)[0] == rs[0].ch
  {
    RepeatChar(rs[0].ch, rs[0].len, 0);
  }

  /** Cutting into maximal runs is the only way to describe `s` by maximal
      runs: any maximal list that spells `s` is Runs(s). */
  lemma {:induction false} RunsUnique(rs: seq<Run>)
    requires Maximal(rs)
    ensures Runs(Expand(rs)) == rs
  {
    if rs != [] {
      var s := Expand(rs);
      var c, n := rs[0].ch, rs[0].len;
      var tail := Expand(rs[1..]);
      assert Maximal(rs[1..]);
      RunsUnique(rs[1..]);
      assert s == Repeat([c], n) + tail;
      forall i | 0 <= i < n ensures s[i] == c {
        RepeatChar(c, n, i);
      }
      if rs[1..] != [] {
        ExpandStart(rs[1..]);
        assert s[n] == tail[0];
      } else {
        assert |s| == n;
      }
      RunLengthIs(s, n);
      assert s[n..] == tail;
      assert Runs(s) == [Run(c, n)] + Runs(tail);
    }
  }

  /** A written count never takes more room than the run it replaces. */
  lemma {:induction false} DecimalFits(n: nat)
    requires n >= 2
    ensures |DecimalString(n)| + 1 <= n
    decreases n
  {
    if n >= 20 {
      DecimalFits(n / 10);
    }
  }

  /** Single-pass compression never makes the text longer. */
  lemma {:induction false} CompressNoLonger(s: string)
    ensures |RunLengthEncoding(s)| <= |s|
    decreases |s|
  {
    if s != [] {
      var n := RunLength(s);
      CompressNoLonger(s[n..]);
      assert Runs(s)[1..] == Runs(s[n..]);
      if n >= 2 {
        DecimalFits(n);
      }
    }
  }

  /** A text that is one run of `n` copies of `c` compresses to that run's
      code alone. */
  lemma SingleRun(c: char, n: nat)
    requires n >= 1
    ensures RunLengthEncoding(Repeat([c], n)) == EncodeRun(Run(c, n))
  {
    var rs := [Run(c, n)];
    assert Expand(rs[1..]) == "";
    assert Expand(rs) == Repeat([c], n) + "";
    RunsUnique(rs);
    assert Repeat([c], n) + "" == Repeat([c], n);
    assert EncodeRuns(rs[1..]) == "";
  }

  lemma DocDollars(t: string)
    requires t == [] || t[0] == '#'
    ensures RunLengthEncoding("$$" + t) == "2$" + RunLengthEncoding(t)
  {
    var s := "$$" + t;
    EncodingStep(s, 0, 2);
    assert s[0..] == s && s[2..] == t;
    assert EncodeRun(Run('$', 2)) == "2$" by { assert DecimalString(2) == "2"; }
  }

  lemma DocHashes(u: string)
    requires |u| >= 1 && u[0] == '$'
    ensures RunLengthEncoding("####" + u) == "4#" + RunLengthEncoding(u)
  {
    var s := "####" + u;
    EncodingStep(s, 0, 4);
    assert s[0..] == s && s[4..] == u;
    assert EncodeRun(Run('#', 4)) == "4#" by { assert DecimalString(4) == "4"; }
  }

  /** One "####$$" block of the documented example, followed by text that
      does not continue its last run. */
  lemma DocBlock(b: string, c: string, t: string)
    requires b == "####$$" && c == "4#2$"
    requires t == [] || t[0] == '#'
    ensures RunLengthEncoding(b + t) == c + RunLengthEncoding(t)
  {
    DocDollars(t);
    DocHashes("$$" + t);
    assert b == "####" + "$$" && c == "4#" + "2$";
    Assoc("####", "$$", t);
    Assoc("4#", "2$", RunLengthEncoding(t));
  }

  /** The example in the comment of RLE.compress (RLE.java:38-40): four
      blocks "####$$" compress to four codes "4#2$". */
  lemma {:induction false} CompressDocExample(b: string, c: string)
    requires b == "####$$" && c == "4#2$"
    ensures RunLengthEncoding(b + b + b + b) == c + c + c + c
  {
    DocBlock(b, c, "");
    assert b + "" == b;
    DocBlock(b, c, b);
    DocBlock(b, c, b + b);
    DocBlock(b, c, b + b + b);
    Assoc(b, b, b);
    Assoc(b, b + b, b);
    Assoc(b, b, b + b);
    Assoc(c, c, c);
    Assoc(c, c + c, c);
    Assoc(c, c, c + c);
  }
}
