/** Multi-pass compression, RLE.multiPassCompress (RLE.java:97-122) and its
    helper RLE.multPassCompress_pass (RLE.java:133-182): a pass with compare
    size `cs` replaces k >= 2 back-to-back copies of a `cs`-character block
    by `k(block)` (or `k` and the character when `cs` is 1). */
module RleMultiPass {
  import opened RleText
  import opened RleCompress

  /** How many whole copies of `p` stand back to back in `input` from
      position `i` on: the inner loop at RLE.java:150-159 compares
      `input[i..i + |p|]` with `p` and moves on by `|p|`. */
  function CopiesAt(p: string, input: string, i: nat): nat
    requires |p| >= 1 && i <= |input|
    decreases |input| - i
  {
    if i + |p| <= |input| && input[i..i + |p|] == p then 1 + CopiesAt(p, input, i + |p|) else 0
  }

  /** The position where those copies end. */
  function EndOfCopies(p: string, input: string, i: nat): (e: nat)
    requires |p| >= 1 && i <= |input|
    ensures i <= e <= |input|
    decreases |input| - i
  {
    if i + |p| <= |input| && input[i..i + |p|] == p then EndOfCopies(p, input, i + |p|) else i
  }

  /** What one turn of the pass loop appends for `k` copies of `block`
      (RLE.java:161-176). */
  function PassItem(cs: nat, k: nat, block: string): string {
    if k >= 2 then
      DecimalString(k) + (if cs != 1 then "(" + block + ")" else block)
    else
      block
  }

  /** What multPassCompress_pass appends from position `pos` of `input` on:
      the block at `pos` and the copies of it that follow, then the rest.
      A tail shorter than `cs` is copied as it is. */
  function PassFrom(cs: nat, input: string, pos: nat): string
    requires cs >= 1 && pos <= |input|
    decreases |input| - pos
  {
    if pos + cs > |input| then input[pos..]
    else
      var block := input[pos..pos + cs];
      PassItem(cs, 1 + CopiesAt(block, input, pos + cs), block)
        + PassFrom(cs, input, EndOfCopies(block, input, pos + cs))
  }

  /** One turn of PassFrom where a whole block fits. */
  lemma PassFromBlock(cs: nat, input: string, pos: nat, block: string)
    requires cs >= 1 && pos + cs <= |input| && block == input[pos..pos + cs]
    ensures PassFrom(cs, input, pos)
         == PassItem(cs, 1 + CopiesAt(block, input, pos + cs), block)
            + PassFrom(cs, input, EndOfCopies(block, input, pos + cs))
  {
  }

  /** One turn of PassFrom with the copies counted: `k - 1` further copies
      that end at `e`. */
  lemma PassFromCount(cs: nat, input: string, pos: nat, block: string, k: nat, e: nat)
    requires cs >= 1 && pos + cs <= |input| && block == input[pos..pos + cs]
    requires CopiesAt(block, input, pos + cs) == k - 1 && EndOfCopies(block, input, pos + cs) == e
    ensures PassFrom(cs, input, pos) == PassItem(cs, k, block) + PassFrom(cs, input, e)
  {
    PassFromBlock(cs, input, pos, block);
    assert 1 + CopiesAt(block, input, pos + cs) == k;
  }

  /** The string multPassCompress_pass(cs, t) returns. */
  function PassEncoding(cs: nat, t: string): string
    requires cs >= 1
  {
    PassFrom(cs, t, 0)
  }

  /** The length of `j` blocks of `cs` characters. */
  function BlocksLength(j: nat, cs: nat): nat {
    if j == 0 then 0 else BlocksLength(j - 1, cs) + cs
  }

  lemma {:induction false} BlocksLengthIsProduct(j: nat, cs: nat)
    ensures BlocksLength(j, cs) == j * cs
  {
    if j > 0 {
      BlocksLengthIsProduct(j - 1, cs);
    }
  }

  lemma MulAtLeast(m: int, cs: nat)
    requires m >= 1
    ensures m * cs >= cs
  {
  }

  /** An exact multiple divides back to its factor. */
  lemma DivUnique(x: int, cs: int, q: int)
    requires cs >= 1 && x == q * cs
    ensures x / cs == q
  {
    var d, m := x / cs, x % cs;
    assert x == d * cs + m && 0 <= m < cs;
    var e := q - d;
    assert e * cs == m by {
      assert e * cs == q * cs - d * cs;
    }
    if e >= 1 {
      MulAtLeast(e, cs);
    } else if e <= -1 {
      MulAtLeast(-e, cs);
    }
  }

  /** The count written at RLE.java:164, `(pos2 - pos) / compareSize`, is
      the number of copies, and it is 1 exactly when `pos2` is one block on. */
  lemma CountWritten(cs: nat, pos: nat, pos2: nat, k: nat)
    requires cs >= 1 && k >= 1 && pos2 - pos == BlocksLength(k, cs)
    ensures (k == 1) <==> (pos2 == pos + cs)
    ensures (pos2 - pos) / cs == k
  {
    BlocksLengthIsProduct(k, cs);
    DivUnique(pos2 - pos, cs, k);
    if k >= 2 {
      MulAtLeast(k - 1, cs);
      assert k * cs == (k - 1) * cs + cs;
    }
  }

  /** The block occurs again at `i`: one more copy, and the copies end
      where those from the next block boundary end. */
  lemma CopiesMatch(p: string, input: string, i: nat)
    requires |p| >= 1 && i + |p| <= |input| && input[i..i + |p|] == p
    ensures CopiesAt(p, input, i) == 1 + CopiesAt(p, input, i + |p|)
    ensures EndOfCopies(p, input, i) == EndOfCopies(p, input, i + |p|)
  {
  }

  /** The block does not occur at `i`: the copies end there. */
  lemma CopiesStop(p: string, input: string, i: nat, iEnd: nat)
    requires |p| >= 1 && i <= iEnd <= |input|
    requires iEnd == if i + |p| <= |input| then i + |p| else |input|
    requires input[i..iEnd] != p
    ensures CopiesAt(p, input, i) == 0 && EndOfCopies(p, input, i) == i
  {
  }

  /** The copies from `i` on take `CopiesAt` whole blocks. */
  lemma {:induction false} EndOfCopiesIsBlocks(p: string, input: string, i: nat)
    requires |p| >= 1 && i <= |input|
    ensures EndOfCopies(p, input, i) - i == BlocksLength(CopiesAt(p, input, i), |p|)
    decreases |input| - i
  {
    if i + |p| <= |input| && input[i..i + |p|] == p {
      EndOfCopiesIsBlocks(p, input, i + |p|);
    }
  }

  /** The inner loop of RLE.multPassCompress_pass (RLE.java:145-159): from
      the block `compare` at `pos`, step over further copies of it and return
      where they end. */
  method SkipCopies(cs: nat, input: string, pos: nat, compare: string) returns (pos2: nat)
    requires cs >= 1 && pos + cs <= |input| && compare == input[pos..pos + cs]
    ensures pos2 == EndOfCopies(compare, input, pos + cs)
  {
    pos2 := pos + cs;
    var pos2End := pos2 + cs;
    if pos2End > |input| {
      pos2End := |input|;
    }
    while pos2 <= |input| && input[pos2..pos2End] == compare
      invariant pos + cs <= pos2 <= |input|
      invariant EndOfCopies(compare, input, pos + cs) == EndOfCopies(compare, input, pos2)
      invariant pos2End == if pos2 + cs <= |input| then pos2 + cs else |input|
      decreases |input| - pos2
    {
      assert |input[pos2..pos2End]| == cs;
      CopiesMatch(compare, input, pos2);
      pos2 := pos2 + cs;
      pos2End := pos2End + cs;
      if pos2End > |input| {
        pos2End := |input|;
      }
    }
    if pos2 <= |input| {
      CopiesStop(compare, input, pos2, pos2End);
    }
  }

  /** The text appended at RLE.java:161-176 once the copies of `compare`
      between `pos` and `pos2` are known. */
  method AppendItem(ret: string, cs: nat, compare: string, pos: nat, pos2: nat, ghost k: nat)
    returns (ret': string)
    requires cs >= 1 && k >= 1 && pos2 >= pos && pos2 - pos == BlocksLength(k, cs)
    ensures ret' == ret + PassItem(cs, k, compare)
  {
    CountWritten(cs, pos, pos2, k);
    if pos2 != pos + cs {
      ret' := ret + DecimalString((pos2 - pos) / cs);
      if cs != 1 {
        ret' := ret' + ['('] + compare + [')'];
      } else {
        ret' := ret' + compare;
      }
    } else {
      ret' := ret + compare;
    }
  }

  /** One turn of the pass loop where a whole block fits (RLE.java:141-177):
      what it appends, together with what is left to encode, spells the same
      as before the turn. */
  method PassBlock(cs: nat, input: string, pos: nat, ret: string) returns (ret': string, pos2: nat)
    requires cs >= 1 && pos + cs <= |input|
    ensures pos < pos2 <= |input|
    ensures ret' + PassFrom(cs, input, pos2) == ret + PassFrom(cs, input, pos)
  {
    var compare := input[pos..pos + cs];
    pos2 := SkipCopies(cs, input, pos, compare);
    ghost var c := CopiesAt(compare, input, pos + cs);
    ghost var k := c + 1;
    EndOfCopiesIsBlocks(compare, input, pos + cs);
    assert BlocksLength(k, cs) == BlocksLength(c, cs) + cs;
    PassFromCount(cs, input, pos, compare, k, pos2);
    ret' := AppendItem(ret, cs, compare, pos, pos2, k);
    Assoc(ret, PassItem(cs, k, compare), PassFrom(cs, input, pos2));
  }

  /** RLE.multPassCompress_pass, loop for loop. */
  method MultPassCompressPass(compareSize: nat, input: string) returns (ret: string)
    requires compareSize >= 1
    ensures ret == PassEncoding(compareSize, input)
  {
    var cs := compareSize;
    ret := "";
    var pos := 0;
    while pos <= |input|
      invariant pos <= |input| ==> PassEncoding(cs, input) == ret + PassFrom(cs, input, pos)
      invariant pos > |input| ==> ret == PassEncoding(cs, input)
      decreases |input| + 1 - pos
    {
      if pos + cs <= |input| {
        ret, pos := PassBlock(cs, input, pos, ret);
      } else {
        // A tail shorter than a block is copied as it is.
        var compare := input[pos..];
        ret := AppendItem(ret, cs, compare, pos, pos + cs, 1);
        pos := pos + cs;
      }
    }
  }

  /** Passes with compare sizes 1, 2, ..., hi - 1, in that order, applied to
      `s`: the first loop of multiPassCompress (RLE.java:108-111). */
  function PassesUp(s: string, hi: nat): string {
    if hi <= 1 then s else PassEncoding(hi - 1, PassesUp(s, hi - 1))
  }

  /** Passes with compare sizes top, top - 1, ..., lo + 1, in that order,
      applied to `s`: the second loop of multiPassCompress (RLE.java:112-115). */
  function PassesDown(s: string, top: nat, lo: nat): string
    decreases top - lo
  {
    if top <= lo then s else PassEncoding(lo + 1, PassesDown(s, top, lo + 1))
  }

  /** The outside-in candidate ("method1"). */
  function OutsideIn(s: string): string {
    PassesUp(s, |s| / 2)
  }

  /** The inside-out candidate ("method2"). */
  function InsideOut(s: string): string {
    PassesDown(s, |s| / 2, 0)
  }

  /** The string multiPassCompress returns. */
  function MultiPassEncoding(s: string): string {
    if |OutsideIn(s)| < |InsideOut(s)| then OutsideIn(s) else InsideOut(s)
  }

  /** RLE.multiPassCompress, loop for loop. It keeps the shorter candidate,
      the inside-out one on a tie, and returns short inputs unchanged. */
  method MultiPassCompress(str: string) returns (r: string)
    ensures r == MultiPassEncoding(str)
    ensures r == OutsideIn(str) || r == InsideOut(str)
    ensures |r| <= |OutsideIn(str)| && |r| <= |InsideOut(str)|
    ensures |OutsideIn(str)| == |InsideOut(str)| ==> r == InsideOut(str)
    ensures |str| < 2 ==> r == str
  {
    var method1 := str;
    var compareSize: nat := 1;
    while compareSize < |str| / 2
      invariant 1 <= compareSize && (compareSize <= |str| / 2 || compareSize == 1)
      invariant method1 == PassesUp(str, compareSize)
    {
      method1 := MultPassCompressPass(compareSize, method1);
      compareSize := compareSize + 1;
    }
    assert method1 == OutsideIn(str) by {
      if |str| / 2 == 0 {
        assert PassesUp(str, compareSize) == str;
      }
    }
    var method2 := str;
    compareSize := |str| / 2;
    while compareSize > 0
      invariant compareSize <= |str| / 2
      invariant method2 == PassesDown(str, |str| / 2, compareSize)
    {
      method2 := MultPassCompressPass(compareSize, method2);
      compareSize := compareSize - 1;
    }
    if |method1| < |method2| {
      r := method1;
    } else {
      r := method2;
    }
  }

  /** From `i` on, `input` holds exactly `m` copies of the character `c`. */
  lemma {:induction false} CopiesOfChar(c: char, input: string, i: nat, m: nat)
    requires i + m <= |input|
    requires forall k :: i <= k < i + m ==> input[k] == c
    requires i + m < |input| ==> input[i + m] != c
    ensures CopiesAt([c], input, i) == m && EndOfCopies([c], input, i) == i + m
    decreases m
  {
    if m > 0 {
      assert input[i..i + 1] == [c];
      CopiesOfChar(c, input, i + 1, m - 1);
    } else if i < |input| {
      assert input[i..i + 1] != [c];
    }
  }

  /** One turn of a compare-size-1 pass writes the code of the run at `pos`. */
  lemma PassOneStep(s: string, pos: nat, e: nat)
    requires pos < e <= |s|
    requires CopiesAt([s[pos]], s, pos + 1) == e - pos - 1 && EndOfCopies([s[pos]], s, pos + 1) == e
    ensures PassFrom(1, s, pos) == EncodeRun(Run(s[pos], e - pos)) + PassFrom(1, s, e)
  {
    assert s[pos..pos + 1] == [s[pos]];
    PassFromCount(1, s, pos, [s[pos]], e - pos, e);
    assert PassItem(1, e - pos, [s[pos]]) == EncodeRun(Run(s[pos], e - pos));
  }

  /** One turn of a compare-size-1 pass counts the further copies of the
      character at `pos` and writes the code of its run, as RLE.compress
      does. */
  lemma PassRunSide(s: string, pos: nat)
    requires pos < |s|
    ensures PassFrom(1, s, pos) == EncodeRun(Run(s[pos], RunEnd(s, pos) - pos)) + PassFrom(1, s, RunEnd(s, pos))
  {
    RunCopies(s, pos);
    PassOneStep(s, pos, RunEnd(s, pos));
  }

  /** The run at `pos` is the character there and its further copies. */
  lemma RunCopies(s: string, pos: nat)
    requires pos < |s|
    ensures CopiesAt([s[pos]], s, pos + 1) == RunEnd(s, pos) - pos - 1
    ensures EndOfCopies([s[pos]], s, pos + 1) == RunEnd(s, pos)
  {
    var e := RunEnd(s, pos);
    RunEndRun(s, pos);
    CopiesOfChar(s[pos], s, pos + 1, e - pos - 1);
  }

  /** Both readings write the same code `h` for the run at `pos` and go on
      at its end `e`. */
  lemma PassRunBoth(s: string, pos: nat) returns (e: nat, h: string)
    requires pos < |s|
    ensures pos < e <= |s|
    ensures PassFrom(1, s, pos) == h + PassFrom(1, s, e)
    ensures EncodingFrom(s, pos) == h + EncodingFrom(s, e)
  {
    e := RunEnd(s, pos);
    h := EncodeRun(Run(s[pos], e - pos));
    PassRunSide(s, pos);
  }

  /** From any position on, a compare-size-1 pass writes what RLE.compress
      writes from there. */
  lemma {:induction false} PassOneFrom(s: string, pos: nat)
    requires pos <= |s|
    ensures PassFrom(1, s, pos) == EncodingFrom(s, pos)
    decreases |s| - pos
  {
    if pos < |s| {
      var e, h := PassRunBoth(s, pos);
      PassOneFrom(s, e);
    }
  }

  /** A pass with compare size 1 is single-pass compression (RLE.java:133-182
      against RLE.java:66-85). */
  lemma PassOneIsCompress(s: string)
    ensures PassEncoding(1, s) == RunLengthEncoding(s)
  {
    PassOneFrom(s, 0);
    EncodingIsRle(s);
  }

  /** The block at `pos` is not followed by a copy of itself: the pass
      copies it and goes on one block further (RLE.java:174-176). */
  lemma PassSingle(cs: nat, t: string, pos: nat)
    requires cs >= 1 && pos + cs <= |t|
    requires pos + 2 * cs <= |t| ==> t[pos..pos + cs] != t[pos + cs..pos + 2 * cs]
    ensures PassFrom(cs, t, pos) == t[pos..pos + cs] + PassFrom(cs, t, pos + cs)
  {
    PassFromBlock(cs, t, pos, t[pos..pos + cs]);
  }

  /** Two or more copies of a block wider than one character are written
      as the count and the block in parentheses. */
  lemma GroupItem(cs: nat, k: nat, block: string)
    requires cs >= 2 && k >= 2
    ensures PassItem(cs, k, block) == DecimalString(k) + ("(" + block + ")")
  {
  }

  /** Exactly one copy of `p` stands at `i`. */
  lemma OneCopy(p: string, t: string, i: nat)
    requires |p| >= 1 && i + |p| <= |t| && t[i..i + |p|] == p
    requires i + 2 * |p| <= |t| ==> t[i + |p|..i + 2 * |p|] != p
    ensures CopiesAt(p, t, i) == 1 && EndOfCopies(p, t, i) == i + |p|
  {
    CopiesMatch(p, t, i);
    assert CopiesAt(p, t, i + |p|) == 0 && EndOfCopies(p, t, i + |p|) == i + |p|;
  }

  /** Blocks that differ at offset `k` differ. */
  lemma Differ(t: string, i: nat, j: nat, len: nat, k: nat)
    requires i + len <= |t| && j + len <= |t| && k < len && t[i + k] != t[j + k]
    ensures t[i..i + len] != t[j..j + len]
  {
    assert t[i..i + len][k] == t[i + k];
  }

  lemma {:induction false} RepeatFront(p: string, k: nat)
    requires k >= 1
    ensures Repeat(p, k) == p + Repeat(p, k - 1)
  {
    if k > 1 {
      RepeatFront(p, k - 1);
      Assoc(p, Repeat(p, k - 2), p);
    } else {
      assert Repeat(p, 1) == "" + p;
    }
  }

  /** From `i` on, `t` is `m` copies of `p`: they are all counted and they
      end at the end of `t`. */
  lemma {:induction false} CopiesInRepeat(p: string, t: string, i: nat, m: nat)
    requires |p| >= 1 && i <= |t| && t[i..] == Repeat(p, m)
    ensures CopiesAt(p, t, i) == m && EndOfCopies(p, t, i) == |t|
    decreases m
  {
    if m > 0 {
      RepeatFront(p, m);
      assert t[i..i + |p|] == t[i..][..|p|];
      assert t[i + |p|..] == t[i..][|p|..];
      CopiesInRepeat(p, t, i + |p|, m - 1);
    }
  }

  /** A pass whose compare size is the length of a block repeated `k >= 2`
      times writes `k(block)` (RLE.java:161-170). */
  lemma PassRepeated(p: string, k: nat)
    requires |p| >= 2 && k >= 2
    ensures PassEncoding(|p|, Repeat(p, k)) == DecimalString(k) + ("(" + p + ")")
  {
    RepeatCopies(p, k);
    PassWhole(|p|, Repeat(p, k), p, k);
    GroupItem(|p|, k, p);
  }

  /** `k` copies of `p` are the block `p` and `k - 1` further copies of it. */
  lemma RepeatCopies(p: string, k: nat)
    requires |p| >= 1 && k >= 1
    ensures |p| <= |Repeat(p, k)| && Repeat(p, k)[0..|p|] == p
    ensures CopiesAt(p, Repeat(p, k), |p|) == k - 1 && EndOfCopies(p, Repeat(p, k), |p|) == |Repeat(p, k)|
  {
    FrontBlock(p, k);
    CopiesInRepeat(p, Repeat(p, k), |p|, k - 1);
  }

  /** A pass over text made of one block and `k - 1` copies of it writes
      one item. */
  lemma PassWhole(cs: nat, t: string, block: string, k: nat)
    requires cs >= 1 && cs <= |t| && block == t[0..cs]
    requires CopiesAt(block, t, cs) == k - 1 && EndOfCopies(block, t, cs) == |t|
    ensures PassEncoding(cs, t) == PassItem(cs, k, block)
  {
    PassFromCount(cs, t, 0, block, k, |t|);
    assert PassFrom(cs, t, |t|) == "";
  }

  /** The first block of `k` copies of `p` is `p`, and `k - 1` copies follow. */
  lemma FrontBlock(p: string, k: nat)
    requires |p| >= 1 && k >= 1
    ensures |Repeat(p, k)| >= |p| && Repeat(p, k)[0..|p|] == p && Repeat(p, k)[|p|..] == Repeat(p, k - 1)
  {
    RepeatFront(p, k);
  }

  /** A pass whose blocks are longer than half the text finds no copies and
      returns the text unchanged. */
  lemma WidePass(cs: nat, t: string)
    requires cs >= 1 && 2 * cs > |t|
    ensures PassEncoding(cs, t) == t
  {
    if cs <= |t| {
      PassSingle(cs, t, 0);
      assert t[0..cs] + t[cs..] == t;
    }
  }

  /** Outside-in passes up from compare size `lo` change nothing once the
      text is shorter than two blocks of size `lo`. */
  lemma {:induction false} PassesUpWide(s: string, lo: nat, hi: nat)
    requires 1 <= lo <= hi && 2 * lo > |PassesUp(s, lo)|
    ensures PassesUp(s, hi) == PassesUp(s, lo)
    decreases hi - lo
  {
    if hi > lo {
      PassesUpWide(s, lo, hi - 1);
      WidePass(hi - 1, PassesUp(s, lo));
    }
  }

  /** Inside-out passes down to compare size `lo + 1` change nothing once
      the text is shorter than two blocks of size `lo + 1`. */
  lemma {:induction false} PassesDownWide(s: string, top: nat, lo: nat, mid: nat)
    requires lo <= mid && 2 * (lo + 1) > |PassesDown(s, top, mid)|
    ensures PassesDown(s, top, lo) == PassesDown(s, top, mid)
    decreases mid - lo
  {
    if lo < mid && lo < top {
      PassesDownWide(s, top, lo + 1, mid);
      WidePass(lo + 1, PassesDown(s, top, mid));
    }
  }

  /** No block is followed by a copy of itself, from `pos` on. */
  predicate NoCopies(cs: nat, t: string, pos: nat)
    requires cs >= 1 && pos <= |t|
    decreases |t| - pos
  {
    pos + cs > |t| || (CopiesAt(t[pos..pos + cs], t, pos + cs) == 0 && NoCopies(cs, t, pos + cs))
  }

  /** A pass over text where no block is followed by a copy of itself
      returns the text unchanged. */
  lemma {:induction false} NoCopiesPass(cs: nat, t: string, pos: nat)
    requires cs >= 1 && pos <= |t| && NoCopies(cs, t, pos)
    ensures PassFrom(cs, t, pos) == t[pos..]
    decreases |t| - pos
  {
    if pos + cs <= |t| {
      var next, block := NoCopiesTurn(cs, t, pos);
      NoCopiesPass(cs, t, next);
    }
  }

  /** One turn of such a pass copies the block at `pos` and goes on after it. */
  lemma NoCopiesTurn(cs: nat, t: string, pos: nat) returns (next: nat, block: string)
    requires cs >= 1 && pos + cs <= |t| && NoCopies(cs, t, pos)
    ensures pos < next <= |t| && NoCopies(cs, t, next)
    ensures PassFrom(cs, t, pos) == block + PassFrom(cs, t, next)
    ensures block + t[next..] == t[pos..]
  {
    next := pos + cs;
    block := t[pos..pos + cs];
    ZeroCopies(block, t, next);
    PassFromCount(cs, t, pos, block, 1, next);
    Halves(t, pos, next);
  }

  lemma ZeroCopies(p: string, t: string, i: nat)
    requires |p| >= 1 && i <= |t| && CopiesAt(p, t, i) == 0
    ensures EndOfCopies(p, t, i) == i
  {
  }

  /** The block at `pos` differs from the one after it at offset `k`. */
  lemma NoCopyAt(cs: nat, t: string, pos: nat, k: nat)
    requires cs >= 1 && pos + 2 * cs <= |t| && k < cs && t[pos + cs + k] != t[pos + k]
    requires NoCopies(cs, t, pos + cs)
    ensures NoCopies(cs, t, pos)
  {
    Differ(t, pos + cs, pos, cs, k);
  }

  /** Less than two blocks are left from `pos` on. */
  lemma NoCopiesEnd(cs: nat, t: string, pos: nat)
    requires cs >= 1 && pos <= |t| < pos + 2 * cs
    ensures NoCopies(cs, t, pos)
  {
    if pos + cs <= |t| {
      assert NoCopies(cs, t, pos + cs);
    }
  }

  lemma Halves(t: string, i: nat, j: nat)
    requires i <= j <= |t|
    ensures t[i..j] + t[j..] == t[i..]
  {
  }

  /** From `pos` on, no character stands three times in a row. */
  predicate NoTriples(t: string, pos: nat)
    decreases |t| - pos
  {
    pos + 2 >= |t| || ((t[pos] != t[pos + 1] || t[pos + 1] != t[pos + 2]) && NoTriples(t, pos + 1))
  }

  /** Text where no run of one character is longer than two is as long
      after a compare-size-1 pass: a run of two becomes "2" and the
      character. */
  lemma {:induction false} ShortRunsKeepLength(t: string, pos: nat)
    requires pos <= |t| && NoTriples(t, pos)
    ensures |EncodingFrom(t, pos)| == |t| - pos
    decreases |t| - pos
  {
    if pos < |t| {
      var e := RunEnd(t, pos);
      if pos + 1 < |t| && t[pos + 1] == t[pos] {
        assert pos + 2 < |t| ==> t[pos + 2] != t[pos + 1];
        assert e == RunEnd(t, pos + 1) == pos + 2;
        assert DecimalString(2) == "2";
        if e < |t| {
          assert NoTriples(t, pos + 1);
        }
      } else if e < |t| {
        assert e == pos + 1;
      }
      ShortRunsKeepLength(t, e);
    }
  }

  /** The four codes of the first outside-in pass, character by character. */
  predicate SpelledCodes(t: string) {
    |t| == 16
    && t[0] == '4' && t[1] == '#' && t[2] == '2' && t[3] == '$'
    && t[4] == '4' && t[5] == '#' && t[6] == '2' && t[7] == '$'
    && t[8] == '4' && t[9] == '#' && t[10] == '2' && t[11] == '$'
    && t[12] == '4' && t[13] == '#' && t[14] == '2' && t[15] == '$'
  }

  /** "2(####$$####$$)", character by character. */
  predicate SpelledNested(t: string) {
    |t| == 15 && t[0] == '2' && t[1] == '('
    && t[2] == '#' && t[3] == '#' && t[4] == '#' && t[5] == '#' && t[6] == '$' && t[7] == '$'
    && t[8] == '#' && t[9] == '#' && t[10] == '#' && t[11] == '#' && t[12] == '$' && t[13] == '$'
    && t[14] == ')'
  }

  lemma PairsSpelled(h: string)
    requires h == "2(" + ("2(##)" + ("$$" + ("2(##)" + "$$)")))
    ensures SpelledPairs(h)
  {
  }

  /** "2(2(##)$$2(##)$$)", character by character. */
  predicate SpelledPairs(t: string) {
    |t| == 17 && t[0] == '2' && t[1] == '(' && t[2] == '2' && t[3] == '(' && t[4] == '#' && t[5] == '#'
    && t[6] == ')' && t[7] == '$' && t[8] == '$' && t[9] == '2' && t[10] == '(' && t[11] == '#'
    && t[12] == '#' && t[13] == ')' && t[14] == '$' && t[15] == '$' && t[16] == ')'
  }

  lemma CodesSpelled(c: string, c4: string)
    requires c == "4#2$" && c4 == c + c + c + c
    ensures SpelledCodes(c4)
  {
  }

  /** The four codes "4#2$" of the first outside-in pass hold no copy of a
      block of 2 or 3 characters next to itself. */
  lemma CodesKeep(c4: string)
    requires SpelledCodes(c4)
    ensures PassEncoding(2, c4) == c4 && PassEncoding(3, c4) == c4
  {
    NoCopiesEnd(2, c4, 14);
    NoCopyAt(2, c4, 12, 0);
    NoCopyAt(2, c4, 10, 0);
    NoCopyAt(2, c4, 8, 0);
    NoCopyAt(2, c4, 6, 0);
    NoCopyAt(2, c4, 4, 0);
    NoCopyAt(2, c4, 2, 0);
    NoCopyAt(2, c4, 0, 0);
    NoCopiesPass(2, c4, 0);
    CodesKeepTriples(c4);
  }

  lemma CodesKeepTriples(c4: string)
    requires SpelledCodes(c4)
    ensures PassEncoding(3, c4) == c4
  {
    NoCopiesEnd(3, c4, 12);
    NoCopyAt(3, c4, 9, 0);
    NoCopyAt(3, c4, 6, 0);
    NoCopyAt(3, c4, 3, 0);
    NoCopyAt(3, c4, 0, 0);
    NoCopiesPass(3, c4, 0);
  }

  /** The outside-in candidate for four blocks "####$$" (RLE.java:108-111):
      pass 1 writes the four codes "4#2$", passes 2 and 3 find nothing,
      pass 4 writes "4(4#2$)" and passes 5 to 11 find nothing. */
  lemma DocOutsideIn(b: string, s: string)
    requires b == "####$$" && s == b + b + b + b
    ensures OutsideIn(s) == "4(4#2$)"
  {
    var c := "4#2$";
    PassOneIsCompress(s);
    CompressDocExample(b, c);
    var c4 := c + c + c + c;
    CodesSpelled(c, c4);
    FourCopies(c);
    OutsidePasses(s, c, c4);
    assert DecimalString(4) + ("(" + c + ")") == "4(4#2$)";
    PassesUpWide(s, 5, |s| / 2);
  }

  /** Outside-in passes 2 to 4 after the four codes of pass 1. */
  lemma OutsidePasses(s: string, c: string, c4: string)
    requires PassesUp(s, 2) == c4 && SpelledCodes(c4) && c4 == Repeat(c, 4) && |c| == 4
    ensures PassesUp(s, 5) == DecimalString(4) + ("(" + c + ")")
  {
    CodesKeep(c4);
    assert PassesUp(s, 4) == c4;
    assert PassesUp(s, 5) == PassEncoding(|c|, Repeat(c, 4));
    PassRepeated(c, 4);
  }

  lemma FourCopies(c: string)
    ensures c + c + c + c == Repeat(c, 4)
  {
    assert Repeat(c, 1) == "" + c == c;
    assert Repeat(c, 2) == c + c;
    assert Repeat(c, 3) == c + c + c;
  }

  lemma NestedSpelled(b: string, g: string)
    requires b == "####$$" && g == DecimalString(2) + ("(" + (b + b) + ")")
    ensures SpelledNested(g)
  {
    assert DecimalString(2) == "2";
  }

  /** The text of inside-out pass 12, "2(####$$####$$)", holds no copy of a
      block of 3 to 7 characters next to itself. */
  lemma NestedKeeps(g: string, cs: nat)
    requires SpelledNested(g) && 3 <= cs <= 7
    ensures PassEncoding(cs, g) == g
  {
    if cs == 3 {
      NoCopiesEnd(3, g, 12);
      NoCopyAt(3, g, 9, 0);
      NoCopyAt(3, g, 6, 0);
      NoCopyAt(3, g, 3, 0);
      NoCopyAt(3, g, 0, 0);
    } else if cs == 4 {
      NoCopiesEnd(4, g, 8);
      NoCopyAt(4, g, 4, 2);
      NoCopyAt(4, g, 0, 0);
    } else if cs == 5 {
      NoCopiesEnd(5, g, 10);
      NoCopyAt(5, g, 5, 1);
      NoCopyAt(5, g, 0, 0);
    } else {
      NoCopiesEnd(cs, g, cs);
      NoCopyAt(cs, g, 0, 0);
    }
    NoCopiesPass(cs, g, 0);
  }

  /** Inside-out pass 2 on "2(####$$####$$)" writes "2(2(##)$$2(##)$$)". */
  lemma NestedPairs(g: string)
    requires SpelledNested(g)
    ensures PassEncoding(2, g) == "2(" + ("2(##)" + ("$$" + ("2(##)" + "$$)")))
  {
    PairsOpen(g);
    PairsFirst(g);
    PairsMiddle(g);
    PairsSecond(g);
    PairsClose(g);
  }

  lemma PairsOpen(g: string)
    requires SpelledNested(g)
    ensures PassFrom(2, g, 0) == "2(" + PassFrom(2, g, 2)
  {
    Differ(g, 0, 2, 2, 0);
    PassSingle(2, g, 0);
    PairAt(g, 0);
  }

  lemma PairsFirst(g: string)
    requires SpelledNested(g)
    ensures PassFrom(2, g, 2) == "2(##)" + PassFrom(2, g, 6)
  {
    var block := g[2..4];
    PairAt(g, 2);
    PairAt(g, 4);
    PairAt(g, 6);
    OneCopy(block, g, 4);
    PassFromCount(2, g, 2, block, 2, 6);
    GroupItem(2, 2, block);
    HashPair(block);
  }

  lemma PairsMiddle(g: string)
    requires SpelledNested(g)
    ensures PassFrom(2, g, 6) == "$$" + PassFrom(2, g, 8)
  {
    Differ(g, 6, 8, 2, 0);
    PassSingle(2, g, 6);
    PairAt(g, 6);
  }

  lemma PairsSecond(g: string)
    requires SpelledNested(g)
    ensures PassFrom(2, g, 8) == "2(##)" + PassFrom(2, g, 12)
  {
    var block := g[8..10];
    PairAt(g, 8);
    PairAt(g, 10);
    PairAt(g, 12);
    OneCopy(block, g, 10);
    PassFromCount(2, g, 8, block, 2, 12);
    GroupItem(2, 2, block);
    HashPair(block);
  }

  lemma PairsClose(g: string)
    requires SpelledNested(g)
    ensures PassFrom(2, g, 12) == "$$)"
  {
    PassSingle(2, g, 12);
    PairAt(g, 12);
    assert g[12..] == g[12..14] + [g[14]];
  }

  lemma HashPair(x: string)
    requires x == "##"
    ensures DecimalString(2) + ("(" + x + ")") == "2(##)"
  {
    assert DecimalString(2) == "2";
  }

  lemma PairAt(t: string, i: nat)
    requires i + 2 <= |t|
    ensures t[i..i + 2] == [t[i], t[i + 1]]
  {
  }

  lemma PairsNoTriples(h: string)
    requires SpelledPairs(h)
    ensures NoTriples(h, 0)
  {
    assert NoTriples(h, 15) && NoTriples(h, 14) && NoTriples(h, 13) && NoTriples(h, 12);
    assert NoTriples(h, 11) && NoTriples(h, 10) && NoTriples(h, 9) && NoTriples(h, 8);
    assert NoTriples(h, 7) && NoTriples(h, 6) && NoTriples(h, 5) && NoTriples(h, 4);
    assert NoTriples(h, 3) && NoTriples(h, 2) && NoTriples(h, 1);
  }

  /** The inside-out candidate for four blocks "####$$" (RLE.java:112-115)
      is seventeen characters long: pass 12 writes "2(####$$####$$)",
      passes 11 to 3 find nothing, pass 2 writes "2(2(##)$$2(##)$$)" and
      pass 1 keeps its length. */
  lemma DocInsideOut(b: string, s: string)
    requires b == "####$$" && s == b + b + b + b
    ensures |InsideOut(s)| == 17
  {
    var g := DecimalString(2) + ("(" + (b + b) + ")");
    TwoCopiesFront(b + b);
    assert s == (b + b) + (b + b);
    PassRepeated(b + b, 2);
    NestedSpelled(b, g);
    assert PassesDown(s, 12, 11) == g;
    PassesDownWide(s, 12, 7, 11);
    NestedKeeps(g, 7);
    NestedKeeps(g, 6);
    NestedKeeps(g, 5);
    NestedKeeps(g, 4);
    NestedKeeps(g, 3);
    assert PassesDown(s, 12, 2) == g;
    var h := PassEncoding(2, g);
    NestedPairs(g);
    PairsSpelled(h);
    PairsNoTriples(h);
    PassOneFrom(h, 0);
    ShortRunsKeepLength(h, 0);
  }

  lemma TwoCopiesFront(p: string)
    ensures Repeat(p, 2) == p + p
  {
    assert Repeat(p, 1) == "" + p == p;
  }

  /** The example in the comment of RLE.multiPassCompress (RLE.java:42-46):
      four blocks "####$$" come out as "4(4#2$)". */
  lemma MultiPassDocExample(b: string, s: string)
    requires b == "####$$" && s == b + b + b + b
    ensures MultiPassEncoding(s) == "4(4#2$)"
  {
    DocOutsideIn(b, s);
    DocInsideOut(b, s);
  }
}
