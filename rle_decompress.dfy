/** Decompression, RLE.decompress and RLE.decompress_recursive
    (RLE.java:190-244): an item is an optional decimal count followed by
    either one character or a parenthesised group, decoded recursively; a
    ')' closes the current group. */
module RleDecompress {
  import opened RleText
  import opened RleCompress

  /** What decompress_recursive leaves behind: the decoded text (written
      back into its StringBuilder) and the position it returns, one past
      where it stopped. */
  datatype Decoded = Decoded(text: string, resume: nat)

  /** IndexOutOfBounds is the StringIndexOutOfBoundsException that
      `str.substring(pos, pos + 1)` throws when a count runs to the end of
      the text (RLE.java:216). */
  datatype Result<T> = Ok(value: T) | IndexOutOfBounds

  /** The first position at or after `pos` that does not hold a digit, or
      the end of `t`: where the digit loop at RLE.java:216-222 stops. */
  function DigitsEnd(t: string, pos: nat): (p: nat)
    requires pos <= |t|
    ensures pos <= p <= |t| && AllDigits(t[pos..p])
    decreases |t| - pos
  {
    if pos < |t| && IsDigit(t[pos]) then
      var p := DigitsEnd(t, pos + 1);
      assert forall k :: 1 <= k < p - pos ==> t[pos..p][k] == t[pos + 1..p][k - 1];
      p
    else pos
  }

  /** The repeat count of the item at `pos`: the digits before it, or 1
      when there are none (RLE.java:223). */
  function ItemCount(rule: CountRule, t: string, pos: nat): nat
    requires pos <= |t|
  {
    var p := DigitsEnd(t, pos);
    if p == pos then 1 else CountOf(rule, t[pos..p])
  }

  /** Where the outer loop of decompress_recursive stands between two
      turns: the read position and the text decoded so far. */
  datatype Cursor = Cursor(pos: nat, ret: string)

  /** One turn of the outer loop of decompress_recursive (RLE.java:214-239)
      on the item at `pos`: read its count, take the character or decode
      the group that follows, append the copies and move past the item. */
  function Item(rule: CountRule, t: string, pos: nat, ret: string): (r: Result<Cursor>)
    requires pos < |t|
    ensures r.Ok? ==> r.value.pos > pos
    decreases |t|, 0, 0
  {
    var p := DigitsEnd(t, pos);
    if p == |t| then IndexOutOfBounds
    else if t[p] == '(' then
      match Group(rule, t[p + 1..])
      case IndexOutOfBounds => IndexOutOfBounds
      case Ok(inner) => Ok(Cursor(p + inner.resume + 1, ret + Repeat(inner.text, ItemCount(rule, t, pos))))
    else
      Ok(Cursor(p + 1, ret + Repeat([t[p]], ItemCount(rule, t, pos))))
  }

  /** The outer loop of decompress_recursive (RLE.java:208-240) from
      position `pos`, having decoded `ret` so far: it stops at a ')' or at
      the end and returns the position after the stop (RLE.java:243). */
  function GroupLoop(rule: CountRule, t: string, pos: nat, ret: string): Result<Decoded>
    decreases |t|, 0, |t| - pos + 1
  {
    if pos >= |t| || t[pos] == ')' then Ok(Decoded(ret, pos + 1))
    else
      match Item(rule, t, pos, ret)
      case IndexOutOfBounds => IndexOutOfBounds
      case Ok(next) => GroupLoop(rule, t, next.pos, next.ret)
  }

  /** decompress_recursive applied to a StringBuilder holding `t`. */
  function Group(rule: CountRule, t: string): Result<Decoded>
    decreases |t|, 1
  {
    GroupLoop(rule, t, 0, "")
  }

  /** The string RLE.decompress returns, or the exception it throws. */
  function Decoding(rule: CountRule, t: string): Result<string> {
    match Group(rule, t)
    case IndexOutOfBounds => IndexOutOfBounds
    case Ok(d) => Ok(d.text)
  }

  /** A StringBuilder: text that decompress_recursive replaces in place. */
  class Builder {
    var text: string

    constructor(t: string)
      ensures text == t
    {
      text := t;
    }
  }

  /** The digit loop at RLE.java:215-222: the count it accumulates, the
      power of ten `digit` ends at, and where it stops. */
  method ReadCount(rule: CountRule, s: string, start: nat) returns (count: nat, digit: nat, pos: nat)
    requires start <= |s|
    ensures pos == DigitsEnd(s, start)
    ensures digit == 1 <==> pos == start
    ensures pos > start ==> AllDigits(s[start..pos]) && count == CountOf(rule, s[start..pos])
  {
    count, digit, pos := 0, 1, start;
    while pos < |s| && IsDigit(s[pos])
      invariant start <= pos <= |s|
      invariant DigitsEnd(s, pos) == DigitsEnd(s, start)
      invariant digit == Pow10(pos - start)
      invariant AllDigits(s[start..pos]) && count == CountOf(rule, s[start..pos])
      decreases |s| - pos
    {
      CountStep(rule, s, start, pos);
      count := count * (if rule == Decimal then 10 else digit) + DigitValue(s[pos]);
      digit := digit * 10;
      pos := pos + 1;
    }
  }

  /** One more digit extends the count read so far. */
  lemma CountStep(rule: CountRule, s: string, start: nat, pos: nat)
    requires start <= pos < |s| && IsDigit(s[pos]) && AllDigits(s[start..pos])
    ensures AllDigits(s[start..pos + 1])
    ensures CountOf(rule, s[start..pos + 1])
         == CountOf(rule, s[start..pos]) * (if rule == Decimal then 10 else Pow10(pos - start)) + DigitValue(s[pos])
  {
    var d := s[start..pos + 1];
    assert d[..pos - start] == s[start..pos];
    assert d[pos - start] == s[pos];
    assert AllDigits(d);
  }

  /** The expansion loop at RLE.java:236-238. */
  method AppendCopies(ret: string, expansion: string, count: nat) returns (ret': string)
    ensures ret' == ret + Repeat(expansion, count)
  {
    ret' := ret;
    var i := 0;
    while i != count
      invariant 0 <= i <= count
      invariant ret' == ret + Repeat(expansion, i)
    {
      Assoc(ret, Repeat(expansion, i), expansion);
      ret' := ret' + expansion;
      i := i + 1;
    }
  }

  /** The body of the outer loop of decompress_recursive (RLE.java:214-239)
      on an item that is not a ')'. */
  method DecodeItem(rule: CountRule, s: string, pos: nat, ret: string) returns (res: Result<Cursor>)
    requires pos < |s|
    ensures res == Item(rule, s, pos, ret)
    decreases |s|, 0
  {
    var count, digit, p := ReadCount(rule, s, pos);
    if p == |s| {
      return IndexOutOfBounds;
    }
    if digit == 1 {
      count := 1;
    }
    assert count == ItemCount(rule, s, pos);
    var expansion;
    var next := p;
    if s[p] == '(' {
      var sub := new Builder(s[p + 1..]);
      var r := DecompressRecursive(rule, sub);
      if r.IndexOutOfBounds? {
        return IndexOutOfBounds;
      }
      expansion := sub.text;
      next := p + r.value;
    } else {
      expansion := [s[p]];
    }
    var ret' := AppendCopies(ret, expansion, count);
    res := Ok(Cursor(next + 1, ret'));
  }

  /** RLE.decompress_recursive, loop for loop. On success the builder holds
      the decoded text and the result is the position after the stop; when
      a count runs to the end the builder is left as it was. */
  method DecompressRecursive(rule: CountRule, str: Builder) returns (res: Result<nat>)
    modifies str
    ensures Group(rule, old(str.text)).Ok? ==>
              res == Ok(Group(rule, old(str.text)).value.resume) && str.text == Group(rule, old(str.text)).value.text
    ensures Group(rule, old(str.text)).IndexOutOfBounds? ==> res == IndexOutOfBounds && str.text == old(str.text)
    decreases |str.text|, 1
  {
    var s := str.text;
    var ret := "";
    var pos := 0;
    while pos < |s|
      invariant str.text == s
      invariant GroupLoop(rule, s, pos, ret) == Group(rule, s)
      decreases |s| - pos
    {
      if s[pos] == ')' {
        break;
      }
      var step := DecodeItem(rule, s, pos, ret);
      if step.IndexOutOfBounds? {
        return IndexOutOfBounds;
      }
      pos, ret := step.value.pos, step.value.ret;
    }
    str.text := ret;
    res := Ok(pos + 1);
  }

  /** RLE.decompress. */
  method Decompress(rule: CountRule, str: string) returns (r: Result<string>)
    ensures r == Decoding(rule, str)
  {
    var ret := new Builder(str);
    var res := DecompressRecursive(rule, ret);
    if res.IndexOutOfBounds? {
      r := IndexOutOfBounds;
    } else {
      r := Ok(ret.text);
    }
  }

  /** Text that compress copies bare: no digits and no parentheses. */
  predicate Plain(s: string) {
    forall i :: 0 <= i < |s| ==> !IsDigit(s[i]) && s[i] != '(' && s[i] != ')'
  }

  /** No run of `s` is longer than `m`. */
  predicate RunsAtMost(s: string, m: nat) {
    forall r :: r in Runs(s) ==> r.len <= m
  }

  /** `t` holds `w` from position `pos` on. */
  predicate Holds(t: string, pos: nat, w: string) {
    pos + |w| <= |t| && forall k :: 0 <= k < |w| ==> t[pos + k] == w[k]
  }

  lemma HoldsSplit(t: string, pos: nat, a: string, b: string)
    requires Holds(t, pos, a + b)
    ensures Holds(t, pos, a) && Holds(t, pos + |a|, b)
  {
    forall k | 0 <= k < |a| ensures t[pos + k] == a[k] {
      assert (a + b)[k] == a[k];
    }
    forall k | 0 <= k < |b| ensures t[pos + |a| + k] == b[k] {
      assert (a + b)[|a| + k] == b[k];
    }
  }

  /** The digit loop reads exactly the digits `d` when something other than
      a digit, or the end, follows them. */
  lemma {:induction false} DigitsRun(t: string, pos: nat, d: string)
    requires Holds(t, pos, d) && AllDigits(d)
    requires pos + |d| == |t| || !IsDigit(t[pos + |d|])
    ensures DigitsEnd(t, pos) == pos + |d|
    decreases |d|
  {
    if d != [] {
      assert t[pos] == d[0];
      forall k | 0 <= k < |d| - 1 ensures t[pos + 1 + k] == d[1..][k] {
        assert t[pos + (k + 1)] == d[k + 1];
      }
      DigitsRun(t, pos + 1, d[1..]);
    }
  }

  /** The item at `pos` when it is a single character: its count and the
      character itself (RLE.java:223, 233). */
  lemma CharItemValue(rule: CountRule, t: string, pos: nat, ret: string)
    requires pos < |t| && DigitsEnd(t, pos) < |t| && t[DigitsEnd(t, pos)] != '('
    ensures Item(rule, t, pos, ret)
         == Ok(Cursor(DigitsEnd(t, pos) + 1, ret + Repeat([t[DigitsEnd(t, pos)]], ItemCount(rule, t, pos))))
  {
  }

  /** Where the count digits `d` in front of `c` end, and what they count. */
  lemma CountedChar(rule: CountRule, t: string, pos: nat, d: string, c: char, n: nat)
    requires Holds(t, pos, d + [c]) && !IsDigit(c)
    requires d == [] ==> n == 1
    requires d != [] ==> AllDigits(d) && CountOf(rule, d) == n
    ensures pos < |t| && DigitsEnd(t, pos) == pos + |d| && t[pos + |d|] == c
    ensures ItemCount(rule, t, pos) == n
    ensures t[pos] == c || IsDigit(t[pos])
  {
    HoldsSplit(t, pos, d, [c]);
    assert t[(pos + |d|) + 0] == [c][0];
    DigitsRun(t, pos, d);
    assert t[pos..pos + |d|] == d;
    if d != [] {
      assert t[pos] == d[0];
      assert ItemCount(rule, t, pos) == CountOf(rule, t[pos..pos + |d|]);
    }
  }

  /** An item written by compress, count and character, decodes to the run
      it came from; a run of one is a bare character, which expands once
      (RLE.java:215-223, 232-233). */
  lemma ItemDecodes(rule: CountRule, t: string, pos: nat, c: char, n: nat, ret: string)
    requires n >= 1 && (rule == Decimal || n <= 99)
    requires !IsDigit(c) && c != '(' && c != ')'
    requires Holds(t, pos, EncodeRun(Run(c, n)))
    ensures pos < |t| && t[pos] != ')'
    ensures Item(rule, t, pos, ret) == Ok(Cursor(pos + |EncodeRun(Run(c, n))|, ret + Repeat([c], n)))
  {
    if n >= 2 {
      var d := DecimalString(n);
      assert EncodeRun(Run(c, n)) == d + [c];
      ReadBack(rule, n);
      CountedChar(rule, t, pos, d, c, n);
    } else {
      assert EncodeRun(Run(c, n)) == [] + [c];
      CountedChar(rule, t, pos, [], c, n);
    }
    CharItemValue(rule, t, pos, ret);
  }

  /** The turn of the outer loop over an item written by compress. */
  lemma ItemStep(rule: CountRule, t: string, pos: nat, c: char, n: nat, ret: string)
    requires n >= 1 && (rule == Decimal || n <= 99)
    requires !IsDigit(c) && c != '(' && c != ')'
    requires Holds(t, pos, EncodeRun(Run(c, n)))
    ensures GroupLoop(rule, t, pos, ret) == GroupLoop(rule, t, pos + |EncodeRun(Run(c, n))|, ret + Repeat([c], n))
  {
    ItemDecodes(rule, t, pos, c, n, ret);
  }

  /** The first run of `s`, its code, and the rest of `s`. */
  lemma FirstRun(s: string) returns (c: char, n: nat, rest: string)
    requires s != []
    ensures n >= 1 && |rest| < |s| && s == Repeat([c], n) + rest
    ensures RunLengthEncoding(s) == EncodeRun(Run(c, n)) + RunLengthEncoding(rest)
    ensures Plain(s) ==> Plain(rest) && !IsDigit(c) && c != '(' && c != ')'
    ensures RunsAtMost(s, 99) ==> RunsAtMost(rest, 99) && n <= 99
  {
    c, n := s[0], RunLength(s);
    rest := s[n..];
    FirstRunCode(s);
    if RunsAtMost(s, 99) {
      RestRunsAtMost(s);
    }
    if Plain(s) {
      RestPlain(s, n);
    }
    FirstRunSplit(s);
  }

  lemma FirstRunSplit(s: string)
    requires s != []
    ensures 1 <= RunLength(s) <= |s|
    ensures s == Repeat([s[0]], RunLength(s)) + s[RunLength(s)..]
  {
    var n, r := RunPrefix(s);
    SplitAt(s, n);
  }

  lemma SplitAt(s: string, n: nat)
    requires n <= |s|
    ensures s[..n] + s[n..] == s
  {
  }

  lemma RunPrefix(s: string) returns (n: nat, r: string)
    requires s != []
    ensures n == RunLength(s) && r == Repeat([s[0]], n) && r == s[..n]
  {
    n := RunLength(s);
    r := Repeat([s[0]], n);
    RunLengthRun(s);
    RunIsRepeat(s, n);
  }

  lemma FirstRunCode(s: string)
    requires s != []
    ensures RunLengthEncoding(s) == EncodeRun(Run(s[0], RunLength(s))) + RunLengthEncoding(s[RunLength(s)..])
  {
    RunsFirst(s);
  }

  lemma RestRunsAtMost(s: string)
    requires s != [] && RunsAtMost(s, 99)
    ensures RunLength(s) <= 99 && RunsAtMost(s[RunLength(s)..], 99)
  {
    RunsFirst(s);
    assert Runs(s)[0] in Runs(s);
    forall r | r in Runs(s[RunLength(s)..]) ensures r.len <= 99 {
      assert r in Runs(s)[1..];
    }
  }

  lemma RestPlain(s: string, n: nat)
    requires Plain(s) && 1 <= n <= |s|
    ensures Plain(s[n..]) && !IsDigit(s[0]) && s[0] != '(' && s[0] != ')'
  {
    var rest := s[n..];
    forall i | 0 <= i < |rest| ensures !IsDigit(rest[i]) && rest[i] != '(' && rest[i] != ')' {
      assert rest[i] == s[n + i];
    }
  }

  /** Decoding the compressed text of `s` from `pos` appends `s` and moves
      past the compressed text, whatever follows it. */
  lemma {:induction false} EncodedLoop(rule: CountRule, t: string, pos: nat, s: string, ret: string)
    requires Plain(s) && (rule == Decimal || RunsAtMost(s, 99))
    requires Holds(t, pos, RunLengthEncoding(s))
    ensures GroupLoop(rule, t, pos, ret) == GroupLoop(rule, t, pos + |RunLengthEncoding(s)|, ret + s)
    decreases |s|
  {
    if s == [] {
      assert ret + s == ret;
      assert RunLengthEncoding(s) == [];
    } else {
      var k, rest, ret' := EncodedStep(rule, t, pos, s, ret);
      EncodedLoop(rule, t, pos + k, rest, ret');
    }
  }

  /** One turn of the decoding loop over compressed text: the first run of
      `s` is decoded and what is left of `s` is again plain compressed text. */
  lemma EncodedStep(rule: CountRule, t: string, pos: nat, s: string, ret: string)
    returns (k: nat, rest: string, ret': string)
    requires s != [] && Plain(s) && (rule == Decimal || RunsAtMost(s, 99))
    requires Holds(t, pos, RunLengthEncoding(s))
    ensures |rest| < |s| && Plain(rest) && (rule == Decimal || RunsAtMost(rest, 99))
    ensures Holds(t, pos + k, RunLengthEncoding(rest))
    ensures k + |RunLengthEncoding(rest)| == |RunLengthEncoding(s)|
    ensures ret' + rest == ret + s
    ensures GroupLoop(rule, t, pos, ret) == GroupLoop(rule, t, pos + k, ret')
  {
    var c, n;
    c, n, rest := FirstRun(s);
    var e := EncodeRun(Run(c, n));
    k := |e|;
    HoldsSplit(t, pos, e, RunLengthEncoding(rest));
    ret' := ret + Repeat([c], n);
    ItemStep(rule, t, pos, c, n, ret);
    Assoc(ret, Repeat([c], n), rest);
  }

  /** `u`, decoded on its own, runs to its end, without stopping at a ')'
      of its own and without a count running off the end, and gives `x`. */
  predicate DecodesTo(rule: CountRule, u: string, x: string) {
    Group(rule, u) == Ok(Decoded(x, |u| + 1))
  }

  /** The repeat count of an item whose count digits are `d` (RLE.java:223). */
  function CountFor(rule: CountRule, d: string): nat
    requires AllDigits(d)
  {
    if d == [] then 1 else CountOf(rule, d)
  }

  /** Decoding text that runs to its end is decompress's result. */
  lemma DecodingOf(rule: CountRule, u: string, x: string)
    requires DecodesTo(rule, u, x)
    ensures Decoding(rule, u) == Ok(x)
  {
  }

  /** The compressed text of `s` decodes to `s`. */
  lemma EncodedDecodes(rule: CountRule, s: string)
    requires Plain(s) && (rule == Decimal || RunsAtMost(s, 99))
    ensures DecodesTo(rule, RunLengthEncoding(s), s)
  {
    var t := RunLengthEncoding(s);
    EncodedLoop(rule, t, 0, s, "");
    assert "" + s == s;
  }

  /** Round trip (RLE.java:246-258): decompressing what compress wrote gives
      the text back, for text without digits or parentheses; the digit loop
      as written needs every run to be at most 99 long. */
  lemma RoundTrip(rule: CountRule, s: string)
    requires Plain(s) && (rule == Decimal || RunsAtMost(s, 99))
    ensures Decoding(rule, RunLengthEncoding(s)) == Ok(s)
  {
    EncodedDecodes(rule, s);
    DecodingOf(rule, RunLengthEncoding(s), s);
  }

  /** Text without digits or parentheses is a row of bare characters, each
      expanded once (RLE.java:223, 233): it decodes to itself. */
  lemma PlainDecodes(rule: CountRule, s: string)
    requires Plain(s)
    ensures DecodesTo(rule, s, s)
  {
    PlainLoop(rule, s, 0, "");
    assert s[0..] == s && "" + s == s;
  }

  lemma {:induction false} PlainLoop(rule: CountRule, s: string, pos: nat, ret: string)
    requires Plain(s) && pos <= |s|
    ensures GroupLoop(rule, s, pos, ret) == Ok(Decoded(ret + s[pos..], |s| + 1))
    decreases |s| - pos
  {
    if pos == |s| {
      assert ret + s[pos..] == ret;
    } else {
      assert DigitsEnd(s, pos) == pos;
      assert Repeat([s[pos]], 1) == [s[pos]];
      PlainLoop(rule, s, pos + 1, ret + [s[pos]]);
      assert s[pos..] == [s[pos]] + s[pos + 1..];
      Assoc(ret, [s[pos]], s[pos + 1..]);
    }
  }

  /** The digit loop stops at the same place in `t` as in its prefix `u`
      when it stops inside `u`. */
  lemma {:induction false} DigitsEndPrefix(u: string, t: string, pos: nat)
    requires Holds(t, 0, u) && pos <= |u| && DigitsEnd(u, pos) < |u|
    ensures DigitsEnd(t, pos) == DigitsEnd(u, pos)
    decreases |u| - pos
  {
    assert t[0 + pos] == u[pos];
    if IsDigit(u[pos]) {
      DigitsEndPrefix(u, t, pos + 1);
    }
  }

  /** The item at `pos` reads the same in `t` as in `u` when its count
      digits, the character after them and, for a group, the group's
      decoding agree. */
  lemma ItemSame(rule: CountRule, u: string, t: string, pos: nat, ret: string, p: nat)
    requires pos < |u| && pos < |t| && p == DigitsEnd(u, pos) < |u| && p < |t|
    requires DigitsEnd(t, pos) == p && t[p] == u[p] && t[pos..p] == u[pos..p]
    requires u[p] == '(' ==> Group(rule, t[p + 1..]) == Group(rule, u[p + 1..])
    ensures Item(rule, t, pos, ret) == Item(rule, u, pos, ret)
  {
    assert ItemCount(rule, t, pos) == ItemCount(rule, u, pos) by {
      if p != pos {
        assert t[pos] == t[pos..p][0] == u[pos];
      }
    }
    if u[p] == '(' {
      match Group(rule, u[p + 1..])
      case IndexOutOfBounds =>
      case Ok(inner) =>
        GroupItemValue(rule, t, pos, ret, inner);
        GroupItemValue(rule, u, pos, ret, inner);
    } else {
      CharItemValue(rule, t, pos, ret);
      CharItemValue(rule, u, pos, ret);
    }
  }

  /** `t` agrees with its prefix `u` on the digits in front of the item at
      `pos` and on the character after them. */
  lemma PrefixDigits(u: string, t: string, pos: nat) returns (p: nat)
    requires Holds(t, 0, u) && pos < |u| && DigitsEnd(u, pos) < |u|
    ensures p == DigitsEnd(u, pos) && DigitsEnd(t, pos) == p && p < |t|
    ensures t[p] == u[p] && t[pos..p] == u[pos..p]
  {
    p := DigitsEnd(u, pos);
    DigitsEndPrefix(u, t, pos);
    assert t[0 + p] == u[p];
    forall k | pos <= k < p ensures t[k] == u[k] {
      assert t[0 + k] == u[k];
    }
  }

  /** The part of `t` after position `q` extends the part of `u` after it. */
  lemma HoldsAfter(u: string, t: string, q: nat)
    requires Holds(t, 0, u) && q <= |u|
    ensures Holds(t[q..], 0, u[q..])
  {
    forall k | 0 <= k < |u| - q ensures t[q..][0 + k] == u[q..][k] {
      assert t[0 + (q + k)] == u[q + k];
    }
  }

  /** The decoding of the group an item opens, when the item decodes. */
  lemma GroupOf(rule: CountRule, u: string, pos: nat, ret: string, p: nat, c: Cursor) returns (inner: Decoded)
    requires pos < |u| && p == DigitsEnd(u, pos) < |u| && u[p] == '('
    requires Item(rule, u, pos, ret) == Ok(c)
    ensures Group(rule, u[p + 1..]) == Ok(inner) && c.pos == p + inner.resume + 1
  {
    inner := Group(rule, u[p + 1..]).value;
  }

  /** An item that ends inside the prefix `u` of `t` reads the same in `t`. */
  lemma ItemExtend(rule: CountRule, u: string, t: string, pos: nat, ret: string, c: Cursor)
    requires Holds(t, 0, u) && pos < |u|
    requires Item(rule, u, pos, ret) == Ok(c) && c.pos <= |u|
    ensures pos < |t| && Item(rule, t, pos, ret) == Ok(c)
    decreases |u|, 0
  {
    var p := PrefixDigits(u, t, pos);
    if u[p] == '(' {
      var inner := GroupOf(rule, u, pos, ret, p, c);
      HoldsAfter(u, t, p + 1);
      LoopExtend(rule, u[p + 1..], t[p + 1..], 0, "", inner);
    }
    ItemSame(rule, u, t, pos, ret, p);
  }

  /** Decoding a prefix `u` of `t`: when the loop stops at a ')' of `u`, it
      stops there in `t` too with the same result; when it runs to the end
      of `u`, it carries on in `t` from there with what `u` decoded to. */
  lemma {:induction false} LoopExtend(rule: CountRule, u: string, t: string, pos: nat, ret: string, d: Decoded)
    requires Holds(t, 0, u) && pos <= |u|
    requires GroupLoop(rule, u, pos, ret) == Ok(d) && d.resume <= |u| + 1
    ensures d.resume <= |u| ==> GroupLoop(rule, t, pos, ret) == Ok(d)
    ensures d.resume == |u| + 1 ==> GroupLoop(rule, t, pos, ret) == GroupLoop(rule, t, |u|, d.text)
    decreases |u|, 1, |u| - pos
  {
    if pos < |u| {
      assert t[0 + pos] == u[pos];
      if u[pos] != ')' {
        var c := Item(rule, u, pos, ret).value;
        ItemExtend(rule, u, t, pos, ret, c);
        LoopExtend(rule, u, t, c.pos, c.ret, d);
      }
    }
  }

  /** Decoding `u` at offset `k` of `t`, where `t` ends with `u`, after
      having decoded `a`: every position moves on by `k` and `a` stays in
      front of the text. */
  lemma {:induction false} DigitsEndShift(t: string, k: nat, u: string, pos: nat)
    requires k + |u| == |t| && Holds(t, k, u) && pos <= |u|
    ensures DigitsEnd(t, k + pos) == k + DigitsEnd(u, pos)
    decreases |u| - pos
  {
    if pos < |u| {
      assert t[k + pos] == u[pos];
      if IsDigit(u[pos]) {
        DigitsEndShift(t, k, u, pos + 1);
      }
    }
  }

  lemma ItemShift(rule: CountRule, t: string, k: nat, u: string, pos: nat, a: string, ret: string, c: Cursor)
    requires k + |u| == |t| && Holds(t, k, u) && pos < |u|
    requires Item(rule, u, pos, ret) == Ok(c)
    ensures Item(rule, t, k + pos, a + ret) == Ok(Cursor(k + c.pos, a + c.ret))
  {
    var p := DigitsEnd(u, pos);
    DigitsEndShift(t, k, u, pos);
    assert t[k + p] == u[p];
    assert t[k + pos..k + p] == u[pos..p] by {
      forall i | pos <= i < p ensures t[k + i] == u[i] {
      }
    }
    assert ItemCount(rule, t, k + pos) == ItemCount(rule, u, pos);
    if u[p] == '(' {
      assert t[k + p + 1..] == u[p + 1..] by {
        forall i | p + 1 <= i < |u| ensures t[k + i] == u[i] {
        }
      }
    }
    var x := if u[p] == '(' then Group(rule, u[p + 1..]).value.text else [u[p]];
    Assoc(a, ret, Repeat(x, ItemCount(rule, u, pos)));
  }

  lemma {:induction false} LoopShift(rule: CountRule, t: string, k: nat, u: string, pos: nat, a: string, ret: string, d: Decoded)
    requires k + |u| == |t| && Holds(t, k, u)
    requires GroupLoop(rule, u, pos, ret) == Ok(d)
    ensures GroupLoop(rule, t, k + pos, a + ret) == Ok(Decoded(a + d.text, k + d.resume))
    decreases |u| - pos
  {
    if pos < |u| {
      assert t[k + pos] == u[pos];
      if u[pos] != ')' {
        var c := Item(rule, u, pos, ret).value;
        ItemShift(rule, t, k, u, pos, a, ret, c);
        LoopShift(rule, t, k, u, c.pos, a, c.ret, d);
      }
    }
  }

  /** Two texts that each decode to their end decode, one after the other,
      to what they decode to one after the other. */
  lemma DecodesConcat(rule: CountRule, u1: string, x1: string, u2: string, x2: string)
    requires DecodesTo(rule, u1, x1) && DecodesTo(rule, u2, x2)
    ensures DecodesTo(rule, u1 + u2, x1 + x2)
  {
    PrefixDecodes(rule, u1, u2, x1);
    SuffixDecodes(rule, u1, u2, x1, x2);
  }

  /** Decoding `u + v`, where `u` decodes to its end, goes through `u` and
      carries on after it with what `u` decoded to. */
  lemma PrefixDecodes(rule: CountRule, u: string, v: string, x: string)
    requires DecodesTo(rule, u, x)
    ensures GroupLoop(rule, u + v, 0, "") == GroupLoop(rule, u + v, |u|, x)
  {
    HoldsPrefix(u, v);
    LoopExtend(rule, u, u + v, 0, "", Decoded(x, |u| + 1));
  }

  /** Decoding `a + u`, where `u` decodes to its end, from where `u`
      starts, having decoded `y`, appends what `u` decodes to. */
  lemma SuffixDecodes(rule: CountRule, a: string, u: string, y: string, x: string)
    requires DecodesTo(rule, u, x)
    ensures GroupLoop(rule, a + u, |a|, y) == Ok(Decoded(y + x, |a + u| + 1))
  {
    HoldsSuffix(a, u);
    LoopShift(rule, a + u, |a|, u, 0, y, "", Decoded(x, |u| + 1));
    assert y + "" == y && |a| + 0 == |a|;
  }

  lemma HoldsPrefix(u: string, v: string)
    ensures Holds(u + v, 0, u)
  {
    forall k | 0 <= k < |u| ensures (u + v)[0 + k] == u[k] {
    }
  }

  lemma HoldsSuffix(a: string, u: string)
    ensures Holds(a + u, |a|, u)
  {
    forall k | 0 <= k < |u| ensures (a + u)[|a| + k] == u[k] {
    }
  }

  /** A ')' at the top level ends decoding and whatever follows it is
      dropped (RLE.java:212, 243): text `u` that decodes to its end,
      followed by ')', decodes to what `u` decodes to. */
  lemma CloseStopsDecoding(rule: CountRule, u: string, x: string, rest: string)
    requires DecodesTo(rule, u, x)
    ensures Decoding(rule, u + ")" + rest) == Ok(x)
  {
    PrefixDecodes(rule, u, ")" + rest, x);
    var t := u + (")" + rest);
    assert t == u + ")" + rest;
    assert t[|u|] == ')';
  }

  /** A count with nothing after it to repeat makes the digit loop run past
      the end of the text, which throws (RLE.java:216): text `u` that
      decodes to its end, followed by digits, fails. */
  lemma TrailingCountFails(rule: CountRule, u: string, x: string, d: string)
    requires DecodesTo(rule, u, x)
    requires d != [] && AllDigits(d)
    ensures Decoding(rule, u + d) == IndexOutOfBounds
  {
    var t := u + d;
    PrefixDecodes(rule, u, d, x);
    HoldsSuffix(u, d);
    DigitsRun(t, |u|, d);
    assert t[|u|] == d[0];
  }

  /** The item at `pos` when it is a group: the group's text repeated by the
      count, and the position after what the group consumed
      (RLE.java:225-230, 236-239). */
  lemma GroupItemValue(rule: CountRule, t: string, pos: nat, ret: string, inner: Decoded)
    requires pos < |t| && DigitsEnd(t, pos) < |t| && t[DigitsEnd(t, pos)] == '('
    requires Group(rule, t[DigitsEnd(t, pos) + 1..]) == Ok(inner)
    ensures Item(rule, t, pos, ret)
         == Ok(Cursor(DigitsEnd(t, pos) + inner.resume + 1, ret + Repeat(inner.text, ItemCount(rule, t, pos))))
  {
  }

  lemma HoldsDrop(t: string, k: nat, w: string)
    requires Holds(t, k, w)
    ensures Holds(t[k..], 0, w)
  {
    forall i | 0 <= i < |w| ensures t[k..][0 + i] == w[i] {
      assert t[k..][i] == t[k + i];
    }
  }

  /** A group `d(u)`, with count digits `d` (none meaning 1) and any text
      `u` inside that decodes to its end, expands to the count's copies of
      what `u` decodes to, and decoding resumes right after the group's ')'
      (RLE.java:215-231, 236-239, 243). Nested groups are texts `u` of this
      kind. */
  lemma GroupDecodes(rule: CountRule, t: string, pos: nat, d: string, u: string, x: string, ret: string)
    requires AllDigits(d) && DecodesTo(rule, u, x)
    requires Holds(t, pos, d + "(" + u + ")")
    ensures pos < |t| && t[pos] != ')'
    ensures Item(rule, t, pos, ret) == Ok(Cursor(pos + |d| + |u| + 2, ret + Repeat(x, CountFor(rule, d))))
  {
    Assoc(d + "(", u, ")");
    var p := GroupOpens(rule, t, pos, d, u + ")");
    GroupCloses(rule, t[p + 1..], u, x);
    GroupItemAt(rule, t, pos, ret, p, CountFor(rule, d), Decoded(x, |u| + 1));
  }

  /** GroupItemValue with the end of the count and the count given. */
  lemma GroupItemAt(rule: CountRule, t: string, pos: nat, ret: string, p: nat, n: nat, inner: Decoded)
    requires pos < |t| && p == DigitsEnd(t, pos) && p < |t| && t[p] == '('
    requires n == ItemCount(rule, t, pos) && Group(rule, t[p + 1..]) == Ok(inner)
    ensures Item(rule, t, pos, ret) == Ok(Cursor(p + inner.resume + 1, ret + Repeat(inner.text, n)))
  {
    GroupItemValue(rule, t, pos, ret, inner);
  }

  /** The count digits `d` and the '(' of a group, followed by `w`. */
  lemma GroupOpens(rule: CountRule, t: string, pos: nat, d: string, w: string) returns (p: nat)
    requires AllDigits(d) && Holds(t, pos, d + "(" + w)
    ensures p == pos + |d| && p < |t| && DigitsEnd(t, pos) == p && t[p] == '('
    ensures ItemCount(rule, t, pos) == CountFor(rule, d) && t[pos] != ')'
    ensures Holds(t[p + 1..], 0, w)
  {
    p := pos + |d|;
    HoldsSplit(t, pos, d + "(", w);
    CountedChar(rule, t, pos, d, '(', CountFor(rule, d));
    HoldsDrop(t, p + 1, w);
  }

  /** Text that decodes to its end, followed by ')', is a group's inside:
      decoding it stops at the ')' and resumes after it. */
  lemma GroupCloses(rule: CountRule, t: string, u: string, x: string)
    requires DecodesTo(rule, u, x) && Holds(t, 0, u + ")")
    ensures Group(rule, t) == Ok(Decoded(x, |u| + 1))
  {
    HoldsSplit(t, 0, u, ")");
    LoopExtend(rule, u, t, 0, "", Decoded(x, |u| + 1));
    assert t[|u| + 0] == ")"[0];
  }

  /** Text that is one item, not a ')', decodes to that item's expansion. */
  lemma OneItem(rule: CountRule, t: string, x: string)
    requires t != [] && t[0] != ')'
    requires Item(rule, t, 0, "") == Ok(Cursor(|t|, x))
    ensures DecodesTo(rule, t, x)
  {
    assert GroupLoop(rule, t, |t|, x) == Ok(Decoded(x, |t| + 1));
  }

  /** A group holding a group: "2(2(ab)c)" decompresses to "ababcababc". */
  lemma NestedGroupDecodes(rule: CountRule, t: string, x: string)
    requires t == "2(2(ab)c)" && x == "ababcababc"
    ensures Decoding(rule, t) == Ok(x)
  {
    var ab, c := t[4..6], t[7..8];
    var u := GroupThenText(rule, ab, c);
    ReadBack(rule, 2);
    var t' := OneGroup(rule, DecimalString(2), u, ab + ab + c);
    TwoCopies(ab + ab + c);
    NestedText(t, ab, c, u);
    DecodingOf(rule, t, x);
  }

  /** A group "2(ab)" followed by plain text `c`. */
  lemma GroupThenText(rule: CountRule, ab: string, c: string) returns (u: string)
    requires Plain(ab) && Plain(c)
    ensures u == DecimalString(2) + "(" + ab + ")" + c && DecodesTo(rule, u, ab + ab + c)
  {
    PlainDecodes(rule, ab);
    PlainDecodes(rule, c);
    ReadBack(rule, 2);
    var g := OneGroup(rule, DecimalString(2), ab, ab);
    TwoCopies(ab);
    DecodesConcat(rule, g, ab + ab, c, c);
    u := g + c;
  }

  lemma NestedText(t: string, ab: string, c: string, u: string)
    requires t == "2(2(ab)c)" && ab == t[4..6] && c == t[7..8]
    requires u == DecimalString(2) + "(" + ab + ")" + c
    ensures t == DecimalString(2) + "(" + u + ")"
    ensures ab + ab + c + (ab + ab + c) == "ababcababc"
  {
    assert DecimalString(2) == "2";
  }

  /** A text that is a single group `d(u)` decodes to the count's copies
      of what `u` decodes to. */
  lemma OneGroup(rule: CountRule, d: string, u: string, x: string) returns (t: string)
    requires AllDigits(d) && DecodesTo(rule, u, x)
    ensures t == d + "(" + u + ")" && DecodesTo(rule, t, Repeat(x, CountFor(rule, d)))
  {
    t := d + "(" + u + ")";
    assert Holds(t, 0, d + "(" + u + ")");
    GroupDecodes(rule, t, 0, d, u, x, "");
    assert "" + Repeat(x, CountFor(rule, d)) == Repeat(x, CountFor(rule, d));
    OneItem(rule, t, Repeat(x, CountFor(rule, d)));
  }

  lemma TwoCopies(y: string)
    ensures Repeat(y, 2) == y + y
  {
    assert Repeat(y, 1) == "" + y;
  }

  /** The group a multi-pass compression writes for four copies of
      `####$$`, "4(4#2$)", decodes back to those four copies
      (RLE.java:44-46). */
  lemma MultiPassDocDecodes(rule: CountRule, t: string, b: string)
    requires t == "4(4#2$)" && b == "####$$"
    ensures Decoding(rule, t) == Ok(Repeat(b, 4))
  {
    DocBlockPlain(b);
    EncodedDecodes(rule, b);
    var four := DecimalString(4);
    ReadBack(rule, 4);
    var t' := OneGroup(rule, four, RunLengthEncoding(b), b);
    assert t' == t;
    DecodingOf(rule, t', Repeat(b, 4));
  }

  lemma DocBlockPlain(b: string)
    requires b == "####$$"
    ensures Plain(b) && RunsAtMost(b, 99) && RunLengthEncoding(b) == "4#2$"
  {
    DocBlock(b, "4#2$", "");
    assert b + "" == b;
    assert RunLengthEncoding("") == "";
    var rs := [Run('#', 4), Run('$', 2)];
    assert Expand(rs) == b by {
      assert Expand(rs[1..][1..]) == "";
      assert Repeat("#", 4) == "####" && Repeat("$", 2) == "$$";
    }
    RunsUnique(rs);
  }

  /** As written, the digit loop misreads a three-digit count: a run of a
      hundred characters compresses to "100a", which decodes to a thousand. */
  lemma AsWrittenBreaksRoundTrip()
    ensures RunLengthEncoding(Repeat("a", 100)) == "100a"
    ensures Decoding(AsWritten, "100a") == Ok(Repeat("a", 1000))
    ensures Decoding(AsWritten, RunLengthEncoding(Repeat("a", 100))) != Ok(Repeat("a", 100))
  {
    SingleRun('a', 100);
    AsWrittenMisreads();
    var d := DecimalString(100);
    assert EncodeRun(Run('a', 100)) == d + "a";
    CountedCharDecodes(AsWritten, d, 'a');
    DecodingOf(AsWritten, d + "a", Repeat("a", 1000));
  }

  /** A count followed by a character other than a digit or a parenthesis
      decodes to that many copies of the character. */
  lemma CountedCharDecodes(rule: CountRule, d: string, c: char)
    requires d != [] && AllDigits(d) && !IsDigit(c) && c != '(' && c != ')'
    ensures DecodesTo(rule, d + [c], Repeat([c], CountOf(rule, d)))
  {
    var t := d + [c];
    assert Holds(t, 0, d + [c]);
    CountedChar(rule, t, 0, d, c, CountOf(rule, d));
    CharItemValue(rule, t, 0, "");
    assert "" + Repeat([c], CountOf(rule, d)) == Repeat([c], CountOf(rule, d));
    OneItem(rule, t, Repeat([c], CountOf(rule, d)));
  }

  /** With the count read as a decimal number, the same text decodes back. */
  lemma DecimalRoundTripsHundred()
    ensures Decoding(Decimal, RunLengthEncoding(Repeat("a", 100))) == Ok(Repeat("a", 100))
  {
    var s := Repeat("a", 100);
    forall i | 0 <= i < |s| ensures !IsDigit(s[i]) && s[i] != '(' && s[i] != ')' {
      RepeatChar('a', 100, i);
    }
    RoundTrip(Decimal, s);
  }
}
