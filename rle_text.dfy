/** Text helpers shared by the run-length codec of RLE.java: decimal counts
    as Java prints them, the digit loop of the decoder, and repetition. */
module RleText {

  predicate IsDigit(c: char) {
    '0' <= c <= '9'
  }

  predicate AllDigits(d: string) {
    forall i :: 0 <= i < |d| ==> IsDigit(d[i])
  }

  /** `str.charAt(pos) - 48` for a digit character. */
  function DigitValue(c: char): (v: nat)
    requires IsDigit(c)
    ensures v < 10
  {
    c as int - '0' as int
  }

  function DigitChar(v: nat): (c: char)
    requires v < 10
    ensures IsDigit(c) && DigitValue(c) == v
  {
    ('0' as int + v) as char
  }

  /** What `ret += n` appends for a non-negative Java int `n`. */
  function DecimalString(n: nat): (r: string)
    ensures |r| >= 1
    decreases n
  {
    if n < 10 then [DigitChar(n)] else DecimalString(n / 10) + [DigitChar(n % 10)]
  }

  /** A printed count is made of digits only. */
  lemma {:induction false} DecimalDigits(n: nat)
    ensures AllDigits(DecimalString(n))
    decreases n
  {
    if n >= 10 {
      DecimalDigits(n / 10);
    }
  }

  function Pow10(k: nat): (p: nat)
    ensures p >= 1
  {
    if k == 0 then 1 else 10 * Pow10(k - 1)
  }

  /** How the decoder turns a run of digits into a repeat count.
      AsWritten is the loop at RLE.java:215-222, which multiplies the
      accumulator by a growing power of ten; Decimal is ordinary base ten. */
  datatype CountRule = AsWritten | Decimal

  /** The count the digit loop has accumulated after reading the digits `d`. */
  function CountOf(rule: CountRule, d: string): nat
    requires AllDigits(d)
  {
    if d == [] then 0
    else
      var last := |d| - 1;
      CountOf(rule, d[..last]) * (if rule == Decimal then 10 else Pow10(last)) + DigitValue(d[last])
  }

  /** `x` written `k` times in a row. */
  function Repeat(x: string, k: nat): (r: string)
    ensures |r| == k * |x|
  {
    if k == 0 then "" else Repeat(x, k - 1) + x
  }

  /** Decimal counts read back as the number that was printed. */
  lemma {:induction false} DecimalReadBack(n: nat)
    ensures AllDigits(DecimalString(n)) && CountOf(Decimal, DecimalString(n)) == n
  {
    var d := DecimalString(n);
    DecimalDigits(n);
    if n >= 10 {
      DecimalReadBack(n / 10);
      assert d[..|d| - 1] == DecimalString(n / 10);
    }
  }

  /** The as-written digit loop reads every count of at most two digits
      correctly. */
  lemma AsWrittenReadBack(n: nat)
    requires n <= 99
    ensures AllDigits(DecimalString(n)) && CountOf(AsWritten, DecimalString(n)) == n
  {
    var d := DecimalString(n);
    DecimalDigits(n);
    if n >= 10 {
      assert d == [DigitChar(n / 10), DigitChar(n % 10)];
      assert d[..1] == [DigitChar(n / 10)];
    }
  }

  /** Either rule reads the printed count back, given that the as-written
      rule only sees counts below 100. */
  lemma ReadBack(rule: CountRule, n: nat)
    requires rule == Decimal || n <= 99
    ensures AllDigits(DecimalString(n)) && CountOf(rule, DecimalString(n)) == n
  {
    if rule == Decimal { DecimalReadBack(n); } else { AsWrittenReadBack(n); }
  }

  /** The as-written loop misreads three-digit counts: "123" becomes 1203
      and "100" becomes 1000. */
  lemma AsWrittenMisreads()
    ensures CountOf(AsWritten, "123") == 1203
    ensures CountOf(AsWritten, "100") == 1000
    ensures DecimalString(100) == "100"
  {
    assert "123"[..2] == "12" && "12"[..1] == "1";
    assert "100"[..2] == "10" && "10"[..1] == "1";
    assert DecimalString(10) == "10";
  }

  lemma Assoc(a: string, b: string, c: string)
    ensures (a + b) + c == a + (b + c)
  {
  }

  lemma {:induction false} RepeatChar(c: char, k: nat, i: nat)
    requires i < k
    ensures Repeat([c], k)[i] == c
  {
    if i < k - 1 {
      RepeatChar(c, k - 1, i);
    }
  }
}
