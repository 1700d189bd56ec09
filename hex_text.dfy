/**
 * Base-16 text as the Swift standard library and Foundation handle it:
 * `Int(text, radix: 16)` for reading and the `%0<w>lX` conversion of
 * `String(format:)` for writing.
 */
module HexText {
  import opened Wrappers

  /** Bounds of Swift's 64-bit `Int`. */
  const IntMin: int := -0x8000_0000_0000_0000
  const IntMax: int := 0x7FFF_FFFF_FFFF_FFFF

  function Pow16(k: nat): (p: nat)
    ensures p >= 1
  {
    if k == 0 then 1 else 16 * Pow16(k - 1)
  }

  /** A digit `Int(_:radix: 16)` accepts: reading is case-insensitive. */
  predicate IsHexDigit(c: char) {
    '0' <= c <= '9' || 'a' <= c <= 'f' || 'A' <= c <= 'F'
  }

  /** A digit `%lX` writes: upper case only. */
  predicate IsUpperHexDigit(c: char) {
    '0' <= c <= '9' || 'A' <= c <= 'F'
  }

  predicate AllHexDigits(s: string) {
    forall i :: 0 <= i < |s| ==> IsHexDigit(s[i])
  }

  predicate AllUpperHexDigits(s: string) {
    forall i :: 0 <= i < |s| ==> IsUpperHexDigit(s[i])
  }

  function DigitValue(c: char): (d: nat)
    requires IsHexDigit(c)
    ensures d < 16
  {
    if c <= '9' then c as int - '0' as int
    else if c >= 'a' then c as int - 'a' as int + 10
    else c as int - 'A' as int + 10
  }

  /** The number a string of hex digits denotes, most significant digit first. */
  function DigitsValue(s: string): nat
    requires AllHexDigits(s)
  {
    if s == [] then 0 else DigitsValue(s[..|s| - 1]) * 16 + DigitValue(s[|s| - 1])
  }

  function UpperDigit(d: nat): (c: char)
    requires d < 16
    ensures IsUpperHexDigit(c) && IsHexDigit(c) && DigitValue(c) == d
  {
    if d < 10 then ('0' as int + d) as char else ('A' as int + d - 10) as char
  }

  /** `%lX` without a width: the shortest upper-case hex spelling of `n`. */
  function Digits(n: nat): (s: string)
    ensures 1 <= |s|
    ensures AllUpperHexDigits(s) && AllHexDigits(s)
    ensures DigitsValue(s) == n
    ensures n > 0 ==> s[0] != '0'
  {
    if n < 16 then [UpperDigit(n)]
    else
      var s := Digits(n / 16) + [UpperDigit(n % 16)];
      assert s[..|s| - 1] == Digits(n / 16);
      s
  }

  function Zeros(k: nat): (s: string)
    ensures |s| == k && forall i :: 0 <= i < k ==> s[i] == '0'
  {
    seq(k, _ => '0')
  }

  /** `%0<width>lX`: the digits of `n`, left-padded with '0' to at least `width`. */
  function Pad(n: nat, width: nat): (s: string)
    ensures |s| == if |Digits(n)| < width then width else |Digits(n)|
    ensures AllUpperHexDigits(s) && AllHexDigits(s)
    ensures DigitsValue(s) == n
  {
    var d := Digits(n);
    if |d| < width then
      LeadingZeros(width - |d|, d);
      Zeros(width - |d|) + d
    else d
  }

  /** The text after an optional leading sign. */
  function Unsigned(text: string): string {
    if |text| > 0 && (text[0] == '+' || text[0] == '-') then text[1..] else text
  }

  /** `Int(text, radix: 16)`: an optional sign, at least one hex digit and nothing
      else, denoting a value that fits in a 64-bit `Int`; `None` otherwise. */
  function ParseInt(text: string): (r: Option<int>)
    ensures r.Some? ==> IntMin <= r.value <= IntMax
    ensures r.Some? ==> |text| > 0 && (IsHexDigit(text[0]) || text[0] == '+' || text[0] == '-')
    ensures r.Some? ==> Unsigned(text) != [] && AllHexDigits(Unsigned(text))
    ensures AllHexDigits(text) && text != [] ==>
      r == if DigitsValue(text) <= IntMax then Some(DigitsValue(text)) else None
    ensures |text| > 1 && text[0] == '+' && AllHexDigits(text[1..]) ==>
      r == if DigitsValue(text[1..]) <= IntMax then Some(DigitsValue(text[1..])) else None
    ensures |text| > 1 && text[0] == '-' && AllHexDigits(text[1..]) ==>
      r == if DigitsValue(text[1..]) <= -IntMin then Some(-(DigitsValue(text[1..]) as int)) else None
  {
    var signed := |text| > 0 && (text[0] == '+' || text[0] == '-');
    var body := Unsigned(text);
    if body == [] || !AllHexDigits(body) then None
    else
      var v: int := if signed && text[0] == '-' then -(DigitsValue(body) as int) else DigitsValue(body);
      if IntMin <= v <= IntMax then Some(v) else None
  }

  lemma {:induction false} DigitsValueAppend(a: string, b: string)
    requires AllHexDigits(a) && AllHexDigits(b)
    ensures AllHexDigits(a + b)
    ensures DigitsValue(a + b) == DigitsValue(a) * Pow16(|b|) + DigitsValue(b)
    decreases |b|
  {
    if b == [] {
      assert a + b == a;
    } else {
      var b' := b[..|b| - 1];
      assert (a + b)[..|a + b| - 1] == a + b';
      DigitsValueAppend(a, b');
      ShiftInDigit(DigitsValue(a), Pow16(|b'|), DigitsValue(b'), DigitValue(b[|b| - 1]));
    }
  }

  /** Appending a digit `d` to `x * p + y` multiplies by 16 and adds `d`. */
  lemma ShiftInDigit(x: int, p: int, y: int, d: int)
    ensures (x * p + y) * 16 + d == x * (16 * p) + (y * 16 + d)
  {
    MulAssociates(x, p, 16);
  }

  lemma MulAssociates(x: int, y: int, z: int)
    ensures x * y * z == x * (z * y)
  {
  }

  lemma {:induction false} ZerosValue(k: nat)
    ensures AllHexDigits(Zeros(k)) && DigitsValue(Zeros(k)) == 0
  {
    if k > 0 {
      assert Zeros(k)[..k - 1] == Zeros(k - 1);
      ZerosValue(k - 1);
    }
  }

  /** Leading zeros do not change the value a digit string denotes. */
  lemma LeadingZeros(k: nat, s: string)
    requires AllHexDigits(s)
    ensures AllHexDigits(Zeros(k) + s) && DigitsValue(Zeros(k) + s) == DigitsValue(s)
  {
    ZerosValue(k);
    DigitsValueAppend(Zeros(k), s);
  }

  /** `n` is written with at most `k` digits exactly when `n < 16^k`. */
  lemma {:induction false} DigitsLength(n: nat, k: nat)
    requires 1 <= k
    ensures |Digits(n)| <= k <==> n < Pow16(k)
  {
    if n >= 16 {
      if k == 1 {
        assert Pow16(1) == 16;
      } else {
        DigitsLength(n / 16, k - 1);
      }
    } else if k > 1 {
      PowMonotone(1, k);
    }
  }

  lemma {:induction false} PowMonotone(i: nat, j: nat)
    requires i <= j
    ensures Pow16(i) <= Pow16(j)
    decreases j
  {
    if i < j { PowMonotone(i, j - 1); }
  }

  lemma {:induction false} Pow16Add(i: nat, j: nat)
    ensures Pow16(i + j) == Pow16(i) * Pow16(j)
    decreases j
  {
    if j > 0 {
      Pow16Add(i, j - 1);
      MulAssociates(Pow16(i), Pow16(j - 1), 16);
    }
  }

  /** What `%0<width>lX` writes, `Int(_, radix: 16)` reads back. */
  lemma PadParses(n: nat, width: nat)
    requires n <= IntMax
    ensures ParseInt(Pad(n, width)) == Some(n)
  {
  }

  lemma UpperAppend(a: string, b: string)
    requires AllUpperHexDigits(a) && AllUpperHexDigits(b)
    ensures AllUpperHexDigits(a + b)
  {
  }

  lemma HighDigits(hi: nat, p: nat, low: nat)
    ensures hi == 0 ==> hi * p + low == low
    ensures hi >= 1 ==> hi * p + low >= p
  {
    if hi >= 1 { MulAtLeast(hi, p); }
  }

  lemma MulAtLeast(x: int, d: int)
    requires x >= 1 && d >= 0
    ensures x * d >= d
  {
  }

  /** Sixteen or more hex digits can spell a value above `IntMax`. */
  lemma Pow16ExceedsInt(k: nat)
    requires k >= 16
    ensures Pow16(k) > IntMax
  {
    assert Pow16(4) == 0x1_0000;
    assert Pow16(8) == Pow16(4) * Pow16(4) by { Pow16Add(4, 4); }
    assert Pow16(16) == Pow16(8) * Pow16(8) by { Pow16Add(8, 8); }
    PowMonotone(16, k);
  }

  /** A digit string whose value fits is read whole; a leading part that is not
      all zeros, followed by 16 or more digits, makes it overflow `Int`. */
  lemma ParseWideField(high: string, low: string)
    requires AllUpperHexDigits(high) && AllUpperHexDigits(low)
    requires 1 <= |high| && 16 <= |low| && DigitsValue(low) <= IntMax
    ensures ParseInt(high + low) == if DigitsValue(high) == 0 then Some(DigitsValue(low)) else None
  {
    UpperAppend(high, low);
    DigitsValueAppend(high, low);
    var t := high + low;
    HighDigits(DigitsValue(high), Pow16(|low|), DigitsValue(low));
    if DigitsValue(high) == 0 {
      assert DigitsValue(t) == DigitsValue(low);
    } else {
      Pow16ExceedsInt(|low|);
      assert DigitsValue(t) > IntMax;
      assert IsUpperHexDigit(t[0]);
    }
  }
}
