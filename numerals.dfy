/**
 * Unsigned integers as text and as bytes: the fixed-width integer types the
 * prover passes around, positional numerals in base 10 and base 16, and the
 * little-endian byte reading that turns a field element's representation
 * into an integer.
 */
module Numerals {
  import opened Wrappers

  type Byte = b: nat | b < 256

  const U32_LIMIT: nat := 0x1_0000_0000
  const U256_LIMIT: nat := 0x1_0000000000000000000000000000000000000000000000000000000000000000

  /** Rust's `u32`. */
  type U32 = n: nat | n < U32_LIMIT

  /** ethers' `U256`: a 256-bit unsigned integer. */
  type U256 = n: nat | n < U256_LIMIT

  type Radix = r: nat | 2 <= r <= 16 witness 10

  function Pow(base: nat, e: nat): (p: nat)
    ensures base > 0 ==> p > 0
  {
    if e == 0 then 1 else base * Pow(base, e - 1)
  }

  // ---------------------------------------------------------------------
  // Digits
  // ---------------------------------------------------------------------

  /** The value of a digit character: `0`-`9`, `a`-`f` and `A`-`F`; 16 for any other character. */
  function DigitValue(c: char): (d: nat)
    ensures d <= 16
  {
    if '0' <= c <= '9' then c as nat - '0' as nat
    else if 'a' <= c <= 'f' then c as nat - 'a' as nat + 10
    else if 'A' <= c <= 'F' then c as nat - 'A' as nat + 10
    else 16
  }

  predicate IsDigitIn(c: char, radix: Radix) {
    DigitValue(c) < radix
  }

  predicate IsDecimalDigit(c: char) {
    '0' <= c <= '9'
  }

  /** The lower-case digit character for `d`, as Rust's formatting writes it. */
  function DigitChar(d: nat): (c: char)
    requires d < 16
    ensures DigitValue(c) == d
    ensures !('A' <= c <= 'F')
    ensures d < 10 <==> IsDecimalDigit(c)
  {
    if d < 10 then ('0' as nat + d) as char else ('a' as nat + d - 10) as char
  }

  lemma DecimalDigitIff(c: char)
    ensures IsDigitIn(c, 10) <==> IsDecimalDigit(c)
  {
  }

  // ---------------------------------------------------------------------
  // Numerals in a radix
  // ---------------------------------------------------------------------

  predicate AllDigitsIn(s: string, radix: Radix) {
    forall i :: 0 <= i < |s| ==> IsDigitIn(s[i], radix)
  }

  /**
   * The text Rust writes for an unsigned integer: digits only, lower-case
   * letters, no sign, and no leading zero unless the text is `0` itself.
   */
  predicate IsCanonicalNumeral(s: string, radix: Radix) {
    && |s| > 0
    && AllDigitsIn(s, radix)
    && (forall i :: 0 <= i < |s| ==> !('A' <= s[i] <= 'F'))
    && (s[0] == '0' ==> |s| == 1)
  }

  /** The value of a digit string, most significant digit first. */
  function NumeralValue(s: string, radix: Radix): nat
    requires AllDigitsIn(s, radix)
  {
    if s == [] then 0 else radix * NumeralValue(s[..|s| - 1], radix) + DigitValue(s[|s| - 1])
  }

  /** Renders `n` in `radix`, as `to_string` does for base 10 and `{:x}` for base 16. */
  function Numeral(n: nat, radix: Radix): (s: string)
    ensures IsCanonicalNumeral(s, radix)
    ensures s[0] == '0' <==> n == 0
    decreases n
  {
    if n < radix then [DigitChar(n)]
    else
      DivStep(n, radix);
      Numeral(n / radix, radix) + [DigitChar(n % radix)]
  }

  lemma DivStep(n: nat, radix: Radix)
    requires n >= radix
    ensures 0 < n / radix < n && n % radix < radix
    ensures n == radix * (n / radix) + n % radix
  {
  }

  /** Reads a numeral: any nonempty string of digits of the radix, either letter case. */
  function ParseNumeral(s: string, radix: Radix): Option<nat> {
    if |s| > 0 && AllDigitsIn(s, radix) then Some(NumeralValue(s, radix)) else None
  }

  lemma {:induction false} NumeralValueOfNumeral(n: nat, radix: Radix)
    ensures NumeralValue(Numeral(n, radix), radix) == n
    decreases n
  {
    var s := Numeral(n, radix);
    if n >= radix {
      DivStep(n, radix);
      NumeralValueOfNumeral(n / radix, radix);
      assert s[..|s| - 1] == Numeral(n / radix, radix);
    }
  }

  /** Reading back what was rendered gives the original value. */
  lemma NumeralRoundTrip(n: nat, radix: Radix)
    ensures ParseNumeral(Numeral(n, radix), radix) == Some(n)
  {
    NumeralValueOfNumeral(n, radix);
  }

  /** Rendering the value of a canonical numeral gives the numeral back. */
  lemma {:induction false} CanonicalNumeralRoundTrip(s: string, radix: Radix)
    requires IsCanonicalNumeral(s, radix)
    ensures Numeral(NumeralValue(s, radix), radix) == s
    decreases |s|
  {
    var last := s[|s| - 1];
    var d := DigitValue(last);
    CanonicalLastDigit(s, radix);
    if |s| > 1 {
      var p := s[..|s| - 1];
      CanonicalPrefix(s, radix);
      CanonicalNumeralRoundTrip(p, radix);
      var v := NumeralValue(p, radix);
      assert v != 0 by {
        assert Numeral(v, radix)[0] == p[0] != '0';
      }
      NumeralSnoc(v, d, radix);
      assert NumeralValue(s, radix) == radix * v + d;
      assert s == p + [last];
    }
  }

  lemma CanonicalLastDigit(s: string, radix: Radix)
    requires IsCanonicalNumeral(s, radix)
    ensures DigitValue(s[|s| - 1]) < radix && DigitChar(DigitValue(s[|s| - 1])) == s[|s| - 1]
  {
    var last := s[|s| - 1];
    assert IsDigitIn(last, radix) && !('A' <= last <= 'F');
  }

  lemma CanonicalPrefix(s: string, radix: Radix)
    requires IsCanonicalNumeral(s, radix) && |s| > 1
    ensures IsCanonicalNumeral(s[..|s| - 1], radix) && s[..|s| - 1][0] == s[0] != '0'
  {
  }

  /** Appending a digit multiplies by the radix and adds the digit. */
  lemma NumeralSnoc(v: nat, d: nat, radix: Radix)
    requires v > 0 && d < radix
    ensures Numeral(radix * v + d, radix) == Numeral(v, radix) + [DigitChar(d)]
  {
    MulMonotone(radix, 1, v);
    DivOfDigit(v, d, radix);
  }

  /** Two canonical numerals of the same value are the same text. */
  lemma CanonicalNumeralUnique(s: string, t: string, radix: Radix)
    requires IsCanonicalNumeral(s, radix) && IsCanonicalNumeral(t, radix)
    requires NumeralValue(s, radix) == NumeralValue(t, radix)
    ensures s == t
  {
    CanonicalNumeralRoundTrip(s, radix);
    CanonicalNumeralRoundTrip(t, radix);
  }

  /** A numeral of k digits is below radix^k. */
  lemma {:induction false} NumeralValueBound(s: string, radix: Radix)
    requires AllDigitsIn(s, radix)
    ensures NumeralValue(s, radix) < Pow(radix, |s|)
    decreases |s|
  {
    if s != [] {
      var p := s[..|s| - 1];
      NumeralValueBound(p, radix);
      BoundStep(NumeralValue(p, radix), DigitValue(s[|s| - 1]), radix, Pow(radix, |p|));
    }
  }

  lemma BoundStep(v: nat, d: nat, radix: Radix, p: nat)
    requires v < p && d < radix
    ensures radix * v + d < radix * p
  {
    MulMonotone(radix, v + 1, p);
  }

  lemma DivOfDigit(v: nat, d: nat, radix: Radix)
    requires d < radix
    ensures (radix * v + d) / radix == v && (radix * v + d) % radix == d
  {
    var n := radix * v + d;
    var q, r := n / radix, n % radix;
    assert radix * q + r == n && 0 <= r < radix;
    if q > v {
      MulMonotone(radix, v + 1, q);
    } else if q < v {
      MulMonotone(radix, q + 1, v);
    }
  }

  lemma MulMonotone(k: nat, x: nat, y: nat)
    requires x <= y
    ensures k * x <= k * y
  {
  }

  // ---------------------------------------------------------------------
  // Decimal: `to_string`, `{:?}` and `BigUint::from_str`
  // ---------------------------------------------------------------------

  predicate IsCanonicalDecimal(s: string) {
    IsCanonicalNumeral(s, 10)
  }

  /** The decimal text of `n`. */
  function DecimalString(n: nat): (s: string)
    ensures IsCanonicalDecimal(s)
    ensures forall i :: 0 <= i < |s| ==> IsDecimalDigit(s[i])
  {
    Numeral(n, 10)
  }

  /** `BigUint::from_str`: a nonempty string of decimal digits, or no value. */
  function ParseDecimal(s: string): (r: Option<nat>)
    ensures r.Some? <==> |s| > 0 && forall i :: 0 <= i < |s| ==> IsDecimalDigit(s[i])
    ensures r.Some? ==> r.value < Pow(10, |s|)
  {
    var r := ParseNumeral(s, 10);
    if r.Some? then NumeralValueBound(s, 10); r else r
  }

  /** Decimal round trip: parsing the rendered text gives the value back. */
  lemma DecimalRoundTrip(n: nat)
    ensures ParseDecimal(DecimalString(n)) == Some(n)
  {
    NumeralRoundTrip(n, 10);
  }

  // ---------------------------------------------------------------------
  // Hexadecimal: `U256::from_str_radix(k, 16)`
  // ---------------------------------------------------------------------

  /**
   * A base-16 256-bit value: a nonempty string of hex digits, either letter
   * case, whose value fits in 256 bits; otherwise no value.
   */
  function ParseHexU256(s: string): (r: Option<U256>)
    ensures r.Some? ==> ParseNumeral(s, 16) == Some(r.value as nat)
  {
    match ParseNumeral(s, 16)
    case Some(v) => if v < U256_LIMIT then Some(v) else None
    case None => None
  }

  /** The lower-case hex text of `n`. */
  function HexString(n: nat): (s: string)
    ensures IsCanonicalNumeral(s, 16)
  {
    Numeral(n, 16)
  }

  /** Every 256-bit value reads back from its hex text; no larger value does. */
  lemma HexRoundTrip(n: nat)
    ensures ParseHexU256(HexString(n)) == if n < U256_LIMIT then Some(n) else None
  {
    NumeralRoundTrip(n, 16);
  }

  /** At most 64 hex digits always fit in 256 bits. */
  lemma ShortHexFits(s: string)
    requires 0 < |s| <= 64 && AllDigitsIn(s, 16)
    ensures ParseHexU256(s) == Some(NumeralValue(s, 16))
  {
    NumeralValueBound(s, 16);
    PowMonotone(16, |s|, 64);
    HexDigitsLimit();
  }

  lemma HexDigitsLimit()
    ensures Pow(16, 64) == U256_LIMIT
  {
    assert Pow(16, 1) == 16;
    PowDouble(16, 1, 16);
    PowDouble(16, 2, 0x100);
    PowDouble(16, 4, 0x1_0000);
    PowDouble(16, 8, 0x1_0000_0000);
    PowDouble(16, 16, 0x1_0000_0000_0000_0000);
    PowDouble(16, 32, 0x1_0000_0000_0000_0000_0000_0000_0000_0000);
  }

  lemma PowDouble(base: nat, k: nat, v: nat)
    requires Pow(base, k) == v
    ensures Pow(base, 2 * k) == v * v
  {
    PowAdd(base, k, k);
  }

  lemma {:induction false} PowAdd(base: nat, i: nat, j: nat)
    ensures Pow(base, i + j) == Pow(base, i) * Pow(base, j)
    decreases j
  {
    if j > 0 {
      PowAdd(base, i, j - 1);
      calc {
        Pow(base, i + j);
      == base * Pow(base, i + j - 1);
      == base * (Pow(base, i) * Pow(base, j - 1));
      == { MulSwap(base, Pow(base, i), Pow(base, j - 1)); }
         Pow(base, i) * (base * Pow(base, j - 1));
      == Pow(base, i) * Pow(base, j);
      }
    }
  }

  lemma MulSwap(a: nat, b: nat, c: nat)
    ensures a * (b * c) == b * (a * c)
  {
  }

  lemma {:induction false} PowMonotone(base: nat, i: nat, j: nat)
    requires base > 0 && i <= j
    ensures Pow(base, i) <= Pow(base, j)
    decreases j
  {
    if i < j {
      PowMonotone(base, i, j - 1);
    }
  }

  // ---------------------------------------------------------------------
  // Little-endian bytes: `BigUint::from_bytes_le`
  // ---------------------------------------------------------------------

  /** The integer whose little-endian bytes are `bytes`: the first byte is the least significant. */
  function FromBytesLe(bytes: seq<Byte>): (n: nat)
    ensures n == 0 <==> forall i :: 0 <= i < |bytes| ==> bytes[i] == 0
  {
    if bytes == [] then 0 else bytes[0] + 256 * FromBytesLe(bytes[1..])
  }

  /** Reference definition: the positional sum of bytes[i] * 256^i over i < k. */
  function WeightedSum(bytes: seq<Byte>, k: nat): nat
    requires k <= |bytes|
  {
    if k == 0 then 0 else WeightedSum(bytes, k - 1) + bytes[k - 1] * Pow(256, k - 1)
  }

  lemma {:induction false} FromBytesLeSnoc(bytes: seq<Byte>, b: Byte)
    ensures FromBytesLe(bytes + [b]) == FromBytesLe(bytes) + b * Pow(256, |bytes|)
    decreases |bytes|
  {
    if bytes != [] {
      assert (bytes + [b])[1..] == bytes[1..] + [b];
      FromBytesLeSnoc(bytes[1..], b);
      assert FromBytesLe(bytes + [b]) == bytes[0] + 256 * FromBytesLe(bytes[1..] + [b]);
      ScaleShifted(256, FromBytesLe(bytes[1..]), b, Pow(256, |bytes| - 1));
    }
  }

  lemma ScaleShifted(k: nat, x: nat, b: nat, p: nat)
    ensures k * (x + b * p) == k * x + b * (k * p)
  {
  }

  /** Little-endian reading is the positional sum of bytes[i] * 256^i. */
  lemma {:induction false} FromBytesLeIsWeightedSum(bytes: seq<Byte>)
    ensures FromBytesLe(bytes) == WeightedSum(bytes, |bytes|)
    decreases |bytes|
  {
    if bytes != [] {
      var init := bytes[..|bytes| - 1];
      assert bytes == init + [bytes[|bytes| - 1]];
      FromBytesLeSnoc(init, bytes[|bytes| - 1]);
      FromBytesLeIsWeightedSum(init);
      WeightedSumPrefix(bytes, init, |init|);
    }
  }

  lemma {:induction false} WeightedSumPrefix(bytes: seq<Byte>, init: seq<Byte>, k: nat)
    requires k <= |init| <= |bytes| && init == bytes[..|init|]
    ensures WeightedSum(bytes, k) == WeightedSum(init, k)
    decreases k
  {
    if k > 0 {
      WeightedSumPrefix(bytes, init, k - 1);
    }
  }

  /** The value of n bytes is below 256^n. */
  lemma {:induction false} FromBytesLeBound(bytes: seq<Byte>)
    ensures FromBytesLe(bytes) < Pow(256, |bytes|)
    decreases |bytes|
  {
    if bytes != [] {
      FromBytesLeBound(bytes[1..]);
      var v := FromBytesLe(bytes[1..]);
      MulMonotone(256, v + 1, Pow(256, |bytes| - 1));
    }
  }

  /** Appending zero bytes at the most significant end does not change the value. */
  lemma {:induction false} FromBytesLeZeroExtend(bytes: seq<Byte>, k: nat)
    ensures FromBytesLe(bytes + seq(k, _ => 0)) == FromBytesLe(bytes)
    decreases |bytes|
  {
    if bytes == [] {
      assert bytes + seq(k, _ => 0) == seq(k, _ => 0);
      ZerosAreZero(k);
    } else {
      assert (bytes + seq(k, _ => 0))[1..] == bytes[1..] + seq(k, _ => 0);
      FromBytesLeZeroExtend(bytes[1..], k);
    }
  }

  lemma {:induction false} ZerosAreZero(k: nat)
    ensures FromBytesLe(seq(k, _ => 0)) == 0
    decreases k
  {
    if k > 0 {
      assert seq(k, _ => 0)[1..] == seq(k - 1, _ => 0);
      ZerosAreZero(k - 1);
    }
  }

  /** The `len` little-endian bytes of `n` (its value modulo 256^len). */
  function ToBytesLe(n: nat, len: nat): (bytes: seq<Byte>)
    ensures |bytes| == len
  {
    if len == 0 then [] else [n % 256] + ToBytesLe(n / 256, len - 1)
  }

  /** Every value below 256^len is read back from its len little-endian bytes. */
  lemma {:induction false} BytesLeRoundTrip(n: nat, len: nat)
    requires n < Pow(256, len)
    ensures FromBytesLe(ToBytesLe(n, len)) == n
    decreases len
  {
    if len > 0 {
      assert n / 256 < Pow(256, len - 1);
      BytesLeRoundTrip(n / 256, len - 1);
      assert ToBytesLe(n, len)[1..] == ToBytesLe(n / 256, len - 1);
    }
  }

  /** Every byte string is the little-endian encoding of its own value. */
  lemma {:induction false} BytesLeRoundTripBack(bytes: seq<Byte>)
    ensures ToBytesLe(FromBytesLe(bytes), |bytes|) == bytes
    decreases |bytes|
  {
    if bytes != [] {
      var v := FromBytesLe(bytes);
      assert v % 256 == bytes[0] && v / 256 == FromBytesLe(bytes[1..]);
      BytesLeRoundTripBack(bytes[1..]);
    }
  }

  /** Big-endian reading: the first byte is the most significant. */
  function FromBytesBe(bytes: seq<Byte>): nat {
    if bytes == [] then 0 else 256 * FromBytesBe(bytes[..|bytes| - 1]) + bytes[|bytes| - 1]
  }

  function Reverse<T>(s: seq<T>): (r: seq<T>)
    ensures |r| == |s|
  {
    if s == [] then [] else Reverse(s[1..]) + [s[0]]
  }

  /** Reading little-endian is reading the reversed bytes big-endian: byte order matters. */
  lemma {:induction false} LittleEndianIsReversedBigEndian(bytes: seq<Byte>)
    ensures FromBytesLe(bytes) == FromBytesBe(Reverse(bytes))
    decreases |bytes|
  {
    if bytes != [] {
      var r := Reverse(bytes);
      assert r[..|r| - 1] == Reverse(bytes[1..]);
      LittleEndianIsReversedBigEndian(bytes[1..]);
    }
  }

  /**
   * Byte order matters: reading bytes little-endian agrees with reading them
   * big-endian exactly when the byte string is a palindrome.
   */
  lemma ByteOrderMatters(bytes: seq<Byte>)
    ensures FromBytesLe(bytes) == FromBytesBe(bytes) <==> bytes == Reverse(bytes)
  {
    var r := Reverse(bytes);
    ReverseReverse(bytes);
    LittleEndianIsReversedBigEndian(r);
    assert FromBytesBe(bytes) == FromBytesLe(r);
    if FromBytesLe(bytes) == FromBytesLe(r) {
      BytesLeRoundTripBack(bytes);
      BytesLeRoundTripBack(r);
    }
  }

  lemma {:induction false} ReverseSnoc<T>(s: seq<T>, x: T)
    ensures Reverse(s + [x]) == [x] + Reverse(s)
    decreases |s|
  {
    if s == [] {
      assert s + [x] == [x];
      assert Reverse([x]) == Reverse([x][1..]) + [x];
    } else {
      assert (s + [x])[1..] == s[1..] + [x];
      ReverseSnoc(s[1..], x);
    }
  }

  lemma {:induction false} ReverseReverse<T>(s: seq<T>)
    ensures Reverse(Reverse(s)) == s
    decreases |s|
  {
    if s != [] {
      ReverseSnoc(Reverse(s[1..]), s[0]);
      ReverseReverse(s[1..]);
      assert s == [s[0]] + s[1..];
    }
  }
}
