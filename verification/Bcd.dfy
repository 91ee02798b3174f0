/**
 * The emitted BCD conversions, `rbcpp_bcd_to_int` and `rbcpp_int_to_bcd`, on
 * 64-bit integers.
 */
module Bcd {
  const TWO_63: int := 0x8000_0000_0000_0000
  const TWO_64: int := 0x1_0000_0000_0000_0000
  const TEN_15: int := 1_000_000_000_000_000
  const TEN_16: int := 10_000_000_000_000_000

  newtype Int64 = x: int | -0x8000_0000_0000_0000 <= x < 0x8000_0000_0000_0000
  newtype UInt64 = x: int | 0 <= x < 0x1_0000_0000_0000_0000

  // The conversions between int64_t and uint64_t: modulo 2^64.
  function ToUnsigned(x: Int64): UInt64 {
    if x < 0 then (x as int + TWO_64) as UInt64 else x as int as UInt64
  }

  function ToSigned(x: UInt64): Int64 {
    if x as int < TWO_63 then x as int as Int64 else (x as int - TWO_64) as Int64
  }

  function Pow(b: nat, n: nat): (r: nat)
    ensures b > 0 ==> r > 0
  {
    if n == 0 then 1 else b * Pow(b, n - 1)
  }

  // Bitwise `|` on naturals.
  function BitOr(a: nat, b: nat): nat {
    if a == 0 && b == 0 then 0
    else (if a % 2 == 1 || b % 2 == 1 then 1 else 0) + 2 * BitOr(a / 2, b / 2)
  }

  lemma {:induction false} BitOrWithZero(b: nat)
    ensures BitOr(0, b) == b
  {
    if b > 0 { BitOrWithZero(b / 2); }
  }

  // Adding a number above the bits of another is the same as or-ing it in.
  lemma {:induction false} BitOrIsSum(a: nat, d: nat, k: nat)
    requires a < Pow(2, k)
    ensures BitOr(a, d * Pow(2, k)) == a + d * Pow(2, k)
  {
    if k == 0 {
      BitOrWithZero(d);
    } else {
      var p := Pow(2, k - 1);
      var b := d * Pow(2, k);
      assert b == 2 * (d * p) by { assert d * (2 * p) == 2 * (d * p); }
      BitOrIsSum(a / 2, d, k - 1);
      assert b % 2 == 0 && b / 2 == d * p;
      if a == 0 && b == 0 {
      } else {
        assert BitOr(a, b) == a % 2 + 2 * BitOr(a / 2, b / 2);
      }
    }
  }

  lemma {:induction false} PowersOfSixteen(k: nat)
    ensures Pow(2, 4 * k) == Pow(16, k)
  {
    if k == 0 {
    } else {
      PowersOfSixteen(k - 1);
      var m := 4 * (k - 1);
      assert Pow(2, m + 1) == 2 * Pow(2, m);
      assert Pow(2, m + 2) == 2 * Pow(2, m + 1);
      assert Pow(2, m + 3) == 2 * Pow(2, m + 2);
      assert Pow(2, m + 4) == 2 * Pow(2, m + 3);
    }
  }

  lemma PowersAt16()
    ensures Pow(16, 16) == TWO_64 && Pow(10, 16) == TEN_16 && Pow(10, 15) == TEN_15 && Pow(16, 15) * 16 == TWO_64
  {
    assert Pow(16, 4) == 65536 by { assert Pow(16, 1) == 16; assert Pow(16, 2) == 256; assert Pow(16, 3) == 4096; }
    assert Pow(16, 5) == 0x10_0000; assert Pow(16, 6) == 0x100_0000; assert Pow(16, 7) == 0x1000_0000;
    assert Pow(16, 8) == 0x1_0000_0000; assert Pow(16, 9) == 0x10_0000_0000; assert Pow(16, 10) == 0x100_0000_0000;
    assert Pow(16, 11) == 0x1000_0000_0000; assert Pow(16, 12) == 0x1_0000_0000_0000;
    assert Pow(16, 13) == 0x10_0000_0000_0000; assert Pow(16, 14) == 0x100_0000_0000_0000;
    assert Pow(16, 15) == 0x1000_0000_0000_0000;
    assert Pow(10, 4) == 10000 by { assert Pow(10, 1) == 10; assert Pow(10, 2) == 100; assert Pow(10, 3) == 1000; }
    assert Pow(10, 5) == 100000; assert Pow(10, 6) == 1000000; assert Pow(10, 7) == 10000000;
    assert Pow(10, 8) == 100000000; assert Pow(10, 9) == 1000000000; assert Pow(10, 10) == 10000000000;
    assert Pow(10, 11) == 100000000000; assert Pow(10, 12) == 1000000000000; assert Pow(10, 13) == 10000000000000;
    assert Pow(10, 14) == 100000000000000;
  }

  // ----- what the digit strings mean -----

  // The decimal digits of n read as hexadecimal ones, over at most k digits.
  function Packed(n: nat, k: nat): nat {
    if k == 0 || n == 0 then 0 else n % 10 + 16 * Packed(n / 10, k - 1)
  }

  // All hexadecimal digits are decimal ones.
  predicate Decimal(raw: nat) {
    raw == 0 || (raw % 16 <= 9 && Decimal(raw / 16))
  }

  // The hexadecimal digits of raw read as decimal ones.
  function Unpacked(raw: nat): nat {
    if raw == 0 then 0 else raw % 16 + 10 * Unpacked(raw / 16)
  }

  lemma PackedDigits(n: nat, k: nat)
    requires k > 0
    ensures Packed(n, k) % 16 == n % 10 && Packed(n, k) / 16 == Packed(n / 10, k - 1)
  {
    if n == 0 { assert Packed(0, k - 1) == 0; }
  }

  lemma {:induction false} PackedIsDecimal(n: nat, k: nat)
    ensures Decimal(Packed(n, k)) && Packed(n, k) < Pow(16, k)
    ensures Unpacked(Packed(n, k)) == n % Pow(10, k)
  {
    if k == 0 {
      assert n % 1 == 0;
    } else {
      PackedIsDecimal(n / 10, k - 1);
      PackedDigits(n, k);
      ModStep(n, Pow(10, k - 1));
      hide Packed;
      if Packed(n, k) == 0 { assert Unpacked(0) == 0; }
    }
  }

  lemma ModStep(n: nat, p: nat)
    requires p > 0
    ensures n % (10 * p) == n % 10 + 10 * ((n / 10) % p)
  {
    var q, r := n / 10, n % 10;
    var a, b := q / p, q % p;
    assert n == 10 * q + r && q == a * p + b;
    assert n == a * (10 * p) + (10 * b + r) by { assert 10 * (a * p) == a * (10 * p); }
    ModUnique(n, 10 * p, a, 10 * b + r);
  }

  lemma SmallMultiple(d: int, m: int)
    requires m > 0 && -m < d * m < m
    ensures d == 0
  {
  }

  lemma ModUnique(n: nat, m: nat, a: nat, r: nat)
    requires m > 0 && r < m && n == a * m + r
    ensures n % m == r && n / m == a
  {
    var a', r' := n / m, n % m;
    assert n == a' * m + r';
    assert (a' - a) * m == r - r' by { assert (a' - a) * m == a' * m - a * m; }
    SmallMultiple(a' - a, m);
  }

  lemma {:induction false} UnpackedDigits(raw: nat, k: nat)
    requires Decimal(raw) && raw < Pow(16, k)
    ensures Unpacked(raw) < Pow(10, k) && Packed(Unpacked(raw), k) == raw
  {
    if raw != 0 {
      assert Pow(16, k) == 16 * Pow(16, k - 1) && Pow(10, k) == 10 * Pow(10, k - 1);
      UnpackedDigits(raw / 16, k - 1);
      PackUnpacked(raw % 16, raw / 16, k);
    }
  }

  lemma PackUnpacked(digit: nat, rest: nat, k: nat)
    requires digit <= 9 && k > 0 && Packed(Unpacked(rest), k - 1) == rest
    ensures Packed(digit + 10 * Unpacked(rest), k) == digit + 16 * rest
  {
    var n := digit + 10 * Unpacked(rest);
    assert n % 10 == digit && n / 10 == Unpacked(rest);
    if n == 0 { assert Packed(0, k - 1) == 0; }
  }

  // ----- the emitted loops -----

  function BcdToIntValue(input: Int64): int {
    if input < 0 || !Decimal(input as int) then 0 else Unpacked(input as int)
  }

  method BcdToInt(input: Int64) returns (r: Int64)
    ensures r as int == BcdToIntValue(input)
  {
    if input < 0 { return 0; }
    PowersAt16();
    var raw := ToUnsigned(input);
    var result: Int64 := 0;
    var place: Int64 := 1;
    ghost var k: nat := 0;
    while raw != 0
      invariant k <= 16 && place as int == Pow(10, k) && place as int <= TEN_16
      invariant raw as int < Pow(16, 16 - k) && 0 <= result as int < Pow(10, k)
      invariant Decimal(input as int) <==> Decimal(raw as int)
      invariant Decimal(raw as int) ==> Unpacked(input as int) == result as int + place as int * Unpacked(raw as int)
      decreases raw as int
    {
      var digit := (raw as int % 16) as Int64;
      if digit > 9 { return 0; }
      PlaceFits(k, 16);
      DigitStep(result as int, digit as int, place as int, Unpacked(raw as int / 16));
      result := result + digit * place;
      place := place * 10;
      raw := (raw as int / 16) as UInt64;
      k := k + 1;
    }
    return result;
  }

  lemma {:induction false} PlaceFits(k: nat, n: nat)
    requires k < n
    ensures 10 * Pow(10, k) <= Pow(10, n)
  {
    if k + 1 < n {
      PlaceFits(k, n - 1);
    }
  }

  lemma DigitStep(result: int, digit: int, place: int, rest: int)
    requires 0 <= digit <= 9 && place > 0 && 0 <= result < place
    ensures 0 <= digit * place <= 9 * place
    ensures 0 <= result + digit * place < 10 * place
    ensures result + place * (digit + 10 * rest) == (result + digit * place) + (place * 10) * rest
  {
    assert digit * place <= 9 * place by { assert (9 - digit) * place >= 0; }
    assert place * (digit + 10 * rest) == place * digit + (place * 10) * rest;
  }

  function IntToBcdValue(input: Int64): Int64 {
    if input < 0 then 0
    else
      PowersAt16();
      PackedIsDecimal(input as int, 16);
      ToSigned(Packed(input as int, 16) as UInt64)
  }

  // The whole packed word, k of its digits being in raw.
  function Joined(raw: nat, rest: nat, k: nat): nat
    requires k <= 16
  {
    raw + Pow(16, k) * Packed(rest, 16 - k)
  }

  // Or-ing a digit in at a shift.
  function WithDigit(raw: nat, digit: nat, shift: nat): nat {
    BitOr(raw, digit * Pow(2, shift))
  }

  method IntToBcd(input: Int64) returns (r: Int64)
    ensures r == IntToBcdValue(input)
  {
    if input < 0 { return 0; }
    PackedIsDecimal(input as int, 16);
    PowersAt16();
    assert Joined(0, input as int, 0) == Packed(input as int, 16);
    assert Pow(16, 0) == 1;
    hide Packed, Pow, BitOr, Decimal, Unpacked, Joined, WithDigit;
    var raw: UInt64 := 0;
    var shift: nat := 0;
    var rest := input;
    ghost var k: nat := 0;
    while rest != 0 && shift < 64
      invariant shift == 4 * k && k <= 16 && rest >= 0
      invariant raw as int < Pow(16, k)
      invariant Joined(raw as int, rest as int, k) == Packed(input as int, 16)
      decreases 64 - shift
    {
      var digit := (rest as int % 10) as nat;
      IntToBcdStep(raw as int, rest as int, k);
      // (uint64_t)digit << shift keeps all its bits
      raw := WithDigit(raw as int, digit, shift) as UInt64;
      rest := rest / 10;
      shift := shift + 4;
      k := k + 1;
    }
    JoinedAtEnd(raw as int, rest as int, k);
    return ToSigned(raw);
  }

  lemma JoinedAtEnd(raw: nat, rest: nat, k: nat)
    requires k <= 16 && (rest == 0 || k == 16)
    ensures Joined(raw, rest, k) == raw
  {
  }

  lemma IntToBcdStep(raw: nat, rest: nat, k: nat)
    requires k < 16 && raw < Pow(16, k) && rest > 0
    ensures var next := WithDigit(raw, rest % 10, 4 * k);
      && next < Pow(16, k + 1) <= TWO_64
      && Joined(next, rest / 10, k + 1) == Joined(raw, rest, k)
  {
    var digit := rest % 10;
    PowersOfSixteen(k);
    BitOrIsSum(raw, digit, 4 * k);
    ShiftFits(raw, digit, k);
    var p, q := Pow(16, k), Packed(rest / 10, 15 - k);
    assert Packed(rest, 16 - k) == digit + 16 * q;
    assert Pow(16, k + 1) == 16 * p;
    PackStep(raw, digit, p, q);
  }

  lemma ShiftFits(raw: nat, digit: nat, k: nat)
    requires digit <= 9 && k < 16 && raw < Pow(16, k)
    ensures digit * Pow(16, k) < TWO_64
    ensures raw + digit * Pow(16, k) < Pow(16, k + 1) <= TWO_64
  {
    PowersAt16();
    var p := Pow(16, k);
    assert digit * p <= 9 * p by { assert (9 - digit) * p >= 0; }
    PowGrows(k + 1, 16);
  }

  lemma {:induction false} PowGrows(k: nat, n: nat)
    requires k <= n
    ensures Pow(16, k) <= Pow(16, n)
  {
    if k < n { PowGrows(k, n - 1); }
  }

  lemma PackStep(raw: int, digit: int, p: int, rest: int)
    ensures raw + p * (digit + 16 * rest) == (raw + digit * p) + (16 * p) * rest
  {
    assert p * (digit + 16 * rest) == p * digit + (16 * p) * rest;
  }

  // ----- round trips -----

  lemma {:induction false} PackedTop(n: nat, k: nat)
    requires n < Pow(10, k + 1)
    ensures Packed(n, k + 1) / Pow(16, k) == n / Pow(10, k)
  {
    if k == 0 {
      assert Pow(10, 1) == 10 && Pow(16, 0) == 1 && Pow(10, 0) == 1;
      assert Packed(n / 10, 0) == 0;
    } else {
      assert n / 10 < Pow(10, k);
      PackedTop(n / 10, k - 1);
      var p, q := Packed(n, k + 1), Packed(n / 10, k);
      assert p == n % 10 + 16 * q && p / 16 == q by { if n == 0 { assert Packed(0, k) == 0; } }
      DivStep(p, 16, Pow(16, k - 1));
      DivStep(n, 10, Pow(10, k - 1));
    }
  }

  lemma DivStep(n: nat, b: nat, p: nat)
    requires b > 0 && p > 0
    ensures b * p > 0 && n / (b * p) == (n / b) / p
  {
    var q, r := n / b, n % b;
    var a, s := q / p, q % p;
    assert q == a * p + s;
    assert n == b * q + r;
    Regroup(n, b, p, a, s, r);
    ModUnique(n, b * p, a, b * s + r);
  }

  lemma Regroup(n: nat, b: nat, p: nat, a: nat, s: nat, r: nat)
    requires b > 0 && p > 0 && r < b && s < p && n == b * (a * p + s) + r
    ensures n == a * (b * p) + (b * s + r) && b * s + r < b * p
  {
    assert b * (a * p + s) == b * (a * p) + b * s;
    assert b * (a * p) == a * (b * p);
    assert b * (p - 1 - s) >= 0;
    assert b * (p - 1 - s) == b * p - b - b * s;
  }

  lemma LeadingDigit(p: nat, m: nat)
    requires p / 0x1000_0000_0000_0000 == m / TEN_15
    ensures p < TWO_63 <==> m < 8 * TEN_15
  {
  }

  // int -> BCD -> int gives the number back exactly for 0 <= n < 8 * 10^15: a
  // sixteenth digit of 8 or 9 sets the sign bit, and a seventeenth is lost.
  lemma BcdOfIntRoundTrip(n: Int64)
    ensures BcdToIntValue(IntToBcdValue(n)) == n as int <==> 0 <= n as int < 8 * TEN_15
  {
    hide Pow, Packed, Unpacked, Decimal;
    if n >= 0 {
      PowersAt16();
      var m := n as int;
      PackedIsDecimal(m, 16);
      ConvertedBack(Packed(m, 16) as UInt64);
      if m < TEN_16 {
        PackedTop(m, 15);
        assert Pow(16, 15) == 0x1000_0000_0000_0000;
        LeadingDigit(Packed(m, 16), m);
        assert m % TEN_16 == m;
      } else {
        assert m % TEN_16 != m;
      }
    }
  }

  // A packed word with the sign bit set reads back as zero.
  lemma ConvertedBack(raw: UInt64)
    requires Decimal(raw as int)
    ensures BcdToIntValue(ToSigned(raw)) == if raw as int < TWO_63 then Unpacked(raw as int) else 0
  {
  }

  // BCD -> int -> BCD gives the word back exactly when it is not negative and
  // all its nibbles are decimal digits.
  lemma IntOfBcdRoundTrip(raw: Int64)
    ensures BcdToIntValue(raw) < TWO_63
    ensures -TWO_63 <= BcdToIntValue(raw)
    ensures IntToBcdValue(BcdToIntValue(raw) as Int64) == raw <==> raw >= 0 && Decimal(raw as int)
  {
    PowersAt16();
    if raw >= 0 && Decimal(raw as int) {
      UnpackedDigits(raw as int, 16);
    } else {
      assert Packed(0, 16) == 0;
    }
  }
}
