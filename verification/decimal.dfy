/** Finite decimals, the meaning given to floats where they are read from and printed as text. A decimal stands for
    (-1)^neg * 0.d1 d2 ... dn * 10^point; the canonical ones have no zero at either end, and zero has no digits. */
module Decimals {
  import opened Bytes
  import opened Strconv
  import opened Json
  import opened NumberScan

  datatype Decimal = Decimal(neg: bool, digits: bytes, point: int)

  predicate Canonical(d: Decimal) {
    && AllDigits(d.digits)
    && (d.digits == [] ==> d.point == 0)
    && (d.digits != [] ==> d.digits[0] != ZERO && d.digits[|d.digits| - 1] != ZERO)
  }

  function Zeros(n: nat): (z: bytes)
    ensures |z| == n && AllDigits(z)
    ensures forall k | 0 <= k < n :: z[k] == ZERO
  {
    seq(n, _ => ZERO)
  }

  function LeadingZeros(ds: bytes): (k: nat)
    ensures k <= |ds|
    ensures forall i | 0 <= i < k :: ds[i] == ZERO
    ensures k < |ds| ==> ds[k] != ZERO
  {
    if ds == [] || ds[0] != ZERO then 0 else 1 + LeadingZeros(ds[1..])
  }

  function StripRight(ds: bytes): (r: bytes)
    ensures r <= ds
    ensures r != [] ==> r[|r| - 1] != ZERO
    ensures forall i | |r| <= i < |ds| :: ds[i] == ZERO
  {
    if ds != [] && ds[|ds| - 1] == ZERO then StripRight(ds[..|ds| - 1]) else ds
  }

  /** The canonical decimal for the digit string `ds` read as 0.ds * 10^point. */
  function Normal(neg: bool, ds: bytes, point: int): (d: Decimal)
    requires AllDigits(ds)
    ensures Canonical(d)
  {
    var k := LeadingZeros(ds);
    var core := StripRight(ds[k..]);
    if core == [] then Decimal(neg, [], 0) else Decimal(neg, core, point - k)
  }

  function ExponentValue(x: Option<Exponent>): int
    requires x.Some? ==> ValidExponent(x.value)
  {
    if x.None? then 0
    else if x.value.sign == [MINUS] then -(Val(x.value.digits) as int) else Val(x.value.digits)
  }

  /** All digits of a literal in front of its exponent. */
  function Mantissa(n: Number): (ds: bytes)
    requires ValidNumber(n)
    ensures AllDigits(ds)
  {
    if n.frac.Some? then n.whole + n.frac.value else n.whole
  }

  /** The number a section 6 literal denotes. */
  function DecimalOf(n: Number): (d: Decimal)
    requires ValidNumber(n)
    ensures Canonical(d)
  {
    Normal(n.minus, Mantissa(n), |n.whole| + ExponentValue(n.exp))
  }

  /** |d| <= limit, without fractions: both sides scaled by a power of ten. */
  predicate AbsAtMost(d: Decimal, limit: nat)
    requires Canonical(d)
  {
    if d.point >= |d.digits|
    then Val(d.digits) * Pow10(d.point - |d.digits|) <= limit
    else Val(d.digits) <= limit * Pow10(|d.digits| - d.point)
  }

  /** |d| < limit. */
  predicate AbsBelow(d: Decimal, limit: nat)
    requires Canonical(d)
  {
    if d.point >= |d.digits|
    then Val(d.digits) * Pow10(d.point - |d.digits|) < limit
    else Val(d.digits) < limit * Pow10(|d.digits| - d.point)
  }

  function Pow2(n: nat): (p: nat)
    ensures p >= 1
  {
    if n == 0 then 1 else 2 * Pow2(n - 1)
  }

  lemma {:induction false} Pow2Order(m: nat, n: nat)
    requires m <= n
    ensures Pow2(m) <= Pow2(n)
    decreases n
  {
    if m < n {
      Pow2Order(m, n - 1);
    }
  }

  lemma {:induction false} Pow2Above(n: nat)
    ensures Pow2(n) > n
    decreases n
  {
    if n > 0 {
      Pow2Above(n - 1);
    }
  }

  /** Half a unit below 2^top, for doubles whose last unit there is 2^(last + 1): the tie rounds up. */
  function RoundsUpFrom(top: nat, last: nat): (m: nat)
    requires last < top
    ensures m >= Pow2(top - 1)
  {
    Pow2Order(last, top - 1);
    Pow2(top) - Pow2(last)
  }

  /** From 2^1024 - 2^970 on, half way between the largest double and 2^1024, a magnitude rounds to infinity, which
      ParseFloat reports as a range error. */
  function Overflow(): nat {
    RoundsUpFrom(1024, 970)
  }

  predicate Finite(d: Decimal)
    requires Canonical(d)
  {
    AbsBelow(d, Overflow())
  }

  lemma OverflowIsLarge(n: nat)
    requires n < 1024
    ensures Overflow() > n
  {
    var top: nat := 1024;
    Pow2Above(top - 1);
  }

  /** Whatever is within the bounds of a coordinate or a battery level is finite. */
  lemma BoundedIsFinite(d: Decimal, limit: nat)
    requires Canonical(d) && AbsAtMost(d, limit) && limit < 1024
    ensures Finite(d)
  {
    OverflowIsLarge(limit);
    hide Overflow, Val;
    if d.point < |d.digits| {
      Scaled(limit, Overflow(), Pow10(|d.digits| - d.point));
    }
  }

  lemma Scaled(a: nat, b: nat, p: nat)
    requires a < b && p >= 1
    ensures a * p < b * p
  {
  }

  /** ParseFloat on a JSON number literal. */
  function ParseFloat(lit: bytes): (r: Option<Decimal>)
    ensures r.Some? ==> Canonical(r.value) && Finite(r.value)
  {
    var s := ScanNumber(lit, 0);
    if s.None? || s.value.end != |lit| then None else
      assert ValidNumber(s.value.n) by { ScanSound(lit, 0); }
      var d := DecimalOf(s.value.n);
      if Finite(d) then Some(d) else None
  }

  lemma ParseFloatNumber(n: Number)
    requires ValidNumber(n)
    ensures ParseFloat(NumText(n)) == if Finite(DecimalOf(n)) then Some(DecimalOf(n)) else None
  {
    var t := NumText(n);
    assert At(t, 0, t);
    ScanComplete(t, 0, n);
  }

  // strconv.AppendFloat(dst, f, fmt, -1, 64): shortest digits, in plain or exponent notation.

  function PlainText(d: Decimal): bytes {
    var n := |d.digits|;
    SignText(d.neg) +
    (if d.point <= 0 then [ZERO] + (if n == 0 then [] else [DOT] + Zeros(-d.point) + d.digits)
     else if d.point < n then d.digits[..d.point] + [DOT] + d.digits[d.point..]
     else d.digits + Zeros(d.point - n))
  }

  function ExponentDigits(e: nat): bytes {
    if e < 10 then [ZERO, ZERO + e] else FormatNat(e)
  }

  /** Sign, first digit and fraction of the exponent notation. */
  function Significand(d: Decimal): (s: bytes)
    requires d.digits != []
    ensures |s| >= 1
  {
    SignText(d.neg) + ([d.digits[0]] + FracText(if |d.digits| > 1 then Some(d.digits[1..]) else None))
  }

  function ExponentSign(d: Decimal): byte {
    if d.point - 1 < 0 then MINUS else PLUS
  }

  function ExponentSize(d: Decimal): nat {
    if d.point - 1 < 0 then 1 - d.point else d.point - 1
  }

  function ScientificText(d: Decimal): bytes
    requires d.digits != []
  {
    Significand(d) + ([LOWER_E] + ([ExponentSign(d)] + ExponentDigits(ExponentSize(d))))
  }

  /** 1e-6 <= |d| < 1e21 or d is zero: the range printed without an exponent. */
  predicate PrintsPlain(d: Decimal) {
    d.digits == [] || -6 < d.point <= 21
  }

  /** The literal encoding/json prints, as a section 6 number. */
  function PrintedNumber(d: Decimal): (n: Number)
    requires Canonical(d)
    ensures ValidNumber(n)
  {
    var n := |d.digits|;
    if !PrintsPlain(d) then
      Number(d.neg, [d.digits[0]], if n > 1 then Some(d.digits[1..]) else None,
             Some(Exponent(LOWER_E, [ExponentSign(d)], FormatNat(ExponentSize(d)))))
    else if d.point <= 0 then
      Number(d.neg, [ZERO], if n == 0 then None else Some(Zeros(-d.point) + d.digits), None)
    else if d.point < n then
      Number(d.neg, d.digits[..d.point], Some(d.digits[d.point..]), None)
    else Number(d.neg, d.digits + Zeros(d.point - n), None, None)
  }

  /** |d| >= 10^k, both sides scaled to whole numbers. */
  predicate AbsAtLeast(d: Decimal, k: int)
    requires Canonical(d)
  {
    var e := d.point - |d.digits| - k;
    if e >= 0 then Val(d.digits) * Pow10(e) >= 1 else Val(d.digits) >= Pow10(-e)
  }

  lemma {:induction false} Pow10Monotone(m: nat, n: nat)
    requires m < n
    ensures Pow10(m) < Pow10(n)
    decreases n
  {
    if m < n - 1 {
      Pow10Monotone(m, n - 1);
    }
  }

  lemma {:induction false} ValBelow(ds: bytes)
    requires AllDigits(ds)
    ensures Val(ds) < Pow10(|ds|)
    decreases |ds|
  {
    if ds != [] {
      ValBelow(ds[..|ds| - 1]);
    }
  }

  lemma {:induction false} ValAbove(ds: bytes)
    requires AllDigits(ds) && ds != [] && ds[0] != ZERO
    ensures Val(ds) >= Pow10(|ds| - 1)
    decreases |ds|
  {
    if |ds| > 1 {
      ValAbove(ds[..|ds| - 1]);
    } else {
      assert ds[..0] == [];
    }
  }

  lemma AtLeastOne(x: nat, y: nat)
    requires x >= 1 && y >= 1
    ensures x * y >= 1
  {
  }

  /** The position of the point decides the order of magnitude of a canonical decimal. */
  lemma MagnitudeByPoint(d: Decimal, k: int)
    requires Canonical(d) && d.digits != []
    ensures AbsAtLeast(d, k) <==> d.point > k
  {
    var n := |d.digits|;
    var e := d.point - n - k;
    ValAbove(d.digits);
    ValBelow(d.digits);
    if e >= 0 {
      AtLeastOne(Val(d.digits), Pow10(e));
    } else if -e < n - 1 {
      Pow10Monotone(-e, n - 1);
    } else if -e > n {
      Pow10Monotone(n, -e);
    }
  }

  lemma {:induction false} LeadingZerosOf(a: nat, ds: bytes)
    requires ds == [] || ds[0] != ZERO
    ensures LeadingZeros(Zeros(a) + ds) == a
    decreases a
  {
    if a > 0 {
      assert (Zeros(a) + ds)[1..] == Zeros(a - 1) + ds;
      LeadingZerosOf(a - 1, ds);
    }
  }

  lemma {:induction false} StripRightOf(ds: bytes, b: nat)
    requires ds == [] || ds[|ds| - 1] != ZERO
    ensures StripRight(ds + Zeros(b)) == ds
    decreases b
  {
    var t := ds + Zeros(b);
    if b > 0 {
      assert t[..|t| - 1] == ds + Zeros(b - 1);
      StripRightOf(ds, b - 1);
    } else {
      assert t == ds;
    }
  }

  /** Padding zeros on both sides change the position of the point and nothing else. */
  lemma NormalOf(neg: bool, a: nat, ds: bytes, b: nat, point: int)
    requires AllDigits(ds) && ds != [] && ds[0] != ZERO && ds[|ds| - 1] != ZERO
    ensures var t := Zeros(a) + (ds + Zeros(b)); AllDigits(t) && Normal(neg, t, point) == Decimal(neg, ds, point - a)
  {
    var t := Zeros(a) + (ds + Zeros(b));
    LeadingZerosOf(a, ds + Zeros(b));
    assert t[a..] == ds + Zeros(b);
    StripRightOf(ds, b);
  }

  /** The printed mantissa is the digits with the padding of the notation around them. */
  lemma PrintedMantissa(d: Decimal)
    requires Canonical(d) && d.digits != []
    ensures var plain := PrintsPlain(d);
            var a: nat := if plain && d.point <= 0 then 1 - d.point else 0;
            var b: nat := if plain && d.point > |d.digits| then d.point - |d.digits| else 0;
            Mantissa(PrintedNumber(d)) == Zeros(a) + (d.digits + Zeros(b))
  {
    var m := Mantissa(PrintedNumber(d));
    if !PrintsPlain(d) {
      assert m == Zeros(0) + (d.digits + Zeros(0));
    } else if d.point <= 0 {
      assert m == Zeros(1 - d.point) + (d.digits + Zeros(0));
    } else if d.point < |d.digits| {
      assert m == Zeros(0) + (d.digits + Zeros(0));
    } else {
      assert m == Zeros(0) + (d.digits + Zeros(d.point - |d.digits|));
    }
  }

  lemma PrintedPoint(d: Decimal)
    requires Canonical(d) && d.digits != []
    ensures var n := PrintedNumber(d);
            |n.whole| + ExponentValue(n.exp) == if PrintsPlain(d) && d.point <= 0 then 1 else d.point
  {
    hide Val, FormatNat;
    if !PrintsPlain(d) {
      ValFormatNat(ExponentSize(d));
    }
  }

  /** Reading back what is printed gives the same decimal, in every notation. */
  lemma PrintedDenotes(d: Decimal)
    requires Canonical(d)
    ensures DecimalOf(PrintedNumber(d)) == d
  {
    hide PrintedNumber, Mantissa, ExponentValue, Normal, Zeros, AllDigits;
    if d.digits == [] {
      PrintedZero(d);
    } else {
      var plain := PrintsPlain(d);
      var a: nat := if plain && d.point <= 0 then 1 - d.point else 0;
      var b: nat := if plain && d.point > |d.digits| then d.point - |d.digits| else 0;
      PrintedMantissa(d);
      PrintedPoint(d);
      PrintedSign(d);
      NormalOf(d.neg, a, d.digits, b, if plain && d.point <= 0 then 1 else d.point);
    }
  }

  lemma PrintedSign(d: Decimal)
    requires Canonical(d)
    ensures PrintedNumber(d).minus == d.neg
  {
  }

  lemma PrintedZero(d: Decimal)
    requires Canonical(d) && d.digits == []
    ensures DecimalOf(PrintedNumber(d)) == d
  {
    assert Mantissa(PrintedNumber(d)) == Zeros(1) + [];
    LeadingZerosOf(1, []);
  }

  /** Printer and reader undo each other on every finite canonical decimal, signed zero included. */
  lemma FloatRoundTrip(d: Decimal)
    requires Canonical(d) && Finite(d)
    ensures ParseFloat(NumText(PrintedNumber(d))) == Some(d)
  {
    PrintedDenotes(d);
    ParseFloatNumber(PrintedNumber(d));
  }
}
