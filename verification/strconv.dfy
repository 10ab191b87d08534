/** The decimal conversions of Go's strconv that the service calls: AppendInt/FormatInt/Itoa in base 10
    and ParseInt(s, 10, 64)/Atoi. */
module Strconv {
  import opened Bytes

  const TWO63: int := 0x8000_0000_0000_0000
  const TWO64: int := 0x1_0000_0000_0000_0000

  type int64 = x: int | -0x8000_0000_0000_0000 <= x < 0x8000_0000_0000_0000
  type uint64 = x: int | 0 <= x < 0x1_0000_0000_0000_0000

  predicate FitsInt64(x: int) {
    -TWO63 <= x < TWO63
  }

  /** What a 64-bit signed register holds after arithmetic whose exact result is `x`. */
  function Wrap64(x: int): (r: int64)
    ensures FitsInt64(x) ==> r == x
    ensures (r - x) % TWO64 == 0
  {
    var m := x % TWO64;
    if m >= TWO63 then m - TWO64 else m
  }

  lemma WrapShift(x: int, k: int)
    ensures Wrap64(x + k * TWO64) == Wrap64(x)
  {
    RemainderIs(x + k * TWO64, x / TWO64 + k, x % TWO64);
  }

  lemma RemainderIs(y: int, q: int, m: int)
    requires y == q * TWO64 + m && 0 <= m < TWO64
    ensures y % TWO64 == m
  {
  }

  /** Wrapping early makes no difference: a register that overflowed still agrees with the exact value modulo 2^64. */
  lemma WrapDigit(x: int, c: int)
    ensures Wrap64(10 * Wrap64(x) + c) == Wrap64(10 * x + c)
  {
    var k := (Wrap64(x) - x) / TWO64;
    WrapShift(10 * x + c, 10 * k);
  }

  lemma WrapNegate(x: int)
    ensures Wrap64(-(Wrap64(x) as int)) == Wrap64(-x)
  {
    var k := (Wrap64(x) - x) / TWO64;
    WrapShift(-x, -k);
  }

  /** The number a digit string spells, most significant digit first. */
  function Val(s: bytes): nat
    requires AllDigits(s)
  {
    if s == [] then 0 else 10 * Val(s[..|s| - 1]) + (s[|s| - 1] - ZERO)
  }

  function FormatNat(n: nat): (s: bytes)
    ensures |s| > 0 && AllDigits(s)
    ensures s[0] == ZERO <==> n == 0
    ensures n == 0 ==> s == [ZERO]
  {
    if n < 10 then [ZERO + n] else FormatNat(n / 10) + [ZERO + n % 10]
  }

  function FormatInt(v: int): bytes {
    if v < 0 then [MINUS] + FormatNat(-v) else FormatNat(v)
  }

  /** ParseInt(s, 10, 64): an optional sign, at least one digit, and a value in range. */
  function ParseInt(s: bytes): Option<int64> {
    var neg := |s| > 0 && s[0] == MINUS;
    var ds := if |s| > 0 && (s[0] == MINUS || s[0] == PLUS) then s[1..] else s;
    if ds == [] || !AllDigits(ds) then None else
      var v: int := if neg then -(Val(ds) as int) else Val(ds);
      if FitsInt64(v) then Some(v) else None
  }

  lemma TimesTen(a: int, p: int)
    ensures 10 * (a * p) == a * (10 * p)
  {
  }

  lemma ShiftDigits(v: nat, p: nat, u: nat, last: nat)
    ensures 10 * (v * p + u) + last == v * (10 * p) + (10 * u + last)
  {
    TimesTen(v, p);
  }

  lemma {:induction false} ValAppend(s: bytes, t: bytes)
    requires AllDigits(s) && AllDigits(t)
    ensures AllDigits(s + t)
    ensures Val(s + t) == Val(s) * Pow10(|t|) + Val(t)
  {
    if t == [] {
      assert s + t == s;
    } else {
      var u := t[..|t| - 1];
      var last := t[|t| - 1] - ZERO;
      assert (s + t)[..|s + t| - 1] == s + u;
      ValAppend(s, u);
      ShiftDigits(Val(s), Pow10(|u|), Val(u), last);
    }
  }

  function Pow10(n: nat): (p: nat)
    ensures p >= 1
  {
    if n == 0 then 1 else 10 * Pow10(n - 1)
  }

  lemma {:induction false} ValFormatNat(n: nat)
    ensures Val(FormatNat(n)) == n
  {
    if n >= 10 {
      ValFormatNat(n / 10);
      var s := FormatNat(n);
      assert s[..|s| - 1] == FormatNat(n / 10);
    } else {
      assert FormatNat(n)[..0] == [];
    }
  }

  lemma ParseDigits(ds: bytes)
    requires |ds| > 0 && AllDigits(ds)
    ensures ParseInt(ds) == if FitsInt64(Val(ds)) then Some(Val(ds)) else None
    ensures ParseInt([MINUS] + ds) == if FitsInt64(-(Val(ds) as int)) then Some(-(Val(ds) as int)) else None
  {
    assert IsDigit(ds[0]);
    assert ([MINUS] + ds)[1..] == ds;
  }

  /** Every int64 survives formatting and parsing. */
  lemma ParseFormat(v: int64)
    ensures ParseInt(FormatInt(v)) == Some(v)
  {
    var n: nat := if v < 0 then -(v as int) else v;
    ValFormatNat(n);
    ParseDigits(FormatNat(n));
  }

  /** A sign that is absent, a plus or a minus, and at least one digit. */
  ghost predicate SpellsInt(s: bytes, sign: bytes, ds: bytes) {
    s == sign + ds && (sign == [] || sign == [PLUS] || sign == [MINUS]) && ds != [] && AllDigits(ds)
  }

  /** Exactly the texts of an optional sign and digits, leading zeros allowed, whose number fits, are parsed, to that number. */
  lemma ParseIntExact(s: bytes, v: int64)
    ensures ParseInt(s) == Some(v) <==>
            exists sign, ds :: SpellsInt(s, sign, ds) && v == if sign == [MINUS] then -(Val(ds) as int) else Val(ds)
  {
    hide Val, ParseInt;
    if ParseInt(s) == Some(v) {
      var sign, ds := ParsedParts(s, v);
    }
    if exists sign, ds :: SpellsInt(s, sign, ds) && v == if sign == [MINUS] then -(Val(ds) as int) else Val(ds) {
      var sign, ds :| SpellsInt(s, sign, ds) && v == if sign == [MINUS] then -(Val(ds) as int) else Val(ds);
      PartsParsed(s, sign, ds);
    }
  }

  lemma ParsedParts(s: bytes, v: int64) returns (sign: bytes, ds: bytes)
    requires ParseInt(s) == Some(v)
    ensures SpellsInt(s, sign, ds) && v == if sign == [MINUS] then -(Val(ds) as int) else Val(ds)
  {
    hide Val;
    var signed := s[0] == MINUS || s[0] == PLUS;
    sign := if signed then [s[0]] else [];
    ds := if signed then s[1..] else s;
  }

  lemma PartsParsed(s: bytes, sign: bytes, ds: bytes)
    requires SpellsInt(s, sign, ds)
    ensures var v := if sign == [MINUS] then -(Val(ds) as int) else Val(ds);
            ParseInt(s) == if FitsInt64(v) then Some(v) else None
  {
    hide Val;
    assert IsDigit(ds[0]);
    assert s[|sign|..] == ds;
  }

  /** Formatted text is a sign and digits only, so it holds no separator of any of the formats built on it. */
  lemma FormatIntBytes(v: int)
    ensures |FormatInt(v)| > 0
    ensures forall k | 0 <= k < |FormatInt(v)| :: IsDigit(FormatInt(v)[k]) || (k == 0 && v < 0 && FormatInt(v)[k] == MINUS)
  {
  }
}
