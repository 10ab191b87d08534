/** What decimals and number literals mean, as real numbers (RFC 8259, section 6; strconv.ParseFloat and AppendFloat as
    internal/model/fastjson.go and internal/httpapi/fastresp.go use them). */
module DecimalValues {
  import opened Bytes
  import opened Strconv
  import opened Json
  import opened Decimals
  import opened Points

  /** Powers of ten, negative ones too. */
  function TenTo(e: int): (t: real)
    ensures t > 0.0
    decreases if e < 0 then -e else e
  {
    if e == 0 then 1.0 else if e > 0 then 10.0 * TenTo(e - 1) else TenTo(e + 1) / 10.0
  }

  lemma TenToNext(e: int)
    ensures TenTo(e + 1) == 10.0 * TenTo(e)
  {
  }

  lemma TenToZero()
    ensures TenTo(0) == 1.0
  {
  }

  lemma TenTimes(a: real, b: real)
    ensures 10.0 * (a * b) == a * (10.0 * b)
  {
  }

  lemma {:induction false} TenToSum(a: int, b: int)
    ensures TenTo(a + b) == TenTo(a) * TenTo(b)
    decreases if b < 0 then -b else b
  {
    hide TenTo;
    if b > 0 {
      TenToSum(a, b - 1);
      TenToNext(a + b - 1);
      TenToNext(b - 1);
      TenTimes(TenTo(a), TenTo(b - 1));
    } else if b < 0 {
      TenToSum(a, b + 1);
      TenToNext(a + b);
      TenToNext(b);
      TenTimes(TenTo(a), TenTo(b));
    } else {
      TenToZero();
    }
  }

  lemma {:induction false} TenToNat(n: nat)
    ensures TenTo(n) == Pow10(n) as real
    decreases n
  {
    if n > 0 {
      TenToNat(n - 1);
    }
  }

  function Signed(neg: bool, x: real): real {
    if neg then -x else x
  }

  /** v * 10^e. */
  function AtScale(v: nat, e: int): (x: real)
    ensures x >= 0.0
  {
    v as real * TenTo(e)
  }

  /** |d|. */
  function Magnitude(d: Decimal): (x: real)
    requires Canonical(d)
    ensures x >= 0.0
  {
    AtScale(Val(d.digits), d.point - |d.digits|)
  }

  function Value(d: Decimal): real
    requires Canonical(d)
  {
    Signed(d.neg, Magnitude(d))
  }

  // Literals.

  lemma {:induction false} LeadingZerosCountNothing(ds: bytes)
    requires AllDigits(ds)
    ensures Val(ds[LeadingZeros(ds)..]) == Val(ds)
    decreases |ds|
  {
    hide Val;
    if ds != [] && ds[0] == ZERO {
      LeadingZerosCountNothing(ds[1..]);
      assert ds[1..][LeadingZeros(ds[1..])..] == ds[LeadingZeros(ds)..];
      ValAppend([ZERO], ds[1..]);
      assert [ZERO] + ds[1..] == ds;
      OneDigitValue(ZERO);
    } else {
      assert ds[LeadingZeros(ds)..] == ds;
    }
  }

  lemma {:induction false} TrailingZerosScale(ds: bytes)
    requires AllDigits(ds)
    ensures var r := StripRight(ds); Val(ds) == Val(r) * Pow10(|ds| - |r|)
    decreases |ds|
  {
    if ds != [] && ds[|ds| - 1] == ZERO {
      TrailingZerosScale(ds[..|ds| - 1]);
      var r := StripRight(ds);
      assert 10 * (Val(r) * Pow10(|ds| - 1 - |r|)) == Val(r) * Pow10(|ds| - |r|);
    }
  }

  /** What bringing digits into canonical form does to them. */
  lemma NormalParts(neg: bool, ds: bytes, point: int) returns (j: nat)
    requires AllDigits(ds)
    ensures var d := Normal(neg, ds, point);
            && d.neg == neg && Val(ds) == Val(d.digits) * Pow10(j)
            && (d.digits != [] ==> d.point - |d.digits| == j + (point - |ds|))
  {
    hide Val, Pow10;
    var k := LeadingZeros(ds);
    var tail := ds[k..];
    var core := StripRight(tail);
    LeadingZerosCountNothing(ds);
    TrailingZerosScale(tail);
    j := |tail| - |core|;
  }

  /** It keeps their value. */
  lemma NormalValue(neg: bool, ds: bytes, point: int)
    requires AllDigits(ds)
    ensures Normal(neg, ds, point).neg == neg
    ensures Magnitude(Normal(neg, ds, point)) == AtScale(Val(ds), point - |ds|)
  {
    hide Val, TenTo, Pow10, Normal;
    var d := Normal(neg, ds, point);
    var j := NormalParts(neg, ds, point);
    if d.digits == [] {
      NoDigits();
      Nothing(Pow10(j), TenTo(point - |ds|), TenTo(d.point - |d.digits|));
    } else {
      TenToNat(j);
      TenToSum(j, point - |ds|);
      Rescaled(Val(d.digits), Pow10(j), TenTo(j), TenTo(point - |ds|));
    }
  }

  lemma Nothing(p: nat, t: real, u: real)
    ensures (0 * p) as real * t == 0.0 && 0 as real * u == 0.0
  {
  }

  lemma NoDigits()
    ensures Val([]) == 0
  {
  }

  lemma Rescaled(v: nat, p: nat, t: real, u: real)
    requires t == p as real
    ensures (v * p) as real * u == v as real * (t * u)
  {
  }

  /** What a literal of section 6 denotes: its digits as one whole number, the point as many places from the right as there
      are fraction digits, moved by the exponent, whose sign may be absent, a plus or a minus; and the sign in front. */
  lemma LiteralDenotes(n: Number)
    requires ValidNumber(n)
    ensures var frac := if n.frac.Some? then n.frac.value else [];
            AllDigits(n.whole + frac)
            && var v := Val(n.whole + frac);
               && DecimalOf(n).neg == n.minus
               && (n.exp.None? ==> Value(DecimalOf(n)) == Signed(n.minus, AtScale(v, -|frac|)))
               && (n.exp.Some? && n.exp.value.sign == [] ==>
                     Value(DecimalOf(n)) == Signed(n.minus, AtScale(v, Val(n.exp.value.digits) - |frac|)))
               && (n.exp.Some? && n.exp.value.sign == [PLUS] ==>
                     Value(DecimalOf(n)) == Signed(n.minus, AtScale(v, Val(n.exp.value.digits) - |frac|)))
               && (n.exp.Some? && n.exp.value.sign == [MINUS] ==>
                     Value(DecimalOf(n)) == Signed(n.minus, AtScale(v, -(Val(n.exp.value.digits) as int) - |frac|)))
  {
    hide Val, AtScale, Normal, Magnitude;
    var frac := if n.frac.Some? then n.frac.value else [];
    assert n.whole + frac == Mantissa(n);
    var e := ExponentValue(n.exp);
    NormalValue(n.minus, Mantissa(n), |n.whole| + e);
    assert |n.whole| + e - |Mantissa(n)| == e - |frac|;
    if n.exp.Some? && n.exp.value.sign == [MINUS] {
      assert e == -(Val(n.exp.value.digits) as int);
    } else if n.exp.Some? {
      assert n.exp.value.sign != [MINUS];
      assert e == Val(n.exp.value.digits);
    } else {
      assert e == 0;
    }
  }

  // Canonical decimals are their values.

  lemma {:induction false} ValInjective(s: bytes, t: bytes)
    requires AllDigits(s) && AllDigits(t) && |s| == |t| && Val(s) == Val(t)
    ensures s == t
    decreases |s|
  {
    if s != [] {
      var k := |s| - 1;
      ValInjective(s[..k], t[..k]);
      assert s == s[..k] + [s[k]] && t == t[..k] + [t[k]];
    }
  }

  lemma PowerAtScale(n: nat, e: int)
    ensures AtScale(Pow10(n), e) == TenTo(n + e)
  {
    hide TenTo, Pow10;
    TenToNat(n);
    TenToSum(n, e);
  }

  lemma AtScaleOrder(a: nat, b: nat, e: int)
    ensures a < b ==> AtScale(a, e) < AtScale(b, e)
  {
  }

  lemma Bounds(d: Decimal)
    requires Canonical(d) && d.digits != []
    ensures TenTo(d.point - 1) <= Magnitude(d) < TenTo(d.point)
  {
    hide Val, TenTo, Pow10, AtScale;
    var n := |d.digits|;
    var e := d.point - n;
    ValAbove(d.digits);
    ValBelow(d.digits);
    PowerAtScale(n - 1, e);
    PowerAtScale(n, e);
    AtScaleOrder(Pow10(n - 1), Val(d.digits), e);
    AtScaleOrder(Val(d.digits), Pow10(n), e);
  }

  lemma {:induction false} TenToMonotone(a: int, b: int)
    requires a <= b
    ensures TenTo(a) <= TenTo(b)
    decreases b - a
  {
    if a < b {
      TenToMonotone(a, b - 1);
      TenToNext(b - 1);
    }
  }

  lemma SamePoint(d: Decimal, e: Decimal)
    requires Canonical(d) && Canonical(e) && d.digits != [] && e.digits != [] && Magnitude(d) == Magnitude(e)
    ensures d.point == e.point
  {
    hide Magnitude, TenTo;
    Bounds(d);
    Bounds(e);
    if d.point < e.point {
      TenToMonotone(d.point, e.point - 1);
    } else if e.point < d.point {
      TenToMonotone(e.point, d.point - 1);
    }
  }

  lemma Cancelled(a: nat, b: nat, t: real)
    requires t > 0.0 && a as real * t == b as real * t
    ensures a == b
  {
    assert (a as real - b as real) * t == 0.0;
  }

  /** Of digits with one point and one value, neither has more: the last digit of the longer one would be a zero. */
  lemma NotLonger(d: Decimal, e: Decimal)
    requires Canonical(d) && Canonical(e) && d.digits != [] && e.digits != []
    requires d.point == e.point && Magnitude(d) == Magnitude(e)
    ensures |e.digits| <= |d.digits| && (|e.digits| == |d.digits| ==> Val(d.digits) == Val(e.digits))
  {
    hide Val, TenTo, Pow10;
    var m, n := |d.digits|, |e.digits|;
    LastDigit(e.digits);
    if n >= m {
      TenToSum(n - m, d.point - n);
      TenToNat(n - m);
      Rescaled(Val(d.digits), Pow10(n - m), TenTo(n - m), TenTo(d.point - n));
      Cancelled(Val(d.digits) * Pow10(n - m), Val(e.digits), TenTo(d.point - n));
      EndsInZero(Val(d.digits), n - m);
    }
  }

  lemma EndsInZero(v: nat, k: nat)
    ensures k > 0 ==> (v * Pow10(k)) % 10 == 0
    ensures k == 0 ==> v * Pow10(k) == v
  {
    if k > 0 {
      Strconv.TimesTen(v, Pow10(k - 1));
      assert Pow10(k) == 10 * Pow10(k - 1);
      hide Pow10;
      TenDivides(v * Pow10(k - 1));
    }
  }

  lemma TenDivides(w: nat)
    ensures (10 * w) % 10 == 0
  {
  }

  lemma LastDigit(ds: bytes)
    requires AllDigits(ds) && ds != []
    ensures Val(ds) % 10 == ds[|ds| - 1] - ZERO
  {
  }

  lemma NonZero(d: Decimal)
    requires Canonical(d)
    ensures Magnitude(d) == 0.0 <==> d.digits == []
  {
    if d.digits != [] {
      Bounds(d);
    } else {
      hide TenTo;
    }
  }

  /** No two canonical decimals of one sign have one value; so the canonical decimal of a literal is determined. */
  lemma ValueInjective(d: Decimal, e: Decimal)
    requires Canonical(d) && Canonical(e) && d.neg == e.neg && Value(d) == Value(e)
    ensures d == e
  {
    hide Val, TenTo, Magnitude;
    NonZero(d);
    NonZero(e);
    if d.digits != [] {
      SamePoint(d, e);
      NotLonger(d, e);
      NotLonger(e, d);
      ValInjective(d.digits, e.digits);
    }
  }

  // Comparisons.

  lemma ScaledOrder(v: nat, p: nat, t: real, limit: nat)
    requires t > 0.0 && p as real * t == 1.0
    ensures v <= limit * p <==> v as real * t <= limit as real
    ensures v < limit * p <==> v as real * t < limit as real
    ensures v >= limit * p <==> v as real * t >= limit as real
  {
    var x := v as real * t;
    assert x * p as real == v as real by {
      assert x * p as real == v as real * (p as real * t);
    }
    assert (limit * p) as real == limit as real * p as real;
    Compared(x, limit as real, p as real);
  }

  lemma Compared(x: real, y: real, p: real)
    requires p > 0.0
    ensures x * p <= y * p <==> x <= y
  {
    assert (y - x) * p == y * p - x * p;
    if x > y {
      assert (x - y) * p > 0.0;
    }
  }

  lemma Inverse(n: nat)
    ensures Pow10(n) as real * TenTo(-(n as int)) == 1.0
  {
    hide TenTo, Pow10;
    TenToNat(n);
    TenToSum(n, -(n as int));
    TenToZero();
  }

  lemma RealProduct(v: nat, p: nat)
    ensures (v * p) as real == v as real * p as real
  {
  }

  /** The comparisons of validation are comparisons of the values. */
  lemma ComparedByValue(d: Decimal, limit: nat)
    requires Canonical(d)
    ensures AbsAtMost(d, limit) <==> Magnitude(d) <= limit as real
    ensures AbsBelow(d, limit) <==> Magnitude(d) < limit as real
  {
    hide Val, TenTo, Pow10;
    var e := d.point - |d.digits|;
    if e >= 0 {
      TenToNat(e);
      RealProduct(Val(d.digits), Pow10(e));
    } else {
      Inverse(-e);
      ScaledOrder(Val(d.digits), Pow10(-e), TenTo(e), limit);
    }
  }

  /** What validation asks of the fields, in degrees, levels and the range of a double. */
  lemma ContractByValue(p: Point<Decimal>)
    requires Contract(p)
    ensures -90.0 <= Value(p.lat) <= 90.0 && -180.0 <= Value(p.lon) <= 180.0 && 0.0 <= Value(p.battery) <= 1.0
  {
    hide Magnitude, Val, TenTo, AbsAtMost, Finite;
    ComparedByValue(p.lat, 90);
    ComparedByValue(p.lon, 180);
    if p.hasBattery {
      ComparedByValue(p.battery, 1);
    }
    NonZero(p.battery);
  }

  lemma BatteryByValue(d: Decimal)
    requires Canonical(d)
    ensures BatteryInRange(d) <==> 0.0 <= Value(d) <= 1.0
  {
    hide Magnitude, Val, TenTo, AbsAtMost;
    ComparedByValue(d, 1);
    NonZero(d);
  }

  /** Which fields pass validation: a positive time, a latitude and a longitude in degrees, three accelerations, and a battery
      level from 0 to 1 where there is one. */
  lemma AcceptedByValue(pj: Fields)
    requires ReadableFields(pj)
    ensures ToPoint(pj).Some? <==>
            && pj.ts.Some? && pj.ts.value > 0
            && pj.lat.Some? && -90.0 <= Value(pj.lat.value) <= 90.0
            && pj.lon.Some? && -180.0 <= Value(pj.lon.value) <= 180.0
            && pj.ax.Some? && pj.ay.Some? && pj.az.Some?
            && (pj.battery.Some? ==> 0.0 <= Value(pj.battery.value) <= 1.0)
  {
    hide Magnitude, Val, TenTo, AbsAtMost, Finite, BatteryInRange, Contract;
    if pj.lat.Some? {
      ComparedByValue(pj.lat.value, 90);
    }
    if pj.lon.Some? {
      ComparedByValue(pj.lon.value, 180);
    }
    if pj.battery.Some? {
      BatteryByValue(pj.battery.value);
    }
  }

  /** A literal is out of range exactly when its magnitude reaches 2^1024 - 2^970. */
  lemma RangeByValue(d: Decimal)
    requires Canonical(d)
    ensures Finite(d) <==> Magnitude(d) < Overflow() as real
    ensures Overflow() == Pow2(1024) - Pow2(970)
  {
    hide Magnitude, Pow2;
    ComparedByValue(d, Overflow());
  }

  lemma {:induction false} Pow2Sum(m: nat, n: nat)
    ensures Pow2(m + n) == Pow2(m) * Pow2(n)
    decreases n
  {
    if n > 0 {
      Pow2Sum(m, n - 1);
      assert 2 * (Pow2(m) * Pow2(n - 1)) == Pow2(m) * (2 * Pow2(n - 1));
    }
  }

  lemma RoundsUpIs(top: nat, last: nat)
    requires last < top
    ensures RoundsUpFrom(top, last) == Pow2(top) - Pow2(last)
  {
    hide Pow2;
  }

  lemma PowerDifference(m: nat, n: nat)
    ensures Pow2(m + n) - Pow2(n) == (Pow2(m) - 1) * Pow2(n)
  {
    hide Pow2;
    Pow2Sum(m, n);
    LessOne(Pow2(m), Pow2(n));
  }

  lemma LessOne(a: int, b: int)
    ensures (a - 1) * b == a * b - b
  {
  }

  lemma Pow2Doubles(n: nat)
    ensures Pow2(0) == 1 && Pow2(n + 1) == 2 * Pow2(n)
  {
  }

  /** Half a unit in the last place above the largest double: 2^54 - 1 times 2^970. */
  lemma OverflowSpelled()
    ensures Overflow() == (Pow2(54) - 1) * Pow2(970)
  {
    hide RoundsUpFrom, Pow2;
    RoundsUpIs(1024, 970);
    PowerDifference(54, 970);
  }

  // What is printed.

  /** The printed literal has the value of the decimal, no superfluous digit, and an exponent exactly for values other than
      zero below 1e-6 or from 1e21 on; then one digit stands in front of the point, and the exponent has no leading zero. */
  lemma PrintedShape(d: Decimal)
    requires Canonical(d)
    ensures var n := PrintedNumber(d);
            && (n.exp.None? <==> d.digits == [] || TenTo(-6) <= Magnitude(d) < TenTo(21))
            && (n.exp.Some? ==>
                  && |n.whole| == 1 && n.whole[0] != ZERO && n.exp.value.e == LOWER_E
                  && n.exp.value.digits[0] != ZERO
                  && n.exp.value.sign == if Magnitude(d) < 1.0 then [MINUS] else [PLUS])
            && (n.frac.Some? ==> n.frac.value[|n.frac.value| - 1] != ZERO)
  {
    hide Magnitude, TenTo, Val, FormatNat, SignText;
    if d.digits != [] {
      Bounds(d);
      TenToOrder(d.point - 1, 21);
      TenToOrder(d.point, 21);
      TenToOrder(d.point - 1, -6);
      TenToOrder(d.point, -6);
      TenToOrder(d.point, 0);
      TenToOrder(d.point - 1, 0);
      TenToZero();
    }
  }

  lemma TenToOrder(a: int, b: int)
    ensures TenTo(a) <= TenTo(b) <==> a <= b
    ensures TenTo(a) < TenTo(b) <==> a < b
  {
    hide TenTo;
    if a < b {
      TenToMonotone(a, b - 1);
      TenToNext(b - 1);
    } else if b < a {
      TenToMonotone(b, a - 1);
      TenToNext(a - 1);
    }
  }
}
