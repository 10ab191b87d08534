/** The telemetry point and its validation (internal/model/point.go). `F` is the meaning given to a float:
    a decimal where points are read and printed as text, a 64-bit pattern where they are stored, a real where
    they are averaged. */
module Points {
  import opened Bytes
  import opened Strconv
  import opened Decimals

  datatype Point<F> = Point(ts: int64, lat: F, lon: F, battery: F, hasBattery: bool, ax: F, ay: F, az: F)

  /** What the scanner found; an absent field was missing or null. */
  datatype Fields = Fields(ts: Option<int64>, lat: Option<Decimal>, lon: Option<Decimal>, battery: Option<Decimal>,
                           ax: Option<Decimal>, ay: Option<Decimal>, az: Option<Decimal>)

  const NO_FIELDS := Fields(None, None, None, None, None, None, None)
  const ZERO_VALUE := Decimal(false, [], 0)

  predicate CanonicalField(f: Option<Decimal>) {
    f.Some? ==> Canonical(f.value) && Finite(f.value)
  }

  predicate ReadableFields(pj: Fields) {
    && CanonicalField(pj.lat) && CanonicalField(pj.lon) && CanonicalField(pj.battery)
    && CanonicalField(pj.ax) && CanonicalField(pj.ay) && CanonicalField(pj.az)
  }

  /** The API contract every stored point meets. */
  predicate Contract(p: Point<Decimal>) {
    && p.ts > 0
    && Canonical(p.lat) && Finite(p.lat) && AbsAtMost(p.lat, 90)
    && Canonical(p.lon) && Finite(p.lon) && AbsAtMost(p.lon, 180)
    && Canonical(p.ax) && Finite(p.ax) && Canonical(p.ay) && Finite(p.ay) && Canonical(p.az) && Finite(p.az)
    && (if p.hasBattery then Canonical(p.battery) && Finite(p.battery) && BatteryInRange(p.battery)
        else p.battery == ZERO_VALUE)
  }

  /** 0 <= d <= 1, negative zero included. */
  predicate BatteryInRange(d: Decimal)
    requires Canonical(d)
  {
    (d.neg ==> d.digits == []) && AbsAtMost(d, 1)
  }

  function ToPoint(pj: Fields): (r: Option<Point<Decimal>>)
    requires ReadableFields(pj)
    ensures r.Some? ==> Contract(r.value)
    ensures r.Some? <==>
      && pj.ts.Some? && pj.lat.Some? && pj.lon.Some? && pj.ax.Some? && pj.ay.Some? && pj.az.Some?
      && pj.ts.value > 0 && AbsAtMost(pj.lat.value, 90) && AbsAtMost(pj.lon.value, 180)
      && (pj.battery.Some? ==> BatteryInRange(pj.battery.value))
  {
    if pj.ts.None? || pj.lat.None? || pj.lon.None? || pj.ax.None? || pj.ay.None? || pj.az.None? then None
    else if pj.ts.value <= 0 then None
    else if !AbsAtMost(pj.lat.value, 90) then None
    else if !AbsAtMost(pj.lon.value, 180) then None
    else if pj.battery.Some? && !BatteryInRange(pj.battery.value) then None
    else
      var battery := if pj.battery.Some? then pj.battery.value else ZERO_VALUE;
      Some(Point(pj.ts.value, pj.lat.value, pj.lon.value, battery, pj.battery.Some?,
                 pj.ax.value, pj.ay.value, pj.az.value))
  }

  /** The fields a printed point carries: the battery only when the point has one. */
  function FieldsOf(p: Point<Decimal>): Fields {
    Fields(Some(p.ts), Some(p.lat), Some(p.lon), if p.hasBattery then Some(p.battery) else None,
           Some(p.ax), Some(p.ay), Some(p.az))
  }

  lemma ToPointOfFields(p: Point<Decimal>)
    requires Contract(p)
    ensures ReadableFields(FieldsOf(p)) && ToPoint(FieldsOf(p)) == Some(p)
  {
  }

  /** The corners of the contract: latitude -90, longitude 180, battery 1. */
  const CORNER: Point<Decimal> :=
    Point(1, Decimal(true, [57], 2), Decimal(false, [49, 56], 3), Decimal(false, [49], 1), true,
          ZERO_VALUE, Decimal(true, [], 0), Decimal(false, [49], -5))

  lemma OneDigitValue(c: byte)
    requires IsDigit(c)
    ensures Val([c]) == c - ZERO && AllDigits([c])
  {
    assert [c][..0] == [];
  }

  lemma TwoDigitValue(c: byte, d: byte)
    requires IsDigit(c) && IsDigit(d)
    ensures Val([c, d]) == 10 * (c - ZERO) + (d - ZERO) && AllDigits([c, d])
  {
    OneDigitValue(c);
    assert [c, d][..1] == [c];
  }

  /** The contract has points, at its corners too. */
  lemma CornerIsValid()
    ensures Contract(CORNER)
  {
    var p := CORNER;
    OneDigitValue(57);
    OneDigitValue(49);
    TwoDigitValue(49, 56);
    assert Pow10(0) == 1 && Pow10(1) == 10;
    hide Val, Overflow, Pow10;
    assert AbsAtMost(p.lat, 90) && AbsAtMost(p.lon, 180) && AbsAtMost(p.battery, 1);
    BoundedIsFinite(p.lat, 90);
    BoundedIsFinite(p.lon, 180);
    BoundedIsFinite(p.battery, 1);
    Zeroes();
    SmallIsBounded(p.az);
    BoundedIsFinite(p.az, 1);
  }

  lemma Zeroes()
    ensures Canonical(ZERO_VALUE) && Finite(ZERO_VALUE)
    ensures var d := Decimal(true, [], 0); Canonical(d) && Finite(d)
  {
    OverflowIsLarge(0);
    hide Overflow;
  }

  /** A decimal below one is at most one. */
  lemma SmallIsBounded(d: Decimal)
    requires Canonical(d) && d.point <= 0 && d.digits != []
    ensures AbsAtMost(d, 1)
  {
    ValBelow(d.digits);
    if d.point < 0 {
      Pow10Monotone(|d.digits|, |d.digits| - d.point);
    }
  }
}
