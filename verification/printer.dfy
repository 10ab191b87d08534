/** The hand-written JSON printer (internal/httpapi/fastresp.go), proved to print a text of the grammar that the
    scanner reads back to the same point. */
module Printer {
  import opened Bytes
  import opened Strconv
  import opened Json
  import opened NumberScan
  import opened Decimals
  import opened Points
  import opened Scanner

  // Texts the printer is to produce, as concrete syntax.

  /** The bytes of `s` as unescaped string characters. */
  function Chars(s: bytes): seq<CharUnit> {
    seq(|s|, i requires 0 <= i < |s| => Plain(s[i]))
  }

  predicate NeedsNoEscape(s: bytes) {
    forall k | 0 <= k < |s| :: s[k] >= 32 && s[k] != QUOTE && s[k] != BACKSLASH
  }

  lemma {:induction false} CharsTextOf(s: bytes)
    ensures CharsText(Chars(s)) == s
    ensures NeedsNoEscape(s) ==> ValidString(Chars(s))
    decreases |s|
  {
    if s != [] {
      assert Chars(s)[1..] == Chars(s[1..]);
      CharsTextOf(s[1..]);
      assert s == [s[0]] + s[1..];
    }
  }

  function IntNumber(v: int64): (n: Number)
    ensures ValidNumber(n)
  {
    Number(v < 0, FormatNat(if v < 0 then -(v as int) else v), None, None)
  }

  lemma IntNumberText(v: int64)
    ensures NumText(IntNumber(v)) == FormatInt(v)
    ensures IsInt64Literal(IntNumber(v)) && IntegerOf(IntNumber(v)) == v
  {
    ValFormatNat(if v < 0 then -(v as int) else v);
  }

  function Name(f: Field): bytes {
    match f
    case Ts => TS_NAME
    case Lat => LAT_NAME
    case Lon => LON_NAME
    case Battery => BATTERY_NAME
    case Ax => AX_NAME
    case Ay => AY_NAME
    case Az => AZ_NAME
  }

  lemma NameOf(f: Field)
    ensures FieldOf(Name(f)) == Some(f) && NeedsNoEscape(Name(f))
  {
    assert Lower(Name(f)) == Name(f);
  }

  /** The members of a printed point in order, the battery only when there is one. */
  function Entries(p: Point<Decimal>): seq<(Field, Number)>
    requires Contract(p)
  {
    if p.hasBattery then
      [(Ts, IntNumber(p.ts)), (Lat, PrintedNumber(p.lat)), (Lon, PrintedNumber(p.lon)),
       (Battery, PrintedNumber(p.battery)),
       (Ax, PrintedNumber(p.ax)), (Ay, PrintedNumber(p.ay)), (Az, PrintedNumber(p.az))]
    else
      [(Ts, IntNumber(p.ts)), (Lat, PrintedNumber(p.lat)), (Lon, PrintedNumber(p.lon)),
       (Ax, PrintedNumber(p.ax)), (Ay, PrintedNumber(p.ay)), (Az, PrintedNumber(p.az))]
  }

  function MembersOf(es: seq<(Field, Number)>): Members
    requires es != []
  {
    var key := Chars(Name(es[0].0));
    var v := Num(es[0].1);
    if |es| == 1 then LastMember([], key, [], [], v, []) else MoreMembers([], key, [], [], v, [], MembersOf(es[1..]))
  }

  function PointValue(p: Point<Decimal>): Value
    requires Contract(p)
  {
    Obj(MembersOf(Entries(p)))
  }

  // The printed point denotes the point.

  ghost predicate EntryOk(e: (Field, Number)) {
    ValidNumber(e.1) && if e.0 == Ts then IsInt64Literal(e.1) else Finite(DecimalOf(e.1))
  }

  ghost predicate EntriesOk(es: seq<(Field, Number)>) {
    forall k | 0 <= k < |es| :: EntryOk(es[k])
  }

  lemma EntryMember(e: (Field, Number), rest: Option<Members>)
    requires EntryOk(e) && (rest.Some? ==> ValidMembers(rest.value))
    ensures var key := Chars(Name(e.0));
            var m := if rest.None? then LastMember([], key, [], [], Num(e.1), [])
                     else MoreMembers([], key, [], [], Num(e.1), [], rest.value);
            ValidMembers(m) && AcceptableMember(m) && FieldOf(CharsText(m.key)) == Some(e.0)
  {
    hide FieldOf, CharsText, ValidNumber;
    NameOf(e.0);
    CharsTextOf(Name(e.0));
    assert ValidValue(Num(e.1));
  }

  lemma {:induction false} MembersOfEntries(es: seq<(Field, Number)>)
    requires es != [] && EntriesOk(es)
    ensures ValidMembers(MembersOf(es)) && Acceptable(MembersOf(es))
    decreases |es|
  {
    hide EntryOk, Chars, FieldOf, AcceptableMember;
    assert EntryOk(es[0]);
    if |es| > 1 {
      MembersOfEntries(es[1..]);
      EntryMember(es[0], Some(MembersOf(es[1..])));
    } else {
      EntryMember(es[0], None);
    }
  }

  /** A field named once has its own number as the last one; a field not named has none. */
  lemma {:induction false} LastNumberOf(es: seq<(Field, Number)>, f: Field, at: Option<nat>)
    requires es != [] && EntriesOk(es)
    requires at.Some? ==> at.value < |es| && es[at.value].0 == f
    requires forall k | 0 <= k < |es| && es[k].0 == f :: at == Some(k)
    ensures ValidMembers(MembersOf(es))
    ensures LastNumber(MembersOf(es), f) == if at.Some? then Some(es[at.value].1) else None
    decreases |es|
  {
    hide EntryOk, Chars, FieldOf, CharsText, AcceptableMember;
    MembersOfEntries(es);
    assert EntryOk(es[0]);
    if |es| > 1 {
      var at1 := if at.None? || at.value == 0 then None else Some(at.value - 1);
      LastNumberOf(es[1..], f, at1);
      EntryMember(es[0], Some(MembersOf(es[1..])));
    } else {
      EntryMember(es[0], None);
    }
  }

  function IndexOf(p: Point<Decimal>, f: Field): Option<nat> {
    var shift := if p.hasBattery then 1 else 0;
    match f
    case Ts => Some(0)
    case Lat => Some(1)
    case Lon => Some(2)
    case Battery => if p.hasBattery then Some(3) else None
    case Ax => Some(3 + shift)
    case Ay => Some(4 + shift)
    case Az => Some(5 + shift)
  }

  lemma EntriesAreOk(p: Point<Decimal>)
    requires Contract(p)
    ensures EntriesOk(Entries(p))
  {
    hide PrintedNumber, IntNumber, Finite, Canonical, IsInt64Literal, DecimalOf;
    IntNumberText(p.ts);
    PrintedDenotes(p.lat);
    PrintedDenotes(p.lon);
    if p.hasBattery {
      PrintedDenotes(p.battery);
    }
    PrintedDenotes(p.ax);
    PrintedDenotes(p.ay);
    PrintedDenotes(p.az);
  }

  function NumberFor(p: Point<Decimal>, f: Field): Option<Number>
    requires Contract(p)
  {
    match f
    case Ts => Some(IntNumber(p.ts))
    case Lat => Some(PrintedNumber(p.lat))
    case Lon => Some(PrintedNumber(p.lon))
    case Battery => if p.hasBattery then Some(PrintedNumber(p.battery)) else None
    case Ax => Some(PrintedNumber(p.ax))
    case Ay => Some(PrintedNumber(p.ay))
    case Az => Some(PrintedNumber(p.az))
  }

  lemma EntryIndex(p: Point<Decimal>, f: Field)
    requires Contract(p)
    ensures var at := IndexOf(p, f);
            && (at.Some? ==> at.value < |Entries(p)| && Entries(p)[at.value].0 == f)
            && NumberFor(p, f) == (if at.Some? then Some(Entries(p)[at.value].1) else None)
            && forall k | 0 <= k < |Entries(p)| && Entries(p)[k].0 == f :: at == Some(k)
  {
    hide PrintedNumber, IntNumber, Finite, Canonical, AbsAtMost, BatteryInRange;
  }

  lemma PrintedField(p: Point<Decimal>, f: Field)
    requires Contract(p)
    ensures EntriesOk(Entries(p)) && ValidMembers(MembersOf(Entries(p)))
    ensures LastNumber(MembersOf(Entries(p)), f) == NumberFor(p, f)
  {
    EntriesAreOk(p);
    EntryIndex(p, f);
    hide Entries, IndexOf, NumberFor, Contract, EntriesOk, MembersOf, LastNumber;
    LastNumberOf(Entries(p), f, IndexOf(p, f));
  }

  /** Printer and parser undo each other: parsing the printed text of any point of the contract gives that point. */
  lemma PrintParse(p: Point<Decimal>)
    requires Contract(p)
    ensures ParsePoint(Text(PointValue(p))) == Some(p)
  {
    var ms := MembersOf(Entries(p));
    var d := Document([], Obj(ms), []);
    EntriesAreOk(p);
    MembersOfEntries(Entries(p));
    assert ValidDocument(d);
    assert DocumentText(d) == Text(PointValue(p));
    ScanPointOnGrammar(d);
    PrintedFields(p, ScanPoint(DocumentText(d)).value);
    ToPointOfFields(p);
  }

  lemma PrintedFields(p: Point<Decimal>, pj: Fields)
    requires Contract(p)
    requires var ms := MembersOf(Entries(p)); ValidMembers(ms) && Acceptable(ms) && Holds(pj, ms, NO_FIELDS)
    ensures pj == FieldsOf(p)
  {
    hide PrintedNumber, IntNumber, Finite, Canonical, MembersOf, LastNumber, DecimalOf, IntegerOf, Acceptable, ValidMembers;
    IntNumberText(p.ts);
    PrintedDenotes(p.lat);
    PrintedDenotes(p.lon);
    if p.hasBattery {
      PrintedDenotes(p.battery);
    }
    PrintedDenotes(p.ax);
    PrintedDenotes(p.ay);
    PrintedDenotes(p.az);
    PrintedField(p, Ts);
    PrintedField(p, Lat);
    PrintedField(p, Lon);
    PrintedField(p, Battery);
    PrintedField(p, Ax);
    PrintedField(p, Ay);
    PrintedField(p, Az);
    assert GetFloat(pj, Lat) == Some(p.lat);
    assert GetFloat(pj, Lon) == Some(p.lon);
    assert GetFloat(pj, Battery) == if p.hasBattery then Some(p.battery) else None;
    assert GetFloat(pj, Ax) == Some(p.ax);
    assert GetFloat(pj, Ay) == Some(p.ay);
    assert GetFloat(pj, Az) == Some(p.az);
  }

  // The printing code.

  /** strconv.AppendFloat with the format byte 'f' or 'e'. */
  function AppendFloat(dst: bytes, d: Decimal, plain: bool): bytes
    requires !plain ==> d.digits != []
  {
    dst + if plain then PlainText(d) else ScientificText(d)
  }

  lemma PlainIsPrinted(d: Decimal)
    requires Canonical(d) && PrintsPlain(d)
    ensures PlainText(d) == NumText(PrintedNumber(d))
  {
    hide SignText, Canonical, AllDigits;
    var n := PrintedNumber(d);
    assert NumText(n) == SignText(d.neg) + (n.whole + FracText(n.frac)) by {
      assert FracText(n.frac) + [] == FracText(n.frac);
    }
    if d.point <= 0 {
      if d.digits != [] {
        assert [DOT] + Zeros(-d.point) + d.digits == [DOT] + (Zeros(-d.point) + d.digits);
      }
    } else if d.point < |d.digits| {
      assert d.digits[..d.point] + [DOT] + d.digits[d.point..] == n.whole + FracText(n.frac);
    } else {
      assert n.whole + FracText(n.frac) == n.whole;
    }
  }

  lemma ScientificParts(d: Decimal)
    requires Canonical(d) && !PrintsPlain(d)
    ensures NumText(PrintedNumber(d)) == Significand(d) + ([LOWER_E] + ([ExponentSign(d)] + FormatNat(ExponentSize(d))))
  {
    hide SignText, FracText, Canonical, AllDigits, FormatNat, ExponentDigits, ExponentSign, ExponentSize;
  }

  /** The exponent the library pads to two digits loses the padding exactly when it is negative and below ten. */
  lemma TrimmedIsPrinted(d: Decimal)
    requires Canonical(d) && !PrintsPlain(d)
    ensures var t := ScientificText(d); var n := |t|;
            && n >= 5
            && var short := t[n - 4] == LOWER_E && t[n - 3] == MINUS && t[n - 2] == ZERO;
               NumText(PrintedNumber(d)) == if short then t[n - 2 := t[n - 1]][..n - 1] else t
  {
    ScientificParts(d);
    if ExponentSize(d) < 10 {
      TrimShort(Significand(d), ExponentSign(d), ExponentSize(d));
    } else {
      hide Significand, NumText, FormatNat, ExponentDigits, PrintedNumber, Canonical, SignText;
      KeepLong(Significand(d), ExponentSign(d), ExponentSize(d));
    }
  }

  lemma TrimShort(head: bytes, sign: byte, a: nat)
    requires |head| >= 1 && sign == MINUS && a < 10
    ensures var t := head + ([LOWER_E] + ([sign] + ExponentDigits(a))); var n := |t|;
            && n >= 5 && t[n - 4] == LOWER_E && t[n - 3] == MINUS && t[n - 2] == ZERO
            && head + ([LOWER_E] + ([sign] + FormatNat(a))) == t[n - 2 := t[n - 1]][..n - 1]
  {
    var t := head + ([LOWER_E] + ([sign] + ExponentDigits(a)));
    var n := |t|;
    assert t == head + [LOWER_E, sign, ZERO, ZERO + a];
    assert head + ([LOWER_E] + ([sign] + FormatNat(a))) == head + [LOWER_E, sign, ZERO + a];
  }

  lemma KeepLong(head: bytes, sign: byte, a: nat)
    requires |head| >= 1 && a >= 10
    ensures ExponentDigits(a) == FormatNat(a)
    ensures var t := head + ([LOWER_E] + ([sign] + ExponentDigits(a))); var n := |t|;
            n >= 5 && !(t[n - 4] == LOWER_E && t[n - 3] == MINUS && t[n - 2] == ZERO)
  {
    var ds := FormatNat(a);
    assert |ds| >= 2 by {
      assert |FormatNat(a / 10)| >= 1;
    }
    assert ds[0] != ZERO && AllDigits(ds);
    hide FormatNat;
    var tail := [LOWER_E] + ([sign] + ds);
    var t := head + tail;
    var n := |t|;
    assert forall k | 0 <= k < |tail| :: t[|head| + k] == tail[k];
    if |ds| == 2 {
      assert t[|head| + 2] == ds[0];
    } else {
      assert t[n - 3] == tail[|tail| - 3] == ds[|ds| - 3];
      assert IsDigit(ds[|ds| - 3]);
    }
  }

  method AppendJSONFloat(dst: bytes, d: Decimal) returns (out: bytes)
    requires Canonical(d)
    ensures out == dst + NumText(PrintedNumber(d))
  {
    hide PlainText, ScientificText, NumText, PrintedNumber, AbsAtLeast;
    var plain := true;
    if d.digits != [] && (!AbsAtLeast(d, -6) || AbsAtLeast(d, 21)) {
      plain := false;
    }
    if d.digits != [] {
      MagnitudeByPoint(d, -6);
      MagnitudeByPoint(d, 21);
    }
    out := AppendFloat(dst, d, plain);
    if plain {
      PlainIsPrinted(d);
    } else {
      TrimmedIsPrinted(d);
      ghost var t := ScientificText(d);
      var n := |out|;
      assert out[|dst|..] == t;
      assert out[n - 4] == t[|t| - 4] && out[n - 3] == t[|t| - 3] && out[n - 2] == t[|t| - 2] && out[n - 1] == t[|t| - 1];
      if n >= 4 && out[n - 4] == LOWER_E && out[n - 3] == MINUS && out[n - 2] == ZERO {
        out := out[n - 2 := out[n - 1]];
        out := out[..n - 1];
        assert out == dst + t[|t| - 2 := t[|t| - 1]][..|t| - 1];
      }
    }
  }

  function FieldHead(f: Field): bytes {
    [QUOTE] + (Name(f) + [QUOTE, COLON])
  }

  /** The buffer after `k` members have been appended, in the order of the appends. */
  function Built(dst: bytes, es: seq<(Field, Number)>, k: nat): bytes
    requires k <= |es|
  {
    if k == 0 then dst + [LBRACE] else
      Built(dst, es, k - 1) + (if k == 1 then [] else [COMMA]) + FieldHead(es[k - 1].0) + NumText(es[k - 1].1)
  }

  lemma EntryText(e: (Field, Number), rest: Option<Members>)
    ensures var key := Chars(Name(e.0));
            && MembersText(LastMember([], key, [], [], Num(e.1), [])) == FieldHead(e.0) + NumText(e.1)
            && (rest.Some? ==> MembersText(MoreMembers([], key, [], [], Num(e.1), [], rest.value)) ==
                               FieldHead(e.0) + NumText(e.1) + ([COMMA] + MembersText(rest.value)))
  {
    hide NumText, CharsText, Name;
    var key := Chars(Name(e.0));
    CharsTextOf(Name(e.0));
    var m := LastMember([], key, [], [], Num(e.1), []);
    assert MemberHead(m) == FieldHead(e.0);
    if rest.Some? {
      assert MemberHead(MoreMembers([], key, [], [], Num(e.1), [], rest.value)) == FieldHead(e.0);
    }
  }

  lemma Regroup(base: bytes, comma: bytes, one: bytes, rest: bytes)
    ensures (base + comma + one) + [COMMA] + rest == base + comma + (one + ([COMMA] + rest))
  {
  }

  /** Appending members front to back gives the text that the tree nests back to front. */
  lemma {:induction false} BuiltText(dst: bytes, es: seq<(Field, Number)>, k: nat)
    requires k < |es|
    ensures Built(dst, es, |es|) == Built(dst, es, k) + (if k == 0 then [] else [COMMA]) + MembersText(MembersOf(es[k..]))
    decreases |es| - k
  {
    hide MembersText, FieldHead, NumText, Chars;
    var e := es[k];
    var comma := if k == 0 then [] else [COMMA];
    var one := FieldHead(e.0) + NumText(e.1);
    assert es[k..][0] == e;
    assert Built(dst, es, k + 1) == Built(dst, es, k) + comma + one;
    if k + 1 < |es| {
      assert es[k..][1..] == es[k + 1..];
      var rest := MembersText(MembersOf(es[k + 1..]));
      EntryText(e, Some(MembersOf(es[k + 1..])));
      BuiltText(dst, es, k + 1);
      Regroup(Built(dst, es, k), comma, one, rest);
    } else {
      EntryText(e, None);
    }
  }

  method AppendPointJSON(dst: bytes, p: Point<Decimal>) returns (out: bytes)
    requires Contract(p)
    ensures out == dst + Text(PointValue(p))
  {
    hide NumText, PrintedNumber, IntNumber, FormatInt, FieldHead, Text, Canonical, Finite, AbsAtMost;
    ghost var es := Entries(p);
    ghost var k: nat := if p.hasBattery then 4 else 3;
    IntNumberText(p.ts);
    out := dst + [LBRACE] + FieldHead(Ts);
    out := out + FormatInt(p.ts);
    assert out == Built(dst, es, 1);
    out := out + [COMMA] + FieldHead(Lat);
    out := AppendJSONFloat(out, p.lat);
    assert out == Built(dst, es, 2);
    out := out + [COMMA] + FieldHead(Lon);
    out := AppendJSONFloat(out, p.lon);
    assert out == Built(dst, es, 3);
    if p.hasBattery {
      out := out + [COMMA] + FieldHead(Battery);
      out := AppendJSONFloat(out, p.battery);
    }
    assert out == Built(dst, es, k);
    out := out + [COMMA] + FieldHead(Ax);
    out := AppendJSONFloat(out, p.ax);
    assert out == Built(dst, es, k + 1);
    out := out + [COMMA] + FieldHead(Ay);
    out := AppendJSONFloat(out, p.ay);
    assert out == Built(dst, es, k + 2);
    out := out + [COMMA] + FieldHead(Az);
    out := AppendJSONFloat(out, p.az);
    assert out == Built(dst, es, |es|);
    out := out + [RBRACE];
    ObjectText(dst, p);
  }

  lemma ObjectText(dst: bytes, p: Point<Decimal>)
    requires Contract(p)
    ensures Built(dst, Entries(p), |Entries(p)|) + [RBRACE] == dst + Text(PointValue(p))
  {
    hide Entries, MembersText, Contract, Built, MembersOf;
    var es := Entries(p);
    EntriesNonEmpty(p);
    var m := MembersText(MembersOf(es));
    BuiltText(dst, es, 0);
    assert es[0..] == es;
    BuiltStart(dst, es);
    Braced(dst, m);
  }

  lemma BuiltStart(dst: bytes, es: seq<(Field, Number)>)
    ensures Built(dst, es, 0) == dst + [LBRACE]
  {
  }

  lemma Braced(dst: bytes, m: bytes)
    ensures (dst + [LBRACE]) + [] + m + [RBRACE] == dst + ([LBRACE] + (m + [RBRACE]))
  {
  }

  lemma EntriesNonEmpty(p: Point<Decimal>)
    requires Contract(p)
    ensures Entries(p) != []
  {
  }

  // The response of a range query.

  const POINTS_NAME: bytes := [112, 111, 105, 110, 116, 115]
  const CURSOR_NAME: bytes := [110, 101, 120, 116, 95, 99, 117, 114, 115, 111, 114]

  predicate AllContract(pts: seq<Point<Decimal>>) {
    forall k | 0 <= k < |pts| :: Contract(pts[k])
  }

  function ElementsOf(pts: seq<Point<Decimal>>): Elements
    requires pts != [] && AllContract(pts)
  {
    if |pts| == 1 then LastElement([], PointValue(pts[0]), [])
    else MoreElements([], PointValue(pts[0]), [], ElementsOf(pts[1..]))
  }

  function PointsValue(pts: seq<Point<Decimal>>): Value
    requires AllContract(pts)
  {
    if pts == [] then EmptyArr([]) else Arr(ElementsOf(pts))
  }

  /** The cursor, null when there is none. */
  function CursorValue(next: bytes): Value {
    if next == [] then Null else Str(Chars(next))
  }

  function RangeValue(pts: seq<Point<Decimal>>, next: bytes): Value
    requires AllContract(pts)
  {
    Obj(MoreMembers([], Chars(POINTS_NAME), [], [], PointsValue(pts), [],
        LastMember([], Chars(CURSOR_NAME), [], [], CursorValue(next), [])))
  }

  lemma {:induction false} ElementsOfValid(pts: seq<Point<Decimal>>)
    requires pts != [] && AllContract(pts)
    ensures ValidElements(ElementsOf(pts))
    decreases |pts|
  {
    EntriesAreOk(pts[0]);
    MembersOfEntries(Entries(pts[0]));
    assert ValidValue(PointValue(pts[0]));
    if |pts| > 1 {
      ElementsOfValid(pts[1..]);
    }
  }

  /** The response is a JSON text of RFC 8259, whatever the points, as long as the cursor needs no escaping. */
  lemma RangeIsValid(pts: seq<Point<Decimal>>, next: bytes)
    requires AllContract(pts) && NeedsNoEscape(next)
    ensures ValidDocument(Document([], RangeValue(pts, next), []))
  {
    hide Chars, ValidString, PointsValue, CursorValue, ValidValue, ValidMembers, NeedsNoEscape, Contract;
    PartsValid(pts, next);
    var last := LastMember([], Chars(CURSOR_NAME), [], [], CursorValue(next), []);
    CursorNames();
    PlainMember(last);
    PlainMember(MoreMembers([], Chars(POINTS_NAME), [], [], PointsValue(pts), [], last));
  }

  lemma CursorNames()
    ensures ValidString(Chars(POINTS_NAME)) && ValidString(Chars(CURSOR_NAME))
  {
    hide Chars, ValidString;
    CharsTextOf(POINTS_NAME);
    CharsTextOf(CURSOR_NAME);
  }

  lemma PartsValid(pts: seq<Point<Decimal>>, next: bytes)
    requires AllContract(pts) && NeedsNoEscape(next)
    ensures ValidValue(PointsValue(pts)) && ValidValue(CursorValue(next))
  {
    hide Chars, ValidString, NeedsNoEscape, Contract;
    CharsTextOf(next);
    if pts != [] {
      ElementsOfValid(pts);
    }
  }

  lemma PlainMember(m: Members)
    requires m.pre == m.mid == m.post == m.tail == [] && ValidString(m.key) && ValidValue(m.v)
    requires m.MoreMembers? ==> ValidMembers(m.rest)
    ensures ValidMembers(m) && ValidValue(Obj(m))
  {
    hide ValidString;
  }

  const POINTS_LEAD: bytes := [LBRACE, QUOTE] + POINTS_NAME + [QUOTE, COLON, LBRACKET]
  const CURSOR_LEAD: bytes := [RBRACKET, COMMA, QUOTE] + CURSOR_NAME + [QUOTE, COLON]

  function BuiltPoints(dst: bytes, pts: seq<Point<Decimal>>, k: nat): bytes
    requires k <= |pts| && AllContract(pts)
  {
    if k == 0 then dst else BuiltPoints(dst, pts, k - 1) + (if k == 1 then [] else [COMMA]) + Text(PointValue(pts[k - 1]))
  }

  lemma ElementText(v: Value, rest: Option<Elements>)
    ensures ElementsText(LastElement([], v, [])) == Text(v)
    ensures rest.Some? ==> ElementsText(MoreElements([], v, [], rest.value)) == Text(v) + ([COMMA] + ElementsText(rest.value))
  {
    hide Text;
  }

  lemma {:induction false} BuiltPointsText(dst: bytes, pts: seq<Point<Decimal>>, k: nat)
    requires k < |pts| && AllContract(pts)
    ensures BuiltPoints(dst, pts, |pts|) ==
            BuiltPoints(dst, pts, k) + (if k == 0 then [] else [COMMA]) + ElementsText(ElementsOf(pts[k..]))
    decreases |pts| - k
  {
    hide Text, PointValue, Contract, ElementsText;
    var comma := if k == 0 then [] else [COMMA];
    var one := Text(PointValue(pts[k]));
    assert pts[k..][0] == pts[k];
    if k + 1 < |pts| {
      assert pts[k..][1..] == pts[k + 1..];
      var rest := ElementsText(ElementsOf(pts[k + 1..]));
      BuiltPointsText(dst, pts, k + 1);
      ElementText(PointValue(pts[k]), Some(ElementsOf(pts[k + 1..])));
      Regroup(BuiltPoints(dst, pts, k), comma, one, rest);
    } else {
      ElementText(PointValue(pts[k]), None);
    }
  }

  method AppendCursor(dst: bytes, cur: bytes) returns (out: bytes)
    requires cur != []
    ensures out == dst + Text(CursorValue(cur))
  {
    out := dst + [QUOTE];
    out := out + cur;
    out := out + [QUOTE];
    CharsTextOf(cur);
  }

  method AppendRangeJSON(dst: bytes, pts: seq<Point<Decimal>>, next: bytes) returns (out: bytes)
    requires AllContract(pts)
    ensures out == dst + Text(RangeValue(pts, next))
  {
    hide PointValue, Text, Contract;
    out := dst + POINTS_LEAD;
    ghost var start := out;
    var i := 0;
    while i < |pts|
      invariant 0 <= i <= |pts|
      invariant out == BuiltPoints(start, pts, i)
    {
      if i > 0 {
        out := out + [COMMA];
      }
      assert Contract(pts[i]);
      out := AppendPointJSON(out, pts[i]);
      i := i + 1;
    }
    out := out + CURSOR_LEAD;
    if next == [] {
      out := out + NULL_TEXT;
      assert NULL_TEXT == Text(CursorValue(next)) by {
        NullText(CursorValue(next));
      }
    } else {
      out := AppendCursor(out, next);
    }
    out := out + [RBRACE];
    RangeText(dst, pts, next);
  }

  lemma PointsText(dst: bytes, pts: seq<Point<Decimal>>)
    requires AllContract(pts)
    ensures Text(PointsValue(pts)) == [LBRACKET] + ((if pts == [] then [] else ElementsText(ElementsOf(pts))) + [RBRACKET])
    ensures BuiltPoints(dst, pts, |pts|) == dst + (if pts == [] then [] else ElementsText(ElementsOf(pts)))
  {
    hide Contract, PointValue, ElementsText;
    if pts != [] {
      BuiltPointsText(dst, pts, 0);
      assert pts[0..] == pts;
    }
  }

  lemma RangeText(dst: bytes, pts: seq<Point<Decimal>>, next: bytes)
    requires AllContract(pts)
    ensures BuiltPoints(dst + POINTS_LEAD, pts, |pts|) + CURSOR_LEAD + Text(CursorValue(next)) + [RBRACE] ==
            dst + Text(RangeValue(pts, next))
  {
    hide AllContract, PointsValue, CursorValue, Chars, ElementsText, CharsText, BuiltPoints;
    var inner := if pts == [] then [] else ElementsText(ElementsOf(pts));
    var c := Text(CursorValue(next));
    PointsText(dst + POINTS_LEAD, pts);
    var last := LastMember([], Chars(CURSOR_NAME), [], [], CursorValue(next), []);
    var all := MoreMembers([], Chars(POINTS_NAME), [], [], PointsValue(pts), [], last);
    PlainHead(last, CURSOR_NAME);
    PlainHead(all, POINTS_NAME);
    var h1 := [QUOTE] + POINTS_NAME + [QUOTE, COLON];
    var h2 := [QUOTE] + CURSOR_NAME + [QUOTE, COLON];
    LastText(last, h2, c);
    MoreText(all, h1, [LBRACKET] + (inner + [RBRACKET]), h2 + c);
    JoinRange(dst, h1, inner, h2, c);
  }

  lemma PlainHead(m: Members, name: bytes)
    requires m.pre == [] && m.mid == [] && m.post == [] && m.key == Chars(name)
    ensures MemberHead(m) == [QUOTE] + name + [QUOTE, COLON]
  {
    hide Chars, CharsText;
    CharsTextOf(name);
  }

  lemma LastText(m: Members, head: bytes, v: bytes)
    requires m.LastMember? && m.tail == [] && MemberHead(m) == head && Text(m.v) == v
    ensures MembersText(m) == head + v
  {
    hide MemberHead, Text;
  }

  lemma MoreText(m: Members, head: bytes, v: bytes, rest: bytes)
    requires m.MoreMembers? && m.tail == [] && MemberHead(m) == head && Text(m.v) == v && MembersText(m.rest) == rest
    ensures Text(Obj(m)) == [LBRACE] + ((head + (v + ([COMMA] + rest))) + [RBRACE])
  {
    hide MemberHead;
    assert MembersText(m) == head + (v + ([COMMA] + rest)) by {
      hide Text;
    }
  }

  lemma JoinRange(dst: bytes, h1: bytes, inner: bytes, h2: bytes, c: bytes)
    requires h1 == [QUOTE] + POINTS_NAME + [QUOTE, COLON] && h2 == [QUOTE] + CURSOR_NAME + [QUOTE, COLON]
    ensures (dst + POINTS_LEAD) + inner + CURSOR_LEAD + c + [RBRACE] ==
            dst + ([LBRACE] + ((h1 + (([LBRACKET] + (inner + [RBRACKET])) + ([COMMA] + (h2 + c)))) + [RBRACE]))
  {
    assert POINTS_LEAD == [LBRACE] + h1 + [LBRACKET];
    assert CURSOR_LEAD == [RBRACKET] + [COMMA] + h2;
    Flatten(dst, [LBRACE], h1, [LBRACKET], inner, [RBRACKET], [COMMA], h2, c, [RBRACE]);
  }

  lemma Flatten(d: bytes, a: bytes, b: bytes, e: bytes, f: bytes, g: bytes, h: bytes, k: bytes, c: bytes, z: bytes)
    ensures (d + (a + b + e)) + f + (g + h + k) + c + z == d + (a + ((b + ((e + (f + g)) + (h + (k + c)))) + z))
  {
    var right := (e + (f + g)) + (h + (k + c));
    assert right == e + f + g + h + k + c;
    assert d + (a + ((b + right) + z)) == d + a + b + right + z;
    assert (d + (a + b + e)) + f + (g + h + k) + c == d + a + b + right;
  }
}
