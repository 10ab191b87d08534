/** The telemetry-point scanner (internal/model/fastjson.go, scanPointJSON to readFloat). */
module Scanner {
  import opened Bytes
  import opened Strconv
  import opened Json
  import opened NumberScan
  import opened SkipScan
  import opened Decimals
  import opened Points

  datatype Field = Ts | Lat | Lon | Battery | Ax | Ay | Az

  const TS_NAME: bytes := [116, 115]
  const LAT_NAME: bytes := [108, 97, 116]
  const LON_NAME: bytes := [108, 111, 110]
  const BATTERY_NAME: bytes := [98, 97, 116, 116, 101, 114, 121]
  const AX_NAME: bytes := [97, 120]
  const AY_NAME: bytes := [97, 121]
  const AZ_NAME: bytes := [97, 122]

  function LowerByte(c: byte): byte {
    if 65 <= c <= 90 then c + 32 else c
  }

  function Lower(s: bytes): bytes {
    seq(|s|, i requires 0 <= i < |s| => LowerByte(s[i]))
  }

  /** The field a raw key names: equality up to ASCII case. */
  function FieldOf(key: bytes): Option<Field> {
    var k := Lower(key);
    if k == TS_NAME then Some(Ts)
    else if k == LAT_NAME then Some(Lat)
    else if k == LON_NAME then Some(Lon)
    else if k == BATTERY_NAME then Some(Battery)
    else if k == AX_NAME then Some(Ax)
    else if k == AY_NAME then Some(Ay)
    else if k == AZ_NAME then Some(Az)
    else None
  }

  // The scanner as functions of the buffer and an index.

  function ReadKey(b: bytes, i: nat): (r: Option<(bytes, nat)>)
    ensures r.Some? ==> i < r.value.1 <= |b|
  {
    if i >= |b| || b[i] != QUOTE then None else
      var e := StringEnd(b, i + 1);
      if e.None? then None else Some((b[i + 1..e.value - 1], e.value))
  }

  function ReadInt(b: bytes, i: nat, dst: Option<int64>): (r: Option<(Option<int64>, nat)>)
    ensures r.Some? ==> i < r.value.1 <= |b|
  {
    if LiteralEnd(b, i, NULL_TEXT).Some? then Some((dst, i + 4)) else
      var s := ScanNumber(b, i);
      if s.None? then None else
        var v := ParseInt(b[i..s.value.end]);
        if v.None? then None else Some((v, s.value.end))
  }

  function ReadFloat(b: bytes, i: nat, dst: Option<Decimal>): (r: Option<(Option<Decimal>, nat)>)
    ensures r.Some? ==> i < r.value.1 <= |b|
    ensures r.Some? && CanonicalField(dst) ==> CanonicalField(r.value.0)
  {
    if LiteralEnd(b, i, NULL_TEXT).Some? then Some((dst, i + 4)) else
      var s := ScanNumber(b, i);
      if s.None? then None else
        var v := ParseFloat(b[i..s.value.end]);
        if v.None? then None else Some((v, s.value.end))
  }

  function GetFloat(pj: Fields, f: Field): Option<Decimal>
    requires f != Ts
  {
    match f
    case Lat => pj.lat
    case Lon => pj.lon
    case Battery => pj.battery
    case Ax => pj.ax
    case Ay => pj.ay
    case Az => pj.az
  }

  function SetFloat(pj: Fields, f: Field, v: Option<Decimal>): Fields
    requires f != Ts
  {
    match f
    case Lat => pj.(lat := v)
    case Lon => pj.(lon := v)
    case Battery => pj.(battery := v)
    case Ax => pj.(ax := v)
    case Ay => pj.(ay := v)
    case Az => pj.(az := v)
  }

  function ReadField(b: bytes, i: nat, key: bytes, pj: Fields): (r: Option<(Fields, nat)>)
    ensures r.Some? ==> i < r.value.1 <= |b|
    ensures r.Some? && ReadableFields(pj) ==> ReadableFields(r.value.0)
  {
    var f := FieldOf(key);
    if f.None? then
      var e := ValueEnd(b, i);
      if e.None? then None else Some((pj, e.value))
    else if f.value == Ts then
      var v := ReadInt(b, i, pj.ts);
      if v.None? then None else Some((pj.(ts := v.value.0), v.value.1))
    else
      var v := ReadFloat(b, i, GetFloat(pj, f.value));
      if v.None? then None else Some((SetFloat(pj, f.value, v.value.0), v.value.1))
  }

  /** One turn of the member loop: key, colon, value, and the index of the byte that must be ',' or '}'. */
  function ScanMember(b: bytes, i: nat, pj: Fields): (r: Option<(Fields, nat)>)
    ensures r.Some? ==> i < r.value.1 < |b|
    ensures r.Some? && ReadableFields(pj) ==> ReadableFields(r.value.0)
  {
    var k := ReadKey(b, SkipWS(b, i));
    if k.None? then None else
      var c := SkipWS(b, k.value.1);
      if c >= |b| || b[c] != COLON then None else
        var v := ReadField(b, SkipWS(b, c + 1), k.value.0, pj);
        if v.None? then None else
          var e := SkipWS(b, v.value.1);
          if e >= |b| then None else Some((v.value.0, e))
  }

  function ScanMembers(b: bytes, i: nat, pj: Fields): (r: Option<Fields>)
    ensures r.Some? && ReadableFields(pj) ==> ReadableFields(r.value)
    decreases |b| - i
  {
    var m := ScanMember(b, i, pj);
    if m.None? then None
    else if b[m.value.1] == COMMA then ScanMembers(b, m.value.1 + 1, m.value.0)
    else if b[m.value.1] == RBRACE && SkipWS(b, m.value.1 + 1) == |b| then Some(m.value.0)
    else None
  }

  function ScanPoint(b: bytes): (r: Option<Fields>)
    ensures r.Some? ==> ReadableFields(r.value)
  {
    var i := SkipWS(b, 0);
    if i >= |b| || b[i] != LBRACE then None else
      var j := SkipWS(b, i + 1);
      if j < |b| && b[j] == RBRACE then
        if SkipWS(b, j + 1) == |b| then Some(NO_FIELDS) else None
      else ScanMembers(b, j, NO_FIELDS)
  }

  /** ParsePoint: scan, then validate. */
  function ParsePoint(b: bytes): (r: Option<Point<Decimal>>)
    ensures r.Some? ==> Contract(r.value)
  {
    var pj := ScanPoint(b);
    if pj.None? then None else ToPoint(pj.value)
  }

  // What an object of the grammar means to the scanner.

  function NumberOf(v: Value): (n: Number)
    requires ValidValue(v) && v.Num?
    ensures ValidNumber(n)
  {
    v.n
  }

  function IntegerOf(n: Number): int
    requires ValidNumber(n)
  {
    if n.minus then -(Val(n.whole) as int) else Val(n.whole)
  }

  predicate IsInt64Literal(n: Number)
    requires ValidNumber(n)
  {
    n.frac.None? && n.exp.None? && FitsInt64(IntegerOf(n))
  }

  /** The value a member may hold: anything for an unknown key; null or a number in range for a field. */
  predicate AcceptableMember(ms: Members)
    requires ValidMembers(ms)
  {
    var f := FieldOf(CharsText(ms.key));
    f.None? || ms.v.Null? ||
    (ms.v.Num? && if f.value == Ts then IsInt64Literal(NumberOf(ms.v)) else Finite(DecimalOf(NumberOf(ms.v))))
  }

  predicate Acceptable(ms: Members)
    requires ValidMembers(ms)
  {
    AcceptableMember(ms) && (ms.MoreMembers? ==> Acceptable(ms.rest))
  }

  /** The last number given to a field, nulls passed over. */
  function LastNumber(ms: Members, f: Field): (r: Option<Number>)
    requires ValidMembers(ms)
    ensures r.Some? ==> ValidNumber(r.value)
  {
    var later := if ms.MoreMembers? then LastNumber(ms.rest, f) else None;
    if later.Some? then later
    else if FieldOf(CharsText(ms.key)) == Some(f) && ms.v.Num? then Some(NumberOf(ms.v))
    else None
  }

  /** `pj` holds exactly the last numbers of `ms`, and what `before` held in the fields `ms` does not set. */
  ghost predicate Holds(pj: Fields, ms: Members, before: Fields)
    requires ValidMembers(ms) && Acceptable(ms)
  {
    && (LastNumber(ms, Ts).None? ==> pj.ts == before.ts)
    && (LastNumber(ms, Ts).Some? ==> pj.ts == Some(IntegerOf(LastNumber(ms, Ts).value)))
    && forall f: Field | f != Ts ::
         GetFloat(pj, f) == if LastNumber(ms, f).None? then GetFloat(before, f)
                            else Some(DecimalOf(LastNumber(ms, f).value))
  }

  /** Applying one member. */
  function Apply(pj: Fields, ms: Members): Fields
    requires ValidMembers(ms) && AcceptableMember(ms)
  {
    var f := FieldOf(CharsText(ms.key));
    if f.None? || ms.v.Null? then pj
    else if f.value == Ts then pj.(ts := Some(IntegerOf(NumberOf(ms.v))))
    else SetFloat(pj, f.value, Some(DecimalOf(NumberOf(ms.v))))
  }

  function Gather(ms: Members, pj: Fields): Fields
    requires ValidMembers(ms) && Acceptable(ms)
  {
    var next := Apply(pj, ms);
    if ms.MoreMembers? then Gather(ms.rest, next) else next
  }

  lemma {:induction false} GatherTs(ms: Members, pj: Fields)
    requires ValidMembers(ms) && Acceptable(ms)
    ensures var n := LastNumber(ms, Ts); Gather(ms, pj).ts == if n.None? then pj.ts else Some(IntegerOf(n.value))
    decreases ms
  {
    hide IntegerOf, DecimalOf, FieldOf, ValidValue, Finite;
    if ms.MoreMembers? {
      GatherTs(ms.rest, Apply(pj, ms));
    }
  }

  lemma {:induction false} GatherFloat(ms: Members, pj: Fields, f: Field)
    requires ValidMembers(ms) && Acceptable(ms) && f != Ts
    ensures var n := LastNumber(ms, f);
            GetFloat(Gather(ms, pj), f) == if n.None? then GetFloat(pj, f) else Some(DecimalOf(n.value))
    decreases ms
  {
    hide IntegerOf, DecimalOf, FieldOf, ValidValue, Finite;
    if ms.MoreMembers? {
      GatherFloat(ms.rest, Apply(pj, ms), f);
    }
  }

  lemma GatherHolds(ms: Members, pj: Fields)
    requires ValidMembers(ms) && Acceptable(ms)
    ensures Holds(Gather(ms, pj), ms, pj)
  {
    GatherTs(ms, pj);
    forall f: Field | f != Ts
      ensures GetFloat(Gather(ms, pj), f) == if LastNumber(ms, f).None? then GetFloat(pj, f)
                                             else Some(DecimalOf(LastNumber(ms, f).value))
    {
      GatherFloat(ms, pj, f);
    }
  }

  // Reading one value of the grammar.

  lemma ParseIntNumber(n: Number)
    requires ValidNumber(n)
    ensures ParseInt(NumText(n)) == if IsInt64Literal(n) then Some(IntegerOf(n)) else None
  {
    var rest := FracText(n.frac) + ExpText(n.exp);
    assert NumText(n) == SignText(n.minus) + (n.whole + rest);
    if n.frac.None? && n.exp.None? {
      hide ParseInt, Val, AllDigits;
      assert n.whole + rest == n.whole;
      ParseDigits(n.whole);
      assert [] + n.whole == n.whole;
    } else {
      hide ParseInt, Val, AllDigits;
      NotAllDigits(n.whole, rest);
      NoInteger(n.minus, n.whole + rest);
    }
  }

  lemma NotAllDigits(whole: bytes, rest: bytes)
    requires rest != [] && !IsDigit(rest[0]) && whole != [] && AllDigits(whole)
    ensures !AllDigits(whole + rest) && IsDigit((whole + rest)[0])
  {
    assert (whole + rest)[|whole|] == rest[0];
    assert (whole + rest)[0] == whole[0];
  }

  lemma NoInteger(minus: bool, ds: bytes)
    requires ds != [] && IsDigit(ds[0]) && !AllDigits(ds)
    ensures ParseInt(SignText(minus) + ds).None?
  {
    if minus {
      assert (SignText(minus) + ds)[1..] == ds;
    } else {
      assert SignText(minus) + ds == ds;
    }
  }

  /** A value that neither is null nor a number is no number to the scanner either. */
  lemma NotANumber(b: bytes, i: nat, v: Value)
    requires At(b, i, Text(v)) && ValidValue(v)
    ensures !v.Null? ==> LiteralEnd(b, i, NULL_TEXT).None?
    ensures v.Null? ==> LiteralEnd(b, i, NULL_TEXT).Some?
    ensures !v.Num? ==> ScanNumber(b, i).None?
  {
    hide Text;
    FirstByte(v);
    AtByte(b, i, Text(v), 0);
    if LiteralEnd(b, i, NULL_TEXT).Some? {
      assert b[i] == b[i..i + 4][0];
    }
    if v.Null? {
      assert Text(v) == NULL_TEXT by { NullText(v); }
    }
  }

  lemma NullText(v: Value)
    requires v.Null?
    ensures Text(v) == NULL_TEXT
  {
  }

  lemma ReadIntAt(b: bytes, i: nat, v: Value, dst: Option<int64>)
    requires At(b, i, Text(v)) && ValidValue(v) && (v.Num? ==> NumberEnds(b, i + |Text(v)|))
    ensures v.Null? ==> ReadInt(b, i, dst) == Some((dst, i + |Text(v)|))
    ensures v.Num? && IsInt64Literal(NumberOf(v)) ==> ReadInt(b, i, dst) == Some((Some(IntegerOf(NumberOf(v))), i + |Text(v)|))
    ensures !v.Null? && !(v.Num? && IsInt64Literal(NumberOf(v))) ==> ReadInt(b, i, dst).None?
  {
    hide ScanNumber, NumText, ParseInt;
    NotANumber(b, i, v);
    if v.Num? {
      ScanComplete(b, i, v.n);
      ParseIntNumber(v.n);
    }
  }

  lemma ReadFloatAt(b: bytes, i: nat, v: Value, dst: Option<Decimal>)
    requires At(b, i, Text(v)) && ValidValue(v) && (v.Num? ==> NumberEnds(b, i + |Text(v)|))
    ensures v.Null? ==> ReadFloat(b, i, dst) == Some((dst, i + |Text(v)|))
    ensures v.Num? && Finite(DecimalOf(NumberOf(v))) ==> ReadFloat(b, i, dst) == Some((Some(DecimalOf(NumberOf(v))), i + |Text(v)|))
    ensures !v.Null? && !(v.Num? && Finite(DecimalOf(NumberOf(v)))) ==> ReadFloat(b, i, dst).None?
  {
    hide ScanNumber, NumText, ParseFloat, DecimalOf, Finite;
    NotANumber(b, i, v);
    if v.Num? {
      ScanComplete(b, i, v.n);
      ParseFloatNumber(v.n);
    }
  }

  lemma ReadFieldAt(b: bytes, i: nat, ms: Members, pj: Fields)
    requires ValidMembers(ms)
    requires At(b, i, Text(ms.v)) && (ms.v.Num? ==> NumberEnds(b, i + |Text(ms.v)|))
    ensures ReadField(b, i, CharsText(ms.key), pj) ==
            if AcceptableMember(ms) then Some((Apply(pj, ms), i + |Text(ms.v)|)) else None
  {
    hide At, Text, FieldOf, ReadInt, ReadFloat, ValueEnd, ValidValue, IsInt64Literal, Finite, DecimalOf, IntegerOf;
    var f := FieldOf(CharsText(ms.key));
    if f.None? {
      SkipValueExact(b, i, ms.v);
    } else if f.value == Ts {
      ReadIntAt(b, i, ms.v, pj.ts);
    } else {
      ReadFloatAt(b, i, ms.v, GetFloat(pj, f.value));
    }
  }

  /** White space, or one of the bytes that may stand behind a value in a container, ends a number. */
  lemma TailEndsNumber(b: bytes, i: nat, ws: bytes)
    requires At(b, i, ws) && IsWS(ws) && i + |ws| < |b|
    requires b[i + |ws|] == COMMA || b[i + |ws|] == RBRACE || b[i + |ws|] == RBRACKET
    ensures NumberEnds(b, i)
    ensures SkipWS(b, i) == i + |ws|
  {
    SkipWSAt(b, i, ws);
    if ws != [] {
      AtByte(b, i, ws, 0);
      assert IsSpace(ws[0]);
    }
  }

  lemma KeyAt(b: bytes, i: nat, ms: Members)
    requires At(b, i, MemberHead(ms)) && ValidMembers(ms)
    requires var e := i + |MemberHead(ms)|; e < |b| && !IsSpace(b[e])
    ensures var k := ReadKey(b, SkipWS(b, i));
            && k.Some? && k.value.0 == CharsText(ms.key)
            && var c := SkipWS(b, k.value.1);
               c < |b| && b[c] == COLON && SkipWS(b, c + 1) == i + |MemberHead(ms)|
  {
    hide At, StringEnd, SkipWS, StringText, CharsText, IsWS, ValidString, ValidValue;
    AtSplit(b, i, ms.pre, StringText(ms.key) + (ms.mid + ([COLON] + ms.post)));
    var i1 := i + |ms.pre|;
    AtSplit(b, i1, StringText(ms.key), ms.mid + ([COLON] + ms.post));
    var i2 := i1 + |StringText(ms.key)|;
    AtSplit(b, i2, ms.mid, [COLON] + ms.post);
    var i3 := i2 + |ms.mid|;
    AtSplit(b, i3, [COLON], ms.post);
    AtByte(b, i3, [COLON], 0);
    StringAt(b, i1, ms.key);
    SkipWSAt(b, i, ms.pre);
    SkipWSAt(b, i2, ms.mid);
    SkipWSAt(b, i3 + 1, ms.post);
  }

  lemma MemberAt(b: bytes, i: nat, ms: Members, pj: Fields)
    requires ValidMembers(ms) && At(b, i, MemberHead(ms) + (Text(ms.v) + ms.tail))
    requires var e := i + |MemberHead(ms)| + |Text(ms.v)| + |ms.tail|; e < |b| && (b[e] == COMMA || b[e] == RBRACE)
    ensures ScanMember(b, i, pj) ==
            if AcceptableMember(ms) then Some((Apply(pj, ms), i + |MemberHead(ms)| + |Text(ms.v)| + |ms.tail|)) else None
  {
    hide At, Text, MemberHead, ReadKey, ReadField, SkipWS, AcceptableMember, Apply;
    var i1 := i + |MemberHead(ms)|;
    AtSplit(b, i, MemberHead(ms), Text(ms.v) + ms.tail);
    AtSplit(b, i1, Text(ms.v), ms.tail);
    FirstByte(ms.v);
    AtByte(b, i1, Text(ms.v), 0);
    KeyAt(b, i, ms);
    TailEndsNumber(b, i1 + |Text(ms.v)|, ms.tail);
    ReadFieldAt(b, i1, ms, pj);
  }

  lemma {:induction false} MembersAt(b: bytes, i: nat, ms: Members, pj: Fields)
    requires ValidMembers(ms) && At(b, i, MembersText(ms))
    requires var e := i + |MembersText(ms)|; e < |b| && b[e] == RBRACE && SkipWS(b, e + 1) == |b|
    ensures ScanMembers(b, i, pj) == if Acceptable(ms) then Some(Gather(ms, pj)) else None
    decreases ms
  {
    hide At, Text, MemberHead, ScanMember, SkipWS, AcceptableMember, Apply;
    var one := MemberHead(ms) + (Text(ms.v) + ms.tail);
    if ms.MoreMembers? {
      var more := [COMMA] + MembersText(ms.rest);
      assert MembersText(ms) == one + more;
      AtSplit(b, i, one, more);
      var j := i + |one|;
      AtSplit(b, j, [COMMA], MembersText(ms.rest));
      AtByte(b, j, [COMMA], 0);
      MemberAt(b, i, ms, pj);
      if AcceptableMember(ms) {
        MembersAt(b, j + 1, ms.rest, Apply(pj, ms));
      }
    } else {
      assert MembersText(ms) == one;
      MemberAt(b, i, ms, pj);
    }
  }

  /** The members text starts with white space and a quote. */
  lemma MembersFirst(b: bytes, i: nat, ms: Members)
    requires ValidMembers(ms) && At(b, i, MembersText(ms))
    ensures SkipWS(b, i) == i + |ms.pre| && i + |ms.pre| < |b| && b[i + |ms.pre|] == QUOTE
  {
    hide At, Text;
    var more := if ms.MoreMembers? then [COMMA] + MembersText(ms.rest) else [];
    AtSplit(b, i, MemberHead(ms), Text(ms.v) + (ms.tail + more));
    AtSplit(b, i, ms.pre, StringText(ms.key) + (ms.mid + ([COLON] + ms.post)));
    AtSplit(b, i + |ms.pre|, StringText(ms.key), ms.mid + ([COLON] + ms.post));
    AtByte(b, i + |ms.pre|, StringText(ms.key), 0);
    SkipWSAt(b, i, ms.pre);
  }

  lemma {:induction false} SkipWSIdle(b: bytes, i: nat)
    ensures SkipWS(b, SkipWS(b, i)) == SkipWS(b, i)
  {
    var j := SkipWS(b, i);
  }

  lemma SkipTwice(b: bytes, i: nat, pj: Fields)
    ensures ScanMembers(b, SkipWS(b, i), pj) == ScanMembers(b, i, pj)
  {
    hide ScanMember, SkipWS;
    SkipTwiceMember(b, i, pj);
  }

  lemma SkipTwiceMember(b: bytes, i: nat, pj: Fields)
    ensures ScanMember(b, SkipWS(b, i), pj) == ScanMember(b, i, pj)
  {
    hide SkipWS, ReadKey, ReadField;
    SkipWSIdle(b, i);
  }

  lemma DocumentParts(d: Document)
    requires ValidDocument(d)
    ensures var b := DocumentText(d); var i := |d.before|;
            && At(b, i, Text(d.v)) && SkipWS(b, 0) == i && i < |b|
            && SkipWS(b, i + |Text(d.v)|) == |b|
  {
    hide Text;
    var b := DocumentText(d);
    var i := |d.before|;
    var j := i + |Text(d.v)|;
    assert At(b, 0, b);
    AtSplit(b, 0, d.before, Text(d.v) + d.after);
    AtSplit(b, i, Text(d.v), d.after);
    FirstByte(d.v);
    AtByte(b, i, Text(d.v), 0);
    SkipWSAt(b, 0, d.before);
    SkipWSAt(b, j, d.after);
  }

  /** The scanner on every JSON text of RFC 8259. It succeeds exactly on objects whose known fields hold null or a
      number in range, whatever the white space, key order, repetition and unknown values; and then each field holds
      its last number, a later null not erasing an earlier value. */
  lemma ScanPointOnGrammar(d: Document)
    requires ValidDocument(d)
    ensures ScanPoint(DocumentText(d)).Some? <==> d.v.EmptyObj? || (d.v.Obj? && Acceptable(d.v.members))
    ensures d.v.EmptyObj? ==> ScanPoint(DocumentText(d)) == Some(NO_FIELDS)
    ensures d.v.Obj? && Acceptable(d.v.members) ==>
              Holds(ScanPoint(DocumentText(d)).value, d.v.members, NO_FIELDS)
  {
    var b := DocumentText(d);
    var i := |d.before|;
    DocumentParts(d);
    FirstByte(d.v);
    AtByte(b, i, Text(d.v), 0);
    if d.v.EmptyObj? {
      BracketsAround(b, i, LBRACE, d.v.ws, RBRACE);
      SkipWSAt(b, i + 1, d.v.ws);
    } else if d.v.Obj? {
      ObjectAt(b, i, d.v.members);
      if Acceptable(d.v.members) {
        GatherHolds(d.v.members, NO_FIELDS);
      }
    }
  }

  lemma ObjectAt(b: bytes, i: nat, ms: Members)
    requires ValidMembers(ms) && At(b, i, Text(Obj(ms)))
    requires SkipWS(b, 0) == i && SkipWS(b, i + |Text(Obj(ms))|) == |b|
    ensures ScanPoint(b) == if Acceptable(ms) then Some(Gather(ms, NO_FIELDS)) else None
  {
    hide At, MembersText, ScanMembers, SkipWS, Gather, Acceptable;
    BracketsAround(b, i, LBRACE, MembersText(ms), RBRACE);
    MembersAt(b, i + 1, ms, NO_FIELDS);
    MembersFirst(b, i + 1, ms);
    SkipTwice(b, i + 1, NO_FIELDS);
  }

  // The scanner as the code runs it: one index moving forward, and a record filled in through its fields.

  /** The record the scanner writes into. */
  class PointJson {
    var ts: Option<int64>
    var lat: Option<Decimal>
    var lon: Option<Decimal>
    var battery: Option<Decimal>
    var ax: Option<Decimal>
    var ay: Option<Decimal>
    var az: Option<Decimal>

    function Contents(): Fields
      reads this
    {
      Fields(ts, lat, lon, battery, ax, ay, az)
    }

    constructor ()
      ensures Contents() == NO_FIELDS
    {
      ts, lat, lon, battery, ax, ay, az := None, None, None, None, None, None, None;
    }

    method StoreFloat(f: Field, v: Option<Decimal>)
      requires f != Ts
      modifies this
      ensures Contents() == SetFloat(old(Contents()), f, v)
    {
      match f {
        case Lat => lat := v;
        case Lon => lon := v;
        case Battery => battery := v;
        case Ax => ax := v;
        case Ay => ay := v;
        case Az => az := v;
      }
    }
  }

  method EqFoldASCII(s: bytes, lower: bytes) returns (same: bool)
    ensures same <==> Lower(s) == lower
  {
    if |s| != |lower| {
      return false;
    }
    var i := 0;
    while i < |s|
      invariant 0 <= i <= |s|
      invariant forall k | 0 <= k < i :: LowerByte(s[k]) == lower[k]
    {
      if LowerByte(s[i]) != lower[i] {
        assert Lower(s)[i] != lower[i];
        return false;
      }
      i := i + 1;
    }
    assert Lower(s) == lower;
    return true;
  }

  /** Looks the key up among the names of its length. */
  method FieldName(key: bytes) returns (f: Option<Field>)
    ensures f == FieldOf(key)
  {
    hide LowerByte;
    assert |Lower(key)| == |key|;
    var same: bool;
    if |key| == 2 {
      same := EqFoldASCII(key, TS_NAME);
      if same { return Some(Ts); }
      same := EqFoldASCII(key, AX_NAME);
      if same { return Some(Ax); }
      same := EqFoldASCII(key, AY_NAME);
      if same { return Some(Ay); }
      same := EqFoldASCII(key, AZ_NAME);
      if same { return Some(Az); }
    } else if |key| == 3 {
      same := EqFoldASCII(key, LAT_NAME);
      if same { return Some(Lat); }
      same := EqFoldASCII(key, LON_NAME);
      if same { return Some(Lon); }
    } else if |key| == 7 {
      same := EqFoldASCII(key, BATTERY_NAME);
      if same { return Some(Battery); }
    }
    return None;
  }

  method PassKey(b: bytes, i: nat) returns (key: bytes, ni: nat, ok: bool)
    ensures ok <==> ReadKey(b, i).Some?
    ensures ok ==> ReadKey(b, i) == Some((key, ni))
  {
    if i >= |b| || b[i] != QUOTE {
      return [], i, false;
    }
    var e;
    e, ok := PassString(b, i);
    if !ok {
      return [], e, false;
    }
    return b[i + 1..e - 1], e, true;
  }

  method PassInt(b: bytes, i: nat, dst: Option<int64>) returns (v: Option<int64>, ni: nat, ok: bool)
    ensures ok <==> ReadInt(b, i, dst).Some?
    ensures ok ==> ReadInt(b, i, dst) == Some((v, ni))
  {
    ni, ok := PassLiteral(b, i, NULL_TEXT);
    if ok {
      return dst, ni, true;
    }
    var lit;
    lit, ni, ok := ScanNumberLiteral(b, i);
    if !ok {
      return dst, i, false;
    }
    v := ParseInt(lit);
    ok := v.Some?;
  }

  method PassFloat(b: bytes, i: nat, dst: Option<Decimal>) returns (v: Option<Decimal>, ni: nat, ok: bool)
    ensures ok <==> ReadFloat(b, i, dst).Some?
    ensures ok ==> ReadFloat(b, i, dst) == Some((v, ni))
  {
    ni, ok := PassLiteral(b, i, NULL_TEXT);
    if ok {
      return dst, ni, true;
    }
    var lit;
    lit, ni, ok := ScanNumberLiteral(b, i);
    if !ok {
      return dst, i, false;
    }
    v := ParseFloat(lit);
    ok := v.Some?;
  }

  method PassField(b: bytes, i: nat, key: bytes, pj: PointJson) returns (ni: nat, ok: bool)
    modifies pj
    ensures ok <==> ReadField(b, i, key, old(pj.Contents())).Some?
    ensures ok ==> ReadField(b, i, key, old(pj.Contents())) == Some((pj.Contents(), ni))
    ensures !ok ==> pj.Contents() == old(pj.Contents())
  {
    hide ReadInt, ReadFloat, ValueEnd, FieldOf;
    var f := FieldName(key);
    if f.None? {
      ni, ok := PassValue(b, i);
    } else if f.value == Ts {
      var v;
      v, ni, ok := PassInt(b, i, pj.ts);
      if ok {
        pj.ts := v;
      }
    } else {
      var v;
      v, ni, ok := PassFloat(b, i, GetFloat(pj.Contents(), f.value));
      if ok {
        pj.StoreFloat(f.value, v);
      }
    }
  }

  /** One turn of the member loop. */
  method PassMember(b: bytes, start: nat, pj: PointJson) returns (i: nat, ok: bool)
    modifies pj
    ensures ok <==> ScanMember(b, start, old(pj.Contents())).Some?
    ensures ok ==> ScanMember(b, start, old(pj.Contents())) == Some((pj.Contents(), i))
  {
    hide ReadKey, ReadField, SkipWS;
    i := PassSpace(b, start);
    var key;
    key, i, ok := PassKey(b, i);
    if !ok {
      return;
    }
    i := PassSpace(b, i);
    if i >= |b| || b[i] != COLON {
      return i, false;
    }
    i := PassSpace(b, i + 1);
    i, ok := PassField(b, i, key, pj);
    if !ok {
      return;
    }
    i := PassSpace(b, i);
    if i >= |b| {
      return i, false;
    }
  }

  method ScanPointJSON(b: bytes) returns (pj: PointJson, ok: bool)
    ensures fresh(pj)
    ensures ok <==> ScanPoint(b).Some?
    ensures ok ==> ScanPoint(b) == Some(pj.Contents())
  {
    hide SkipWS, ScanMember;
    pj := new PointJson();
    var i := PassSpace(b, 0);
    if i >= |b| || b[i] != LBRACE {
      return pj, false;
    }
    i := PassSpace(b, i + 1);
    if i < |b| && b[i] == RBRACE {
      i := PassSpace(b, i + 1);
      return pj, i == |b|;
    }
    while true
      invariant ScanMembers(b, i, pj.Contents()) == ScanPoint(b)
      decreases |b| - i
    {
      i, ok := PassMember(b, i, pj);
      if !ok {
        return;
      }
      if b[i] == COMMA {
        i := i + 1;
      } else if b[i] == RBRACE {
        i := PassSpace(b, i + 1);
        return pj, i == |b|;
      } else {
        return pj, false;
      }
    }
  }
}
