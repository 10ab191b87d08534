/** What a client reads in a range response (internal/httpapi/fastresp.go, appendRangeJSON), with a reader that only knows the
    grammar: the points, in order, and the cursor to go on with. */
module Responses {
  import opened Bytes
  import opened Json
  import opened Decimals
  import opened Points
  import opened Scanner
  import opened Printer
  import opened JsonParse
  import opened Paging
  import opened Spelling
  import Strconv
  import Cursors
  import Walks

  /** The keys of an object in order, as raw text, and its values. */
  function Keys(ms: Members): seq<bytes> {
    [CharsText(ms.key)] + if ms.MoreMembers? then Keys(ms.rest) else []
  }

  function Values(ms: Members): (vs: seq<Value>)
    ensures |vs| == |Keys(ms)|
  {
    [ms.v] + if ms.MoreMembers? then Values(ms.rest) else []
  }

  function ElementList(es: Elements): seq<Value> {
    [es.v] + if es.MoreElements? then ElementList(es.rest) else []
  }

  /** The items of an array. */
  function Items(v: Value): seq<Value>
    requires v.Arr? || v.EmptyArr?
  {
    if v.EmptyArr? then [] else ElementList(v.elems)
  }

  lemma {:induction false} ItemsOfPoints(pts: seq<Point<Decimal>>)
    requires pts != [] && AllContract(pts)
    ensures |ElementList(ElementsOf(pts))| == |pts|
    ensures forall k | 0 <= k < |pts| :: ElementList(ElementsOf(pts))[k] == PointValue(pts[k])
    decreases |pts|
  {
    hide PointValue, Contract;
    if |pts| > 1 {
      ItemsOfPoints(pts[1..]);
    }
  }

  /** A printed point names its fields in this order, the battery only when there is one. */
  lemma PrintedKeys(p: Point<Decimal>)
    requires Contract(p)
    ensures PointValue(p).Obj?
    ensures Keys(PointValue(p).members) ==
            Spelled(if p.hasBattery then [Ts, Lat, Lon, Battery, Ax, Ay, Az] else [Ts, Lat, Lon, Ax, Ay, Az])
  {
    hide Contract, Name, CharsText, Chars, Ascii, PrintedNumber, IntNumber;
    var es := Entries(p);
    var fs := if p.hasBattery then [Ts, Lat, Lon, Battery, Ax, Ay, Az] else [Ts, Lat, Lon, Ax, Ay, Az];
    KeysOfEntries(es);
    assert |es| == |fs| && forall k | 0 <= k < |fs| :: es[k].0 == fs[k];
    forall k | 0 <= k < |fs| ensures Name(es[k].0) == Ascii(LowerName(fs[k])) {
      NamesSpelled(fs[k]);
    }
  }

  /** The names of fields as the contract spells them. */
  function Spelled(fs: seq<Field>): seq<bytes> {
    seq(|fs|, k requires 0 <= k < |fs| => Ascii(LowerName(fs[k])))
  }

  lemma {:induction false} KeysOfEntries(es: seq<(Field, Json.Number)>)
    requires es != []
    ensures Keys(MembersOf(es)) == seq(|es|, k requires 0 <= k < |es| => Name(es[k].0))
    decreases |es|
  {
    hide Name, CharsText, Chars;
    CharsTextOf(Name(es[0].0));
    if |es| > 1 {
      KeysOfEntries(es[1..]);
    }
  }

  /** What the text of a response says to any reader of the grammar: an object of "points" and "next_cursor"; as many items as
      points, each of which is read back as its point; null if and only if there is no cursor, and otherwise a string that
      holds exactly the cursor. */
  lemma ResponseReadsBack(pts: seq<Point<Decimal>>, next: bytes)
    requires AllContract(pts) && NeedsNoEscape(next)
    ensures var text := Text(RangeValue(pts, next)); var r := ParseValue(text, 0);
            && r.Some? && r.value.1 == |text| && r.value.0.Obj?
            && var ms := r.value.0.members;
               && Keys(ms) == [Ascii("points"), Ascii("next_cursor")]
               && var points, cursor := Values(ms)[0], Values(ms)[1];
                  && (points.Arr? || points.EmptyArr?) && |Items(points)| == |pts|
                  && (forall k | 0 <= k < |pts| :: ParsePoint(Text(Items(points)[k])) == Some(pts[k]))
                  && (cursor.Null? <==> next == [])
                  && (next != [] ==> cursor.Str? && CharsText(cursor.s) == next)
  {
    hide ParseValue, Text, ParsePoint, Contract, PointValue, Chars, CharsText, NeedsNoEscape, Ascii, ValidValue;
    var v := RangeValue(pts, next);
    RangeIsValid(pts, next);
    WholeText(Text(v));
    ValueFound(Text(v), 0, v);
    Literals();
    CharsTextOf(POINTS_NAME);
    CharsTextOf(CURSOR_NAME);
    CharsTextOf(next);
    if pts != [] {
      ItemsOfPoints(pts);
    }
    var points := PointsValue(pts);
    forall k | 0 <= k < |pts| ensures ParsePoint(Text(Items(points)[k])) == Some(pts[k]) {
      PrintParse(pts[k]);
    }
    TwoMembers(v.members);
  }

  lemma TwoMembers(ms: Members)
    requires ms.MoreMembers? && ms.rest.LastMember?
    ensures Keys(ms) == [CharsText(ms.key), CharsText(ms.rest.key)] && Values(ms) == [ms.v, ms.rest.v]
  {
    hide CharsText;
  }

  lemma WholeText(t: bytes)
    ensures At(t, 0, t)
  {
  }

  /** The cursor of a page, read in its response and sent back, is the position behind the page. */
  lemma CursorComesBack(pts: seq<Point<Decimal>>, p: Page, from: Strconv.int64)
    requires AllContract(pts) && p.next.Some? && Strconv.FitsInt64(p.next.value.skip)
    ensures var next := Walks.NextCursor(p);
            && NeedsNoEscape(next) && next != []
            && var r := ParseValue(Text(RangeValue(pts, next)), 0);
               && r.Some? && r.value.0.Obj? && |Values(r.value.0.members)| == 2
               && var cursor := Values(r.value.0.members)[1];
                  cursor.Str? && Cursors.Decode(CharsText(cursor.s)) == p.next
                  && Walks.PositionOf(from, CharsText(cursor.s)) == p.next
  {
    hide ParseValue, Text, CharsText, Cursors.Decode, Cursors.Encode, AllContract, ParsePoint, RangeValue, Ascii;
    var next := Walks.NextCursor(p);
    Cursors.CursorText(p.next.value.ts, p.next.value.skip);
    Cursors.RoundTrip(p.next.value.ts, p.next.value.skip);
    ResponseReadsBack(pts, next);
  }
}
