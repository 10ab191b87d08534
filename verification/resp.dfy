/** The RESP2 codec (internal/resp/resp.go). The reader functions give result and position for every input, errors
    included; the class below them is the buffered reader the code consumes. */
module Resp {
  import opened Bytes
  import opened Strconv

  datatype Fault = Eof | Malformed | ErrorReply(msg: bytes)
  datatype Value = Simple(s: bytes) | Int(v: int64) | Bulk(b: bytes) | Nil | Array(vs: seq<Value>)
  datatype Outcome<+T> = Outcome(r: Result<T, Fault>, pos: nat)

  // What the server sends, and what a client sends: an array of bulk strings.

  datatype Wire =
    | WSimple(s: bytes)
    | WError(s: bytes)
    | WInt(v: int64)
    | WBulk(b: bytes)
    | WNullBulk
    | WNullArray
    | WArray(ws: seq<Wire>)

  function Line(prefix: byte, s: bytes): bytes {
    [prefix] + (s + CRLF)
  }

  function Encode(w: Wire): bytes
    decreases w, 1
  {
    match w
    case WSimple(s) => Line(PLUS, s)
    case WError(s) => Line(MINUS, s)
    case WInt(v) => Line(COLON, FormatInt(v))
    case WBulk(b) => Line(DOLLAR, FormatInt(|b|)) + (b + CRLF)
    case WNullBulk => Line(DOLLAR, FormatInt(-1))
    case WNullArray => Line(STAR, FormatInt(-1))
    case WArray(ws) => Line(STAR, FormatInt(|ws|)) + EncodeAll(ws)
  }

  function EncodeAll(ws: seq<Wire>): bytes
    decreases ws, 0
  {
    if ws == [] then [] else Encode(ws[0]) + EncodeAll(ws[1..])
  }

  predicate NoBreak(s: bytes) {
    forall k | 0 <= k < |s| :: s[k] != CR && s[k] != LF
  }

  predicate WellFormed(w: Wire)
    decreases w, 1
  {
    match w
    case WSimple(s) => NoBreak(s)
    case WError(s) => NoBreak(s)
    case WInt(v) => true
    case WBulk(b) => FitsInt64(|b|)
    case WNullBulk => true
    case WNullArray => true
    case WArray(ws) => FitsInt64(|ws|) && AllWellFormed(ws)
  }

  predicate AllWellFormed(ws: seq<Wire>)
    decreases ws, 0
  {
    ws == [] || (WellFormed(ws[0]) && AllWellFormed(ws[1..]))
  }

  /** What a reply means to the client: its value, or the first error met while reading it in order. */
  function Meaning(w: Wire): Result<Value, Fault>
    decreases w, 1
  {
    match w
    case WSimple(s) => Ok(Simple(s))
    case WError(s) => Err(ErrorReply(s))
    case WInt(v) => Ok(Int(v))
    case WBulk(b) => Ok(Bulk(b))
    case WNullBulk => Ok(Nil)
    case WNullArray => Ok(Nil)
    case WArray(ws) =>
      match MeaningAll(ws)
      case Ok(vs) => Ok(Array(vs))
      case Err(e) => Err(e)
  }

  function MeaningAll(ws: seq<Wire>): Result<seq<Value>, Fault>
    decreases ws, 0
  {
    if ws == [] then Ok([]) else
      match Meaning(ws[0])
      case Err(e) => Err(e)
      case Ok(v) =>
        match MeaningAll(ws[1..])
        case Err(e) => Err(e)
        case Ok(vs) => Ok([v] + vs)
  }

  // The generic reader.

  function LineFeed(d: bytes, p: nat): (j: nat)
    ensures p <= |d| ==> p <= j <= |d|
    ensures p <= |d| ==> forall k | p <= k < j :: d[k] != LF
    ensures j < |d| ==> d[j] == LF
    decreases |d| - p
  {
    if p >= |d| || d[p] == LF then p else LineFeed(d, p + 1)
  }

  function ReadLine(d: bytes, p: nat): (o: Outcome<bytes>)
    requires p <= |d|
    ensures p <= o.pos <= |d| && (o.r.Ok? ==> p < o.pos)
  {
    var j := LineFeed(d, p);
    if j == |d| then Outcome(Err(Eof), |d|)
    else if j == p || d[j - 1] != CR then Outcome(Err(Malformed), j + 1)
    else Outcome(Ok(d[p..j - 1]), j + 1)
  }

  function ReadBulk(d: bytes, p: nat, line: bytes): (o: Outcome<Value>)
    requires p <= |d|
    ensures p <= o.pos <= |d|
  {
    var n := ParseInt(line);
    if n.None? then Outcome(Err(Malformed), p)
    else if n.value < 0 then Outcome(Ok(Nil), p)
    else if p + n.value + 2 > |d| then Outcome(Err(Eof), |d|)
    else Outcome(Ok(Bulk(d[p..p + n.value])), p + n.value + 2)
  }

  function ReadReply(d: bytes, p: nat): (o: Outcome<Value>)
    requires p <= |d|
    ensures p <= o.pos <= |d| && (o.r.Ok? ==> p < o.pos)
    decreases |d| - p, 0, 0
  {
    if p == |d| then Outcome(Err(Eof), p) else
      var line := ReadLine(d, p + 1);
      if line.r.Err? then Outcome(Err(line.r.error), line.pos)
      else if d[p] == PLUS then Outcome(Ok(Simple(line.r.value)), line.pos)
      else if d[p] == MINUS then Outcome(Err(ErrorReply(line.r.value)), line.pos)
      else if d[p] == COLON then
        var v := ParseInt(line.r.value);
        Outcome(if v.None? then Err(Malformed) else Ok(Int(v.value)), line.pos)
      else if d[p] == DOLLAR then ReadBulk(d, line.pos, line.r.value)
      else if d[p] == STAR then ReadArray(d, line.pos, line.r.value)
      else Outcome(Err(Malformed), line.pos)
  }

  function ReadArray(d: bytes, p: nat, line: bytes): (o: Outcome<Value>)
    requires p <= |d|
    ensures p <= o.pos <= |d|
    decreases |d| - p, 2, 0
  {
    var n := ParseInt(line);
    if n.None? then Outcome(Err(Malformed), p)
    else if n.value < 0 then Outcome(Ok(Nil), p)
    else
      var o := ReadMany(d, p, n.value);
      Outcome(if o.r.Ok? then Ok(Array(o.r.value)) else Err(o.r.error), o.pos)
  }

  function ReadMany(d: bytes, p: nat, n: nat): (o: Outcome<seq<Value>>)
    requires p <= |d|
    ensures p <= o.pos <= |d|
    decreases |d| - p, 1, n
  {
    if n == 0 then Outcome(Ok([]), p) else
      var v := ReadReply(d, p);
      if v.r.Err? then Outcome(Err(v.r.error), v.pos) else
        var rest := ReadMany(d, v.pos, n - 1);
        Outcome(if rest.r.Ok? then Ok([v.r.value] + rest.r.value) else Err(rest.r.error), rest.pos)
  }

  // The fast reader for arrays of members of one size.

  /** parseIntLine from the middle of a line: what the 64-bit accumulator holds, and what was seen so far. */
  function IntLineFrom(d: bytes, p: nat, acc: int64, neg: bool, seen: bool): (o: Outcome<int64>)
    requires p <= |d|
    ensures p <= o.pos <= |d| && (o.r.Ok? ==> p + 2 <= o.pos)
    decreases |d| - p
  {
    if p == |d| then Outcome(Err(Eof), p)
    else if d[p] == CR then
      if p + 1 == |d| then Outcome(Err(Eof), p + 1)
      else if d[p + 1] != LF || !seen then Outcome(Err(Malformed), p + 2)
      else Outcome(Ok(if neg then Wrap64(-(acc as int)) else acc), p + 2)
    else if d[p] == MINUS && !seen && !neg then IntLineFrom(d, p + 1, acc, true, seen)
    else if IsDigit(d[p]) then IntLineFrom(d, p + 1, Wrap64(10 * acc + (d[p] - ZERO)), neg, true)
    else Outcome(Err(Malformed), p + 1)
  }

  function IntLine(d: bytes, p: nat): (o: Outcome<int64>)
    requires p <= |d|
    ensures p <= o.pos <= |d| && (o.r.Ok? ==> p + 2 <= o.pos)
  {
    IntLineFrom(d, p, 0, false, false)
  }

  function FixedMember(d: bytes, p: nat, size: nat): (o: Outcome<bytes>)
    requires p <= |d|
    ensures p <= o.pos <= |d| && (o.r.Ok? ==> |o.r.value| == size && p + size + 4 < o.pos)
  {
    if p == |d| then Outcome(Err(Eof), p)
    else if d[p] != DOLLAR then Outcome(Err(Malformed), p + 1)
    else
      var n := IntLine(d, p + 1);
      if n.r.Err? then Outcome(Err(n.r.error), n.pos)
      else if n.r.value != size then Outcome(Err(Malformed), n.pos)
      else if n.pos + size > |d| then Outcome(Err(Eof), |d|)
      else if n.pos + size + 2 > |d| then Outcome(Err(Eof), |d|)
      else Outcome(Ok(d[n.pos..n.pos + size]), n.pos + size + 2)
  }

  function FixedMembers(d: bytes, p: nat, size: nat, n: nat): (o: Outcome<seq<bytes>>)
    requires p <= |d|
    ensures p <= o.pos <= |d|
    ensures o.r.Ok? ==> |o.r.value| == n && forall k | 0 <= k < n :: |o.r.value[k]| == size
    decreases n
  {
    if n == 0 then Outcome(Ok([]), p) else
      var m := FixedMember(d, p, size);
      if m.r.Err? then Outcome(Err(m.r.error), m.pos) else
        var rest := FixedMembers(d, m.pos, size, n - 1);
        Outcome(if rest.r.Ok? then Ok([m.r.value] + rest.r.value) else Err(rest.r.error), rest.pos)
  }

  function FixedArray(d: bytes, p: nat, size: nat): (o: Outcome<seq<bytes>>)
    requires p <= |d|
    ensures p <= o.pos <= |d|
    ensures o.r.Ok? ==> forall k | 0 <= k < |o.r.value| :: |o.r.value[k]| == size
  {
    if p == |d| then Outcome(Err(Eof), p)
    else if d[p] == MINUS then
      var line := ReadLine(d, p + 1);
      Outcome(Err(if line.r.Err? then line.r.error else ErrorReply(line.r.value)), line.pos)
    else if d[p] != STAR then Outcome(Err(Malformed), p + 1)
    else
      var n := IntLine(d, p + 1);
      if n.r.Err? then Outcome(Err(n.r.error), n.pos)
      else if n.r.value <= 0 then Outcome(Ok([]), n.pos)
      else FixedMembers(d, n.pos, size, n.r.value)
  }

  /** Members laid end to end, as the backing buffer holds them. */
  function Concat(ms: seq<bytes>): bytes {
    if ms == [] then [] else ms[0] + Concat(ms[1..])
  }

  // Round trip.

  lemma {:induction false} LineFeedAt(d: bytes, p: nat, s: bytes)
    requires At(d, p, s + CRLF) && forall k | 0 <= k < |s| :: s[k] != LF
    ensures LineFeed(d, p) == p + |s| + 1
    decreases |s|
  {
    AtByte(d, p, s + CRLF, 0);
    if s == [] {
      AtByte(d, p, s + CRLF, 1);
      assert LineFeed(d, p) == LineFeed(d, p + 1);
    } else {
      assert s + CRLF == [s[0]] + (s[1..] + CRLF);
      AtSplit(d, p, [s[0]], s[1..] + CRLF);
      LineFeedAt(d, p + 1, s[1..]);
    }
  }

  lemma ReadLineAt(d: bytes, p: nat, s: bytes)
    requires At(d, p, s + CRLF) && forall k | 0 <= k < |s| :: s[k] != LF
    ensures p <= |d| && ReadLine(d, p) == Outcome(Ok(s), p + |s| + 2)
  {
    LineFeedAt(d, p, s);
    AtSplit(d, p, s, CRLF);
    AtByte(d, p + |s|, CRLF, 0);
    AtByte(d, p + |s|, CRLF, 1);
  }

  lemma LineAt(d: bytes, p: nat, prefix: byte, s: bytes)
    requires At(d, p, Line(prefix, s)) && NoBreak(s)
    ensures p < |d| && d[p] == prefix
    ensures ReadLine(d, p + 1) == Outcome(Ok(s), p + |Line(prefix, s)|)
  {
    AtSplit(d, p, [prefix], s + CRLF);
    AtByte(d, p, [prefix], 0);
    ReadLineAt(d, p + 1, s);
  }

  lemma NumberLine(v: int)
    ensures NoBreak(FormatInt(v))
  {
    FormatIntBytes(v);
  }

  /** Reading an encoded reply gives its meaning and, unless it holds an error, stops exactly behind it. */
  lemma {:induction false} ReadEncoded(d: bytes, p: nat, w: Wire)
    requires At(d, p, Encode(w)) && WellFormed(w)
    ensures p <= |d| && ReadReply(d, p).r == Meaning(w)
    ensures Meaning(w).Ok? ==> ReadReply(d, p).pos == p + |Encode(w)|
    decreases w, 1
  {
    hide At, Line, FormatInt, ParseInt, NoBreak, ReadLine, Encode, EncodeAll;
    match w {
      case WSimple(s) =>
        EncodeIs(w);
        LineAt(d, p, PLUS, s);
      case WError(s) =>
        EncodeIs(w);
        LineAt(d, p, MINUS, s);
      case WInt(v) =>
        EncodeIs(w);
        NumberLine(v);
        LineAt(d, p, COLON, FormatInt(v));
        ParseFormat(v);
      case WBulk(b) =>
        EncodeIs(w);
        HeadAt(d, p, DOLLAR, |b|, b + CRLF);
        BulkAt(d, p + |Line(DOLLAR, FormatInt(|b|))|, b);
      case WNullBulk =>
        EncodeIs(w);
        NumberLine(-1);
        LineAt(d, p, DOLLAR, FormatInt(-1));
        ParseFormat(-1);
      case WNullArray =>
        EncodeIs(w);
        NumberLine(-1);
        LineAt(d, p, STAR, FormatInt(-1));
        ParseFormat(-1);
      case WArray(ws) =>
        EncodeIs(w);
        HeadAt(d, p, STAR, |ws|, EncodeAll(ws));
        ReadEncodedAll(d, p + |Line(STAR, FormatInt(|ws|))|, ws);
    }
  }

  lemma EncodeIs(w: Wire)
    ensures w.WSimple? ==> Encode(w) == Line(PLUS, w.s)
    ensures w.WError? ==> Encode(w) == Line(MINUS, w.s)
    ensures w.WInt? ==> Encode(w) == Line(COLON, FormatInt(w.v))
    ensures w.WBulk? ==> Encode(w) == Line(DOLLAR, FormatInt(|w.b|)) + (w.b + CRLF)
    ensures w.WNullBulk? ==> Encode(w) == Line(DOLLAR, FormatInt(-1))
    ensures w.WNullArray? ==> Encode(w) == Line(STAR, FormatInt(-1))
    ensures w.WArray? ==> Encode(w) == Line(STAR, FormatInt(|w.ws|)) + EncodeAll(w.ws)
  {
  }

  lemma HeadAt(d: bytes, p: nat, prefix: byte, n: nat, rest: bytes)
    requires At(d, p, Line(prefix, FormatInt(n)) + rest) && FitsInt64(n)
    ensures var q := p + |Line(prefix, FormatInt(n))|;
            && p < |d| && d[p] == prefix && At(d, q, rest) && q <= |d|
            && ReadLine(d, p + 1) == Outcome(Ok(FormatInt(n)), q) && ParseInt(FormatInt(n)) == Some(n)
  {
    hide Line, FormatInt, ParseInt, ReadLine;
    AtSplit(d, p, Line(prefix, FormatInt(n)), rest);
    NumberLine(n);
    LineAt(d, p, prefix, FormatInt(n));
    ParseFormat(n);
  }

  lemma BulkAt(d: bytes, q: nat, b: bytes)
    requires At(d, q, b + CRLF)
    ensures q + |b| + 2 <= |d| && d[q..q + |b|] == b
  {
    AtSplit(d, q, b, CRLF);
  }

  lemma {:induction false} ReadEncodedAll(d: bytes, p: nat, ws: seq<Wire>)
    requires At(d, p, EncodeAll(ws)) && AllWellFormed(ws)
    ensures p <= |d| && ReadMany(d, p, |ws|).r == MeaningAll(ws)
    ensures MeaningAll(ws).Ok? ==> ReadMany(d, p, |ws|).pos == p + |EncodeAll(ws)|
    decreases ws, 0
  {
    hide At, ReadReply, ReadMany, Encode, EncodeAll, Meaning, WellFormed, MeaningAll;
    AtInside(d, p, EncodeAll(ws));
    AllNonEmpty(ws);
    if ws == [] {
      ReadNone(d, p);
    } else {
      AtSplit(d, p, Encode(ws[0]), EncodeAll(ws[1..]));
      ReadEncoded(d, p, ws[0]);
      UnfoldMany(d, p, |ws|);
      UnfoldMeaning(ws);
      if Meaning(ws[0]).Ok? {
        ReadEncodedAll(d, p + |Encode(ws[0])|, ws[1..]);
      }
    }
  }

  lemma ReadNone(d: bytes, p: nat)
    requires p <= |d|
    ensures ReadMany(d, p, 0) == Outcome(Ok([]), p) && MeaningAll([]) == Ok([]) && EncodeAll([]) == []
  {
  }

  lemma AllNonEmpty(ws: seq<Wire>)
    ensures ws == [] ==> EncodeAll(ws) == []
    ensures ws != [] ==> EncodeAll(ws) == Encode(ws[0]) + EncodeAll(ws[1..])
  {
  }

  lemma UnfoldMany(d: bytes, p: nat, n: nat)
    requires p <= |d| && n > 0
    ensures var v := ReadReply(d, p);
            && (v.r.Err? ==> ReadMany(d, p, n).r == Err(v.r.error))
            && (v.r.Ok? ==> var rest := ReadMany(d, v.pos, n - 1);
                  && ReadMany(d, p, n).pos == rest.pos
                  && ReadMany(d, p, n).r == if rest.r.Ok? then Ok([v.r.value] + rest.r.value) else Err(rest.r.error))
  {
    hide ReadReply;
  }

  lemma UnfoldMeaning(ws: seq<Wire>)
    requires ws != []
    ensures Meaning(ws[0]).Err? ==> MeaningAll(ws) == Err(Meaning(ws[0]).error)
    ensures Meaning(ws[0]).Ok? ==>
              var rest := MeaningAll(ws[1..]);
              MeaningAll(ws) == if rest.Ok? then Ok([Meaning(ws[0]).value] + rest.value) else Err(rest.error)
  {
    hide Meaning;
  }
}
