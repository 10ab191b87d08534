/** Exactly which bytes are a reply to the generic reader, and which reply (internal/resp/resp.go, ReadReply): RESP2 with the
    freedoms that the reader takes. */
module RespTexts {
  import opened Bytes
  import opened Strconv
  import opened Resp

  /** A reply without errors as it is spelled: numbers in any decimal spelling, and any two bytes behind a bulk string. */
  datatype Spelled =
    | SSimple(s: bytes)
    | SInt(l: bytes)
    | SBulk(l: bytes, b: bytes, x: byte, y: byte)
    | SNullBulk(l: bytes)
    | SNullArray(l: bytes)
    | SArray(l: bytes, es: seq<Spelled>)

  function LineText(mark: char, s: bytes): bytes
    requires mark as int < 256
  {
    [mark as int] + (s + ['\r' as int, '\n' as int])
  }

  function SpelledText(w: Spelled): (t: bytes)
    ensures t != []
    decreases w, 1
  {
    match w
    case SSimple(s) => LineText('+', s)
    case SInt(l) => LineText(':', l)
    case SBulk(l, b, x, y) => LineText('$', l) + (b + [x, y])
    case SNullBulk(l) => LineText('$', l)
    case SNullArray(l) => LineText('*', l)
    case SArray(l, es) => LineText('*', l) + SpelledTexts(es)
  }

  function SpelledTexts(ws: seq<Spelled>): bytes
    decreases ws, 0
  {
    if ws == [] then [] else SpelledText(ws[0]) + SpelledTexts(ws[1..])
  }

  predicate OneLine(s: bytes) {
    forall k | 0 <= k < |s| :: s[k] != '\n' as int
  }

  /** A line that spells a number that satisfies the reader's need. */
  predicate Counts(l: bytes, n: int) {
    OneLine(l) && FitsInt64(n) && ParseInt(l) == Some(n)
  }

  predicate Negative(l: bytes) {
    OneLine(l) && ParseInt(l).Some? && ParseInt(l).value < 0
  }

  predicate ValidSpelled(w: Spelled)
    decreases w, 1
  {
    match w
    case SSimple(s) => OneLine(s)
    case SInt(l) => OneLine(l) && ParseInt(l).Some?
    case SBulk(l, b, x, y) => Counts(l, |b|)
    case SNullBulk(l) => Negative(l)
    case SNullArray(l) => Negative(l)
    case SArray(l, es) => Counts(l, |es|) && AllSpelled(es)
  }

  predicate AllSpelled(ws: seq<Spelled>)
    decreases ws, 0
  {
    ws == [] || (ValidSpelled(ws[0]) && AllSpelled(ws[1..]))
  }

  /** What it says. */
  function SpelledValue(w: Spelled): Value
    requires ValidSpelled(w)
    decreases w, 1
  {
    match w
    case SSimple(s) => Simple(s)
    case SInt(l) => Int(ParseInt(l).value)
    case SBulk(l, b, x, y) => Bulk(b)
    case SNullBulk(l) => Nil
    case SNullArray(l) => Nil
    case SArray(l, es) => Array(SpelledValues(es))
  }

  function SpelledValues(ws: seq<Spelled>): (vs: seq<Value>)
    requires AllSpelled(ws)
    ensures |vs| == |ws|
    decreases ws, 0
  {
    if ws == [] then [] else [SpelledValue(ws[0])] + SpelledValues(ws[1..])
  }

  // Everything that is read is spelled so.

  lemma LineStands(d: bytes, p: nat, mark: char)
    requires p < |d| && mark as int < 256 && d[p] == mark as int && ReadLine(d, p + 1).r.Ok?
    ensures var o := ReadLine(d, p + 1);
            OneLine(o.r.value) && At(d, p, LineText(mark, o.r.value)) && o.pos == p + |LineText(mark, o.r.value)|
  {
    var s := ReadLine(d, p + 1).r.value;
    var j := LineFeed(d, p + 1);
    assert d[p..j + 1] == [d[p]] + (d[p + 1..j - 1] + [d[j - 1], d[j]]);
  }

  lemma {:induction false} ReplySpelled(d: bytes, p: nat) returns (w: Spelled)
    requires p <= |d| && ReadReply(d, p).r.Ok?
    ensures ValidSpelled(w) && SpelledValue(w) == ReadReply(d, p).r.value
    ensures At(d, p, SpelledText(w)) && ReadReply(d, p).pos == p + |SpelledText(w)|
    decreases |d| - p, 0, 0
  {
    hide ParseInt, ReadLine, At, OneLine;
    var line := ReadLine(d, p + 1);
    var l := line.r.value;
    if d[p] == PLUS {
      LineStands(d, p, '+');
      w := SSimple(l);
    } else if d[p] == COLON {
      LineStands(d, p, ':');
      w := SInt(l);
    } else if d[p] == DOLLAR {
      LineStands(d, p, '$');
      if ParseInt(l).value < 0 {
        w := SNullBulk(l);
      } else {
        var n := ParseInt(l).value;
        var q := line.pos;
        w := SBulk(l, d[q..q + n], d[q + n], d[q + n + 1]);
        BodyStands(d, q, n);
        AtSplit(d, p, LineText('$', l), w.b + [w.x, w.y]);
      }
    } else {
      LineStands(d, p, '*');
      if ParseInt(l).value < 0 {
        w := SNullArray(l);
      } else {
        var es := RepliesSpelled(d, line.pos, ParseInt(l).value);
        w := SArray(l, es);
        AtSplit(d, p, LineText('*', l), SpelledTexts(es));
      }
    }
  }

  lemma BodyStands(d: bytes, q: nat, n: nat)
    requires q + n + 2 <= |d|
    ensures At(d, q, d[q..q + n] + [d[q + n], d[q + n + 1]])
  {
    assert d[q..q + n + 2] == d[q..q + n] + [d[q + n], d[q + n + 1]];
  }

  lemma {:induction false} RepliesSpelled(d: bytes, p: nat, n: nat) returns (ws: seq<Spelled>)
    requires p <= |d| && ReadMany(d, p, n).r.Ok?
    ensures AllSpelled(ws) && |ws| == n && SpelledValues(ws) == ReadMany(d, p, n).r.value
    ensures At(d, p, SpelledTexts(ws)) && ReadMany(d, p, n).pos == p + |SpelledTexts(ws)|
    decreases |d| - p, 1, n
  {
    hide ReadReply, At, SpelledText, SpelledValue, ValidSpelled;
    if n == 0 {
      ws := [];
      NothingAt(d, p);
    } else {
      var w := ReplySpelled(d, p);
      var rest := RepliesSpelled(d, ReadReply(d, p).pos, n - 1);
      ws := [w] + rest;
      assert ws[1..] == rest;
      AtSplit(d, p, SpelledText(w), SpelledTexts(rest));
    }
  }

  lemma NothingAt(d: bytes, p: nat)
    requires p <= |d|
    ensures At(d, p, [])
  {
  }

  // Everything spelled so is read.

  lemma LineRead(d: bytes, p: nat, mark: char, s: bytes)
    requires mark as int < 256 && OneLine(s) && At(d, p, LineText(mark, s))
    ensures p < |d| && d[p] == mark as int && ReadLine(d, p + 1) == Outcome(Ok(s), p + |LineText(mark, s)|)
  {
    AtSplit(d, p, [mark as int], s + CRLF);
    AtByte(d, p, [mark as int], 0);
    ReadLineAt(d, p + 1, s);
  }

  lemma {:induction false} SpelledRead(d: bytes, p: nat, w: Spelled)
    requires ValidSpelled(w) && At(d, p, SpelledText(w))
    ensures p <= |d| && ReadReply(d, p) == Outcome(Ok(SpelledValue(w)), p + |SpelledText(w)|)
    decreases w, 1
  {
    hide ParseInt, ReadLine, At, OneLine, LineText, ReadMany;
    match w {
      case SSimple(s) => LineRead(d, p, '+', s);
      case SInt(l) => LineRead(d, p, ':', l);
      case SBulk(l, b, x, y) =>
        AtSplit(d, p, LineText('$', l), b + [x, y]);
        LineRead(d, p, '$', l);
        BodyRead(d, p + |LineText('$', l)|, b, x, y);
      case SNullBulk(l) => LineRead(d, p, '$', l);
      case SNullArray(l) => LineRead(d, p, '*', l);
      case SArray(l, es) =>
        AtSplit(d, p, LineText('*', l), SpelledTexts(es));
        LineRead(d, p, '*', l);
        SpelledReplies(d, p + |LineText('*', l)|, es);
    }
  }

  lemma BodyRead(d: bytes, q: nat, b: bytes, x: byte, y: byte)
    requires At(d, q, b + [x, y])
    ensures q + |b| + 2 <= |d| && d[q..q + |b|] == b
  {
    AtSplit(d, q, b, [x, y]);
    AtSlice(d, q, b);
  }

  lemma {:induction false} SpelledReplies(d: bytes, p: nat, ws: seq<Spelled>)
    requires AllSpelled(ws) && At(d, p, SpelledTexts(ws))
    ensures p <= |d| && ReadMany(d, p, |ws|) == Outcome(Ok(SpelledValues(ws)), p + |SpelledTexts(ws)|)
    decreases ws, 0
  {
    hide ReadReply, At, SpelledText, SpelledValue, ValidSpelled;
    AtInside(d, p, SpelledTexts(ws));
    if ws != [] {
      AtSplit(d, p, SpelledText(ws[0]), SpelledTexts(ws[1..]));
      SpelledRead(d, p, ws[0]);
      SpelledReplies(d, p + |SpelledText(ws[0])|, ws[1..]);
    }
  }

  ghost predicate Stands(d: bytes, p: nat, w: Spelled, v: Value, e: nat) {
    ValidSpelled(w) && At(d, p, SpelledText(w)) && SpelledValue(w) == v && e == p + |SpelledText(w)|
  }

  /** The generic reader accepts exactly the replies that are spelled so, with their values, and stops behind them; whatever
      else arrives is an error. */
  lemma ReplyExact(d: bytes, p: nat, v: Value, e: nat)
    requires p <= |d|
    ensures ReadReply(d, p) == Outcome(Ok(v), e) <==> exists w :: Stands(d, p, w, v, e)
  {
    hide ReadReply, At, SpelledText, SpelledValue, ValidSpelled;
    if ReadReply(d, p) == Outcome(Ok(v), e) {
      var w := ReplySpelled(d, p);
      assert Stands(d, p, w, v, e);
    }
    if exists w :: Stands(d, p, w, v, e) {
      var w :| Stands(d, p, w, v, e);
      SpelledRead(d, p, w);
    }
  }
}
