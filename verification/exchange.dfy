/** One connection over its whole life, as bytes (internal/store/redis.go, roundtrip and readPoints): commands written and
    sent in pieces, the server parsing and answering them, replies arriving in pieces and being read. */
module Exchanges {
  import opened Bytes
  import opened Strconv
  import opened Resp
  import opened RespFast
  import opened RespReader
  import opened RespPrefix

  /** What a caller gets for one command, from the generic reader or from the reader of fixed-size members. */
  datatype Got = Generic(v: Value) | Fixed(ms: seq<bytes>)

  /** Reading the next reply; `size` selects the reader. */
  function Listen(size: Option<nat>, d: bytes, p: nat): (o: Outcome<Got>)
    requires p <= |d|
    ensures p <= o.pos <= |d|
  {
    match size
    case None =>
      var o := ReadReply(d, p);
      Outcome(if o.r.Ok? then Ok(Generic(o.r.value)) else Err(o.r.error), o.pos)
    case Some(n) =>
      var o := FixedArray(d, p, n);
      Outcome(if o.r.Ok? then Ok(Fixed(o.r.value)) else Err(o.r.error), o.pos)
  }

  /** What a reply says to its reader; None for a reply that makes the call fail. */
  function Says(size: Option<nat>, w: Wire): Option<Got> {
    match size
    case None => if Meaning(w).Ok? then Some(Generic(Meaning(w).value)) else None
    case Some(n) =>
      if w.WNullArray? then Some(Fixed([]))
      else if w.WArray? && AllSized(w.ws, n) then Some(Fixed(Bodies(w.ws)))
      else None
  }

  lemma ListenEncoded(size: Option<nat>, d: bytes, p: nat, w: Wire)
    requires At(d, p, Encode(w)) && WellFormed(w)
    ensures p <= |d|
    ensures Listen(size, d, p).r.Ok? <==> Says(size, w).Some?
    ensures Says(size, w).Some? ==> Listen(size, d, p) == Outcome(Ok(Says(size, w).value), p + |Encode(w)|)
  {
    hide At, Encode, WellFormed, ReadReply, FixedArray, Meaning;
    if size.None? {
      ReadEncoded(d, p, w);
    } else {
      FixedEncoded(d, p, w, size.value);
    }
  }

  lemma ListenPrefix(size: Option<nat>, d: bytes, n: nat, p: nat)
    requires p <= n <= |d| && Listen(size, d[..n], p).r.Ok?
    ensures Listen(size, d, p) == Listen(size, d[..n], p)
  {
    hide ReadReply, FixedArray;
    if size.None? {
      ReadReplyPrefix(d, n, p);
    } else {
      FixedArrayPrefix(d, n, p, size.value);
    }
  }

  predicate AllBulk(vs: seq<Value>) {
    forall k | 0 <= k < |vs| :: vs[k].Bulk?
  }

  function Texts(vs: seq<Value>): seq<bytes>
    requires AllBulk(vs)
  {
    seq(|vs|, k requires 0 <= k < |vs| => vs[k].b)
  }

  /** The server's side: the next whole command of what has reached it. */
  function Parse(d: bytes, p: nat): Option<(seq<bytes>, nat)>
    requires p <= |d|
  {
    var o := ReadReply(d, p);
    if o.r.Ok? && o.r.value.Array? && AllBulk(o.r.value.vs) then Some((Texts(o.r.value.vs), o.pos)) else None
  }

  lemma {:induction false} PipelineAppend(a: seq<seq<bytes>>, b: seq<seq<bytes>>)
    ensures Pipeline(a + b) == Pipeline(a) + Pipeline(b)
    decreases |a|
  {
    hide Encode, Command;
    if a == [] {
      assert a + b == b;
    } else {
      assert (a + b)[1..] == a[1..] + b;
      PipelineAppend(a[1..], b);
    }
  }

  lemma PipelineOne(args: seq<bytes>)
    ensures Pipeline([args]) == Encode(Command(args))
  {
    hide Encode, Command;
    assert Pipeline([args][1..]) == [];
  }

  lemma PipelineSplit(cmds: seq<seq<bytes>>, k: nat)
    requires k < |cmds|
    ensures Pipeline(cmds[..k + 1]) == Pipeline(cmds[..k]) + Encode(Command(cmds[k]))
    ensures Pipeline(cmds) == Pipeline(cmds[..k]) + Encode(Command(cmds[k])) + Pipeline(cmds[k + 1..])
  {
    hide Encode, Command, Pipeline;
    var a, one, b := cmds[..k], [cmds[k]], cmds[k + 1..];
    Reassemble(cmds, k);
    PipelineAppend(a, one);
    PipelineOne(cmds[k]);
    PipelineAppend(cmds[..k + 1], b);
  }

  lemma Reassemble(cmds: seq<seq<bytes>>, k: nat)
    requires k < |cmds|
    ensures cmds[..k] + [cmds[k]] == cmds[..k + 1] && cmds[..k + 1] + cmds[k + 1..] == cmds
  {
  }

  lemma TextsOfBulks(args: seq<bytes>)
    ensures AllBulk(Bulks(args)) && Texts(Bulks(args)) == args
  {
  }

  /** However the command stream is cut, the server finds exactly the next command, or waits. */
  lemma ParseFinds(cmds: seq<seq<bytes>>, k: nat, n: nat)
    requires AllSendable(cmds) && k <= |cmds| && |Pipeline(cmds[..k])| <= n <= |Pipeline(cmds)|
    requires Parse(Pipeline(cmds)[..n], |Pipeline(cmds[..k])|).Some?
    ensures k < |cmds| && |Pipeline(cmds[..k + 1])| <= n
    ensures Parse(Pipeline(cmds)[..n], |Pipeline(cmds[..k])|) == Some((cmds[k], |Pipeline(cmds[..k + 1])|))
  {
    hide Encode, Command, Pipeline, ReadReply, Bulks;
    var d := Pipeline(cmds);
    var p := |Pipeline(cmds[..k])|;
    ReadReplyPrefix(d, n, p);
    if k == |cmds| {
      assert cmds[..k] == cmds;
      NothingLeft(d);
    } else {
      PipelineSplit(cmds, k);
      var e := Encode(Command(cmds[k]));
      AtWhole(d, Pipeline(cmds[..k]), e, Pipeline(cmds[k + 1..]));
      CommandMeans(cmds[k]);
      ReadEncoded(d, p, Command(cmds[k]));
      TextsOfBulks(cmds[k]);
    }
  }

  lemma NothingLeft(d: bytes)
    ensures ReadReply(d, |d|) == Outcome(Err(Eof), |d|)
  {
  }

  lemma CommandMeans(args: seq<bytes>)
    requires Sendable(args)
    ensures WellFormed(Command(args)) && Meaning(Command(args)) == Ok(Array(Bulks(args)))
  {
    BulkWiresMean(args);
  }

  datatype Exchange = Exchange(args: seq<bytes>, reply: Wire)

  /** A connection over its whole life: the commands written to it, the bytes its writer accepted and how many of them
      were sent, how many the server has parsed, what it executed and answered, the bytes it sent back, how many of them
      arrived, where the reader stands, and how many replies were read. */
  datatype Conn = Conn(asked: seq<seq<bytes>>, out: bytes, sent: nat, parsed: nat, served: seq<Exchange>,
                       back: bytes, arrived: nat, pos: nat, heard: nat)

  const NEW_CONN := Conn([], [], 0, 0, [], [], 0, 0, 0)

  function Replies(served: seq<Exchange>): (ws: seq<Wire>)
    ensures |ws| == |served|
  {
    seq(|served|, k requires 0 <= k < |served| => served[k].reply)
  }

  ghost predicate ServedInOrder(c: Conn) {
    && |c.served| <= |c.asked|
    && forall k | 0 <= k < |c.served| :: c.served[k].args == c.asked[k] && WellFormed(c.served[k].reply)
  }

  ghost predicate ConnOk(c: Conn) {
    && AllSendable(c.asked) && c.out == Pipeline(c.asked)
    && ServedInOrder(c) && c.parsed == |Pipeline(c.asked[..|c.served|])| <= c.sent <= |c.out|
    && c.heard <= |c.served|
    && c.back == EncodeAll(Replies(c.served)) && c.pos == |EncodeAll(Replies(c.served[..c.heard]))| <= c.arrived <= |c.back|
  }

  /** Everything sent, everything answered, every answer read. */
  ghost predicate Settled(c: Conn) {
    c.sent == |c.out| && |c.served| == |c.asked| && c.heard == |c.served|
  }

  /** On a settled connection there is no unsent byte, no command the server has still to parse and no unread byte. */
  lemma SettledIsClean(c: Conn)
    requires ConnOk(c) && Settled(c)
    ensures c.sent == |c.out| == c.parsed && c.pos == c.arrived == |c.back|
  {
    hide Pipeline, EncodeAll;
    assert c.asked[..|c.served|] == c.asked && c.served[..c.heard] == c.served;
  }

  function Written(c: Conn, args: seq<bytes>, n: nat): Conn {
    c.(asked := c.asked + [args], out := c.out + Encode(Command(args)), sent := n)
  }

  lemma WrittenOk(c: Conn, args: seq<bytes>, n: nat)
    requires ConnOk(c) && Sendable(args) && c.sent <= n <= |c.out| + |Encode(Command(args))|
    ensures ConnOk(Written(c, args, n))
  {
    hide Pipeline, EncodeAll, Encode, Command, WellFormed;
    PipelineAppend(c.asked, [args]);
    PipelineOne(args);
    assert (c.asked + [args])[..|c.served|] == c.asked[..|c.served|];
  }

  function Answered(c: Conn, args: seq<bytes>, parsed: nat, w: Wire): Conn {
    c.(parsed := parsed, served := c.served + [Exchange(args, w)], back := c.back + Encode(w))
  }

  lemma AnsweredOk(c: Conn, w: Wire)
    requires ConnOk(c) && WellFormed(w) && c.parsed <= |c.out[..c.sent]| && Parse(c.out[..c.sent], c.parsed).Some?
    ensures var p := Parse(c.out[..c.sent], c.parsed).value;
            && |c.served| < |c.asked| && p.0 == c.asked[|c.served|] && ConnOk(Answered(c, p.0, p.1, w))
  {
    hide Pipeline, EncodeAll, Encode, Parse, WellFormed;
    ParseFinds(c.asked, |c.served|, c.sent);
    var p := Parse(c.out[..c.sent], c.parsed).value;
    var c' := Answered(c, p.0, p.1, w);
    assert Replies(c'.served) == Replies(c.served) + [w];
    EncodeAllSnoc(Replies(c.served), w);
    assert c'.served[..c.heard] == c.served[..c.heard];
  }

  function Read(c: Conn, pos: nat): Conn {
    c.(pos := pos, heard := c.heard + 1)
  }

  lemma {:induction false} EncodeAllAppend(a: seq<Wire>, b: seq<Wire>)
    ensures EncodeAll(a + b) == EncodeAll(a) + EncodeAll(b)
    decreases |b|
  {
    hide Encode, EncodeAll;
    if b == [] {
      AllNonEmpty(b);
      assert a + b == a;
    } else {
      var k := |b| - 1;
      EncodeAllAppend(a, b[..k]);
      EncodeAllSnoc(a + b[..k], b[k]);
      EncodeAllSnoc(b[..k], b[k]);
      assert b[..k] + [b[k]] == b && (a + b[..k]) + [b[k]] == a + b;
    }
  }

  lemma ReplyAt(served: seq<Exchange>, k: nat)
    requires k < |served|
    ensures var p := |EncodeAll(Replies(served[..k]))|;
            && At(EncodeAll(Replies(served)), p, Encode(served[k].reply))
            && |EncodeAll(Replies(served[..k + 1]))| == p + |Encode(served[k].reply)|
  {
    hide Encode, EncodeAll, At;
    var a, w, b := Replies(served[..k]), served[k].reply, Replies(served[k + 1..]);
    EncodeAllSnoc(a, w);
    EncodeAllAppend(a + [w], b);
    assert Replies(served[..k + 1]) == a + [w] && Replies(served) == (a + [w]) + b;
    AtWhole(EncodeAll(Replies(served)), EncodeAll(a), Encode(w), EncodeAll(b));
  }

  /** The heart of it: what a reader makes of the arrived bytes is what the server's next reply says, and the reader
      then stands exactly behind that reply. */
  lemma ReadOk(c: Conn, size: Option<nat>)
    requires ConnOk(c) && Listen(size, c.back[..c.arrived], c.pos).r.Ok?
    ensures var o := Listen(size, c.back[..c.arrived], c.pos);
            && c.heard < |c.served| && Says(size, c.served[c.heard].reply) == Some(o.r.value) && ConnOk(Read(c, o.pos))
  {
    hide Pipeline, EncodeAll, Encode, Listen, Says, At, WellFormed;
    ListenPrefix(size, c.back, c.arrived, c.pos);
    if c.heard == |c.served| {
      assert c.served[..c.heard] == c.served;
      NothingToHear(size, c.back);
    } else {
      ReplyAt(c.served, c.heard);
      ListenEncoded(size, c.back, c.pos, c.served[c.heard].reply);
      PrefixFits(c.back, c.arrived, c.pos, size);
    }
  }

  lemma NothingToHear(size: Option<nat>, d: bytes)
    ensures Listen(size, d, |d|).r == Err(Eof)
  {
  }

  lemma PrefixFits(d: bytes, n: nat, p: nat, size: Option<nat>)
    requires p <= n <= |d|
    ensures Listen(size, d[..n], p).pos <= n
  {
    hide ReadReply, FixedArray;
  }
}
