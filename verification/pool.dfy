/** The connection pool as a protocol (internal/store/redis.go, get, put, do, Warm, readPoints, Close): callers,
    connections and the server take steps in any order. */
module PoolProtocol {
  import opened Bytes
  import opened Strconv
  import opened Resp
  import opened RespFast
  import opened RespReader
  import opened RespPrefix
  import opened Exchanges

  /** A caller at work holds a connection; `base` is the number of commands the connection had seen before. */
  datatype Caller =
    | Away
    | Busy(conn: nat, req: seq<seq<bytes>>, size: Option<nat>, base: nat, written: nat, flushed: bool, got: seq<Got>)

  datatype Answer = Answer(conn: nat, base: nat, req: seq<seq<bytes>>, size: Option<nat>, got: seq<Got>)

  /** `idle` is the pool channel, oldest connection first; `answers` are the calls that returned without an error. */
  datatype Pool = Pool(conns: seq<Conn>, idle: seq<nat>, closed: set<nat>, callers: seq<Caller>, answers: seq<Answer>)

  datatype Event =
    | Take(u: nat, req: seq<seq<bytes>>, size: Option<nat>)
    | Dial(u: nat, req: seq<seq<bytes>>, size: Option<nat>)
    | Write(u: nat, sent: nat)
    | Flush(u: nat)
    | Serve(c: nat, w: Wire)
    | Arrive(c: nat, arrived: nat)
    | Hear(u: nat)
    | Return(u: nat)
    | Fail(u: nat)
    | Drain

  predicate IsBusy(s: Pool, u: nat) {
    u < |s.callers| && s.callers[u].Busy? && s.callers[u].conn < |s.conns|
  }

  predicate IsAway(s: Pool, u: nat) {
    u < |s.callers| && s.callers[u].Away?
  }

  predicate ValidRequest(req: seq<seq<bytes>>, size: Option<nat>) {
    AllSendable(req) && (size.Some? ==> |req| == 1)
  }

  /** A caller takes the oldest pooled connection, or dials: on an empty pool, or when it warms the pool up. The writer
      may send bytes on its own before the flush. A reader waits while no whole reply has arrived. A call fails at any
      time: a refused write, a deadline, a lost connection, an error reply, or a reply it cannot read. */
  predicate Enabled(s: Pool, e: Event) {
    match e
    case Take(u, req, size) => IsAway(s, u) && ValidRequest(req, size) && s.idle != [] && s.idle[0] < |s.conns|
    case Dial(u, req, size) => IsAway(s, u) && ValidRequest(req, size)
    case Write(u, sent) =>
      IsBusy(s, u) && var b := s.callers[u]; var c := s.conns[b.conn];
      !b.flushed && b.written < |b.req| && c.sent <= sent <= |c.out| + |Encode(Command(b.req[b.written]))|
    case Flush(u) => IsBusy(s, u) && !s.callers[u].flushed && s.callers[u].written == |s.callers[u].req|
    case Serve(c, w) =>
      c < |s.conns| && WellFormed(w) && var k := s.conns[c];
      k.sent <= |k.out| && k.parsed <= k.sent && Parse(k.out[..k.sent], k.parsed).Some?
    case Arrive(c, n) => c < |s.conns| && s.conns[c].arrived <= n <= |s.conns[c].back|
    case Hear(u) =>
      IsBusy(s, u) && var b := s.callers[u]; var k := s.conns[b.conn];
      b.flushed && |b.got| < |b.req| && k.arrived <= |k.back| && k.pos <= k.arrived
      && Listen(b.size, k.back[..k.arrived], k.pos).r.Ok?
    case Return(u) => IsBusy(s, u) && s.callers[u].flushed && |s.callers[u].got| == |s.callers[u].req|
    case Fail(u) => IsBusy(s, u)
    case Drain => s.idle != []
  }

  function Next(cap: nat, s: Pool, e: Event): Pool
    requires Enabled(s, e)
  {
    match e
    case Take(u, req, size) =>
      s.(idle := s.idle[1..],
         callers := s.callers[u := Busy(s.idle[0], req, size, |s.conns[s.idle[0]].asked|, 0, false, [])])
    case Dial(u, req, size) =>
      s.(conns := s.conns + [NEW_CONN], callers := s.callers[u := Busy(|s.conns|, req, size, 0, 0, false, [])])
    case Write(u, sent) =>
      var b := s.callers[u];
      s.(conns := s.conns[b.conn := Written(s.conns[b.conn], b.req[b.written], sent)],
         callers := s.callers[u := b.(written := b.written + 1)])
    case Flush(u) =>
      var b := s.callers[u]; var c := s.conns[b.conn];
      s.(conns := s.conns[b.conn := c.(sent := |c.out|)], callers := s.callers[u := b.(flushed := true)])
    case Serve(c, w) =>
      var k := s.conns[c]; var p := Parse(k.out[..k.sent], k.parsed).value;
      s.(conns := s.conns[c := Answered(k, p.0, p.1, w)])
    case Arrive(c, n) => s.(conns := s.conns[c := s.conns[c].(arrived := n)])
    case Hear(u) =>
      var b := s.callers[u]; var k := s.conns[b.conn];
      var o := Listen(b.size, k.back[..k.arrived], k.pos);
      s.(conns := s.conns[b.conn := Read(k, o.pos)], callers := s.callers[u := b.(got := b.got + [o.r.value])])
    case Return(u) =>
      var b := s.callers[u];
      var t := s.(callers := s.callers[u := Away], answers := s.answers + [Answer(b.conn, b.base, b.req, b.size, b.got)]);
      if |s.idle| < cap then t.(idle := s.idle + [b.conn]) else t.(closed := s.closed + {b.conn})
    case Fail(u) => s.(callers := s.callers[u := Away], closed := s.closed + {s.callers[u].conn})
    case Drain => s.(idle := s.idle[1..], closed := s.closed + {s.idle[0]})
  }

  predicate Possible(cap: nat, s: Pool, es: seq<Event>)
    decreases |es|
  {
    es == [] || (Enabled(s, es[0]) && Possible(cap, Next(cap, s, es[0]), es[1..]))
  }

  function Run(cap: nat, s: Pool, es: seq<Event>): Pool
    requires Possible(cap, s, es)
    decreases |es|
  {
    if es == [] then s else Run(cap, Next(cap, s, es[0]), es[1..])
  }

  function Start(n: nat): Pool {
    Pool([], [], {}, seq(n, _ => Away), [])
  }

  // Who has which connection.

  predicate HeldBy(s: Pool, c: nat, u: nat) {
    u < |s.callers| && s.callers[u].Busy? && s.callers[u].conn == c
  }

  /** Every connection is exactly one of pooled, held by one caller, or closed. */
  ghost predicate Owned(s: Pool) {
    && (forall k, m | 0 <= k < m < |s.idle| :: s.idle[k] != s.idle[m])
    && (forall k | 0 <= k < |s.idle| :: s.idle[k] < |s.conns| && s.idle[k] !in s.closed)
    && (forall c: nat, u: nat | HeldBy(s, c, u) :: c < |s.conns| && c !in s.closed && c !in s.idle)
    && (forall c: nat, u: nat, v: nat | HeldBy(s, c, u) && HeldBy(s, c, v) :: u == v)
    && (forall c | 0 <= c < |s.conns| :: c in s.idle || c in s.closed || exists u: nat :: HeldBy(s, c, u))
    && (forall c | c in s.closed :: c < |s.conns|)
  }

  /** What a caller has got so far answers what it asked, one for one. */
  ghost predicate AnswersFor(c: Conn, base: nat, req: seq<seq<bytes>>, size: Option<nat>, got: seq<Got>) {
    && |got| <= |req| && base + |got| <= |c.served|
    && forall j | 0 <= j < |got| ::
         c.served[base + j].args == req[j] && Says(size, c.served[base + j].reply) == Some(got[j])
  }

  ghost predicate BusyOk(c: Conn, b: Caller)
    requires b.Busy?
  {
    && AllSendable(b.req) && b.written <= |b.req| && |c.asked| == b.base + b.written
    && (forall j | 0 <= j < b.written :: c.asked[b.base + j] == b.req[j])
    && b.base <= |c.served| && c.heard == b.base + |b.got|
    && (b.flushed ==> b.written == |b.req| && c.sent == |c.out|)
    && AnswersFor(c, b.base, b.req, b.size, b.got)
  }

  ghost predicate AnswerOk(s: Pool, a: Answer) {
    && a.conn < |s.conns| && |a.got| == |a.req|
    && AnswersFor(s.conns[a.conn], a.base, a.req, a.size, a.got)
  }

  ghost predicate Good(cap: nat, s: Pool) {
    && |s.idle| <= cap && Owned(s)
    && (forall c | 0 <= c < |s.conns| :: ConnOk(s.conns[c]))
    && (forall c | c in s.idle && c < |s.conns| :: Settled(s.conns[c]))
    && (forall u | 0 <= u < |s.callers| && IsBusy(s, u) :: BusyOk(s.conns[s.callers[u].conn], s.callers[u]))
    && (forall k | 0 <= k < |s.answers| :: AnswerOk(s, s.answers[k]))
  }

  // Every step keeps it.

  /** What the server did on a connection is never undone. */
  ghost predicate Extends(k: Conn, k': Conn) {
    |k.served| <= |k'.served| && forall j | 0 <= j < |k.served| :: k'.served[j] == k.served[j]
  }

  lemma AnswersExtend(k: Conn, k': Conn, base: nat, req: seq<seq<bytes>>, size: Option<nat>, got: seq<Got>)
    requires Extends(k, k') && AnswersFor(k, base, req, size, got)
    ensures AnswersFor(k', base, req, size, got)
  {
    hide Says;
  }

  predicate SameHolders(s: Pool, t: Pool) {
    && |s.callers| == |t.callers|
    && forall u | 0 <= u < |s.callers| ::
         s.callers[u].Busy? == t.callers[u].Busy? && (s.callers[u].Busy? ==> s.callers[u].conn == t.callers[u].conn)
  }

  lemma OwnedSame(s: Pool, t: Pool)
    requires Owned(s) && SameHolders(s, t) && t.idle == s.idle && t.closed == s.closed && |t.conns| == |s.conns|
    ensures Owned(t)
  {
    forall c: nat, u: nat ensures HeldBy(s, c, u) <==> HeldBy(t, c, u) {}
    forall c | 0 <= c < |t.conns| && c !in t.idle && c !in t.closed ensures exists u: nat :: HeldBy(t, c, u) {
      var u: nat :| HeldBy(s, c, u);
      assert HeldBy(t, c, u);
    }
  }

  /** A connection moves under its holder. */
  lemma HolderStep(cap: nat, s: Pool, u: nat, k: Conn, b: Caller)
    requires Good(cap, s) && IsBusy(s, u) && b.Busy? && b.conn == s.callers[u].conn
    requires ConnOk(k) && BusyOk(k, b) && Extends(s.conns[b.conn], k)
    ensures Good(cap, s.(conns := s.conns[b.conn := k], callers := s.callers[u := b]))
  {
    hide ConnOk, BusyOk, Settled, AnswersFor, Extends, Owned;
    var t := s.(conns := s.conns[b.conn := k], callers := s.callers[u := b]);
    OwnedSame(s, t);
    HolderIsOnly(s, u);
    forall v | 0 <= v < |t.callers| && IsBusy(t, v) ensures BusyOk(t.conns[t.callers[v].conn], t.callers[v]) {
      if v != u {
        assert IsBusy(s, v) && HeldBy(s, s.callers[v].conn, v);
      }
    }
    forall j | 0 <= j < |t.answers| ensures AnswerOk(t, t.answers[j]) {
      StillAnswers(s, b.conn, k, s.answers[j]);
      assert AnswerOk(s, s.answers[j]);
    }
  }

  lemma HolderIsOnly(s: Pool, u: nat)
    requires Owned(s) && IsBusy(s, u)
    ensures var c := s.callers[u].conn;
            && c !in s.idle && c !in s.closed && forall v: nat | HeldBy(s, c, v) :: v == u
  {
    assert HeldBy(s, s.callers[u].conn, u);
  }

  lemma StillAnswers(s: Pool, c: nat, k: Conn, a: Answer)
    requires c < |s.conns| && Extends(s.conns[c], k) && AnswerOk(s, a)
    ensures a.conn < |s.conns| && |a.got| == |a.req|
    ensures AnswersFor(s.conns[c := k][a.conn], a.base, a.req, a.size, a.got)
  {
    hide AnswersFor, Extends;
    if a.conn == c {
      AnswersExtend(s.conns[c], k, a.base, a.req, a.size, a.got);
    }
  }

  /** A connection moves on the server's side. */
  lemma ServerStep(cap: nat, s: Pool, c: nat, k: Conn)
    requires Good(cap, s) && c < |s.conns| && ConnOk(k) && Extends(s.conns[c], k)
    requires Settled(s.conns[c]) ==> Settled(k)
    requires forall b: Caller | b.Busy? && BusyOk(s.conns[c], b) :: BusyOk(k, b)
    ensures Good(cap, s.(conns := s.conns[c := k]))
  {
    hide ConnOk, BusyOk, Settled, AnswersFor, Extends, Owned;
    var t := s.(conns := s.conns[c := k]);
    OwnedSame(s, t);
    forall v | 0 <= v < |t.callers| && IsBusy(t, v) ensures BusyOk(t.conns[t.callers[v].conn], t.callers[v]) {
      assert IsBusy(s, v);
    }
    forall j | 0 <= j < |t.answers| ensures AnswerOk(t, t.answers[j]) {
      StillAnswers(s, c, k, s.answers[j]);
    }
  }

  /** What one caller's step needs of its own connection. */
  lemma Own(cap: nat, s: Pool, u: nat)
    requires Good(cap, s) && IsBusy(s, u)
    ensures ConnOk(s.conns[s.callers[u].conn]) && BusyOk(s.conns[s.callers[u].conn], s.callers[u])
  {
    hide ConnOk, BusyOk, Owned;
  }

  lemma WriteStep(cap: nat, s: Pool, u: nat, sent: nat)
    requires Good(cap, s) && Enabled(s, Write(u, sent))
    ensures Good(cap, Next(cap, s, Write(u, sent)))
  {
    hide Good, Encode, Command, ConnOk, Says, AllSendable;
    Own(cap, s, u);
    var b := s.callers[u];
    var c := s.conns[b.conn];
    SendableAt(b.req, b.written);
    WrittenOk(c, b.req[b.written], sent);
    var k := Written(c, b.req[b.written], sent);
    assert BusyOk(k, b.(written := b.written + 1)) by {
      AnswersExtend(c, k, b.base, b.req, b.size, b.got);
    }
    HolderStep(cap, s, u, k, b.(written := b.written + 1));
  }

  lemma SendableAt(req: seq<seq<bytes>>, j: nat)
    requires AllSendable(req) && j < |req|
    ensures Sendable(req[j])
  {
  }

  lemma FlushStep(cap: nat, s: Pool, u: nat)
    requires Good(cap, s) && Enabled(s, Flush(u))
    ensures Good(cap, Next(cap, s, Flush(u)))
  {
    hide Good, Says, Pipeline, EncodeAll;
    Own(cap, s, u);
    var b := s.callers[u];
    var c := s.conns[b.conn];
    var k := c.(sent := |c.out|);
    AnswersExtend(c, k, b.base, b.req, b.size, b.got);
    HolderStep(cap, s, u, k, b.(flushed := true));
  }

  lemma HearStep(cap: nat, s: Pool, u: nat)
    requires Good(cap, s) && Enabled(s, Hear(u))
    ensures Good(cap, Next(cap, s, Hear(u)))
  {
    hide Good, Says, ConnOk, Listen, AllSendable;
    Own(cap, s, u);
    var b := s.callers[u];
    var c := s.conns[b.conn];
    ReadOk(c, b.size);
    OrderOf(c);
    var o := Listen(b.size, c.back[..c.arrived], c.pos);
    var k := Read(c, o.pos);
    var b' := b.(got := b.got + [o.r.value]);
    assert AnswersFor(k, b'.base, b'.req, b'.size, b'.got);
    HolderStep(cap, s, u, k, b');
  }

  lemma OrderOf(c: Conn)
    requires ConnOk(c)
    ensures |c.served| <= |c.asked| && forall k | 0 <= k < |c.served| :: c.served[k].args == c.asked[k]
  {
    hide Pipeline, EncodeAll;
  }

  lemma ServeStep(cap: nat, s: Pool, c: nat, w: Wire)
    requires Good(cap, s) && Enabled(s, Serve(c, w))
    ensures Good(cap, Next(cap, s, Serve(c, w)))
  {
    hide Says, Pipeline, EncodeAll, Encode, Parse, AllSendable, Owned, BusyOk, AnswerOk, WellFormed;
    var k := s.conns[c];
    assert ConnOk(k);
    AnsweredOk(k, w);
    var p := Parse(k.out[..k.sent], k.parsed).value;
    var k' := Answered(k, p.0, p.1, w);
    hide Good, ConnOk;
    forall b: Caller | b.Busy? && BusyOk(k, b) ensures BusyOk(k', b) {
      BusyServed(k, k', b);
    }
    ServerStep(cap, s, c, k');
  }

  lemma BusyServed(k: Conn, k': Conn, b: Caller)
    requires b.Busy? && BusyOk(k, b) && Extends(k, k')
    requires k'.asked == k.asked && k'.heard == k.heard && k'.sent == k.sent && k'.out == k.out
    ensures BusyOk(k', b)
  {
    hide AllSendable, Says;
    AnswersExtend(k, k', b.base, b.req, b.size, b.got);
  }

  lemma ArriveStep(cap: nat, s: Pool, c: nat, n: nat)
    requires Good(cap, s) && Enabled(s, Arrive(c, n))
    ensures Good(cap, Next(cap, s, Arrive(c, n)))
  {
    hide Pipeline, EncodeAll, Owned, BusyOk, AnswerOk, WellFormed;
    var k := s.conns[c];
    assert ConnOk(k);
    var k' := k.(arrived := n);
    assert ConnOk(k');
    forall b: Caller | b.Busy? && BusyOk(k, b) ensures BusyOk(k', b) {
      BusyServed(k, k', b);
    }
    hide Good, ConnOk;
    ServerStep(cap, s, c, k');
  }

  // Connections changing hands.

  /** The rest of the invariant when only ownership changes and `u` becomes the caller `b`. */
  lemma Handover(cap: nat, s: Pool, t: Pool, u: nat)
    requires Good(cap, s) && Owned(t) && |t.idle| <= cap && t.conns == s.conns && u < |s.callers|
    requires |t.callers| == |s.callers| && t.callers == s.callers[u := t.callers[u]]
    requires IsBusy(t, u) ==> BusyOk(t.conns[t.callers[u].conn], t.callers[u])
    requires forall c | c in t.idle && c < |t.conns| :: Settled(t.conns[c])
    requires forall k | 0 <= k < |t.answers| :: AnswerOk(s, t.answers[k])
    ensures Good(cap, t)
  {
    hide ConnOk, BusyOk, Settled, AnswersFor, Owned;
    forall v | 0 <= v < |t.callers| && IsBusy(t, v) ensures BusyOk(t.conns[t.callers[v].conn], t.callers[v]) {
      if v != u {
        assert IsBusy(s, v);
      }
    }
    forall k | 0 <= k < |t.answers| ensures AnswerOk(t, t.answers[k]) {
      assert AnswerOk(s, t.answers[k]);
    }
  }

  lemma BehindHead(q: seq<nat>, c: nat) returns (k: nat)
    requires q != [] && c in q[1..]
    ensures 1 <= k < |q| && q[k] == c
  {
    k :| 0 <= k < |q[1..]| && q[1..][k] == c;
    k := k + 1;
  }

  lemma OwnedTake(s: Pool, t: Pool, u: nat)
    requires Owned(s) && u < |s.callers| && s.callers[u].Away? && s.idle != [] && |t.callers| == |s.callers|
    requires t.callers == s.callers[u := t.callers[u]] && t.callers[u].Busy? && t.callers[u].conn == s.idle[0]
    requires t.idle == s.idle[1..] && t.closed == s.closed && |t.conns| == |s.conns|
    ensures Owned(t)
  {
    var c0 := s.idle[0];
    forall c: nat, v: nat ensures HeldBy(t, c, v) <==> HeldBy(s, c, v) || (v == u && c == c0) {}
    if c0 in t.idle {
      var k := BehindHead(s.idle, c0);
      assert false;
    }
    forall c: nat, v: nat | HeldBy(s, c, v) ensures c != c0 {
      assert c0 in s.idle;
    }
    forall c | 0 <= c < |t.conns| && c !in t.idle && c !in t.closed ensures exists v: nat :: HeldBy(t, c, v) {
      if c == c0 {
        assert HeldBy(t, c, u);
      } else {
        assert s.idle == [c0] + t.idle;
        var v: nat :| HeldBy(s, c, v);
        assert HeldBy(t, c, v);
      }
    }
  }

  lemma TakeStep(cap: nat, s: Pool, u: nat, req: seq<seq<bytes>>, size: Option<nat>)
    requires Good(cap, s) && Enabled(s, Take(u, req, size))
    ensures Good(cap, Next(cap, s, Take(u, req, size)))
  {
    hide ConnOk, Owned, AllSendable, AnswerOk, Says;
    var t := Next(cap, s, Take(u, req, size));
    OwnedTake(s, t, u);
    var c0 := s.idle[0];
    assert c0 in s.idle && Settled(s.conns[c0]);
    assert BusyOk(t.conns[c0], t.callers[u]) by {
      assert ConnOk(s.conns[c0]);
      OrderOf(s.conns[c0]);
    }
    forall c | c in t.idle && c < |t.conns| ensures Settled(t.conns[c]) {
      assert c in s.idle;
    }
    hide BusyOk, Settled;
    Handover(cap, s, t, u);
  }

  lemma OwnedRelease(s: Pool, t: Pool, u: nat)
    requires Owned(s) && IsBusy(s, u) && |t.callers| == |s.callers| && |t.conns| == |s.conns|
    requires t.callers == s.callers[u := Away]
    requires var c := s.callers[u].conn;
             || (t.idle == s.idle + [c] && t.closed == s.closed)
             || (t.idle == s.idle && t.closed == s.closed + {c})
    ensures Owned(t)
  {
    var c0 := s.callers[u].conn;
    HolderIsOnly(s, u);
    forall c: nat, v: nat ensures HeldBy(t, c, v) <==> HeldBy(s, c, v) && v != u {}
    forall c | 0 <= c < |t.conns| && c !in t.idle && c !in t.closed ensures exists v: nat :: HeldBy(t, c, v) {
      assert c !in s.idle && c !in s.closed && c != c0;
      var v: nat :| HeldBy(s, c, v);
      assert HeldBy(t, c, v);
    }
  }

  lemma ReturnStep(cap: nat, s: Pool, u: nat)
    requires Good(cap, s) && Enabled(s, Return(u))
    ensures Good(cap, Next(cap, s, Return(u)))
  {
    hide ConnOk, Owned, AllSendable, Says;
    var t := Next(cap, s, Return(u));
    var b := s.callers[u];
    OwnedRelease(s, t, u);
    OrderOf(s.conns[b.conn]);
    assert Settled(s.conns[b.conn]) by {
      Own(cap, s, u);
      HeardAll(s.conns[b.conn]);
    }
    assert AnswerOk(s, t.answers[|t.answers| - 1]);
    hide BusyOk, Settled, AnswersFor;
    Handover(cap, s, t, u);
  }

  lemma HeardAll(c: Conn)
    requires ConnOk(c)
    ensures c.heard <= |c.served|
  {
    hide Pipeline, EncodeAll;
  }

  lemma FailStep(cap: nat, s: Pool, u: nat)
    requires Good(cap, s) && Enabled(s, Fail(u))
    ensures Good(cap, Next(cap, s, Fail(u)))
  {
    hide ConnOk, Owned, AnswerOk, Settled, BusyOk;
    var t := Next(cap, s, Fail(u));
    OwnedRelease(s, t, u);
    Handover(cap, s, t, u);
  }

  lemma OwnedDrain(s: Pool, t: Pool)
    requires Owned(s) && s.idle != [] && t.callers == s.callers && |t.conns| == |s.conns|
    requires t.idle == s.idle[1..] && t.closed == s.closed + {s.idle[0]}
    ensures Owned(t)
  {
    var c0 := s.idle[0];
    if c0 in t.idle {
      var k := BehindHead(s.idle, c0);
      assert false;
    }
    forall c: nat, v: nat ensures HeldBy(t, c, v) <==> HeldBy(s, c, v) {}
    forall c | 0 <= c < |t.conns| && c !in t.idle && c !in t.closed ensures exists v: nat :: HeldBy(t, c, v) {
      assert s.idle == [c0] + t.idle;
      var v: nat :| HeldBy(s, c, v);
      assert HeldBy(t, c, v);
    }
  }

  lemma DrainStep(cap: nat, s: Pool)
    requires Good(cap, s) && Enabled(s, Drain)
    ensures Good(cap, Next(cap, s, Drain))
  {
    hide ConnOk, Owned, AnswersFor, Settled, BusyOk;
    var t := Next(cap, s, Drain);
    OwnedDrain(s, t);
    forall c | c in t.idle && c < |t.conns| ensures Settled(t.conns[c]) {
      assert c in s.idle;
    }
    forall k | 0 <= k < |t.answers| ensures AnswerOk(t, t.answers[k]) {
      assert AnswerOk(s, s.answers[k]);
    }
    forall v | 0 <= v < |t.callers| && IsBusy(t, v) ensures BusyOk(t.conns[t.callers[v].conn], t.callers[v]) {
      assert IsBusy(s, v);
    }
  }

  lemma OwnedDial(s: Pool, t: Pool, u: nat)
    requires Owned(s) && u < |s.callers| && s.callers[u].Away? && |t.callers| == |s.callers|
    requires t.callers == s.callers[u := t.callers[u]] && t.callers[u].Busy? && t.callers[u].conn == |s.conns|
    requires t.idle == s.idle && t.closed == s.closed && |t.conns| == |s.conns| + 1
    ensures Owned(t)
  {
    forall c: nat, v: nat ensures HeldBy(t, c, v) <==> HeldBy(s, c, v) || (v == u && c == |s.conns|) {}
    forall c | 0 <= c < |t.conns| && c !in t.idle && c !in t.closed ensures exists v: nat :: HeldBy(t, c, v) {
      if c == |s.conns| {
        assert HeldBy(t, c, u);
      } else {
        var v: nat :| HeldBy(s, c, v);
        assert HeldBy(t, c, v);
      }
    }
  }

  lemma NewConnOk()
    ensures ConnOk(NEW_CONN)
  {
  }

  lemma DialStep(cap: nat, s: Pool, u: nat, req: seq<seq<bytes>>, size: Option<nat>)
    requires Good(cap, s) && Enabled(s, Dial(u, req, size))
    ensures Good(cap, Next(cap, s, Dial(u, req, size)))
  {
    hide Owned, AllSendable, AnswersFor, Says;
    var t := Next(cap, s, Dial(u, req, size));
    OwnedDial(s, t, u);
    NewConnOk();
    assert BusyOk(NEW_CONN, t.callers[u]) by {
      NothingAsked(req, size);
    }
    OwnedIds(s);
    hide ConnOk, BusyOk, Settled;
    forall v | 0 <= v < |t.callers| && IsBusy(t, v) ensures BusyOk(t.conns[t.callers[v].conn], t.callers[v]) {
      if v != u {
        assert HeldBy(s, s.callers[v].conn, v);
        assert IsBusy(s, v);
      }
    }
    forall k | 0 <= k < |t.answers| ensures AnswerOk(t, t.answers[k]) {
      assert AnswerOk(s, s.answers[k]);
    }
  }

  lemma NothingAsked(req: seq<seq<bytes>>, size: Option<nat>)
    ensures AnswersFor(NEW_CONN, 0, req, size, [])
  {
  }

  lemma OwnedIds(s: Pool)
    requires Owned(s)
    ensures forall c: nat, u: nat | HeldBy(s, c, u) :: c < |s.conns|
    ensures forall c | c in s.idle :: c < |s.conns|
  {
  }

  lemma NextGood(cap: nat, s: Pool, e: Event)
    requires Good(cap, s) && Enabled(s, e)
    ensures Good(cap, Next(cap, s, e))
  {
    hide Good, Enabled, Next;
    match e {
      case Take(u, req, size) => TakeStep(cap, s, u, req, size);
      case Dial(u, req, size) => DialStep(cap, s, u, req, size);
      case Write(u, sent) => WriteStep(cap, s, u, sent);
      case Flush(u) => FlushStep(cap, s, u);
      case Serve(c, w) => ServeStep(cap, s, c, w);
      case Arrive(c, n) => ArriveStep(cap, s, c, n);
      case Hear(u) => HearStep(cap, s, u);
      case Return(u) => ReturnStep(cap, s, u);
      case Fail(u) => FailStep(cap, s, u);
      case Drain => DrainStep(cap, s);
    }
  }

  lemma {:induction false} RunGood(cap: nat, s: Pool, es: seq<Event>)
    requires Good(cap, s) && Possible(cap, s, es)
    ensures Good(cap, Run(cap, s, es))
    decreases |es|
  {
    hide Good, Enabled, Next;
    if es != [] {
      NextGood(cap, s, es[0]);
      RunGood(cap, Next(cap, s, es[0]), es[1..]);
    }
  }

  lemma StartGood(cap: nat, n: nat)
    ensures Good(cap, Start(n))
  {
  }

  /** A pooled connection carries nothing over to its next user. */
  ghost predicate Clean(c: Conn) {
    c.sent == |c.out| && c.parsed == |c.out| && c.arrived == |c.back| && c.pos == |c.back|
  }

  /** Safety of the pool, for any number of callers, any requests and any order of steps: the pool never exceeds its
      capacity; every connection is exactly one of pooled, held by one caller, or closed; and a pooled connection has no
      unsent command byte, no command waiting for its answer and no unread reply byte. */
  lemma PoolSafety(cap: nat, n: nat, es: seq<Event>)
    requires Possible(cap, Start(n), es)
    ensures var t := Run(cap, Start(n), es);
            && |t.idle| <= cap && Owned(t)
            && forall c | c in t.idle :: c < |t.conns| && Clean(t.conns[c])
  {
    hide Run, Possible, Start, Owned, Clean;
    StartGood(cap, n);
    RunGood(cap, Start(n), es);
    var t := Run(cap, Start(n), es);
    OwnedIds(t);
    hide AnswerOk, BusyOk;
    forall c | c in t.idle ensures c < |t.conns| && Clean(t.conns[c]) {
      SettledClean(t.conns[c]);
    }
  }

  lemma SettledClean(c: Conn)
    requires ConnOk(c) && Settled(c)
    ensures Clean(c)
  {
    hide Pipeline, EncodeAll;
    SettledIsClean(c);
  }

  /** No call ever gets another call's reply: in every run, reply j of every call that returned is what the server
      answered when it executed exactly command j of that call. */
  lemma RepliesMatch(cap: nat, n: nat, es: seq<Event>, k: nat, j: nat)
    requires Possible(cap, Start(n), es)
    requires var t := Run(cap, Start(n), es); k < |t.answers| && j < |t.answers[k].req|
    ensures var t := Run(cap, Start(n), es); var a := t.answers[k];
            && |a.got| == |a.req| && a.conn < |t.conns| && a.base + j < |t.conns[a.conn].served|
            && var x := t.conns[a.conn].served[a.base + j];
               x.args == a.req[j] && Says(a.size, x.reply) == Some(a.got[j])
  {
    hide Run, Possible, Start, Says;
    StartGood(cap, n);
    RunGood(cap, Start(n), es);
    hide Owned, ConnOk, Settled, BusyOk;
    var t := Run(cap, Start(n), es);
    assert AnswerOk(t, t.answers[k]);
  }

  // No reply is delivered twice.

  function End(a: Answer): nat {
    a.base + |a.req|
  }

  /** Calls that share a connection have their own stretches of its exchanges, one behind the other. */
  ghost predicate Apart(s: Pool) {
    && (forall k | 0 <= k < |s.answers| ::
          s.answers[k].conn < |s.conns| && End(s.answers[k]) <= |s.conns[s.answers[k].conn].asked|)
    && (forall k: nat, u: nat | k < |s.answers| && IsBusy(s, u) && s.callers[u].conn == s.answers[k].conn ::
          End(s.answers[k]) <= s.callers[u].base)
    && (forall k, m | 0 <= k < m < |s.answers| && s.answers[k].conn == s.answers[m].conn ::
          End(s.answers[k]) <= s.answers[m].base)
  }

  predicate MoreAsked(s: Pool, t: Pool) {
    && |s.conns| <= |t.conns|
    && forall c | 0 <= c < |s.conns| :: |s.conns[c].asked| <= |t.conns[c].asked|
  }

  /** Steps that return nothing: callers keep their connection and base, or start behind everything asked so far. */
  lemma ApartKeeps(s: Pool, t: Pool)
    requires Apart(s) && MoreAsked(s, t) && t.answers == s.answers
    requires forall u: nat | IsBusy(t, u) ::
               || (IsBusy(s, u) && s.callers[u].conn == t.callers[u].conn && s.callers[u].base == t.callers[u].base)
               || t.callers[u].conn >= |s.conns|
               || |s.conns[t.callers[u].conn].asked| <= t.callers[u].base
    ensures Apart(t)
  {
  }

  lemma ReturnApart(cap: nat, s: Pool, u: nat)
    requires Good(cap, s) && Apart(s) && Enabled(s, Return(u))
    ensures Apart(Next(cap, s, Return(u)))
  {
    var b := s.callers[u];
    Own(cap, s, u);
    HolderIsOnly(s, u);
    forall v: nat | IsBusy(s, v) && s.callers[v].conn == b.conn ensures v == u {
      assert HeldBy(s, b.conn, v);
    }
    hide Good, Apart, ConnOk, AnswersFor, AllSendable, Owned;
    ApartReturned(s, Next(cap, s, Return(u)), u);
  }

  lemma ApartReturned(s: Pool, t: Pool, u: nat)
    requires Apart(s) && IsBusy(s, u) && forall v: nat | IsBusy(s, v) && s.callers[v].conn == s.callers[u].conn :: v == u
    requires var b := s.callers[u];
             && b.base + |b.req| == |s.conns[b.conn].asked|
             && t.answers == s.answers + [Answer(b.conn, b.base, b.req, b.size, b.got)]
    requires t.conns == s.conns && t.callers == s.callers[u := Away]
    ensures Apart(t)
  {
    var last := |s.answers|;
    forall k: nat, v: nat | k < |t.answers| && IsBusy(t, v) && t.callers[v].conn == t.answers[k].conn
      ensures End(t.answers[k]) <= t.callers[v].base
    {
      assert IsBusy(s, v) && v != u;
      assert k < last;
    }
    forall k, m | 0 <= k < m < |t.answers| && t.answers[k].conn == t.answers[m].conn
      ensures End(t.answers[k]) <= t.answers[m].base
    {
      assert IsBusy(s, u);
    }
  }

  lemma NextApart(cap: nat, s: Pool, e: Event)
    requires Good(cap, s) && Apart(s) && Enabled(s, e)
    ensures Apart(Next(cap, s, e))
  {
    if e.Return? {
      hide Good, Apart, Enabled, Next;
      ReturnApart(cap, s, e.u);
    } else {
      hide Good, Apart, Listen, Parse, Encode, Command, Pipeline, AllSendable, WellFormed;
      ApartKeeps(s, Next(cap, s, e));
    }
  }

  lemma {:induction false} RunApart(cap: nat, s: Pool, es: seq<Event>)
    requires Good(cap, s) && Apart(s) && Possible(cap, s, es)
    ensures Apart(Run(cap, s, es))
    decreases |es|
  {
    hide Good, Apart, Enabled, Next;
    if es != [] {
      NextGood(cap, s, es[0]);
      NextApart(cap, s, es[0]);
      RunApart(cap, Next(cap, s, es[0]), es[1..]);
    }
  }

  /** Of any two calls that used one connection, the replies of the later lie wholly behind those of the earlier. */
  lemma NoReplyTwice(cap: nat, n: nat, es: seq<Event>, k: nat, m: nat)
    requires Possible(cap, Start(n), es)
    requires var t := Run(cap, Start(n), es); k < m < |t.answers| && t.answers[k].conn == t.answers[m].conn
    ensures var t := Run(cap, Start(n), es); t.answers[k].base + |t.answers[k].req| <= t.answers[m].base
  {
    hide Run, Possible, Good;
    StartGood(cap, n);
    RunApart(cap, Start(n), es);
  }

  // Close.

  /** Close: takes connections out of the pool until it is empty. */
  function CloseAll(n: nat): seq<Event> {
    seq(n, _ => Drain)
  }

  lemma {:induction false} CloseEmpties(cap: nat, s: Pool)
    ensures Possible(cap, s, CloseAll(|s.idle|))
    ensures var t := Run(cap, s, CloseAll(|s.idle|));
            && t.idle == [] && t.callers == s.callers && t.conns == s.conns
            && t.closed == s.closed + set c | c in s.idle
    decreases |s.idle|
  {
    if s.idle != [] {
      var t := Next(cap, s, Drain);
      assert Enabled(s, Drain) && t == s.(idle := s.idle[1..], closed := s.closed + {s.idle[0]});
      hide Enabled, Next;
      assert CloseAll(|s.idle|)[0] == Drain && CloseAll(|s.idle|)[1..] == CloseAll(|t.idle|);
      CloseEmpties(cap, t);
      assert s.idle == [s.idle[0]] + t.idle;
      assert (set c | c in s.idle) == {s.idle[0]} + set c | c in t.idle;
    }
  }

  /** After Close every connection is closed exactly when no call was under way: Close reaches pooled connections only. */
  lemma CloseReaches(cap: nat, n: nat, es: seq<Event>)
    requires Possible(cap, Start(n), es)
    ensures var s := Run(cap, Start(n), es);
            && Possible(cap, s, CloseAll(|s.idle|))
            && var t := Run(cap, s, CloseAll(|s.idle|));
               (forall c | 0 <= c < |t.conns| :: c in t.closed) <==> (forall u | 0 <= u < |t.callers| :: t.callers[u].Away?)
  {
    var s := Run(cap, Start(n), es);
    StartGood(cap, n);
    RunGood(cap, Start(n), es);
    assert Owned(s);
    CloseEmpties(cap, s);
    var t := Run(cap, s, CloseAll(|s.idle|));
    hide Run, Possible, Good, Start, CloseAll;
    forall c: nat, u: nat ensures HeldBy(s, c, u) <==> HeldBy(t, c, u) {}
    forall u: nat | u < |t.callers| && t.callers[u].Busy?
      ensures t.callers[u].conn < |t.conns| && t.callers[u].conn !in t.closed
    {
      assert HeldBy(s, t.callers[u].conn, u);
    }
    if forall u | 0 <= u < |t.callers| :: t.callers[u].Away? {
      forall c | 0 <= c < |t.conns| ensures c in t.closed {
        assert forall u: nat :: !HeldBy(t, c, u);
      }
    }
  }

  lemma {:induction false} RunAppend(cap: nat, s: Pool, a: seq<Event>, b: seq<Event>)
    requires Possible(cap, s, a) && Possible(cap, Run(cap, s, a), b)
    ensures Possible(cap, s, a + b) && Run(cap, s, a + b) == Run(cap, Run(cap, s, a), b)
    decreases |a|
  {
    hide Enabled, Next;
    if a == [] {
      assert a + b == b;
    } else {
      assert (a + b)[1..] == a[1..] + b;
      RunAppend(cap, Next(cap, s, a[0]), a[1..], b);
    }
  }

  lemma RunOne(cap: nat, s: Pool, e: Event)
    requires Enabled(s, e)
    ensures Possible(cap, s, [e]) && Run(cap, s, [e]) == Next(cap, s, e)
  {
    hide Enabled, Next;
    var es := [e];
    assert es[1..] == [];
    assert Possible(cap, Next(cap, s, e), es[1..]);
  }

  /** One more event behind a run. */
  lemma RunThen(cap: nat, s: Pool, es: seq<Event>, e: Event)
    requires Possible(cap, s, es) && Enabled(Run(cap, s, es), e)
    ensures Possible(cap, s, es + [e]) && Run(cap, s, es + [e]) == Next(cap, Run(cap, s, es), e)
  {
    hide Enabled, Next, Possible, Run;
    RunOne(cap, Run(cap, s, es), e);
    RunAppend(cap, s, es, [e]);
  }

  /** A caller whose call has had its reply and has only to return, on the connection `c`. */
  ghost predicate AboutToReturn(s: Pool, u: nat, c: nat) {
    Enabled(s, Return(u)) && s.callers[u].conn == c
  }

  /** The caller has sent the one command `args` on the new connection `c`, and nothing has come back yet. */
  ghost predicate JustSent(s: Pool, u: nat, c: nat, args: seq<bytes>) {
    && u < |s.callers| && s.callers[u] == Busy(c, [args], None, 0, 1, true, [])
    && var b := Encode(Command(args));
       c < |s.conns| && s.conns[c] == Conn([args], b, |b|, 0, [], [], 0, 0, 0)
  }

  lemma DialAndSend(cap: nat, s: Pool, u: nat, args: seq<bytes>) returns (es: seq<Event>)
    requires IsAway(s, u) && Sendable(args)
    ensures Possible(cap, s, es)
    ensures var t := Run(cap, s, es);
            && JustSent(t, u, |s.conns|, args) && |t.conns| == |s.conns| + 1
            && t.idle == s.idle && t.closed == s.closed && t.callers == s.callers[u := t.callers[u]]
  {
    hide Encode, Command, Run, Possible, Sendable;
    RunOne(cap, s, Dial(u, [args], None));
    es := [Dial(u, [args], None)];
    RunThen(cap, s, es, Write(u, 0));
    es := es + [Write(u, 0)];
    RunThen(cap, s, es, Flush(u));
    es := es + [Flush(u)];
    var t := Run(cap, s, es);
    assert [] + Encode(Command(args)) == Encode(Command(args)) && [] + [args] == [args];
  }

  lemma ServeAndHear(cap: nat, s: Pool, u: nat, c: nat, args: seq<bytes>, w: Wire) returns (es: seq<Event>)
    requires JustSent(s, u, c, args) && Sendable(args) && WellFormed(w) && Meaning(w).Ok?
    ensures Possible(cap, s, es)
    ensures var t := Run(cap, s, es);
            && AboutToReturn(t, u, c) && |t.conns| == |s.conns|
            && t.idle == s.idle && t.closed == s.closed && t.callers == s.callers[u := t.callers[u]]
  {
    hide Encode, Command, Run, Possible, Parse, Listen, WellFormed, Meaning, Sendable;
    var b := Encode(Command(args));
    assert b[..|b|] == b;
    ParsesWhole(args);
    RunOne(cap, s, Serve(c, w));
    es := [Serve(c, w)];
    var s1 := Next(cap, s, Serve(c, w));
    var d := Encode(w);
    assert [] + d == d && s1.conns[c].back == d;
    RunThen(cap, s, es, Arrive(c, |d|));
    es := es + [Arrive(c, |d|)];
    assert d[..|d|] == d;
    ListensWhole(w);
    RunThen(cap, s, es, Hear(u));
    es := es + [Hear(u)];
  }

  /** A new connection on which the one command `args` was sent, answered with `w`, and the answer read. */
  lemma DialAndHear(cap: nat, s: Pool, u: nat, args: seq<bytes>, w: Wire) returns (es: seq<Event>)
    requires IsAway(s, u) && Sendable(args) && WellFormed(w) && Meaning(w).Ok?
    ensures Possible(cap, s, es)
    ensures var t := Run(cap, s, es);
            && AboutToReturn(t, u, |s.conns|) && |t.conns| == |s.conns| + 1
            && t.idle == s.idle && t.closed == s.closed && t.callers == s.callers[u := t.callers[u]]
  {
    hide JustSent, AboutToReturn, Run, Possible, Sendable, WellFormed, Meaning;
    var sending := DialAndSend(cap, s, u, args);
    var hearing := ServeAndHear(cap, Run(cap, s, sending), u, |s.conns|, args, w);
    RunAppend(cap, s, sending, hearing);
    es := sending + hearing;
  }

  lemma ParsesWhole(args: seq<bytes>)
    requires Sendable(args)
    ensures Parse(Encode(Command(args)), 0).Some?
  {
    CommandRoundTrip(args, []);
    assert Encode(Command(args)) + [] == Encode(Command(args));
    TextsOfBulks(args);
  }

  lemma ListensWhole(w: Wire)
    requires WellFormed(w) && Meaning(w).Ok?
    ensures Listen(None, Encode(w), 0).r.Ok?
  {
    var d := Encode(w);
    hide Encode, ReadReply, Meaning, WellFormed;
    assert d[0..0 + |d|] == d;
    ReadEncoded(d, 0, w);
  }

  /** Close does not reach a call that is under way, and the pool takes its connection back afterwards. For every capacity
      there is a run in which one call returns, a second is under way on another connection, Close empties the pool, and
      the second returns: all callers are away, and the pool holds a connection that is open and that nothing will close. */
  lemma ReturnsToClosedPool(cap: nat, args: seq<bytes>, w: Wire) returns (before: seq<Event>, after: seq<Event>)
    requires cap >= 1 && Sendable(args) && WellFormed(w) && Meaning(w).Ok?
    ensures Possible(cap, Start(1), before) && Run(cap, Start(1), before).idle != []
    ensures var s := Run(cap, Start(1), before);
            && Possible(cap, s, CloseAll(|s.idle|))
            && var closed := Run(cap, s, CloseAll(|s.idle|));
               && closed.idle == [] && Possible(cap, closed, after)
               && var t := Run(cap, closed, after);
                  && (forall u | 0 <= u < |t.callers| :: t.callers[u].Away?)
                  && t.idle != [] && t.idle[0] < |t.conns| && t.idle[0] !in t.closed
  {
    hide Possible, Run, CloseAll, Sendable, WellFormed, Meaning;
    var s0 := Start(1);
    var first := DialAndHear(cap, s0, 0, args, w);
    var s1 := Run(cap, s0, first);
    RunThen(cap, s0, first, Return(0));
    var s2 := Next(cap, s1, Return(0));
    assert s2.idle == [0] && s2.closed == {} && IsAway(s2, 0);
    var second := DialAndHear(cap, s2, 0, args, w);
    RunAppend(cap, s0, first + [Return(0)], second);
    before := first + [Return(0)] + second;
    var s := Run(cap, s0, before);
    CloseEmpties(cap, s);
    var closed := Run(cap, s, CloseAll(|s.idle|));
    after := [Return(0)];
    assert Enabled(closed, Return(0));
    RunOne(cap, closed, Return(0));
    assert closed.closed == {0};
  }

  // What was asked.

  lemma {:induction false} RunLast(cap: nat, s: Pool, es: seq<Event>)
    requires Possible(cap, s, es) && es != []
    ensures var front := es[..|es| - 1]; var e := es[|es| - 1];
            && Possible(cap, s, front) && Enabled(Run(cap, s, front), e)
            && Run(cap, s, es) == Next(cap, Run(cap, s, front), e)
    decreases |es|
  {
    hide Enabled, Next;
    if |es| == 1 {
      assert es[1..] == [] && es[..0] == [];
    } else {
      RunLast(cap, Next(cap, s, es[0]), es[1..]);
      assert es[1..][..|es| - 2] == es[..|es| - 1][1..];
    }
  }

  /** What a caller's latest call asked for, by the events alone. */
  function Asked(es: seq<Event>, u: nat): Option<(seq<seq<bytes>>, Option<nat>)> {
    if es == [] then None else
      var front := es[..|es| - 1];
      match es[|es| - 1]
      case Take(v, req, size) => if v == u then Some((req, size)) else Asked(front, u)
      case Dial(v, req, size) => if v == u then Some((req, size)) else Asked(front, u)
      case _ => Asked(front, u)
  }

  /** The calls that returned, in order, with what each had asked for, by the events alone. */
  function Returned(es: seq<Event>): seq<Option<(seq<seq<bytes>>, Option<nat>)>> {
    if es == [] then [] else
      var front := es[..|es| - 1];
      var e := es[|es| - 1];
      if e.Return? then Returned(front) + [Asked(front, e.u)] else Returned(front)
  }

  lemma {:induction false} BusyAsked(cap: nat, n: nat, es: seq<Event>, u: nat)
    requires Possible(cap, Start(n), es)
    ensures var s := Run(cap, Start(n), es);
            u < |s.callers| && s.callers[u].Busy? ==> Asked(es, u) == Some((s.callers[u].req, s.callers[u].size))
    decreases |es|
  {
    hide Possible, Run, Written, Answered, Exchanges.Read, Listen, Parse, ValidRequest, Encode, WellFormed;
    if es == [] {
      assert Run(cap, Start(n), es) == Start(n) by { RunNothing(cap, Start(n), es); }
    } else {
      RunLast(cap, Start(n), es);
      BusyAsked(cap, n, es[..|es| - 1], u);
    }
  }

  lemma RunNothing(cap: nat, s: Pool, es: seq<Event>)
    requires es == []
    ensures Possible(cap, s, es) && Run(cap, s, es) == s
  {
  }

  /** The answers handed out in a run are those of the calls that returned, in order, each under the request that its caller
      had made: with the matching of replies, every caller gets the answers to what it asked. */
  lemma {:induction false} AnswersAreReturns(cap: nat, n: nat, es: seq<Event>)
    requires Possible(cap, Start(n), es)
    ensures var t := Run(cap, Start(n), es);
            && |t.answers| == |Returned(es)|
            && forall k | 0 <= k < |t.answers| :: Returned(es)[k] == Some((t.answers[k].req, t.answers[k].size))
    decreases |es|
  {
    hide Possible, Run, Asked, Written, Answered, Exchanges.Read, Listen, Parse, ValidRequest, Encode, WellFormed;
    if es == [] {
      RunNothing(cap, Start(n), es);
    } else {
      var front := es[..|es| - 1];
      RunLast(cap, Start(n), es);
      AnswersAreReturns(cap, n, front);
      if es[|es| - 1].Return? {
        BusyAsked(cap, n, front, es[|es| - 1].u);
      }
    }
  }
}
