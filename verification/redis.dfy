/** The Redis client as the code runs it (internal/store/redis.go): the pool channel, pipelined round trips, the commands
    Append sends, and the reader of stored points. */
module RedisClient {
  import opened Bytes
  import opened Strconv
  import opened Resp
  import opened RespReader
  import opened Points
  import opened Codec
  import Exchanges
  import opened TrimSchedule
  import opened MemStoreCode
  import Cursors
  import Walks

  // The commands.

  const ZADD: bytes := [90, 65, 68, 68]
  const ZREMRANGEBYRANK: bytes := [90, 82, 69, 77, 82, 65, 78, 71, 69, 66, 89, 82, 65, 78, 75]

  function KeyOf(id: bytes): bytes {
    [116, COLON] + id
  }

  /** The arguments for one point: its timestamp in decimal as the score, and its member. */
  function ScoreMember(p: StoredPoint, n: uint64): seq<bytes> {
    [FormatInt(p.ts), Codec.Encode(p, n)]
  }

  function ScoreMembers(pts: seq<StoredPoint>, start: uint64): (args: seq<bytes>)
    ensures |args| == 2 * |pts|
  {
    if pts == [] then [] else
      ScoreMembers(pts[..|pts| - 1], start) + ScoreMember(pts[|pts| - 1], NextSeq(start, |pts|))
  }

  function ZAddArgs(id: bytes, pts: seq<StoredPoint>, start: uint64): seq<bytes> {
    [ZADD, KeyOf(id)] + ScoreMembers(pts, start)
  }

  function TrimArgs(id: bytes, cap: nat): seq<bytes> {
    [ZREMRANGEBYRANK, KeyOf(id), FormatInt(0), FormatInt(-(cap + 1))]
  }

  /** The pipeline of an Append that is the `w`-th write of its instance. */
  function AppendCommands(id: bytes, pts: seq<StoredPoint>, start: uint64, w: uint64, cap: nat): seq<seq<bytes>> {
    [ZAddArgs(id, pts, start)] + if w % TRIM_EVERY == 0 then [TrimArgs(id, cap)] else []
  }

  const ZRANGEBYSCORE: bytes := [90, 82, 65, 78, 71, 69, 66, 89, 83, 67, 79, 82, 69]
  const ZREVRANGE: bytes := [90, 82, 69, 86, 82, 65, 78, 71, 69]
  const LIMIT: bytes := [76, 73, 77, 73, 84]

  function RangeArgs(id: bytes, to: int64, limit: nat, pos: Cursors.Position): seq<bytes> {
    [ZRANGEBYSCORE, KeyOf(id), FormatInt(pos.ts), FormatInt(to), LIMIT, FormatInt(pos.skip), FormatInt(limit + 1)]
  }

  function RecentArgs(id: bytes, n: nat): seq<bytes> {
    [ZREVRANGE, KeyOf(id), FormatInt(0), FormatInt(n - 1)]
  }

  /** The arguments as the server reads them: a score is the timestamp, a member decodes to its own point and carries its
      own number, and the trim's ranks are 0 and -(cap+1). */
  lemma {:induction false} ArgumentsMean(id: bytes, pts: seq<StoredPoint>, start: uint64, i: nat, cap: nat)
    requires i < |pts| && FitsInt64(-(cap + 1))
    ensures var args := ZAddArgs(id, pts, start);
            && ParseInt(args[2 + 2 * i]) == Some(pts[i].ts)
            && Codec.Decode(args[3 + 2 * i]) == Some(pts[i])
            && |args[3 + 2 * i]| == ENCODED_LEN && MemSeq(args[3 + 2 * i]) == NextSeq(start, i + 1)
    ensures ParseInt(TrimArgs(id, cap)[2]) == Some(0) && ParseInt(TrimArgs(id, cap)[3]) == Some(-(cap + 1))
    decreases |pts|
  {
    hide FormatInt, ParseInt, Codec.Encode, Codec.Decode, MemSeq, NextSeq;
    ParseFormat(0);
    ParseFormat(-(cap + 1));
    var k := |pts| - 1;
    if i < k {
      ArgumentsMean(id, pts[..k], start, i, cap);
    } else {
      ParseFormat(pts[i].ts);
      DecodeEncode(pts[i], NextSeq(start, i + 1));
    }
  }

  function Resolve(a: Arg, backing: bytes): bytes
    requires a.View? ==> a.lo <= a.hi <= |backing|
  {
    match a
    case Own(text) => text
    case View(lo, hi) => backing[lo..hi]
  }

  predicate Inside(args: seq<Arg>, backing: bytes) {
    forall k | 0 <= k < |args| :: args[k].View? ==> args[k].lo <= args[k].hi <= |backing|
  }

  /** The argument list with its views read out of the backing array. */
  function ResolveAll(args: seq<Arg>, backing: bytes): (r: seq<bytes>)
    requires Inside(args, backing)
    ensures |r| == |args|
  {
    seq(|args|, k requires 0 <= k < |args| => Resolve(args[k], backing))
  }

  lemma BatchInside(args: seq<Arg>, backing: bytes, pts: seq<StoredPoint>, start: uint64)
    requires BatchArgs(args, pts) && BatchMembers(backing, pts, start)
    ensures Inside(args, backing)
  {
    hide FormatInt, Codec.Encode;
    forall k | 0 <= k < |args| && args[k].View? ensures args[k].lo <= args[k].hi <= |backing| {
      var i := k / 2;
      assert k == 2 * i || k == 2 * i + 1;
      assert args[2 * i] == Own(FormatInt(pts[i].ts));
      assert args[k] == View(i * ENCODED_LEN, (i + 1) * ENCODED_LEN);
    }
  }

  lemma {:induction false} BatchResolves(args: seq<Arg>, backing: bytes, pts: seq<StoredPoint>, start: uint64)
    requires BatchArgs(args, pts) && BatchMembers(backing, pts, start) && Inside(args, backing)
    ensures ResolveAll(args, backing) == ScoreMembers(pts, start)
    decreases |pts|
  {
    hide FormatInt, Codec.Encode, NextSeq;
    if pts != [] {
      var k := |pts| - 1;
      assert BatchArgs(args[..2 * k], pts[..k]);
      assert BatchMembers(backing, pts[..k], start);
      BatchResolves(args[..2 * k], backing, pts[..k], start);
      assert ResolveAll(args, backing) ==
             ResolveAll(args[..2 * k], backing) + [Resolve(args[2 * k], backing), Resolve(args[2 * k + 1], backing)];
    }
  }

  // Connections.

  /** `out` is what the connection has sent; `r` reads what comes back. */
  class Link {
    const r: Reader
    var out: bytes
    var open: bool

    constructor (r: Reader)
      ensures this.r == r && out == [] && open
    {
      this.r := r;
      out := [];
      open := true;
    }
  }

  lemma PipelineGrows(cmds: seq<seq<bytes>>, k: nat)
    requires k < |cmds|
    ensures Pipeline(cmds[..k + 1]) == Pipeline(cmds[..k]) + Resp.Encode(Command(cmds[k]))
  {
    Exchanges.PipelineSplit(cmds, k);
  }

  /** All commands are written and flushed before the first reply is read; then as many replies are read as commands were
      sent, up to the first error. When the server answers the commands in turn with `ws`, the replies are what those
      answers mean, one for one, and the reader stands exactly behind the last. */
  method Roundtrip(cn: Link, cmds: seq<seq<bytes>>) returns (replies: Result<seq<Value>, Fault>)
    requires cn.r.Valid()
    modifies cn`out, cn.r
    ensures cn.r.Valid()
    ensures cn.out == old(cn.out) + Pipeline(cmds)
    ensures Outcome(replies, cn.r.pos) == ReadMany(cn.r.data, old(cn.r.pos), |cmds|)
    ensures forall ws: seq<Wire> | |ws| == |cmds| && AllWellFormed(ws) && At(cn.r.data, old(cn.r.pos), EncodeAll(ws)) ::
              && replies == MeaningAll(ws)
              && (replies.Ok? ==> cn.r.pos == old(cn.r.pos) + |EncodeAll(ws)|)
  {
    hide ReadReply, Pipeline, Command, Resp.Encode, ReadMany, Prepended, At, AllWellFormed, MeaningAll, EncodeAll;
    AnsweredInTurn(cn.r.data, cn.r.pos, |cmds|);
    var w: bytes := [];
    var j := 0;
    NoCommands(cmds);
    while j < |cmds|
      invariant 0 <= j <= |cmds| && w == Pipeline(cmds[..j])
      invariant cn.out == old(cn.out) && cn.r.pos == old(cn.r.pos)
    {
      var b := EncodeCommand(cmds[j]);
      PipelineGrows(cmds, j);
      w := w + b;
      j := j + 1;
    }
    assert cmds[..j] == cmds;
    cn.out := cn.out + w;
    var vs: seq<Value> := [];
    var i := 0;
    ghost var whole := ReadMany(cn.r.data, cn.r.pos, |cmds|);
    PrependedNone(whole);
    while i < |cmds|
      invariant 0 <= i <= |cmds| && |vs| == i && cn.r.Valid()
      invariant cn.out == old(cn.out) + Pipeline(cmds)
      invariant whole == Prepended(vs, ReadMany(cn.r.data, cn.r.pos, |cmds| - i))
    {
      OneReply(cn.r.data, cn.r.pos, |cmds| - i, vs);
      var v := ReadReplyFrom(cn.r);
      if v.Err? {
        return Err(v.error);
      }
      vs := vs + [v.value];
      i := i + 1;
    }
    AllReplies(cn.r.data, cn.r.pos, vs);
    return Ok(vs);
  }

  lemma AnsweredInTurn(d: bytes, p: nat, n: nat)
    requires p <= |d|
    ensures forall ws: seq<Wire> | |ws| == n && AllWellFormed(ws) && At(d, p, EncodeAll(ws)) ::
              && ReadMany(d, p, n).r == MeaningAll(ws)
              && (MeaningAll(ws).Ok? ==> ReadMany(d, p, n).pos == p + |EncodeAll(ws)|)
  {
    hide At, AllWellFormed, MeaningAll, EncodeAll, ReadMany;
    forall ws: seq<Wire> | |ws| == n && AllWellFormed(ws) && At(d, p, EncodeAll(ws))
      ensures ReadMany(d, p, n).r == MeaningAll(ws)
      ensures MeaningAll(ws).Ok? ==> ReadMany(d, p, n).pos == p + |EncodeAll(ws)|
    {
      ReadEncodedAll(d, p, ws);
    }
  }

  lemma NoCommands(cmds: seq<seq<bytes>>)
    ensures Pipeline(cmds[..0]) == []
  {
  }

  lemma OneReply(d: bytes, p: nat, n: nat, done: seq<Value>)
    requires p <= |d| && n > 0
    ensures var v := ReadReply(d, p);
            && (v.r.Err? ==> Prepended(done, ReadMany(d, p, n)) == Outcome(Err(v.r.error), v.pos))
            && (v.r.Ok? ==> Prepended(done, ReadMany(d, p, n)) == Prepended(done + [v.r.value], ReadMany(d, v.pos, n - 1)))
  {
    hide ReadReply;
    var v := ReadReply(d, p);
    if v.r.Ok? {
      PrependedMore(done, v.r.value, ReadMany(d, v.pos, n - 1));
    }
  }

  lemma AllReplies(d: bytes, p: nat, done: seq<Value>)
    requires p <= |d|
    ensures Prepended(done, ReadMany(d, p, 0)) == Outcome(Ok(done), p)
  {
    assert done + [] == done;
  }

  /** The decoding loop over the backing buffer. */
  method DecodeAll(backing: array<byte>, ghost ms: seq<bytes>, count: nat) returns (pts: seq<StoredPoint>)
    requires count == |ms| && (forall k | 0 <= k < |ms| :: |ms[k]| == ENCODED_LEN) && backing[..] == Concat(ms)
    ensures |pts| == count && forall k | 0 <= k < count :: Codec.Decode(ms[k]) == Some(pts[k])
  {
    hide Codec.Decode, Concat;
    pts := [];
    var i := 0;
    while i < count
      invariant 0 <= i <= count && |pts| == i
      invariant forall k | 0 <= k < i :: Codec.Decode(ms[k]) == Some(pts[k])
    {
      MemberSlice(ms, ENCODED_LEN, i);
      assert backing[..][i * ENCODED_LEN..i * ENCODED_LEN + ENCODED_LEN] == ms[i];
      var p := Codec.Decode(backing[i * ENCODED_LEN..(i + 1) * ENCODED_LEN]);
      pts := pts + [p.value];
      i := i + 1;
    }
  }

  // The store.

  predicate Usable(cn: Link)
    reads cn, cn.r
  {
    cn.open && cn.r.Valid()
  }

  class RedisStore {
    const cap: nat
    const poolSize: nat
    const counter: Counter
    var writes: uint64
    var pool: seq<Link>

    constructor (poolSize: nat, cap: nat)
      ensures this.poolSize == poolSize && this.cap == cap && pool == [] && writes == 0
      ensures fresh(counter) && counter.value == 0
    {
      this.poolSize := poolSize;
      this.cap := cap;
      counter := new Counter();
      writes := 0;
      pool := [];
    }

    /** The oldest pooled connection, or what dialing brings: a connection, or None when it fails. */
    method Get(dialed: Option<Link>) returns (cn: Option<Link>)
      modifies this`pool
      ensures old(pool) != [] ==> cn == Some(old(pool)[0]) && pool == old(pool)[1..]
      ensures old(pool) == [] ==> cn == dialed && pool == []
    {
      if pool != [] {
        cn := Some(pool[0]);
        pool := pool[1..];
      } else {
        cn := dialed;
      }
    }

    method Put(cn: Link)
      modifies this`pool, cn`open
      ensures |old(pool)| < poolSize ==> pool == old(pool) + [cn] && cn.open == old(cn.open)
      ensures |old(pool)| >= poolSize ==> pool == old(pool) && !cn.open
    {
      if |pool| < poolSize {
        pool := pool + [cn];
      } else {
        cn.open := false;
      }
    }

    /** A pipeline on a connection already taken: it goes back to the pool if every reply was read, and is closed if not. */
    method DoOn(cn: Link, cmds: seq<seq<bytes>>) returns (replies: Option<seq<Value>>)
      requires Usable(cn)
      modifies this`pool, cn, cn.r
      ensures cn.r.Valid() && cn.out == old(cn.out) + Pipeline(cmds)
      ensures var o := ReadMany(cn.r.data, old(cn.r.pos), |cmds|);
              && cn.r.pos == o.pos
              && (o.r.Err? ==> replies.None? && pool == old(pool) && !cn.open)
              && (o.r.Ok? ==> replies == Some(o.r.value) && cn.open == (|old(pool)| < poolSize)
                              && pool == if cn.open then old(pool) + [cn] else old(pool))
    {
      hide ReadMany, Pipeline;
      var v := Roundtrip(cn, cmds);
      if v.Err? {
        cn.open := false;
        return None;
      }
      Put(cn);
      return Some(v.value);
    }

    method ZAddCommand(id: bytes, pts: seq<StoredPoint>) returns (zadd: seq<bytes>)
      modifies counter
      ensures zadd == ZAddArgs(id, pts, old(counter.value))
      ensures counter.value == NextSeq(old(counter.value), |pts|)
    {
      hide ScoreMembers, BatchArgs, BatchMembers, NextSeq, Inside, ResolveAll;
      ghost var start := counter.value;
      var args, backing := EncodeMembers(pts, counter);
      BatchInside(args, backing[..], pts, start);
      BatchResolves(args, backing[..], pts, start);
      zadd := [ZADD, KeyOf(id)] + ResolveAll(args, backing[..]);
    }

    /** What an Append does up to sending: numbers its members, counts its write, and adds the trim on each sixteenth. */
    method AppendPipeline(id: bytes, pts: seq<StoredPoint>) returns (cmds: seq<seq<bytes>>)
      modifies this`writes, counter
      ensures writes == NextSeq(old(writes), 1) && counter.value == NextSeq(old(counter.value), |pts|)
      ensures cmds == AppendCommands(id, pts, old(counter.value), writes, cap)
    {
      hide ZAddArgs;
      var zadd := ZAddCommand(id, pts);
      cmds := [zadd];
      writes := (writes + 1) % TWO64;
      if writes % TRIM_EVERY == 0 {
        cmds := cmds + [TrimArgs(id, cap)];
      }
    }

    method Append(id: bytes, pts: seq<StoredPoint>, cn: Link) returns (n: Option<nat>)
      requires Usable(cn)
      modifies this`pool, this`writes, counter, cn, cn.r
      ensures writes == NextSeq(old(writes), 1) && counter.value == NextSeq(old(counter.value), |pts|)
      ensures var cmds := AppendCommands(id, pts, old(counter.value), writes, cap);
              && cn.out == old(cn.out) + Pipeline(cmds)
              && (n.Some? <==> ReadMany(cn.r.data, old(cn.r.pos), |cmds|).r.Ok?)
              && (n.None? ==> !cn.open && pool == old(pool))
              && (n.Some? ==> n.value == |pts| && cn.open == (|old(pool)| < poolSize)
                              && pool == if cn.open then old(pool) + [cn] else old(pool))
    {
      hide ReadMany, Pipeline, AppendCommands, NextSeq;
      var cmds := AppendPipeline(id, pts);
      var replies := DoOn(cn, cmds);
      n := if replies.None? then None else Some(|pts|);
    }

    /** One command whose reply is an array of members: the points they decode to, in order. */
    method ReadPoints(cn: Link, cmd: seq<bytes>) returns (r: Option<seq<StoredPoint>>)
      requires Usable(cn)
      modifies this`pool, cn, cn.r
      ensures cn.r.Valid() && cn.out == old(cn.out) + Resp.Encode(Command(cmd))
      ensures var o := FixedArray(cn.r.data, old(cn.r.pos), ENCODED_LEN);
              && cn.r.pos == o.pos
              && (o.r.Err? ==> r.None? && pool == old(pool) && !cn.open)
              && (o.r.Ok? ==>
                    && r == Some(PointsOf(o.r.value))
                    && cn.open == (|old(pool)| < poolSize) && pool == if cn.open then old(pool) + [cn] else old(pool))
    {
      hide FixedArray, Resp.Encode, Command, Codec.Decode, Concat;
      ghost var o := FixedArray(cn.r.data, cn.r.pos, ENCODED_LEN);
      var b := EncodeCommand(cmd);
      cn.out := cn.out + b;
      var v := ReadFixedBulkArray(cn.r, ENCODED_LEN);
      if v.Err? {
        cn.open := false;
        return None;
      }
      Put(cn);
      var backing, count := v.value.0, v.value.1;
      var pts := DecodeAll(backing, o.r.value, count);
      assert pts == PointsOf(o.r.value);
      return Some(pts);
    }

    /** One page: the cursor is decoded before a connection is taken, and the points of the reply are cut into the page and
        the next cursor. None is the cursor error or a failed call. */
    method Range(id: bytes, from: int64, to: int64, limit: nat, cur: bytes, cn: Link)
        returns (r: Option<(seq<StoredPoint>, bytes)>)
      requires Usable(cn) && limit >= 1
      modifies this`pool, cn, cn.r
      ensures Walks.PositionOf(from, cur).None? ==>
                r.None? && pool == old(pool) && cn.out == old(cn.out) && cn.open && cn.r.pos == old(cn.r.pos)
      ensures Walks.PositionOf(from, cur).Some? ==>
                var pos := Walks.PositionOf(from, cur).value;
                var o := FixedArray(cn.r.data, old(cn.r.pos), ENCODED_LEN);
                && cn.r.Valid() && cn.out == old(cn.out) + Resp.Encode(Command(RangeArgs(id, to, limit, pos)))
                && cn.r.pos == o.pos
                && (o.r.Err? ==> r.None? && pool == old(pool) && !cn.open)
                && (o.r.Ok? ==>
                      && r == Some(PagePoints(PointsOf(o.r.value), limit, pos))
                      && cn.open == (|old(pool)| < poolSize) && pool == if cn.open then old(pool) + [cn] else old(pool))
    {
      hide FixedArray, Resp.Encode, Command, Codec.Decode, Cursors.Decode, PagePoints;
      var curTs, curSkip := from, 0;
      if cur != [] {
        var c := Cursors.Decode(cur);
        if c.None? {
          return None;
        }
        curTs, curSkip := c.value.ts, c.value.skip;
      }
      var cmd := RangeArgs(id, to, limit, Cursors.Position(curTs, curSkip));
      var pts := ReadPoints(cn, cmd);
      if pts.None? {
        return None;
      }
      var page, next := PageOfPoints(pts.value, limit, curTs, curSkip);
      return Some((page, next));
    }

    /** The newest `n` points, in the order of the reply. */
    method Recent(id: bytes, n: nat, cn: Link) returns (r: Option<seq<StoredPoint>>)
      requires Usable(cn)
      modifies this`pool, cn, cn.r
      ensures cn.r.Valid() && cn.out == old(cn.out) + Resp.Encode(Command(RecentArgs(id, n)))
      ensures var o := FixedArray(cn.r.data, old(cn.r.pos), ENCODED_LEN);
              && cn.r.pos == o.pos
              && (o.r.Err? ==> r.None? && pool == old(pool) && !cn.open)
              && (o.r.Ok? ==>
                    && r == Some(PointsOf(o.r.value))
                    && cn.open == (|old(pool)| < poolSize) && pool == if cn.open then old(pool) + [cn] else old(pool))
    {
      hide FixedArray, Resp.Encode, Command, Codec.Decode;
      r := ReadPoints(cn, RecentArgs(id, n));
    }

    /** Closes what is in the pool, and nothing else. */
    method Close()
      modifies this`pool, pool
      ensures pool == [] && forall cn | cn in old(pool) :: !cn.open
    {
      ghost var all := pool;
      ghost var done: nat := 0;
      while pool != []
        invariant done <= |all| && pool == all[done..]
        invariant forall k | 0 <= k < done :: !all[k].open
        decreases |pool|
      {
        var cn := pool[0];
        pool := pool[1..];
        cn.open := false;
        done := done + 1;
      }
    }
  }
}
