/** What the server makes of the reading commands, and what the client makes of its answers (internal/store/redis.go, Range
    and Recent). */
module Readers {
  import opened Bytes
  import opened Strconv
  import opened Resp
  import opened RespFast
  import opened RespReader
  import opened Exchanges
  import opened Codec
  import opened SortedMembers
  import opened Paging
  import opened SortedSets
  import opened RedisClient
  import opened Writers
  import MemStoreCode
  import Cursors
  import Walks

  /** LIMIT offset count. */
  function Limited(w: seq<bytes>, offset: nat, count: nat): seq<bytes> {
    if offset >= |w| then [] else if offset + count >= |w| then w[offset..] else w[offset..offset + count]
  }

  /** The answers to the two reading commands, an array of bulk strings; None for anything else. */
  function ServeRead(db: map<string, seq<bytes>>, args: seq<bytes>): Option<Wire> {
    if |args| < 2 || !IsKey(args[1]) then None else
      var z := SortedMembers.Get(db, IdOf(args[1]));
      if args[0] == ZRANGEBYSCORE && |args| == 7 && AllEncoded(z) then
        var lo, hi, offset, count := ParseInt(args[2]), ParseInt(args[3]), ParseInt(args[5]), ParseInt(args[6]);
        if lo.None? || hi.None? || args[4] != LIMIT || offset.None? || count.None? then None
        else if offset.value < 0 || count.value < 0 then None
        else Some(Command(Limited(RangeByScore(z, lo.value, hi.value), offset.value, count.value)))
      else if args[0] == ZREVRANGE && |args| == 4 then
        var start, stop := ParseInt(args[2]), ParseInt(args[3]);
        if start.None? || stop.None? then None else Some(Command(RevRange(z, start.value, stop.value)))
      else None
  }

  lemma LimitedIsFetched(w: seq<bytes>, skip: nat, limit: nat)
    ensures Limited(w, skip, limit + 1) == Fetched(w, skip, limit)
    ensures AllEncoded(w) ==> AllEncoded(Fetched(w, skip, limit))
    ensures |Fetched(w, skip, limit)| <= limit + 1 && |Fetched(w, skip, limit)| <= |w|
  {
  }

  lemma RangeServed(db: map<string, seq<bytes>>, id: bytes, to: int64, limit: nat, pos: Cursors.Position)
    requires AllEncoded(Device(db, id)) && FitsInt64(pos.skip) && FitsInt64(limit + 1)
    ensures ServeRead(db, RangeArgs(id, to, limit, pos)) ==
            Some(Command(Fetched(RangeByScore(Device(db, id), pos.ts, to), pos.skip, limit)))
  {
    hide FormatInt, ParseInt, RangeByScore, IdOf, Command, Fetched, Limited;
    ParseFormat(pos.ts);
    ParseFormat(to);
    ParseFormat(pos.skip);
    ParseFormat(limit + 1);
    var args := RangeArgs(id, to, limit, pos);
    assert args[0] == ZRANGEBYSCORE && args[1] == KeyOf(id) && IsKey(KeyOf(id));
    LimitedIsFetched(RangeByScore(Device(db, id), pos.ts, to), pos.skip, limit);
  }

  lemma RecentServed(db: map<string, seq<bytes>>, id: bytes, n: nat)
    requires FitsInt64(n)
    ensures ServeRead(db, RecentArgs(id, n)) == Some(Command(RevRange(Device(db, id), 0, n - 1)))
  {
    hide FormatInt, ParseInt, RevRange, IdOf, Command;
    ParseFormat(0);
    ParseFormat(n - 1);
    assert |ZREVRANGE| != |ZRANGEBYSCORE|;
    var args := RecentArgs(id, n);
    assert args[0] == ZREVRANGE && args[1] == KeyOf(id) && IsKey(KeyOf(id));
  }

  /** A command alone on its way is what the server parses. */
  lemma ParseOne(args: seq<bytes>)
    requires Sendable(args)
    ensures var b := Resp.Encode(Command(args)); Parse(b, 0) == Some((args, |b|))
  {
    hide Resp.Encode, Command, Parse;
    var cmds := [args];
    ParseNext(cmds, 0);
    PipelineOne(args);
    assert cmds[..1] == cmds && cmds[..0] == [];
  }

  lemma RangeSendable(id: bytes, to: int64, limit: nat, pos: Cursors.Position)
    requires FitsInt64(|id| + 2) && FitsInt64(pos.skip) && FitsInt64(limit + 1)
    ensures Sendable(RangeArgs(id, to, limit, pos))
  {
    hide FormatInt;
    FormatFits(pos.ts);
    FormatFits(to);
    FormatFits(pos.skip);
    FormatFits(limit + 1);
  }

  lemma RecentSendable(id: bytes, n: nat)
    requires FitsInt64(|id| + 2) && FitsInt64(n)
    ensures Sendable(RecentArgs(id, n))
  {
    hide FormatInt;
    FormatFits(0);
    FormatFits(n - 1);
  }

  /** An answer of encoded members is read back as these members. */
  lemma AnswerRead(ms: seq<bytes>, d: bytes, p: nat)
    requires AllEncoded(ms) && FitsInt64(|ms|) && At(d, p, Resp.Encode(Command(ms)))
    ensures p <= |d| && FixedArray(d, p, ENCODED_LEN) == Outcome(Ok(ms), p + |Resp.Encode(Command(ms))|)
  {
    hide At, Resp.Encode, FixedArray, WellFormed;
    CommandMeans(ms);
    var ws := BulkWires(ms);
    assert AllSized(ws, ENCODED_LEN);
    assert Bodies(ws) == ms;
    FixedEncoded(d, p, Command(ms), ENCODED_LEN);
  }

  /** Range from end to end: the command of a page is parsed by the server as it was meant, and what the client makes of the
      answer is exactly the page, and the cursor, of the sorted set. */
  lemma RangeAnswered(db: map<string, seq<bytes>>, id: bytes, from: int64, to: int64, limit: nat, cur: bytes, d: bytes, p: nat)
    requires AllEncoded(Device(db, id)) && FitsInt64(|id| + 2) && FitsInt64(limit + 1) && limit >= 1
    requires Walks.PositionOf(from, cur).Some?
    ensures var pos := Walks.PositionOf(from, cur).value;
            var args := RangeArgs(id, to, limit, pos);
            var page := SortedSets.Range(Device(db, id), from, to, limit, cur).value;
            && Parse(Resp.Encode(Command(args)), 0) == Some((args, |Resp.Encode(Command(args))|))
            && ServeRead(db, args).Some?
            && (At(d, p, Resp.Encode(ServeRead(db, args).value)) ==>
                  && p <= |d|
                  && var o := FixedArray(d, p, ENCODED_LEN);
                     && o.r.Ok? && o.pos == p + |Resp.Encode(ServeRead(db, args).value)| && AllEncoded(page.members)
                     && MemStoreCode.PagePoints(MemStoreCode.PointsOf(o.r.value), limit, pos) ==
                        (MemStoreCode.PointsOf(page.members), Walks.NextCursor(page)))
  {
    hide At, Resp.Encode, Command, Parse, ServeRead, FixedArray, RangeByScore, Fetched, Device, BuildPage;
    hide MemStoreCode.PagePoints, MemStoreCode.PointsOf, Walks.NextCursor, RangeArgs;
    SkipFits(from, cur);
    var pos := Walks.PositionOf(from, cur).value;
    RangeSendable(id, to, limit, pos);
    ParseOne(RangeArgs(id, to, limit, pos));
    RangeServed(db, id, to, limit, pos);
    var w := RangeByScore(Device(db, id), pos.ts, to);
    var ms := Fetched(w, pos.skip, limit);
    LimitedIsFetched(w, pos.skip, limit);
    MemStoreCode.PagePointsIs(ms, limit, pos);
    if At(d, p, Resp.Encode(Command(ms))) {
      AnswerRead(ms, d, p);
    }
  }

  lemma SkipFits(from: int64, cur: bytes)
    requires Walks.PositionOf(from, cur).Some?
    ensures FitsInt64(Walks.PositionOf(from, cur).value.skip)
  {
    hide ParseInt;
  }

  /** Recent from end to end: what is read are the newest `n` members, newest first, if and only if `n` is at least
      one or the device is empty. */
  lemma RecentAnswered(db: map<string, seq<bytes>>, id: bytes, n: nat, d: bytes, p: nat)
    requires AllEncoded(Device(db, id)) && FitsInt64(|id| + 2) && FitsInt64(n) && FitsInt64(|Device(db, id)|)
    ensures var args := RecentArgs(id, n);
            && Parse(Resp.Encode(Command(args)), 0) == Some((args, |Resp.Encode(Command(args))|))
            && ServeRead(db, args).Some?
            && (At(d, p, Resp.Encode(ServeRead(db, args).value)) ==>
                  && p <= |d|
                  && var o := FixedArray(d, p, ENCODED_LEN);
                     && o.r.Ok? && o.pos == p + |Resp.Encode(ServeRead(db, args).value)|
                     && (o.r.value == Reversed(Last(n, Device(db, id))) <==> n >= 1 || Device(db, id) == []))
  {
    hide At, Resp.Encode, Command, Parse, ServeRead, FixedArray, RevRange, Device, RecentArgs, Reversed, Last;
    var z := Device(db, id);
    RecentSendable(id, n);
    ParseOne(RecentArgs(id, n));
    RecentServed(db, id, n);
    RecentIsNewest(z, n);
    var ms := RevRange(z, 0, n - 1);
    ReversedEncoded(z, n);
    if At(d, p, Resp.Encode(Command(ms))) {
      AnswerRead(ms, d, p);
    }
  }

  lemma ReversedEncoded(z: seq<bytes>, n: nat)
    requires AllEncoded(z)
    ensures AllEncoded(RevRange(z, 0, n - 1)) && |RevRange(z, 0, n - 1)| <= |z|
  {
  }
}
