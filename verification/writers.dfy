/** What the server makes of the bytes that the instances send (internal/store/redis.go, Append): each command of a pipeline
    is one step of the trimming protocol, and the members of different instances collide exactly when point and number do. */
module Writers {
  import opened Bytes
  import opened Strconv
  import opened Resp
  import opened RespFast
  import opened RespReader
  import opened Exchanges
  import opened Points
  import opened Codec
  import opened MemStores
  import opened SortedMembers
  import opened SortedSets
  import opened TrimSchedule
  import opened RedisClient

  // The server.

  predicate IsKey(key: bytes) {
    |key| >= 2 && key[..2] == [116, COLON]
  }

  /** The device a key belongs to. */
  function IdOf(key: bytes): string
    requires IsKey(key)
  {
    seq(|key| - 2, k requires 0 <= k < |key| - 2 => key[k + 2] as char)
  }

  /** What the server holds for a device. */
  function Device(db: map<string, seq<bytes>>, id: bytes): seq<bytes> {
    SortedMembers.Get(db, IdOf(KeyOf(id)))
  }

  /** Different devices have different keys, and the server tells them apart. */
  lemma KeysDiffer(a: bytes, b: bytes)
    ensures KeyOf(a) == KeyOf(b) <==> a == b
    ensures IdOf(KeyOf(a)) == IdOf(KeyOf(b)) <==> a == b
  {
    assert KeyOf(a)[2..] == a && KeyOf(b)[2..] == b;
    if IdOf(KeyOf(a)) == IdOf(KeyOf(b)) {
      var s, t := IdOf(KeyOf(a)), IdOf(KeyOf(b));
      assert |s| == |a| && |t| == |b|;
      forall k | 0 <= k < |a| ensures a[k] == b[k] {
        assert s[k] == a[k] as char && t[k] == b[k] as char;
      }
    }
  }

  /** Every member comes with its own timestamp as the score. */
  predicate WellScored(pairs: seq<bytes>) {
    && |pairs| % 2 == 0
    && forall i | 0 <= i < |pairs| / 2 ::
         |pairs[2 * i + 1]| == ENCODED_LEN && ParseInt(pairs[2 * i]) == Some(MemTS(pairs[2 * i + 1]))
  }

  function MembersOf(pairs: seq<bytes>): seq<bytes> {
    seq(|pairs| / 2, i requires 0 <= i < |pairs| / 2 => pairs[2 * i + 1])
  }

  /** The two writing commands; None for anything else. */
  function Serve(db: map<string, seq<bytes>>, args: seq<bytes>): Option<map<string, seq<bytes>>> {
    if |args| < 2 || !IsKey(args[1]) then None
    else
      var id := IdOf(args[1]);
      if args[0] == ZADD && WellScored(args[2..]) then Some(db[id := ZAddAll(SortedMembers.Get(db, id), MembersOf(args[2..]))])
      else if args[0] == ZREMRANGEBYRANK && |args| == 4 && ParseInt(args[2]).Some? && ParseInt(args[3]).Some? then
        Some(db[id := RemRangeByRank(SortedMembers.Get(db, id), ParseInt(args[2]).value, ParseInt(args[3]).value)])
      else None
  }

  // The commands of an Append, as the server finds them.

  /** Lengths that a Go slice or string can have. */
  predicate Sizes(id: bytes, pts: seq<StoredPoint>, cap: nat) {
    FitsInt64(2 * |pts| + 2) && FitsInt64(|id| + 2) && FitsInt64(-(cap + 1))
  }

  lemma {:induction false} FormatNatShort(n: nat)
    ensures |FormatNat(n)| <= 1 + n / 2
    decreases n
  {
    if n >= 10 {
      FormatNatShort(n / 10);
    }
  }

  lemma FormatFits(v: int64)
    ensures FitsInt64(|FormatInt(v)|)
  {
    FormatNatShort(if v < 0 then -(v as int) else v);
  }

  lemma {:induction false} ScoreMembersAt(pts: seq<StoredPoint>, start: uint64, i: nat)
    requires i < |pts|
    ensures ScoreMembers(pts, start)[2 * i] == FormatInt(pts[i].ts)
    ensures ScoreMembers(pts, start)[2 * i + 1] == Codec.Encode(pts[i], NextSeq(start, i + 1))
    decreases |pts|
  {
    hide FormatInt, Codec.Encode, NextSeq;
    if i < |pts| - 1 {
      ScoreMembersAt(pts[..|pts| - 1], start, i);
    }
  }

  lemma AppendSendable(id: bytes, pts: seq<StoredPoint>, start: uint64, w: uint64, cap: nat)
    requires Sizes(id, pts, cap)
    ensures AllSendable(AppendCommands(id, pts, start, w, cap))
  {
    hide FormatInt, ScoreMembers, Codec.Encode;
    var args := ZAddArgs(id, pts, start);
    forall k | 0 <= k < |args| ensures FitsInt64(|args[k]|) {
      if k >= 2 {
        var i := (k - 2) / 2;
        ScoreMembersAt(pts, start, i);
        FormatFits(pts[i].ts);
        assert k == 2 + 2 * i || k == 2 + (2 * i + 1);
        assert args[k] == ScoreMembers(pts, start)[k - 2];
      }
    }
    FormatFits(0);
    FormatFits(-(cap + 1));
    assert Sendable(args) && Sendable(TrimArgs(id, cap));
  }

  lemma BatchScored(pts: seq<StoredPoint>, start: uint64)
    ensures WellScored(ScoreMembers(pts, start)) && MembersOf(ScoreMembers(pts, start)) == EncodeBatch(pts, start)
  {
    hide FormatInt, ParseInt, ScoreMembers, Codec.Encode, MemTS, NextSeq;
    var pairs := ScoreMembers(pts, start);
    forall i | 0 <= i < |pts|
      ensures |pairs[2 * i + 1]| == ENCODED_LEN && ParseInt(pairs[2 * i]) == Some(MemTS(pairs[2 * i + 1]))
      ensures pairs[2 * i + 1] == EncodeBatch(pts, start)[i]
    {
      ScoreMembersAt(pts, start, i);
      ParseFormat(pts[i].ts);
      DecodeEncode(pts[i], NextSeq(start, i + 1));
    }
  }

  /** The ZADD adds the numbered members of the batch, in order. */
  lemma ServeAdd(db: map<string, seq<bytes>>, id: bytes, pts: seq<StoredPoint>, start: uint64)
    ensures var to := IdOf(KeyOf(id));
            Serve(db, ZAddArgs(id, pts, start)) == Some(db[to := ZAddAll(SortedMembers.Get(db, to), EncodeBatch(pts, start))])
  {
    hide ScoreMembers, EncodeBatch, ZAddAll, WellScored, MembersOf, IdOf;
    BatchScored(pts, start);
    var args := ZAddArgs(id, pts, start);
    assert args[2..] == ScoreMembers(pts, start);
    assert args[0] == ZADD && args[1] == KeyOf(id) && IsKey(KeyOf(id));
  }

  /** The trim keeps the newest `cap`. */
  lemma ServeTrim(db: map<string, seq<bytes>>, id: bytes, cap: nat)
    requires FitsInt64(-(cap + 1))
    ensures var to := IdOf(KeyOf(id));
            Serve(db, TrimArgs(id, cap)) == Some(db[to := RemRangeByRank(SortedMembers.Get(db, to), 0, -(cap + 1))])
  {
    hide FormatInt, ParseInt, RemRangeByRank, WellScored, IdOf;
    ParseFormat(0);
    ParseFormat(-(cap + 1));
    assert |ZREMRANGEBYRANK| != |ZADD|;
    var args := TrimArgs(id, cap);
    assert args[0] == ZREMRANGEBYRANK && args[1] == KeyOf(id) && IsKey(KeyOf(id));
  }

  /** Devices are isolated: what an Append sends for one device leaves every other device as it was. */
  lemma Isolated(db: map<string, seq<bytes>>, id: bytes, other: bytes, pts: seq<StoredPoint>, start: uint64, cap: nat)
    requires other != id && FitsInt64(-(cap + 1))
    ensures var s := Serve(db, ZAddArgs(id, pts, start)); s.Some? && Device(s.value, other) == Device(db, other)
    ensures var s := Serve(db, TrimArgs(id, cap)); s.Some? && Device(s.value, other) == Device(db, other)
  {
    hide KeyOf, IdOf, Serve, ZAddArgs, TrimArgs, ZAddAll, RemRangeByRank, EncodeBatch;
    KeysDiffer(id, other);
    ServeAdd(db, id, pts, start);
    ServeTrim(db, id, cap);
  }

  /** And what is written to a device is there to be read from it. */
  lemma Arrives(db: map<string, seq<bytes>>, id: bytes, pts: seq<StoredPoint>, start: uint64, m: bytes)
    requires StrictlySorted(Device(db, id))
    ensures var s := Serve(db, ZAddArgs(id, pts, start));
            s.Some? && (m in Device(s.value, id) <==> m in Device(db, id) || m in EncodeBatch(pts, start))
  {
    hide KeyOf, IdOf, Serve, ZAddArgs, ZAddAll, EncodeBatch, StrictlySorted;
    ServeAdd(db, id, pts, start);
    ZAddAllStrict(Device(db, id), EncodeBatch(pts, start));
  }

  /** The next command of a whole stream. */
  lemma ParseNext(cmds: seq<seq<bytes>>, k: nat)
    requires AllSendable(cmds) && k < |cmds|
    ensures |Pipeline(cmds[..k])| <= |Pipeline(cmds)|
    ensures Parse(Pipeline(cmds), |Pipeline(cmds[..k])|) == Some((cmds[k], |Pipeline(cmds[..k + 1])|))
  {
    hide Resp.Encode, Command, Pipeline, ReadReply, Bulks;
    var d := Pipeline(cmds);
    var p := |Pipeline(cmds[..k])|;
    PipelineSplit(cmds, k);
    var e := Resp.Encode(Command(cmds[k]));
    AtWhole(d, Pipeline(cmds[..k]), e, Pipeline(cmds[k + 1..]));
    CommandMeans(cmds[k]);
    ReadEncoded(d, p, Command(cmds[k]));
    TextsOfBulks(cmds[k]);
  }

  // The protocol.

  /** The pipeline that an Append of an instance puts under way. */
  predicate SentBy(p: Pipe, id: bytes, pts: seq<StoredPoint>, start: uint64, w: uint64) {
    p.id == IdOf(KeyOf(id)) && p.members == EncodeBatch(pts, start) && p.trims == (w % TRIM_EVERY == 0) && (p.added ==> p.trims)
  }

  /** Every call of traffic with encoded points is an Append: of some points with valid times, numbered from the instance's
      counter on, as its next write. */
  lemma StartIsAppend(s: Sys, i: nat, id: bytes, ms: seq<bytes>, tr: Traffic)
    requires tr.encoded && i < |s.insts| && Lawful(s, Start(i, IdOf(KeyOf(id)), ms), tr)
    ensures var t := Next(s, Start(i, IdOf(KeyOf(id)), ms)); var k := |s.insts[i].queue|;
            exists pts :: ValidTimes(pts) && SentBy(t.insts[i].queue[k], id, pts, s.insts[i].count, t.insts[i].writes)
  {
    hide EncodeBatch, IdOf, NextSeq;
    var pts :| ValidTimes(pts) && ms == EncodeBatch(pts, s.insts[i].count);
    var t := Next(s, Start(i, IdOf(KeyOf(id)), ms));
    assert SentBy(t.insts[i].queue[|s.insts[i].queue|], id, pts, s.insts[i].count, t.insts[i].writes);
  }

  /** The protocol refines the code: whatever else runs in between, the next command that the server parses from the bytes
      of an Append changes its sets exactly as the next step of that pipeline does, and the pipeline is over exactly when
      its bytes are. */
  lemma StepIsCommand(cap: nat, s: Sys, i: nat, j: nat, id: bytes, pts: seq<StoredPoint>, start: uint64, w: uint64)
    requires i < |s.insts| && j < |s.insts[i].queue| && SentBy(s.insts[i].queue[j], id, pts, start, w) && Sizes(id, pts, cap)
    ensures var cmds := AppendCommands(id, pts, start, w, cap);
            var k := if s.insts[i].queue[j].added then 1 else 0;
            var t := Next(s, Advance(i, j));
            && k < |cmds| && |Pipeline(cmds[..k])| <= |Pipeline(cmds)|
            && Parse(Pipeline(cmds), |Pipeline(cmds[..k])|) == Some((cmds[k], |Pipeline(cmds[..k + 1])|))
            && Serve(Exec(cap, s.log), cmds[k]) == Some(Exec(cap, t.log))
            && (if k + 1 < |cmds| then SentBy(t.insts[i].queue[j], id, pts, start, w) && t.insts[i].queue[j].added
                else t.insts[i].queue == Without(s.insts[i].queue, j))
  {
    hide EncodeBatch, ZAddAll, RemRangeByRank, ZAddArgs, TrimArgs, IdOf, Serve, Pipeline, Parse, Without;
    var cmds := AppendCommands(id, pts, start, w, cap);
    var p := s.insts[i].queue[j];
    var k := if p.added then 1 else 0;
    AppendSendable(id, pts, start, w, cap);
    ParseNext(cmds, k);
    ServeAdd(Exec(cap, s.log), id, pts, start);
    ServeTrim(Exec(cap, s.log), id, cap);
    var t := Next(s, Advance(i, j));
    assert t.log[..|t.log| - 1] == s.log;
  }

  // Points that are lost.

  /** A batch grows the set by its size exactly when its members differ from each other and from what is there. */
  lemma {:induction false} GrowsFully(z: seq<bytes>, ms: seq<bytes>)
    requires StrictlySorted(z)
    ensures |ZAddAll(z, ms)| == |z| + |ms| <==> Distinct(ms) && forall x | x in ms :: x !in z
    decreases |ms|
  {
    hide StrictlySorted, Insert;
    if ms != [] {
      var rest := ms[1..];
      ZAddStrict(z, ms[0]);
      var next := ZAdd(z, ms[0]);
      ZAddAllStrict(next, rest);
      GrowsFully(next, rest);
      DistinctHead(ms);
      assert ms == [ms[0]] + rest;
    }
  }

  lemma DistinctHead(ms: seq<bytes>)
    requires ms != []
    ensures Distinct(ms) <==> Distinct(ms[1..]) && ms[0] !in ms[1..]
  {
    var rest := ms[1..];
    if Distinct(rest) && ms[0] !in rest {
      forall i, j | 0 <= i < j < |ms| ensures ms[i] != ms[j] {
        assert ms[j] == rest[j - 1];
        if i > 0 {
          assert ms[i] == rest[i - 1];
        }
      }
    }
    if Distinct(ms) {
      forall i, j | 0 <= i < j < |rest| ensures rest[i] != rest[j] {
        assert ms[i + 1] != ms[j + 1];
      }
      forall j | 0 <= j < |rest| ensures ms[0] != rest[j] {
        assert rest[j] == ms[j + 1];
      }
    }
  }

  /** Members are equal exactly when the points and the numbers are. */
  lemma SameMember(p: StoredPoint, s: uint64, q: StoredPoint, t: uint64)
    ensures Codec.Encode(p, s) == Codec.Encode(q, t) <==> p == q && s == t
  {
    hide Codec.Encode;
    if Codec.Encode(p, s) == Codec.Encode(q, t) {
      EncodeInjective(p, s, q, t);
    }
  }

  /** The same point under the same number, in both batches. */
  predicate Collide(pts: seq<StoredPoint>, s: uint64, qts: seq<StoredPoint>, t: uint64) {
    exists i, j :: 0 <= i < |pts| && 0 <= j < |qts| && pts[i] == qts[j] && NextSeq(s, i + 1) == NextSeq(t, j + 1)
  }

  lemma NumbersDiffer(s: uint64, i: nat, j: nat)
    requires i < j < i + TWO64
    ensures NextSeq(s, i) != NextSeq(s, j)
  {
  }

  lemma BatchDistinct(pts: seq<StoredPoint>, s: uint64)
    requires |pts| <= TWO64
    ensures Distinct(EncodeBatch(pts, s))
  {
    hide Codec.Encode, NextSeq;
    var ms := EncodeBatch(pts, s);
    forall i, j | 0 <= i < j < |ms| ensures ms[i] != ms[j] {
      SameMember(pts[i], NextSeq(s, i + 1), pts[j], NextSeq(s, j + 1));
      NumbersDiffer(s, i + 1, j + 1);
    }
  }

  lemma CollisionIsShared(pts: seq<StoredPoint>, s: uint64, qts: seq<StoredPoint>, t: uint64)
    ensures Collide(pts, s, qts, t) <==> exists x :: x in EncodeBatch(pts, s) && x in EncodeBatch(qts, t)
  {
    hide Codec.Encode, NextSeq;
    var ms, ns := EncodeBatch(pts, s), EncodeBatch(qts, t);
    if Collide(pts, s, qts, t) {
      var i, j :| 0 <= i < |pts| && 0 <= j < |qts| && pts[i] == qts[j] && NextSeq(s, i + 1) == NextSeq(t, j + 1);
      assert ms[i] in ms && ns[j] in ns && ms[i] == ns[j];
    } else if exists x :: x in ms && x in ns {
      var x :| x in ms && x in ns;
      var i :| 0 <= i < |ms| && ms[i] == x;
      var j :| 0 <= j < |ns| && ns[j] == x;
      SameMember(pts[i], NextSeq(s, i + 1), qts[j], NextSeq(t, j + 1));
      assert false;
    }
  }

  /** Sequence numbers do not make members unique across instances: two batches of any two instances are both stored whole
      if and only if no point of the one equals, number included, a point of the other. */
  lemma BothStored(pts: seq<StoredPoint>, s: uint64, qts: seq<StoredPoint>, t: uint64)
    requires |pts| <= TWO64 && |qts| <= TWO64
    ensures |ZAddAll(ZAddAll([], EncodeBatch(pts, s)), EncodeBatch(qts, t))| == |pts| + |qts| <==> !Collide(pts, s, qts, t)
  {
    hide EncodeBatch, ZAddAll, Collide, StrictlySorted, Distinct;
    var ms, ns := EncodeBatch(pts, s), EncodeBatch(qts, t);
    var z := ZAddAll([], ms);
    EmptyStrict();
    BatchDistinct(pts, s);
    BatchDistinct(qts, t);
    GrowsFully([], ms);
    ZAddAllStrict([], ms);
    GrowsFully(z, ns);
    CollisionIsShared(pts, s, qts, t);
  }

  /** For a whole history: no point is lost but by trimming exactly when no member was added twice. */
  lemma NothingDropped(cs: seq<Cmd>, id: string)
    ensures |Full(cs, id)| == |Added(cs, id)| <==> Distinct(Added(cs, id))
  {
    hide ZAddAll, StrictlySorted;
    EmptyStrict();
    GrowsFully([], Added(cs, id));
  }

  lemma {:induction false} AllThere(z: seq<bytes>, ms: seq<bytes>)
    requires forall x | x in ms :: x in z
    ensures ZAddAll(z, ms) == z
    decreases |ms|
  {
    if ms != [] {
      AllThere(z, ms[1..]);
    }
  }

  /** Two instances that have just started number alike: of points sent once through each, one copy is kept. */
  lemma FreshInstancesCollide(pts: seq<StoredPoint>)
    requires |pts| <= TWO64
    ensures |ZAddAll(ZAddAll([], EncodeBatch(pts, 0)), EncodeBatch(pts, 0))| == |pts|
  {
    hide EncodeBatch, ZAddAll;
    var ms := EncodeBatch(pts, 0);
    EmptyStrict();
    BatchDistinct(pts, 0);
    GrowsFully([], ms);
    ZAddAllStrict([], ms);
    AllThere(ZAddAll([], ms), ms);
  }
}
