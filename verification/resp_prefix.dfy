/** Replies arrive in pieces: what a reader makes of the bytes that are there, it makes of any longer stream too, unless it
    ran into the end and would have waited (internal/resp/resp.go). */
module RespPrefix {
  import opened Bytes
  import opened Strconv
  import opened Resp

  predicate Decided<T(==)>(o: Outcome<T>) {
    o.r != Err(Eof)
  }

  lemma {:induction false} LineFeedPrefix(d: bytes, n: nat, p: nat)
    requires p <= n <= |d| && LineFeed(d[..n], p) < n
    ensures LineFeed(d, p) == LineFeed(d[..n], p)
    decreases n - p
  {
    if p < n && d[p] != LF {
      LineFeedPrefix(d, n, p + 1);
    }
  }

  lemma ReadLinePrefix(d: bytes, n: nat, p: nat)
    requires p <= n <= |d| && Decided(ReadLine(d[..n], p))
    ensures ReadLine(d, p) == ReadLine(d[..n], p)
  {
    LineFeedPrefix(d, n, p);
    var j := LineFeed(d, p);
    if j > p && d[j - 1] == CR {
      assert d[..n][p..j - 1] == d[p..j - 1];
    }
  }

  lemma ReadBulkPrefix(d: bytes, n: nat, p: nat, line: bytes)
    requires p <= n <= |d| && Decided(ReadBulk(d[..n], p, line))
    ensures ReadBulk(d, p, line) == ReadBulk(d[..n], p, line)
  {
    hide ParseInt;
    var v := ParseInt(line);
    if v.Some? && v.value >= 0 {
      assert d[..n][p..p + v.value] == d[p..p + v.value];
    }
  }

  lemma {:induction false} ReadReplyPrefix(d: bytes, n: nat, p: nat)
    requires p <= n <= |d| && Decided(ReadReply(d[..n], p))
    ensures ReadReply(d, p) == ReadReply(d[..n], p)
    decreases n - p, 0, 0
  {
    hide ReadLine, ParseInt, ReadBulk;
    ReadLinePrefix(d, n, p + 1);
    var line := ReadLine(d, p + 1);
    if line.r.Ok? {
      if d[p] == DOLLAR {
        ReadBulkPrefix(d, n, line.pos, line.r.value);
      } else if d[p] == STAR {
        var count := ParseInt(line.r.value);
        if count.Some? && count.value >= 0 {
          ReadManyPrefix(d, n, line.pos, count.value);
        }
      }
    }
  }

  lemma {:induction false} ReadManyPrefix(d: bytes, n: nat, p: nat, k: nat)
    requires p <= n <= |d| && Decided(ReadMany(d[..n], p, k))
    ensures ReadMany(d, p, k) == ReadMany(d[..n], p, k)
    decreases n - p, 1, k
  {
    hide ReadReply;
    if k > 0 {
      ReadReplyPrefix(d, n, p);
      var v := ReadReply(d, p);
      if v.r.Ok? {
        ReadManyPrefix(d, n, v.pos, k - 1);
      }
    }
  }

  lemma {:induction false} IntLinePrefix(d: bytes, n: nat, p: nat, acc: int64, neg: bool, seen: bool)
    requires p <= n <= |d| && Decided(IntLineFrom(d[..n], p, acc, neg, seen))
    ensures IntLineFrom(d, p, acc, neg, seen) == IntLineFrom(d[..n], p, acc, neg, seen)
    decreases n - p
  {
    hide Wrap64;
    if d[p] == CR {
    } else if d[p] == MINUS && !seen && !neg {
      IntLinePrefix(d, n, p + 1, acc, true, seen);
    } else if IsDigit(d[p]) {
      IntLinePrefix(d, n, p + 1, Wrap64(10 * acc + (d[p] - ZERO)), neg, true);
    }
  }

  lemma FixedMemberPrefix(d: bytes, n: nat, p: nat, size: nat)
    requires p <= n <= |d| && Decided(FixedMember(d[..n], p, size))
    ensures FixedMember(d, p, size) == FixedMember(d[..n], p, size)
  {
    hide IntLineFrom;
    if d[p] == DOLLAR {
      IntLinePrefix(d, n, p + 1, 0, false, false);
      var v := IntLine(d, p + 1);
      if v.r.Ok? && v.r.value == size {
        assert d[..n][v.pos..v.pos + size] == d[v.pos..v.pos + size];
      }
    }
  }

  lemma {:induction false} FixedMembersPrefix(d: bytes, n: nat, p: nat, size: nat, k: nat)
    requires p <= n <= |d| && Decided(FixedMembers(d[..n], p, size, k))
    ensures FixedMembers(d, p, size, k) == FixedMembers(d[..n], p, size, k)
    decreases k
  {
    hide FixedMember;
    if k > 0 {
      FixedMemberPrefix(d, n, p, size);
      var m := FixedMember(d, p, size);
      if m.r.Ok? {
        FixedMembersPrefix(d, n, m.pos, size, k - 1);
      }
    }
  }

  lemma FixedArrayPrefix(d: bytes, n: nat, p: nat, size: nat)
    requires p <= n <= |d| && Decided(FixedArray(d[..n], p, size))
    ensures FixedArray(d, p, size) == FixedArray(d[..n], p, size)
  {
    hide IntLineFrom, FixedMembers, ReadLine;
    if d[p] == MINUS {
      ReadLinePrefix(d, n, p + 1);
    } else if d[p] == STAR {
      IntLinePrefix(d, n, p + 1, 0, false, false);
      var v := IntLine(d, p + 1);
      if v.r.Ok? && v.r.value > 0 {
        FixedMembersPrefix(d, n, v.pos, size, v.r.value);
      }
    }
  }
}
