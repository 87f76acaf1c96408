/** Robust I/O: file descriptors as oracles, the retrying writer and the buffered reader. */
module Rio {
  import opened Bytes

  datatype Errno = NoError | Interrupted | Failed

  /** A descriptor read from. `pending` is everything up to end of file; each read takes any non-empty prefix
      it likes, may be interrupted a bounded number of times and fails only when the descriptor is unreliable. */
  class Source {
    var pending: seq<byte>
    var interrupts: nat
    const reliable: bool

    constructor (stream: seq<byte>, interrupts: nat, reliable: bool)
      ensures pending == stream && this.interrupts == interrupts && this.reliable == reliable
    {
      this.pending, this.interrupts, this.reliable := stream, interrupts, reliable;
    }

    method Read(buf: array<byte>, at: nat, max: nat) returns (count: int, errno: Errno)
      requires 0 < max && at + max <= buf.Length
      modifies this, buf
      ensures count == -1 || 0 <= count <= max
      ensures count == -1 ==> pending == old(pending) && errno != NoError
      ensures count == -1 && errno == Interrupted ==> interrupts < old(interrupts)
      ensures count == -1 && errno == Failed ==> !reliable
      ensures count >= 0 ==> interrupts == old(interrupts) && errno == NoError
      ensures count >= 0 ==> (count == 0 <==> old(pending) == [])
      ensures count >= 0 ==> count <= |old(pending)| && pending == old(pending)[count..]
      ensures count >= 0 ==> buf[at..at + count] == old(pending)[..count]
      ensures forall i | 0 <= i < buf.Length && !(at <= i < at + count) :: buf[i] == old(buf[i])
    {
      var interrupted: bool, failed: bool := *, *;
      if interrupts > 0 && interrupted {
        interrupts := interrupts - 1;
        return -1, Interrupted;
      }
      if !reliable && failed {
        return -1, Failed;
      }
      var k: nat := 0;
      if pending != [] {
        assert 0 < 1 <= max && 1 <= |pending|;
        k :| 0 < k <= max && k <= |pending|;
      }
      forall i | 0 <= i < k {
        buf[at + i] := pending[i];
      }
      pending := pending[k..];
      count, errno := k, NoError;
    }
  }

  /** A descriptor written to; each write takes any non-empty prefix. */
  class Sink {
    var written: seq<byte>
    var interrupts: nat
    const reliable: bool

    constructor (interrupts: nat, reliable: bool)
      ensures written == [] && this.interrupts == interrupts && this.reliable == reliable
    {
      this.written, this.interrupts, this.reliable := [], interrupts, reliable;
    }

    method Write(data: seq<byte>) returns (count: int, errno: Errno)
      requires data != []
      modifies this
      ensures count <= |data|
      ensures count > 0 ==> written == old(written) + data[..count] && interrupts == old(interrupts)
      ensures count <= 0 ==> written == old(written) && errno != NoError
      ensures count <= 0 && errno == Interrupted ==> interrupts < old(interrupts)
      ensures count <= 0 && errno == Failed ==> !reliable
    {
      var interrupted: bool, failed: bool := *, *;
      if interrupts > 0 && interrupted {
        interrupts := interrupts - 1;
        return -1, Interrupted;
      }
      if !reliable && failed {
        return -1, Failed;
      }
      assert 0 < 1 <= |data|;
      var k :| 0 < k <= |data|;
      written := written + data[..k];
      count, errno := k, NoError;
    }
  }

  method StoreBytes(a: array<byte>, at: nat, s: seq<byte>)
    requires at + |s| <= a.Length
    modifies a
    ensures a[at..at + |s|] == s
    ensures forall i | 0 <= i < a.Length && !(at <= i < at + |s|) :: a[i] == old(a[i])
  {
    forall i | 0 <= i < |s| {
      a[at + i] := s[i];
    }
  }

  lemma TakeNext(s: seq<byte>, i: nat, n: nat)
    requires i + n <= |s|
    ensures s[..i] + s[i..][..n] == s[..i + n] && s[i..][n..] == s[i + n..]
  {
  }

  /** Writes every byte exactly once and in order, however writes are split and interrupted. */
  method Writen(fd: Sink, data: seq<byte>) returns (n: int)
    modifies fd
    ensures n == |data| || n == -1
    ensures n == |data| ==> fd.written == old(fd.written) + data
    ensures n == -1 ==> !fd.reliable && exists k :: 0 <= k < |data| && fd.written == old(fd.written) + data[..k]
  {
    var nleft, bufp := |data|, 0;
    while nleft > 0
      invariant 0 <= nleft && 0 <= bufp && bufp + nleft == |data|
      invariant fd.written == old(fd.written) + data[..bufp]
      decreases nleft, fd.interrupts
    {
      var nwritten, errno := fd.Write(data[bufp..]);
      if nwritten <= 0 {
        if errno == Interrupted {
          nwritten := 0;
        } else {
          return -1;
        }
      }
      TakeNext(data, bufp, nwritten);
      nleft := nleft - nwritten;
      bufp := bufp + nwritten;
    }
    assert data[..bufp] == data;
    return |data|;
  }

  const RIO_BUFSIZE: nat := 8192

  function Min(a: nat, b: nat): nat {
    if a < b then a else b
  }

  /** Length of the shortest prefix of s that ends in a newline, or |s| when there is none. */
  function LineEnd(s: seq<byte>): (n: nat)
    ensures n <= |s|
    ensures forall i | 0 <= i < n - 1 :: s[i] != NEWLINE
    ensures n == |s| || (n > 0 && s[n - 1] == NEWLINE)
  {
    if s == [] then 0 else if s[0] == NEWLINE then 1 else 1 + LineEnd(s[1..])
  }

  /** The most that a line may store. */
  function Cap(maxlen: nat): nat {
    if maxlen == 0 then 0 else maxlen - 1
  }

  /** Bytes rio_readlineb stores: through the newline, but at most maxlen - 1. */
  function LineStored(s: seq<byte>, maxlen: nat): (n: nat)
    ensures n <= |s|
  {
    Min(LineEnd(s), Cap(maxlen))
  }

  /** Its result: the stored count for a whole line, 0 at end of file, otherwise one more than the stored count. */
  function LineResult(s: seq<byte>, maxlen: nat): int {
    var k := LineStored(s, maxlen);
    if k > 0 && s[k - 1] == NEWLINE then k
    else if s == [] && maxlen > 1 then 0
    else k + 1
  }

  /** rio_t: a descriptor with an internal buffer. */
  class Reader {
    const fd: Source
    var cnt: int
    var bufptr: nat
    const buf: array<byte>

    ghost predicate Valid()
      reads this
    {
      buf.Length > 0 && cnt <= buf.Length && (cnt > 0 ==> bufptr + cnt <= buf.Length)
    }

    /** The bytes a caller has still to see. */
    ghost function Unread(): seq<byte>
      reads this, buf, fd
      requires Valid()
    {
      (if cnt > 0 then buf[bufptr..bufptr + cnt] else []) + fd.pending
    }

    constructor (fd: Source)
      ensures Valid() && this.fd == fd && fresh(buf) && buf.Length == RIO_BUFSIZE
      ensures Unread() == fd.pending
    {
      this.fd, this.cnt, this.bufptr := fd, 0, 0;
      this.buf := new byte[RIO_BUFSIZE];
    }

    /** The refilling loop of rio_read: 1 when the buffer holds something, 0 at end of file, -1 on failure. */
    method Refill() returns (status: int)
      requires Valid()
      modifies this, buf, fd
      ensures Valid() && Unread() == old(Unread())
      ensures status == 1 || status == 0 || status == -1
      ensures status == 1 ==> cnt > 0
      ensures status == 0 ==> Unread() == []
      ensures status == -1 ==> !fd.reliable
    {
      ghost var s := Unread();
      while cnt <= 0
        invariant Valid() && Unread() == s
        decreases fd.interrupts, 1 - cnt
      {
        ghost var before := fd.pending;
        var errno;
        cnt, errno := fd.Read(buf, 0, buf.Length);
        if cnt < 0 {
          if errno != Interrupted {
            return -1;
          }
        } else if cnt == 0 {
          return 0;
        } else {
          bufptr := 0;
          assert before == before[..cnt] + before[cnt..];
        }
      }
      return 1;
    }

    /** rio_read: refill if the buffer is empty, then copy min(n, cnt) bytes to usrbuf[at..]. */
    method Read(usrbuf: array<byte>, at: nat, n: nat) returns (count: int)
      requires Valid() && usrbuf != buf && n > 0 && at + n <= usrbuf.Length
      modifies this, buf, fd, usrbuf
      ensures Valid()
      ensures count == -1 || (0 <= count <= n && (count == 0 <==> old(Unread()) == []))
      ensures count == -1 ==> !fd.reliable && Unread() == old(Unread())
      ensures count >= 0 ==> count <= |old(Unread())| && Unread() == old(Unread())[count..]
      ensures count >= 0 ==> usrbuf[at..at + count] == old(Unread())[..count]
      ensures forall i | 0 <= i < usrbuf.Length && !(at <= i < at + count) :: usrbuf[i] == old(usrbuf[i])
    {
      var status := Refill();
      if status <= 0 {
        return status;
      }
      count := if cnt < n then cnt else n;
      CopyOut(usrbuf, at, count);
    }

    /** The memcpy of rio_read, and the move of the buffer position past it. */
    method CopyOut(usrbuf: array<byte>, at: nat, c: nat)
      requires Valid() && usrbuf != buf && 0 < c <= cnt && at + c <= usrbuf.Length
      modifies this, usrbuf
      ensures Valid() && c <= |old(Unread())|
      ensures Unread() == old(Unread())[c..] && usrbuf[at..at + c] == old(Unread())[..c]
      ensures forall i | 0 <= i < usrbuf.Length && !(at <= i < at + c) :: usrbuf[i] == old(usrbuf[i])
    {
      UnreadStarts(c);
      hide Unread;
      StoreBytes(usrbuf, at, buf[bufptr..bufptr + c]);
      Advance(c);
    }

    lemma UnreadStarts(c: nat)
      requires Valid() && 0 < c <= cnt
      ensures c <= |Unread()| && Unread()[..c] == buf[bufptr..bufptr + c]
    {
      var held := buf[bufptr..bufptr + cnt];
      assert Unread() == held + fd.pending && held[..c] == buf[bufptr..bufptr + c];
    }

    method Advance(c: nat)
      requires Valid() && 0 < c <= cnt
      modifies this
      ensures Valid() && c <= |old(Unread())| && Unread() == old(Unread())[c..]
    {
      ghost var held, pending := buf[bufptr..bufptr + cnt], fd.pending;
      assert Unread() == held + pending;
      bufptr, cnt := bufptr + c, cnt - c;
      assert held[c..] == if cnt > 0 then buf[bufptr..bufptr + cnt] else [];
      assert (held + pending)[c..] == held[c..] + pending;
    }

    /** rio_read of a single character. */
    method ReadChar() returns (rc: int, c: byte)
      requires Valid()
      modifies this, buf, fd
      ensures Valid()
      ensures rc == -1 || rc == 0 || rc == 1
      ensures rc == -1 ==> !fd.reliable && Unread() == old(Unread())
      ensures rc == 0 ==> old(Unread()) == [] && Unread() == []
      ensures rc == 1 ==> old(Unread()) == [c] + Unread()
    {
      var cell := new byte[1];
      rc := Read(cell, 0, 1);
      c := cell[0];
      assert rc == 1 ==> cell[0..1] == old(Unread())[..1];
    }

    /** rio_readnb: exactly n bytes unless the stream ends first. */
    method Readnb(usrbuf: array<byte>, n: nat) returns (count: int)
      requires Valid() && usrbuf != buf && n <= usrbuf.Length
      modifies this, buf, fd, usrbuf
      ensures Valid()
      ensures count >= 0 ==> count == Min(n, |old(Unread())|)
      ensures count >= 0 ==> Unread() == old(Unread())[count..]
      ensures count >= 0 ==> usrbuf[..count] == old(Unread())[..count]
      ensures forall i | count <= i < usrbuf.Length && i >= n :: usrbuf[i] == old(usrbuf[i])
      ensures count < 0 ==> !fd.reliable && exists k | 0 <= k <= n ::
                (k <= |old(Unread())| && Unread() == old(Unread())[k..] && usrbuf[..k] == old(Unread())[..k])
    {
      hide Unread;
      ghost var s := Unread();
      var nleft, bufp := n, 0;
      while nleft > 0
        invariant Valid() && 0 <= nleft && 0 <= bufp <= |s| && bufp + nleft == n
        invariant Unread() == s[bufp..] && usrbuf[..bufp] == s[..bufp]
        invariant forall i | n <= i < usrbuf.Length :: usrbuf[i] == old(usrbuf[i])
      {
        ghost var head := usrbuf[..bufp];
        var nread := Read(usrbuf, bufp, nleft);
        assert usrbuf[..bufp] == head;
        if nread < 0 {
          return -1;
        } else if nread == 0 {
          break;
        }
        TakeNext(s, bufp, nread);
        assert usrbuf[..bufp + nread] == head + usrbuf[bufp..bufp + nread] == s[..bufp + nread];
        nleft, bufp := nleft - nread, bufp + nread;
      }
      return n - nleft;
    }

    /** rio_readlineb: one text line, stored with a final NUL. */
    method Readlineb(usrbuf: array<byte>, maxlen: nat) returns (n: int)
      requires Valid() && usrbuf != buf && 0 < usrbuf.Length && maxlen <= usrbuf.Length
      modifies this, buf, fd, usrbuf
      ensures Valid()
      ensures n >= 0 ==> var s, k := old(Unread()), LineStored(old(Unread()), maxlen);
              && n == LineResult(s, maxlen) && Unread() == s[k..]
              && (n > 0 ==> usrbuf[..k] == s[..k] && k < usrbuf.Length && usrbuf[k] == NUL)
      ensures n < 0 ==> !fd.reliable && exists k | 0 <= k < usrbuf.Length ::
                (k <= |old(Unread())| && Unread() == old(Unread())[k..] && usrbuf[..k] == old(Unread())[..k])
    {
      hide LineEnd, LineStored, LineResult, Unread;
      ghost var s := Unread();
      var bufp := 0;
      n := 1;
      while n < maxlen
        invariant Valid()
        invariant bufp == n - 1 <= |s| && (n == 1 || n <= maxlen)
        invariant Unread() == s[bufp..] && usrbuf[..bufp] == s[..bufp]
        invariant forall i | 0 <= i < bufp :: s[i] != NEWLINE
      {
        var rc, c := ReadChar();
        if rc == 1 {
          assert s[bufp..][0] == c && Unread() == s[bufp..][1..];
          StoreByte(usrbuf, bufp, c);
          bufp := bufp + 1;
          if c == NEWLINE {
            break;
          }
        } else if rc == 0 {
          if n == 1 {
            LineStops(s, maxlen, 0, 0);
            return 0;
          } else {
            break;
          }
        } else {
          return -1;
        }
        n := n + 1;
      }
      LineStops(s, maxlen, bufp, n);
      StoreByte(usrbuf, bufp, NUL);
    }
  }

  method StoreByte(a: array<byte>, i: nat, b: byte)
    requires i < a.Length
    modifies a
    ensures a[i] == b && a[..i] == old(a[..i]) && a[..i + 1] == old(a[..i]) + [b]
  {
    a[i] := b;
  }

  /** Where the copying loop of rio_readlineb leaves off, and with which counter. */
  lemma LineStops(s: seq<byte>, maxlen: nat, k: nat, n: nat)
    requires k <= |s| && (k == 0 || k < maxlen)
    requires forall i | 0 <= i < k - 1 :: s[i] != NEWLINE
    requires (k > 0 && s[k - 1] == NEWLINE && n == k)
          || ((k > 0 ==> s[k - 1] != NEWLINE) && n == k + 1 && (n >= maxlen || k == |s| > 0))
          || (s == [] && n == 0 && maxlen > 1)
    ensures LineStored(s, maxlen) == k && LineResult(s, maxlen) == n
  {
  }

  // ---- Interleaved calls

  datatype Call = CallReadnb(n: nat) | CallReadlineb(maxlen: nat)

  /** The space a call may fill. */
  function Room(call: Call): nat {
    match call case CallReadnb(n) => n case CallReadlineb(maxlen) => maxlen
  }

  function Taken(call: Call, s: seq<byte>): (k: nat)
    ensures k <= |s|
  {
    match call case CallReadnb(n) => Min(n, |s|) case CallReadlineb(maxlen) => LineStored(s, maxlen)
  }

  /** What each call of a list delivers. */
  function Deliveries(calls: seq<Call>, s: seq<byte>): seq<seq<byte>> {
    if calls == [] then []
    else var k := Taken(calls[0], s); [s[..k]] + Deliveries(calls[1..], s[k..])
  }

  function Left(calls: seq<Call>, s: seq<byte>): seq<byte> {
    if calls == [] then s else Left(calls[1..], s[Taken(calls[0], s)..])
  }

  /** Whatever calls are mixed, their deliveries are consecutive pieces of the stream: none lost, none repeated. */
  lemma {:induction false} DeliveriesAreConsecutive(calls: seq<Call>, s: seq<byte>)
    ensures Concat(Deliveries(calls, s)) + Left(calls, s) == s
  {
    if calls != [] {
      var k := Taken(calls[0], s);
      DeliveriesAreConsecutive(calls[1..], s[k..]);
      assert s == s[..k] + s[k..];
    }
  }

  lemma NewlineWithin(s: seq<byte>, n: nat)
    requires n <= |s|
    ensures NEWLINE in s[..n] <==> 0 < LineEnd(s) <= n && s[LineEnd(s) - 1] == NEWLINE
  {
    hide LineEnd;
    var k := LineEnd(s);
    if k <= n {
      if k > 0 && s[k - 1] == NEWLINE {
        assert s[..n][k - 1] == NEWLINE;
      } else {
        assert n == |s| == k && s[..n] == s;
      }
    } else {
      assert forall i | 0 <= i < n :: s[..n][i] == s[i];
    }
  }

  /** A stored line is the shortest prefix through a newline, or is cut by the cap or the end of the stream. The result
      is the number of bytes stored exactly when the stream has a newline within the cap, or has ended; otherwise it is
      one more. */
  lemma LineStoredMeaning(s: seq<byte>, maxlen: nat)
    ensures var k, cap := LineStored(s, maxlen), if maxlen == 0 then 0 else maxlen - 1;
            && k <= cap
            && (forall i | 0 <= i < k - 1 :: s[i] != 10)
            && (k == cap || k == |s| || (k > 0 && s[k - 1] == 10))
            && (LineResult(s, maxlen) == k <==> 10 in s[..if cap < |s| then cap else |s|] || (s == [] && maxlen > 1))
            && (LineResult(s, maxlen) == k || LineResult(s, maxlen) == k + 1)
  {
    NewlineWithin(s, Min(Cap(maxlen), |s|));
  }

  /** A last line without its newline: one byte is stored, and the result is two. */
  lemma LastLineCountsOneMore()
    ensures LineStored([65], 10) == 1 && LineResult([65], 10) == 2
  {
    assert LineEnd([65]) == 1;
  }

  lemma NoCalls(s: seq<byte>)
    ensures Deliveries([], s) == [] && Left([], s) == s
  {
  }

  lemma CallStep(calls: seq<Call>, i: nat, s: seq<byte>)
    requires i < |calls|
    ensures var k := Taken(calls[i], s);
            && Deliveries(calls[i..], s) == [s[..k]] + Deliveries(calls[i + 1..], s[k..])
            && Left(calls[i..], s) == Left(calls[i + 1..], s[k..])
  {
    assert calls[i..][0] == calls[i] && calls[i..][1..] == calls[i + 1..];
  }

  /** Runs any interleaving on a reader. The length of a stored line shows in its last byte: a newline, or the NUL. */
  method RunCalls(reader: Reader, calls: seq<Call>, usrbuf: array<byte>) returns (delivered: seq<seq<byte>>)
    requires reader.Valid() && reader.fd.reliable && usrbuf != reader.buf && 0 < usrbuf.Length
    requires forall c | c in calls :: Room(c) <= usrbuf.Length
    modifies reader, reader.buf, reader.fd, usrbuf
    ensures reader.Valid()
    ensures delivered == Deliveries(calls, old(reader.Unread()))
    ensures reader.Unread() == Left(calls, old(reader.Unread()))
  {
    hide Deliveries, Left, LineEnd;
    delivered := [];
    var i := 0;
    assert calls[0..] == calls;
    ghost var s := reader.Unread();
    while i < |calls|
      invariant 0 <= i <= |calls| && reader.Valid()
      invariant delivered + Deliveries(calls[i..], reader.Unread()) == Deliveries(calls, s)
      invariant Left(calls[i..], reader.Unread()) == Left(calls, s)
    {
      assert calls[i] in calls;
      CallStep(calls, i, reader.Unread());
      var k: int;
      match calls[i] {
        case CallReadnb(n) =>
          k := reader.Readnb(usrbuf, n);
        case CallReadlineb(maxlen) =>
          k := reader.Readlineb(usrbuf, maxlen);
          if k > 0 && usrbuf[k - 1] == NUL {
            k := k - 1;
          }
      }
      delivered := delivered + [usrbuf[..k]];
      i := i + 1;
    }
    NoCalls(reader.Unread());
    assert calls[i..] == [];
  }
}
