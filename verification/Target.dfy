/** What the target ends up with: the payloads it receives, and its memory after them. */
module Target {
  import opened Bytes
  import opened Wrappers
  import opened Codec
  import opened Rules
  import opened Replies
  import opened Session

  // ---- What the target receives

  /** The payloads of the valid packets in a byte stream. */
  function Received(bytes: seq<byte>): seq<seq<byte>> {
    PayloadsOf(Tokens(bytes))
  }

  function PayloadsOf(ts: seq<Token>): seq<seq<byte>> {
    if ts == [] then []
    else (if Returns(ts[0]) then [PayloadOf(ts[0].text)] else []) + PayloadsOf(ts[1..])
  }

  function Resends(rs: seq<Reply>): nat {
    if rs == [] then 0 else (if rs[0] == Resend then 1 else 0) + Resends(rs[1..])
  }

  function Copies(payload: seq<byte>, n: nat): seq<seq<byte>> {
    if n == 0 then [] else [payload] + Copies(payload, n - 1)
  }

  lemma ReceivedFrame(payload: seq<byte>, rest: seq<byte>)
    requires Plain(payload)
    ensures Received(Frame(payload) + rest) == [payload] + Received(rest)
  {
    FrameIsOneToken(payload, rest);
    var ts := [Token(PACKET, Frame(payload))] + Tokens(rest);
    assert ts[1..] == Tokens(rest);
  }

  lemma ReceivedSingle(b: byte, rest: seq<byte>)
    requires b == PLUS || b == MINUS
    ensures Received([b] + rest) == Received(rest)
  {
    SingleIsOneToken(b, rest);
    var ts := [Token(if b == PLUS then ACK else NAK, [b])] + Tokens(rest);
    assert ts[1..] == Tokens(rest);
  }

  lemma {:induction false} ReceivedReplies(rs: seq<Reply>, payload: seq<byte>, rest: seq<byte>)
    requires Plain(payload)
    ensures Received(Wire(ReplyEvents(rs, Frame(payload))) + rest) == Copies(payload, Resends(rs)) + Received(rest)
  {
    hide Received, Frame, Plain;
    if rs == [] {
      assert Wire(ReplyEvents(rs, Frame(payload))) + rest == rest;
    } else {
      var f := Frame(payload);
      var later := Wire(ReplyEvents(rs[1..], f));
      var evs := ReplyEvents(rs, f);
      assert evs[1..] == ReplyEvents(rs[1..], f);
      assert Wire(evs) + rest == ReplyBytes(rs[0], f) + (later + rest);
      ReceivedReplies(rs[1..], payload, rest);
      if rs[0] == Resend {
        ReceivedFrame(payload, later + rest);
      } else {
        ReceivedSingle(ReplyBytes(rs[0], f)[0], later + rest);
      }
    }
  }

  /** How often each payload of a run arrives. */
  function Deliveries(payloads: seq<seq<byte>>, s: seq<byte>, e: nat): seq<seq<byte>> {
    if payloads == [] then []
    else
      var l := Lex(s, e);
      Copies(payloads[0], 1 + Resends(l.replies)) + Deliveries(payloads[1..], l.rest, l.errLen)
  }

  lemma TransactionWire(p: seq<byte>, l: Lexed, more: seq<Event>)
    ensures Wire(Transaction(p, l) + more) == Frame(p) + (Wire(ReplyEvents(l.replies, Frame(p))) + Wire(more))
  {
    var evs, end := ReplyEvents(l.replies, Frame(p)), [Returned(l.outcome)];
    assert Transaction(p, l) + more == [Sent(Frame(p))] + (evs + (end + more));
    WireAppend(evs, end + more);
    assert (end + more)[1..] == more;
  }

  lemma TransactionIsDelivered(p: seq<byte>, l: Lexed, more: seq<Event>)
    requires Plain(p)
    ensures Received(Wire(Transaction(p, l) + more)) == Copies(p, 1 + Resends(l.replies)) + Received(Wire(more))
  {
    hide Received, Frame, Plain, Transaction, Wire, ReplyEvents;
    TransactionWire(p, l, more);
    ReceivedFrame(p, Wire(ReplyEvents(l.replies, Frame(p))) + Wire(more));
    ReceivedReplies(l.replies, p, Wire(more));
    assert Copies(p, 1 + Resends(l.replies)) == [p] + Copies(p, Resends(l.replies));
  }

  predicate AllPlain(payloads: seq<seq<byte>>) {
    forall p | p in payloads :: Plain(p)
  }

  lemma AllPlainCons(p: seq<byte>, ps: seq<seq<byte>>)
    ensures AllPlain([p] + ps) <==> Plain(p) && AllPlain(ps)
  {
    hide Plain;
    assert forall q :: q in [p] + ps <==> q == p || q in ps;
    assert p in [p] + ps;
  }

  /** The bytes of a run, read by the target, are its payloads in order, each once plus once per retransmission. */
  lemma {:induction false} RunIsDelivered(payloads: seq<seq<byte>>, s: seq<byte>, e: nat)
    requires AllPlain(payloads)
    ensures Received(Wire(Run(payloads, s, e))) == Deliveries(payloads, s, e)
  {
    hide *;
    if payloads == [] {
      NothingDelivered(s, e);
    } else {
      var l := Lex(s, e);
      assert payloads == [payloads[0]] + payloads[1..];
      AllPlainCons(payloads[0], payloads[1..]);
      RunIsDelivered(payloads[1..], l.rest, l.errLen);
      TransactionIsDelivered(payloads[0], l, Run(payloads[1..], l.rest, l.errLen));
      RunStep(payloads, s, e);
    }
  }

  lemma NothingDelivered(s: seq<byte>, e: nat)
    ensures Received(Wire(Run([], s, e))) == Deliveries([], s, e)
  {
    assert Tokens([]) == [];
  }

  lemma RunStep(payloads: seq<seq<byte>>, s: seq<byte>, e: nat)
    requires payloads != []
    ensures var l := Lex(s, e);
            && Run(payloads, s, e) == Transaction(payloads[0], l) + Run(payloads[1..], l.rest, l.errLen)
            && Deliveries(payloads, s, e)
            == Copies(payloads[0], 1 + Resends(l.replies)) + Deliveries(payloads[1..], l.rest, l.errLen)
  {
    hide *;
    RunUnfolds(payloads, s, e);
    DeliveriesUnfold(payloads, s, e);
  }

  lemma DeliveriesUnfold(payloads: seq<seq<byte>>, s: seq<byte>, e: nat)
    requires payloads != []
    ensures var l := Lex(s, e);
            Deliveries(payloads, s, e) ==
            Copies(payloads[0], 1 + Resends(l.replies)) + Deliveries(payloads[1..], l.rest, l.errLen)
  {
    hide Lex, Copies, Resends;
  }

  // ---- Writing memory

  type Memory = map<nat, byte>

  /** Storing bytes at consecutive addresses. */
  function Store(m: Memory, address: nat, data: seq<byte>): Memory
    decreases |data|
  {
    if data == [] then m else Store(m[address := data[0]], address + 1, data[1..])
  }

  lemma {:induction false} StoreMeaning(m: Memory, address: nat, data: seq<byte>, k: nat)
    ensures var m' := Store(m, address, data);
            && (k in m' <==> k in m || address <= k < address + |data|)
            && (k in m' ==> m'[k] == if address <= k < address + |data| then data[k - address] else m[k])
    decreases |data|
  {
    if data != [] {
      StoreMeaning(m[address := data[0]], address + 1, data[1..], k);
    }
  }

  lemma StoreTwice(m: Memory, address: nat, data: seq<byte>)
    ensures Store(Store(m, address, data), address, data) == Store(m, address, data)
  {
    hide Store;
    forall k: nat
      ensures var m1 := Store(m, address, data);
              var m2 := Store(m1, address, data);
              (k in m2 <==> k in m1) && (k in m2 ==> m2[k] == m1[k])
    {
      StoreMeaning(m, address, data, k);
      StoreMeaning(Store(m, address, data), address, data, k);
    }
  }

  lemma {:induction false} StoreAppend(m: Memory, address: nat, a: seq<byte>, b: seq<byte>)
    ensures Store(m, address, a + b) == Store(Store(m, address, a), address + |a|, b)
    decreases |a|
  {
    if a == [] {
      assert a + b == b;
    } else {
      assert (a + b)[1..] == a[1..] + b;
      StoreAppend(m[address := a[0]], address + 1, a[1..], b);
    }
  }

  /** The target's memory after the packets it received. */
  function Apply(m: Memory, payloads: seq<seq<byte>>): Memory
    decreases |payloads|
  {
    if payloads == [] then m
    else match ParseMemoryWrite(payloads[0])
      case None => Apply(m, payloads[1..])
      case Some(w) => Apply(Store(m, w.address, w.data), payloads[1..])
  }

  /** The payloads gdb_write_memory frames for a buffer. */
  function MemoryPayloads(address: word, src: seq<byte>): seq<seq<byte>>
    decreases |src|
  {
    if src == [] then []
    else
      var n := ChunkLength(src);
      ChunkBounds(src, n);
      [MemoryPayload(address, src[..n])] + MemoryPayloads((address + n) % 0x1_0000_0000, src[n..])
  }

  lemma MemoryPayloadsStep(address: word, src: seq<byte>)
    requires src != []
    ensures var n := ChunkLength(src);
            && 0 < n <= |src| && n < 0x1_0000_0000
            && MemoryPayloads(address, src)
            == [MemoryPayload(address, src[..n])] + MemoryPayloads((address + n) % 0x1_0000_0000, src[n..])
  {
    hide MemoryPayload, IsChunk, ChunkLength, Escape;
    ChunkBounds(src, ChunkLength(src));
  }

  lemma NoPayloads(address: word)
    ensures MemoryPayloads(address, []) == [] && AllPlain([])
  {
  }

  lemma {:induction false} MemoryPayloadsPlain(address: word, src: seq<byte>)
    ensures AllPlain(MemoryPayloads(address, src))
    decreases |src|
  {
    hide *;
    if src == [] {
      NoPayloads(address);
    } else {
      var n := ChunkLength(src);
      MemoryPayloadsStep(address, src);
      ParseMemoryPayload(address, src[..n]);
      MemoryPayloadsPlain((address + n) % 0x1_0000_0000, src[n..]);
      AllPlainCons(MemoryPayload(address, src[..n]), MemoryPayloads((address + n) % 0x1_0000_0000, src[n..]));
    }
  }

  lemma {:induction false} ApplyAppend(m: Memory, a: seq<seq<byte>>, b: seq<seq<byte>>)
    ensures Apply(m, a + b) == Apply(Apply(m, a), b)
    decreases |a|
  {
    hide ParseMemoryWrite, Store;
    if a == [] {
      assert a + b == b;
    } else {
      assert (a + b)[1..] == a[1..] + b;
      match ParseMemoryWrite(a[0])
      case None => ApplyAppend(m, a[1..], b);
      case Some(w) => ApplyAppend(Store(m, w.address, w.data), a[1..], b);
    }
  }

  /** Receiving the same write again changes nothing. */
  lemma {:induction false} ApplyCopies(m: Memory, address: word, data: seq<byte>, n: nat)
    requires |data| < 0x1_0000_0000 && n > 0
    ensures Apply(m, Copies(MemoryPayload(address, data), n)) == Store(m, address, data)
    decreases n
  {
    hide ParseMemoryWrite, Store, MemoryPayload;
    var p := MemoryPayload(address, data);
    ParseMemoryPayload(address, data);
    assert Copies(p, n)[1..] == Copies(p, n - 1);
    var m' := Store(m, address, data);
    if n == 1 {
      assert Copies(p, 0) == [];
      assert Apply(m', []) == m';
    } else {
      ApplyCopies(m', address, data, n - 1);
      StoreTwice(m, address, data);
    }
  }

  lemma ApplyStep(m: Memory, address: word, data: seq<byte>, n: nat, later: seq<seq<byte>>)
    requires |data| < 0x1_0000_0000 && n > 0
    ensures Apply(m, Copies(MemoryPayload(address, data), n) + later) == Apply(Store(m, address, data), later)
  {
    hide Apply, Store, MemoryPayload, Copies;
    ApplyCopies(m, address, data, n);
    ApplyAppend(m, Copies(MemoryPayload(address, data), n), later);
  }

  lemma DeliveriesOfWrite(address: word, src: seq<byte>, s: seq<byte>, e: nat)
    requires src != []
    ensures var n, l := ChunkLength(src), Lex(s, e);
            && 0 < n <= |src| && n < 0x1_0000_0000
            && Deliveries(MemoryPayloads(address, src), s, e)
            == Copies(MemoryPayload(address, src[..n]), 1 + Resends(l.replies))
               + Deliveries(MemoryPayloads((address + n) % 0x1_0000_0000, src[n..]), l.rest, l.errLen)
  {
    hide *;
    MemoryPayloadsStep(address, src);
    RunStep(MemoryPayloads(address, src), s, e);
  }

  lemma {:induction false} DeliveredWritesStore(m: Memory, address: word, src: seq<byte>, s: seq<byte>, e: nat)
    requires address + |src| <= 0x1_0000_0000
    ensures Apply(m, Deliveries(MemoryPayloads(address, src), s, e)) == Store(m, address, src)
    decreases |src|
  {
    hide *;
    if src == [] {
      DeliveredNothing(m, address, s, e);
    } else {
      var n, l := ChunkLength(src), Lex(s, e);
      DeliveriesOfWrite(address, src, s, e);
      var next := (address + n) % 0x1_0000_0000;
      var chunk, rest := src[..n], src[n..];
      assert src == chunk + rest;
      ApplyStep(m, address, chunk, 1 + Resends(l.replies), Deliveries(MemoryPayloads(next, rest), l.rest, l.errLen));
      DeliveredWritesStore(Store(m, address, chunk), next, rest, l.rest, l.errLen);
      StoreNext(Store(m, address, chunk), address + n, rest);
      StoreAppend(m, address, chunk, rest);
    }
  }

  lemma DeliveredNothing(m: Memory, address: word, s: seq<byte>, e: nat)
    ensures Apply(m, Deliveries(MemoryPayloads(address, []), s, e)) == Store(m, address, [])
  {
  }

  /** The address wraps to zero only when nothing is left to store. */
  lemma StoreNext(m: Memory, next: nat, rest: seq<byte>)
    requires next + |rest| <= 0x1_0000_0000
    ensures Store(m, next % 0x1_0000_0000, rest) == Store(m, next, rest)
  {
  }

  /** End to end: whatever the simulator answers, decoding all the bytes that writing a buffer puts on the wire,
      acknowledgements and retransmissions included, sets exactly [address, address + |src|) to the buffer. */
  lemma MemoryWriteIsCorrect(m: Memory, address: word, src: seq<byte>, s: seq<byte>, e: nat)
    requires address + |src| <= 0x1_0000_0000
    ensures var m' := Apply(m, Received(Wire(Run(MemoryPayloads(address, src), s, e))));
            && (forall k | address <= k < address + |src| :: k in m' && m'[k] == src[k - address])
            && (forall k: nat | k < address || k >= address + |src| :: k in m' <==> k in m)
            && (forall k: nat | k in m && (k < address || k >= address + |src|) :: m'[k] == m[k])
  {
    hide *;
    MemoryPayloadsPlain(address, src);
    RunIsDelivered(MemoryPayloads(address, src), s, e);
    DeliveredWritesStore(m, address, src, s, e);
    forall k: nat {
      StoreMeaning(m, address, src, k);
    }
  }

  /** End to end for a register: the target gets the write, perhaps several times, and nothing else. */
  lemma RegisterWriteIsCorrect(num: byte, value: word, bigEndianTarget: bool, s: seq<byte>, e: nat)
    ensures var ps := Received(Wire(Run([RegisterPayload(num, value, bigEndianTarget)], s, e)));
            && ps != []
            && forall p | p in ps :: ParseRegisterWrite(p, bigEndianTarget) == Some(RegisterWrite(num, value))
  {
    hide *;
    var p := RegisterPayload(num, value, bigEndianTarget);
    ParseRegisterPayload(num, value, bigEndianTarget);
    OnePlain(p);
    RunIsDelivered([p], s, e);
    RunStep([p], s, e);
    var n := 1 + Resends(Lex(s, e).replies);
    NoMoreDeliveries([p], Lex(s, e));
    CopiesAre(p, n);
    assert Copies(p, n) + [] == Copies(p, n);
  }

  lemma OnePlain(p: seq<byte>)
    requires Plain(p)
    ensures AllPlain([p])
  {
    hide Plain;
  }

  lemma NoMoreDeliveries(ps: seq<seq<byte>>, l: Lexed)
    requires |ps| == 1
    ensures Deliveries(ps[1..], l.rest, l.errLen) == []
  {
  }

  lemma {:induction false} CopiesAre(p: seq<byte>, n: nat)
    ensures |Copies(p, n)| == n && forall q | q in Copies(p, n) :: q == p
  {
    if n > 0 {
      CopiesAre(p, n - 1);
    }
  }
}
