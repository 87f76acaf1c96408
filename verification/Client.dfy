/** The client's commands: each builds a frame, sends it and waits for the answer. */
module Client {
  import opened Bytes
  import opened Codec
  import opened Replies
  import opened Session
  import opened Target
  import opened Gdb
  import L = Lexer
  import S = Scanner

  /** The payloads were sent one transaction after the other: on the answer stream s, with e stray characters waiting,
      that took the log from `before` to `after` and left `rest` of the stream. */
  ghost predicate Sends(payloads: seq<seq<byte>>, s: seq<byte>, e: nat, before: seq<Event>, after: seq<Event>, rest: seq<byte>) {
    after == before + Run(payloads, s, e) && rest == RestAfter(payloads, s, e)
  }

  /** What happened keeps to stop and wait, and nothing is outstanding. */
  ghost predicate Disciplined(log: seq<Event>) {
    StopAndWait(log, Idle)
  }

  lemma SendsKeepDiscipline(payloads: seq<seq<byte>>, s: seq<byte>, e: nat, before: seq<Event>, after: seq<Event>, rest: seq<byte>)
    requires Sends(payloads, s, e, before, after, rest) && Disciplined(before)
    ensures Disciplined(after)
  {
    RunsStopAndWait(payloads, s, e);
    StopAndWaitAppend(before, Run(payloads, s, e), Idle);
  }

  /** The bytes that a logged command adds to the wire are those of its run. */
  lemma SendsWrite(payloads: seq<seq<byte>>, s: seq<byte>, e: nat, before: seq<Event>, after: seq<Event>, rest: seq<byte>,
                   base: seq<byte>)
    requires Sends(payloads, s, e, before, after, rest)
    ensures base + Wire(after) == (base + Wire(before)) + Wire(Run(payloads, s, e))
  {
    WireAppend(before, Run(payloads, s, e));
  }

  lemma OneTransaction(payload: seq<byte>, s: seq<byte>, e: nat, before: seq<Event>)
    ensures var l := Lex(s, e);
            Sends([payload], s, e, before,
                  before + [Sent(Frame(payload))] + ReplyEvents(l.replies, Frame(payload)) + [Returned(l.outcome)], l.rest)
  {
    var l := Lex(s, e);
    hide Lex, Frame;
    assert [payload][1..] == [];
    assert Run([payload], s, e) == Transaction(payload, l) + [];
    assert RestAfter([], l.rest, l.errLen) == l.rest;
  }

  class Client {
    const data: L.ParserData
    const scanner: S.Scanner

    /** The log tells what was written, and the parts are in order. */
    ghost predicate Ready()
      reads scanner, scanner.chBuf, scanner.source, data`len, data.gdb`len, data.gdb`log, data.gdb.fd
      ensures Ready() ==> scanner.Valid()
    {
      scanner.Valid() && data.Valid() && data.gdb.Logged() && L.Apart(scanner, data)
    }

    ghost predicate Valid()
      reads scanner, scanner.chBuf, scanner.source, data`len, data.gdb`len, data.gdb`log, data.gdb.fd
      ensures Valid() ==> scanner.Valid()
    {
      Ready() && Disciplined(data.gdb.log)
    }

    constructor (data: L.ParserData, scanner: S.Scanner)
      requires scanner.Valid() && data.Valid() && data.gdb.Logged() && L.Apart(scanner, data) && data.gdb.log == []
      ensures Valid() && this.data == data && this.scanner == scanner
    {
      this.data, this.scanner := data, scanner;
    }

    lemma ReadyLogged()
      requires Valid()
      ensures data.gdb.fd.written == data.gdb.base + Wire(data.gdb.log)
    {
      hide Wire, S.Scanner.Valid, Disciplined;
      data.gdb.Written();
    }

    /** gdb_get_answer for the payload just sent: together with the frame, one transaction. */
    method GetAnswer(ghost payload: seq<byte>, ghost before: seq<Event>) returns (packet: bool)
      requires Ready() && data.gdb.Outstanding() == Frame(payload)
      requires data.gdb.log == before + [Sent(Frame(payload))] && Disciplined(before)
      modifies scanner, scanner.chBuf, scanner.source, data`len, data.buffer, data.gdb`answer, data.gdb.fd, data.gdb`log
      ensures Valid() && (scanner.chBuf == old(scanner.chBuf) || fresh(scanner.chBuf))
      ensures Sends([payload], old(scanner.Rest()), old(data.len), before, data.gdb.log, scanner.Rest())
      ensures data.len == 0 && packet == Lex(old(scanner.Rest()), old(data.len)).outcome.Answer?
    {
      ghost var s, e := scanner.Rest(), data.len;
      ghost var outcome := Lex(s, e).outcome;
      OneTransaction(payload, s, e, before);
      WireOne(before + [Sent(Frame(payload))] + ReplyEvents(Lex(s, e).replies, Frame(payload)), Returned(outcome));
      hide Frame, Sends, ReplyEvents, Lex, Wire, Disciplined, S.Scanner.Valid, S.Scanner.Rest;
      packet := L.Yylex(scanner, data);
      data.gdb.log := data.gdb.log + [Returned(outcome)];
      SendsKeepDiscipline([payload], s, e, before, data.gdb.log, scanner.Rest());
    }

    /** gdb_cont and gdb_step: a one-letter command. */
    method Command(letter: char) returns (packet: bool)
      requires Valid() && data.gdb.packet.Length >= 6 && (letter == 'c' || letter == 's')
      modifies scanner, scanner.chBuf, scanner.source
      modifies data`len, data.buffer, data.gdb`answer, data.gdb`len, data.gdb.packet, data.gdb.fd, data.gdb`log
      ensures Valid() && (scanner.chBuf == old(scanner.chBuf) || fresh(scanner.chBuf))
      ensures Sends([[letter as int]], old(scanner.Rest()), old(data.len), old(data.gdb.log), data.gdb.log, scanner.Rest())
      ensures data.len == 0 && packet == Lex(old(scanner.Rest()), old(data.len)).outcome.Answer?
    {
      hide Frame, Sends, Lex, Wire, Disciplined, S.Scanner.Valid, S.Scanner.Rest;
      data.gdb.SendData([letter as int]);
      packet := GetAnswer([letter as int], old(data.gdb.log));
    }

    /** gdb_write_register, whose twelve bytes are printed by sprintf and write_uint32. */
    method WriteRegister(num: byte, value: word, bigEndianHost: bool, bigEndianTarget: bool)
      requires Valid() && data.gdb.packet.Length >= 17
      modifies scanner, scanner.chBuf, scanner.source
      modifies data`len, data.buffer, data.gdb`answer, data.gdb`len, data.gdb.packet, data.gdb.fd, data.gdb`log
      ensures Valid() && (scanner.chBuf == old(scanner.chBuf) || fresh(scanner.chBuf))
      ensures Sends([RegisterPayload(num, value, bigEndianTarget)], old(scanner.Rest()), old(data.len),
                    old(data.gdb.log), data.gdb.log, scanner.Rest())
      ensures data.len == 0
    {
      hide Frame, Sends, Lex, Wire, Disciplined, S.Scanner.Valid, S.Scanner.Rest, RegisterPayload;
      data.gdb.SendRegister(num, value, bigEndianHost, bigEndianTarget);
      var _ := GetAnswer(RegisterPayload(num, value, bigEndianTarget), old(data.gdb.log));
    }

    /** One round of the outer loop of gdb_write_memory. */
    method SendOneChunk(address: word, src: seq<byte>) returns (copied: nat, overrun: bool)
      requires Valid() && src != []
      modifies scanner, scanner.chBuf, scanner.source
      modifies data`len, data.buffer, data.gdb`answer, data.gdb`len, data.gdb.packet, data.gdb.fd, data.gdb`log
      ensures overrun <==> PacketNeed(src[..ChunkLength(src)]) > data.gdb.packet.Length
      ensures !overrun ==> Valid() && data.len == 0
      ensures scanner.chBuf == old(scanner.chBuf) || fresh(scanner.chBuf)
      ensures !overrun ==> 0 < copied <= |src| && copied == ChunkLength(src) && copied < 0x1_0000_0000
      ensures !overrun ==> Sends([MemoryPayload(address, src[..copied])], old(scanner.Rest()), old(data.len),
                                 old(data.gdb.log), data.gdb.log, scanner.Rest())
    {
      MemoryPayloadsStep(address, src);
      NeedIs(src[..ChunkLength(src)]);
      hide Frame, Sends, Lex, Wire, Disciplined, S.Scanner.Valid, S.Scanner.Rest, MemoryPayload, MemoryPayloads, ChunkLength, Escape;
      var size;
      copied, size, overrun := data.gdb.FillChunk(src);
      if overrun {
        return;
      }
      overrun := data.gdb.SendChunk(address, copied, size, src[..copied]);
      if overrun {
        return;
      }
      var _ := GetAnswer(MemoryPayload(address, src[..copied]), old(data.gdb.log));
    }

    /** gdb_write_memory: one packet after the other, each taking at least one byte of the buffer. It overruns the packet
        array exactly when some packet does not fit. */
    method WriteMemory(start: word, buffer: seq<byte>) returns (overrun: bool)
      requires Valid()
      modifies scanner, scanner.chBuf, scanner.source
      modifies data`len, data.buffer, data.gdb`answer, data.gdb`len, data.gdb.packet, data.gdb.fd, data.gdb`log
      ensures overrun <==> !Fits(buffer, data.gdb.packet.Length)
      ensures scanner.chBuf == old(scanner.chBuf) || fresh(scanner.chBuf)
      ensures !overrun ==> Valid()
      ensures !overrun ==> Sends(MemoryPayloads(start, buffer), old(scanner.Rest()), old(data.len), old(data.gdb.log),
                                 data.gdb.log, scanner.Rest())
      ensures var run := Run(MemoryPayloads(start, buffer), old(scanner.Rest()), old(data.len));
              !overrun ==> data.gdb.fd.written == old(data.gdb.fd.written) + Wire(run)
    {
      hide *;
      var address: word, src := start, buffer;
      ghost var s, e, before := scanner.Rest(), data.len, data.gdb.log;
      UnderwayStart(start, buffer, s, e, before);
      ReadyLogged();
      while src != []
        invariant Valid() && (scanner.chBuf == old(scanner.chBuf) || fresh(scanner.chBuf))
        invariant Fits(buffer, data.gdb.packet.Length) <==> Fits(src, data.gdb.packet.Length)
        invariant Underway(start, buffer, s, e, before, address, src, data.gdb.log, scanner.Rest(), data.len)
        decreases |src|
      {
        ghost var mid, rest, len := data.gdb.log, scanner.Rest(), data.len;
        FitsStep(src, data.gdb.packet.Length);
        var copied;
        copied, overrun := SendOneChunk(address, src);
        if overrun {
          return;
        }
        UnderwayStep(start, buffer, s, e, before, address, src, mid, rest, len, data.gdb.log, scanner.Rest());
        address := (address + copied) % 0x1_0000_0000;
        src := src[copied..];
      }
      UnderwayEnd(start, buffer, s, e, before, address, data.gdb.log, scanner.Rest(), data.len);
      ReadyLogged();
      SendsWrite(MemoryPayloads(start, buffer), s, e, before, data.gdb.log, scanner.Rest(), data.gdb.base);
      NothingFits(data.gdb.packet.Length);
      overrun := false;
    }
  }

  lemma NeedIs(chunk: seq<byte>)
    ensures PacketNeed(chunk) == DATA + |Escape(chunk)| + 4
  {
  }

  lemma NothingFits(capacity: nat)
    ensures Fits([], capacity)
  {
  }

  /** In the middle of a memory write: what has been sent, and what the rest of the buffer will add. */
  ghost predicate Underway(start: word, buffer: seq<byte>, s: seq<byte>, e: nat, before: seq<Event>,
                           address: word, src: seq<byte>, now: seq<Event>, rest: seq<byte>, len: nat) {
    exists done ::
      && MemoryPayloads(start, buffer) == done + MemoryPayloads(address, src)
      && Sends(done, s, e, before, now, rest) && len == if done == [] then e else 0
  }

  lemma UnderwayStart(start: word, buffer: seq<byte>, s: seq<byte>, e: nat, before: seq<Event>)
    ensures Underway(start, buffer, s, e, before, start, buffer, before, s, e)
  {
    NothingSent(s, e, before);
    hide Sends, MemoryPayloads;
    assert MemoryPayloads(start, buffer) == [] + MemoryPayloads(start, buffer);
  }

  lemma UnderwayStep(start: word, buffer: seq<byte>, s: seq<byte>, e: nat, before: seq<Event>, address: word, src: seq<byte>,
                     mid: seq<Event>, rest: seq<byte>, len: nat, now: seq<Event>, rest': seq<byte>)
    requires src != [] && ChunkLength(src) < 0x1_0000_0000
    requires Underway(start, buffer, s, e, before, address, src, mid, rest, len)
    requires Sends([MemoryPayload(address, src[..ChunkLength(src)])], rest, len, mid, now, rest')
    ensures Underway(start, buffer, s, e, before, (address + ChunkLength(src)) % 0x1_0000_0000, src[ChunkLength(src)..],
                     now, rest', 0)
  {
    hide Sends, MemoryPayloads, MemoryPayload, ChunkLength;
    MemoryPayloadsStep(address, src);
    var done :|
      && MemoryPayloads(start, buffer) == done + MemoryPayloads(address, src)
      && Sends(done, s, e, before, mid, rest) && len == if done == [] then e else 0;
    var p := MemoryPayload(address, src[..ChunkLength(src)]);
    SendsOneMore(done, p, s, e, before, mid, rest, now, rest');
    assert done + MemoryPayloads(address, src)
        == (done + [p]) + MemoryPayloads((address + ChunkLength(src)) % 0x1_0000_0000, src[ChunkLength(src)..]);
  }

  lemma UnderwayEnd(start: word, buffer: seq<byte>, s: seq<byte>, e: nat, before: seq<Event>, address: word,
                    now: seq<Event>, rest: seq<byte>, len: nat)
    requires Underway(start, buffer, s, e, before, address, [], now, rest, len)
    ensures Sends(MemoryPayloads(start, buffer), s, e, before, now, rest)
  {
    NoPayloads(address);
    hide Sends, MemoryPayloads;
    var done :|
      && MemoryPayloads(start, buffer) == done + MemoryPayloads(address, [])
      && Sends(done, s, e, before, now, rest) && len == if done == [] then e else 0;
    assert done + [] == done;
  }

  lemma NothingSent(s: seq<byte>, e: nat, before: seq<Event>)
    ensures Sends([], s, e, before, before, s)
  {
  }

  lemma {:induction false} RunSnoc(ps: seq<seq<byte>>, p: seq<byte>, s: seq<byte>, e: nat)
    ensures var mid, e' := RestAfter(ps, s, e), if ps == [] then e else 0;
            && Run(ps + [p], s, e) == Run(ps, s, e) + Run([p], mid, e')
            && RestAfter(ps + [p], s, e) == RestAfter([p], mid, e')
  {
    if ps == [] {
      assert ps + [p] == [p];
    } else {
      assert (ps + [p])[1..] == ps[1..] + [p];
      hide Lex, Transaction;
      RunSnoc(ps[1..], p, Lex(s, e).rest, 0);
    }
  }

  lemma SendsOneMore(ps: seq<seq<byte>>, p: seq<byte>, s: seq<byte>, e: nat, before: seq<Event>,
                     mid: seq<Event>, rest: seq<byte>, after: seq<Event>, rest': seq<byte>)
    requires Sends(ps, s, e, before, mid, rest)
    requires Sends([p], rest, if ps == [] then e else 0, mid, after, rest')
    ensures Sends(ps + [p], s, e, before, after, rest')
  {
    RunSnoc(ps, p, s, e);
    hide Run, RestAfter;
  }
}
