/** The scanner's actions: error collection, acknowledgement, retransmission, and one whole yylex call. */
module Lexer {
  import opened Bytes
  import opened Rules
  import opened Replies
  import opened Session
  import opened Gdb
  import S = Scanner

  /** parser_data: the stray characters seen since the last flush. */
  class ParserData {
    const gdb: GdbData
    const buffer: array<byte>
    var len: nat

    /** The index of the error buffer never leaves [0, 1023]. */
    ghost predicate Valid()
      reads `len, gdb`len
      ensures Valid() ==> gdb.Valid()
    {
      gdb.Valid() && buffer.Length == MAX_ERROR_SIZE && len < MAX_ERROR_SIZE && buffer != gdb.packet
    }

    constructor (gdb: GdbData)
      requires gdb.Valid()
      ensures Valid() && this.gdb == gdb && len == 0 && fresh(buffer)
    {
      this.gdb, len := gdb, 0;
      buffer := new byte[MAX_ERROR_SIZE];
    }

    /** handle_error: asks once for retransmission of everything collected. */
    method HandleError()
      requires Valid() && gdb.Logged()
      modifies `len, buffer, gdb.fd, gdb`log
      ensures Valid() && len == 0 && gdb.Outstanding() == old(gdb.Outstanding())
      ensures gdb.Logged() && gdb.log == old(gdb.log) + ReplyEvents(Flush(old(len)), gdb.Outstanding())
    {
      ReplyEventsOne(Nak, gdb.Outstanding());
      hide ReplyEvents;
      if len != 0 {
        buffer[len] := NUL;
        gdb.RequireRetransmission();
        len := 0;
      }
    }

    /** add_character_to_error: makes room first when only the place for the final NUL is left. */
    method AddCharacter(c: byte)
      requires Valid() && gdb.Logged()
      modifies `len, buffer, gdb.fd, gdb`log
      ensures Valid() && len == ActLength(Token(STRAY, [c]), old(len)) && gdb.Outstanding() == old(gdb.Outstanding())
      ensures buffer[len - 1] == c
      ensures gdb.Logged() && gdb.log == old(gdb.log) + ReplyEvents(ActReplies(Token(STRAY, [c]), old(len)), gdb.Outstanding())
    {
      ReplyEventsOne(Nak, gdb.Outstanding());
      hide ReplyEvents;
      if len > MAX_ERROR_SIZE - 2 {
        HandleError();
      }
      buffer[len] := c;
      len := len + 1;
    }

    /** The action of the packet rule. */
    method ActPacket(text: array<byte>, start: nat, length: nat) returns (packet: bool)
      requires Valid() && gdb.Logged() && start + length < text.Length && text[start + length] == NUL && text != buffer
      requires PacketPattern(text[start..start + length])
      modifies `len, buffer, gdb`answer, gdb.fd, gdb`log
      ensures Valid() && len == 0 && gdb.Outstanding() == old(gdb.Outstanding())
      ensures packet == ValidPacket(text[start..start + length]) && (packet ==> gdb.answer == text[start..start + length])
      ensures gdb.Logged() && gdb.log == old(gdb.log) + (ReplyEvents(Flush(old(len)), gdb.Outstanding()) + [Verdict(packet)])
    {
      hide ReplyEvents, PacketPattern, ValidPacket, Flush;
      ghost var t := text[start..start + length];
      HandleError();
      assert text[start..start + length] == t;
      packet := gdb.PacketCheck(text, start, length);
    }

    /** The action of a token that lies in text[start..start + length), followed by a NUL. */
    method Act(rule: nat, text: array<byte>, start: nat, length: nat) returns (packet: bool)
      requires Valid() && gdb.Logged() && start + length < text.Length && text[start + length] == NUL && text != buffer
      requires 0 < rule == FirstRule(text[start..start + length])
      modifies `len, buffer, gdb`answer, gdb.fd, gdb`log
      ensures Valid() && gdb.Outstanding() == old(gdb.Outstanding())
      ensures var t := Token(rule, text[start..start + length]);
              && packet == Returns(t) && len == ActLength(t, old(len))
              && gdb.Logged() && gdb.log == old(gdb.log) + ReplyEvents(ActReplies(t, old(len)), gdb.Outstanding())
              && (packet ==> gdb.answer == t.text)
    {
      ghost var t, e, frame := Token(rule, text[start..start + length]), len, gdb.Outstanding();
      ActEvents(t, e, frame);
      RuleShapes(t.text);
      hide *;
      packet := false;
      if rule == ACK {
        HandleError();
      } else if rule == NAK {
        HandleError();
        gdb.TransmitPacket(true);
      } else if rule == PACKET {
        packet := ActPacket(text, start, length);
      } else if rule == STRAY {
        assert t == Token(STRAY, [text[start]]);
        AddCharacter(text[start]);
      }
      assert text[start..start + length] == t.text;
    }
  }

  /** The events of each action. */
  lemma ActEvents(t: Token, e: nat, frame: seq<byte>)
    ensures t.rule == ACK || t.rule == NAK || t.rule == PACKET ==> ActLength(t, e) == 0
    ensures t.rule == ACK ==> ReplyEvents(ActReplies(t, e), frame) == ReplyEvents(Flush(e), frame)
    ensures t.rule == NAK ==> ReplyEvents(ActReplies(t, e), frame) == ReplyEvents(Flush(e), frame) + [Replied(Resend, frame)]
    ensures t.rule == PACKET ==>
              ReplyEvents(ActReplies(t, e), frame) == ReplyEvents(Flush(e), frame) + [Verdict(ValidPacket(t.text))]
    ensures t.rule == DEFAULT ==> ReplyEvents(ActReplies(t, e), frame) == [] && ActLength(t, e) == e
    ensures Returns(t) <==> t.rule == PACKET && ValidPacket(t.text)
  {
    ReplyEventsOne(Nak, frame);
    ReplyEventsOne(Ack, frame);
    ReplyEventsOne(Resend, frame);
    ReplyEventsAppend(Flush(e), OwnReply(t), frame);
    hide ReplyEvents, ValidPacket, Flush;
  }

  lemma RuleShapes(text: seq<byte>)
    ensures FirstRule(text) == PACKET ==> PacketPattern(text)
    ensures FirstRule(text) == STRAY ==> text == [text[0]]
    ensures FirstRule(text) <= DEFAULT
    ensures !PacketPattern(text) ==> FirstRule(text) != PACKET
  {
  }

  lemma FirstTokenRule(s: seq<byte>)
    requires s != []
    ensures var t := FirstToken(s); t.rule == FirstRule(t.text) > 0
  {
  }

  /** Distinct buffers. */
  ghost predicate Apart(scanner: S.Scanner, data: ParserData)
    reads scanner`chBuf
  {
    scanner.chBuf != data.buffer && scanner.chBuf != data.gdb.packet
  }

  lemma ApartIs(scanner: S.Scanner, data: ParserData)
    requires Apart(scanner, data)
    ensures scanner.chBuf != data.buffer && scanner.chBuf != data.gdb.packet
  {
  }

  /** One token and its action. */
  method OneToken(scanner: S.Scanner, data: ParserData) returns (act: nat, packet: bool)
    requires scanner.Valid() && data.Valid() && data.gdb.Logged() && Apart(scanner, data)
    modifies scanner, scanner.chBuf, scanner.source, data`len, data.buffer, data.gdb`answer, data.gdb.fd, data.gdb`log
    ensures scanner.Valid() && data.Valid() && data.gdb.Logged() && Apart(scanner, data)
    ensures scanner.chBuf == old(scanner.chBuf) || fresh(scanner.chBuf)
    ensures act == 0 <==> old(scanner.Rest()) == []
    ensures act == 0 ==> scanner.Rest() == [] && data.len == old(data.len) && data.gdb.log == old(data.gdb.log)
    ensures act != 0 ==> var t, e := FirstToken(old(scanner.Rest())), old(data.len);
              && packet == Returns(t) && data.len == ActLength(t, e) && (packet ==> data.gdb.answer == t.text)
              && scanner.Rest() == old(scanner.Rest())[TokenLength(old(scanner.Rest()))..]
              && data.gdb.log == old(data.gdb.log) + ReplyEvents(ActReplies(t, e), data.gdb.Outstanding())
    ensures data.gdb.Outstanding() == old(data.gdb.Outstanding())
  {
    hide ReplyEvents, FirstToken, TokenLength, ActReplies, ActLength, Returns, FirstRule;
    ghost var s := scanner.Rest();
    act := scanner.NextToken();
    packet := false;
    if act != 0 {
      FirstTokenRule(s);
      packet := data.Act(act, scanner.chBuf, scanner.textPtr, scanner.cBufP - scanner.textPtr);
    }
  }

  /** yylex: reads tokens and acts on them until a valid packet or the end of the input. */
  method Yylex(scanner: S.Scanner, data: ParserData) returns (packet: bool)
    requires scanner.Valid() && data.Valid() && data.gdb.Logged() && Apart(scanner, data)
    modifies scanner, scanner.chBuf, scanner.source, data`len, data.buffer, data.gdb`answer, data.gdb.fd, data.gdb`log
    ensures scanner.Valid() && data.Valid() && data.gdb.Logged() && Apart(scanner, data)
    ensures scanner.chBuf == old(scanner.chBuf) || fresh(scanner.chBuf)
    ensures var l := Lex(old(scanner.Rest()), old(data.len));
            && packet == l.outcome.Answer? && scanner.Rest() == l.rest && data.len == l.errLen
            && data.gdb.log == old(data.gdb.log) + ReplyEvents(l.replies, data.gdb.Outstanding())
            && (packet ==> data.gdb.answer == l.outcome.text)
    ensures data.gdb.Outstanding() == old(data.gdb.Outstanding())
  {
    hide *;
    ghost var frame, whole := data.gdb.Outstanding(), Lex(scanner.Rest(), data.len);
    ghost var done: seq<Reply> := [];
    ReplyEventsOne(Nak, frame);
    AfterNothing(whole);
    while true
      invariant scanner.Valid() && data.Valid() && data.gdb.Logged() && Apart(scanner, data)
      invariant scanner.chBuf == old(scanner.chBuf) || fresh(scanner.chBuf)
      invariant data.gdb.Outstanding() == frame
      invariant data.gdb.log == old(data.gdb.log) + ReplyEvents(done, frame)
      invariant whole == After(done, Lex(scanner.Rest(), data.len))
      decreases |scanner.Rest()|
    {
      ghost var s, e := scanner.Rest(), data.len;
      LexProgress(whole, done, s, e, frame);
      var act;
      act, packet := OneToken(scanner, data);
      if act == 0 {
        ApartIs(scanner, data);
        data.HandleError();
        return false;
      }
      if packet {
        return;
      }
      done := done + ActReplies(FirstToken(s), e);
    }
  }

  /** Calls of yylex, each in its own time, until the end of the stream: what they write is accounted for. */
  method AllCalls(scanner: S.Scanner, data: ParserData)
    requires scanner.Valid() && data.Valid() && data.gdb.Logged() && Apart(scanner, data)
    modifies scanner, scanner.chBuf, scanner.source, data`len, data.buffer, data.gdb`answer, data.gdb.fd, data.gdb`log
    ensures scanner.Valid() && data.Valid() && data.gdb.Logged() && scanner.Rest() == [] && data.gdb.Outstanding() == old(data.gdb.Outstanding())
    ensures data.gdb.log
         == old(data.gdb.log) + ReplyEvents(AllReplies(old(scanner.Rest()), old(data.len)), data.gdb.Outstanding())
  {
    hide ReplyEvents, Lex, S.Scanner.Valid, S.Scanner.Rest;
    ghost var frame, whole := data.gdb.Outstanding(), AllReplies(scanner.Rest(), data.len);
    ghost var done: seq<Reply> := [];
    ReplyEventsOne(Nak, frame);
    var packet := true;
    while packet
      invariant scanner.Valid() && data.Valid() && data.gdb.Logged() && Apart(scanner, data)
      invariant scanner.chBuf == old(scanner.chBuf) || fresh(scanner.chBuf)
      invariant data.gdb.Outstanding() == frame
      invariant data.gdb.log == old(data.gdb.log) + ReplyEvents(done, frame)
      invariant if packet then whole == done + AllReplies(scanner.Rest(), data.len) else whole == done && scanner.Rest() == []
      decreases packet, |scanner.Rest()|
    {
      ghost var l := Lex(scanner.Rest(), data.len);
      packet := Yylex(scanner, data);
      ReplyEventsAppend(done, l.replies, frame);
      done := done + l.replies;
    }
  }

  lemma AfterNothing(l: Lexed)
    ensures After([], l) == l
  {
    assert [] + l.replies == l.replies;
  }

  /** How one round of yylex's loop changes what is still to be done. */
  lemma LexProgress(whole: Lexed, done: seq<Reply>, s: seq<byte>, e: nat, frame: seq<byte>)
    requires whole == After(done, Lex(s, e))
    ensures s == [] ==> whole == Lexed(EndOfFile, [], 0, done + Flush(e))
    ensures s == [] ==> ReplyEvents(whole.replies, frame) == ReplyEvents(done, frame) + ReplyEvents(Flush(e), frame)
    ensures s != [] ==> var t, rest := FirstToken(s), s[TokenLength(s)..];
              var replies := done + ActReplies(t, e);
              && ReplyEvents(replies, frame) == ReplyEvents(done, frame) + ReplyEvents(ActReplies(t, e), frame)
              && if Returns(t) then whole == Lexed(Answer(t.text), rest, ActLength(t, e), replies)
                 else whole == After(replies, Lex(rest, ActLength(t, e)))
  {
    hide ReplyEvents, FirstToken, TokenLength, Lex, ActReplies, ActLength, Returns, Flush;
    if s == [] {
      LexNothing(e);
      ReplyEventsAppend(done, Flush(e), frame);
    } else {
      LexStep(s, e);
      ReplyEventsAppend(done, ActReplies(FirstToken(s), e), frame);
    }
  }

  lemma LexNothing(e: nat)
    ensures Lex([], e) == Lexed(EndOfFile, [], 0, Flush(e))
  {
  }
}
