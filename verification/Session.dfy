/** Runs of commands against any answer stream, and the stop-and-wait discipline they keep. */
module Session {
  import opened Bytes
  import opened Codec
  import opened Rules
  import opened Replies

  datatype Event =
    | Sent(frame: seq<byte>)
    | Replied(reply: Reply, bytes: seq<byte>)
    | Returned(outcome: Outcome)

  /** The bytes one reply puts on the wire while `packet` is outstanding. */
  function ReplyBytes(reply: Reply, packet: seq<byte>): seq<byte> {
    match reply case Ack => [PLUS] case Nak => [MINUS] case Resend => packet
  }

  /** "+", "-", or the packet. */
  lemma ReplyTexts(packet: seq<byte>)
    ensures ReplyBytes(Ack, packet) == [0x2b] && ReplyBytes(Nak, packet) == [0x2d] && ReplyBytes(Resend, packet) == packet
  {
  }

  function ReplyEvents(replies: seq<Reply>, packet: seq<byte>): seq<Event> {
    if replies == [] then []
    else [Replied(replies[0], ReplyBytes(replies[0], packet))] + ReplyEvents(replies[1..], packet)
  }

  function Wire(events: seq<Event>): seq<byte> {
    if events == [] then []
    else
      (match events[0] case Sent(f) => f case Replied(_, b) => b case Returned(_) => []) + Wire(events[1..])
  }

  /** What becomes of a packet. */
  function Verdict(ok: bool): Event {
    if ok then Replied(Ack, [PLUS]) else Replied(Nak, [MINUS])
  }

  lemma ReplyEventsOne(r: Reply, packet: seq<byte>)
    ensures ReplyEvents([r], packet) == [Replied(r, ReplyBytes(r, packet))] && ReplyEvents([], packet) == []
  {
    assert [r][1..] == [];
  }

  lemma WireOne(before: seq<Event>, ev: Event)
    ensures Wire(before + [ev])
         == Wire(before) + match ev case Sent(f) => f case Replied(_, b) => b case Returned(_) => []
  {
    WireAppend(before, [ev]);
    assert [ev][1..] == [];
  }

  /** Sending one payload and waiting for its answer. */
  function Transaction(payload: seq<byte>, l: Lexed): seq<Event> {
    [Sent(Frame(payload))] + ReplyEvents(l.replies, Frame(payload)) + [Returned(l.outcome)]
  }

  /** Everything a client does for a list of payloads, on the answer stream s with e buffered stray characters. */
  function Run(payloads: seq<seq<byte>>, s: seq<byte>, e: nat): seq<Event> {
    if payloads == [] then []
    else var l := Lex(s, e); Transaction(payloads[0], l) + Run(payloads[1..], l.rest, l.errLen)
  }

  function RestAfter(payloads: seq<seq<byte>>, s: seq<byte>, e: nat): seq<byte> {
    if payloads == [] then s else var l := Lex(s, e); RestAfter(payloads[1..], l.rest, l.errLen)
  }

  lemma RunUnfolds(payloads: seq<seq<byte>>, s: seq<byte>, e: nat)
    requires payloads != []
    ensures var l := Lex(s, e);
            Run(payloads, s, e) == Transaction(payloads[0], l) + Run(payloads[1..], l.rest, l.errLen)
  {
    hide Lex, Transaction;
  }

  lemma {:induction false} WireAppend(a: seq<Event>, b: seq<Event>)
    ensures Wire(a + b) == Wire(a) + Wire(b)
  {
    if a == [] {
      assert a + b == b;
    } else {
      assert (a + b)[1..] == a[1..] + b;
      WireAppend(a[1..], b);
    }
  }

  lemma {:induction false} ReplyEventsAppend(a: seq<Reply>, b: seq<Reply>, packet: seq<byte>)
    ensures ReplyEvents(a + b, packet) == ReplyEvents(a, packet) + ReplyEvents(b, packet)
  {
    if a == [] {
      assert a + b == b;
    } else {
      assert (a + b)[1..] == a[1..] + b;
      ReplyEventsAppend(a[1..], b, packet);
    }
  }

  // ---- Stop and wait

  /** Waiting holds the outstanding frame; acked says that the last reply was a "+". */
  datatype State = Idle | Waiting(frame: seq<byte>, acked: bool)

  ghost predicate IsFrame(f: seq<byte>) {
    exists p :: f == Frame(p)
  }

  ghost predicate Allowed(st: State, ev: Event) {
    match ev
    case Sent(f) => st.Idle? && IsFrame(f)
    case Replied(r, b) => st.Waiting? && !st.acked && (r == Resend ==> b == st.frame) && (r != Resend ==> |b| == 1)
    case Returned(Answer(text)) => st.Waiting? && st.acked && ValidPacket(text)
    case Returned(EndOfFile) => st.Waiting? && !st.acked
  }

  function Next(st: State, ev: Event): State {
    match ev
    case Sent(f) => Waiting(f, false)
    case Replied(r, _) => if st.Waiting? then st.(acked := r == Ack) else st
    case Returned(_) => Idle
  }

  /** Every event is allowed where it happens, and the run ends idle. */
  ghost predicate StopAndWait(events: seq<Event>, st: State) {
    if events == [] then st.Idle?
    else Allowed(st, events[0]) && StopAndWait(events[1..], Next(st, events[0]))
  }

  lemma {:induction false} StopAndWaitAppend(a: seq<Event>, b: seq<Event>, st: State)
    requires StopAndWait(a, st) && StopAndWait(b, Idle)
    ensures StopAndWait(a + b, st)
  {
    if a == [] {
      assert a + b == b;
    } else {
      assert (a + b)[1..] == a[1..] + b;
      StopAndWaitAppend(a[1..], b, Next(st, a[0]));
    }
  }

  /** Replies keep waiting for the same frame, and only the very last one, before an answer, is a "+". */
  predicate AckOnlyLast(l: Lexed) {
    && (forall i | 0 <= i < |l.replies| - 1 :: l.replies[i] != Ack)
    && (l.replies != [] ==> (l.replies[|l.replies| - 1] == Ack <==> l.outcome.Answer?))
    && (l.outcome.Answer? ==> l.replies != [])
  }

  lemma AfterAcksOnlyLast(before: seq<Reply>, l: Lexed)
    requires AckOnlyLast(l) && Ack !in before
    ensures AckOnlyLast(After(before, l))
  {
    var rs := before + l.replies;
    if l.replies != [] {
      assert rs[|rs| - 1] == l.replies[|l.replies| - 1];
    }
  }

  lemma {:induction false} LexAcksOnlyLast(s: seq<byte>, e: nat)
    ensures AckOnlyLast(Lex(s, e))
    decreases |s|
  {
    hide FirstToken, TokenLength, ValidPacket, AckOnlyLast;
    if s == [] {
      EndAcksOnlyLast(e);
    } else {
      var t, rest := FirstToken(s), s[TokenLength(s)..];
      LexAcksOnlyLast(rest, 0);
      AfterAcksOnlyLast(Flush(e), Lex(rest, 0));
      AfterAcksOnlyLast(Flush(e) + [Resend], Lex(rest, 0));
      AfterAcksOnlyLast(Flush(e) + [Nak], Lex(rest, 0));
      if Returns(t) {
        AnswerAcksLast(t.text, rest, e);
      } else if t.rule == STRAY {
        LexAcksOnlyLast(rest, if e > MAX_ERROR_SIZE - 2 then 1 else e + 1);
        AfterAcksOnlyLast(Flush(e), Lex(rest, if e > MAX_ERROR_SIZE - 2 then 1 else e + 1));
      } else {
        LexAcksOnlyLast(rest, e);
      }
    }
  }

  lemma EndAcksOnlyLast(e: nat)
    ensures AckOnlyLast(Lexed(EndOfFile, [], 0, Flush(e)))
  {
  }

  lemma AnswerAcksLast(text: seq<byte>, rest: seq<byte>, e: nat)
    ensures AckOnlyLast(Lexed(Answer(text), rest, 0, Flush(e) + [Ack]))
  {
  }

  lemma {:induction false} RepliesWait(l: Lexed, frame: seq<byte>)
    requires AckOnlyLast(l) && (l.outcome.Answer? ==> ValidPacket(l.outcome.text))
    ensures StopAndWait(ReplyEvents(l.replies, frame) + [Returned(l.outcome)], Waiting(frame, false))
    decreases |l.replies|
  {
    var rs := l.replies;
    var events := ReplyEvents(rs, frame) + [Returned(l.outcome)];
    if rs == [] {
      assert events == [Returned(l.outcome)];
    } else {
      var tail := l.(replies := rs[1..]);
      assert events[1..] == ReplyEvents(rs[1..], frame) + [Returned(l.outcome)];
      if rs[0] == Ack {
        assert rs == [Ack] && events[1..] == [Returned(l.outcome)];
      } else if |rs| > 1 {
        RepliesWait(tail, frame);
      } else {
        assert events[1..] == [Returned(l.outcome)];
      }
    }
  }

  /** Safety of every run: whatever the simulator sends, a frame goes out only when the previous one has been
      answered or the stream has ended, and every retransmission is the outstanding frame, byte for byte. */
  lemma {:induction false} RunsStopAndWait(payloads: seq<seq<byte>>, s: seq<byte>, e: nat)
    ensures StopAndWait(Run(payloads, s, e), Idle)
  {
    hide *;
    if payloads == [] {
      NothingStopsAndWaits(s, e);
    } else {
      var l := Lex(s, e);
      TransactionStopsAndWaits(payloads[0], s, e);
      RunsStopAndWait(payloads[1..], l.rest, l.errLen);
      StopAndWaitAppend(Transaction(payloads[0], l), Run(payloads[1..], l.rest, l.errLen), Idle);
      RunUnfolds(payloads, s, e);
    }
  }

  lemma NothingStopsAndWaits(s: seq<byte>, e: nat)
    ensures StopAndWait(Run([], s, e), Idle)
  {
  }

  lemma TransactionStopsAndWaits(payload: seq<byte>, s: seq<byte>, e: nat)
    ensures StopAndWait(Transaction(payload, Lex(s, e)), Idle)
  {
    hide *;
    var l, f := Lex(s, e), Frame(payload);
    LexAcksOnlyLast(s, e);
    RepliesWait(l, f);
    SentFirst(payload, ReplyEvents(l.replies, f) + [Returned(l.outcome)]);
    TransactionIs(payload, l);
  }

  lemma TransactionIs(payload: seq<byte>, l: Lexed)
    ensures Transaction(payload, l)
         == [Sent(Frame(payload))] + (ReplyEvents(l.replies, Frame(payload)) + [Returned(l.outcome)])
  {
  }

  lemma SentFirst(payload: seq<byte>, rest: seq<Event>)
    requires StopAndWait(rest, Waiting(Frame(payload), false))
    ensures StopAndWait([Sent(Frame(payload))] + rest, Idle)
  {
    hide Frame;
    var t := [Sent(Frame(payload))] + rest;
    assert t[1..] == rest && IsFrame(Frame(payload));
  }
}
