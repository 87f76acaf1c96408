/** What the scanner's actions do with a whole input: the meaning of one yylex call, and the account of all of them. */
module Replies {
  import opened Bytes
  import opened Codec
  import opened Rules

  const MAX_ERROR_SIZE: nat := 1024

  /** What the client writes while it reads: "+", "-", or its outstanding packet again. */
  datatype Reply = Ack | Nak | Resend

  datatype Outcome = Answer(text: seq<byte>) | EndOfFile

  /** A finished call: its outcome, the input left, the error buffer's length and the replies written. */
  datatype Lexed = Lexed(outcome: Outcome, rest: seq<byte>, errLen: nat, replies: seq<Reply>)

  /** handle_error: ask for retransmission when stray characters are waiting. */
  function Flush(e: nat): seq<Reply> {
    if e > 0 then [Nak] else []
  }

  function After(replies: seq<Reply>, l: Lexed): Lexed {
    l.(replies := replies + l.replies)
  }

  /** One call of yylex on the input s with e stray characters in the error buffer. */
  function Lex(s: seq<byte>, e: nat): (l: Lexed)
    ensures |l.rest| <= |s| && (l.outcome.Answer? ==> |l.rest| < |s| && ValidPacket(l.outcome.text))
    ensures l.errLen == 0 && (l.outcome.EndOfFile? ==> l.rest == [])
  {
    if s == [] then Lexed(EndOfFile, [], 0, Flush(e))
    else
      var t, rest := FirstToken(s), s[TokenLength(s)..];
      if t.rule == ACK then After(Flush(e), Lex(rest, 0))
      else if t.rule == NAK then After(Flush(e) + [Resend], Lex(rest, 0))
      else if t.rule == PACKET then
        if ValidPacket(t.text) then Lexed(Answer(t.text), rest, 0, Flush(e) + [Ack])
        else After(Flush(e) + [Nak], Lex(rest, 0))
      else if t.rule == STRAY then
        if e > MAX_ERROR_SIZE - 2 then After(Flush(e), Lex(rest, 1)) else Lex(rest, e + 1)
      else Lex(rest, e)
  }

  /** One token's action: its replies and the error buffer's length after it. */
  function ActReplies(t: Token, e: nat): seq<Reply> {
    if t.rule == DEFAULT || (t.rule == STRAY && e <= MAX_ERROR_SIZE - 2) then []
    else if t.rule == STRAY then Flush(e)
    else Flush(e) + OwnReply(t)
  }

  function ActLength(t: Token, e: nat): nat {
    if t.rule == DEFAULT then e
    else if t.rule == STRAY then (if e <= MAX_ERROR_SIZE - 2 then e + 1 else 1)
    else 0
  }

  predicate Returns(t: Token) {
    t.rule == PACKET && ValidPacket(t.text)
  }

  /** A call is the action of the first token, and then, unless that returns, a call on what follows. */
  lemma LexStep(s: seq<byte>, e: nat)
    requires s != []
    ensures var t, rest := FirstToken(s), s[TokenLength(s)..];
            Lex(s, e) == if Returns(t) then Lexed(Answer(t.text), rest, ActLength(t, e), ActReplies(t, e))
                         else After(ActReplies(t, e), Lex(rest, ActLength(t, e)))
  {
    assert 1 <= FirstToken(s).rule <= 5;
    hide FirstToken, TokenLength, ValidPacket;
    var t, rest := FirstToken(s), s[TokenLength(s)..];
    assert After([], Lex(rest, ActLength(t, e))) == Lex(rest, ActLength(t, e));
    assert Flush(e) + [] == Flush(e);
  }

  /** The replies of all the calls it takes to reach the end of the input. */
  function AllReplies(s: seq<byte>, e: nat): seq<Reply>
    decreases |s|
  {
    var l := Lex(s, e);
    if l.outcome.EndOfFile? then l.replies else l.replies + AllReplies(l.rest, l.errLen)
  }

  function Naks(n: nat): (r: seq<Reply>)
    ensures |r| == n && forall i | 0 <= i < n :: r[i] == Nak
  {
    seq(n, _ => Nak)
  }

  /** ceil(k / 1023). */
  function Batches(k: nat): nat {
    (k + MAX_ERROR_SIZE - 2) / (MAX_ERROR_SIZE - 1)
  }

  /** The account: each maximal run of k stray characters between flush points costs Batches(k) requests,
      each flush point adds its own reply. k counts the run in progress; newlines are invisible. */
  function Account(ts: seq<Token>, k: nat): seq<Reply> {
    if ts == [] then Naks(Batches(k))
    else
      var t := ts[0];
      if t.rule == STRAY then Account(ts[1..], k + 1)
      else if t.rule == DEFAULT then Account(ts[1..], k)
      else Naks(Batches(k)) + OwnReply(t) + Account(ts[1..], 0)
  }

  function OwnReply(t: Token): seq<Reply> {
    if t.rule == NAK then [Resend]
    else if t.rule == PACKET then (if ValidPacket(t.text) then [Ack] else [Nak])
    else []
  }

  /** Requests already written, and characters still buffered, after a run of k stray characters. */
  function Emitted(k: nat): nat {
    if k == 0 then 0 else (k - 1) / (MAX_ERROR_SIZE - 1)
  }

  function Buffered(k: nat): (e: nat)
    ensures e <= MAX_ERROR_SIZE - 1
    ensures e == 0 <==> k == 0
  {
    if k == 0 then 0 else (k - 1) % (MAX_ERROR_SIZE - 1) + 1
  }

  lemma BatchesSplit(k: nat)
    ensures Naks(Batches(k)) == Naks(Emitted(k)) + Flush(Buffered(k))
    ensures if Buffered(k) > MAX_ERROR_SIZE - 2
            then Emitted(k + 1) == Emitted(k) + 1 && Buffered(k + 1) == 1
            else Emitted(k + 1) == Emitted(k) && Buffered(k + 1) == Buffered(k) + 1
  {
    assert Batches(k) == Emitted(k) + |Flush(Buffered(k))|;
  }

  lemma AllRepliesStep(s: seq<byte>, e: nat)
    requires s != []
    ensures var t, rest := FirstToken(s), s[TokenLength(s)..];
            AllReplies(s, e) ==
            if t.rule == STRAY then
              (if e > MAX_ERROR_SIZE - 2 then Flush(e) + AllReplies(rest, 1) else AllReplies(rest, e + 1))
            else if t.rule == DEFAULT then AllReplies(rest, e)
            else Flush(e) + OwnReply(t) + AllReplies(rest, 0)
  {
    hide FirstToken, TokenLength, OwnReply, Flush, AllReplies;
    FirstThenRest(s, e);
    assert [] + AllReplies(s[TokenLength(s)..], ActLength(FirstToken(s), e))
        == AllReplies(s[TokenLength(s)..], ActLength(FirstToken(s), e));
  }

  /** All replies are those of the first token's action, and then those of the rest. */
  lemma FirstThenRest(s: seq<byte>, e: nat)
    requires s != []
    ensures var t, rest := FirstToken(s), s[TokenLength(s)..];
            AllReplies(s, e) == ActReplies(t, e) + AllReplies(rest, ActLength(t, e))
  {
    hide FirstToken, TokenLength, Lex, AllReplies, ActReplies, ActLength, Returns;
    LexStep(s, e);
    AllRepliesAre(s, e);
    AllRepliesAre(s[TokenLength(s)..], ActLength(FirstToken(s), e));
  }

  lemma AllRepliesAre(s: seq<byte>, e: nat)
    ensures var l := Lex(s, e);
            AllReplies(s, e) == l.replies + if l.outcome.EndOfFile? then [] else AllReplies(l.rest, l.errLen)
  {
    hide Lex;
  }

  lemma AccountStep(s: seq<byte>, k: nat)
    requires s != []
    ensures var t, ts := FirstToken(s), Tokens(s[TokenLength(s)..]);
            Account(Tokens(s), k) ==
            if t.rule == STRAY then Account(ts, k + 1)
            else if t.rule == DEFAULT then Account(ts, k)
            else Naks(Batches(k)) + OwnReply(t) + Account(ts, 0)
  {
    assert Tokens(s)[1..] == Tokens(s[TokenLength(s)..]);
  }

  lemma EndOfAccount(k: nat)
    ensures Account(Tokens([]), k) == Naks(Emitted(k)) + AllReplies([], Buffered(k))
  {
    BatchesSplit(k);
  }

  /** Whole-run reply accounting, from the middle of a run of k stray characters. */
  lemma {:induction false} RepliesAreAccounted(s: seq<byte>, k: nat)
    ensures Account(Tokens(s), k) == Naks(Emitted(k)) + AllReplies(s, Buffered(k))
    decreases |s|
  {
    hide *;
    if s == [] {
      EndOfAccount(k);
    } else {
      var t, rest := FirstToken(s), s[TokenLength(s)..];
      AllRepliesStep(s, Buffered(k));
      AccountStep(s, k);
      if t.rule == STRAY {
        RepliesAreAccounted(rest, k + 1);
        StrayGlue(k, rest);
      } else if t.rule == DEFAULT {
        RepliesAreAccounted(rest, k);
      } else {
        RepliesAreAccounted(rest, 0);
        FlushGlue(k, OwnReply(t), AllReplies(rest, 0));
      }
    }
  }

  lemma StrayGlue(k: nat, rest: seq<byte>)
    ensures Naks(Emitted(k + 1)) + AllReplies(rest, Buffered(k + 1))
         == Naks(Emitted(k)) + if Buffered(k) > MAX_ERROR_SIZE - 2 then Flush(Buffered(k)) + AllReplies(rest, 1)
                               else AllReplies(rest, Buffered(k) + 1)
  {
    hide AllReplies;
    BatchesSplit(k);
    if Buffered(k) > MAX_ERROR_SIZE - 2 {
      assert Naks(Emitted(k + 1)) == Naks(Emitted(k)) + [Nak];
    }
  }

  lemma FlushGlue(k: nat, own: seq<Reply>, later: seq<Reply>)
    ensures Buffered(0) == 0
    ensures Naks(Batches(k)) + own + (Naks(Emitted(0)) + later) == Naks(Emitted(k)) + (Flush(Buffered(k)) + own + later)
  {
    BatchesSplit(k);
  }

  function ValidPackets(ts: seq<Token>): nat {
    if ts == [] then 0 else (if Returns(ts[0]) then 1 else 0) + ValidPackets(ts[1..])
  }

  function Requests(ts: seq<Token>): nat {
    if ts == [] then 0 else (if ts[0].rule == NAK then 1 else 0) + Requests(ts[1..])
  }

  function BadPackets(ts: seq<Token>): nat {
    if ts == [] then 0 else (if ts[0].rule == PACKET && !ValidPacket(ts[0].text) then 1 else 0) + BadPackets(ts[1..])
  }

  /** Batches over all runs of stray characters between flush points, k of them in the run in progress. */
  function StrayBatches(ts: seq<Token>, k: nat): nat {
    if ts == [] then Batches(k)
    else if ts[0].rule == STRAY then StrayBatches(ts[1..], k + 1)
    else if ts[0].rule == DEFAULT then StrayBatches(ts[1..], k)
    else Batches(k) + StrayBatches(ts[1..], 0)
  }

  function Count(rs: seq<Reply>, r: Reply): nat {
    multiset(rs)[r]
  }

  lemma CountAppend(a: seq<Reply>, b: seq<Reply>, c: seq<Reply>, r: Reply)
    ensures Count(a + b + c, r) == Count(a, r) + Count(b, r) + Count(c, r)
  {
  }

  lemma {:induction false} AccountCounts(ts: seq<Token>, k: nat)
    ensures Count(Account(ts, k), Ack) == ValidPackets(ts)
    ensures Count(Account(ts, k), Resend) == Requests(ts)
    ensures Count(Account(ts, k), Nak) == BadPackets(ts) + StrayBatches(ts, k)
  {
    hide ValidPacket, PacketPattern, Returns, Naks, Batches, OwnReply, Count;
    NaksCount(Batches(k));
    if ts != [] {
      var t, later := ts[0], ts[1..];
      AccountCounts(later, if t.rule == STRAY then k + 1 else if t.rule == DEFAULT then k else 0);
      OwnReplyCount(t);
      CountAppend(Naks(Batches(k)), OwnReply(t), Account(later, 0), Ack);
      CountAppend(Naks(Batches(k)), OwnReply(t), Account(later, 0), Resend);
      CountAppend(Naks(Batches(k)), OwnReply(t), Account(later, 0), Nak);
    }
  }

  lemma OwnReplyCount(t: Token)
    ensures Count(OwnReply(t), Ack) == if Returns(t) then 1 else 0
    ensures Count(OwnReply(t), Resend) == if t.rule == NAK then 1 else 0
    ensures Count(OwnReply(t), Nak) == if t.rule == PACKET && !ValidPacket(t.text) then 1 else 0
    ensures Returns(t) ==> t.rule == PACKET
  {
  }

  lemma NaksCount(n: nat)
    ensures Count(Naks(n), Ack) == 0 && Count(Naks(n), Resend) == 0 && Count(Naks(n), Nak) == n
  {
    assert Ack !in Naks(n) && Resend !in Naks(n);
    NaksAreNaks(n);
  }

  lemma {:induction false} NaksAreNaks(n: nat)
    ensures Count(Naks(n), Nak) == n
  {
    if n > 0 {
      NaksAreNaks(n - 1);
      assert Naks(n) == Naks(n - 1) + [Nak];
    } else {
      assert Naks(0) == [];
    }
  }

  /** From a fresh start: the exact sequence of writes; in it one "+" per valid packet, one resend per request, and a "-"
      per bad packet and per batch of stray characters. */
  lemma ReplyAccounting(s: seq<byte>)
    ensures AllReplies(s, 0) == Account(Tokens(s), 0)
    ensures Count(AllReplies(s, 0), Ack) == ValidPackets(Tokens(s))
    ensures Count(AllReplies(s, 0), Resend) == Requests(Tokens(s))
    ensures Count(AllReplies(s, 0), Nak) == BadPackets(Tokens(s)) + StrayBatches(Tokens(s), 0)
  {
    RepliesAreAccounted(s, 0);
    assert Naks(Emitted(0)) + AllReplies(s, 0) == AllReplies(s, 0);
    AccountCounts(Tokens(s), 0);
  }

  // ---- What each piece of a stream brings

  /** What one byte other than '$' brings while e stray characters wait: "+" and "-" first have a "-" written for those,
      and "-" then the packet; a newline does nothing; any other byte joins those that wait, of which there are never
      more than 1023. */
  lemma OneByte(b: byte, rest: seq<byte>, e: nat)
    requires b != 0x24
    ensures var waiting := if e > 0 then [Nak] else [];
            AllReplies([b] + rest, e) ==
            if b == 0x2b then waiting + AllReplies(rest, 0)
            else if b == 0x2d then waiting + [Resend] + AllReplies(rest, 0)
            else if b == 0x0a then AllReplies(rest, e)
            else if e < 1023 then AllReplies(rest, e + 1)
            else waiting + AllReplies(rest, 1)
  {
    var s := [b] + rest;
    SingleToken(s);
    assert s[1..] == rest;
    hide FirstToken, TokenLength, AllReplies;
    AllRepliesStep(s, e);
  }

  /** What a packet brings: a "-" for what waits, then "+" or "-" as its digits are those of the checksum or not. */
  lemma OnePacket(payload: seq<byte>, d1: byte, d2: byte, rest: seq<byte>, e: nat)
    requires Plain(payload) && IsHex(d1) && IsHex(d2)
    ensures var waiting, c := if e > 0 then [Nak] else [], Checksum(payload);
            AllReplies([0x24] + payload + [0x23, d1, d2] + rest, e) ==
            waiting + [if IsDigitFor(d1, c / 16) && IsDigitFor(d2, c % 16) then Ack else Nak] + AllReplies(rest, 0)
  {
    var g := [0x24] + payload + [0x23, d1, d2];
    AnyDigits(payload, d1, d2, rest);
    assert (g + rest)[|g|..] == rest;
    hide FirstToken, TokenLength, AllReplies, ValidPacket, Checksum, IsDigitFor;
    AllRepliesStep(g + rest, e);
  }

  /** The first token of an input that begins with anything but '$' is one byte. */
  lemma SingleToken(s: seq<byte>)
    requires s != [] && s[0] != DOLLAR
    ensures TokenLength(s) == 1 && FirstToken(s) == Token(FirstRule([s[0]]), [s[0]])
  {
    SingleEnds(s);
    LongestUnique(s, 1, TokenLength(s));
    assert s[..1] == [s[0]];
  }

  /** A stream of n characters 'x' costs a "-" for every 1023 of them that have been begun. */
  lemma StrayRun(n: nat)
    ensures AllReplies(seq(n, _ => 0x78), 0) == Naks((n + 1022) / 1023)
  {
    ReplyAccounting(seq(n, _ => 0x78));
    StrayAccount(n, 0);
  }

  lemma {:induction false} StrayAccount(n: nat, k: nat)
    ensures Account(Tokens(seq(n, _ => 0x78)), k) == Naks(Batches(n + k))
  {
    var s: seq<byte> := seq(n, _ => 0x78);
    if n == 0 {
      assert s == [];
    } else {
      SingleToken(s);
      assert s[1..] == seq(n - 1, _ => 0x78);
      StrayAccount(n - 1, k + 1);
      hide Account, Tokens, FirstToken, TokenLength, Naks, Batches;
      AccountStep(s, k);
    }
  }
}
