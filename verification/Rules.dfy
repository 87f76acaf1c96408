/** The lexical rules of the answer stream: five patterns, the longest match wins, then the first rule. */
module Rules {
  import opened Bytes
  import opened Codec

  const ACK: nat := 1
  const NAK: nat := 2
  const PACKET: nat := 3
  const STRAY: nat := 4
  const DEFAULT: nat := 5

  /** "$"[^$#]*"#"{HEX}{HEX} */
  predicate PacketPattern(s: seq<byte>) {
    && |s| >= 4 && s[0] == DOLLAR && s[|s| - 3] == HASH && IsHex(s[|s| - 2]) && IsHex(s[|s| - 1])
    && Plain(s[1..|s| - 3])
  }

  /** The first rule whose pattern is the whole of s, or 0. The last is flex's default rule. */
  function FirstRule(s: seq<byte>): nat {
    if s == [PLUS] then ACK
    else if s == [MINUS] then NAK
    else if PacketPattern(s) then PACKET
    else if |s| == 1 && s[0] != NEWLINE then STRAY
    else if |s| == 1 then DEFAULT
    else 0
  }

  /** k is the length of the longest prefix of s that some rule matches. */
  predicate IsLongest(s: seq<byte>, k: nat) {
    && k <= |s| && FirstRule(s[..k]) > 0
    && forall j | k < j <= |s| :: FirstRule(s[..j]) == 0
  }

  function LongestUpTo(s: seq<byte>, n: nat): (k: nat)
    requires 1 <= n <= |s|
    requires forall j | n < j <= |s| :: FirstRule(s[..j]) == 0
    ensures 1 <= k <= n && IsLongest(s, k)
  {
    if FirstRule(s[..n]) > 0 then n
    else
      assert n > 1 by { assert |s[..1]| == 1; }
      LongestUpTo(s, n - 1)
  }

  function TokenLength(s: seq<byte>): (k: nat)
    requires s != []
    ensures 1 <= k <= |s| && IsLongest(s, k)
  {
    LongestUpTo(s, |s|)
  }

  datatype Token = Token(rule: nat, text: seq<byte>)

  function FirstToken(s: seq<byte>): Token
    requires s != []
  {
    var text := s[..TokenLength(s)];
    Token(FirstRule(text), text)
  }

  /** The token sequence of a whole input. */
  function Tokens(s: seq<byte>): seq<Token> {
    if s == [] then [] else [FirstToken(s)] + Tokens(s[TokenLength(s)..])
  }

  function PayloadOf(text: seq<byte>): seq<byte>
    requires |text| >= 4
  {
    text[1..|text| - 3]
  }

  /** A packet whose two digits are the checksum of its payload. */
  predicate ValidPacket(text: seq<byte>) {
    PacketPattern(text) && Checksum(PayloadOf(text)) == HexParse(text[|text| - 2..])
  }

  lemma ValidPacketMeaning(text: seq<byte>)
    requires PacketPattern(text)
    ensures |text| >= 4 && AllHex(text[|text| - 2..])
    ensures ValidPacket(text) <==> Checksum(PayloadOf(text)) == HexParse(text[|text| - 2..])
  {
  }

  lemma LongestUnique(s: seq<byte>, j: nat, k: nat)
    requires IsLongest(s, j) && IsLongest(s, k)
    ensures j == k
  {
  }

  /** No packet is a proper prefix of another: a packet's text fixes its end. */
  lemma PacketEnds(s: seq<byte>, k: nat)
    requires k <= |s| && PacketPattern(s[..k])
    ensures IsLongest(s, k)
  {
    assert s[..k][k - 3] == s[k - 3] == HASH;
    forall j | k < j <= |s|
      ensures FirstRule(s[..j]) == 0
    {
      HashInside(s[..j], k - 3);
    }
  }

  lemma HashInside(t: seq<byte>, m: nat)
    requires 1 <= m < |t| - 3 && t[m] == HASH
    ensures FirstRule(t) == 0
  {
    assert t[1..|t| - 3][m - 1] == t[m];
  }

  lemma SingleEnds(s: seq<byte>)
    requires s != [] && s[0] != DOLLAR
    ensures IsLongest(s, 1)
  {
    assert forall j | 1 < j <= |s| :: s[..j][0] == s[0];
  }

  /** Framing round trip: a framed payload, whatever follows it, is read back as one packet. */
  lemma FrameIsOneToken(payload: seq<byte>, rest: seq<byte>)
    requires Plain(payload)
    ensures ValidPacket(Frame(payload)) && PayloadOf(Frame(payload)) == payload
    ensures TokenLength(Frame(payload) + rest) == |Frame(payload)|
    ensures FirstToken(Frame(payload) + rest) == Token(PACKET, Frame(payload))
    ensures Tokens(Frame(payload) + rest) == [Token(PACKET, Frame(payload))] + Tokens(rest)
  {
    var f := Frame(payload);
    var n := |f|;
    assert Pow(16, 2) == 256;
    HexRoundTrip(Checksum(payload), 2);
    assert f[1..n - 3] == payload && f[n - 3] == HASH && f[n - 2..] == Hex(Checksum(payload), 2);
    assert f[n - 2] == f[n - 2..][0] && f[n - 1] == f[n - 2..][1];
    assert PacketPattern(f);
    assert (f + rest)[n..] == rest;
    PacketIsOneToken(f, rest);
  }

  lemma SingleIsOneToken(b: byte, rest: seq<byte>)
    requires b == PLUS || b == MINUS
    ensures Tokens([b] + rest) == [Token(if b == PLUS then ACK else NAK, [b])] + Tokens(rest)
  {
    SingleEnds([b] + rest);
    LongestUnique([b] + rest, 1, TokenLength([b] + rest));
    assert ([b] + rest)[..1] == [b] && ([b] + rest)[1..] == rest;
  }

  /** A '$' that never becomes a packet falls back to a single stray character. */
  lemma BrokenPacketFallsBack(s: seq<byte>)
    requires s != [] && s[0] == DOLLAR
    ensures FirstToken(s) == Token(STRAY, [DOLLAR]) <==> forall k | 0 <= k <= |s| :: !PacketPattern(s[..k])
  {
    var n := TokenLength(s);
    assert s[..1] == [DOLLAR];
    if FirstToken(s) == Token(STRAY, [DOLLAR]) {
      forall k | 0 <= k <= |s|
        ensures !PacketPattern(s[..k])
      {
        if k > 1 {
          assert FirstRule(s[..k]) == 0;
        }
      }
    } else {
      assert n > 1 && PacketPattern(s[..n]);
    }
  }

  /** Lexing loses nothing. */
  lemma {:induction false} TokensCoverInput(s: seq<byte>)
    ensures TextOf(Tokens(s)) == s
  {
    if s != [] {
      TokensCoverInput(s[TokenLength(s)..]);
    }
  }

  function TextOf(ts: seq<Token>): seq<byte> {
    if ts == [] then [] else ts[0].text + TextOf(ts[1..])
  }

  lemma AlteredFrame(payload: seq<byte>, i: nat, b: byte)
    requires Plain(payload) && i < |payload|
    requires b != payload[i] && b != DOLLAR && b != HASH
    ensures PacketPattern(Frame(payload)[i + 1 := b]) && !ValidPacket(Frame(payload)[i + 1 := b])
  {
    FrameIsOneToken(payload, []);
    hide Frame, HexParse, FirstToken, Tokens, TokenLength, Sum, Plain;
    var f := Frame(payload);
    var g := f[i + 1 := b];
    AlteredParts(f, i, b);
    PlainAltered(payload, i, b);
    SumReplace(payload, i, b);
    SumModDiffers(Sum(payload), payload[i], b);
  }

  lemma AlteredParts(f: seq<byte>, i: nat, b: byte)
    requires |f| >= 4 && i < |f| - 4
    ensures var g := f[i + 1 := b];
            PayloadOf(g) == PayloadOf(f)[i := b] && g[|g| - 2..] == f[|f| - 2..] && g[0] == f[0] && g[|g| - 3] == f[|f| - 3]
            && g[|g| - 2] == f[|f| - 2] && g[|g| - 1] == f[|f| - 1]
  {
  }

  lemma PlainAltered(s: seq<byte>, i: nat, b: byte)
    requires Plain(s) && i < |s| && b != DOLLAR && b != HASH
    ensures Plain(s[i := b])
  {
  }

  /** Checksum detection: altering one payload byte of a frame still gives one packet token, whatever follows, and never
      a valid one. */
  lemma AlteredFrameRejected(payload: seq<byte>, i: nat, b: byte, rest: seq<byte>)
    requires Plain(payload) && i < |payload|
    requires b != payload[i] && b != DOLLAR && b != HASH
    ensures var g := Frame(payload)[i + 1 := b];
            FirstToken(g + rest) == Token(PACKET, g) && TokenLength(g + rest) == |g| && !ValidPacket(g)
  {
    hide *;
    AlteredFrame(payload, i, b);
    PacketIsOneToken(Frame(payload)[i + 1 := b], rest);
  }

  /** d is the digit for v, in lower or upper case. */
  predicate IsDigitFor(d: byte, v: nat)
    requires v < 16
  {
    d == LOWER[v] as int || d == UPPER[v] as int
  }

  lemma HexPair(d1: byte, d2: byte)
    requires IsHex(d1) && IsHex(d2)
    ensures AllHex([d1, d2]) && HexParse([d1, d2]) == 16 * HexValue(d1) + HexValue(d2)
  {
    assert [d1, d2][..1] == [d1] && [d1][..0] == [];
    assert HexParse([d1]) == HexValue(d1);
  }

  lemma DigitForIff(d: byte, v: nat)
    requires IsHex(d) && v < 16
    ensures IsDigitFor(d, v) <==> HexValue(d) == v
  {
    HexDigits(v);
  }

  /** A plain payload between '$' and '#', and any two digits, is one packet, whatever follows. It is valid exactly when the
      digits are those of the payload's checksum, each in either case. */
  lemma AnyDigits(payload: seq<byte>, d1: byte, d2: byte, rest: seq<byte>)
    requires Plain(payload) && IsHex(d1) && IsHex(d2)
    ensures var g, c := [0x24] + payload + [0x23, d1, d2], Checksum(payload);
            && FirstToken(g + rest) == Token(PACKET, g) && TokenLength(g + rest) == |g| && PayloadOf(g) == payload
            && (ValidPacket(g) <==> IsDigitFor(d1, c / 16) && IsDigitFor(d2, c % 16))
  {
    var g, c := [0x24] + payload + [0x23, d1, d2], Checksum(payload);
    hide Checksum, HexValue, IsHex, HexParse, FirstToken, TokenLength;
    assert PayloadOf(g) == payload && g[|g| - 2..] == [d1, d2];
    HexPair(d1, d2);
    DigitForIff(d1, c / 16);
    DigitForIff(d2, c % 16);
    hide IsDigitFor;
    PacketIsOneToken(g, rest);
  }

  lemma PacketIsOneToken(g: seq<byte>, rest: seq<byte>)
    requires PacketPattern(g)
    ensures FirstToken(g + rest) == Token(PACKET, g) && TokenLength(g + rest) == |g|
  {
    assert (g + rest)[..|g|] == g;
    PacketEnds(g + rest, |g|);
    LongestUnique(g + rest, |g|, TokenLength(g + rest));
  }

  lemma SumModDiffers(sum: int, x: byte, y: byte)
    requires x != y
    ensures (sum - x + y) % 256 != sum % 256
  {
  }
}
