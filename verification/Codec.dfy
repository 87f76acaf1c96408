/** The packet formats of the GDB Remote Serial Protocol that the client writes, and the target's reading of them. */
module Codec {
  import opened Bytes
  import opened Wrappers

  const MAX_PACKET_SIZE: nat := 1024
  const MAX_BUFFER_SIZE: nat := MAX_PACKET_SIZE - 6
  /** Length of "Xaaaaaaaa,llllllll:". */
  const HEADER_SIZE: nat := 19

  // ---- Framing: $payload#cc

  function Sum(s: seq<byte>): nat {
    if s == [] then 0 else Sum(s[..|s| - 1]) + s[|s| - 1]
  }

  function Checksum(s: seq<byte>): byte {
    Sum(s) % 256
  }

  function Frame(payload: seq<byte>): (f: seq<byte>)
    ensures |f| == |payload| + 4
  {
    assert Pow(16, 2) == 256;
    [DOLLAR] + payload + [HASH] + Hex(Checksum(payload), 2)
  }

  /** A payload that framing leaves readable: it holds no frame delimiter. */
  predicate Plain(s: seq<byte>) {
    forall i | 0 <= i < |s| :: s[i] != DOLLAR && s[i] != HASH
  }

  lemma {:induction false} SumAppend(s: seq<byte>, t: seq<byte>)
    ensures Sum(s + t) == Sum(s) + Sum(t)
  {
    if t == [] {
      assert s + t == s;
    } else {
      assert (s + t)[..|s + t| - 1] == s + t[..|t| - 1];
      SumAppend(s, t[..|t| - 1]);
    }
  }

  /** What the checksum is: the sum of the bytes modulo 256. */
  lemma ChecksumIs(s: seq<byte>, t: seq<byte>, b: byte)
    ensures Checksum([]) == 0 && Checksum([b]) == b
    ensures Checksum(s + t) == (Checksum(s) as int + Checksum(t) as int) % 256
  {
    SumOne(b);
    SumAppend(s, t);
    hide Sum;
  }

  lemma SumOne(b: byte)
    ensures Sum([]) == 0 && Sum([b]) == b
  {
    assert Sum([b]) == Sum([b][..0]) + b;
  }

  lemma {:induction false} SumReplace(s: seq<byte>, i: nat, b: byte)
    requires i < |s|
    ensures Sum(s[i := b]) == Sum(s) - s[i] + b
  {
    var t := s[i := b];
    if i == |s| - 1 {
      assert t[..|t| - 1] == s[..|s| - 1];
    } else {
      assert t[..|t| - 1] == s[..|s| - 1][i := b];
      SumReplace(s[..|s| - 1], i, b);
    }
  }

  // ---- Binary escaping: '$', '#' and '}' become '}' followed by the byte with bit 5 flipped

  const ESCAPE: byte := 0x7d

  predicate Special(b: byte) {
    b == DOLLAR || b == HASH || b == ESCAPE
  }

  /** b ^ 0x20. */
  function Flip(b: byte): byte {
    if (b / 32) % 2 == 1 then b - 32 else b + 32
  }

  /** Flipping exchanges the two values of bit 5, between the two bits above and the five below. */
  lemma FlipIsBitFive(high: nat, bit: nat, low: nat)
    requires high < 4 && bit <= 1 && low < 32
    ensures 0 <= 64 * high + 32 * bit + low < 256
    ensures Flip(64 * high + 32 * bit + low) == 64 * high + 32 * (1 - bit) + low
  {
  }

  /** The target's reading of the byte behind an escape: the one that differs in bit 5. */
  function Escaped(b: byte): byte {
    64 * (b / 64) as int + 32 * (1 - (b / 32) % 2) + b % 32
  }

  function EscapeByte(b: byte): seq<byte> {
    if Special(b) then [ESCAPE, Flip(b)] else [b]
  }

  function Escape(s: seq<byte>): seq<byte> {
    if s == [] then [] else EscapeByte(s[0]) + Escape(s[1..])
  }

  function Unescape(s: seq<byte>): Option<seq<byte>> {
    if s == [] then Some([])
    else if s[0] == ESCAPE then
      if |s| == 1 then None
      else match Unescape(s[2..])
        case None => None
        case Some(t) => Some([Escaped(s[1])] + t)
    else match Unescape(s[1..])
      case None => None
      case Some(t) => Some([s[0]] + t)
  }

  /** What the copying switch stores for every byte. */
  lemma EscapedBytes(b: byte)
    ensures EscapeByte(b) == if b == 0x23 then [0x7d, 0x03] else if b == 0x24 then [0x7d, 0x04]
                             else if b == 0x7d then [0x7d, 0x5d] else [b]
  {
  }

  lemma {:induction false} EscapeAppend(s: seq<byte>, t: seq<byte>)
    ensures Escape(s + t) == Escape(s) + Escape(t)
  {
    if s == [] {
      assert s + t == t;
    } else {
      assert (s + t)[1..] == s[1..] + t;
      EscapeAppend(s[1..], t);
    }
  }

  /** What one step of the copying loop adds. */
  lemma EscapeSnoc(s: seq<byte>, k: nat)
    requires k < |s|
    ensures Escape(s[..k + 1]) == Escape(s[..k]) + EscapeByte(s[k])
  {
    assert s[..k + 1] == s[..k] + [s[k]];
    EscapeAppend(s[..k], [s[k]]);
    assert Escape([s[k]]) == EscapeByte(s[k]);
  }

  lemma {:induction false} EscapeInvertible(s: seq<byte>)
    ensures Unescape(Escape(s)) == Some(s)
  {
    if s != [] {
      EscapeInvertible(s[1..]);
      var e := EscapeByte(s[0]);
      assert Escape(s)[|e|..] == Escape(s[1..]);
      assert [s[0]] + s[1..] == s;
      EscapedIsFlipped(s[0]);
    }
  }

  lemma EscapedIsFlipped(b: byte)
    ensures Escaped(Flip(b)) == b
  {
  }

  lemma {:induction false} EscapePlain(s: seq<byte>)
    ensures Plain(Escape(s))
    ensures |s| <= |Escape(s)| <= 2 * |s|
  {
    if s != [] {
      EscapePlain(s[1..]);
    }
  }

  // ---- Memory writes: Xaddress,length:data

  function MemoryHeader(address: word, length: word): (h: seq<byte>)
    ensures |h| == HEADER_SIZE
  {
    assert Pow(16, 8) == 0x1_0000_0000 by { Pow16Eight(); }
    ['X' as int] + Hex(address, 8) + [COMMA] + Hex(length, 8) + [COLON]
  }

  lemma Pow16Eight()
    ensures Pow(16, 8) == 0x1_0000_0000
  {
    assert Pow(16, 4) == 0x1_0000;
    assert Pow(16, 8) == 16 * (16 * (16 * (16 * Pow(16, 4))));
  }

  function MemoryPayload(address: word, data: seq<byte>): seq<byte>
    requires |data| < 0x1_0000_0000
  {
    MemoryHeader(address, |data|) + Escape(data)
  }

  /** How many bytes of src the next packet takes: the first count, if any, whose escaped form
      reaches MAX_BUFFER_SIZE - 1. */
  predicate IsChunk(src: seq<byte>, n: nat) {
    && n <= |src|
    && (n == |src| || |Escape(src[..n])| >= MAX_BUFFER_SIZE - 1)
    && forall k | 0 <= k < n :: |Escape(src[..k])| < MAX_BUFFER_SIZE - 1
  }

  function ChunkFrom(src: seq<byte>, k: nat): (n: nat)
    requires k <= |src|
    requires forall j | 0 <= j < k :: |Escape(src[..j])| < MAX_BUFFER_SIZE - 1
    ensures IsChunk(src, n)
    decreases |src| - k
  {
    if |Escape(src[..k])| < MAX_BUFFER_SIZE - 1 && k < |src| then ChunkFrom(src, k + 1) else k
  }

  function ChunkLength(src: seq<byte>): (n: nat)
    ensures IsChunk(src, n)
  {
    ChunkFrom(src, 0)
  }

  lemma ChunkUnique(src: seq<byte>, m: nat, n: nat)
    requires IsChunk(src, m) && IsChunk(src, n)
    ensures m == n
  {
  }

  /** Every chunk of a non-empty buffer takes at least one byte and escapes to at most MAX_BUFFER_SIZE bytes. */
  lemma ChunkBounds(src: seq<byte>, n: nat)
    requires IsChunk(src, n)
    ensures n <= |src| && (src != [] ==> n > 0)
    ensures n <= |Escape(src[..n])| <= MAX_BUFFER_SIZE
    ensures |Escape(src[..n])| <= |Escape(src)|
  {
    assert Escape(src[..0]) == [];
    if n > 0 {
      EscapeSnoc(src, n - 1);
      assert |Escape(src[..n - 1])| < MAX_BUFFER_SIZE - 1;
    }
    EscapePlain(src[..n]);
    assert src == src[..n] + src[n..];
    EscapeAppend(src[..n], src[n..]);
  }

  /** Where the copying loop stops is the end of the chunk. */
  lemma ChunkEnds(src: seq<byte>, n: nat)
    requires n <= |src| && (|Escape(src[..n])| >= MAX_BUFFER_SIZE - 1 || n == |src|)
    requires forall j | 0 <= j < n :: |Escape(src[..j])| < MAX_BUFFER_SIZE - 1
    ensures n == ChunkLength(src)
  {
    hide Escape, ChunkLength;
    ChunkUnique(src, n, ChunkLength(src));
  }

  /** A copying step of an unfinished chunk stays within what the whole chunk needs. */
  lemma ChunkStep(src: seq<byte>, k: nat)
    requires k < |src|
    requires forall j | 0 <= j <= k :: |Escape(src[..j])| < MAX_BUFFER_SIZE - 1
    ensures k < ChunkLength(src)
    ensures |Escape(src[..k])| + |EscapeByte(src[k])| <= |Escape(src[..ChunkLength(src)])|
  {
    var n := ChunkLength(src);
    assert IsChunk(src, n);
    EscapeSnoc(src, k);
    assert src[..n] == src[..k + 1] + src[k + 1..n];
    EscapeAppend(src[..k + 1], src[k + 1..n]);
  }

  /** The copying loop has not stopped before n. */
  predicate Copying(src: seq<byte>, n: nat)
    requires n <= |src|
  {
    forall j | 0 <= j < n :: |Escape(src[..j])| < MAX_BUFFER_SIZE - 1
  }

  lemma CopyingStarts(src: seq<byte>)
    ensures Copying(src, 0)
  {
  }

  lemma CopyingStep(src: seq<byte>, k: nat)
    requires k < |src| && Copying(src, k) && |Escape(src[..k])| < MAX_BUFFER_SIZE - 1
    ensures Copying(src, k + 1) && |Escape(src[..k + 1])| <= |Escape(src[..ChunkLength(src)])|
  {
    hide Escape, ChunkLength, EscapeByte;
    ChunkStep(src, k);
    EscapeSnoc(src, k);
  }

  lemma CopyingEnds(src: seq<byte>, n: nat)
    requires n <= |src| && Copying(src, n) && (|Escape(src[..n])| >= MAX_BUFFER_SIZE - 1 || n == |src|)
    ensures n == ChunkLength(src)
  {
    hide Escape, ChunkLength;
    ChunkEnds(src, n);
  }

  /** The pieces a buffer is cut into. */
  function Chunks(src: seq<byte>): (cs: seq<seq<byte>>) {
    if src == [] then []
    else
      var n := ChunkLength(src);
      assert n > 0 by { ChunkBounds(src, n); }
      [src[..n]] + Chunks(src[n..])
  }

  /** Bytes the packet array must hold for one chunk: '$', header, data, '#', two digits and a final NUL. */
  function PacketNeed(chunk: seq<byte>): nat {
    HEADER_SIZE + |Escape(chunk)| + 5
  }

  /** Every packet of the buffer fits a packet array of the given capacity. */
  predicate Fits(src: seq<byte>, capacity: nat) {
    forall c | c in Chunks(src) :: PacketNeed(c) <= capacity
  }

  lemma FitsStep(src: seq<byte>, capacity: nat)
    requires src != []
    ensures Fits(src, capacity) <==>
            PacketNeed(src[..ChunkLength(src)]) <= capacity && Fits(src[ChunkLength(src)..], capacity)
  {
    var n := ChunkLength(src);
    ChunkBounds(src, n);
    var first, rest := src[..n], Chunks(src[n..]);
    assert Chunks(src) == [first] + rest;
    hide Chunks, PacketNeed, ChunkLength;
    assert forall c :: c in [first] + rest <==> c == first || c in rest;
    assert first in [first] + rest;
  }

  lemma EscapeSuffix(src: seq<byte>, n: nat)
    requires n <= |src|
    ensures |Escape(src[n..])| <= |Escape(src)|
  {
    EscapeAppend(src[..n], src[n..]);
    assert src == src[..n] + src[n..];
  }

  /** MAX_BUFFER_SIZE + 24 bytes are enough for every buffer. */
  lemma {:induction false} FitsEnough(src: seq<byte>)
    ensures Fits(src, MAX_BUFFER_SIZE + 24)
    decreases |src|
  {
    if src != [] {
      var n := ChunkLength(src);
      ChunkBounds(src, n);
      FitsEnough(src[n..]);
      FitsStep(src, MAX_BUFFER_SIZE + 24);
    }
  }

  lemma {:induction false} FitsSmall(src: seq<byte>, capacity: nat)
    requires |Escape(src)| + 24 <= capacity
    ensures Fits(src, capacity)
    decreases |src|
  {
    if src != [] {
      var n := ChunkLength(src);
      ChunkBounds(src, n);
      EscapeSuffix(src, n);
      FitsSmall(src[n..], capacity);
      FitsStep(src, capacity);
    }
  }

  /** What the packet array as declared holds: the buffers whose escaped form has at most 1000 bytes, and no others. */
  lemma FitsDeclaredSize(src: seq<byte>)
    ensures Fits(src, 1024) <==> |Escape(src)| <= 1000
  {
    if |Escape(src)| <= MAX_PACKET_SIZE - 24 {
      FitsSmall(src, MAX_PACKET_SIZE);
    } else {
      assert Escape([]) == [];
      var n := ChunkLength(src);
      assert src[..|src|] == src;
      FitsStep(src, MAX_PACKET_SIZE);
    }
  }

  /** A buffer of 1016 plain bytes and a '$' needs every one of the 1042 bytes. */
  lemma LargestPacket()
    ensures var src := seq(1016, _ => 0) + [DOLLAR];
            PacketNeed(src[..ChunkLength(src)]) == 1042 == MAX_BUFFER_SIZE + 24 && MAX_PACKET_SIZE == 1024
  {
    var zeros: seq<byte> := seq(1016, _ => 0);
    var src := zeros + [DOLLAR];
    EscapeZeros(1016);
    forall k | 0 <= k < 1017
      ensures |Escape(src[..k])| < MAX_BUFFER_SIZE - 1
    {
      EscapeZeros(k);
      assert src[..k] == seq(k, _ => 0);
    }
    EscapeAppend(zeros, [DOLLAR]);
    assert |Escape([DOLLAR])| == 2;
    assert src[..1017] == src;
    ChunkUnique(src, ChunkLength(src), 1017);
  }

  lemma {:induction false} EscapeZeros(n: nat)
    ensures |Escape(seq(n, _ => 0))| == n
  {
    if n > 0 {
      EscapeZeros(n - 1);
      assert seq(n, _ => 0)[1..] == seq(n - 1, _ => 0);
    }
  }

  // ---- The target's reading of an X packet

  /** Index of the first b in s, or |s|. */
  function IndexOf(s: seq<byte>, b: byte): (i: nat)
    ensures i <= |s|
    ensures forall j | 0 <= j < i :: s[j] != b
    ensures i < |s| ==> s[i] == b
  {
    if s == [] then 0 else if s[0] == b then 0 else 1 + IndexOf(s[1..], b)
  }

  datatype MemoryWrite = MemoryWrite(address: nat, data: seq<byte>)

  function ParseMemoryWrite(payload: seq<byte>): Option<MemoryWrite> {
    if |payload| == 0 || payload[0] != 'X' as int then None
    else
      var comma := IndexOf(payload, COMMA);
      var colon := IndexOf(payload, COLON);
      if !(1 < comma && comma + 1 < colon < |payload|) then None
      else if !AllHex(payload[1..comma]) || !AllHex(payload[comma + 1..colon]) then None
      else match Unescape(payload[colon + 1..])
        case None => None
        case Some(data) =>
          if |data| != HexParse(payload[comma + 1..colon]) then None
          else Some(MemoryWrite(HexParse(payload[1..comma]), data))
  }

  /** The header is laid out in fixed columns, whatever follows it. */
  lemma MemoryHeaderFields(address: word, length: word, rest: seq<byte>)
    ensures Pow(16, 8) == 0x1_0000_0000
    ensures Plain(MemoryHeader(address, length))
    ensures var p := MemoryHeader(address, length) + rest;
            && p[0] == 'X' as int
            && p[1..9] == Hex(address, 8) && p[10..18] == Hex(length, 8) && p[19..] == rest
            && IndexOf(p, COMMA) == 9 && IndexOf(p, COLON) == 18
  {
    Pow16Eight();
    var a, l := Hex(address, 8), Hex(length, 8);
    var h := MemoryHeader(address, length);
    assert h[0] == 'X' as int && h[9] == COMMA && h[18] == COLON;
    assert h[1..9] == a && h[10..18] == l;
    assert forall i | 1 <= i < 9 :: h[i] == a[i - 1];
    assert forall i | 10 <= i < 18 :: h[i] == l[i - 10];
    var p := h + rest;
    assert p[1..9] == h[1..9] && p[10..18] == h[10..18];
    assert forall i | 0 <= i < 19 :: p[i] == h[i];
  }

  lemma ParseMemoryPayload(address: word, data: seq<byte>)
    requires |data| < 0x1_0000_0000
    ensures Plain(MemoryPayload(address, data))
    ensures ParseMemoryWrite(MemoryPayload(address, data)) == Some(MemoryWrite(address, data))
  {
    MemoryHeaderFields(address, |data|, Escape(data));
    EscapePlain(data);
    HexRoundTrip(address, 8);
    HexRoundTrip(|data|, 8);
    EscapeInvertible(data);
  }

  // ---- Register writes: Pnn=vvvvvvvv

  /** The eight digits of a register value in the target's byte order. */
  function RegisterDigits(value: word, bigEndianTarget: bool): (d: seq<byte>)
    ensures |d| == 8 && AllHex(d)
  {
    assert Pow(16, 8) == 0x1_0000_0000 by { Pow16Eight(); }
    var h := Hex(value, 8);
    if bigEndianTarget then h else h[6..8] + h[4..6] + h[2..4] + h[0..2]
  }

  function RegisterPayload(num: byte, value: word, bigEndianTarget: bool): (p: seq<byte>)
    ensures |p| == 12
  {
    assert Pow(16, 2) == 256;
    ['P' as int] + Hex(num, 2) + [EQUALS] + RegisterDigits(value, bigEndianTarget)
  }

  /** The bytes of a word as they lie in the memory of a machine. */
  function InMemory(value: word, bigEndian: bool): (s: seq<byte>)
    ensures |s| == 4
  {
    assert Pow(256, 4) == 0x1_0000_0000;
    var b := BigEndian(value, 4);
    if bigEndian then b else [b[3], b[2], b[1], b[0]]
  }

  function HexBytes(s: seq<byte>): (h: seq<byte>)
    ensures |h| == 2 * |s|
  {
    assert Pow(16, 2) == 256;
    if s == [] then [] else HexBytes(s[..|s| - 1]) + Hex(s[|s| - 1], 2)
  }

  lemma NoHexBytes()
    ensures HexBytes([]) == []
  {
  }

  lemma HexBytesNext(s: seq<byte>, n: nat)
    requires n < |s|
    ensures Pow(16, 2) == 256 && HexBytes(s[..n + 1]) == HexBytes(s[..n]) + Hex(s[n], 2)
  {
    assert s[..n + 1][..n] == s[..n];
  }

  lemma SameOrReversed(value: word, a: bool, b: bool)
    ensures var m, n := InMemory(value, a), InMemory(value, b);
            forall i | 0 <= i < 4 :: m[i] == if a == b then n[i] else n[3 - i]
  {
  }

  lemma {:induction false} HexOfBigEndian(v: nat, w: nat)
    requires v < Pow(256, w)
    ensures v < Pow(16, 2 * w) && HexBytes(BigEndian(v, w)) == Hex(v, 2 * w)
  {
    if w > 0 {
      assert v / 256 < Pow(256, w - 1);
      HexOfBigEndian(v / 256, w - 1);
      assert BigEndian(v, w) == BigEndian(v / 256, w - 1) + [v % 256];
      assert BigEndian(v, w)[..w - 1] == BigEndian(v / 256, w - 1);
      hide Hex, BigEndian, Pow;
      HexTwo(v, 2 * w);
      assert BigEndian(v, w)[w - 1] == v % 256;
    }
  }

  lemma HexTwo(v: nat, w: nat)
    requires w >= 2 && v / 256 < Pow(16, w - 2)
    ensures v < Pow(16, w) && Pow(16, 2) == 256
    ensures Hex(v, w) == Hex(v / 256, w - 2) + Hex(v % 256, 2)
  {
    assert Pow(16, w) == 16 * (16 * Pow(16, w - 2));
    assert v / 16 < Pow(16, w - 1);
    assert v / 16 / 16 == v / 256 && (v / 16) % 16 == (v % 256) / 16 && v % 16 == (v % 256) % 16;
    assert Hex(v, w) == Hex(v / 16, w - 1) + [HexDigit(v % 16)];
    assert Hex(v / 16, w - 1) == Hex(v / 256, w - 2) + [HexDigit((v / 16) % 16)];
    assert Hex((v % 256) / 16, 1) == [HexDigit((v % 256) / 16)];
  }

  /** Printing a word byte by byte in the order of the target's memory gives its digits in that order. */
  lemma HexBytesInMemory(value: word, bigEndian: bool)
    ensures HexBytes(InMemory(value, bigEndian)) == RegisterDigits(value, bigEndian)
  {
    Pow16Eight();
    assert Pow(256, 4) == 0x1_0000_0000;
    HexOfBigEndian(value, 4);
    var b := BigEndian(value, 4);
    hide Hex, HexBytes, BigEndian, Pow;
    HexBytesFour(b);
    if !bigEndian {
      var h := Hex(value, 8);
      HexBytesFour([b[3], b[2], b[1], b[0]]);
      assert h[6..8] == Hex(b[3], 2) && h[4..6] == Hex(b[2], 2) && h[2..4] == Hex(b[1], 2) && h[0..2] == Hex(b[0], 2);
    }
  }

  lemma HexBytesFour(s: seq<byte>)
    requires |s| == 4
    ensures Pow(16, 2) == 256
    ensures HexBytes(s) == Hex(s[0], 2) + Hex(s[1], 2) + Hex(s[2], 2) + Hex(s[3], 2)
  {
    assert s[..3][..2] == s[..2] && s[..2][..1] == s[..1] && s[..1][..0] == [];
    assert HexBytes(s[..1]) == Hex(s[0], 2);
    assert HexBytes(s[..2]) == HexBytes(s[..1]) + Hex(s[1], 2);
    assert HexBytes(s[..3]) == HexBytes(s[..2]) + Hex(s[2], 2);
  }

  datatype RegisterWrite = RegisterWrite(num: nat, value: nat)

  function ParseRegisterWrite(payload: seq<byte>, bigEndianTarget: bool): Option<RegisterWrite> {
    if |payload| != 12 || payload[0] != 'P' as int || payload[3] != EQUALS then None
    else if !AllHex(payload[1..3]) || !AllHex(payload[4..]) then None
    else
      var d := payload[4..];
      var v := if bigEndianTarget then d else d[6..8] + d[4..6] + d[2..4] + d[0..2];
      assert AllHex(v);
      Some(RegisterWrite(HexParse(payload[1..3]), HexParse(v)))
  }

  lemma RegisterDigitsReorder(value: word)
    ensures Pow(16, 8) == 0x1_0000_0000
    ensures var d := RegisterDigits(value, false); d[6..8] + d[4..6] + d[2..4] + d[0..2] == Hex(value, 8)
  {
    Pow16Eight();
    var h, d := Hex(value, 8), RegisterDigits(value, false);
    assert d[0..2] == h[6..8] && d[2..4] == h[4..6] && d[4..6] == h[2..4] && d[6..8] == h[0..2];
    assert h == h[0..2] + h[2..4] + h[4..6] + h[6..8];
  }

  lemma RegisterFields(num: byte, value: word, bigEndianTarget: bool)
    ensures Pow(16, 2) == 256
    ensures var p := RegisterPayload(num, value, bigEndianTarget);
            && p[0] == 'P' as int && p[1..3] == Hex(num, 2) && p[3] == EQUALS
            && p[4..] == RegisterDigits(value, bigEndianTarget)
            && Plain(p)
  {
    assert Pow(16, 2) == 256;
    hide Hex, RegisterDigits, Pow;
  }

  lemma ParseRegisterPayload(num: byte, value: word, bigEndianTarget: bool)
    ensures Plain(RegisterPayload(num, value, bigEndianTarget))
    ensures ParseRegisterWrite(RegisterPayload(num, value, bigEndianTarget), bigEndianTarget)
         == Some(RegisterWrite(num, value))
  {
    RegisterDigitsReorder(value);
    RegisterFields(num, value, bigEndianTarget);
    HexRoundTrip(num, 2);
    HexRoundTrip(value, 8);
    hide Hex, HexParse, Pow, RegisterPayload;
  }
  // ---- The texts of the packets

  /** The two lower-case digits of a byte. */
  function Digits(c: byte): (d: seq<byte>)
    ensures |d| == 2
  {
    [LOWER[c / 16] as int, LOWER[c % 16] as int]
  }

  lemma DigitsAre(c: byte)
    ensures Pow(16, 2) == 256 && Hex(c, 2) == Digits(c)
  {
    TwoDigits(c);
    hide HexDigit, HexValue, IsHex, Hex, Pow;
    HexDigits(c / 16);
    HexDigits(c % 16);
  }

  lemma TwoDigits(c: byte)
    ensures Pow(16, 2) == 256 && Hex(c, 2) == [HexDigit(c / 16), HexDigit(c % 16)]
  {
    hide HexDigit, HexValue, IsHex;
    assert Pow(16, 2) == 256 && Pow(16, 1) == 16;
    assert Hex(c, 2) == Hex(c / 16, 1) + [HexDigit(c % 16)];
    assert Hex(c / 16, 1) == [HexDigit((c / 16) % 16)];
  }

  /** The eight digits of the word that four bytes make up. */
  lemma WordDigits(a: byte, b: byte, c: byte, d: byte)
    ensures 0 <= Four(a, b, c, d) < 0x1_0000_0000 == Pow(16, 8)
    ensures Hex(Four(a, b, c, d), 8) == Digits(a) + Digits(b) + Digits(c) + Digits(d)
  {
    var s := [a, b, c, d];
    Pow16Eight();
    BigEndianSums(s);
    FromBigEndianRoundTrip(s);
    HexOfBigEndian(Four(a, b, c, d), 4);
    HexBytesFour(s);
    DigitsAre(a); DigitsAre(b); DigitsAre(c); DigitsAre(d);
  }

  /** A frame is '$', the payload, '#' and the digits of the checksum; gdb_cont's is "$c#63". */
  lemma FrameText(payload: seq<byte>)
    ensures Frame(payload) == [0x24] + payload + [0x23] + Digits(Checksum(payload))
    ensures Frame([0x63]) == [0x24, 0x63, 0x23, 0x36, 0x33]
  {
    ChecksumIs([], [], 0x63);
    DigitsAre(Checksum(payload));
    DigitsAre(0x63);
    hide Hex, Checksum, Pow;
    assert Digits(0x63) == [0x36, 0x33];
  }

  /** "P", the number, "=", and the value's bytes in the target's order. */
  lemma RegisterText(num: byte, a: byte, b: byte, c: byte, d: byte)
    ensures 0 <= Four(a, b, c, d) < 0x1_0000_0000
    ensures RegisterPayload(num, Four(a, b, c, d), true)
         == [0x50] + Digits(num) + [0x3d] + (Digits(a) + Digits(b) + Digits(c) + Digits(d))
    ensures RegisterPayload(num, Four(a, b, c, d), false)
         == [0x50] + Digits(num) + [0x3d] + (Digits(d) + Digits(c) + Digits(b) + Digits(a))
  {
    WordDigits(a, b, c, d);
    DigitsAre(num);
    hide Hex, Digits, Pow, Four;
  }

  /** "X", the address, ",", the number of bytes, ":", and the escaped bytes. */
  lemma MemoryText(a: byte, b: byte, c: byte, d: byte, data: seq<byte>, k: byte, l: byte, m: byte, n: byte)
    requires |data| == Four(k, l, m, n)
    ensures 0 <= Four(a, b, c, d) < 0x1_0000_0000 && |data| < 0x1_0000_0000
    ensures MemoryPayload(Four(a, b, c, d), data)
         == [0x58] + (Digits(a) + Digits(b) + Digits(c) + Digits(d)) + [0x2c]
            + (Digits(k) + Digits(l) + Digits(m) + Digits(n)) + [0x3a] + Escape(data)
  {
    WordDigits(a, b, c, d);
    WordDigits(k, l, m, n);
    hide Hex, Digits, Pow, Four, Escape;
  }
}
