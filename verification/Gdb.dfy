/** gdb_protocol_data: the packet being built, its framing, transmission and checking. */
module Gdb {
  import opened Bytes
  import opened Codec
  import opened Rules
  import opened Replies
  import opened Session
  import opened Rio

  /** strcpy or sprintf of the string s behind what stands in a[from..at), with its final NUL. */
  method StoreString(a: array<byte>, ghost from: nat, at: nat, s: seq<byte>)
    requires from <= at && at + |s| < a.Length
    modifies a
    ensures a[from..at + |s|] == old(a[from..at]) + s && a[at + |s|] == NUL
    ensures forall i | 0 <= i < a.Length && !(at <= i <= at + |s|) :: a[i] == old(a[i])
  {
    ghost var head := a[from..at];
    StoreBytes(a, at, s);
    assert a[from..at] == head;
    assert a[from..at + |s|] == a[from..at] + a[at..at + |s|];
    a[at + |s|] := NUL;
    assert a[from..at + |s|] == head + s;
  }

  /** Offset of `buffer` in `packet`. */
  const BUFFER: nat := 1

  class GdbData {
    const fd: Sink
    const packet: array<byte>
    var len: int
    var answer: seq<byte>
    /** What has happened on the connection, and what had been written on it before. */
    ghost var log: seq<Event>
    ghost const base: seq<byte>

    /** The log tells exactly what was written. */
    ghost predicate Logged()
      reads `log, fd
    {
      fd.written == base + Wire(log)
    }

    lemma Written()
      requires Logged()
      ensures fd.written == base + Wire(log)
    {
    }

    ghost predicate Valid()
      reads `len
    {
      fd.reliable && 0 <= len <= packet.Length
    }

    /** The frame that a retransmission sends again. */
    ghost function Outstanding(): seq<byte>
      reads `len, packet
      requires Valid()
    {
      packet[..len]
    }

    constructor (fd: Sink, capacity: nat)
      requires fd.reliable
      ensures Valid() && this.fd == fd && fresh(packet) && packet.Length == capacity
      ensures Outstanding() == [] && Logged() && log == []
    {
      this.fd, this.len, this.answer := fd, 0, [];
      log, base := [], fd.written;
      this.packet := new byte[capacity];
    }

    method SendAck()
      requires Valid() && Logged()
      modifies fd, `log
      ensures Logged() && log == old(log) + [Replied(Ack, [PLUS])]
    {
      WireOne(log, Replied(Ack, [PLUS]));
      hide Wire;
      var _ := Writen(fd, [PLUS]);
      log := log + [Replied(Ack, [PLUS])];
    }

    method RequireRetransmission()
      requires Valid() && Logged()
      modifies fd, `log
      ensures Logged() && log == old(log) + [Replied(Nak, [MINUS])]
    {
      WireOne(log, Replied(Nak, [MINUS]));
      hide Wire;
      var _ := Writen(fd, [MINUS]);
      log := log + [Replied(Nak, [MINUS])];
    }

    /** Writes the packet, for the first time or again. */
    method TransmitPacket(ghost again: bool)
      requires Valid() && Logged()
      modifies fd, `log
      ensures Logged() && log == old(log) + [if again then Replied(Resend, Outstanding()) else Sent(Outstanding())]
    {
      ghost var ev := if again then Replied(Resend, Outstanding()) else Sent(Outstanding());
      WireOne(log, ev);
      hide Wire;
      var _ := Writen(fd, packet[..len]);
      log := log + [ev];
    }

    /** Frames the len bytes of the buffer in place and sends them. */
    method SendBuffer()
      requires Valid() && Logged() && len + 5 <= packet.Length
      modifies this`len, packet, fd, `log
      ensures Valid() && Outstanding() == Frame(old(packet[BUFFER..BUFFER + len]))
      ensures len < packet.Length && packet[len] == NUL
      ensures Logged() && log == old(log) + [Sent(Outstanding())]
    {
      ghost var payload := packet[BUFFER..BUFFER + len];
      var check: byte := 0;
      packet[0] := DOLLAR;
      var i := 1;
      hide Frame, Wire;
      while len != 0
        invariant len >= 0 && i >= 1 && i + len == 1 + |payload| && log == old(log) && Logged()
        invariant check == Checksum(payload[..i - 1])
        invariant packet[0] == DOLLAR && packet[1..1 + |payload|] == payload
        decreases len
      {
        assert payload[..i][..i - 1] == payload[..i - 1];
        assert packet[i] == payload[i - 1];
        len := len - 1;
        check := (check + packet[i]) % 256;
        i := i + 1;
      }
      len := len - 1;
      assert payload[..i - 1] == payload;
      CloseFrame(i, check, payload);
      TransmitPacket(false);
    }

    /** The end of gdb_send_buffer: '#', the two digits, the final NUL and the frame's length. */
    method CloseFrame(i: nat, check: byte, ghost payload: seq<byte>)
      requires Closable(i, payload) && check == Checksum(payload)
      modifies this`len, packet
      ensures Valid() && Outstanding() == Frame(payload)
      ensures len < packet.Length && packet[len] == NUL
    {
      assert Pow(16, 2) == 256;
      hide Hex, Pow, Checksum;
      assert packet[0..i] == [DOLLAR] + packet[1..i] == [DOLLAR] + payload;
      packet[i] := HASH;
      assert packet[0..i + 1] == [DOLLAR] + payload + [HASH];
      StoreString(packet, 0, i + 1, Hex(check, 2));
      assert packet[0..i + 3] == Frame(payload);
      hide Frame;
      packet[i + 3] := NUL;
      len := i + 3;
      assert packet[..len] == packet[0..i + 3];
    }

    ghost predicate Closable(i: nat, payload: seq<byte>)
      reads this, packet
    {
      && fd.reliable && i == 1 + |payload| && i + 3 < packet.Length
      && packet[0] == DOLLAR && packet[1..i] == payload
    }

    /** sprintf of a command into the buffer, then the frame around it. */
    method SendData(data: seq<byte>)
      requires Valid() && Logged() && |data| + 5 <= packet.Length
      modifies this`len, packet, fd, `log
      ensures Valid() && Outstanding() == Frame(data)
      ensures Logged() && log == old(log) + [Sent(Frame(data))]
    {
      StoreString(packet, BUFFER, BUFFER, data);
      len := |data|;
      assert packet[BUFFER..BUFFER + len] == data;
      SendBuffer();
    }

    /** gdb_write_register up to the sending: "Pnn=" and eight digits. */
    method SendRegister(num: byte, value: word, bigEndianHost: bool, bigEndianTarget: bool)
      requires Valid() && Logged() && packet.Length >= 17
      modifies this`len, packet, fd, `log
      ensures Valid() && Outstanding() == Frame(RegisterPayload(num, value, bigEndianTarget))
      ensures Logged() && log == old(log) + [Sent(Outstanding())]
    {
      assert Pow(16, 2) == 256;
      ghost var payload := RegisterPayload(num, value, bigEndianTarget);
      hide Frame, Hex, RegisterDigits, Pow, Wire;
      ghost var head := ['P' as int] + Hex(num, 2) + [EQUALS];
      assert payload == head + RegisterDigits(value, bigEndianTarget);
      StoreString(packet, BUFFER, BUFFER, ['P' as int] + Hex(num, 2) + [EQUALS]);
      assert packet[BUFFER..BUFFER + 4] == head;
      hide RegisterPayload;
      WriteUint32(packet, BUFFER, BUFFER + 4, value, bigEndianHost, bigEndianTarget);
      assert packet[BUFFER..BUFFER + 12] == payload;
      len := 12;
      SendBuffer();
    }

    /** Checks the packet text[start..start + length), which the scanner has ended with a NUL, and acknowledges it
        or asks for it again. */
    method PacketCheck(text: array<byte>, start: nat, length: nat) returns (ok: bool)
      requires Valid() && Logged() && start + length < text.Length
      requires PacketPattern(text[start..start + length]) && text[start + length] == NUL
      modifies this`answer, fd, `log
      ensures ok == ValidPacket(text[start..start + length])
      ensures Logged() && log == old(log) + [Verdict(ok)]
      ensures ok ==> answer == text[start..start + length]
    {
      ghost var w, t := text[..], text[start..start + length];
      ValidPacketMeaning(t);
      assert t == w[start..start + length];
      SubSlice(w, start, start + length, 1, length - 3);
      SubSlice(w, start, start + length, length - 2, length);
      assert text[start + 1..start + length - 3] == PayloadOf(t);
      assert text[start + length - 2..start + length] == t[length - 2..];
      hide *;
      var check := AddUp(text, start + 1, start + length - 3);
      var given := ScanHex(text, start + length - 2, start + length);
      if check == given {
        SendAck();
      } else {
        RequireRetransmission();
        return false;
      }
      answer := text[start..start + length];
      return true;
    }

    /** The switch of gdb_write_memory: one byte of data, escaped where it must be, behind what is there already. */
    method PutEscaped(size: nat, b: byte, ghost done: seq<byte>) returns (n: nat)
      requires DATA + size + |EscapeByte(b)| <= packet.Length && packet[DATA..DATA + size] == done
      modifies packet
      ensures n == |EscapeByte(b)| && packet[DATA..DATA + size + n] == done + EscapeByte(b)
    {
      n := 1;
      if Special(b) {
        packet[DATA + size] := ESCAPE;
        packet[DATA + size + 1] := Flip(b);
        n := 2;
      } else {
        packet[DATA + size] := b;
      }
      assert packet[DATA..DATA + size] == done;
    }

    /** The first `copied` bytes of src lie escaped behind the header's place. */
    ghost predicate Filled(src: seq<byte>, copied: nat, size: nat)
      requires copied <= |src|
      reads packet
    {
      && size == |Escape(src[..copied])| && (copied > 0 ==> DATA + size <= packet.Length)
      && (DATA + size <= packet.Length ==> packet[DATA..DATA + size] == Escape(src[..copied]))
    }

    /** One round of the inner loop of gdb_write_memory. It overruns when the byte would be stored behind the array. */
    method CopyByte(src: seq<byte>, copied: nat, size: nat) returns (n: nat, overrun: bool)
      requires copied < |src| && Filled(src, copied, size)
      modifies packet
      ensures overrun <==> DATA + |Escape(src[..copied + 1])| > packet.Length
      ensures !overrun ==> Filled(src, copied + 1, size + n)
    {
      EscapeSnoc(src, copied);
      hide Escape, EscapeByte;
      ghost var done := Escape(src[..copied]);
      if DATA + size + |EscapeByte(src[copied])| > packet.Length {
        return 0, true;
      }
      n := PutEscaped(size, src[copied], done);
      overrun := false;
    }

    lemma FilledNothing(src: seq<byte>)
      ensures Filled(src, 0, 0)
    {
      assert src[..0] == [];
    }

    lemma FilledSize(src: seq<byte>, copied: nat, size: nat)
      requires copied <= |src| && Filled(src, copied, size)
      ensures size == |Escape(src[..copied])| && (copied > 0 ==> DATA + size <= packet.Length)
      ensures DATA + size <= packet.Length ==> packet[DATA..DATA + size] == Escape(src[..copied])
    {
    }

    /** The inner loop of gdb_write_memory: copies and escapes one chunk of src behind the header's place. */
    method FillChunk(src: seq<byte>) returns (copied: nat, size: nat, overrun: bool)
      requires Valid() && src != []
      modifies packet
      ensures overrun <==> DATA + |Escape(src[..ChunkLength(src)])| > packet.Length
      ensures !overrun ==> copied == ChunkLength(src) && size == |Escape(src[..copied])|
      ensures !overrun ==> DATA + size <= packet.Length && packet[DATA..DATA + size] == Escape(src[..copied])
    {
      copied, size := 0, 0;
      FilledNothing(src);
      CopyingStarts(src);
      ChunkBounds(src, ChunkLength(src));
      hide *;
      while size < MAX_BUFFER_SIZE - 1 && copied < |src|
        invariant copied <= |src| && Filled(src, copied, size)
        invariant Copying(src, copied)
        decreases |src| - copied
      {
        FilledSize(src, copied, size);
        CopyingStep(src, copied);
        var n;
        n, overrun := CopyByte(src, copied, size);
        if overrun {
          return;
        }
        size := size + n;
        copied := copied + 1;
      }
      FilledSize(src, copied, size);
      CopyingEnds(src, copied);
      overrun := false;
    }

    /** Prints the header in front of the chunk and sends the packet. It overruns when the end of the frame would be
        stored behind the array. */
    method SendChunk(address: word, copied: nat, size: nat, ghost chunk: seq<byte>) returns (overrun: bool)
      requires Valid() && Logged() && DATA + size <= packet.Length && copied > 0
      requires copied == |chunk| < 0x1_0000_0000 && size == |Escape(chunk)|
      requires packet[DATA..DATA + size] == Escape(chunk)
      modifies this`len, packet, fd, `log
      ensures overrun <==> PacketNeed(chunk) > packet.Length
      ensures !overrun ==> Valid() && Outstanding() == Frame(MemoryPayload(address, chunk))
      ensures !overrun ==> Logged() && log == old(log) + [Sent(Frame(MemoryPayload(address, chunk)))]
    {
      hide Escape, Frame, Wire;
      var header := MemoryHeader(address, copied);
      if DATA + size + 4 > packet.Length {
        return true;
      }
      StoreString(packet, BUFFER, BUFFER, header[..HEADER_SIZE - 1]);
      packet[BUFFER + HEADER_SIZE - 1] := COLON;
      len := HEADER_SIZE + size;
      assert header[HEADER_SIZE - 1] == COLON by { MemoryHeaderFields(address, copied, []); }
      assert packet[1..19] == header[..18];
      assert packet[1..20] == packet[1..19] + [packet[19]] == header;
      assert packet[1..20 + size] == packet[1..20] + packet[20..20 + size];
      assert packet[BUFFER..BUFFER + len] == MemoryPayload(address, chunk);
      SendBuffer();
      overrun := false;
    }
  }

  /** Sum of text[from..to) in an unsigned char. */
  method AddUp(text: array<byte>, from: nat, to: nat) returns (check: byte)
    requires from <= to <= text.Length
    ensures check == Checksum(text[from..to])
  {
    check := 0;
    var i := from;
    while i < to
      invariant from <= i <= to && check == Checksum(text[from..i])
    {
      assert text[from..i + 1][..i - from] == text[from..i];
      check := (check + text[i]) % 256;
      i := i + 1;
    }
  }

  /** Where a chunk's data goes in `packet`. */
  const DATA: nat := BUFFER + HEADER_SIZE

  /** sprintf's "%02x" of a byte. */
  method StoreByteDigits(a: array<byte>, ghost from: nat, at: nat, b: byte)
    requires from <= at && at + 3 <= a.Length
    modifies a
    ensures Pow(16, 2) == 256 && a[from..at + 2] == old(a[from..at]) + Hex(b, 2)
    ensures forall k | 0 <= k < at :: a[k] == old(a[k])
  {
    assert Pow(16, 2) == 256;
    hide Hex, Pow;
    StoreString(a, from, at, Hex(b, 2));
  }

  /** write_uint32: two digits for each byte, walking the host's memory up or down, and a final NUL. */
  method WriteUint32(a: array<byte>, ghost from: nat, at: nat, value: word, bigEndianHost: bool, bigEndianTarget: bool)
    requires from <= at && at + 9 <= a.Length
    modifies a
    ensures a[from..at + 8] == old(a[from..at]) + RegisterDigits(value, bigEndianTarget) && a[at + 8] == NUL
    ensures forall k | 0 <= k < at :: a[k] == old(a[k])
  {
    hide HexBytes, Hex, InMemory, RegisterDigits;
    var mem := InMemory(value, bigEndianHost);
    ghost var target := InMemory(value, bigEndianTarget);
    SameOrReversed(value, bigEndianHost, bigEndianTarget);
    var i, step := 0, 1;
    if bigEndianHost != bigEndianTarget {
      i, step := 3, -1;
    }
    var data := at;
    assert Pow(16, 2) == 256;
    ghost var n := 0;
    NoHexBytes();
    while 0 <= i < 4
      invariant 0 <= n <= 4 && data == at + 2 * n
      invariant if bigEndianHost == bigEndianTarget then step == 1 && i == n else step == -1 && i == 3 - n
      invariant a[from..data] == old(a[from..at]) + HexBytes(target[..n])
      invariant forall k | 0 <= k < at :: a[k] == old(a[k])
      decreases 4 - n
    {
      HexBytesNext(target, n);
      StoreByteDigits(a, from, data, mem[i]);
      data := data + 2;
      i := i + step;
      n := n + 1;
    }
    assert target[..4] == target;
    HexBytesInMemory(value, bigEndianTarget);
    a[data] := NUL;
  }

  /** sscanf's %x on a string of digits: reads up to the first character that is none, here the NUL at `end`. */
  method ScanHex(text: array<byte>, at: nat, ghost end: nat) returns (v: nat)
    requires at <= end < text.Length && AllHex(text[at..end]) && text[end] == NUL
    ensures v == HexParse(text[at..end])
  {
    v := 0;
    var j := at;
    assert forall k | at <= k < end :: text[k] == text[at..end][k - at];
    while IsHex(text[j])
      invariant at <= j <= end
      invariant AllHex(text[at..j]) && v == HexParse(text[at..j])
      decreases end - j
    {
      assert text[at..j + 1][..j - at] == text[at..j];
      v := 16 * v + HexValue(text[j]);
      j := j + 1;
    }
  }
}
