/** Bytes, hexadecimal digits and fixed-width numbers, as C's "%02x", "%08x" and "%x" treat them. */
module Bytes {
  type byte = x: int | 0 <= x < 256
  type half = x: int | 0 <= x < 0x1_0000
  type word = x: int | 0 <= x < 0x1_0000_0000

  const NUL: byte := 0
  const NEWLINE: byte := 10
  const HASH: byte := 35
  const DOLLAR: byte := 36
  const PLUS: byte := 43
  const COMMA: byte := 44
  const MINUS: byte := 45
  const COLON: byte := 58
  const EQUALS: byte := 61

  predicate IsHex(b: byte) {
    48 <= b <= 57 || 65 <= b <= 70 || 97 <= b <= 102
  }

  function HexValue(b: byte): (v: nat)
    requires IsHex(b)
    ensures v < 16
  {
    if b <= 57 then b - 48 else if b <= 70 then b - 55 else b - 87
  }

  /** The lower-case digit that printf's %x writes. */
  function HexDigit(v: nat): (d: byte)
    requires v < 16
    ensures IsHex(d) && HexValue(d) == v
  {
    if v < 10 then 48 + v else 87 + v
  }

  const LOWER: string := "0123456789abcdef"
  const UPPER: string := "0123456789ABCDEF"

  /** A digit is worth its place in either of the two rows of digits, and no other byte is one. printf writes the first. */
  lemma HexDigits(v: nat)
    requires v < 16
    ensures IsHex(LOWER[v] as int) && IsHex(UPPER[v] as int)
    ensures HexValue(LOWER[v] as int) == v && HexValue(UPPER[v] as int) == v && HexDigit(v) == LOWER[v] as int
    ensures forall b: byte :: IsHex(b) ==> b == LOWER[HexValue(b)] as int || b == UPPER[HexValue(b)] as int
  {
  }

  predicate AllHex(s: seq<byte>) {
    forall i | 0 <= i < |s| :: IsHex(s[i])
  }

  /** base to the power e. */
  function Pow(base: nat, e: nat): nat {
    if e == 0 then 1 else base * Pow(base, e - 1)
  }

  /** printf's %0wx for a value that fits in w digits. */
  function Hex(v: nat, w: nat): (s: seq<byte>)
    requires v < Pow(16, w)
    ensures |s| == w && AllHex(s)
  {
    if w == 0 then []
    else
      assert v / 16 < Pow(16, w - 1);
      Hex(v / 16, w - 1) + [HexDigit(v % 16)]
  }

  /** The number scanf's %x reads from a run of hexadecimal digits. */
  function HexParse(s: seq<byte>): nat
    requires AllHex(s)
  {
    if s == [] then 0 else 16 * HexParse(s[..|s| - 1]) + HexValue(s[|s| - 1])
  }

  lemma {:induction false} HexRoundTrip(v: nat, w: nat)
    requires v < Pow(16, w)
    ensures HexParse(Hex(v, w)) == v
  {
    if w > 0 {
      assert v / 16 < Pow(16, w - 1);
      assert Hex(v, w)[..w - 1] == Hex(v / 16, w - 1);
      HexRoundTrip(v / 16, w - 1);
    }
  }

  /** The w bytes of v, most significant first. */
  function BigEndian(v: nat, w: nat): (s: seq<byte>)
    requires v < Pow(256, w)
    ensures |s| == w
  {
    if w == 0 then []
    else
      assert v / 256 < Pow(256, w - 1);
      BigEndian(v / 256, w - 1) + [v % 256]
  }

  function FromBigEndian(s: seq<byte>): (v: nat)
    ensures v < Pow(256, |s|)
  {
    if s == [] then 0 else 256 * FromBigEndian(s[..|s| - 1]) + s[|s| - 1]
  }

  lemma {:induction false} BigEndianRoundTrip(v: nat, w: nat)
    requires v < Pow(256, w)
    ensures FromBigEndian(BigEndian(v, w)) == v
  {
    if w > 0 {
      assert v / 256 < Pow(256, w - 1);
      assert BigEndian(v, w)[..w - 1] == BigEndian(v / 256, w - 1);
      BigEndianRoundTrip(v / 256, w - 1);
    }
  }

  lemma {:induction false} FromBigEndianRoundTrip(s: seq<byte>)
    ensures BigEndian(FromBigEndian(s), |s|) == s
  {
    if s != [] {
      var v := FromBigEndian(s);
      assert v / 256 == FromBigEndian(s[..|s| - 1]) && v % 256 == s[|s| - 1];
      FromBigEndianRoundTrip(s[..|s| - 1]);
      assert s == s[..|s| - 1] + [s[|s| - 1]];
    }
  }

  /** The numbers that two and four bytes denote, most significant first. */
  function Two(a: int, b: int): int {
    0x100 * a + b
  }

  function Four(a: int, b: int, c: int, d: int): int {
    0x100_0000 * a + 0x1_0000 * b + 0x100 * c + d
  }

  lemma BigEndianSums(s: seq<byte>)
    ensures |s| == 2 ==> FromBigEndian(s) == Two(s[0], s[1])
    ensures |s| == 4 ==> FromBigEndian(s) == Four(s[0], s[1], s[2], s[3])
  {
    if |s| == 2 {
      assert s[..1][..0] == [];
      assert FromBigEndian(s[..1]) == s[0];
    } else if |s| == 4 {
      assert s[..3][..2] == s[..2] && s[..2][..1] == s[..1] && s[..1][..0] == [];
      assert FromBigEndian(s[..1]) == s[0];
      assert FromBigEndian(s[..2]) == Two(s[0], s[1]);
      assert FromBigEndian(s[..3]) == 256 * Two(s[0], s[1]) + s[2];
    }
  }

  lemma SubSlice(s: seq<byte>, i: nat, j: nat, p: nat, q: nat)
    requires i <= j <= |s| && p <= q <= j - i
    ensures s[i..j][p..q] == s[i + p..i + q]
  {
    assert forall k | 0 <= k < q - p :: s[i..j][p..q][k] == s[i..j][p + k] == s[i + p..i + q][k];
  }

  /** Concatenation of a list of byte strings. */
  function Concat(parts: seq<seq<byte>>): seq<byte> {
    if parts == [] then [] else parts[0] + Concat(parts[1..])
  }
}
