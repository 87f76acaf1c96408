/** The ELF32 structures and their big-endian encodings. */
module ElfTypes {
  import opened Bytes

  const SHT_SYMTAB: word := 2
  const SHT_HASH: word := 5
  const SHT_DYNAMIC: word := 6
  const SHT_REL: word := 9

  const HEADER_BYTES: nat := 52
  const SECTION_BYTES: nat := 40
  const SYMBOL_BYTES: nat := 16
  const REL_BYTES: nat := 8

  type Ident = s: seq<byte> | |s| == 16 witness seq(16, _ => 0)

  datatype Ehdr = Ehdr(
    ident: Ident, kind: half, machine: half, version: word, entry: word, phoff: word, shoff: word, flags: word,
    ehsize: half, phentsize: half, phnum: half, shentsize: half, shnum: half, shstrndx: half)

  datatype Shdr = Shdr(
    name: word, kind: word, flags: word, addr: word, offset: word, size: word, link: word, info: word,
    addralign: word, entsize: word)

  datatype Sym = Sym(name: word, value: word, size: word, info: byte, other: byte, shndx: half)

  datatype Rel = Rel(offset: word, info: word)

  lemma Powers()
    ensures Pow(256, 2) == 0x1_0000 && Pow(256, 4) == 0x1_0000_0000
  {
    assert Pow(256, 2) == 256 * 256;
    assert Pow(256, 4) == 256 * (256 * Pow(256, 2));
  }

  /** bswap_32 of a stored word, on the little-endian host. */
  function W(v: word): (s: seq<byte>)
    ensures |s| == 4
  {
    Powers();
    BigEndian(v, 4)
  }

  /** bswap_16. */
  function H(v: half): (s: seq<byte>)
    ensures |s| == 2
  {
    Powers();
    BigEndian(v, 2)
  }

  function UnW(s: seq<byte>): (v: word)
    requires |s| == 4
    ensures W(v) == s
  {
    Powers();
    FromBigEndianRoundTrip(s);
    FromBigEndian(s)
  }

  function UnH(s: seq<byte>): (v: half)
    requires |s| == 2
    ensures H(v) == s
  {
    Powers();
    FromBigEndianRoundTrip(s);
    FromBigEndian(s)
  }

  lemma UnWOfW(v: word)
    ensures UnW(W(v)) == v
  {
    Powers();
    BigEndianRoundTrip(v, 4);
  }

  lemma UnHOfH(v: half)
    ensures UnH(H(v)) == v
  {
    Powers();
    BigEndianRoundTrip(v, 2);
  }

  // ---- The file header

  function EncodeHeader(h: Ehdr): (s: seq<byte>)
    ensures |s| == HEADER_BYTES
  {
    h.ident + H(h.kind) + H(h.machine) + W(h.version) + W(h.entry) + W(h.phoff) + W(h.shoff) + W(h.flags)
    + H(h.ehsize) + H(h.phentsize) + H(h.phnum) + H(h.shentsize) + H(h.shnum) + H(h.shstrndx)
  }

  function DecodeHeader(s: seq<byte>): (h: Ehdr)
    requires |s| == HEADER_BYTES
  {
    Ehdr(s[0..16], UnH(s[16..18]), UnH(s[18..20]), UnW(s[20..24]), UnW(s[24..28]), UnW(s[28..32]), UnW(s[32..36]),
         UnW(s[36..40]), UnH(s[40..42]), UnH(s[42..44]), UnH(s[44..46]), UnH(s[46..48]), UnH(s[48..50]), UnH(s[50..52]))
  }

  lemma EncodeDecodeHeader(s: seq<byte>)
    requires |s| == HEADER_BYTES
    ensures EncodeHeader(DecodeHeader(s)) == s
  {
    hide W, H, UnW, UnH;
  }

  lemma DecodeEncodeHeader(h: Ehdr)
    ensures DecodeHeader(EncodeHeader(h)) == h
  {
    UnHOfH(h.kind); UnHOfH(h.machine); UnWOfW(h.version); UnWOfW(h.entry); UnWOfW(h.phoff); UnWOfW(h.shoff);
    UnWOfW(h.flags); UnHOfH(h.ehsize); UnHOfH(h.phentsize); UnHOfH(h.phnum); UnHOfH(h.shentsize);
    UnHOfH(h.shnum); UnHOfH(h.shstrndx);
    hide W, H, UnW, UnH;
    var s := EncodeHeader(h);
    assert s[0..16] == h.ident && s[16..18] == H(h.kind) && s[18..20] == H(h.machine) && s[20..24] == W(h.version);
    assert s[24..28] == W(h.entry) && s[28..32] == W(h.phoff) && s[32..36] == W(h.shoff) && s[36..40] == W(h.flags);
    assert s[40..42] == H(h.ehsize) && s[42..44] == H(h.phentsize) && s[44..46] == H(h.phnum);
    assert s[46..48] == H(h.shentsize) && s[48..50] == H(h.shnum) && s[50..52] == H(h.shstrndx);
  }

  // ---- Section headers: ten words

  function SectionWords(h: Shdr): (ws: seq<word>)
    ensures |ws| == 10
  {
    [h.name, h.kind, h.flags, h.addr, h.offset, h.size, h.link, h.info, h.addralign, h.entsize]
  }

  function SectionOf(ws: seq<word>): (h: Shdr)
    requires |ws| == 10
    ensures SectionWords(h) == ws
  {
    Shdr(ws[0], ws[1], ws[2], ws[3], ws[4], ws[5], ws[6], ws[7], ws[8], ws[9])
  }

  function EncodeWords(ws: seq<word>): (s: seq<byte>)
    ensures |s| == 4 * |ws|
  {
    if ws == [] then [] else EncodeWords(ws[..|ws| - 1]) + W(ws[|ws| - 1])
  }

  function DecodeWords(s: seq<byte>, n: nat): (ws: seq<word>)
    requires |s| == 4 * n
    ensures |ws| == n
  {
    if n == 0 then [] else DecodeWords(s[..4 * n - 4], n - 1) + [UnW(s[4 * n - 4..])]
  }

  lemma {:induction false} EncodeDecodeWords(s: seq<byte>, n: nat)
    requires |s| == 4 * n
    ensures EncodeWords(DecodeWords(s, n)) == s
  {
    if n > 0 {
      EncodeDecodeWords(s[..4 * n - 4], n - 1);
      assert DecodeWords(s, n)[..n - 1] == DecodeWords(s[..4 * n - 4], n - 1);
      hide W, UnW;
    }
  }

  lemma DecodeWordsSnoc(x: seq<byte>, y: seq<byte>, n: nat)
    requires |x| == 4 * n && |y| == 4
    ensures DecodeWords(x + y, n + 1) == DecodeWords(x, n) + [UnW(y)]
  {
    hide UnW, W;
    assert (x + y)[..4 * n] == x && (x + y)[4 * n..] == y;
  }

  lemma NoWords()
    ensures EncodeWords([]) == [] && DecodeWords([], 0) == []
  {
  }

  lemma EncodeWordsSnoc(xs: seq<word>, x: word)
    ensures EncodeWords(xs + [x]) == EncodeWords(xs) + W(x)
  {
    hide W;
    assert (xs + [x])[..|xs|] == xs;
  }

  lemma {:induction false} DecodeEncodeWords(ws: seq<word>)
    ensures DecodeWords(EncodeWords(ws), |ws|) == ws
  {
    hide *;
    if ws != [] {
      var init, last := ws[..|ws| - 1], ws[|ws| - 1];
      DecodeEncodeWords(init);
      UnWOfW(last);
      assert ws == init + [last];
      EncodeWordsSnoc(init, last);
      DecodeWordsSnoc(EncodeWords(init), W(last), |init|);
    } else {
      NoWords();
    }
  }

  function EncodeSection(h: Shdr): (s: seq<byte>)
    ensures |s| == SECTION_BYTES
  {
    EncodeWords(SectionWords(h))
  }

  function DecodeSection(s: seq<byte>): Shdr
    requires |s| == SECTION_BYTES
  {
    SectionOf(DecodeWords(s, 10))
  }

  lemma SectionRoundTrip(h: Shdr)
    ensures DecodeSection(EncodeSection(h)) == h
  {
    DecodeEncodeWords(SectionWords(h));
  }

  lemma SectionBytesRoundTrip(s: seq<byte>)
    requires |s| == SECTION_BYTES
    ensures EncodeSection(DecodeSection(s)) == s
  {
    EncodeDecodeWords(s, 10);
  }

  function EncodeSections(hs: seq<Shdr>): (s: seq<byte>)
    ensures |s| == SECTION_BYTES * |hs|
  {
    if hs == [] then [] else EncodeSections(hs[..|hs| - 1]) + EncodeSection(hs[|hs| - 1])
  }

  function DecodeSections(s: seq<byte>, n: nat): (hs: seq<Shdr>)
    requires |s| == SECTION_BYTES * n
    ensures |hs| == n
  {
    if n == 0 then []
    else DecodeSections(s[..SECTION_BYTES * (n - 1)], n - 1) + [DecodeSection(s[SECTION_BYTES * (n - 1)..])]
  }

  lemma EncodeSectionsSnoc(xs: seq<Shdr>, x: Shdr)
    ensures EncodeSections(xs + [x]) == EncodeSections(xs) + EncodeSection(x)
  {
    hide EncodeSection;
    assert (xs + [x])[..|xs|] == xs;
  }

  lemma DecodeSectionsSnoc(x: seq<byte>, y: seq<byte>, n: nat)
    requires |x| == SECTION_BYTES * n && |y| == SECTION_BYTES
    ensures DecodeSections(x + y, n + 1) == DecodeSections(x, n) + [DecodeSection(y)]
  {
    hide DecodeSection;
    assert (x + y)[..SECTION_BYTES * n] == x && (x + y)[SECTION_BYTES * n..] == y;
  }

  lemma {:induction false} SectionsBytesRoundTrip(s: seq<byte>, n: nat)
    requires |s| == SECTION_BYTES * n
    ensures EncodeSections(DecodeSections(s, n)) == s
  {
    if n > 0 {
      var x, y := s[..SECTION_BYTES * (n - 1)], s[SECTION_BYTES * (n - 1)..];
      assert s == x + y;
      SectionsBytesRoundTrip(x, n - 1);
      SectionBytesRoundTrip(y);
      hide EncodeSection, DecodeSection, EncodeSections, DecodeSections;
      DecodeSectionsSnoc(x, y, n - 1);
      EncodeSectionsSnoc(DecodeSections(x, n - 1), DecodeSection(y));
    }
  }

  lemma {:induction false} SectionsRoundTrip(hs: seq<Shdr>)
    ensures DecodeSections(EncodeSections(hs), |hs|) == hs
  {
    if hs != [] {
      var init, last := hs[..|hs| - 1], hs[|hs| - 1];
      SectionsRoundTrip(init);
      SectionRoundTrip(last);
      hide EncodeSection, DecodeSection, DecodeSections;
      DecodeSectionsSnoc(EncodeSections(init), EncodeSection(last), |init|);
      assert hs == init + [last];
    }
  }

  // ---- Symbols

  function EncodeSym(y: Sym): (s: seq<byte>)
    ensures |s| == SYMBOL_BYTES
  {
    W(y.name) + W(y.value) + W(y.size) + [y.info, y.other] + H(y.shndx)
  }

  function DecodeSym(s: seq<byte>): Sym
    requires |s| == SYMBOL_BYTES
  {
    Sym(UnW(s[0..4]), UnW(s[4..8]), UnW(s[8..12]), s[12], s[13], UnH(s[14..16]))
  }

  lemma SymRoundTrip(y: Sym)
    ensures DecodeSym(EncodeSym(y)) == y
  {
    UnWOfW(y.name); UnWOfW(y.value); UnWOfW(y.size); UnHOfH(y.shndx);
    hide W, H, UnW, UnH;
    var s := EncodeSym(y);
    assert s[0..4] == W(y.name) && s[4..8] == W(y.value) && s[8..12] == W(y.size) && s[14..16] == H(y.shndx);
  }

  lemma SymBytesRoundTrip(s: seq<byte>)
    requires |s| == SYMBOL_BYTES
    ensures EncodeSym(DecodeSym(s)) == s
  {
    hide W, H, UnW, UnH;
  }

  function EncodeSyms(ys: seq<Sym>): (s: seq<byte>)
    ensures |s| == SYMBOL_BYTES * |ys|
  {
    if ys == [] then [] else EncodeSyms(ys[..|ys| - 1]) + EncodeSym(ys[|ys| - 1])
  }

  function DecodeSyms(s: seq<byte>, n: nat): (ys: seq<Sym>)
    requires |s| == SYMBOL_BYTES * n
    ensures |ys| == n
  {
    if n == 0 then []
    else DecodeSyms(s[..SYMBOL_BYTES * (n - 1)], n - 1) + [DecodeSym(s[SYMBOL_BYTES * (n - 1)..])]
  }

  lemma EncodeSymsSnoc(xs: seq<Sym>, x: Sym)
    ensures EncodeSyms(xs + [x]) == EncodeSyms(xs) + EncodeSym(x)
  {
    hide EncodeSym;
    assert (xs + [x])[..|xs|] == xs;
  }

  lemma DecodeSymsSnoc(x: seq<byte>, y: seq<byte>, n: nat)
    requires |x| == SYMBOL_BYTES * n && |y| == SYMBOL_BYTES
    ensures DecodeSyms(x + y, n + 1) == DecodeSyms(x, n) + [DecodeSym(y)]
  {
    hide DecodeSym;
    assert (x + y)[..SYMBOL_BYTES * n] == x && (x + y)[SYMBOL_BYTES * n..] == y;
  }

  lemma {:induction false} SymsBytesRoundTrip(s: seq<byte>, n: nat)
    requires |s| == SYMBOL_BYTES * n
    ensures EncodeSyms(DecodeSyms(s, n)) == s
  {
    if n > 0 {
      var x, y := s[..SYMBOL_BYTES * (n - 1)], s[SYMBOL_BYTES * (n - 1)..];
      assert s == x + y;
      SymsBytesRoundTrip(x, n - 1);
      SymBytesRoundTrip(y);
      hide EncodeSym, DecodeSym, EncodeSyms, DecodeSyms;
      DecodeSymsSnoc(x, y, n - 1);
      EncodeSymsSnoc(DecodeSyms(x, n - 1), DecodeSym(y));
    }
  }

  lemma {:induction false} SymsRoundTrip(ys: seq<Sym>)
    ensures DecodeSyms(EncodeSyms(ys), |ys|) == ys
  {
    if ys != [] {
      var init, last := ys[..|ys| - 1], ys[|ys| - 1];
      SymsRoundTrip(init);
      SymRoundTrip(last);
      hide EncodeSym, DecodeSym, DecodeSyms;
      DecodeSymsSnoc(EncodeSyms(init), EncodeSym(last), |init|);
      assert ys == init + [last];
    }
  }
}
