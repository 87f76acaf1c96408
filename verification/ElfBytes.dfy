/** What the bytes of a big-endian file mean: every field that is loaded, as a sum of bytes at its own place. */
module ElfBytes {
  import opened Bytes
  import opened Wrappers
  import opened ElfTypes
  import opened ElfSpec
  import opened ElfLoad

  function WordAt(s: seq<byte>, p: nat): int
    requires p + 4 <= |s|
  {
    Four(s[p], s[p + 1], s[p + 2], s[p + 3])
  }

  function HalfAt(s: seq<byte>, p: nat): int
    requires p + 2 <= |s|
  {
    Two(s[p], s[p + 1])
  }

  /** A word and a half word as they are read. */
  lemma WordIs(s: seq<byte>)
    requires |s| == 4
    ensures UnW(s) == 0x100_0000 * (s[0] as int) + 0x1_0000 * (s[1] as int) + 0x100 * (s[2] as int) + s[3] as int
    ensures UnW(s) == Four(s[0], s[1], s[2], s[3])
  {
    BigEndianSums(s);
  }

  lemma HalfIs(s: seq<byte>)
    requires |s| == 2
    ensures UnH(s) == 0x100 * (s[0] as int) + s[1] as int
    ensures UnH(s) == Two(s[0], s[1])
  {
    BigEndianSums(s);
  }

  lemma WordAtIs(s: seq<byte>, p: nat)
    requires p + 4 <= |s|
    ensures UnW(s[p..p + 4]) == WordAt(s, p)
  {
    WordIs(s[p..p + 4]);
  }

  lemma HalfAtIs(s: seq<byte>, p: nat)
    requires p + 2 <= |s|
    ensures UnH(s[p..p + 2]) == HalfAt(s, p)
  {
    HalfIs(s[p..p + 2]);
  }

  // ---- The file header

  /** Which files have a header that is loaded, and its fields. */
  lemma HeaderIs(file: seq<byte>)
    ensures ParseHeader(file).Some? <==>
            |file| >= 52 && file[0] == 0x7f && file[1] == 0x45 && file[2] == 0x4c && file[3] == 0x46 && file[4] == 1
    ensures ParseHeader(file).Some? ==>
              var h := ParseHeader(file).value;
              && h.ident == file[..16] && h.kind == HalfAt(file, 16) && h.machine == HalfAt(file, 18)
              && h.version == WordAt(file, 20) && h.entry == WordAt(file, 24) && h.phoff == WordAt(file, 28)
              && h.shoff == WordAt(file, 32) && h.flags == WordAt(file, 36) && h.ehsize == HalfAt(file, 40)
              && h.phentsize == HalfAt(file, 42) && h.phnum == HalfAt(file, 44) && h.shentsize == HalfAt(file, 46)
              && h.shnum == HalfAt(file, 48) && h.shstrndx == HalfAt(file, 50)
  {
    hide ParseHeader, DecodeHeader, UnW, UnH, WordAt, HalfAt;
    HeaderSlices(file);
    MagicIs(file);
    if |file| >= 52 {
      HalfAtIs(file, 16); HalfAtIs(file, 18); WordAtIs(file, 20); WordAtIs(file, 24); WordAtIs(file, 28);
      WordAtIs(file, 32); WordAtIs(file, 36); HalfAtIs(file, 40); HalfAtIs(file, 42); HalfAtIs(file, 44);
      HalfAtIs(file, 46); HalfAtIs(file, 48); HalfAtIs(file, 50);
    }
  }

  lemma MagicIs(s: seq<byte>)
    ensures |s| >= 4 ==>
      (s[..4] == MAGIC <==> s[0] == 0x7f && s[1] == 0x45 && s[2] == 0x4c && s[3] == 0x46)
  {
    if |s| >= 4 {
      assert MAGIC == [0x7f, 0x45, 0x4c, 0x46];
      assert s[..4] == [s[0], s[1], s[2], s[3]];
    }
  }

  // ---- Section headers

  lemma {:induction false} DecodedWord(s: seq<byte>, n: nat, k: nat)
    requires |s| == 4 * n && k < n
    ensures DecodeWords(s, n)[k] == WordAt(s, 4 * k)
  {
    if k == n - 1 {
      WordIs(s[4 * n - 4..]);
    } else {
      DecodedWord(s[..4 * n - 4], n - 1, k);
    }
  }

  lemma {:induction false} DecodedSection(s: seq<byte>, n: nat, i: nat)
    requires |s| == 40 * n && i < n
    ensures DecodeSections(s, n)[i] == DecodeSection(s[40 * i..40 * i + 40])
  {
    hide DecodeSection;
    if i == n - 1 {
      assert s[40 * i..] == s[40 * i..40 * i + 40];
    } else {
      var init := s[..40 * (n - 1)];
      DecodedSection(init, n - 1, i);
      assert init[40 * i..40 * i + 40] == s[40 * i..40 * i + 40];
    }
  }

  lemma SectionIs(s: seq<byte>)
    requires |s| == 40
    ensures var h := DecodeSection(s);
            && h.name == WordAt(s, 0) && h.kind == WordAt(s, 4) && h.flags == WordAt(s, 8) && h.addr == WordAt(s, 12)
            && h.offset == WordAt(s, 16) && h.size == WordAt(s, 20) && h.link == WordAt(s, 24) && h.info == WordAt(s, 28)
            && h.addralign == WordAt(s, 32) && h.entsize == WordAt(s, 36)
  {
    hide DecodeWords, WordAt;
    forall k: nat | k < 10
      ensures DecodeWords(s, 10)[k] == WordAt(s, 4 * k)
    {
      DecodedWord(s, 10, k);
    }
  }

  /** Field k of section i is the word at its place in the table. */
  lemma SectionsAre(file: seq<byte>, h: Ehdr, i: nat)
    requires ParseSections(file, h).Some? && i < |ParseSections(file, h).value|
    ensures i < h.shnum == |ParseSections(file, h).value| && h.shoff + 40 * i + 40 <= |file|
    ensures var sh, p := ParseSections(file, h).value[i], h.shoff + 40 * i;
            && sh.name == WordAt(file, p) && sh.kind == WordAt(file, p + 4) && sh.flags == WordAt(file, p + 8)
            && sh.addr == WordAt(file, p + 12) && sh.offset == WordAt(file, p + 16) && sh.size == WordAt(file, p + 20)
            && sh.link == WordAt(file, p + 24) && sh.info == WordAt(file, p + 28) && sh.addralign == WordAt(file, p + 32)
            && sh.entsize == WordAt(file, p + 36)
  {
    hide DecodeSections, DecodeSection, WordAt;
    var p := h.shoff + 40 * i;
    DecodedSection(file[h.shoff..h.shoff + 40 * h.shnum], h.shnum, i);
    SubSlice(file, h.shoff, h.shoff + 40 * h.shnum, 40 * i, 40 * i + 40);
    SectionIs(file[p..p + 40]);
    hide ParseSections;
    WordInside(file, p, 0); WordInside(file, p, 4); WordInside(file, p, 8); WordInside(file, p, 12); WordInside(file, p, 16);
    WordInside(file, p, 20); WordInside(file, p, 24); WordInside(file, p, 28); WordInside(file, p, 32); WordInside(file, p, 36);
  }

  lemma WordInside(s: seq<byte>, p: nat, k: nat)
    requires p + 40 <= |s| && k + 4 <= 40
    ensures WordAt(s[p..p + 40], k) == WordAt(s, p + k)
  {
  }

  // ---- Symbols

  lemma {:induction false} DecodedSym(s: seq<byte>, n: nat, l: nat)
    requires |s| == 16 * n && l < n
    ensures DecodeSyms(s, n)[l] == DecodeSym(s[16 * l..16 * l + 16])
  {
    hide DecodeSym;
    if l == n - 1 {
      assert s[16 * l..] == s[16 * l..16 * l + 16];
    } else {
      var init := s[..16 * (n - 1)];
      DecodedSym(init, n - 1, l);
      assert init[16 * l..16 * l + 16] == s[16 * l..16 * l + 16];
    }
  }

  /** The symbols are those of the first section of kind 2: sixteen bytes each from its offset on. */
  lemma SymbolsAre(file: seq<byte>, sh: seq<Shdr>, k: nat, l: nat)
    requires ParseSymbols(file, sh).Some? && k < |sh| && sh[k].kind == 2 && (forall j | 0 <= j < k :: sh[j].kind != 2)
    ensures var n, ys := ParseSymbols(file, sh).value.0, ParseSymbols(file, sh).value.1;
            && n == |ys| == sh[k].size / 16
            && (l < |ys| ==>
              var p := sh[k].offset + 16 * l;
              && p + 16 <= |file|
              && ys[l].name == WordAt(file, p) && ys[l].value == WordAt(file, p + 4) && ys[l].size == WordAt(file, p + 8)
              && ys[l].info == file[p + 12] && ys[l].other == file[p + 13] && ys[l].shndx == HalfAt(file, p + 14))
  {
    hide DecodeSyms, DecodeSym, WordAt, HalfAt;
    assert FirstSymtab(sh, 0) == k;
    var n := sh[k].size / 16;
    if l < n && sh[k].offset + 16 * n <= |file| {
      var table, p := file[sh[k].offset..sh[k].offset + 16 * n], sh[k].offset + 16 * l;
      DecodedSym(table, n, l);
      SubSlice(file, sh[k].offset, sh[k].offset + 16 * n, 16 * l, 16 * l + 16);
      SymSlices(file, p);
      WordAtIs(file, p); WordAtIs(file, p + 4); WordAtIs(file, p + 8); HalfAtIs(file, p + 14);
    }
  }

  // ---- Relocation entries

  lemma RelocationsAre(file: seq<byte>, offset: word, n: nat, j: nat)
    requires RelsAt(file, offset, n).Some? && j < n
    ensures offset + 8 * n <= |file|
    ensures var r, p := RelsAt(file, offset, n).value[j], offset + 8 * j;
            r.offset == WordAt(file, p) && r.info == WordAt(file, p + 4)
  {
    hide DecodeWords;
    var table := file[offset..offset + 8 * n];
    DecodedWord(table, 2 * n, 2 * j);
    DecodedWord(table, 2 * n, 2 * j + 1);
  }
}
