/** The loaders, reading a file field by field. */
module ElfLoad {
  import opened Bytes
  import opened Wrappers
  import opened ElfTypes
  import opened ElfSpec

  /** A stdio stream over a file that is being read. */
  class Input {
    const bytes: seq<byte>
    var pos: nat

    constructor (bytes: seq<byte>)
      ensures this.bytes == bytes && pos == 0
    {
      this.bytes, pos := bytes, 0;
    }

    method Fseek(offset: nat)
      modifies this
      ensures pos == offset
    {
      pos := offset;
    }

    /** fread of one block: a block of no bytes counts as none read. */
    method Fread(size: nat) returns (r: Option<seq<byte>>)
      modifies this
      ensures r == if 0 < size && old(pos) + size <= |bytes| then Some(bytes[old(pos)..old(pos) + size]) else None
      ensures r.Some? ==> pos == old(pos) + size
    {
      if size == 0 || pos + size > |bytes| {
        return None;
      }
      r := Some(bytes[pos..pos + size]);
      pos := pos + size;
    }

    method ReadByte() returns (r: Option<byte>)
      modifies this
      ensures r == if old(pos) < |bytes| then Some(bytes[old(pos)]) else None
      ensures r.Some? ==> pos == old(pos) + 1
    {
      var s :- Fread(1);
      r := Some(s[0]);
    }

    method ReadHalf() returns (r: Option<half>)
      modifies this
      ensures r == if old(pos) + 2 <= |bytes| then Some(UnH(bytes[old(pos)..old(pos) + 2])) else None
      ensures r.Some? ==> pos == old(pos) + 2
    {
      var s :- Fread(2);
      r := Some(UnH(s));
    }

    method ReadWord() returns (r: Option<word>)
      modifies this
      ensures r == if old(pos) + 4 <= |bytes| then Some(UnW(bytes[old(pos)..old(pos) + 4])) else None
      ensures r.Some? ==> pos == old(pos) + 4
    {
      var s :- Fread(4);
      r := Some(UnW(s));
    }

    /** The magic number, byte by byte, and the rest of the identification. */
    method ReadIdent() returns (r: Option<Ident>)
      requires pos == 0
      modifies this
      ensures r.Some? <==> |bytes| >= 16 && bytes[..4] == MAGIC && bytes[4] == 1
      ensures r.Some? ==> pos == 16 && r.value == bytes[..16]
    {
      var mag0 :- ReadByte();
      var mag1 :- ReadByte();
      var mag2 :- ReadByte();
      var mag3 :- ReadByte();
      assert bytes[..4] == [mag0, mag1, mag2, mag3];
      if mag0 != MAGIC[0] || mag1 != MAGIC[1] || mag2 != MAGIC[2] || mag3 != MAGIC[3] {
        return None;
      }
      var fileClass :- ReadByte();
      var data :- ReadByte();
      var version :- ReadByte();
      var osAbi :- ReadByte();
      var abiVersion :- ReadByte();
      var pad :- Fread(7);
      if fileClass != 1 {
        return None;
      }
      r := Some([mag0, mag1, mag2, mag3, fileClass, data, version, osAbi, abiVersion] + pad);
    }

    method LoadHeader() returns (r: Option<Ehdr>)
      requires pos == 0
      modifies this
      ensures r == ParseHeader(bytes)
    {
      hide ParseHeader, DecodeHeader, UnW, UnH;
      HeaderSlices(bytes);
      var ident :- ReadIdent();
      var kind :- ReadHalf();
      var machine :- ReadHalf();
      var version :- ReadWord();
      var entry :- ReadWord();
      var phoff :- ReadWord();
      var shoff :- ReadWord();
      var flags :- ReadWord();
      var ehsize :- ReadHalf();
      var phentsize :- ReadHalf();
      var phnum :- ReadHalf();
      var shentsize :- ReadHalf();
      var shnum :- ReadHalf();
      var shstrndx :- ReadHalf();
      r := Some(Ehdr(ident, kind, machine, version, entry, phoff, shoff, flags, ehsize, phentsize, phnum, shentsize, shnum, shstrndx));
    }

    /** One entry of the section header table, through a pointer to its next word. */
    method ReadSectionHeader() returns (r: Option<Shdr>)
      modifies this
      ensures r == if old(pos) + SECTION_BYTES <= |bytes| then Some(DecodeSection(bytes[old(pos)..old(pos) + SECTION_BYTES])) else None
      ensures r.Some? ==> pos == old(pos) + SECTION_BYTES
    {
      hide DecodeWords, UnW, SectionOf;
      var start, words := pos, [];
      for j := 0 to 10
        invariant pos == start + 4 * j && (j > 0 ==> pos <= |bytes|)
        invariant words == if j == 0 then [] else DecodeWords(bytes[start..start + 4 * j], j)
      {
        var w :- ReadWord();
        WordsNext(bytes, start, j);
        words := words + [w];
      }
      r := Some(SectionOf(words));
    }

    method LoadTabSectionHeader(h: Ehdr) returns (r: Option<array<Shdr>>)
      modifies this
      ensures r.Some? <==> ParseSections(bytes, h).Some?
      ensures r.Some? ==> fresh(r.value) && r.value[..] == ParseSections(bytes, h).value
    {
      hide DecodeSections, DecodeSection;
      var tab := new Shdr[h.shnum](_ => NO_SECTION);
      Fseek(h.shoff);
      for i := 0 to h.shnum
        invariant fresh(tab)
        invariant pos == h.shoff + SECTION_BYTES * i && (i > 0 ==> pos <= |bytes|)
        invariant i > 0 ==> tab[..i] == DecodeSections(bytes[h.shoff..h.shoff + SECTION_BYTES * i], i)
      {
        tab[i] :- ReadSectionHeader();
        SectionsNext(bytes, h.shoff, i);
        assert tab[..i + 1] == tab[..i] + [tab[i]];
      }
      assert tab[..] == tab[..h.shnum];
      r := Some(tab);
    }

    method ReadSymbol() returns (r: Option<Sym>)
      modifies this
      ensures r == if old(pos) + SYMBOL_BYTES <= |bytes| then Some(DecodeSym(bytes[old(pos)..old(pos) + SYMBOL_BYTES])) else None
      ensures r.Some? ==> pos == old(pos) + SYMBOL_BYTES
    {
      hide UnW, UnH;
      SymSlices(bytes, pos);
      var name :- ReadWord();
      var value :- ReadWord();
      var size :- ReadWord();
      var info :- ReadByte();
      var other :- ReadByte();
      var shndx :- ReadHalf();
      r := Some(Sym(name, value, size, info, other, shndx));
    }

    /** The symbol table and its number of entries, -1 when there is no such section. */
    method LoadSymTable(sh: seq<Shdr>) returns (r: Option<(int, array<Sym>)>)
      modifies this
      ensures r.Some? <==> ParseSymbols(bytes, sh).Some?
      ensures r.Some? ==> fresh(r.value.1) && (r.value.0, r.value.1[..]) == ParseSymbols(bytes, sh).value
    {
      hide DecodeSyms, DecodeSym;
      var i := 0;
      while i < |sh| && sh[i].kind != SHT_SYMTAB
        invariant i <= |sh| && FirstSymtab(sh, 0) == FirstSymtab(sh, i)
      {
        i := i + 1;
      }
      if i == |sh| {
        var nothing := new Sym[0];
        assert nothing[..] == [];
        return Some((-1, nothing));
      }
      var n, offset := sh[i].size / SYMBOL_BYTES, sh[i].offset;
      var tab := new Sym[n](_ => NO_SYMBOL);
      Fseek(offset);
      for j := 0 to n
        invariant fresh(tab)
        invariant pos == offset + SYMBOL_BYTES * j && (j > 0 ==> pos <= |bytes|)
        invariant j > 0 ==> tab[..j] == DecodeSyms(bytes[offset..offset + SYMBOL_BYTES * j], j)
      {
        tab[j] :- ReadSymbol();
        SymsNext(bytes, offset, j);
        assert tab[..j + 1] == tab[..j] + [tab[j]];
      }
      assert tab[..] == tab[..n];
      r := Some((n, tab));
    }

    /** The entries of one relocation section. */
    method ReadRelocations(offset: word, n: nat) returns (r: Option<seq<Rel>>)
      modifies this
      ensures r == RelsAt(bytes, offset, n)
    {
      hide DecodeWords, UnW;
      var rels := [];
      Fseek(offset);
      ghost var words := [];
      for j := 0 to n
        invariant pos == offset + REL_BYTES * j && (j > 0 ==> pos <= |bytes|)
        invariant |words| == 2 * j && rels == RelsOf(words, j)
        invariant words == if j == 0 then [] else DecodeWords(bytes[offset..offset + REL_BYTES * j], 2 * j)
      {
        WordsNext(bytes, offset, 2 * j);
        WordsNext(bytes, offset, 2 * j + 1);
        var relOffset :- ReadWord();
        var info :- ReadWord();
        rels := rels + [Rel(relOffset, info)];
        words := words + [relOffset] + [info];
      }
      r := Some(rels);
    }

    /** The table of every relocation section; tabNb[k] becomes the length of the k-th. */
    method LoadRelocTable(sh: seq<Shdr>, tabNb: array<nat>) returns (r: Relocs)
      requires tabNb.Length == MAX_REL_TABLES
      modifies this, tabNb
      ensures r == ParseRelocs(bytes, sh, 0, [])
      ensures r.Tables? ==> |r.tables| <= tabNb.Length && forall k | 0 <= k < |r.tables| :: tabNb[k] == |r.tables[k]|
    {
      hide RelsAt;
      var tables := [];
      for i := 0 to |sh|
        invariant ParseRelocs(bytes, sh, 0, []) == ParseRelocs(bytes, sh, i, tables)
        invariant |tables| <= tabNb.Length && forall k | 0 <= k < |tables| :: tabNb[k] == |tables[k]|
      {
        if sh[i].kind == SHT_REL {
          if |tables| >= tabNb.Length {
            return Overrun;
          }
          tabNb[|tables|] := sh[i].size / REL_BYTES;
          var rels := ReadRelocations(sh[i].offset, sh[i].size / REL_BYTES);
          if rels.None? {
            return Unreadable;
          }
          tables := tables + [rels.value];
        }
      }
      r := Tables(tables);
    }

    /** The content of every section, up to the start of the next one, and which of the pointers to them were set. */
    method LoadSectionContent(h: Ehdr, sh: seq<Shdr>) returns (r: Option<seq<seq<byte>>>, isSet: seq<bool>)
      requires |sh| == h.shnum
      modifies this
      ensures r == ContentsUpTo(bytes, sh, h.shoff, |sh|)
      ensures r.Some? ==> PointersSet(sh, isSet)
    {
      hide Minus, NextFrom, ContentsUpTo;
      var content := [];
      isSet := [];
      Fseek(h.ehsize);
      NoContents(bytes, sh, h.shoff);
      for i := 0 to h.shnum
        invariant ContentsUpTo(bytes, sh, h.shoff, i) == Some(content)
        invariant |isSet| == i && forall k | 0 <= k < i :: isSet[k] <==> sh[k].size != 0
      {
        ContentsNext(bytes, sh, h.shoff, i);
        var c := [];
        if sh[i].size != 0 {
          Fseek(sh[i].offset);
          var size;
          if i < h.shnum - 1 {
            var val := NextSection(sh, i);
            size := if sh[i].kind == SHT_REL then sh[i].size else Minus(sh[val].offset, sh[i].offset);
          } else {
            size := Minus(h.shoff, sh[i].offset);
          }
          if size >= 0x8000_0000 {
            ContentsFail(bytes, sh, h.shoff, i, |sh|);
            return None, isSet;
          }
          var block := Fread(size);
          if block.None? {
            ContentsFail(bytes, sh, h.shoff, i, |sh|);
            return None, isSet;
          }
          c := block.value;
        }
        content := content + [c];
        isSet := isSet + [sh[i].size != 0];
      }
      r := Some(content);
    }
  }

  const NO_SECTION: Shdr := Shdr(0, 0, 0, 0, 0, 0, 0, 0, 0, 0)
  const NO_SYMBOL: Sym := Sym(0, 0, 0, 0, 0, 0)

  /** The search of loadSectionContent for the section that follows section i in the file. */
  method NextSection(sh: seq<Shdr>, i: nat) returns (val: nat)
    requires i < |sh| - 1
    ensures val == NextFrom(sh, i, 0, i + 1)
  {
    val := i + 1;
    for j := 0 to |sh|
      invariant val < |sh| && NextFrom(sh, i, 0, i + 1) == NextFrom(sh, i, j, val)
    {
      if sh[j].offset > sh[i].offset && sh[j].offset < sh[val].offset {
        val := j;
      }
    }
  }

  /** The fields of the header lie one behind the other. */
  lemma HeaderSlices(s: seq<byte>)
    ensures ParseHeader(s) == if |s| < HEADER_BYTES || s[..4] != MAGIC || s[4] != 1 then None
      else Some(Ehdr(s[..16], UnH(s[16..18]), UnH(s[18..20]), UnW(s[20..24]), UnW(s[24..28]), UnW(s[28..32]), UnW(s[32..36]),
                     UnW(s[36..40]), UnH(s[40..42]), UnH(s[42..44]), UnH(s[44..46]), UnH(s[46..48]), UnH(s[48..50]),
                     UnH(s[50..52])))
    ensures HEADER_BYTES == 52
  {
    hide UnH, UnW;
    if |s| >= HEADER_BYTES {
      var t := s[..HEADER_BYTES];
      assert t[0..16] == s[..16] && t[16..18] == s[16..18] && t[18..20] == s[18..20] && t[20..24] == s[20..24];
      assert t[24..28] == s[24..28] && t[28..32] == s[28..32] && t[32..36] == s[32..36] && t[36..40] == s[36..40];
      assert t[40..42] == s[40..42] && t[42..44] == s[42..44] && t[44..46] == s[44..46] && t[46..48] == s[46..48];
      assert t[48..50] == s[48..50] && t[50..52] == s[50..52];
    }
  }

  lemma ParsedClass(s: seq<byte>)
    requires ParseHeader(s).Some?
    ensures ParseHeader(s).value.ident[4] == 1
  {
    hide UnH, UnW;
  }

  lemma SymSlices(s: seq<byte>, p: nat)
    ensures p + SYMBOL_BYTES <= |s| ==>
      DecodeSym(s[p..p + SYMBOL_BYTES]) ==
      Sym(UnW(s[p..p + 4]), UnW(s[p + 4..p + 8]), UnW(s[p + 8..p + 12]), s[p + 12], s[p + 13], UnH(s[p + 14..p + 16]))
  {
    hide UnH, UnW;
    if p + SYMBOL_BYTES <= |s| {
      var t := s[p..p + SYMBOL_BYTES];
      assert t[0..4] == s[p..p + 4] && t[4..8] == s[p + 4..p + 8] && t[8..12] == s[p + 8..p + 12];
      assert t[14..16] == s[p + 14..p + 16];
    }
  }

  lemma WordsNext(s: seq<byte>, p: nat, j: nat)
    ensures p + 4 * j + 4 <= |s| ==>
      DecodeWords(s[p..p + 4 * (j + 1)], j + 1) ==
      (if j == 0 then [] else DecodeWords(s[p..p + 4 * j], j)) + [UnW(s[p + 4 * j..p + 4 * j + 4])]
  {
    hide UnW;
    if p + 4 * j + 4 <= |s| {
      var x, y := s[p..p + 4 * j], s[p + 4 * j..p + 4 * j + 4];
      assert s[p..p + 4 * (j + 1)] == x + y;
      DecodeWordsSnoc(x, y, j);
      assert j == 0 ==> DecodeWords(x, 0) == [];
    }
  }

  lemma SectionsNext(s: seq<byte>, p: nat, j: nat)
    requires p + SECTION_BYTES * j + SECTION_BYTES <= |s|
    ensures DecodeSections(s[p..p + SECTION_BYTES * (j + 1)], j + 1)
         == (if j == 0 then [] else DecodeSections(s[p..p + SECTION_BYTES * j], j))
            + [DecodeSection(s[p + SECTION_BYTES * j..p + SECTION_BYTES * j + SECTION_BYTES])]
  {
    hide DecodeSection;
    var x, y := s[p..p + SECTION_BYTES * j], s[p + SECTION_BYTES * j..p + SECTION_BYTES * j + SECTION_BYTES];
    assert s[p..p + SECTION_BYTES * (j + 1)] == x + y;
    DecodeSectionsSnoc(x, y, j);
    assert j == 0 ==> DecodeSections(x, 0) == [];
  }

  lemma SymsNext(s: seq<byte>, p: nat, j: nat)
    requires p + SYMBOL_BYTES * j + SYMBOL_BYTES <= |s|
    ensures DecodeSyms(s[p..p + SYMBOL_BYTES * (j + 1)], j + 1)
         == (if j == 0 then [] else DecodeSyms(s[p..p + SYMBOL_BYTES * j], j))
            + [DecodeSym(s[p + SYMBOL_BYTES * j..p + SYMBOL_BYTES * j + SYMBOL_BYTES])]
  {
    hide DecodeSym;
    var x, y := s[p..p + SYMBOL_BYTES * j], s[p + SYMBOL_BYTES * j..p + SYMBOL_BYTES * j + SYMBOL_BYTES];
    assert s[p..p + SYMBOL_BYTES * (j + 1)] == x + y;
    DecodeSymsSnoc(x, y, j);
    assert j == 0 ==> DecodeSyms(x, 0) == [];
  }

  lemma NoContents(file: seq<byte>, sh: seq<Shdr>, shoff: word)
    ensures ContentsUpTo(file, sh, shoff, 0) == Some([])
  {
  }

  lemma ContentsNext(file: seq<byte>, sh: seq<Shdr>, shoff: word, n: nat)
    requires n < |sh| && ContentsUpTo(file, sh, shoff, n).Some?
    ensures ContentsUpTo(file, sh, shoff, n + 1)
         == (match ContentOf(file, sh, shoff, n)
             case None => None
             case Some(c) => Some(ContentsUpTo(file, sh, shoff, n).value + [c]))
  {
    hide ContentOf;
  }
}
