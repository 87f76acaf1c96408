/** Files at the edges of the theorems: each condition is met by one and broken by another. */
module ElfSamples {
  import opened Bytes
  import opened Wrappers
  import opened ElfTypes
  import opened ElfSpec
  import opened ElfLayout
  import opened ElfCopy
  import opened ElfDelete
  import opened ElfRename
  import opened ElfMain
  import opened ElfRun

  function Section(kind: word, offset: word, size: word): Shdr {
    Shdr(0, kind, 0, 0, offset, size, 0, 0, 0, 0)
  }

  // ---- From a table with a layout to a file

  function Header(shoff: word, shnum: half): Ehdr {
    var ident: Ident := MAGIC + [1, 2, 1, 0, 0, 0, 0, 0, 0, 0, 0, 0];
    Ehdr(ident, 1, 40, 1, 0, 0, shoff, 0, 52, 0, 0, SECTION_BYTES, shnum, 0)
  }

  lemma HeaderIdent(shoff: word, shnum: half)
    ensures var h := Header(shoff, shnum);
            h.ident[..4] == MAGIC && h.ident[4] == 1 && h.shoff == shoff && h.shnum == shnum && h.shentsize == SECTION_BYTES
  {
  }

  /** The table, the symbols, and contents of zeros. */
  function Plain(sh: seq<Shdr>, len: seq<nat>, shoff: word, symbols: seq<Sym>): Elf
    requires |sh| == |len| < 0x1_0000
  {
    Elf(Header(shoff, |sh|), sh, if FirstSymtab(sh, 0) == |sh| then -1 else |symbols|, symbols,
        seq(|sh|, i requires 0 <= i < |sh| => seq(len[i], _ => 0)))
  }

  lemma PlainIsSound(sh: seq<Shdr>, len: seq<nat>, shoff: word, symbols: seq<Sym>)
    requires Layout(sh, len, shoff) && |sh| == |len| < 0x1_0000
    requires forall i | 0 <= i < |sh| && sh[i].kind == SHT_SYMTAB :: len[i] == SYMBOL_BYTES * |symbols|
    requires FirstSymtab(sh, 0) == |sh| ==> symbols == []
    ensures Sound(Plain(sh, len, shoff, symbols), len)
  {
    hide Layout, FirstSymtab, EncodeSyms, Header;
    var e := Plain(sh, len, shoff, symbols);
    HeaderIdent(shoff, |sh|);
    assert Sizes(e.contents, len) && Sizes(Parts(e), len);
    hide Sizes, Parts, Plain;
  }

  /** A structure that agrees with a layout is written to a file with its table; if it is loadable, the file is well
      formed and loads as that structure. */
  lemma FileOf(e: Elf, len: seq<nat>) returns (file: seq<byte>)
    requires Sound(e, len)
    ensures ParseHeader(file) == Some(e.header) && ParseSections(file, e.header) == Some(e.sections)
    ensures |e.sections| == |e.contents|
    ensures NextAbove(e.sections) ==> WellFormed(file) && Load(file) == Some(e.(contents := Parts(e)))
  {
    hide *;
    SoundFacts(e, len);
    var order := OrderExists(e.sections);
    WrittenParses(e, len, order);
    file := Written(e, order);
    if NextAbove(e.sections) {
      LoadableIs(e.sections, len, e.header.shoff);
      ReadBack(e, len, order);
    }
  }

  /** The file of a table. */
  lemma TableFile(sh: seq<Shdr>, len: seq<nat>, shoff: word, symbols: seq<Sym>) returns (file: seq<byte>)
    requires Layout(sh, len, shoff) && |sh| == |len| < 0x1_0000
    requires forall i | 0 <= i < |sh| && sh[i].kind == SHT_SYMTAB :: len[i] == SYMBOL_BYTES * |symbols|
    requires FirstSymtab(sh, 0) == |sh| ==> symbols == []
    ensures ParseHeader(file).Some? && ParseSections(file, ParseHeader(file).value) == Some(sh)
    ensures ParseHeader(file).value.shoff == shoff && ParseHeader(file).value.shentsize == SECTION_BYTES
    ensures NextAbove(sh) ==> WellFormed(file) && Load(file).Some?
                              && Load(file).value.sections == sh && Load(file).value.symbols == symbols
  {
    HeaderIdent(shoff, |sh|);
    hide Layout, ParseHeader, ParseSections, Load, WellFormed, NextAbove, Header, FirstSymtab, Parts;
    PlainIsSound(sh, len, shoff, symbols);
    hide Sound;
    file := FileOf(Plain(sh, len, shoff, symbols), len);
  }

  // ---- Code, its relocations, symbols and strings

  const SAMPLE: seq<Shdr> := [
    Section(0, 0, 0), Section(1, 52, 4), Section(SHT_REL, 56, 8),
    Section(SHT_SYMTAB, 64, 32).(link := 4), Section(3, 96, 4)]
  const SAMPLE_LENGTHS: seq<nat> := [0, 4, 8, 32, 4]
  /** An absolute symbol, whose index is the reserved 0xFFF1, and one that names the relocation section. */
  const SAMPLE_SYMBOLS: seq<Sym> := [Sym(0, 0, 0, 0, 0, 0xFFF1), Sym(0, 0, 0, 0, 0, 2)]

  ghost predicate IsSection(h: Shdr, kind: word, offset: word, size: word) {
    h.kind == kind && h.offset == offset && h.size == size
  }

  ghost predicate LikeSample(sh: seq<Shdr>, len: seq<nat>) {
    && |sh| == |len| == 5 && (forall i | 0 <= i < 5 :: sh[i].size == len[i])
    && IsSection(sh[0], 0, 0, 0) && IsSection(sh[1], 1, 52, 4) && IsSection(sh[2], 9, 56, 8)
    && IsSection(sh[3], 2, 64, 32) && IsSection(sh[4], 3, 96, 4) && sh[3].link == 4
  }

  lemma SampleInside(sh: seq<Shdr>, len: seq<nat>)
    requires LikeSample(sh, len)
    ensures |sh| == |len| && Inside(sh, len, 100) && Clear(sh, len) && Distinct(sh, len)
  {
  }

  lemma SampleChained(sh: seq<Shdr>, len: seq<nat>)
    requires LikeSample(sh, len)
    ensures |sh| == |len| && Chained(sh, len, 100)
  {
    assert End(sh, len, 1) == 56 && End(sh, len, 2) == 64 && End(sh, len, 3) == 96 && End(sh, len, 4) == 100;
    assert Starts(sh, len, sh[1].offset) && Starts(sh, len, sh[2].offset);
    assert Starts(sh, len, sh[3].offset) && Starts(sh, len, sh[4].offset);
    hide Starts;
  }

  lemma SampleOrdered(sh: seq<Shdr>, len: seq<nat>)
    requires LikeSample(sh, len)
    ensures |sh| == |len| && Exact(sh, len) && LastEnds(sh, len, 100) && NextAbove(sh) && FirstSymtab(sh, 0) == 3
  {
  }

  lemma SampleKept(sh: seq<Shdr>, len: seq<nat>)
    requires LikeSample(sh, len)
    ensures KeptAbove(sh) && !EmptyBehindRel(sh)
  {
  }

  lemma SampleCount(sh: seq<Shdr>, len: seq<nat>)
    requires LikeSample(sh, len)
    ensures CountKept(sh, 5) == 4 && CountKept(sh, 2) == 2 && CountKept(sh, 3) == 2 && CountKept(sh, 4) == 3
  {
    assert CountKept(sh, 0) == 0;
    assert CountKept(sh, 1) == 1;
    assert CountKept(sh, 2) == 2;
    assert CountKept(sh, 3) == 2;
    assert CountKept(sh, 4) == 3;
  }

  lemma SampleLayout()
    ensures LikeSample(SAMPLE, SAMPLE_LENGTHS) && Layout(SAMPLE, SAMPLE_LENGTHS, 100)
    ensures NextAbove(SAMPLE) && FirstSymtab(SAMPLE, 0) == 3
  {
    assert LikeSample(SAMPLE, SAMPLE_LENGTHS);
    hide SAMPLE, SAMPLE_LENGTHS, Chained, Inside, Clear, Distinct, Exact, LastEnds, NextAbove, FirstSymtab;
    SampleInside(SAMPLE, SAMPLE_LENGTHS);
    SampleChained(SAMPLE, SAMPLE_LENGTHS);
    SampleOrdered(SAMPLE, SAMPLE_LENGTHS);
  }

  /** A well-formed file whose result loads again. Its symbol table, now section 2, names the strings, now section 3. But
      deleteRel spoils two symbols: the absolute one no longer is, and the one that named the relocation section names the
      code. */
  lemma SymbolsSpoiled() returns (file: seq<byte>)
    ensures WellFormed(file) && Load(file).Some? && Shaped(Load(file).value)
    ensures var e := Load(file).value;
            && e.sections == SAMPLE && KeptAbove(SAMPLE) && !EmptyBehindRel(SAMPLE) && e.symbols == SAMPLE_SYMBOLS
            && |DeleteRel(e).symbols| == 2
            && |DeleteRel(e).sections| == 4 && SAMPLE[3].link == 4 && DeleteRel(e).sections[2].link == 3
            && DeleteRel(e).symbols[0].shndx == 0xFFF0 && DeleteRel(e).symbols[1].shndx == 1
  {
    SampleLayout();
    SampleKept(SAMPLE, SAMPLE_LENGTHS);
    SampleCount(SAMPLE, SAMPLE_LENGTHS);
    assert forall i | 0 <= i < 5 && SAMPLE[i].kind == SHT_SYMTAB :: SAMPLE_LENGTHS[i] == 32;
    assert NewIndex(SAMPLE, 3) == 2 && NewIndex(SAMPLE, 4) == 3 && SAMPLE[3].kind == 2 && SAMPLE[3].link == 4;
    hide Layout, NextAbove, LikeSample, KeptAbove, EmptyBehindRel, NewIndex, Load, WellFormed, Shaped, CountKept, DeleteRel, FirstSymtab;
    file := TableFile(SAMPLE, SAMPLE_LENGTHS, 100, SAMPLE_SYMBOLS);
    var len := LoadWellFormed(file);
    SoundFacts(Load(file).value, len);
    DeleteRelRenames(Load(file).value);
    LinksFollow(Load(file).value, 3);
  }

  // ---- Two sections in the wrong order

  const SWAPPED: seq<Shdr> := [Section(0, 0, 0), Section(1, 56, 4), Section(1, 52, 4), Section(3, 60, 4)]
  const SWAPPED_LENGTHS: seq<nat> := [0, 4, 4, 4]

  ghost predicate LikeSwapped(sh: seq<Shdr>, len: seq<nat>) {
    && |sh| == |len| == 4 && (forall i | 0 <= i < 4 :: sh[i].size == len[i])
    && IsSection(sh[0], 0, 0, 0) && IsSection(sh[1], 1, 56, 4) && IsSection(sh[2], 1, 52, 4) && IsSection(sh[3], 3, 60, 4)
  }

  lemma SwappedChained(sh: seq<Shdr>, len: seq<nat>)
    requires LikeSwapped(sh, len)
    ensures |sh| == |len| && Chained(sh, len, 64)
  {
    assert End(sh, len, 1) == 60 && End(sh, len, 2) == 56 && End(sh, len, 3) == 64;
    assert Starts(sh, len, sh[1].offset) && Starts(sh, len, sh[2].offset) && Starts(sh, len, sh[3].offset);
    hide Starts;
  }

  lemma SwappedInside(sh: seq<Shdr>, len: seq<nat>)
    requires LikeSwapped(sh, len)
    ensures |sh| == |len| && Inside(sh, len, 64) && Clear(sh, len) && Distinct(sh, len)
  {
  }

  lemma SwappedOrdered(sh: seq<Shdr>, len: seq<nat>)
    requires LikeSwapped(sh, len)
    ensures |sh| == |len| && Exact(sh, len) && LastEnds(sh, len, 64) && !NextAbove(sh) && FirstSymtab(sh, 0) == 4
    ensures forall i | 0 <= i < |sh| :: sh[i].kind != SHT_SYMTAB
  {
    assert sh[1].size > 0 && sh[1].kind != SHT_REL && sh[1].offset >= sh[1 + 1].offset;
  }

  lemma SwappedLike()
    ensures LikeSwapped(SWAPPED, SWAPPED_LENGTHS)
  {
  }

  lemma SwappedLayout()
    ensures Layout(SWAPPED, SWAPPED_LENGTHS, 64) && !NextAbove(SWAPPED) && FirstSymtab(SWAPPED, 0) == |SWAPPED|
    ensures forall i | 0 <= i < |SWAPPED| :: SWAPPED[i].kind != SHT_SYMTAB
  {
    SwappedLike();
    hide SWAPPED, SWAPPED_LENGTHS, Chained, Inside, Clear, Distinct, Exact, LastEnds, NextAbove, FirstSymtab;
    SwappedInside(SWAPPED, SWAPPED_LENGTHS);
    SwappedOrdered(SWAPPED, SWAPPED_LENGTHS);
    SwappedChained(SWAPPED, SWAPPED_LENGTHS);
  }

  /** A file that its sections tile and that has no relocation section, but that does not load. */
  lemma TiledButNotLoaded() returns (file: seq<byte>)
    ensures ParseHeader(file).Some? && ParseSections(file, ParseHeader(file).value) == Some(SWAPPED)
    ensures Layout(SWAPPED, SWAPPED_LENGTHS, ParseHeader(file).value.shoff) && Load(file) == None
  {
    SwappedLayout();
    hide Layout, NextAbove, ParseHeader, ParseSections, Load, SWAPPED_LENGTHS, FirstSymtab;
    assert |SWAPPED_LENGTHS| == |SWAPPED| by { TilesOfLayout(SWAPPED, SWAPPED_LENGTHS, 64); }
    file := TableFile(SWAPPED, SWAPPED_LENGTHS, 64, []);
    LoadsIff(file, ParseHeader(file).value, SWAPPED, SWAPPED_LENGTHS);
  }

  // ---- A relocation section between two sections in the wrong order

  const PARTED: seq<Shdr> := [
    Section(0, 0, 0), Section(1, 60, 4), Section(SHT_REL, 64, 8), Section(1, 52, 8), Section(3, 72, 4)]
  const PARTED_LENGTHS: seq<nat> := [0, 4, 8, 8, 4]

  ghost predicate LikeParted(sh: seq<Shdr>, len: seq<nat>) {
    && |sh| == |len| == 5 && (forall i | 0 <= i < 5 :: sh[i].size == len[i])
    && IsSection(sh[0], 0, 0, 0) && IsSection(sh[1], 1, 60, 4) && IsSection(sh[2], 9, 64, 8)
    && IsSection(sh[3], 1, 52, 8) && IsSection(sh[4], 3, 72, 4)
  }

  lemma PartedChained(sh: seq<Shdr>, len: seq<nat>)
    requires LikeParted(sh, len)
    ensures |sh| == |len| && Chained(sh, len, 76)
  {
    assert End(sh, len, 1) == 64 && End(sh, len, 2) == 72 && End(sh, len, 3) == 60 && End(sh, len, 4) == 76;
    assert Starts(sh, len, sh[1].offset) && Starts(sh, len, sh[2].offset);
    assert Starts(sh, len, sh[3].offset) && Starts(sh, len, sh[4].offset);
    hide Starts;
  }

  lemma PartedInside(sh: seq<Shdr>, len: seq<nat>)
    requires LikeParted(sh, len)
    ensures |sh| == |len| && Inside(sh, len, 76) && Clear(sh, len) && Distinct(sh, len)
  {
  }

  lemma PartedOrdered(sh: seq<Shdr>, len: seq<nat>)
    requires LikeParted(sh, len)
    ensures |sh| == |len| && Exact(sh, len) && LastEnds(sh, len, 76) && NextAbove(sh) && FirstSymtab(sh, 0) == 5
    ensures !KeptAbove(sh) && !EmptyBehindRel(sh)
  {
    assert NextKept(sh, 1, 3) && sh[1].size > 0 && sh[1].offset >= sh[3].offset;
  }

  lemma PartedLayout()
    ensures Layout(PARTED, PARTED_LENGTHS, 76) && NextAbove(PARTED) && !KeptAbove(PARTED) && !EmptyBehindRel(PARTED)
    ensures FirstSymtab(PARTED, 0) == |PARTED| && forall i | 0 <= i < |PARTED| :: PARTED[i].kind != SHT_SYMTAB
  {
    assert LikeParted(PARTED, PARTED_LENGTHS);
    hide PARTED, PARTED_LENGTHS, Chained, Inside, Clear, Distinct, Exact, LastEnds, NextAbove, KeptAbove, EmptyBehindRel;
    PartedInside(PARTED, PARTED_LENGTHS);
    PartedChained(PARTED, PARTED_LENGTHS);
    PartedOrdered(PARTED, PARTED_LENGTHS);
  }

  ghost predicate LoadsAgain(e: Elf, order: seq<nat>)
    requires Shaped(e) && IsOrder(e.sections, order)
  {
    Load(Written(e, order)).Some?
  }

  /** A well-formed file that no longer loads once its relocation section has been deleted, whatever qsort does. */
  lemma StrippedButNotLoaded() returns (file: seq<byte>)
    ensures WellFormed(file) && Load(file).Some? && Shaped(Load(file).value)
    ensures !EmptyBehindRel(Load(file).value.sections)
    ensures forall order | IsOrder(DeleteRel(Load(file).value).sections, order) ::
              !LoadsAgain(DeleteRel(Load(file).value), order)
  {
    PartedLayout();
    hide Layout, NextAbove, KeptAbove, EmptyBehindRel, ParseHeader, ParseSections, Load, PARTED_LENGTHS, FirstSymtab, WellFormed, IsOrder, DeleteRel, Written;
    assert |PARTED_LENGTHS| == |PARTED| by { TilesOfLayout(PARTED, PARTED_LENGTHS, 76); }
    file := TableFile(PARTED, PARTED_LENGTHS, 76, []);
    hide Shaped;
    var len := LoadWellFormed(file);
    SoundFacts(Load(file).value, len);
    forall order | IsOrder(DeleteRel(Load(file).value).sections, order)
      ensures !LoadsAgain(DeleteRel(Load(file).value), order)
    {
      DeleteThenReadBack(file, order);
    }
  }

  // ---- An empty section behind a relocation section

  const COMMON: seq<Shdr> := [
    Section(0, 0, 0), Section(1, 52, 4), Section(SHT_REL, 56, 8), Section(1, 64, 0), Section(3, 64, 4)]
  const COMMON_LENGTHS: seq<nat> := [0, 4, 8, 0, 4]

  ghost predicate LikeCommon(sh: seq<Shdr>, len: seq<nat>) {
    && |sh| == |len| == 5 && (forall i | 0 <= i < 5 :: sh[i].size == len[i])
    && IsSection(sh[0], 0, 0, 0) && IsSection(sh[1], 1, 52, 4) && IsSection(sh[2], 9, 56, 8)
    && IsSection(sh[3], 1, 64, 0) && IsSection(sh[4], 3, 64, 4)
  }

  lemma CommonChained(sh: seq<Shdr>, len: seq<nat>)
    requires LikeCommon(sh, len)
    ensures |sh| == |len| && Chained(sh, len, 68)
  {
    assert End(sh, len, 1) == 56 && End(sh, len, 2) == 64 && End(sh, len, 4) == 68;
    assert Starts(sh, len, sh[1].offset) && Starts(sh, len, sh[2].offset) && Starts(sh, len, sh[4].offset);
    hide Starts;
  }

  lemma CommonInside(sh: seq<Shdr>, len: seq<nat>)
    requires LikeCommon(sh, len)
    ensures |sh| == |len| && Inside(sh, len, 68) && Clear(sh, len) && Distinct(sh, len)
  {
  }

  lemma CommonOrdered(sh: seq<Shdr>, len: seq<nat>)
    requires LikeCommon(sh, len)
    ensures |sh| == |len| && Exact(sh, len) && LastEnds(sh, len, 68) && NextAbove(sh) && FirstSymtab(sh, 0) == 5
    ensures EmptyBehindRel(sh)
  {
    assert sh[2].kind == SHT_REL && sh[3].size == 0;
  }

  lemma CommonLayout()
    ensures Layout(COMMON, COMMON_LENGTHS, 68) && NextAbove(COMMON) && EmptyBehindRel(COMMON)
    ensures FirstSymtab(COMMON, 0) == |COMMON| && forall i | 0 <= i < |COMMON| :: COMMON[i].kind != SHT_SYMTAB
  {
    assert LikeCommon(COMMON, COMMON_LENGTHS);
    hide COMMON, COMMON_LENGTHS, Chained, Inside, Clear, Distinct, Exact, LastEnds, NextAbove, EmptyBehindRel;
    CommonInside(COMMON, COMMON_LENGTHS);
    CommonChained(COMMON, COMMON_LENGTHS);
    CommonOrdered(COMMON, COMMON_LENGTHS);
  }

  /** A well-formed file of the common kind: code, its relocations, no data, and strings. deleteRel hands the unset pointer
      of the empty data section to realloc. */
  lemma EmptyDataSection() returns (file: seq<byte>)
    ensures WellFormed(file) && Load(file).Some? && Load(file).value.sections == COMMON && EmptyBehindRel(COMMON)
  {
    CommonLayout();
    hide Layout, NextAbove, EmptyBehindRel, ParseHeader, ParseSections, Load, COMMON_LENGTHS, FirstSymtab, WellFormed;
    assert |COMMON_LENGTHS| == |COMMON| by { TilesOfLayout(COMMON, COMMON_LENGTHS, 68); }
    file := TableFile(COMMON, COMMON_LENGTHS, 68, []);
  }

  // ---- More relocation sections than the table of counts holds

  function Crowd(n: nat): (sh: seq<Shdr>)
    ensures |sh| == n + 2 && IsSection(sh[0], 0, 0, 0) && IsSection(sh[n + 1], 1, 52, 4)
    ensures forall i | 1 <= i <= n :: IsSection(sh[i], SHT_REL, 0, 0)
  {
    [Section(0, 0, 0)] + seq(n, _ => Section(SHT_REL, 0, 0)) + [Section(1, 52, 4)]
  }

  function CrowdLengths(n: nat): (len: seq<nat>)
    ensures |len| == n + 2 && len[n + 1] == 4 && forall i | 0 <= i <= n :: len[i] == 0
  {
    seq(n + 1, _ => 0) + [4]
  }

  lemma CrowdLayout(n: nat)
    ensures Layout(Crowd(n), CrowdLengths(n), 56) && NextAbove(Crowd(n)) && FirstSymtab(Crowd(n), 0) == n + 2
  {
    hide Crowd, CrowdLengths;
    var sh, len := Crowd(n), CrowdLengths(n);
    assert End(sh, len, n + 1) == 56;
    assert Starts(sh, len, HEADER_BYTES);
    assert forall i | 0 <= i < n + 2 && len[i] > 0 :: i == n + 1;
  }

  lemma {:induction false} CrowdCount(n: nat, k: nat)
    requires 1 <= k <= n + 1
    ensures CountKept(Crowd(n), k) == 1
  {
    hide Crowd;
    assert CountKept(Crowd(n), 0) == 0;
    if k > 1 {
      CrowdCount(n, k - 1);
    }
  }

  /** For every number of relocation sections there is a well-formed file that has as many; from 257 on, the main
      program writes behind its table of counts. */
  lemma ManyRelocations(n: nat) returns (file: seq<byte>)
    requires n + 2 < 0x1_0000
    ensures WellFormed(file) && Load(file).Some? && CountRel(Load(file).value.sections) == n
    ensures n > 256 <==> Loading(file) == Overran
  {
    CrowdLayout(n);
    CrowdCount(n, n + 1);
    assert CountKept(Crowd(n), n + 2) == 2;
    hide Layout, NextAbove, ParseHeader, ParseSections, Load, CrowdLengths, FirstSymtab, WellFormed, Crowd, Loading, CountKept;
    assert forall i | 0 <= i < n + 2 :: Crowd(n)[i].kind != SHT_SYMTAB;
    file := TableFile(Crowd(n), CrowdLengths(n), 56, []);
    LoadingWellFormed(file);
  }
}
