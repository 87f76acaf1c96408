/** Loading and printing are inverse on files whose sections tile them. */
module ElfCopy {
  import opened Bytes
  import opened Wrappers
  import opened ElfTypes
  import opened ElfSpec
  import opened ElfLayout

  /** Relocation sections and the one symbol table have no padding behind them. */
  ghost predicate Exact(sh: seq<Shdr>, len: seq<nat>)
    requires |sh| == |len|
  {
    && (forall i | 0 <= i < |sh| && (sh[i].kind == SHT_REL || sh[i].kind == SHT_SYMTAB) :: len[i] == sh[i].size)
    && (forall i | 0 <= i < |sh| && sh[i].kind == SHT_SYMTAB :: sh[i].size % SYMBOL_BYTES == 0)
    && (forall i, j | 0 <= i < j < |sh| :: sh[i].kind != SHT_SYMTAB || sh[j].kind != SHT_SYMTAB)
  }

  /** The last section reaches the section headers. */
  ghost predicate LastEnds(sh: seq<Shdr>, len: seq<nat>, shoff: int)
    requires |sh| == |len|
  {
    var n := |sh| - 1;
    n >= 0 && len[n] > 0 && sh[n].kind != SHT_REL && End(sh, len, n) == shoff
  }

  ghost predicate Layout(sh: seq<Shdr>, len: seq<nat>, shoff: int) {
    Tiles(sh, len, shoff) && Exact(sh, len) && LastEnds(sh, len, shoff)
  }

  /** What the search in loadSectionContent starts from lies above the section. */
  predicate NextAbove(sh: seq<Shdr>) {
    forall i | 0 <= i < |sh| - 1 && sh[i].size > 0 && sh[i].kind != SHT_REL :: sh[i].offset < sh[i + 1].offset
  }

  ghost predicate Loadable(sh: seq<Shdr>, len: seq<nat>, shoff: int) {
    Layout(sh, len, shoff) && NextAbove(sh)
  }

  /** loadSectionContent's inner loop finds a section with the least offset above that of section i. */
  lemma {:induction false} NextFromIsLeast(sh: seq<Shdr>, i: nat, j: nat, val: nat)
    requires i < |sh| && j <= |sh| && val < |sh| && sh[i].offset < sh[val].offset
    requires forall k | 0 <= k < j && sh[i].offset < sh[k].offset :: sh[val].offset <= sh[k].offset
    ensures var v := NextFrom(sh, i, j, val);
            && sh[i].offset < sh[v].offset
            && forall k | 0 <= k < |sh| && sh[i].offset < sh[k].offset :: sh[v].offset <= sh[k].offset
    decreases |sh| - j
  {
    if j < |sh| {
      NextFromIsLeast(sh, i, j + 1, if sh[i].offset < sh[j].offset < sh[val].offset then j else val);
    }
  }

  lemma LoadableFacts(sh: seq<Shdr>, len: seq<nat>, shoff: int)
    requires Loadable(sh, len, shoff)
    ensures |sh| == |len| && Layout(sh, len, shoff) && Tiles(sh, len, shoff) && LastEnds(sh, len, shoff) && Clear(sh, len)
  {
  }

  lemma LayoutFacts(sh: seq<Shdr>, len: seq<nat>, shoff: int, i: nat)
    requires Layout(sh, len, shoff) && i < |sh|
    ensures |sh| == |len| && shoff < 0x8000_0000 && (len[i] == 0 <==> sh[i].size == 0)
    ensures End(sh, len, i) == sh[i].offset + len[i]
    ensures len[i] > 0 ==> HEADER_BYTES <= sh[i].offset && sh[i].offset + len[i] <= shoff
    ensures sh[i].kind == SHT_REL ==> i < |sh| - 1 && len[i] == sh[i].size
    ensures i == |sh| - 1 ==> sh[i].offset + len[i] == shoff && len[i] > 0
  {
    hide Chained, Clear, Distinct;
    assert len[i] > 0 ==> End(sh, len, i) <= shoff;
  }

  lemma TwoTiles(sh: seq<Shdr>, len: seq<nat>, shoff: int, i: nat, j: nat)
    requires Tiles(sh, len, shoff) && i < |sh| && j < |sh| && len[i] > 0
    ensures !(sh[i].offset < sh[j].offset < sh[i].offset + len[i])
    ensures i != j && len[j] > 0 ==> sh[i].offset != sh[j].offset
  {
    hide Chained, Inside;
    assert End(sh, len, i) == sh[i].offset + len[i];
  }

  lemma NextTile(sh: seq<Shdr>, len: seq<nat>, shoff: int, i: nat) returns (j: nat)
    requires Tiles(sh, len, shoff) && i < |sh| && len[i] > 0 && sh[i].offset + len[i] != shoff
    ensures j < |sh| && len[j] > 0 && sh[j].offset == sh[i].offset + len[i]
  {
    hide Clear, Distinct, Inside;
    assert End(sh, len, i) == sh[i].offset + len[i];
    j :| 0 <= j < |sh| && len[j] > 0 && sh[j].offset == End(sh, len, i);
  }

  lemma AboveAt(sh: seq<Shdr>, len: seq<nat>, shoff: int, i: nat)
    requires Loadable(sh, len, shoff) && i < |sh| - 1 && sh[i].kind != SHT_REL && |sh| == |len| && len[i] > 0
    ensures sh[i].offset < sh[i + 1].offset
  {
    assert sh[i].size > 0 by {
      hide NextAbove;
      LayoutFacts(sh, len, shoff, i);
    }
    hide Layout;
  }

  /** A non-empty section other than the last ends below the section headers. */
  lemma NotTheLastTile(sh: seq<Shdr>, len: seq<nat>, shoff: int, i: nat)
    requires Layout(sh, len, shoff) && i < |sh| - 1 && |sh| == |len| && len[i] > 0
    ensures Tiles(sh, len, shoff) && sh[i].offset + len[i] != shoff
  {
    hide *;
    TilesOfLayout(sh, len, shoff);
    LayoutFacts(sh, len, shoff, i);
    LayoutFacts(sh, len, shoff, |sh| - 1);
    TwoTiles(sh, len, shoff, i, |sh| - 1);
    TwoTiles(sh, len, shoff, |sh| - 1, i);
  }

  /** Under the layout, the search finds the section that starts where section i ends. */
  lemma NextIsEnd(sh: seq<Shdr>, len: seq<nat>, shoff: int, i: nat)
    requires Loadable(sh, len, shoff) && i < |sh| - 1 && |sh| == |len| && len[i] > 0 && sh[i].kind != SHT_REL
    ensures sh[NextFrom(sh, i, 0, i + 1)].offset == sh[i].offset + len[i]
  {
    hide *;
    LoadableFacts(sh, len, shoff);
    AboveAt(sh, len, shoff, i);
    NotTheLastTile(sh, len, shoff, i);
    var j := NextTile(sh, len, shoff, i);
    NextFromIsLeast(sh, i, 0, i + 1);
    var v := NextFrom(sh, i, 0, i + 1);
    TwoTiles(sh, len, shoff, i, v);
    assert sh[v].offset <= sh[j].offset;
  }

  lemma MinusIs(a: word, b: word)
    requires b <= a
    ensures Minus(a, b) == a - b
  {
  }

  /** The size loadSectionContent computes is the section's extent. */
  lemma LoadedSizeIsExtent(sh: seq<Shdr>, len: seq<nat>, shoff: word, i: nat)
    requires Loadable(sh, len, shoff) && i < |sh| == |len| && len[i] > 0
    ensures LoadedSize(sh, shoff, i) == len[i]
  {
    hide Loadable, Layout, NextFrom, Minus;
    LoadableFacts(sh, len, shoff);
    LayoutFacts(sh, len, shoff, i);
    hide Tiles, Clear, LastEnds;
    if i == |sh| - 1 {
      MinusIs(shoff, sh[i].offset);
    } else if sh[i].kind != SHT_REL {
      NextIsEnd(sh, len, shoff, i);
      MinusIs(sh[NextFrom(sh, i, 0, i + 1)].offset, sh[i].offset);
    }
  }

  lemma ExtentLoaded(file: seq<byte>, sh: seq<Shdr>, len: seq<nat>, shoff: word, i: nat)
    requires Loadable(sh, len, shoff) && i < |sh| && shoff <= |file|
    ensures |sh| == |len| && (len[i] > 0 ==> End(sh, len, i) <= |file|)
    ensures ContentOf(file, sh, shoff, i) == Some(if len[i] > 0 then file[sh[i].offset..End(sh, len, i)] else [])
  {
    hide Loadable, Layout, LoadedSize, Tiles, Clear, LastEnds;
    LoadableFacts(sh, len, shoff);
    LayoutFacts(sh, len, shoff, i);
    if len[i] > 0 {
      LoadedSizeIsExtent(sh, len, shoff, i);
    }
  }

  lemma {:induction false} ContentsLoaded(file: seq<byte>, sh: seq<Shdr>, len: seq<nat>, shoff: word,
                                          parts: seq<seq<byte>>, n: nat)
    requires Loadable(sh, len, shoff) && Sizes(parts, len) && CutFrom(file, sh, len, parts) && shoff <= |file|
    requires n <= |sh|
    ensures |parts| == |sh| && ContentsUpTo(file, sh, shoff, n) == Some(parts[..n])
  {
    hide ContentOf, Loadable;
    if n > 0 {
      ContentsLoaded(file, sh, len, shoff, parts, n - 1);
      PieceOf(file, sh, len, parts, n - 1);
      ExtentLoaded(file, sh, len, shoff, n - 1);
      hide CutFrom, Sizes;
      assert parts[..n] == parts[..n - 1] + [parts[n - 1]];
      assert len[n - 1] == 0 ==> parts[n - 1] == [];
    }
  }

  // ---- The symbol table

  /** What loading the symbols of a file cut into parts gives. */
  function SymbolsIn(sh: seq<Shdr>, parts: seq<seq<byte>>): (int, seq<Sym>)
    requires |sh| == |parts|
  {
    var i := FirstSymtab(sh, 0);
    if i == |sh| then (-1, [])
    else if |parts[i]| % SYMBOL_BYTES == 0 then
      (|parts[i]| / SYMBOL_BYTES, DecodeSyms(parts[i], |parts[i]| / SYMBOL_BYTES))
    else (0, [])
  }

  lemma SymtabFacts(sh: seq<Shdr>, len: seq<nat>, shoff: int, i: nat)
    requires Layout(sh, len, shoff) && i < |sh| && sh[i].kind == SHT_SYMTAB
    ensures |sh| == |len| && len[i] == sh[i].size && len[i] % SYMBOL_BYTES == 0 && FirstSymtab(sh, 0) == i
  {
    LayoutFacts(sh, len, shoff, i);
    hide Tiles, LastEnds;
    var k := FirstSymtab(sh, 0);
    assert k <= i && sh[k].kind == SHT_SYMTAB;
  }

  lemma SymbolsLoaded(file: seq<byte>, sh: seq<Shdr>, len: seq<nat>, shoff: word, parts: seq<seq<byte>>)
    requires Layout(sh, len, shoff) && Sizes(parts, len) && CutFrom(file, sh, len, parts) && shoff <= |file|
    ensures |sh| == |parts| && ParseSymbols(file, sh) == Some(SymbolsIn(sh, parts))
  {
    hide Layout, Sizes, DecodeSyms;
    var i := FirstSymtab(sh, 0);
    if i < |sh| {
      SymtabFacts(sh, len, shoff, i);
      PieceOf(file, sh, len, parts, i);
      LayoutFacts(sh, len, shoff, i);
      hide CutFrom, FirstSymtab;
      assert SYMBOL_BYTES * (len[i] / SYMBOL_BYTES) == len[i];
      assert len[i] == 0 ==> DecodeSyms(parts[i], 0) == [];
    }
  }

  // ---- Whole files

  /** A file whose sections tile it and can be found by the loader. */
  ghost predicate WellFormed(file: seq<byte>) {
    match ParseHeader(file)
    case None => false
    case Some(h) =>
      h.shentsize == SECTION_BYTES &&
      match ParseSections(file, h)
      case None => false
      case Some(sh) => exists len :: Loadable(sh, len, h.shoff)
  }

  /** What is in memory agrees with the layout len: contents and printed parts have the sections' extents. */
  ghost predicate Sound(e: Elf, len: seq<nat>) {
    && Shaped(e) && Layout(e.sections, len, e.header.shoff)
    && e.header.ident[..4] == MAGIC && e.header.ident[4] == 1 && e.header.shentsize == SECTION_BYTES
    && Sizes(e.contents, len) && Sizes(Parts(e), len)
    && (e.nb == -1 <==> FirstSymtab(e.sections, 0) == |e.sections|)
  }

  /** The pieces of a file that the extents cut out. */
  function Cut(file: seq<byte>, sh: seq<Shdr>, len: seq<nat>): (parts: seq<seq<byte>>)
    requires |sh| == |len| && forall i | 0 <= i < |sh| && len[i] > 0 :: sh[i].offset + len[i] <= |file|
    ensures Sizes(parts, len) && CutFrom(file, sh, len, parts)
  {
    seq(|sh|, i requires 0 <= i < |sh| => if len[i] > 0 then file[sh[i].offset..sh[i].offset + len[i]] else [])
  }

  lemma LoadIs(file: seq<byte>, h: Ehdr, sh: seq<Shdr>, len: seq<nat>, parts: seq<seq<byte>>)
    requires ParseHeader(file) == Some(h) && ParseSections(file, h) == Some(sh) && h.shoff <= |file|
    requires Loadable(sh, len, h.shoff) && Sizes(parts, len) && CutFrom(file, sh, len, parts)
    ensures |sh| == |parts|
    ensures Load(file) == Some(Elf(h, sh, SymbolsIn(sh, parts).0, SymbolsIn(sh, parts).1, parts))
  {
    hide ParseHeader, ParseSections, ParseSymbols, ContentsUpTo, SymbolsIn, Loadable, Layout, Sizes, CutFrom;
    LoadableFacts(sh, len, h.shoff);
    SymbolsLoaded(file, sh, len, h.shoff, parts);
    ContentsLoaded(file, sh, len, h.shoff, parts, |sh|);
    assert parts[..|sh|] == parts;
  }

  /** A loaded structure prints exactly the parts it was loaded from. */
  lemma LoadedParts(h: Ehdr, sh: seq<Shdr>, len: seq<nat>, parts: seq<seq<byte>>)
    requires Layout(sh, len, h.shoff) && Sizes(parts, len) && |sh| == |parts| == h.shnum
    ensures var e := Elf(h, sh, SymbolsIn(sh, parts).0, SymbolsIn(sh, parts).1, parts);
            Shaped(e) && Parts(e) == parts && (e.nb == -1 <==> FirstSymtab(sh, 0) == |sh|)
  {
    hide Layout, DecodeSyms, EncodeSyms, FirstSymtab;
    var e := Elf(h, sh, SymbolsIn(sh, parts).0, SymbolsIn(sh, parts).1, parts);
    forall i | 0 <= i < |sh|
      ensures Part(e, i) == parts[i]
    {
      if sh[i].kind == SHT_SYMTAB {
        SymtabFacts(sh, len, h.shoff, i);
        SymsBytesRoundTrip(parts[i], |parts[i]| / SYMBOL_BYTES);
      }
    }
    assert Parts(e) == parts;
  }

  lemma HeaderParsed(file: seq<byte>, h: Ehdr)
    requires ParseHeader(file) == Some(h)
    ensures |file| >= HEADER_BYTES && EncodeHeader(h) == file[..HEADER_BYTES]
    ensures h.ident[..4] == MAGIC && h.ident[4] == 1
  {
    hide EncodeHeader;
    EncodeDecodeHeader(file[..HEADER_BYTES]);
    assert h.ident == file[..HEADER_BYTES][0..16] == file[..16];
    assert file[..16][..4] == file[..4];
  }

  lemma SectionsParsed(file: seq<byte>, h: Ehdr, sh: seq<Shdr>)
    requires ParseSections(file, h) == Some(sh) && sh != []
    ensures |sh| == h.shnum && h.shoff + SECTION_BYTES * h.shnum <= |file|
    ensures EncodeSections(sh) == file[h.shoff..h.shoff + SECTION_BYTES * h.shnum]
  {
    hide EncodeSections, DecodeSections;
    SectionsBytesRoundTrip(file[h.shoff..h.shoff + SECTION_BYTES * h.shnum], h.shnum);
  }

  lemma EndsInside(file: seq<byte>, sh: seq<Shdr>, len: seq<nat>, shoff: int)
    requires Layout(sh, len, shoff) && shoff <= |file|
    ensures |sh| == |len| > 0 && forall i | 0 <= i < |sh| && len[i] > 0 :: sh[i].offset + len[i] <= |file|
  {
    hide Chained, Clear, Distinct, Exact;
    assert forall i | 0 <= i < |sh| :: End(sh, len, i) == sh[i].offset + len[i];
  }

  /** Loading a well-formed file: the extents, and the structure built from the pieces they cut out. */
  lemma LoadWellFormed(file: seq<byte>) returns (len: seq<nat>)
    requires WellFormed(file)
    ensures Load(file).Some?
    ensures var e := Load(file).value;
            && Sound(e, len) && Loadable(e.sections, len, e.header.shoff)
            && CutFrom(file, e.sections, len, e.contents) && Parts(e) == e.contents
            && |e.sections| == e.header.shnum && e.header.shoff + SECTION_BYTES * e.header.shnum <= |file|
            && EncodeHeader(e.header) == file[..HEADER_BYTES]
            && EncodeSections(e.sections) == file[e.header.shoff..e.header.shoff + SECTION_BYTES * e.header.shnum]
  {
    hide ParseHeader, ParseSections, Loadable, Layout, CutFrom, Sizes, EncodeHeader, EncodeSections, SymbolsIn, Parts, Load;
    var h, sh := ParseHeader(file).value, ParseSections(file, ParseHeader(file).value).value;
    len :| Loadable(sh, len, h.shoff);
    LoadableFacts(sh, len, h.shoff);
    NonEmpty(sh, len, h.shoff);
    HeaderParsed(file, h);
    SectionsParsed(file, h, sh);
    EndsInside(file, sh, len, h.shoff);
    var parts := Cut(file, sh, len);
    LoadIs(file, h, sh, len, parts);
    LoadedParts(h, sh, len, parts);
  }

  lemma NonEmpty(sh: seq<Shdr>, len: seq<nat>, shoff: int)
    requires Layout(sh, len, shoff)
    ensures sh != []
  {
  }

  /** Copying is byte exact, whatever order qsort gives to sections at equal offsets. */
  lemma CopyIsExact(file: seq<byte>, order: seq<nat>)
    requires WellFormed(file)
    requires Load(file).Some? ==> IsOrder(Load(file).value.sections, order)
    ensures Load(file).Some?
    ensures var e := Load(file).value;
            && Shaped(e) && |order| == |e.sections| && InRange(order, |e.sections|)
            && e.header.shoff + SECTION_BYTES * e.header.shnum <= |file|
            && Written(e, order) == file[..e.header.shoff + SECTION_BYTES * e.header.shnum]
  {
    hide *;
    var len := LoadWellFormed(file);
    var e := Load(file).value;
    var n, shoff := |order|, e.header.shoff;
    SoundFacts(e, len);
    TilesOfLayout(e.sections, len, shoff);
    Shapes(e.sections, len, shoff, order, e.contents);
    JoinedCopies(e.sections, len, shoff, order, e.contents, file, n);
    PrintedAll(e.sections, len, shoff, order, e.contents);
    WrittenIs(e, order);
    Assemble(file, HEADER_BYTES, shoff, shoff + SECTION_BYTES * e.header.shnum);
  }

  lemma Assemble(file: seq<byte>, a: nat, b: nat, c: nat)
    requires a <= b <= c <= |file|
    ensures file[..a] + file[a..b] + file[b..c] == file[..c]
  {
  }

  lemma SoundFacts(e: Elf, len: seq<nat>)
    requires Sound(e, len)
    ensures Shaped(e) && |e.sections| == |e.contents| == |len| == e.header.shnum && Layout(e.sections, len, e.header.shoff)
    ensures Sizes(e.contents, len) && |Parts(e)| == |e.sections| && Sizes(Parts(e), len)
  {
  }

  lemma SoundIdent(e: Elf, len: seq<nat>)
    requires Sound(e, len)
    ensures e.header.ident[..4] == MAGIC && e.header.ident[4] == 1 && e.header.shentsize == SECTION_BYTES
    ensures e.nb == -1 <==> FirstSymtab(e.sections, 0) == |e.sections|
  {
  }

  lemma WrittenIs(e: Elf, order: seq<nat>)
    requires |e.sections| == |e.contents| == |Parts(e)| == |order| && InRange(order, |e.sections|)
    ensures Written(e, order) == EncodeHeader(e.header) + Joined(Parts(e), order, |order|) + EncodeSections(e.sections)
  {
  }

  lemma TilesOfLayout(sh: seq<Shdr>, len: seq<nat>, shoff: int)
    requires Layout(sh, len, shoff)
    ensures |sh| == |len| && Tiles(sh, len, shoff) && HEADER_BYTES <= shoff
  {
    LayoutFacts(sh, len, shoff, |sh| - 1);
  }

  // ---- Which files with a layout load

  lemma {:induction false} NextFromStuck(sh: seq<Shdr>, i: nat, j: nat, val: nat)
    requires i < |sh| && j <= |sh| && val < |sh| && sh[val].offset <= sh[i].offset
    ensures NextFrom(sh, i, j, val) == val
    decreases |sh| - j
  {
    if j < |sh| {
      NextFromStuck(sh, i, j + 1, val);
    }
  }

  /** When the section after i in the table does not lie above it, the size computed is zero or negative. */
  lemma NothingAboveFails(file: seq<byte>, sh: seq<Shdr>, len: seq<nat>, shoff: word, i: nat)
    requires Layout(sh, len, shoff) && i < |sh| - 1 && sh[i].size > 0 && sh[i].kind != SHT_REL
    requires sh[i + 1].offset <= sh[i].offset
    ensures ContentOf(file, sh, shoff, i) == None
  {
    hide Layout;
    LayoutFacts(sh, len, shoff, i);
    NextFromStuck(sh, i, 0, i + 1);
  }

  /** Among the files with a layout, those load in which each non-empty section that is not a relocation section is
      followed in the table by one at a higher offset; the others make loadSectionContent give up. */
  lemma LoadsIff(file: seq<byte>, h: Ehdr, sh: seq<Shdr>, len: seq<nat>)
    requires ParseHeader(file) == Some(h) && ParseSections(file, h) == Some(sh) && h.shentsize == SECTION_BYTES
    requires Layout(sh, len, h.shoff)
    ensures |sh| == |len| && (Load(file).Some? <==> NextAbove(sh))
  {
    hide *;
    TilesOfLayout(sh, len, h.shoff);
    if NextAbove(sh) {
      LoadableIs(sh, len, h.shoff);
      WellFormedBy(file, h, sh, len);
      var _ := LoadWellFormed(file);
    } else {
      var i := NothingAbove(sh);
      NothingAboveFails(file, sh, len, h.shoff, i);
      ContentsFail(file, sh, h.shoff, i, |sh|);
      LoadNeedsContents(file, h, sh);
    }
  }

  lemma LoadableIs(sh: seq<Shdr>, len: seq<nat>, shoff: int)
    requires Layout(sh, len, shoff) && NextAbove(sh)
    ensures Loadable(sh, len, shoff)
  {
  }

  lemma NothingAbove(sh: seq<Shdr>) returns (i: nat)
    requires !NextAbove(sh)
    ensures i < |sh| - 1 && sh[i].size > 0 && sh[i].kind != SHT_REL && sh[i + 1].offset <= sh[i].offset
  {
    i :| 0 <= i < |sh| - 1 && sh[i].size > 0 && sh[i].kind != SHT_REL && sh[i + 1].offset <= sh[i].offset;
  }

  lemma LoadNeedsContents(file: seq<byte>, h: Ehdr, sh: seq<Shdr>)
    requires ParseHeader(file) == Some(h) && ParseSections(file, h) == Some(sh)
    requires ContentsUpTo(file, sh, h.shoff, |sh|) == None
    ensures Load(file) == None
  {
    hide ParseHeader, ParseSections, ParseSymbols, ContentsUpTo;
  }

  // ---- Reading back what was written

  lemma WrittenHeader(e: Elf, rest: seq<byte>)
    requires e.header.ident[..4] == MAGIC && e.header.ident[4] == 1
    ensures ParseHeader(EncodeHeader(e.header) + rest) == Some(e.header)
  {
    var h := EncodeHeader(e.header);
    DecodeEncodeHeader(e.header);
    assert h[..16] == e.header.ident;
    hide EncodeHeader, DecodeHeader;
    assert (h + rest)[..HEADER_BYTES] == h && (h + rest)[..4] == h[..16][..4] && (h + rest)[4] == h[..16][4];
  }

  lemma WrittenSections(before: seq<byte>, h: Ehdr, sh: seq<Shdr>)
    requires |before| == h.shoff && |sh| == h.shnum
    ensures ParseSections(before + EncodeSections(sh), h) == Some(sh)
  {
    hide EncodeSections, DecodeSections;
    SectionsRoundTrip(sh);
    Tail(before, EncodeSections(sh));
  }

  lemma Tail(a: seq<byte>, b: seq<byte>)
    ensures (a + b)[|a|..|a| + |b|] == b
  {
  }

  lemma WrittenParts(e: Elf, len: seq<nat>, order: seq<nat>, i: nat)
    requires Sound(e, len) && IsOrder(e.sections, order) && i < |e.sections| && len[i] > 0
    ensures |order| == |e.sections| && InRange(order, |e.sections|) && e.sections[i].offset + len[i] <= e.header.shoff
    ensures |Written(e, order)| == e.header.shoff + SECTION_BYTES * |e.sections|
    ensures Written(e, order)[e.sections[i].offset..e.sections[i].offset + len[i]] == Parts(e)[i]
  {
    hide *;
    SoundFacts(e, len);
    var sh, shoff, parts := e.sections, e.header.shoff, Parts(e);
    TilesOfLayout(sh, len, shoff);
    Shapes(sh, len, shoff, order, parts);
    TileFacts(sh, len, shoff, i);
    PrintedInPlace(sh, len, shoff, order, parts, i);
    WrittenIs(e, order);
    Inner(EncodeHeader(e.header), Joined(parts, order, |order|), EncodeSections(sh), sh[i].offset, sh[i].offset + len[i]);
  }

  lemma Inner(a: seq<byte>, b: seq<byte>, c: seq<byte>, lo: nat, hi: nat)
    requires |a| <= lo <= hi <= |a| + |b|
    ensures (a + b + c)[lo..hi] == b[lo - |a|..hi - |a|]
  {
  }

  lemma WrittenCut(e: Elf, len: seq<nat>, order: seq<nat>)
    requires Sound(e, len) && IsOrder(e.sections, order)
    ensures |e.sections| == |e.contents| == |order| && InRange(order, |e.sections|)
    ensures CutFrom(Written(e, order), e.sections, len, Parts(e))
  {
    hide Sound, IsOrder, Written, Sizes, Parts, Layout, Tiles, InRange, Shaped;
    SoundFacts(e, len);
    TilesOfLayout(e.sections, len, e.header.shoff);
    Shapes(e.sections, len, e.header.shoff, order, Parts(e));
    forall i | 0 <= i < |e.sections| && len[i] > 0
      ensures End(e.sections, len, i) <= |Written(e, order)|
      ensures Parts(e)[i] == Written(e, order)[e.sections[i].offset..End(e.sections, len, i)]
    {
      WrittenParts(e, len, order, i);
    }
  }

  lemma SymbolsReadBack(e: Elf, len: seq<nat>)
    requires Sound(e, len)
    ensures |Parts(e)| == |e.sections| && SymbolsIn(e.sections, Parts(e)) == (e.nb, e.symbols)
  {
    hide Layout, Sizes, FirstSymtab, EncodeSyms, DecodeSyms;
    var i := FirstSymtab(e.sections, 0);
    if i < |e.sections| {
      assert Parts(e)[i] == EncodeSyms(e.symbols);
      SymsRoundTrip(e.symbols);
      hide Parts;
    }
  }

  lemma WrittenParses(e: Elf, len: seq<nat>, order: seq<nat>)
    requires Sound(e, len) && IsOrder(e.sections, order)
    ensures |e.sections| == |e.contents| == |order| && InRange(order, |e.sections|)
    ensures var out := Written(e, order);
            e.header.shoff <= |out| && ParseHeader(out) == Some(e.header) && ParseSections(out, e.header) == Some(e.sections)
  {
    hide *;
    SoundFacts(e, len);
    SoundIdent(e, len);
    var sh, shoff, parts := e.sections, e.header.shoff, Parts(e);
    TilesOfLayout(sh, len, shoff);
    Shapes(sh, len, shoff, order, parts);
    PrintedAll(sh, len, shoff, order, parts);
    WrittenIs(e, order);
    var out, h, j, s := Written(e, order), EncodeHeader(e.header), Joined(parts, order, |order|), EncodeSections(sh);
    assert out == h + (j + s) == (h + j) + s;
    WrittenHeader(e, j + s);
    WrittenSections(h + j, e.header, sh);
  }

  /** What is written for a sound structure loads as that structure, the symbol table's content being refreshed
      from the symbols. */
  lemma ReadBack(e: Elf, len: seq<nat>, order: seq<nat>)
    requires Sound(e, len) && Loadable(e.sections, len, e.header.shoff) && IsOrder(e.sections, order)
    ensures |e.sections| == |e.contents| == |order| && InRange(order, |e.sections|)
    ensures Load(Written(e, order)) == Some(e.(contents := Parts(e))) && WellFormed(Written(e, order))
  {
    hide *;
    SoundFacts(e, len);
    SoundIdent(e, len);
    WrittenParses(e, len, order);
    WrittenCut(e, len, order);
    LoadIs(Written(e, order), e.header, e.sections, len, Parts(e));
    SymbolsReadBack(e, len);
    WellFormedBy(Written(e, order), e.header, e.sections, len);
  }

  lemma WellFormedBy(file: seq<byte>, h: Ehdr, sh: seq<Shdr>, len: seq<nat>)
    requires ParseHeader(file) == Some(h) && ParseSections(file, h) == Some(sh) && h.shentsize == SECTION_BYTES
    requires Loadable(sh, len, h.shoff)
    ensures WellFormed(file)
  {
    hide ParseHeader, ParseSections, Loadable;
  }
}
