/** What the ELF functions compute: parsing a file, printing it, deleting its relocation sections. */
module ElfSpec {
  import opened Bytes
  import opened Wrappers
  import opened ElfTypes

  /** Elf32_Main. nb is -1 when there is no symbol table. */
  datatype Elf = Elf(header: Ehdr, sections: seq<Shdr>, nb: int, symbols: seq<Sym>, contents: seq<seq<byte>>)

  // ---- Loading

  const MAGIC: seq<byte> := [0x7f, 'E' as int, 'L' as int, 'F' as int]

  /** loadHeader, for files of class 1. */
  function ParseHeader(file: seq<byte>): Option<Ehdr> {
    if |file| < HEADER_BYTES || file[..4] != MAGIC || file[4] != 1 then None else Some(DecodeHeader(file[..HEADER_BYTES]))
  }

  function ParseSections(file: seq<byte>, h: Ehdr): Option<seq<Shdr>> {
    var size := SECTION_BYTES * h.shnum;
    if h.shnum == 0 then Some([])
    else if h.shoff + size > |file| then None
    else Some(DecodeSections(file[h.shoff..h.shoff + size], h.shnum))
  }

  /** Index of the first symbol table from i on, or |sh|. */
  function FirstSymtab(sh: seq<Shdr>, i: nat): (k: nat)
    requires i <= |sh|
    ensures i <= k <= |sh|
    ensures forall j | i <= j < k :: sh[j].kind != SHT_SYMTAB
    ensures k < |sh| ==> sh[k].kind == SHT_SYMTAB
    decreases |sh| - i
  {
    if i == |sh| || sh[i].kind == SHT_SYMTAB then i else FirstSymtab(sh, i + 1)
  }

  function ParseSymbols(file: seq<byte>, sh: seq<Shdr>): (r: Option<(int, seq<Sym>)>)
    ensures r.Some? ==> (r.value.0 == -1 && r.value.1 == []) || r.value.0 == |r.value.1|
  {
    var i := FirstSymtab(sh, 0);
    if i == |sh| then Some((-1, []))
    else
      var n := sh[i].size / SYMBOL_BYTES;
      if n == 0 then Some((0, []))
      else if sh[i].offset + SYMBOL_BYTES * n > |file| then None
      else Some((n as int, DecodeSyms(file[sh[i].offset..sh[i].offset + SYMBOL_BYTES * n], n)))
  }

  // The relocation tables

  /** The entries in use of the table of relocation counts. */
  const MAX_REL_TABLES: nat := 256

  /** What loadRelocTable comes to: the tables, a failed read, or a count written behind the table of counts. */
  datatype Relocs = Tables(tables: seq<seq<Rel>>) | Unreadable | Overrun

  /** n relocation entries, two words each. */
  function RelsOf(ws: seq<word>, n: nat): (rs: seq<Rel>)
    requires |ws| == 2 * n
    ensures |rs| == n
  {
    seq(n, j requires 0 <= j < n => Rel(ws[2 * j], ws[2 * j + 1]))
  }

  function RelsAt(file: seq<byte>, offset: word, n: nat): (r: Option<seq<Rel>>)
    ensures r.Some? <==> n == 0 || offset + REL_BYTES * n <= |file|
    ensures r.Some? ==> |r.value| == n
  {
    if n == 0 then Some([])
    else if offset + REL_BYTES * n > |file| then None
    else Some(RelsOf(DecodeWords(file[offset..offset + REL_BYTES * n], 2 * n), n))
  }

  /** loadRelocTable from section i on, behind the tables of the sections before it. */
  function ParseRelocs(file: seq<byte>, sh: seq<Shdr>, i: nat, tables: seq<seq<Rel>>): Relocs
    requires i <= |sh|
    decreases |sh| - i
  {
    if i == |sh| then Tables(tables)
    else if sh[i].kind != SHT_REL then ParseRelocs(file, sh, i + 1, tables)
    else if |tables| >= MAX_REL_TABLES then Overrun
    else match RelsAt(file, sh[i].offset, sh[i].size / REL_BYTES)
      case None => Unreadable
      case Some(rs) => ParseRelocs(file, sh, i + 1, tables + [rs])
  }

  /** An fread of one block into a fresh allocation; sizes are ints, so a negative one fails like an empty one. */
  function Block(file: seq<byte>, offset: word, size: word): Option<seq<byte>> {
    if 0 < size < 0x8000_0000 && offset + size <= |file| then Some(file[offset..offset + size]) else None
  }

  function Minus(a: word, b: word): word {
    (a - b) % 0x1_0000_0000
  }

  /** The inner loop of loadSectionContent from j on. */
  function NextFrom(sh: seq<Shdr>, i: nat, j: nat, val: nat): (v: nat)
    requires i < |sh| && j <= |sh| && val < |sh|
    ensures v < |sh|
    decreases |sh| - j
  {
    if j == |sh| then val
    else NextFrom(sh, i, j + 1, if sh[i].offset < sh[j].offset < sh[val].offset then j else val)
  }

  /** The number of bytes loadSectionContent reads for a non-empty section. */
  function LoadedSize(sh: seq<Shdr>, shoff: word, i: nat): word
    requires i < |sh|
  {
    if i == |sh| - 1 then Minus(shoff, sh[i].offset)
    else if sh[i].kind == SHT_REL then sh[i].size
    else Minus(sh[NextFrom(sh, i, 0, i + 1)].offset, sh[i].offset)
  }

  /** loadSectionContent for one section. */
  function ContentOf(file: seq<byte>, sh: seq<Shdr>, shoff: word, i: nat): Option<seq<byte>>
    requires i < |sh|
  {
    if sh[i].size == 0 then Some([]) else Block(file, sh[i].offset, LoadedSize(sh, shoff, i))
  }

  function ContentsUpTo(file: seq<byte>, sh: seq<Shdr>, shoff: word, n: nat): (r: Option<seq<seq<byte>>>)
    requires n <= |sh|
    ensures r.Some? ==> |r.value| == n
  {
    if n == 0 then Some([])
    else match ContentsUpTo(file, sh, shoff, n - 1)
      case None => None
      case Some(cs) =>
        match ContentOf(file, sh, shoff, n - 1)
        case None => None
        case Some(c) => Some(cs + [c])
  }

  /** loadSectionContent sets the pointer of a section exactly when the section is not empty. */
  predicate PointersSet(sh: seq<Shdr>, isSet: seq<bool>) {
    |isSet| == |sh| && forall k | 0 <= k < |sh| :: isSet[k] <==> sh[k].size != 0
  }

  predicate AllSet(isSet: seq<bool>, i: nat) {
    forall k | i <= k < |isSet| :: isSet[k]
  }

  /** A section from i on that has an unset pointer and is, or stands behind, a relocation section from i on. */
  ghost predicate UnsetBehindRel(sh: seq<Shdr>, isSet: seq<bool>, i: nat)
    requires |isSet| == |sh|
  {
    exists a, k | i <= a <= k < |sh| :: sh[a].kind == SHT_REL && !isSet[k]
  }

  /** A section is empty that is, or stands behind, a relocation section. */
  ghost predicate EmptyBehindRel(sh: seq<Shdr>) {
    exists a, k | 0 <= a <= k < |sh| :: sh[a].kind == SHT_REL && sh[k].size == 0
  }

  predicate NoneEmpty(sh: seq<Shdr>) {
    forall k | 0 <= k < |sh| :: sh[k].size != 0
  }

  /** As loaded, the unset pointers are those of the empty sections. */
  lemma UnsetIsEmpty(sh: seq<Shdr>, isSet: seq<bool>)
    requires PointersSet(sh, isSet)
    ensures |isSet| == |sh| && (UnsetBehindRel(sh, isSet, 0) <==> EmptyBehindRel(sh))
    ensures AllSet(isSet, 0) <==> NoneEmpty(sh)
  {
    if UnsetBehindRel(sh, isSet, 0) {
      var a, k :| 0 <= a <= k < |sh| && sh[a].kind == SHT_REL && !isSet[k];
      assert sh[k].size == 0;
    }
    if EmptyBehindRel(sh) {
      var a, k :| 0 <= a <= k < |sh| && sh[a].kind == SHT_REL && sh[k].size == 0;
      assert !isSet[k];
    }
  }

  /** A section that cannot be read makes the loading of all contents give up. */
  lemma {:induction false} ContentsFail(file: seq<byte>, sh: seq<Shdr>, shoff: word, i: nat, n: nat)
    requires i < n <= |sh| && ContentOf(file, sh, shoff, i) == None
    ensures ContentsUpTo(file, sh, shoff, n) == None
  {
    hide ContentOf;
    if i < n - 1 {
      ContentsFail(file, sh, shoff, i, n - 1);
    }
  }

  /** The header, section headers, symbols and contents of a file; None when one of their loaders gives up. */
  function Load(file: seq<byte>): Option<Elf> {
    match ParseHeader(file)
    case None => None
    case Some(h) =>
      match ParseSections(file, h)
      case None => None
      case Some(sh) =>
        match ParseSymbols(file, sh)
        case None => None
        case Some(y) =>
          match ContentsUpTo(file, sh, h.shoff, |sh|)
          case None => None
          case Some(cs) => Some(Elf(h, sh, y.0, y.1, cs))
  }

  // ---- Writing

  /** An offset as the int field of tempTab holds it. */
  function Signed(v: word): int {
    if v < 0x8000_0000 then v else v - 0x1_0000_0000
  }

  predicate InRange(order: seq<nat>, n: nat) {
    forall m | 0 <= m < |order| :: order[m] < n
  }

  /** An order in which qsort may leave the sections: a permutation by offset, ties in any order. */
  ghost predicate IsOrder(sh: seq<Shdr>, order: seq<nat>) {
    && |order| == |sh|
    && InRange(order, |sh|)
    && (forall m, n | 0 <= m < n < |order| :: order[m] != order[n])
    && (forall i | 0 <= i < |sh| :: i in order)
    && (forall m, n | 0 <= m < n < |order| :: Signed(sh[order[m]].offset) <= Signed(sh[order[n]].offset))
  }

  /** What writeSectionContent prints for section i. */
  function Part(e: Elf, i: nat): seq<byte>
    requires i < |e.sections| == |e.contents|
  {
    if e.sections[i].kind == SHT_SYMTAB then EncodeSyms(e.symbols) else e.contents[i]
  }

  function Parts(e: Elf): (ps: seq<seq<byte>>)
    requires |e.sections| == |e.contents|
    ensures |ps| == |e.sections|
    ensures forall i | 0 <= i < |ps| :: ps[i] == Part(e, i)
  {
    seq(|e.sections|, i requires 0 <= i < |e.sections| => Part(e, i))
  }

  /** The parts of the first k sections of an order, one behind the other. */
  function Joined(parts: seq<seq<byte>>, order: seq<nat>, k: nat): seq<byte>
    requires k <= |order| && InRange(order, |parts|)
  {
    if k == 0 then [] else Joined(parts, order, k - 1) + parts[order[k - 1]]
  }

  /** writeHeader, writeSectionContent and writeSectionHeader on an empty file. */
  function Written(e: Elf, order: seq<nat>): seq<byte>
    requires |e.sections| == |e.contents| && |order| == |e.sections|
    requires InRange(order, |e.sections|)
  {
    EncodeHeader(e.header) + Joined(Parts(e), order, |order|) + EncodeSections(e.sections)
  }

  // ---- Deleting

  predicate Linked(h: Shdr) {
    h.kind == SHT_HASH || h.kind == SHT_DYNAMIC || h.kind == SHT_SYMTAB
  }

  /** A remaining section header after section i, a relocation section rel, is gone. */
  function Adjust(h: Shdr, rel: Shdr, i: nat): Shdr {
    h.(offset := if h.offset > rel.offset then Minus(h.offset, rel.size) else h.offset,
       link := if h.link > i && Linked(h) then h.link - 1 else h.link)
  }

  function Renumber(y: Sym, i: nat): Sym {
    if y.shndx >= i then y.(shndx := (y.shndx - 1) % 0x1_0000) else y
  }

  function Remove<T>(s: seq<T>, i: nat): (r: seq<T>)
    requires i < |s|
    ensures |r| == |s| - 1
    ensures forall k | 0 <= k < i :: r[k] == s[k]
    ensures forall k | i <= k < |r| :: r[k] == s[k + 1]
  {
    s[..i] + s[i + 1..]
  }

  predicate Shaped(e: Elf) {
    && |e.sections| == |e.contents| == e.header.shnum
    && ((e.nb == -1 && e.symbols == []) || e.nb == |e.symbols|)
  }

  /** One round of deleteRel that finds a relocation section at i. */
  function DeleteAt(e: Elf, i: nat): (r: Elf)
    requires Shaped(e) && i < |e.sections|
    ensures Shaped(r) && |r.sections| == |e.sections| - 1
  {
    var rel := e.sections[i];
    var kept := Remove(e.sections, i);
    e.(header := e.header.(shnum := e.header.shnum - 1,
                           shoff := Minus(e.header.shoff, rel.size),
                           shstrndx := if e.header.shstrndx > i then e.header.shstrndx - 1 else e.header.shstrndx),
       sections := seq(|kept|, k requires 0 <= k < |kept| => Adjust(kept[k], rel, i)),
       contents := Remove(e.contents, i),
       symbols := seq(|e.symbols|, l requires 0 <= l < |e.symbols| => Renumber(e.symbols[l], i)))
  }

  /** The rest of deleteRel's loop from section i on. */
  function DeleteFrom(e: Elf, i: nat): (r: Elf)
    requires Shaped(e) && i <= |e.sections|
    ensures Shaped(r)
    decreases |e.sections| - i
  {
    if i == |e.sections| then e
    else if e.sections[i].kind == SHT_REL then DeleteFrom(DeleteAt(e, i), i)
    else DeleteFrom(e, i + 1)
  }

  function DeleteRel(e: Elf): (r: Elf)
    requires Shaped(e)
    ensures Shaped(r)
  {
    DeleteFrom(e, 0)
  }
}
