/** What deleteRel leaves: the other sections, in order, under new indices that every reference follows. */
module ElfRename {
  import opened Bytes
  import opened ElfTypes
  import opened ElfSpec
  import opened ElfLayout
  import opened ElfCopy
  import opened ElfDelete

  predicate IsRel(h: Shdr) {
    h.kind == SHT_REL
  }

  /** How many of the first k sections stay. */
  function CountKept(sh: seq<Shdr>, k: nat): (n: nat)
    requires k <= |sh|
    ensures n <= k
  {
    if k == 0 then 0 else CountKept(sh, k - 1) + (if IsRel(sh[k - 1]) then 0 else 1)
  }

  /** The index that deleteRel leaves a section under; indices beyond the table slide with its end. */
  function NewIndex(sh: seq<Shdr>, x: nat): (y: nat)
    ensures y <= x
  {
    if x <= |sh| then CountKept(sh, x) else CountKept(sh, |sh|) + (x - |sh|)
  }

  /** Bytes held by the relocation sections among the first k whose offset is below x. */
  function RelBytes(sh: seq<Shdr>, x: int, k: nat): nat
    requires k <= |sh|
  {
    if k == 0 then 0
    else RelBytes(sh, x, k - 1) + (if IsRel(sh[k - 1]) && sh[k - 1].offset < x then sh[k - 1].size else 0)
  }

  const EVERYWHERE: int := 0x1_0000_0000

  // ---- New indices

  lemma {:induction false} CountMonotone(sh: seq<Shdr>, j: nat, k: nat)
    requires j <= k <= |sh|
    ensures CountKept(sh, j) <= CountKept(sh, k) <= CountKept(sh, j) + (k - j)
  {
    if j < k {
      CountMonotone(sh, j, k - 1);
    }
  }

  /** Surviving sections keep their order. */
  lemma NewIndexIncreasing(sh: seq<Shdr>, x: nat, y: nat)
    requires x < y < |sh| && !IsRel(sh[x])
    ensures NewIndex(sh, x) < NewIndex(sh, y)
  {
    CountMonotone(sh, x + 1, y);
  }

  /** Every index below the new number of sections is that of some surviving section. */
  lemma {:induction false} Survivor(sh: seq<Shdr>, y: nat, k: nat) returns (x: nat)
    requires k <= |sh| && y < CountKept(sh, k)
    ensures x < k && !IsRel(sh[x]) && NewIndex(sh, x) == y
  {
    if y == CountKept(sh, k - 1) {
      x := k - 1;
    } else {
      x := Survivor(sh, y, k - 1);
    }
  }

  lemma {:induction false} CountAll(sh: seq<Shdr>, k: nat)
    requires k <= |sh|
    ensures CountKept(sh, k) == k <==> NoRel(sh, k)
  {
    if k > 0 {
      CountAll(sh, k - 1);
    }
  }

  lemma NoRelIndex(sh: seq<Shdr>, x: nat)
    requires NoRel(sh, |sh|)
    ensures NewIndex(sh, x) == x
  {
    CountAll(sh, |sh|);
    if x <= |sh| {
      CountAll(sh, x);
    }
  }

  /** An index keeps its value exactly when no relocation section precedes it. */
  lemma IndexStaysIff(sh: seq<Shdr>, x: nat)
    ensures NewIndex(sh, x) == x <==> NoRel(sh, if x <= |sh| then x else |sh|)
  {
    CountAll(sh, if x <= |sh| then x else |sh|);
  }

  // ---- One deletion

  function Down(x: nat, i: nat): nat {
    if x > i then x - 1 else x
  }

  /** sh1 is sh without section i, a relocation section; sizes and kinds of the others are the same. */
  ghost predicate Without(sh: seq<Shdr>, i: nat, sh1: seq<Shdr>) {
    && i < |sh| && IsRel(sh[i]) && |sh1| == |sh| - 1
    && forall k | 0 <= k < |sh1| :: sh1[k].kind == sh[Old(k, i)].kind && sh1[k].size == sh[Old(k, i)].size
  }

  lemma {:induction false} CountWithout(sh: seq<Shdr>, i: nat, sh1: seq<Shdr>, k: nat)
    requires Without(sh, i, sh1) && k <= |sh1|
    ensures CountKept(sh1, k) == CountKept(sh, Old(k, i))
  {
    if k == 0 {
      assert i == 0 ==> CountKept(sh, 1) == 0;
    } else {
      CountWithout(sh, i, sh1, k - 1);
      assert CountKept(sh, Old(k - 1, i) + 1) == CountKept(sh1, k);
    }
  }

  lemma IndexWithout(sh: seq<Shdr>, i: nat, sh1: seq<Shdr>, x: nat)
    requires Without(sh, i, sh1)
    ensures NewIndex(sh1, Down(x, i)) == NewIndex(sh, x)
  {
    CountWithout(sh, i, sh1, |sh1|);
    if x <= |sh| {
      CountWithout(sh, i, sh1, Down(x, i));
      assert Old(Down(x, i), i) == if x == i then i + 1 else x;
      assert CountKept(sh, i + 1) == CountKept(sh, i);
    }
  }

  lemma DeletedWithout(e: Elf, i: nat)
    requires Shaped(e) && i < |e.sections| && IsRel(e.sections[i])
    ensures Without(e.sections, i, DeleteAt(e, i).sections)
  {
    hide DeleteAt;
    AdjustedShape(e, i);
    forall k: nat | k < |e.sections| - 1
      ensures DeleteAt(e, i).sections[k].kind == e.sections[Old(k, i)].kind
      ensures DeleteAt(e, i).sections[k].size == e.sections[Old(k, i)].size
    {
      AdjustedAt(e, i, k);
    }
  }

  lemma NoRelKept(sh: seq<Shdr>, i: nat, sh1: seq<Shdr>)
    requires Without(sh, i, sh1) && NoRel(sh, i)
    ensures NoRel(sh1, i)
  {
  }

  /** How the sum over relocation sections changes when the moved offsets compare with x1 as the old ones with x. */
  lemma {:induction false} BytesWithout(sh: seq<Shdr>, i: nat, sh1: seq<Shdr>, x: int, x1: int, k: nat)
    requires Without(sh, i, sh1) && k <= |sh1|
    requires forall j | 0 <= j < |sh1| && IsRel(sh1[j]) && sh1[j].size > 0 ::
      sh1[j].offset < x1 <==> sh[Old(j, i)].offset < x
    ensures RelBytes(sh, x, Old(k, i))
      == RelBytes(sh1, x1, k) + (if k >= i && sh[i].offset < x then sh[i].size else 0)
  {
    if k == 0 {
      assert i == 0 ==> RelBytes(sh, x, 1) == if sh[0].offset < x then sh[0].size else 0;
    } else {
      BytesWithout(sh, i, sh1, x, x1, k - 1);
      var here := if IsRel(sh1[k - 1]) && sh1[k - 1].offset < x1 then sh1[k - 1].size else 0;
      assert RelBytes(sh1, x1, k) == RelBytes(sh1, x1, k - 1) + here;
      assert RelBytes(sh, x, Old(k - 1, i) + 1) == RelBytes(sh, x, Old(k - 1, i)) + here;
    }
  }

  lemma AllBytesWithout(sh: seq<Shdr>, i: nat, sh1: seq<Shdr>)
    requires Without(sh, i, sh1)
    ensures RelBytes(sh, EVERYWHERE, |sh|) == RelBytes(sh1, EVERYWHERE, |sh1|) + sh[i].size
  {
    BytesWithout(sh, i, sh1, EVERYWHERE, EVERYWHERE, |sh1|);
  }

  // ---- All deletions: the header

  lemma MinusTwice(a: word, b: word, c: nat)
    ensures (Minus(a, b) - c) % 0x1_0000_0000 == (a - (b + c)) % 0x1_0000_0000
  {
  }

  /** The section count, the place of the section headers and the index of the string table after deleteRel. */
  lemma {:induction false} HeaderRenamed(e: Elf, i: nat)
    requires Shaped(e) && i <= |e.sections| && NoRel(e.sections, i)
    ensures DeleteFrom(e, i).header == e.header.(
              shnum := CountKept(e.sections, |e.sections|),
              shoff := (e.header.shoff - RelBytes(e.sections, EVERYWHERE, |e.sections|)) % 0x1_0000_0000,
              shstrndx := NewIndex(e.sections, e.header.shstrndx))
    decreases |e.sections| - i
  {
    hide DeleteAt, Without, NewIndex, CountKept, RelBytes, Shaped;
    SameLengths(e);
    if i == |e.sections| {
      CountAll(e.sections, i);
      NoRelIndex(e.sections, e.header.shstrndx);
      NoRelBytes(e.sections, EVERYWHERE, i);
    } else if e.sections[i].kind == SHT_REL {
      var e1 := DeleteAt(e, i);
      AdjustedShape(e, i);
      DeletedWithout(e, i);
      NoRelKept(e.sections, i, e1.sections);
      HeaderRenamed(e1, i);
      CountWithout(e.sections, i, e1.sections, |e1.sections|);
      IndexWithout(e.sections, i, e1.sections, e.header.shstrndx);
      AllBytesWithout(e.sections, i, e1.sections);
      MinusTwice(e.header.shoff, e.sections[i].size, RelBytes(e1.sections, EVERYWHERE, |e1.sections|));
    } else {
      HeaderRenamed(e, i + 1);
    }
  }

  lemma SameLengths(e: Elf)
    requires Shaped(e)
    ensures |e.sections| == |e.contents| == e.header.shnum
  {
  }

  lemma {:induction false} NoRelBytes(sh: seq<Shdr>, x: int, k: nat)
    requires k <= |sh| && NoRel(sh, k)
    ensures RelBytes(sh, x, k) == 0
  {
    if k > 0 {
      NoRelBytes(sh, x, k - 1);
    }
  }

  // ---- All deletions: sections

  /** Section x after deleteRel but for its offset. */
  function Renamed(sh: seq<Shdr>, x: nat, offset: word): Shdr
    requires x < |sh|
  {
    sh[x].(offset := offset, link := if Linked(sh[x]) then NewIndex(sh, sh[x].link) else sh[x].link)
  }

  /** A surviving section is found, with its content, under its new index, and its link follows if it is followed. */
  lemma {:induction false} SectionRenamed(e: Elf, i: nat, x: nat)
    requires Shaped(e) && i <= |e.sections| && NoRel(e.sections, i) && x < |e.sections| && !IsRel(e.sections[x])
    ensures var r, y := DeleteFrom(e, i), NewIndex(e.sections, x);
            && y < |r.sections| == |r.contents| && |e.sections| == |e.contents| && r.contents[y] == e.contents[x]
            && r.sections[y] == Renamed(e.sections, x, r.sections[y].offset)
    decreases |e.sections| - i
  {
    hide DeleteAt, Without, NewIndex, CountKept, Shaped;
    SameLengths(e);
    if i == |e.sections| {
      NoRelIndex(e.sections, x);
      NoRelIndex(e.sections, e.sections[x].link);
    } else if e.sections[i].kind == SHT_REL {
      var e1, x1 := DeleteAt(e, i), Down(x, i);
      AdjustedShape(e, i);
      AdjustedAt(e, i, x1);
      DeletedWithout(e, i);
      NoRelKept(e.sections, i, e1.sections);
      SectionRenamed(e1, i, x1);
      IndexWithout(e.sections, i, e1.sections, x);
      IndexWithout(e.sections, i, e1.sections, e.sections[x].link);
    } else {
      SectionRenamed(e, i + 1, x);
    }
  }

  // ---- All deletions: symbols

  lemma RelRemain(sh: seq<Shdr>, x: nat)
    requires x < |sh| && IsRel(sh[x]) && CountKept(sh, x) == 0
    ensures CountKept(sh, |sh|) <= |sh| - x - 1
  {
    CountMonotone(sh, x + 1, |sh|);
  }

  /** The section index of a symbol after deleteRel. One that named a relocation section names the survivor before
      it; when there is none the index wraps below zero. */
  function SymIndex(sh: seq<Shdr>, x: half): (y: half)
    requires |sh| < 0x1_0000
  {
    if x < |sh| && IsRel(sh[x]) then
      if CountKept(sh, x) > 0 then CountKept(sh, x) - 1
      else
        RelRemain(sh, x);
        0xFFFF - (|sh| - x - 1 - CountKept(sh, |sh|))
    else NewIndex(sh, x)
  }

  lemma SymbolNamedIt(sh: seq<Shdr>, i: nat, sh1: seq<Shdr>, y: Sym)
    requires Without(sh, i, sh1) && NoRel(sh, i) && |sh| < 0x1_0000 && y.shndx == i
    ensures |sh1| == |sh| - 1 && SymIndex(sh1, Renumber(y, i).shndx) == SymIndex(sh, y.shndx)
  {
    CountAll(sh, i);
    if i > 0 {
      CountAll(sh, i - 1);
      CountWithout(sh, i, sh1, i - 1);
      hide CountKept, NoRel;
      assert sh1[i - 1].kind == sh[i - 1].kind;
    } else {
      CountWithout(sh, i, sh1, |sh1|);
    }
  }

  lemma SymbolNamedAnother(sh: seq<Shdr>, i: nat, sh1: seq<Shdr>, y: Sym)
    requires Without(sh, i, sh1) && NoRel(sh, i) && |sh| < 0x1_0000 && y.shndx != i
    ensures |sh1| == |sh| - 1 && SymIndex(sh1, Renumber(y, i).shndx) == SymIndex(sh, y.shndx)
  {
    var x, x1 := y.shndx, Down(y.shndx, i);
    assert Renumber(y, i).shndx == x1;
    IndexWithout(sh, i, sh1, x);
    CountWithout(sh, i, sh1, |sh1|);
    if x < |sh| {
      CountWithout(sh, i, sh1, x1);
      assert sh1[x1].kind == sh[x].kind;
    }
  }

  lemma {:induction false} SymbolRenamed(e: Elf, i: nat, l: nat)
    requires Shaped(e) && i <= |e.sections| && NoRel(e.sections, i) && l < |e.symbols|
    ensures |e.sections| < 0x1_0000 && DeleteFrom(e, i).nb == e.nb && |DeleteFrom(e, i).symbols| == |e.symbols|
    ensures DeleteFrom(e, i).symbols[l] == e.symbols[l].(shndx := SymIndex(e.sections, e.symbols[l].shndx))
    decreases |e.sections| - i
  {
    hide DeleteAt, Without, SymIndex, CountKept, Shaped;
    SameLengths(e);
    if i == |e.sections| {
      NoRelSymbol(e.sections, e.symbols[l].shndx);
    } else if e.sections[i].kind == SHT_REL {
      var e1 := DeleteAt(e, i);
      AdjustedShape(e, i);
      DeletedWithout(e, i);
      NoRelKept(e.sections, i, e1.sections);
      SymbolRenamed(e1, i, l);
      if e.symbols[l].shndx == i {
        SymbolNamedIt(e.sections, i, e1.sections, e.symbols[l]);
      } else {
        SymbolNamedAnother(e.sections, i, e1.sections, e.symbols[l]);
      }
    } else {
      SymbolRenamed(e, i + 1, l);
    }
  }

  lemma NoRelSymbol(sh: seq<Shdr>, x: half)
    requires NoRel(sh, |sh|) && |sh| < 0x1_0000
    ensures SymIndex(sh, x) == x
  {
    NoRelIndex(sh, x);
  }

  /** A symbol's index that names a section still names it exactly when that section was not a relocation section;
      a reserved index survives exactly when there was no relocation section at all. */
  lemma SymbolKeepsMeaningIff(sh: seq<Shdr>, x: half)
    requires |sh| < 0x1_0000
    ensures x < |sh| ==> (SymIndex(sh, x) == NewIndex(sh, x) <==> !IsRel(sh[x]))
    ensures x >= |sh| ==> (SymIndex(sh, x) == x <==> NoRel(sh, |sh|))
  {
    IndexStaysIff(sh, x);
    if x < |sh| && IsRel(sh[x]) && CountKept(sh, x) == 0 {
      RelRemain(sh, x);
    }
  }

  // ---- All deletions together

  /** y is the new index of a surviving section. */
  ghost predicate Remains(sh: seq<Shdr>, y: nat) {
    exists x: nat :: x < |sh| && !IsRel(sh[x]) && NewIndex(sh, x) == y
  }

  /** deleteRel keeps the other sections in order, each with its content, and renames them consistently: the string
      table index, the links of hash, dynamic and symbol tables, and the symbols. Nothing else remains. */
  lemma DeleteRelRenames(e: Elf)
    requires Shaped(e)
    ensures var r, sh := DeleteRel(e), e.sections;
            && |sh| == |e.contents| == e.header.shnum && |r.sections| == |r.contents| == CountKept(sh, |sh|)
            && r.header == e.header.(shnum := CountKept(sh, |sh|),
                                     shoff := (e.header.shoff - RelBytes(sh, EVERYWHERE, |sh|)) % 0x1_0000_0000,
                                     shstrndx := NewIndex(sh, e.header.shstrndx))
            && (forall x: nat | x < |sh| && !IsRel(sh[x]) ::
              && NewIndex(sh, x) < |r.sections| && r.contents[NewIndex(sh, x)] == e.contents[x]
              && r.sections[NewIndex(sh, x)] == Renamed(sh, x, r.sections[NewIndex(sh, x)].offset))
            && (forall x: nat, y: nat | x < y < |sh| && !IsRel(sh[x]) :: NewIndex(sh, x) < NewIndex(sh, y))
            && (forall y: nat | y < |r.sections| :: Remains(sh, y))
            && r.nb == e.nb && |r.symbols| == |e.symbols|
            && (forall l | 0 <= l < |e.symbols| :: r.symbols[l] == e.symbols[l].(shndx := SymIndex(sh, e.symbols[l].shndx)))
  {
    hide NewIndex, CountKept, DeleteFrom, RelBytes, Renamed, SymIndex, Shaped;
    SameLengths(e);
    SameLengths(DeleteRel(e));
    NoRelAtFirst(e.sections);
    HeaderRenamed(e, 0);
    SymbolsCounted(e, 0);
    forall x: nat | x < |e.sections| && !IsRel(e.sections[x]) {
      SectionRenamed(e, 0, x);
    }
    forall x: nat, y: nat | x < y < |e.sections| && !IsRel(e.sections[x]) {
      NewIndexIncreasing(e.sections, x, y);
    }
    forall y: nat | y < CountKept(e.sections, |e.sections|)
      ensures Remains(e.sections, y)
    {
      var x := Survivor(e.sections, y, |e.sections|);
    }
    forall l: nat | l < |e.symbols| {
      SymbolRenamed(e, 0, l);
    }
  }

  lemma {:induction false} SymbolsCounted(e: Elf, i: nat)
    requires Shaped(e) && i <= |e.sections|
    ensures DeleteFrom(e, i).nb == e.nb && |DeleteFrom(e, i).symbols| == |e.symbols|
    decreases |e.sections| - i
  {
    hide DeleteAt, Shaped;
    if i < |e.sections| && e.sections[i].kind == SHT_REL {
      AdjustedShape(e, i);
      SymbolsCounted(DeleteAt(e, i), i);
    } else if i < |e.sections| {
      SymbolsCounted(e, i + 1);
    }
  }

  /** Which links follow: those of symbol tables (2), hash tables (5) and dynamic sections (6) name the same section under
      its new index, all others keep their value. Nothing else of a section header changes but its offset. */
  lemma LinksFollow(e: Elf, x: nat)
    requires Shaped(e) && x < |e.sections| && e.sections[x].kind != 9
    ensures var r, sh, y := DeleteRel(e), e.sections, NewIndex(e.sections, x);
            && y < |r.sections|
            && (sh[x].kind == 2 || sh[x].kind == 5 || sh[x].kind == 6 ==> r.sections[y].link == NewIndex(sh, sh[x].link))
            && (sh[x].kind != 2 && sh[x].kind != 5 && sh[x].kind != 6 ==> r.sections[y].link == sh[x].link)
            && r.sections[y] == sh[x].(offset := r.sections[y].offset, link := r.sections[y].link)
  {
    hide NewIndex, DeleteFrom, Shaped;
    NoRelAtFirst(e.sections);
    DeleteRelIs(e);
    SectionRenamed(e, 0, x);
  }

  // ---- Where the sections end up

  /** Offsets after a deletion compare with those of relocation sections as before. */
  lemma SameBelow(e: Elf, len: seq<nat>, i: nat, x: nat, j: nat)
    requires Sound(e, len) && i < |e.sections| && e.sections[i].kind == SHT_REL && x < |e.sections| && x != i
    requires j < |e.sections| - 1 && Old(j, i) < |e.sections| && e.sections[Old(j, i)].kind == SHT_REL && e.sections[Old(j, i)].size > 0
    ensures var sh, o, s := e.sections, e.sections[i].offset, e.sections[i].size;
            Shift(sh[Old(j, i)].offset, o, s) < Shift(sh[x].offset, o, s) <==> sh[Old(j, i)].offset < sh[x].offset
  {
    hide *;
    SoundFacts(e, len);
    var sh, shoff, y := e.sections, e.header.shoff, if j < i then j else j + 1;
    OldIs(j, i);
    TilesOfLayout(sh, len, shoff);
    LayoutFacts(sh, len, shoff, y);
    LayoutFacts(sh, len, shoff, i);
    NothingInside(sh, len, shoff, i, x);
    NothingInside(sh, len, shoff, i, y);
    TwoTiles(sh, len, shoff, y, x);
    TwoTiles(sh, len, shoff, y, i);
    ShiftIs(sh[y].offset, sh[i].offset, sh[i].size);
    ShiftIs(sh[x].offset, sh[i].offset, sh[i].size);
  }

  lemma OldIs(k: nat, i: nat)
    ensures Old(k, i) == if k < i then k else k + 1
  {
  }

  lemma RelIs(h: Shdr)
    ensures IsRel(h) <==> h.kind == SHT_REL
  {
  }

  lemma DownIs(x: nat, i: nat)
    ensures Down(x, i) == if x > i then x - 1 else x
    ensures x != i ==> Old(Down(x, i), i) == x
  {
  }

  lemma DeleteFromIs(e: Elf, i: nat)
    requires Shaped(e) && i <= |e.sections|
    ensures DeleteFrom(e, i) == if i == |e.sections| then e
                                else if e.sections[i].kind == SHT_REL then DeleteFrom(DeleteAt(e, i), i)
                                else DeleteFrom(e, i + 1)
  {
  }

  lemma OneMoreNoRel(sh: seq<Shdr>, i: nat)
    requires i < |sh| && NoRel(sh, i) && sh[i].kind != SHT_REL
    ensures NoRel(sh, i + 1)
  {
  }

  lemma MovedOffset(e: Elf, len: seq<nat>, i: nat, k: nat)
    requires Sound(e, len) && i < |e.sections| && e.sections[i].kind == SHT_REL && k < |e.sections| - 1
    ensures Shaped(e) && Old(k, i) < |e.sections| && |DeleteAt(e, i).sections| == |e.sections| - 1
    ensures DeleteAt(e, i).sections[k].kind == e.sections[Old(k, i)].kind
    ensures DeleteAt(e, i).sections[k].size == e.sections[Old(k, i)].size
    ensures DeleteAt(e, i).sections[k].offset
         == Shift(e.sections[Old(k, i)].offset, e.sections[i].offset, e.sections[i].size)
  {
    hide *;
    SoundFacts(e, len);
    DeleteAtIsDeleted(e, len, i);
    OldIs(k, i);
    DeletedShape(e.sections, len, i, DeleteAt(e, i).sections, Remove(len, i));
    DeletedAt(e.sections, len, i, DeleteAt(e, i).sections, Remove(len, i), k);
  }

  /** A deletion moves section x by what it takes out of the sum of the relocation sections before it. */
  lemma MovedBy(e: Elf, len: seq<nat>, i: nat, x: nat)
    requires Sound(e, len) && i < |e.sections| && e.sections[i].kind == SHT_REL && x < |e.sections| && x != i
    ensures Shaped(e) && Down(x, i) < |DeleteAt(e, i).sections| == |e.sections| - 1
    ensures var sh, sh1 := e.sections, DeleteAt(e, i).sections;
            var o, o1 := sh[x].offset, sh1[Down(x, i)].offset;
            o1 - RelBytes(sh1, o1, |sh1|) == o - RelBytes(sh, o, |sh|)
  {
    hide *;
    SoundFacts(e, len);
    AdjustedShape(e, i);
    RelIs(e.sections[i]);
    DeletedWithout(e, i);
    DownIs(x, i);
    var sh, sh1, x1 := e.sections, DeleteAt(e, i).sections, Down(x, i);
    MovedOffset(e, len, i, x1);
    forall j: nat | j < |sh1| && IsRel(sh1[j]) && sh1[j].size > 0
      ensures Old(j, i) < |sh| && (sh1[j].offset < sh1[x1].offset <==> sh[Old(j, i)].offset < sh[x].offset)
    {
      RelIs(sh1[j]);
      MovedOffset(e, len, i, j);
      SameBelow(e, len, i, x, j);
    }
    BytesWithout(sh, i, sh1, sh[x].offset, sh1[x1].offset, |sh1|);
    OldIs(|sh1|, i);
    ShiftIs(sh[x].offset, sh[i].offset, sh[i].size);
  }

  /** In a file whose sections tile it, deleteRel moves each section down by exactly the relocation bytes before it. */
  lemma {:induction false} SectionMoved(e: Elf, len: seq<nat>, i: nat, x: nat)
    requires Sound(e, len) && i <= |e.sections| && NoRel(e.sections, i) && x < |e.sections| && !IsRel(e.sections[x])
    ensures Shaped(e)
    ensures var r, y, o := DeleteFrom(e, i), NewIndex(e.sections, x), e.sections[x].offset;
            y < |r.sections| && r.sections[y].offset == o - RelBytes(e.sections, o, |e.sections|)
    decreases |e.sections| - i
  {
    hide *;
    SoundFacts(e, len);
    DeleteFromIs(e, i);
    if i == |e.sections| {
      NoRelIndex(e.sections, x);
      NoRelBytes(e.sections, e.sections[x].offset, i);
    } else if e.sections[i].kind == SHT_REL {
      var e1, x1 := DeleteAt(e, i), Down(x, i);
      RelIs(e.sections[i]);
      RelIs(e.sections[x]);
      DownIs(x, i);
      AdjustedShape(e, i);
      MovedOffset(e, len, i, x1);
      RelIs(e1.sections[x1]);
      DeletedWithout(e, i);
      NoRelKept(e.sections, i, e1.sections);
      SoundKept(e, len, i);
      SectionMoved(e1, Remove(len, i), i, x1);
      IndexWithout(e.sections, i, e1.sections, x);
      MovedBy(e, len, i, x);
    } else {
      OneMoreNoRel(e.sections, i);
      SectionMoved(e, len, i + 1, x);
    }
  }

  /** For a well-formed file nothing wraps: each section and the section headers move down by exactly the size of the
      relocation sections in front of them. */
  lemma OffsetsAfterDeleteRel(file: seq<byte>)
    requires WellFormed(file)
    ensures Load(file).Some? && Shaped(Load(file).value)
    ensures var e := Load(file).value;
            var r, sh := DeleteRel(e), e.sections;
            && r.header.shoff == e.header.shoff - RelBytes(sh, EVERYWHERE, |sh|)
            && forall x: nat | x < |sh| && !IsRel(sh[x]) ::
              && NewIndex(sh, x) < |r.sections|
              && r.sections[NewIndex(sh, x)].offset == sh[x].offset - RelBytes(sh, sh[x].offset, |sh|)
  {
    hide *;
    var len := LoadWellFormed(file);
    var e := Load(file).value;
    SoundFacts(e, len);
    NoRelAtFirst(e.sections);
    DeleteRelIs(e);
    TableMoved(e, len, 0);
    forall x: nat | x < |e.sections| && !IsRel(e.sections[x]) {
      SectionMoved(e, len, 0, x);
    }
  }

  lemma {:induction false} TableMoved(e: Elf, len: seq<nat>, i: nat)
    requires Sound(e, len) && i <= |e.sections| && NoRel(e.sections, i)
    ensures Shaped(e) && DeleteFrom(e, i).header.shoff == e.header.shoff - RelBytes(e.sections, EVERYWHERE, |e.sections|)
    decreases |e.sections| - i
  {
    hide *;
    SoundFacts(e, len);
    DeleteFromIs(e, i);
    if i == |e.sections| {
      NoRelBytes(e.sections, EVERYWHERE, i);
    } else if e.sections[i].kind == SHT_REL {
      var e1 := DeleteAt(e, i);
      RelIs(e.sections[i]);
      AdjustedShape(e, i);
      DeletedWithout(e, i);
      NoRelKept(e.sections, i, e1.sections);
      SoundKept(e, len, i);
      DeleteAtIsDeleted(e, len, i);
      TableMoved(e1, Remove(len, i), i);
      AllBytesWithout(e.sections, i, e1.sections);
    } else {
      OneMoreNoRel(e.sections, i);
      TableMoved(e, len, i + 1);
    }
  }
}
