/** Deleting relocation sections keeps the layout, and renames what refers to the others. */
module ElfDelete {
  import opened Bytes
  import opened Wrappers
  import opened ElfTypes
  import opened ElfSpec
  import opened ElfLayout
  import opened ElfCopy

  /** Index before the deletion of section i of what is section k after it. */
  function Old(k: nat, i: nat): nat {
    if k < i then k else k + 1
  }

  /** Offset x after s bytes at o are gone. */
  function Shift(x: int, o: int, s: int): int {
    if x > o then x - s else x
  }

  // ---- One deletion keeps the layout

  /** No section starts inside a relocation section, so no offset wraps when it goes. */
  lemma NothingInside(sh: seq<Shdr>, len: seq<nat>, shoff: int, i: nat, x: nat)
    requires Layout(sh, len, shoff) && i < |sh| && sh[i].kind == SHT_REL && x < |sh|
    ensures |sh| == |len| && i < |sh| - 1 && len[i] == sh[i].size
    ensures sh[x].offset <= sh[i].offset || sh[x].offset >= sh[i].offset + sh[i].size
  {
    hide Layout;
    LayoutFacts(sh, len, shoff, i);
    TilesOfLayout(sh, len, shoff);
    if len[i] > 0 {
      TwoTiles(sh, len, shoff, i, x);
    }
  }

  /** A relocation section with contents is followed directly by another section. */
  lemma Follower(sh: seq<Shdr>, len: seq<nat>, shoff: int, i: nat) returns (j: nat)
    requires Layout(sh, len, shoff) && i < |sh| && sh[i].kind == SHT_REL && |sh| == |len| && len[i] > 0
    ensures j < |sh| && j != i && len[j] > 0 && sh[j].offset == sh[i].offset + sh[i].size
    ensures sh[i].offset + sh[i].size < shoff
  {
    hide Layout;
    LayoutFacts(sh, len, shoff, i);
    LayoutFacts(sh, len, shoff, |sh| - 1);
    TilesOfLayout(sh, len, shoff);
    TwoTiles(sh, len, shoff, i, |sh| - 1);
    TwoTiles(sh, len, shoff, |sh| - 1, i);
    j := NextTile(sh, len, shoff, i);
  }

  /** The sections after the deletion, seen from before. */
  ghost predicate Deleted(sh: seq<Shdr>, len: seq<nat>, i: nat, sh': seq<Shdr>, len': seq<nat>) {
    && |sh| == |len| && i < |sh| && |sh'| == |len'| == |sh| - 1
    && forall k | 0 <= k < |sh'| ::
      && len'[k] == len[Old(k, i)] && sh'[k].kind == sh[Old(k, i)].kind && sh'[k].size == sh[Old(k, i)].size
      && sh'[k].offset == Shift(sh[Old(k, i)].offset, sh[i].offset, sh[i].size)
  }

  lemma DeletedAt(sh: seq<Shdr>, len: seq<nat>, i: nat, sh': seq<Shdr>, len': seq<nat>, k: nat)
    requires Deleted(sh, len, i, sh', len') && k < |sh'|
    ensures |sh'| == |len'| == |sh| - 1 == |len| - 1 && Old(k, i) < |sh| && Old(k, i) != i
    ensures len'[k] == len[Old(k, i)] && sh'[k].kind == sh[Old(k, i)].kind && sh'[k].size == sh[Old(k, i)].size
    ensures sh'[k].offset == Shift(sh[Old(k, i)].offset, sh[i].offset, sh[i].size)
  {
  }

  lemma DeletedShape(sh: seq<Shdr>, len: seq<nat>, i: nat, sh': seq<Shdr>, len': seq<nat>)
    requires Deleted(sh, len, i, sh', len')
    ensures |sh'| == |len'| == |sh| - 1 == |len| - 1 && i < |sh|
  {
  }

  /** A section other than i is still there. */
  lemma SurvivesAs(sh: seq<Shdr>, len: seq<nat>, i: nat, sh': seq<Shdr>, len': seq<nat>, x: nat) returns (k: nat)
    requires Deleted(sh, len, i, sh', len') && x < |sh| && x != i
    ensures k < |sh'| == |len'| && Old(k, i) == x
  {
    k := if x < i then x else x - 1;
  }

  lemma StillInside(sh: seq<Shdr>, len: seq<nat>, shoff: int, i: nat, sh': seq<Shdr>, len': seq<nat>, k: nat)
    requires Layout(sh, len, shoff) && Deleted(sh, len, i, sh', len') && sh[i].kind == SHT_REL && k < |sh'|
    ensures |sh'| == |len'| && (len'[k] == 0 <==> sh'[k].size == 0) && sh'[k].offset < 0x8000_0000
    ensures len'[k] > 0 ==> HEADER_BYTES <= sh'[k].offset && sh'[k].offset + len'[k] <= shoff - sh[i].size
  {
    DeletedAt(sh, len, i, sh', len', k);
    var x := Old(k, i);
    LayoutFacts(sh, len, shoff, i);
    LayoutFacts(sh, len, shoff, x);
    SmallOffset(sh, len, shoff, x);
    TilesOfLayout(sh, len, shoff);
    NothingInside(sh, len, shoff, i, x);
    hide Layout, Tiles, Deleted;
    if len[i] > 0 && len[x] > 0 {
      TwoTiles(sh, len, shoff, i, x);
      TwoTiles(sh, len, shoff, x, i);
    }
  }

  lemma SmallOffset(sh: seq<Shdr>, len: seq<nat>, shoff: int, x: nat)
    requires Layout(sh, len, shoff) && x < |sh|
    ensures sh[x].offset < 0x8000_0000 && |sh| == |len|
  {
    hide Inside, Clear, Distinct, Chained, Exact, LastEnds;
  }

  lemma StillClear(sh: seq<Shdr>, len: seq<nat>, shoff: int, i: nat, sh': seq<Shdr>, len': seq<nat>, k: nat, j: nat)
    requires Layout(sh, len, shoff) && Deleted(sh, len, i, sh', len') && sh[i].kind == SHT_REL && k < |sh'| && j < |sh'|
    ensures |sh'| == |len'|
    ensures len'[k] > 0 ==> !(sh'[k].offset < sh'[j].offset < sh'[k].offset + len'[k])
    ensures k != j && len'[k] > 0 && len'[j] > 0 ==> sh'[k].offset != sh'[j].offset
  {
    DeletedAt(sh, len, i, sh', len', k);
    DeletedAt(sh, len, i, sh', len', j);
    var x, y := Old(k, i), Old(j, i);
    LayoutFacts(sh, len, shoff, i);
    TilesOfLayout(sh, len, shoff);
    NothingInside(sh, len, shoff, i, x);
    NothingInside(sh, len, shoff, i, y);
    hide Layout, Tiles, Deleted;
    if len[x] > 0 {
      TwoTiles(sh, len, shoff, x, y);
      TwoTiles(sh, len, shoff, x, i);
      if len[i] > 0 {
        TwoTiles(sh, len, shoff, i, x);
        TwoTiles(sh, len, shoff, i, y);
      }
    }
  }

  /** Where a non-empty section started, one starts still: itself, or the follower of the deleted one. */
  lemma StillStarts(sh: seq<Shdr>, len: seq<nat>, shoff: int, i: nat, sh': seq<Shdr>, len': seq<nat>, j: nat)
    requires Layout(sh, len, shoff) && Deleted(sh, len, i, sh', len') && sh[i].kind == SHT_REL
    requires j < |sh| && len[j] > 0
    ensures |sh'| == |len'| && Starts(sh', len', Shift(sh[j].offset, sh[i].offset, sh[i].size))
  {
    LayoutFacts(sh, len, shoff, i);
    var target := j;
    if j == i {
      target := Follower(sh, len, shoff, i);
    }
    var k := SurvivesAs(sh, len, i, sh', len', target);
    DeletedAt(sh, len, i, sh', len', k);
    hide Layout, Deleted;
    assert len'[k] > 0 && sh'[k].offset == Shift(sh[j].offset, sh[i].offset, sh[i].size);
  }

  lemma StillChained(sh: seq<Shdr>, len: seq<nat>, shoff: int, i: nat, sh': seq<Shdr>, len': seq<nat>, k: nat)
    requires Layout(sh, len, shoff) && Deleted(sh, len, i, sh', len') && sh[i].kind == SHT_REL && k < |sh'| == |len'| && len'[k] > 0
    ensures sh'[k].offset + len'[k] == shoff - sh[i].size || Starts(sh', len', sh'[k].offset + len'[k])
  {
    DeletedAt(sh, len, i, sh', len', k);
    var x, o, s := Old(k, i), sh[i].offset, sh[i].size;
    LayoutFacts(sh, len, shoff, i);
    LayoutFacts(sh, len, shoff, x);
    TilesOfLayout(sh, len, shoff);
    NothingInside(sh, len, shoff, i, x);
    hide Layout, Tiles, Deleted, Starts;
    if len[i] > 0 {
      TwoTiles(sh, len, shoff, x, i);
      TwoTiles(sh, len, shoff, i, x);
      var _ := Follower(sh, len, shoff, i);
    }
    if sh[x].offset + len[x] != shoff {
      var j := NextTile(sh, len, shoff, x);
      StillStarts(sh, len, shoff, i, sh', len', j);
      NothingInside(sh, len, shoff, i, j);
    }
  }

  lemma AllInside(sh: seq<Shdr>, len: seq<nat>, shoff: int, i: nat, sh': seq<Shdr>, len': seq<nat>)
    requires Layout(sh, len, shoff) && Deleted(sh, len, i, sh', len') && sh[i].kind == SHT_REL
    ensures |sh'| == |len'| && Inside(sh', len', shoff - sh[i].size)
    ensures forall k | 0 <= k < |sh'| :: sh'[k].offset < 0x8000_0000
  {
    DeletedShape(sh, len, i, sh', len');
    hide Layout, Deleted;
    forall k: nat | k < |sh'|
      ensures (len'[k] == 0 <==> sh'[k].size == 0) && sh'[k].offset < 0x8000_0000
      ensures len'[k] > 0 ==> HEADER_BYTES <= sh'[k].offset && End(sh', len', k) <= shoff - sh[i].size
    {
      StillInside(sh, len, shoff, i, sh', len', k);
    }
  }

  lemma AllClear(sh: seq<Shdr>, len: seq<nat>, shoff: int, i: nat, sh': seq<Shdr>, len': seq<nat>)
    requires Layout(sh, len, shoff) && Deleted(sh, len, i, sh', len') && sh[i].kind == SHT_REL
    ensures |sh'| == |len'| && Clear(sh', len') && Distinct(sh', len')
  {
    DeletedShape(sh, len, i, sh', len');
    hide Layout, Deleted;
    forall k: nat, j: nat | k < |sh'| && j < |sh'|
      ensures len'[k] > 0 ==> !(sh'[k].offset < sh'[j].offset < End(sh', len', k))
      ensures k != j && len'[k] > 0 && len'[j] > 0 ==> sh'[k].offset != sh'[j].offset
    {
      StillClear(sh, len, shoff, i, sh', len', k, j);
    }
  }

  lemma AllChained(sh: seq<Shdr>, len: seq<nat>, shoff: int, i: nat, sh': seq<Shdr>, len': seq<nat>)
    requires Layout(sh, len, shoff) && Deleted(sh, len, i, sh', len') && sh[i].kind == SHT_REL
    ensures |sh'| == |len'| && Chained(sh', len', shoff - sh[i].size)
  {
    DeletedShape(sh, len, i, sh', len');
    StillFromHeader(sh, len, shoff, i, sh', len');
    hide Layout, Deleted, Starts;
    forall k: nat | k < |sh'| && len'[k] > 0
      ensures End(sh', len', k) == shoff - sh[i].size || Starts(sh', len', End(sh', len', k))
    {
      StillChained(sh, len, shoff, i, sh', len', k);
    }
  }

  lemma StillTiles(sh: seq<Shdr>, len: seq<nat>, shoff: int, i: nat, sh': seq<Shdr>, len': seq<nat>)
    requires Layout(sh, len, shoff) && Deleted(sh, len, i, sh', len') && sh[i].kind == SHT_REL
    ensures Tiles(sh', len', shoff - sh[i].size)
  {
    hide *;
    DeletedShape(sh, len, i, sh', len');
    LayoutFacts(sh, len, shoff, i);
    TilesOfLayout(sh, len, shoff);
    AllInside(sh, len, shoff, i, sh', len');
    AllClear(sh, len, shoff, i, sh', len');
    AllChained(sh, len, shoff, i, sh', len');
    TilesAre(sh', len', shoff - sh[i].size);
  }

  lemma TilesAre(sh: seq<Shdr>, len: seq<nat>, shoff: int)
    requires |sh| == |len| && 0 <= shoff < 0x8000_0000
    requires forall i | 0 <= i < |sh| :: sh[i].offset < 0x8000_0000
    requires Inside(sh, len, shoff) && Clear(sh, len) && Distinct(sh, len) && Chained(sh, len, shoff)
    ensures Tiles(sh, len, shoff)
  {
  }

  lemma StillFromHeader(sh: seq<Shdr>, len: seq<nat>, shoff: int, i: nat, sh': seq<Shdr>, len': seq<nat>)
    requires Layout(sh, len, shoff) && Deleted(sh, len, i, sh', len') && sh[i].kind == SHT_REL
    ensures |sh'| == |len'| && Starts(sh', len', HEADER_BYTES)
  {
    LayoutFacts(sh, len, shoff, i);
    var j :| 0 <= j < |sh| && len[j] > 0 && sh[j].offset == HEADER_BYTES;
    StillStarts(sh, len, shoff, i, sh', len', j);
  }

  lemma StillExact(sh: seq<Shdr>, len: seq<nat>, i: nat, sh': seq<Shdr>, len': seq<nat>)
    requires Deleted(sh, len, i, sh', len') && Exact(sh, len)
    ensures |sh'| == |len'| && Exact(sh', len')
  {
    forall k: nat | k < |sh'|
      ensures len'[k] == len[Old(k, i)] && sh'[k].kind == sh[Old(k, i)].kind && sh'[k].size == sh[Old(k, i)].size
    {
      DeletedAt(sh, len, i, sh', len', k);
    }
    hide Deleted;
  }

  lemma StillLast(sh: seq<Shdr>, len: seq<nat>, shoff: int, i: nat, sh': seq<Shdr>, len': seq<nat>)
    requires Layout(sh, len, shoff) && Deleted(sh, len, i, sh', len') && sh[i].kind == SHT_REL
    ensures |sh'| == |len'| && LastEnds(sh', len', shoff - sh[i].size)
  {
    hide Layout, Tiles, Deleted;
    var n := |sh| - 1;
    DeletedShape(sh, len, i, sh', len');
    LayoutFacts(sh, len, shoff, i);
    LastFacts(sh, len, shoff);
    DeletedAt(sh, len, i, sh', len', n - 1);
    TilesOfLayout(sh, len, shoff);
    if len[i] > 0 {
      TwoTiles(sh, len, shoff, i, n);
      TwoTiles(sh, len, shoff, n, i);
    }
  }

  lemma LastFacts(sh: seq<Shdr>, len: seq<nat>, shoff: int)
    requires Layout(sh, len, shoff)
    ensures |sh| == |len| && LastEnds(sh, len, shoff)
  {
  }

  /** Deleting a relocation section leaves sections that tile the shorter file. */
  lemma LayoutKept(sh: seq<Shdr>, len: seq<nat>, shoff: int, i: nat, sh': seq<Shdr>, len': seq<nat>)
    requires Layout(sh, len, shoff) && Deleted(sh, len, i, sh', len') && sh[i].kind == SHT_REL
    ensures Layout(sh', len', shoff - sh[i].size)
  {
    hide Deleted, Tiles, Exact, LastEnds;
    StillTiles(sh, len, shoff, i, sh', len');
    StillLast(sh, len, shoff, i, sh', len');
    StillExact(sh, len, i, sh', len');
  }

  // ---- Which section follows, relocation sections aside

  /** y is the first section behind x that stays. */
  predicate NextKept(sh: seq<Shdr>, x: nat, y: nat) {
    && x < y < |sh| && sh[x].kind != SHT_REL && sh[y].kind != SHT_REL
    && forall z | x < z < y :: sh[z].kind == SHT_REL
  }

  /** Each non-empty section that stays is followed in the table, relocation sections aside, by one at a higher offset. */
  ghost predicate KeptAbove(sh: seq<Shdr>) {
    forall x: nat, y: nat | NextKept(sh, x, y) && sh[x].size > 0 :: sh[x].offset < sh[y].offset
  }

  /** A deletion does not change on which side of a non-empty section another one starts. */
  lemma StillAbove(sh: seq<Shdr>, len: seq<nat>, shoff: int, i: nat, sh': seq<Shdr>, len': seq<nat>, k: nat, j: nat)
    requires Layout(sh, len, shoff) && Deleted(sh, len, i, sh', len') && sh[i].kind == SHT_REL
    requires k < |sh'| && j < |sh'| && sh'[k].size > 0
    ensures Old(k, i) < |sh| && Old(j, i) < |sh|
    ensures sh'[k].offset < sh'[j].offset <==> sh[Old(k, i)].offset < sh[Old(j, i)].offset
  {
    hide *;
    DeletedShape(sh, len, i, sh', len');
    DeletedAt(sh, len, i, sh', len', k);
    DeletedAt(sh, len, i, sh', len', j);
    var x, y := Old(k, i), Old(j, i);
    TilesOfLayout(sh, len, shoff);
    LayoutFacts(sh, len, shoff, i);
    LayoutFacts(sh, len, shoff, x);
    NothingInside(sh, len, shoff, i, x);
    NothingInside(sh, len, shoff, i, y);
    ShiftIs(sh[x].offset, sh[i].offset, sh[i].size);
    ShiftIs(sh[y].offset, sh[i].offset, sh[i].size);
    TwoTiles(sh, len, shoff, x, i);
  }

  lemma ShiftIs(x: int, o: int, s: int)
    ensures Shift(x, o, s) == if x > o then x - s else x
  {
  }

  lemma NextKeptSame(sh: seq<Shdr>, len: seq<nat>, i: nat, sh': seq<Shdr>, len': seq<nat>, k: nat, j: nat)
    requires Deleted(sh, len, i, sh', len') && sh[i].kind == SHT_REL
    ensures NextKept(sh', k, j) <==> NextKept(sh, Old(k, i), Old(j, i))
  {
    forall z: nat | z < |sh'|
      ensures sh'[z].kind == sh[Old(z, i)].kind
    {
    }
    hide Deleted;
    if NextKept(sh', k, j) {
      forall z | Old(k, i) < z < Old(j, i)
        ensures sh[z].kind == SHT_REL
      {
        if z != i {
          var z' := if z < i then z else z - 1;
          assert sh'[z'].kind == sh[Old(z', i)].kind;
        }
      }
    }
    if NextKept(sh, Old(k, i), Old(j, i)) {
      forall z | k < z < j
        ensures sh'[z].kind == SHT_REL
      {
        assert sh'[z].kind == sh[Old(z, i)].kind;
      }
    }
  }

  lemma KeptAboveAt(sh: seq<Shdr>, x: nat, y: nat)
    requires KeptAbove(sh) && NextKept(sh, x, y) && sh[x].size > 0
    ensures sh[x].offset < sh[y].offset
  {
  }

  /** A deletion neither makes nor breaks it. */
  lemma KeptAboveSame(sh: seq<Shdr>, len: seq<nat>, shoff: int, i: nat, sh': seq<Shdr>, len': seq<nat>)
    requires Layout(sh, len, shoff) && Deleted(sh, len, i, sh', len') && sh[i].kind == SHT_REL
    ensures KeptAbove(sh') <==> KeptAbove(sh)
  {
    DeletedShape(sh, len, i, sh', len');
    hide Layout, Deleted;
    if KeptAbove(sh) {
      forall k: nat, j: nat | NextKept(sh', k, j) && sh'[k].size > 0
        ensures sh'[k].offset < sh'[j].offset
      {
        NextKeptSame(sh, len, i, sh', len', k, j);
        DeletedAt(sh, len, i, sh', len', k);
        hide KeptAbove, NextKept;
        KeptAboveAt(sh, Old(k, i), Old(j, i));
        StillAbove(sh, len, shoff, i, sh', len', k, j);
      }
    }
    if KeptAbove(sh') {
      forall x: nat, y: nat | NextKept(sh, x, y) && sh[x].size > 0
        ensures sh[x].offset < sh[y].offset
      {
        assert x != i && y != i;
        var k := SurvivesAs(sh, len, i, sh', len', x);
        var j := SurvivesAs(sh, len, i, sh', len', y);
        NextKeptSame(sh, len, i, sh', len', k, j);
        DeletedAt(sh, len, i, sh', len', k);
        hide KeptAbove, NextKept;
        KeptAboveAt(sh', k, j);
        StillAbove(sh, len, shoff, i, sh', len', k, j);
      }
    }
  }

  /** When no relocation section is left, it is what the loader needs. */
  lemma KeptAboveIsNext(sh: seq<Shdr>)
    requires NoRel(sh, |sh|)
    ensures KeptAbove(sh) <==> NextAbove(sh)
  {
    assert forall x: nat, y: nat | NextKept(sh, x, y) :: y == x + 1 by {
      forall x: nat, y: nat | NextKept(sh, x, y)
        ensures y == x + 1
      {
        var z := x + 1;
        assert sh[z].kind != SHT_REL;
      }
    }
    if KeptAbove(sh) {
      forall i | 0 <= i < |sh| - 1 && sh[i].size > 0
        ensures sh[i].offset < sh[i + 1].offset
      {
        assert NextKept(sh, i, i + 1);
      }
    }
  }

  // ---- Deleting every relocation section

  ghost predicate NoRel(sh: seq<Shdr>, n: nat)
    requires n <= |sh|
  {
    forall k | 0 <= k < n :: sh[k].kind != SHT_REL
  }

  lemma AdjustedAt(e: Elf, i: nat, k: nat)
    requires Shaped(e) && i < |e.sections| && k < |e.sections| - 1
    ensures Old(k, i) < |e.sections| == |e.contents| && |DeleteAt(e, i).sections| == |e.sections| - 1
    ensures DeleteAt(e, i).sections[k] == Adjust(e.sections[Old(k, i)], e.sections[i], i)
    ensures |DeleteAt(e, i).contents| == |e.sections| - 1 && DeleteAt(e, i).contents[k] == e.contents[Old(k, i)]
  {
  }

  lemma RemovedAt<T>(s: seq<T>, i: nat, k: nat)
    requires i < |s| && k < |s| - 1
    ensures Old(k, i) < |s| && Remove(s, i)[k] == s[Old(k, i)]
  {
  }

  lemma AdjustedShape(e: Elf, i: nat)
    requires Shaped(e) && i < |e.sections|
    ensures |DeleteAt(e, i).sections| == |DeleteAt(e, i).contents| == |e.sections| - 1 == |e.contents| - 1
    ensures DeleteAt(e, i).header == e.header.(shnum := e.header.shnum - 1,
                                               shoff := Minus(e.header.shoff, e.sections[i].size),
                                               shstrndx := if e.header.shstrndx > i then e.header.shstrndx - 1 else e.header.shstrndx)
    ensures DeleteAt(e, i).nb == e.nb && |DeleteAt(e, i).symbols| == |e.symbols|
    ensures forall l | 0 <= l < |e.symbols| :: DeleteAt(e, i).symbols[l] == Renumber(e.symbols[l], i)
  {
  }

  lemma DeleteAtIsDeleted(e: Elf, len: seq<nat>, i: nat)
    requires Sound(e, len) && i < |e.sections| && e.sections[i].kind == SHT_REL
    ensures i < |len| && Shaped(e) && Deleted(e.sections, len, i, DeleteAt(e, i).sections, Remove(len, i))
    ensures e.sections[i].size <= e.header.shoff && DeleteAt(e, i).header.shoff == e.header.shoff - e.sections[i].size
  {
    hide Sound, DeleteAt, Layout, Remove, Minus;
    SoundFacts(e, len);
    LayoutFacts(e.sections, len, e.header.shoff, i);
    AdjustedShape(e, i);
    MinusIs(e.header.shoff, e.sections[i].size);
    forall k: nat | k < |e.sections| - 1
      ensures var h := DeleteAt(e, i).sections[k];
              && Remove(len, i)[k] == len[Old(k, i)] && h.kind == e.sections[Old(k, i)].kind
              && h.size == e.sections[Old(k, i)].size
              && h.offset == Shift(e.sections[Old(k, i)].offset, e.sections[i].offset, e.sections[i].size)
    {
      RemovedAt(len, i, k);
      AdjustedAt(e, i, k);
      NothingInside(e.sections, len, e.header.shoff, i, Old(k, i));
      if e.sections[Old(k, i)].offset > e.sections[i].offset {
        MinusIs(e.sections[Old(k, i)].offset, e.sections[i].size);
      }
    }
    assert |Remove(len, i)| == |len| - 1;
  }

  lemma PartsKept(e: Elf, len: seq<nat>, i: nat)
    requires Sound(e, len) && i < |e.sections|
    ensures Shaped(e) && i < |len| && Sizes(DeleteAt(e, i).contents, Remove(len, i))
    ensures |DeleteAt(e, i).sections| == |DeleteAt(e, i).contents| && Sizes(Parts(DeleteAt(e, i)), Remove(len, i))
  {
    hide Sound, Layout, DeleteAt, Remove, Parts, EncodeSyms, Minus, Renumber, Linked;
    SoundFacts(e, len);
    AdjustedShape(e, i);
    forall k: nat | k < |e.sections| - 1
      ensures |DeleteAt(e, i).contents[k]| == Remove(len, i)[k] == |Parts(DeleteAt(e, i))[k]|
    {
      RemovedAt(len, i, k);
      AdjustedAt(e, i, k);
      assert |Parts(e)[Old(k, i)]| == len[Old(k, i)];
    }
  }

  lemma SymtabSome(sh: seq<Shdr>)
    ensures FirstSymtab(sh, 0) == |sh| <==> forall k | 0 <= k < |sh| :: sh[k].kind != SHT_SYMTAB
  {
  }

  lemma SymtabKept(e: Elf, i: nat)
    requires Shaped(e) && i < |e.sections| && e.sections[i].kind == SHT_REL
    ensures FirstSymtab(DeleteAt(e, i).sections, 0) == |DeleteAt(e, i).sections| <==> FirstSymtab(e.sections, 0) == |e.sections|
  {
    hide FirstSymtab, DeleteAt;
    var sh' := DeleteAt(e, i).sections;
    SymtabSome(e.sections);
    SymtabSome(sh');
    AdjustedShape(e, i);
    forall k: nat | k < |sh'|
      ensures sh'[k].kind == e.sections[Old(k, i)].kind
    {
      AdjustedAt(e, i, k);
    }
    forall x: nat | x < |e.sections| && e.sections[x].kind == SHT_SYMTAB
      ensures exists k | 0 <= k < |sh'| :: sh'[k].kind == SHT_SYMTAB
    {
      var k := if x < i then x else x - 1;
      assert sh'[k].kind == SHT_SYMTAB;
    }
  }

  /** One round of deleteRel keeps memory in agreement with a layout. */
  lemma SoundKept(e: Elf, len: seq<nat>, i: nat)
    requires Sound(e, len) && i < |e.sections| && e.sections[i].kind == SHT_REL
    ensures Shaped(e) && i < |len| && Sound(DeleteAt(e, i), Remove(len, i))
  {
    hide *;
    SoundFacts(e, len);
    SoundIdent(e, len);
    DeleteAtIsDeleted(e, len, i);
    PartsKept(e, len, i);
    SymtabKept(e, i);
    AdjustedShape(e, i);
    LayoutKept(e.sections, len, e.header.shoff, i, DeleteAt(e, i).sections, Remove(len, i));
    SoundIs(DeleteAt(e, i), Remove(len, i));
  }

  lemma SoundIs(e: Elf, len: seq<nat>)
    requires Shaped(e) && |e.sections| == |e.contents| && Layout(e.sections, len, e.header.shoff)
    requires e.header.ident[..4] == MAGIC && e.header.ident[4] == 1 && e.header.shentsize == SECTION_BYTES
    requires Sizes(e.contents, len) && Sizes(Parts(e), len)
    requires e.nb == -1 <==> FirstSymtab(e.sections, 0) == |e.sections|
    ensures Sound(e, len)
  {
  }

  lemma {:induction false} DeleteFromSound(e: Elf, len: seq<nat>, i: nat) returns (len': seq<nat>)
    requires Sound(e, len) && i <= |e.sections| && NoRel(e.sections, i)
    ensures Shaped(e) && Sound(DeleteFrom(e, i), len') && NoRel(DeleteFrom(e, i).sections, |DeleteFrom(e, i).sections|)
    ensures KeptAbove(DeleteFrom(e, i).sections) <==> KeptAbove(e.sections)
    decreases |e.sections| - i
  {
    hide Sound, DeleteAt, Remove, KeptAbove, Layout, Deleted;
    SoundFacts(e, len);
    if i == |e.sections| {
      len' := len;
    } else if e.sections[i].kind == SHT_REL {
      SoundKept(e, len, i);
      AdjustedShape(e, i);
      DeleteAtIsDeleted(e, len, i);
      KeptAboveSame(e.sections, len, e.header.shoff, i, DeleteAt(e, i).sections, Remove(len, i));
      forall k: nat | k < i
        ensures DeleteAt(e, i).sections[k].kind != SHT_REL
      {
        AdjustedAt(e, i, k);
      }
      len' := DeleteFromSound(DeleteAt(e, i), Remove(len, i), i);
    } else {
      len' := DeleteFromSound(e, len, i + 1);
    }
  }

  /** What is written after deleteRel loads again exactly when, in the original table, each non-empty section that stays
      lies below the next one that stays. Then it loads as what is in memory, the content of the symbol table section
      being its symbols', and it is again a well-formed file. */
  lemma DeleteThenReadBack(file: seq<byte>, order: seq<nat>)
    requires WellFormed(file)
    requires Load(file).Some? && Shaped(Load(file).value) ==> IsOrder(DeleteRel(Load(file).value).sections, order)
    ensures Load(file).Some? && Shaped(Load(file).value)
    ensures var e := DeleteRel(Load(file).value);
            && |e.sections| == |e.contents| == |order| && InRange(order, |e.sections|)
            && NoRel(e.sections, |e.sections|)
            && (Load(Written(e, order)).Some? <==> KeptAbove(Load(file).value.sections))
            && (KeptAbove(Load(file).value.sections) ==>
              Load(Written(e, order)) == Some(e.(contents := Parts(e))) && WellFormed(Written(e, order)))
  {
    hide *;
    var len := LoadWellFormed(file);
    var e := Load(file).value;
    SoundFacts(e, len);
    NoRelAtFirst(e.sections);
    var len' := DeleteFromSound(e, len, 0);
    DeleteRelIs(e);
    var r := DeleteRel(e);
    SoundFacts(r, len');
    SoundIdent(r, len');
    KeptAboveIsNext(r.sections);
    WrittenParses(r, len', order);
    LoadsIff(Written(r, order), r.header, r.sections, len');
    if KeptAbove(e.sections) {
      LoadableIs(r.sections, len', r.header.shoff);
      ReadBack(r, len', order);
    }
  }

  lemma NoRelAtFirst(sh: seq<Shdr>)
    ensures NoRel(sh, 0)
  {
  }

  lemma DeleteRelIs(e: Elf)
    requires Shaped(e)
    ensures DeleteRel(e) == DeleteFrom(e, 0)
  {
  }
}
