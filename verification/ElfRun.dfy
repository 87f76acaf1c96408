/** The runs of the main program that load a file, change it in memory or not, and write it. */
module ElfRun {
  import opened Bytes
  import opened Wrappers
  import opened ElfTypes
  import opened ElfSpec
  import opened ElfLoad
  import opened ElfMain
  import opened ElfLayout
  import opened ElfCopy
  import opened ElfDelete
  import opened ElfRename

  /** How a run ends: it has its result, it gives up, it writes behind the table of relocation counts, or it hands an
      unset pointer to realloc or free before the result is written. */
  datatype Outcome<+T> = Done(value: T) | GaveUp | Overran | Wild

  /** The loaders in turn. */
  function Loading(file: seq<byte>): Outcome<Elf> {
    match ParseHeader(file)
    case None => GaveUp
    case Some(h) =>
      match ParseSections(file, h)
      case None => GaveUp
      case Some(sh) =>
        match ParseSymbols(file, sh)
        case None => GaveUp
        case Some(y) =>
          match ParseRelocs(file, sh, 0, [])
          case Overrun => Overran
          case Unreadable => GaveUp
          case Tables(_) =>
            match ContentsUpTo(file, sh, h.shoff, |sh|)
            case None => GaveUp
            case Some(cs) => Done(Elf(h, sh, y.0, y.1, cs))
  }

  lemma LoadingIsLoad(file: seq<byte>)
    ensures Loading(file).Done? ==> Load(file) == Some(Loading(file).value)
    ensures Load(file).Some? ==>
              match ParseRelocs(file, Load(file).value.sections, 0, [])
              case Overrun => Loading(file) == Overran
              case Unreadable => Loading(file) == GaveUp
              case Tables(_) => Loading(file) == Done(Load(file).value)
  {
    hide ParseHeader, ParseSections, ParseSymbols, ParseRelocs, ContentsUpTo;
  }

  // ---- How many relocation sections the main program takes

  function CountRel(sh: seq<Shdr>): nat {
    |sh| - CountKept(sh, |sh|)
  }

  /** Relocation sections of a file with a layout can always be read: only their number decides. */
  lemma {:induction false} RelocsFit(file: seq<byte>, sh: seq<Shdr>, len: seq<nat>, shoff: int, i: nat, tables: seq<seq<Rel>>)
    requires Layout(sh, len, shoff) && shoff <= |file| && i <= |sh| && |tables| <= MAX_REL_TABLES
    ensures var r, k := ParseRelocs(file, sh, i, tables), |tables| + (|sh| - i) - (CountKept(sh, |sh|) - CountKept(sh, i));
            if k <= MAX_REL_TABLES then r.Tables? else r.Overrun?
    decreases |sh| - i
  {
    hide Layout, RelsAt;
    if i < |sh| {
      LayoutFacts(sh, len, shoff, i);
      CountMonotone(sh, i + 1, |sh|);
      if sh[i].kind != SHT_REL {
        RelocsFit(file, sh, len, shoff, i + 1, tables);
      } else if |tables| < MAX_REL_TABLES {
        var n := sh[i].size / REL_BYTES;
        RelocsFit(file, sh, len, shoff, i + 1, tables + [RelsAt(file, sh[i].offset, n).value]);
      }
    }
  }

  /** The loaders succeed on a well-formed file exactly when it has at most 256 relocation sections; with more of them
      the counts are written out of their table. */
  lemma LoadingWellFormed(file: seq<byte>)
    requires WellFormed(file)
    ensures Load(file).Some?
    ensures Loading(file) == if CountRel(Load(file).value.sections) <= MAX_REL_TABLES then Done(Load(file).value) else Overran
  {
    hide *;
    var len := LoadWellFormed(file);
    var e := Load(file).value;
    SoundFacts(e, len);
    RelocsFit(file, e.sections, len, e.header.shoff, 0, []);
    LoadingIsLoad(file);
    CountRelIs(e.sections);
  }

  /** The k-th table holds the entries of the k-th relocation section. */
  lemma {:induction false} TablesAre(file: seq<byte>, sh: seq<Shdr>, i: nat, tables: seq<seq<Rel>>, x: nat)
    requires i <= |sh| && ParseRelocs(file, sh, i, tables).Tables?
    requires |tables| == i - CountKept(sh, i) && x < |sh| && sh[x].kind == 9
    ensures var all, k := ParseRelocs(file, sh, i, tables).tables, x - CountKept(sh, x);
            && |tables| <= |all| == CountRel(sh) && all[..|tables|] == tables
            && (i <= x ==> k < |all| && RelsAt(file, sh[x].offset, sh[x].size / 8) == Some(all[k]))
    decreases |sh| - i
  {
    hide RelsAt;
    if i < |sh| {
      if sh[i].kind != SHT_REL {
        TablesAre(file, sh, i + 1, tables, x);
      } else {
        var rs := RelsAt(file, sh[i].offset, sh[i].size / REL_BYTES).value;
        TablesAre(file, sh, i + 1, tables + [rs], x);
        var all := ParseRelocs(file, sh, i, tables).tables;
        assert all[..|tables| + 1][..|tables|] == all[..|tables|];
        assert all[..|tables| + 1][|tables|] == all[|tables|];
      }
    }
  }

  lemma CountRelIs(sh: seq<Shdr>)
    ensures CountRel(sh) == |sh| - CountKept(sh, |sh|) && CountKept(sh, 0) == 0
  {
  }

  // ---- Loading

  method LoadMain(file: seq<byte>) returns (r: Outcome<Main>)
    ensures r.GaveUp? <==> Loading(file).GaveUp?
    ensures r.Overran? <==> Loading(file).Overran?
    ensures !r.Wild? && (r.Done? <==> Loading(file).Done?)
    ensures r.Done? ==>
              && fresh(r.value) && fresh(r.value.sectHeader) && fresh(r.value.symTable) && r.value.Valid()
              && r.value.Abs() == Loading(file).value && r.value.header.ident[4] == 1
              && PointersSet(r.value.Abs().sections, r.value.Pointers())
  {
    hide ParseHeader, ParseSymbols, ParseRelocs, ContentsUpTo, DecodeSections;
    var f := new Input(file);
    var header := f.LoadHeader();
    if header.None? {
      return GaveUp;
    }
    ParsedClass(file);
    var h := header.value;
    var tab := f.LoadTabSectionHeader(h);
    if tab.None? {
      return GaveUp;
    }
    var sh := tab.value[..];
    assert |sh| == h.shnum;
    var symbols := f.LoadSymTable(sh);
    if symbols.None? {
      return GaveUp;
    }
    var tabNb := new nat[MAX_REL_TABLES];
    var relocs := f.LoadRelocTable(sh, tabNb);
    if relocs.Overrun? {
      return Overran;
    } else if relocs.Unreadable? {
      return GaveUp;
    }
    var contents, isSet := f.LoadSectionContent(h, sh);
    if contents.None? {
      return GaveUp;
    }
    var m := new Main(h, tab.value, symbols.value.1, contents.value, isSet, symbols.value.0);
    r := Done(m);
    assert m.Abs().symbols == symbols.value.1[..];
    assert m.Pointers() == isSet;
  }

  // ---- Writing what was loaded

  /** copy is the source file up to the end of the section headers. */
  ghost predicate IsCopy(file: seq<byte>, copy: seq<byte>) {
    && Load(file).Some?
    && var h := Load(file).value.header;
       h.shoff + SECTION_BYTES * h.shnum <= |file| && copy == file[..h.shoff + SECTION_BYTES * h.shnum]
  }

  /** copy loads exactly when no section that stays is followed by one further down; it loads then as what deleteRel
      makes of the source file, the symbol table's content being taken from the symbols, and is well formed. */
  ghost predicate IsStripped(file: seq<byte>, copy: seq<byte>) {
    && Load(file).Some? && Shaped(Load(file).value)
    && var loaded := Load(file).value;
       var e := DeleteRel(loaded);
       && |e.sections| == |e.contents| && NoRel(e.sections, |e.sections|)
       && (Load(copy).Some? <==> KeptAbove(loaded.sections))
       && (KeptAbove(loaded.sections) ==> Load(copy) == Some(e.(contents := Parts(e))) && WellFormed(copy))
  }

  lemma CopyOfWellFormed(file: seq<byte>, order: seq<nat>)
    requires WellFormed(file) && (Load(file).Some? ==> IsOrder(Load(file).value.sections, order))
    ensures Load(file).Some?
    ensures var e := Load(file).value;
            && |order| == |e.sections| == |e.contents| && InRange(order, |e.sections|)
            && IsCopy(file, Written(e, order))
  {
    hide Load, Written, WellFormed, IsOrder;
    CopyIsExact(file, order);
  }

  lemma StrippedWellFormed(file: seq<byte>, order: seq<nat>)
    requires WellFormed(file)
    requires Load(file).Some? && Shaped(Load(file).value) ==> IsOrder(DeleteRel(Load(file).value).sections, order)
    ensures Load(file).Some? && Shaped(Load(file).value)
    ensures var e := DeleteRel(Load(file).value);
            && |order| == |e.sections| == |e.contents| && InRange(order, |e.sections|)
            && IsStripped(file, Written(e, order))
  {
    hide Load, Written, WellFormed, IsOrder, DeleteRel, Parts, NoRel, Shaped, KeptAbove;
    DeleteThenReadBack(file, order);
  }

  /** WriteAll on a new file. */
  method WriteFile(m: Main, order: seq<nat>) returns (bytes: seq<byte>)
    requires m.Valid() && IsOrder(m.Abs().sections, order) && m.header.ident[4] == 1
    ensures |order| == |m.Abs().sections| == |m.Abs().contents| && InRange(order, |order|)
    ensures bytes == Written(m.Abs(), order)
  {
    hide Written, Overwrite, IsOrder;
    var out := new Output();
    m.WriteAll(out, order);
    bytes := out.bytes;
    Fresh(Written(m.Abs(), order));
  }

  /** Option -w: a copy. It is clean when the memory given back at the end was all allocated. */
  method Copy(file: seq<byte>, order: seq<nat>) returns (copy: Outcome<seq<byte>>, clean: bool)
    requires Load(file).Some? ==> IsOrder(Load(file).value.sections, order)
    ensures copy.GaveUp? <==> Loading(file).GaveUp?
    ensures copy.Overran? <==> Loading(file).Overran?
    ensures copy != Wild
    ensures copy.Done? ==> Loading(file).Done? && (clean <==> NoneEmpty(Loading(file).value.sections))
    ensures WellFormed(file) ==> Load(file).Some?
    ensures WellFormed(file) && CountRel(Load(file).value.sections) <= MAX_REL_TABLES ==> copy.Done? && IsCopy(file, copy.value)
    ensures WellFormed(file) && CountRel(Load(file).value.sections) > MAX_REL_TABLES ==> copy == Overran
  {
    hide *;
    LoadingIsLoad(file);
    if WellFormed(file) {
      LoadingWellFormed(file);
      CopyOfWellFormed(file, order);
    }
    clean := false;
    var m := LoadMain(file);
    match m {
      case GaveUp => copy := GaveUp;
      case Overran => copy := Overran;
      case Done(main) =>
        UnsetIsEmpty(main.Abs().sections, main.Pointers());
        var bytes := WriteFile(main, order);
        copy := Done(bytes);
        var wild := main.FreeContents();
        clean := !wild;
    }
  }

  /** Option -d: a copy without relocation sections. */
  method CopyWithoutRel(file: seq<byte>, order: seq<nat>) returns (copy: Outcome<seq<byte>>, clean: bool)
    requires Load(file).Some? && Shaped(Load(file).value) ==> IsOrder(DeleteRel(Load(file).value).sections, order)
    ensures copy.GaveUp? <==> Loading(file).GaveUp?
    ensures copy.Overran? <==> Loading(file).Overran?
    ensures copy.Wild? <==> Loading(file).Done? && EmptyBehindRel(Loading(file).value.sections)
    ensures copy.Done? ==> Loading(file).Done? && (clean <==> NoneEmpty(Loading(file).value.sections))
    ensures WellFormed(file) ==> Load(file).Some?
    ensures WellFormed(file) && CountRel(Load(file).value.sections) <= MAX_REL_TABLES ==>
              if EmptyBehindRel(Load(file).value.sections) then copy == Wild else copy.Done? && IsStripped(file, copy.value)
    ensures WellFormed(file) && CountRel(Load(file).value.sections) > MAX_REL_TABLES ==> copy == Overran
  {
    hide *;
    LoadingIsLoad(file);
    if WellFormed(file) {
      LoadingWellFormed(file);
      StrippedWellFormed(file, order);
    }
    clean := false;
    var m := LoadMain(file);
    match m {
      case GaveUp => copy := GaveUp;
      case Overran => copy := Overran;
      case Done(main) =>
        UnsetIsEmpty(main.Abs().sections, main.Pointers());
        var wild := main.DeleteRel();
        if wild {
          return Wild, false;
        }
        var bytes := WriteFile(main, order);
        copy := Done(bytes);
        wild := main.FreeContents();
        clean := !wild;
    }
  }

  lemma Fresh(data: seq<byte>)
    ensures Overwrite([], 0, data) == data
  {
  }
}
