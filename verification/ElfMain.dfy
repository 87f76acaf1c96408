/** The structure in memory, deleteRel in place, the writers, and the whole copying runs. */
module ElfMain {
  import opened Bytes
  import opened ElfTypes
  import opened ElfSpec
  import opened ElfLayout
  import opened ElfLoad

  // ---- The file being written

  /** What b holds after data is written over it from position at. */
  function Overwrite(b: seq<byte>, at: nat, data: seq<byte>): (r: seq<byte>)
    requires at <= |b|
    ensures |r| >= at + |data| && r[at..at + |data|] == data
    ensures at == 0 && |b| <= |data| ==> r == data
  {
    b[..at] + data + (if at + |data| <= |b| then b[at + |data|..] else [])
  }

  /** Writing on where the last write ended is one longer write. */
  lemma OverwriteTwice(b: seq<byte>, at: nat, x: seq<byte>, y: seq<byte>)
    requires at <= |b|
    ensures Overwrite(Overwrite(b, at, x), at + |x|, y) == Overwrite(b, at, x + y)
  {
    var r := Overwrite(b, at, x);
    assert r[..at + |x|] == b[..at] + x;
    if at + |x| + |y| <= |b| {
      assert r[at + |x| + |y|..] == b[at + |x| + |y|..];
    }
  }

  /** A stdio stream opened for writing on a disk that does not fail. Since the last rewind, written has been written
      over what the file held then. */
  class Output {
    var bytes: seq<byte>
    var pos: nat
    ghost var base: seq<byte>
    ghost var written: seq<byte>

    ghost predicate Valid()
      reads this
    {
      bytes == Overwrite(base, 0, written) && pos == |written|
    }

    constructor ()
      ensures Valid() && bytes == base == written == []
    {
      bytes, pos, base, written := [], 0, [], [];
    }

    method Rewind()
      modifies this
      ensures Valid() && written == [] && bytes == base == old(bytes)
    {
      pos, base, written := 0, bytes, [];
    }

    /** fwrite of one block of at least one byte. */
    method Fwrite(data: seq<byte>)
      requires Valid() && data != []
      modifies this
      ensures Valid() && base == old(base) && written == old(written) + data
    {
      OverwriteTwice(base, 0, written, data);
      bytes := Overwrite(bytes, pos, data);
      pos, written := pos + |data|, written + data;
    }
  }

  // ---- Sorting

  /** Elf32 tempTab: a section's index and its offset as an int. */
  datatype TempTab = TempTab(indice: nat, offset: int)

  /** compare. */
  function Compare(a: TempTab, b: TempTab): (c: int)
    ensures (c <= 0 <==> a.offset <= b.offset) && (c >= 0 <==> a.offset >= b.offset)
  {
    if a.offset == b.offset then 0 else if a.offset < b.offset then -1 else 1
  }

  function TabOf(sh: seq<Shdr>): (tab: seq<TempTab>)
    ensures |tab| == |sh| && forall i | 0 <= i < |sh| :: tab[i] == TempTab(i, Signed(sh[i].offset))
  {
    seq(|sh|, i requires 0 <= i < |sh| => TempTab(i, Signed(sh[i].offset)))
  }

  /** A permutation of tab's places that qsort may apply: afterwards no element compares above a later one. */
  ghost predicate Sorts(tab: seq<TempTab>, order: seq<nat>) {
    && |order| == |tab| && InRange(order, |tab|)
    && (forall m, n | 0 <= m < n < |order| :: order[m] != order[n])
    && (forall i | 0 <= i < |tab| :: i in order)
    && (forall m, n | 0 <= m < n < |order| :: Compare(tab[order[m]], tab[order[n]]) <= 0)
  }

  lemma SortsIff(sh: seq<Shdr>, order: seq<nat>)
    ensures Sorts(TabOf(sh), order) <==> IsOrder(sh, order)
  {
  }

  /** An offset as an int: the 32-bit value with the same remainder. */
  lemma SignedIs(v: word)
    ensures -0x8000_0000 <= Signed(v) <= 0x7fff_ffff && Signed(v) % 0x1_0000_0000 == v
  {
  }

  /** qsort, with the permutation it happens to apply. */
  method Qsort(tab: array<TempTab>, order: seq<nat>)
    requires Sorts(tab[..], order)
    modifies tab
    ensures forall m | 0 <= m < |order| :: order[m] < tab.Length && tab[m] == old(tab[order[m]])
  {
    var was := tab[..];
    forall m | 0 <= m < tab.Length {
      tab[m] := was[order[m]];
    }
  }

  /** An order by offset of the first k sections. */
  ghost predicate OrdersFirst(sh: seq<Shdr>, k: nat, order: seq<nat>) {
    && k <= |sh| && |order| == k && InRange(order, k)
    && (forall m, n | 0 <= m < n < |order| :: order[m] != order[n])
    && (forall i | 0 <= i < k :: i in order)
    && (forall m, n | 0 <= m < n < |order| :: Signed(sh[order[m]].offset) <= Signed(sh[order[n]].offset))
  }

  /** There is always an order for qsort to leave. */
  lemma OrderExists(sh: seq<Shdr>) returns (order: seq<nat>)
    ensures IsOrder(sh, order)
  {
    order := FirstOrder(sh, |sh|);
  }

  lemma {:induction false} FirstOrder(sh: seq<Shdr>, k: nat) returns (order: seq<nat>)
    requires k <= |sh|
    ensures OrdersFirst(sh, k, order)
  {
    if k == 0 {
      order := [];
    } else {
      hide *;
      var shorter := FirstOrder(sh, k - 1);
      var p := PlaceFor(sh, k - 1, shorter);
      order := Insert(shorter, p, k - 1);
      Inserted(sh, k - 1, shorter, p);
    }
  }

  lemma PlaceFor(sh: seq<Shdr>, k: nat, order: seq<nat>) returns (p: nat)
    requires OrdersFirst(sh, k, order) && k < |sh|
    ensures p <= |order| && InRange(order, k)
    ensures forall m | 0 <= m < p :: Signed(sh[order[m]].offset) <= Signed(sh[k].offset)
    ensures forall m | p <= m < |order| :: Signed(sh[k].offset) <= Signed(sh[order[m]].offset)
  {
    p := 0;
    while p < |order| && Signed(sh[order[p]].offset) <= Signed(sh[k].offset)
      invariant p <= |order|
      invariant forall m | 0 <= m < p :: Signed(sh[order[m]].offset) <= Signed(sh[k].offset)
    {
      p := p + 1;
    }
    if p < |order| {
      assert forall m | p < m < |order| :: Signed(sh[order[p]].offset) <= Signed(sh[order[m]].offset);
    }
  }

  function Insert(s: seq<nat>, p: nat, x: nat): (r: seq<nat>)
    requires p <= |s|
    ensures |r| == |s| + 1 && r[p] == x
    ensures forall m | 0 <= m < p :: r[m] == s[m]
    ensures forall m | p <= m < |s| :: r[m + 1] == s[m]
  {
    s[..p] + [x] + s[p..]
  }

  lemma InsertedOnce(k: nat, order: seq<nat>, p: nat)
    requires InRange(order, k) && p <= |order|
    requires forall m, n | 0 <= m < n < |order| :: order[m] != order[n]
    requires forall i | 0 <= i < k :: i in order
    ensures var longer := Insert(order, p, k);
            && InRange(longer, k + 1)
            && (forall m, n | 0 <= m < n < |longer| :: longer[m] != longer[n])
            && (forall i | 0 <= i < k + 1 :: i in longer)
  {
    var longer := Insert(order, p, k);
    hide Insert;
    assert forall m | 0 <= m < |longer| :: longer[m] == if m < p then order[m] else if m == p then k else order[m - 1];
    forall i | 0 <= i < k + 1
      ensures i in longer
    {
      if i == k {
        assert longer[p] == k;
      } else {
        assert i in order;
        var m :| 0 <= m < |order| && order[m] == i;
        assert longer[if m < p then m else m + 1] == i;
      }
    }
  }

  lemma Inserted(sh: seq<Shdr>, k: nat, order: seq<nat>, p: nat)
    requires OrdersFirst(sh, k, order) && k < |sh| && p <= |order|
    requires forall m | 0 <= m < p :: Signed(sh[order[m]].offset) <= Signed(sh[k].offset)
    requires forall m | p <= m < |order| :: Signed(sh[k].offset) <= Signed(sh[order[m]].offset)
    ensures OrdersFirst(sh, k + 1, Insert(order, p, k))
  {
    InsertedOnce(k, order, p);
    hide Signed, Insert;
    var longer := Insert(order, p, k);
    forall m, n | 0 <= m < n < |longer|
      ensures Signed(sh[longer[m]].offset) <= Signed(sh[longer[n]].offset)
    {
      assert longer[m] == if m < p then order[m] else if m == p then k else order[m - 1];
      assert longer[n] == if n < p then order[n] else if n == p then k else order[n - 1];
    }
  }

  // ---- The structure

  /** Elf32_Main. The tables may be longer than the header says. */
  class Main {
    var header: Ehdr
    var sectHeader: array<Shdr>
    var symTable: array<Sym>
    var sectionContent: seq<seq<byte>>
    /** Which of the pointers to the contents have been assigned. */
    var isSet: seq<bool>
    var nbSymboles: int

    ghost predicate Valid()
      reads this
    {
      && header.shnum <= sectHeader.Length && header.shnum <= |sectionContent| == |isSet|
      && -1 <= nbSymboles <= symTable.Length
    }

    /** The part of the tables in use. */
    ghost function Abs(): (e: Elf)
      requires Valid()
      reads this, sectHeader, symTable
      ensures Shaped(e)
    {
      Elf(header, sectHeader[..header.shnum], nbSymboles, if nbSymboles < 0 then [] else symTable[..nbSymboles],
          sectionContent[..header.shnum])
    }

    constructor (header: Ehdr, sectHeader: array<Shdr>, symTable: array<Sym>, sectionContent: seq<seq<byte>>, isSet: seq<bool>,
                 nbSymboles: int)
      requires header.shnum <= sectHeader.Length && header.shnum <= |sectionContent| == |isSet|
      requires -1 <= nbSymboles <= symTable.Length
      ensures Valid() && this.sectHeader == sectHeader && this.symTable == symTable && this.header == header
      ensures this.sectionContent == sectionContent && this.isSet == isSet && this.nbSymboles == nbSymboles
    {
      this.header, this.sectHeader, this.symTable := header, sectHeader, symTable;
      this.sectionContent, this.isSet, this.nbSymboles := sectionContent, isSet, nbSymboles;
    }

    /** Whether the pointers of the sections in use are set. */
    ghost function Pointers(): (s: seq<bool>)
      requires Valid()
      reads this
      ensures |s| == header.shnum
    {
      isSet[..header.shnum]
    }

    // ---- Deleting in place

    /** Moves the headers behind i down by one; the last one is left twice. */
    method ShiftHeaders(i: nat)
      requires Valid() && i < header.shnum
      modifies sectHeader
      ensures sectHeader[..header.shnum - 1] == Remove(old(sectHeader[..header.shnum]), i)
      ensures forall k | header.shnum - 1 <= k < sectHeader.Length :: sectHeader[k] == old(sectHeader[k])
    {
      for j := i + 1 to header.shnum
        invariant forall k | 0 <= k < i || j - 1 <= k < sectHeader.Length :: sectHeader[k] == old(sectHeader[k])
        invariant forall k | i <= k < j - 1 :: sectHeader[k] == old(sectHeader[k + 1])
      {
        sectHeader[j - 1] := sectHeader[j];
      }
    }

    /** Moves the contents behind i down by one: each pointer from i on is handed to realloc, the last one to free. The
        first that is unset ends the run. */
    method ShiftContents(i: nat) returns (wild: bool)
      requires Valid() && i < header.shnum
      modifies this`sectionContent, this`isSet
      ensures wild == !AllSet(old(Pointers()), i)
      ensures |sectionContent| == |old(sectionContent)| == |isSet|
      ensures !wild ==> sectionContent[..header.shnum - 1] == Remove(old(sectionContent[..header.shnum]), i)
      ensures !wild ==> forall k | 0 <= k < header.shnum - 1 :: isSet[k] == (k >= i || old(isSet)[k])
    {
      for j := i + 1 to header.shnum
        invariant |sectionContent| == |old(sectionContent)| == |isSet|
        invariant forall k | 0 <= k < i || j - 1 <= k < |sectionContent| :: sectionContent[k] == old(sectionContent)[k]
        invariant forall k | i <= k < j - 1 :: sectionContent[k] == old(sectionContent)[k + 1]
        invariant forall k | 0 <= k < i || j - 1 <= k < |isSet| :: isSet[k] == old(isSet)[k]
        invariant forall k | i <= k < j - 1 :: isSet[k] && old(isSet)[k]
      {
        if !isSet[j - 1] {
          assert !old(Pointers())[j - 1];
          return true;
        }
        sectionContent := sectionContent[j - 1 := sectionContent[j]];
      }
      if !isSet[header.shnum - 1] {
        assert !old(Pointers())[header.shnum - 1];
        return true;
      }
      isSet := isSet[header.shnum - 1 := false];
      wild := false;
    }

    /** Offsets and links, in every entry the table had. */
    method AdjustHeaders(i: nat, rel: Shdr)
      requires Valid()
      modifies sectHeader
      ensures forall k | 0 <= k < header.shnum :: sectHeader[k] == Adjust(old(sectHeader[k]), rel, i)
    {
      for k := 0 to header.shnum
        invariant forall j | 0 <= j < k :: sectHeader[j] == Adjust(old(sectHeader[j]), rel, i)
        invariant forall j | k <= j < sectHeader.Length :: sectHeader[j] == old(sectHeader[j])
      {
        if sectHeader[k].offset > rel.offset {
          sectHeader[k] := sectHeader[k].(offset := Minus(sectHeader[k].offset, rel.size));
        }
        if sectHeader[k].link > i && Linked(sectHeader[k]) {
          sectHeader[k] := sectHeader[k].(link := sectHeader[k].link - 1);
        }
      }
    }

    method RenumberSymbols(i: nat)
      requires Valid()
      modifies symTable
      ensures forall l | 0 <= l < nbSymboles :: symTable[l] == Renumber(old(symTable[l]), i)
    {
      var l := 0;
      while l < nbSymboles
        invariant 0 <= l <= symTable.Length
        invariant forall j | 0 <= j < l :: symTable[j] == Renumber(old(symTable[j]), i)
        invariant forall j | l <= j < symTable.Length :: symTable[j] == old(symTable[j])
      {
        if symTable[l].shndx >= i {
          symTable[l] := symTable[l].(shndx := (symTable[l].shndx - 1) % 0x1_0000);
        }
        l := l + 1;
      }
    }

    /** One round that finds a relocation section. It is wild, and ends the run, when a pointer from i on is unset;
        otherwise all of them are set afterwards. */
    method DeleteSection(i: nat) returns (wild: bool)
      requires Valid() && i < header.shnum
      modifies this`header, this`sectionContent, this`isSet, sectHeader, symTable
      ensures wild == !AllSet(old(Pointers()), i)
      ensures !wild ==> Valid() && Abs() == DeleteAt(old(Abs()), i) && header.ident == old(header.ident)
      ensures !wild ==> |Pointers()| == |old(Pointers())| - 1
      ensures !wild ==> forall k | 0 <= k < |Pointers()| :: Pointers()[k] == (k >= i || old(Pointers())[k])
    {
      ghost var e := Abs();
      var rel := sectHeader[i];
      if header.shstrndx > i {
        header := header.(shstrndx := header.shstrndx - 1);
      }
      header := header.(shoff := Minus(header.shoff, rel.size));
      ShiftHeaders(i);
      wild := ShiftContents(i);
      if wild {
        return;
      }
      AdjustHeaders(i, rel);
      RenumberSymbols(i);
      header := header.(shnum := header.shnum - 1);
      hide Remove, Adjust, Renumber, Minus, Linked;
      assert Abs().sections == DeleteAt(e, i).sections;
      assert Abs().symbols == DeleteAt(e, i).symbols;
    }

    /** deleteRel touches an unset pointer exactly when one belongs to the first relocation section or to a section
        behind it. Otherwise it deletes them all, and leaves exactly those unset that were unset before. */
    method DeleteRel() returns (wild: bool)
      requires Valid()
      modifies this`header, this`sectionContent, this`isSet, sectHeader, symTable
      ensures wild <==> UnsetBehindRel(old(Abs()).sections, old(Pointers()), 0)
      ensures !wild ==> Valid() && Abs() == ElfSpec.DeleteRel(old(Abs())) && header.ident == old(header.ident)
      ensures !wild ==> (AllSet(Pointers(), 0) <==> AllSet(old(Pointers()), 0))
    {
      hide DeleteAt;
      var i := 0;
      while i < header.shnum
        invariant Valid() && i <= header.shnum && header.ident == old(header.ident)
        invariant DeleteFrom(Abs(), i) == ElfSpec.DeleteRel(old(Abs()))
        invariant UnsetBehindRel(Abs().sections, Pointers(), i) <==> UnsetBehindRel(old(Abs()).sections, old(Pointers()), 0)
        invariant AllSet(Pointers(), 0) <==> AllSet(old(Pointers()), 0)
        decreases header.shnum - i
      {
        if sectHeader[i].kind == SHT_REL {
          wild := DeleteSection(i);
          if wild {
            return;
          }
        } else {
          i := i + 1;
        }
      }
      wild := false;
    }

    /** The end of the main program frees the contents: an unset pointer among them is freed too. */
    method FreeContents() returns (wild: bool)
      requires Valid()
      ensures wild == !AllSet(Pointers(), 0)
    {
      for i := 0 to header.shnum
        invariant forall k | 0 <= k < i :: isSet[k]
      {
        if !isSet[i] {
          assert !Pointers()[i];
          return true;
        }
      }
      wild := false;
    }

    // ---- Writing

    method WriteHeader(out: Output)
      requires header.ident[4] == 1
      modifies out
      ensures out.Valid() && out.base == old(out.bytes) && out.written == EncodeHeader(header)
    {
      hide W, H, Overwrite;
      out.Rewind();
      for k := 0 to 9
        invariant out.Valid() && out.base == old(out.bytes) && out.written == header.ident[..k]
      {
        out.Fwrite([header.ident[k]]);
      }
      out.Fwrite(header.ident[9..]);
      assert out.written == header.ident;
      out.Fwrite(H(header.kind));
      out.Fwrite(H(header.machine));
      out.Fwrite(W(header.version));
      out.Fwrite(W(header.entry));
      out.Fwrite(W(header.phoff));
      out.Fwrite(W(header.shoff));
      out.Fwrite(W(header.flags));
      out.Fwrite(H(header.ehsize));
      out.Fwrite(H(header.phentsize));
      out.Fwrite(H(header.phnum));
      out.Fwrite(H(header.shentsize));
      out.Fwrite(H(header.shnum));
      out.Fwrite(H(header.shstrndx));
    }

    method WriteSymbol(out: Output, y: Sym)
      requires out.Valid()
      modifies out
      ensures out.Valid() && out.base == old(out.base) && out.written == old(out.written) + EncodeSym(y)
    {
      hide W, H, Overwrite;
      out.Fwrite(W(y.name));
      out.Fwrite(W(y.value));
      out.Fwrite(W(y.size));
      out.Fwrite([y.info]);
      out.Fwrite([y.other]);
      out.Fwrite(H(y.shndx));
    }

    method WriteSymbols(out: Output)
      requires Valid() && out.Valid()
      modifies out
      ensures out.Valid() && out.base == old(out.base) && out.written == old(out.written) + EncodeSyms(Abs().symbols)
    {
      hide EncodeSym, EncodeSyms, Overwrite;
      ghost var ys := Abs().symbols;
      NoSyms();
      var j := 0;
      while j < nbSymboles
        invariant 0 <= j <= |ys| && out.Valid() && out.base == old(out.base)
        invariant out.written == old(out.written) + EncodeSyms(ys[..j])
      {
        WriteSymbol(out, symTable[j]);
        EncodeSymsSnoc(ys[..j], ys[j]);
        assert ys[..j + 1] == ys[..j] + [ys[j]];
        j := j + 1;
      }
      assert ys[..j] == ys;
    }

    /** The sections' contents in the order by offset that qsort leaves. */
    method WriteSectionContent(out: Output, order: seq<nat>)
      requires Valid() && out.Valid() && IsOrder(Abs().sections, order)
      modifies out
      ensures out.Valid() && out.base == old(out.base) && |order| == header.shnum && InRange(order, |order|)
      ensures out.written == old(out.written) + Joined(Parts(Abs()), order, |order|)
    {
      hide Joined, EncodeSyms, IsOrder, Sorts, TabOf, Overwrite, Parts;
      ghost var e := Abs();
      var n := header.shnum;
      var tab := SortedTab(order);
      JoinedNothing(Parts(e), order);
      for i := 0 to n
        invariant out.Valid() && out.base == old(out.base)
        invariant forall m | 0 <= m < n :: tab[m].indice == order[m]
        invariant out.written == old(out.written) + Joined(Parts(e), order, i)
      {
        JoinedNext(Parts(e), order, i);
        var k := tab[i].indice;
        if sectHeader[k].kind == SHT_SYMTAB {
          WriteSymbols(out);
        } else if |sectionContent[k]| != 0 {
          out.Fwrite(sectionContent[k]);
        }
      }
    }

    method SortedTab(order: seq<nat>) returns (tab: array<TempTab>)
      requires Valid() && IsOrder(Abs().sections, order)
      ensures fresh(tab) && tab.Length == |order| == header.shnum && InRange(order, |order|)
      ensures forall m | 0 <= m < |order| :: tab[m].indice == order[m]
    {
      ghost var sh := Abs().sections;
      var n := header.shnum;
      tab := new TempTab[n](_ => TempTab(0, 0));
      for i := 0 to n
        invariant fresh(tab) && forall k | 0 <= k < i :: tab[k] == TempTab(k, Signed(sectHeader[k].offset))
      {
        tab[i] := TempTab(i, Signed(sectHeader[i].offset));
      }
      SortsIff(sh, order);
      assert tab[..] == TabOf(sh);
      hide IsOrder, TabOf, Signed;
      Qsort(tab, order);
    }

    method WriteSectionHeader(out: Output)
      requires Valid() && out.Valid()
      modifies out
      ensures out.Valid() && out.base == old(out.base) && out.written == old(out.written) + EncodeSections(Abs().sections)
    {
      hide EncodeSections, EncodeWords, SectionWords, W, Overwrite;
      ghost var sh := Abs().sections;
      NoSections();
      for i := 0 to header.shnum
        invariant out.Valid() && out.base == old(out.base)
        invariant out.written == old(out.written) + EncodeSections(sh[..i])
      {
        ghost var before := out.written;
        var words := SectionWords(sectHeader[i]);
        NoWords();
        for j := 0 to 10
          invariant out.Valid() && out.base == old(out.base) && out.written == before + EncodeWords(words[..j])
        {
          out.Fwrite(W(words[j]));
          EncodeWordsSnoc(words[..j], words[j]);
          assert words[..j + 1] == words[..j] + [words[j]];
        }
        assert words[..10] == words;
        EncodeSectionsSnoc(sh[..i], sh[i]);
        assert sh[..i + 1] == sh[..i] + [sh[i]];
      }
      assert sh[..header.shnum] == sh;
    }

    /** The three writers in turn. */
    method WriteAll(out: Output, order: seq<nat>)
      requires Valid() && IsOrder(Abs().sections, order) && header.ident[4] == 1
      modifies out
      ensures |order| == |Abs().sections| && InRange(order, |order|)
      ensures out.bytes == Overwrite(old(out.bytes), 0, Written(Abs(), order))
    {
      hide Overwrite, EncodeHeader, EncodeSections, Joined, Parts, IsOrder;
      WriteHeader(out);
      WriteSectionContent(out, order);
      WriteSectionHeader(out);
    }
  }

  lemma NoSyms()
    ensures EncodeSyms([]) == []
  {
  }

  lemma NoSections()
    ensures EncodeSections([]) == []
  {
  }
}
