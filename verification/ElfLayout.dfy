/** How sections tile a file, and why printing them in offset order puts each one back at its offset. */
module ElfLayout {
  import opened Bytes
  import opened ElfTypes
  import opened ElfSpec

  /** Extents: section i occupies len[i] bytes of the file, padding included. */
  function End(sh: seq<Shdr>, len: seq<nat>, i: nat): nat
    requires i < |sh| == |len|
  {
    sh[i].offset + len[i]
  }

  /** A non-empty section starts at x. */
  ghost predicate Starts(sh: seq<Shdr>, len: seq<nat>, x: int)
    requires |sh| == |len|
  {
    exists j | 0 <= j < |sh| :: len[j] > 0 && sh[j].offset == x
  }

  /** Non-empty sections lie between the file header and the section headers. */
  ghost predicate Inside(sh: seq<Shdr>, len: seq<nat>, shoff: int)
    requires |sh| == |len|
  {
    && (forall i | 0 <= i < |sh| :: len[i] == 0 <==> sh[i].size == 0)
    && (forall i | 0 <= i < |sh| && len[i] > 0 :: HEADER_BYTES <= sh[i].offset && End(sh, len, i) <= shoff)
  }

  /** No section, empty or not, starts in the middle of another. */
  ghost predicate Clear(sh: seq<Shdr>, len: seq<nat>)
    requires |sh| == |len|
  {
    forall i, j | 0 <= i < |sh| && 0 <= j < |sh| && len[i] > 0 :: !(sh[i].offset < sh[j].offset < End(sh, len, i))
  }

  /** At most one non-empty section starts at any offset. */
  ghost predicate Distinct(sh: seq<Shdr>, len: seq<nat>)
    requires |sh| == |len|
  {
    forall i, j | 0 <= i < |sh| && 0 <= j < |sh| && i != j && len[i] > 0 && len[j] > 0 :: sh[i].offset != sh[j].offset
  }

  /** Where one section ends the next begins, from the file header to the section headers. */
  ghost predicate Chained(sh: seq<Shdr>, len: seq<nat>, shoff: int)
    requires |sh| == |len|
  {
    && Starts(sh, len, HEADER_BYTES)
    && forall i | 0 <= i < |sh| && len[i] > 0 :: End(sh, len, i) == shoff || Starts(sh, len, End(sh, len, i))
  }

  /** The sections tile [52, shoff). */
  ghost predicate Tiles(sh: seq<Shdr>, len: seq<nat>, shoff: int) {
    && |sh| == |len| && 0 <= shoff < 0x8000_0000
    && (forall i | 0 <= i < |sh| :: sh[i].offset < 0x8000_0000)
    && Inside(sh, len, shoff) && Clear(sh, len) && Distinct(sh, len) && Chained(sh, len, shoff)
  }

  // ---- Intervals in offset order

  /** Intervals [o[m], o[m] + l[m]) listed by start, tiling [52, end). */
  ghost predicate Sorted(o: seq<int>) {
    forall m, n | 0 <= m < n < |o| :: o[m] <= o[n]
  }

  ghost predicate RowInside(o: seq<int>, l: seq<nat>, end: int)
    requires |o| == |l|
  {
    forall m | 0 <= m < |o| && l[m] > 0 :: HEADER_BYTES <= o[m] && o[m] + l[m] <= end
  }

  ghost predicate RowClear(o: seq<int>, l: seq<nat>)
    requires |o| == |l|
  {
    forall m, n | 0 <= m < |o| && 0 <= n < |o| && l[m] > 0 :: !(o[m] < o[n] < o[m] + l[m])
  }

  ghost predicate RowDistinct(o: seq<int>, l: seq<nat>)
    requires |o| == |l|
  {
    forall m, n | 0 <= m < n < |o| && l[m] > 0 && l[n] > 0 :: o[m] != o[n]
  }

  ghost predicate RowChained(o: seq<int>, l: seq<nat>, end: int)
    requires |o| == |l|
  {
    && StartsIn(o, l, HEADER_BYTES)
    && forall m | 0 <= m < |o| && l[m] > 0 :: o[m] + l[m] == end || StartsIn(o, l, o[m] + l[m])
  }

  ghost predicate Row(o: seq<int>, l: seq<nat>, end: int) {
    && |o| == |l| && Sorted(o)
    && RowInside(o, l, end) && RowClear(o, l) && RowDistinct(o, l) && RowChained(o, l, end)
  }

  ghost predicate StartsIn(o: seq<int>, l: seq<nat>, x: int)
    requires |o| == |l|
  {
    exists m | 0 <= m < |o| :: l[m] > 0 && o[m] == x
  }

  function Total(l: seq<nat>, k: nat): nat
    requires k <= |l|
  {
    if k == 0 then 0 else Total(l, k - 1) + l[k - 1]
  }

  /** The first k intervals end at p or below, the others start at p or above, and p is the start or an end. */
  ghost predicate FilledTo(o: seq<int>, l: seq<nat>, k: nat, p: int)
    requires |o| == |l| && k <= |o|
  {
    && (forall m | 0 <= m < k && l[m] > 0 :: o[m] + l[m] <= p)
    && (forall m | k <= m < |o| && l[m] > 0 :: o[m] >= p)
    && (p == HEADER_BYTES || exists m | 0 <= m < k :: l[m] > 0 && o[m] + l[m] == p)
  }

  lemma SomethingStarts(o: seq<int>, l: seq<nat>, end: int, k: nat, p: int)
    requires Row(o, l, end) && k <= |o| && FilledTo(o, l, k, p)
    ensures p == end || exists m | k <= m < |o| :: l[m] > 0 && o[m] == p
  {
    hide RowInside, RowClear, RowDistinct, Sorted;
    if p != end {
      assert StartsIn(o, l, p);
    }
  }

  /** The next interval starts exactly where the earlier ones have got to. */
  lemma NextStartsHere(o: seq<int>, l: seq<nat>, end: int, k: nat, p: int)
    requires Row(o, l, end) && k < |o| && FilledTo(o, l, k, p) && l[k] > 0
    ensures o[k] == p
  {
    SomethingStarts(o, l, end, k, p);
    hide RowChained, RowClear, RowDistinct;
  }

  /** Filling an interval moves the mark to its end. */
  lemma FillNext(o: seq<int>, l: seq<nat>, end: int, k: nat, p: int)
    requires Row(o, l, end) && k < |o| && FilledTo(o, l, k, p) && (l[k] > 0 ==> o[k] == p)
    ensures FilledTo(o, l, k + 1, p + l[k])
  {
    hide RowChained, RowInside;
    if l[k] > 0 {
      forall m | k + 1 <= m < |o| && l[m] > 0
        ensures o[m] >= p + l[k]
      {
        assert o[k] <= o[m] && o[k] != o[m] && !(o[k] < o[m] < o[k] + l[k]);
      }
    }
  }

  lemma {:induction false} Filled(o: seq<int>, l: seq<nat>, end: int, k: nat)
    requires Row(o, l, end) && k <= |o|
    ensures |o| == |l| && FilledTo(o, l, k, HEADER_BYTES + Total(l, k))
  {
    hide *;
    FilledStart(o, l, end);
    if k > 0 {
      Filled(o, l, end, k - 1);
      var p := HEADER_BYTES + Total(l, k - 1);
      if l[k - 1] > 0 {
        NextStartsHere(o, l, end, k - 1, p);
      }
      FillNext(o, l, end, k - 1, p);
      TotalNext(l, k - 1);
    }
  }

  /** All intervals together end at the end. */
  lemma RowEnds(o: seq<int>, l: seq<nat>, end: int)
    requires Row(o, l, end)
    ensures |o| == |l| && HEADER_BYTES + Total(l, |l|) == end
  {
    hide *;
    FilledStart(o, l, end);
    Filled(o, l, end, |o|);
    SomethingStarts(o, l, end, |o|, HEADER_BYTES + Total(l, |o|));
  }

  lemma TotalNext(l: seq<nat>, k: nat)
    requires k < |l|
    ensures Total(l, k + 1) == Total(l, k) + l[k]
  {
  }

  lemma FilledStart(o: seq<int>, l: seq<nat>, end: int)
    requires Row(o, l, end)
    ensures |o| == |l| && Total(l, 0) == 0 && FilledTo(o, l, 0, HEADER_BYTES)
  {
  }

  // ---- Printing in offset order

  function Offsets(sh: seq<Shdr>, order: seq<nat>): (o: seq<int>)
    requires InRange(order, |sh|)
    ensures |o| == |order| && forall m | 0 <= m < |o| :: o[m] == sh[order[m]].offset
  {
    seq(|order|, m requires 0 <= m < |order| => sh[order[m]].offset)
  }

  function Lengths(len: seq<nat>, order: seq<nat>): (l: seq<nat>)
    requires InRange(order, |len|)
    ensures |l| == |order| && forall m | 0 <= m < |l| :: l[m] == len[order[m]]
  {
    seq(|order|, m requires 0 <= m < |order| => len[order[m]])
  }

  lemma StartsInOrder(sh: seq<Shdr>, len: seq<nat>, order: seq<nat>, x: int)
    requires |sh| == |len| && IsOrder(sh, order) && Starts(sh, len, x)
    ensures StartsIn(Offsets(sh, order), Lengths(len, order), x)
  {
    var j :| 0 <= j < |sh| && len[j] > 0 && sh[j].offset == x;
    assert j in order;
    var m :| 0 <= m < |order| && order[m] == j;
    assert Lengths(len, order)[m] > 0 && Offsets(sh, order)[m] == x;
  }

  /** The sections that tile a file, in any order by offset, are such a row. */
  lemma OrderedRow(sh: seq<Shdr>, len: seq<nat>, shoff: int, order: seq<nat>)
    requires Tiles(sh, len, shoff) && IsOrder(sh, order)
    ensures Row(Offsets(sh, order), Lengths(len, order), shoff)
  {
    SortedOffsets(sh, order);
    OrderedInside(sh, len, shoff, order);
    OrderedChained(sh, len, shoff, order);
  }

  lemma OrderedInside(sh: seq<Shdr>, len: seq<nat>, shoff: int, order: seq<nat>)
    requires Tiles(sh, len, shoff) && IsOrder(sh, order)
    ensures RowInside(Offsets(sh, order), Lengths(len, order), shoff)
    ensures RowClear(Offsets(sh, order), Lengths(len, order))
    ensures RowDistinct(Offsets(sh, order), Lengths(len, order))
  {
    var o, l := Offsets(sh, order), Lengths(len, order);
    hide Chained;
    assert forall m | 0 <= m < |order| :: o[m] + l[m] == End(sh, len, order[m]);
  }

  lemma OrderedChained(sh: seq<Shdr>, len: seq<nat>, shoff: int, order: seq<nat>)
    requires Tiles(sh, len, shoff) && IsOrder(sh, order)
    ensures RowChained(Offsets(sh, order), Lengths(len, order), shoff)
  {
    hide Inside, Clear, Distinct, Starts, StartsIn;
    var o, l := Offsets(sh, order), Lengths(len, order);
    StartsInOrder(sh, len, order, HEADER_BYTES);
    forall m | 0 <= m < |o| && l[m] > 0
      ensures o[m] + l[m] == shoff || StartsIn(o, l, o[m] + l[m])
    {
      assert o[m] + l[m] == End(sh, len, order[m]);
      if o[m] + l[m] != shoff {
        StartsInOrder(sh, len, order, o[m] + l[m]);
      }
    }
  }

  lemma SortedOffsets(sh: seq<Shdr>, order: seq<nat>)
    requires IsOrder(sh, order) && forall i | 0 <= i < |sh| :: sh[i].offset < 0x8000_0000
    ensures Sorted(Offsets(sh, order))
    ensures forall m, n | 0 <= m < n < |order| :: order[m] != order[n]
  {
  }

  ghost predicate Sizes(parts: seq<seq<byte>>, len: seq<nat>) {
    |parts| == |len| && forall i | 0 <= i < |len| :: |parts[i]| == len[i]
  }

  lemma {:induction false} JoinedTotal(parts: seq<seq<byte>>, len: seq<nat>, order: seq<nat>, k: nat)
    requires Sizes(parts, len) && k <= |order| && InRange(order, |len|)
    ensures |Joined(parts, order, k)| == Total(Lengths(len, order), k)
  {
    if k > 0 {
      JoinedTotal(parts, len, order, k - 1);
    }
  }

  lemma {:induction false} JoinedPrefix(parts: seq<seq<byte>>, order: seq<nat>, k: nat, n: nat)
    requires k <= n <= |order| && InRange(order, |parts|)
    ensures |Joined(parts, order, k)| <= |Joined(parts, order, n)|
    ensures Joined(parts, order, n)[..|Joined(parts, order, k)|] == Joined(parts, order, k)
    decreases n
  {
    if k < n {
      JoinedPrefix(parts, order, k, n - 1);
    }
  }

  /** Printing has got to each section's own offset when its turn comes. */
  lemma PrintedAt(sh: seq<Shdr>, len: seq<nat>, shoff: int, order: seq<nat>, parts: seq<seq<byte>>, k: nat)
    requires Tiles(sh, len, shoff) && IsOrder(sh, order) && Sizes(parts, len) && k < |order| && len[order[k]] > 0
    ensures sh[order[k]].offset == HEADER_BYTES + |Joined(parts, order, k)|
  {
    var o, l := Offsets(sh, order), Lengths(len, order);
    OrderedRow(sh, len, shoff, order);
    JoinedTotal(parts, len, order, k);
    hide Joined, Row, FilledTo, IsOrder, Tiles;
    Filled(o, l, shoff, k);
    NextStartsHere(o, l, shoff, k, HEADER_BYTES + Total(l, k));
  }

  /** Printing ends where the section headers begin. */
  lemma PrintedAll(sh: seq<Shdr>, len: seq<nat>, shoff: int, order: seq<nat>, parts: seq<seq<byte>>)
    requires Tiles(sh, len, shoff) && IsOrder(sh, order) && Sizes(parts, len)
    ensures HEADER_BYTES + |Joined(parts, order, |order|)| == shoff
  {
    hide *;
    Shapes(sh, len, shoff, order, parts);
    OrderedRow(sh, len, shoff, order);
    JoinedTotal(parts, len, order, |order|);
    RowEnds(Offsets(sh, order), Lengths(len, order), shoff);
  }

  lemma TileFacts(sh: seq<Shdr>, len: seq<nat>, shoff: int, i: nat)
    requires Tiles(sh, len, shoff) && i < |sh| && len[i] > 0
    ensures HEADER_BYTES <= sh[i].offset && End(sh, len, i) == sh[i].offset + len[i] <= shoff
  {
  }

  /** Each section is printed where its header says it is, whatever order equal offsets were left in. */
  lemma PrintedInPlace(sh: seq<Shdr>, len: seq<nat>, shoff: int, order: seq<nat>, parts: seq<seq<byte>>, i: nat)
    requires Tiles(sh, len, shoff) && IsOrder(sh, order) && Sizes(parts, len)
    requires i < |sh| && len[i] > 0
    ensures var all := Joined(parts, order, |order|);
            && HEADER_BYTES + |all| == shoff && HEADER_BYTES <= sh[i].offset && End(sh, len, i) <= shoff
            && all[sh[i].offset - HEADER_BYTES..End(sh, len, i) - HEADER_BYTES] == parts[i]
  {
    hide *;
    Shapes(sh, len, shoff, order, parts);
    var k := PlaceOf(sh, order, i);
    TileFacts(sh, len, shoff, i);
    SizesAre(parts, len, i);
    PrintedAt(sh, len, shoff, order, parts, k);
    PrintedAll(sh, len, shoff, order, parts);
    JoinedPrefix(parts, order, k + 1, |order|);
    JoinedNext(parts, order, k);
    Middle(Joined(parts, order, |order|), Joined(parts, order, k), parts[i]);
  }

  lemma PlaceOf(sh: seq<Shdr>, order: seq<nat>, i: nat) returns (k: nat)
    requires IsOrder(sh, order) && i < |sh|
    ensures k < |order| == |sh| && order[k] == i && InRange(order, |sh|)
  {
    assert i in order;
    k :| 0 <= k < |order| && order[k] == i;
  }

  lemma JoinedNext(parts: seq<seq<byte>>, order: seq<nat>, k: nat)
    requires k < |order| && InRange(order, |parts|)
    ensures order[k] < |parts| && Joined(parts, order, k + 1) == Joined(parts, order, k) + parts[order[k]]
  {
  }

  lemma Shapes(sh: seq<Shdr>, len: seq<nat>, shoff: int, order: seq<nat>, parts: seq<seq<byte>>)
    requires Tiles(sh, len, shoff) && IsOrder(sh, order) && Sizes(parts, len)
    ensures |sh| == |len| == |parts| == |order| && InRange(order, |parts|)
  {
  }

  lemma SizesAre(parts: seq<seq<byte>>, len: seq<nat>, i: nat)
    requires Sizes(parts, len) && i < |len|
    ensures |parts| == |len| && |parts[i]| == len[i]
  {
  }

  lemma Middle(all: seq<byte>, before: seq<byte>, part: seq<byte>)
    requires |before| + |part| <= |all| && all[..|before| + |part|] == before + part
    ensures all[|before|..|before| + |part|] == part
  {
    assert all[|before|..|before| + |part|] == all[..|before| + |part|][|before|..];
  }

  /** Every non-empty part is the piece of the file that its section's extent covers. */
  ghost predicate CutFrom(file: seq<byte>, sh: seq<Shdr>, len: seq<nat>, parts: seq<seq<byte>>) {
    && |sh| == |len| == |parts|
    && forall i | 0 <= i < |sh| && len[i] > 0 :: End(sh, len, i) <= |file| && parts[i] == file[sh[i].offset..End(sh, len, i)]
  }

  /** Printing the pieces cut out of a file gives the file back. */
  lemma {:induction false} JoinedCopies(sh: seq<Shdr>, len: seq<nat>, shoff: int, order: seq<nat>,
                                        parts: seq<seq<byte>>, file: seq<byte>, k: nat)
    requires Tiles(sh, len, shoff) && IsOrder(sh, order) && k <= |order| && shoff <= |file|
    requires Sizes(parts, len) && CutFrom(file, sh, len, parts)
    ensures var j := Joined(parts, order, k);
            HEADER_BYTES + |j| <= |file| && j == file[HEADER_BYTES..HEADER_BYTES + |j|]
  {
    hide *;
    Shapes(sh, len, shoff, order, parts);
    PrintedAll(sh, len, shoff, order, parts);
    JoinedPrefix(parts, order, k, |order|);
    if k == 0 {
      JoinedNothing(parts, order);
    } else {
      JoinedCopies(sh, len, shoff, order, parts, file, k - 1);
      var before, s := Joined(parts, order, k - 1), order[k - 1];
      JoinedNext(parts, order, k - 1);
      PieceOf(file, sh, len, parts, s);
      if len[s] > 0 {
        PrintedAt(sh, len, shoff, order, parts, k - 1);
      }
      Extend(file, HEADER_BYTES + |before|, parts[s], before);
    }
  }

  lemma JoinedNothing(parts: seq<seq<byte>>, order: seq<nat>)
    requires InRange(order, |parts|)
    ensures Joined(parts, order, 0) == []
  {
  }

  lemma PieceOf(file: seq<byte>, sh: seq<Shdr>, len: seq<nat>, parts: seq<seq<byte>>, i: nat)
    requires Sizes(parts, len) && CutFrom(file, sh, len, parts) && i < |sh|
    ensures |sh| == |len| == |parts| && |parts[i]| == len[i] && End(sh, len, i) == sh[i].offset + len[i]
    ensures len[i] > 0 ==> End(sh, len, i) <= |file| && parts[i] == file[sh[i].offset..End(sh, len, i)]
  {
  }

  lemma Extend(file: seq<byte>, p: nat, part: seq<byte>, before: seq<byte>)
    requires |before| <= p && p + |part| <= |file| && part == file[p..p + |part|] && before == file[p - |before|..p]
    ensures before + part == file[p - |before|..p + |part|]
  {
  }
}
