/** The sorted table of the names whose debugging output is on. */
module Debug {
  import opened Bytes

  /** A C string without its final NUL. */
  type Name = s: seq<byte> | NUL !in s witness []

  const MAX_FILES_NUMBER: nat := 64

  // ---- strcmp

  function Strcmp(a: Name, b: Name): (r: int)
    ensures -1 <= r <= 1
  {
    if a == [] || b == [] then (if a == b then 0 else if a == [] then -1 else 1)
    else if a[0] != b[0] then (if a[0] < b[0] then -1 else 1)
    else
      assert NUL !in a[1..] && NUL !in b[1..];
      Strcmp(a[1..], b[1..])
  }

  /** strcmp tells names apart and orders them totally. */
  lemma {:induction false} StrcmpIsOrder(a: Name, b: Name)
    ensures Strcmp(a, b) == 0 <==> a == b
    ensures Strcmp(a, b) == -Strcmp(b, a)
  {
    if a != [] && b != [] && a[0] == b[0] {
      assert NUL !in a[1..] && NUL !in b[1..];
      StrcmpIsOrder(a[1..], b[1..]);
      assert a == [a[0]] + a[1..] && b == [b[0]] + b[1..];
    }
  }

  /** The order is that of a dictionary over unsigned bytes: a is before b exactly when, behind a common beginning, a ends or
      has the lower byte. */
  lemma {:induction false} StrcmpIsDictionary(a: Name, b: Name)
    ensures Strcmp(a, b) < 0 <==> exists k | 0 <= k <= |a| && k < |b| ::
              a[..k] == b[..k] && (k == |a| || a[k] < b[k])
  {
    if a != [] && b != [] && a[0] == b[0] {
      var a', b' := a[1..], b[1..];
      assert NUL !in a' && NUL !in b';
      StrcmpIsDictionary(a', b');
      if k :| 0 <= k <= |a'| && k < |b'| && a'[..k] == b'[..k] && (k == |a'| || a'[k] < b'[k]) {
        assert a[..k + 1] == [a[0]] + a'[..k] && b[..k + 1] == [b[0]] + b'[..k];
      }
      if k :| 0 <= k <= |a| && k < |b| && a[..k] == b[..k] && (k == |a| || a[k] < b[k]) {
        assert a'[..k - 1] == a[..k][1..] && b'[..k - 1] == b[..k][1..];
      }
    } else {
      assert a[..0] == b[..0];
      if k :| 0 <= k <= |a| && k < |b| && a[..k] == b[..k] && (k == |a| || a[k] < b[k]) {
        assert k > 0 ==> a[..k][0] == b[..k][0];
      }
    }
  }

  lemma {:induction false} StrcmpTransitive(a: Name, b: Name, c: Name)
    requires Strcmp(a, b) <= 0 && Strcmp(b, c) <= 0
    ensures Strcmp(a, c) <= 0
    ensures Strcmp(a, b) < 0 || Strcmp(b, c) < 0 ==> Strcmp(a, c) < 0
  {
    if a != [] && b != [] && c != [] && a[0] == b[0] == c[0] {
      assert NUL !in a[1..] && NUL !in b[1..] && NUL !in c[1..];
      StrcmpTransitive(a[1..], b[1..], c[1..]);
    }
  }

  ghost predicate Sorted(s: seq<Name>) {
    forall i, j | 0 <= i < j < |s| :: Strcmp(s[i], s[j]) <= 0
  }

  /** Everything before p is below name, nothing from p on is. */
  ghost predicate Separates(s: seq<Name>, name: Name, p: nat) {
    && p <= |s|
    && (forall i | 0 <= i < p :: Strcmp(s[i], name) < 0)
    && (forall i | p <= i < |s| :: Strcmp(s[i], name) >= 0)
  }

  lemma SeparatedAt(s: seq<Name>, name: Name, p: nat)
    requires Sorted(s) && p <= |s| && (forall i | 0 <= i < p :: Strcmp(s[i], name) < 0)
    requires p < |s| ==> Strcmp(s[p], name) >= 0
    ensures Separates(s, name, p)
  {
    forall i | p < i < |s|
      ensures Strcmp(s[i], name) >= 0
    {
      StrcmpIsOrder(s[p], name);
      StrcmpIsOrder(s[i], name);
      StrcmpTransitive(name, s[p], s[i]);
    }
  }

  /** The place of a name in a full table lies behind it exactly when the name sorts behind the last one. Otherwise the
      shift has something to move, and moves it to the index that is the table's length. */
  lemma FullPlace(s: seq<Name>, name: Name, p: nat)
    requires Separates(s, name, p)
    ensures p <= |s|
    ensures s != [] ==> (p == |s| <==> Strcmp(s[|s| - 1], name) < 0)
  {
  }

  function Inserted(s: seq<Name>, p: nat, name: Name): seq<Name>
    requires p <= |s|
  {
    s[..p] + [name] + s[p..]
  }

  lemma InsertedElement(s: seq<Name>, p: nat, name: Name, k: nat)
    requires p <= |s| && k <= |s|
    ensures |Inserted(s, p, name)| == |s| + 1
    ensures Inserted(s, p, name)[k] == if k < p then s[k] else if k == p then name else s[k - 1]
  {
  }

  lemma InsertedSorted(s: seq<Name>, name: Name, p: nat)
    requires Sorted(s) && Separates(s, name, p)
    ensures Sorted(Inserted(s, p, name))
  {
    forall i | p <= i < |s|
      ensures Strcmp(name, s[i]) <= 0
    {
      StrcmpIsOrder(name, s[i]);
    }
  }

  lemma InsertedMultiset(s: seq<Name>, name: Name, p: nat)
    requires p <= |s|
    ensures multiset(Inserted(s, p, name)) == multiset(s) + multiset{name}
  {
    assert s == s[..p] + s[p..];
  }

  class NameTable {
    var names: array<Name>
    var count: nat

    ghost predicate Valid()
      reads this, names
    {
      names.Length == MAX_FILES_NUMBER && count <= MAX_FILES_NUMBER && Sorted(names[..count])
    }

    ghost function Contents(): (s: seq<Name>)
      reads this, names
      requires Valid()
      ensures Sorted(s) && |s| == count
    {
      names[..count]
    }

    constructor ()
      ensures Valid() && fresh(names) && Contents() == []
    {
      names := new Name[MAX_FILES_NUMBER](_ => []);
      count := 0;
    }

    /** The place of name: how many of the names are below it. */
    method Place(name: Name) returns (i: nat)
      requires Valid()
      ensures Separates(Contents(), name, i)
    {
      i := 0;
      while i < count && i < MAX_FILES_NUMBER && Strcmp(names[i], name) < 0
        invariant i <= count
        invariant forall k | 0 <= k < i :: Strcmp(names[k], name) < 0
      {
        i := i + 1;
      }
      SeparatedAt(Contents(), name, i);
    }

    /** Sorted insertion. Nothing happens when the table is full and the name sorts behind all others; when it is full
        and the name does not, the shift begins by storing behind the array: the call overruns. */
    method AddDebugTo(name: Name) returns (overrun: bool)
      requires Valid()
      modifies this`count, names
      ensures Valid() && overrun == (old(count) == MAX_FILES_NUMBER && Strcmp(old(Contents())[MAX_FILES_NUMBER - 1], name) >= 0)
      ensures count == (if old(count) < MAX_FILES_NUMBER then old(count) + 1 else old(count))
      ensures multiset(Contents()) == multiset(old(Contents())) + (if old(count) < MAX_FILES_NUMBER then multiset{name} else multiset{})
      ensures old(count) == MAX_FILES_NUMBER ==> Contents() == old(Contents())
    {
      hide Sorted, Separates, Strcmp, Inserted;
      ghost var was := Contents();
      var i := Place(name);
      FullPlace(was, name, i);
      if i >= MAX_FILES_NUMBER {
        return false;
      }
      var j := count;
      if j >= names.Length {
        return true;
      }
      InsertName(i, name);
      overrun := false;
    }

    method InsertName(i: nat, name: Name)
      requires Valid() && count < MAX_FILES_NUMBER && Separates(Contents(), name, i)
      modifies this`count, names
      ensures Valid() && count == old(count) + 1 && multiset(Contents()) == multiset(old(Contents())) + multiset{name}
    {
      hide Sorted, Separates, Strcmp, Inserted;
      ghost var was := Contents();
      FullPlace(was, name, i);
      ghost var now := Inserted(was, i, name);
      InsertedSorted(was, name, i);
      InsertedMultiset(was, name, i);
      InsertAt(i, name);
      count := count + 1;
      assert names[..count] == now;
    }

    method InsertAt(i: nat, name: Name)
      requires i <= count < names.Length
      modifies names
      ensures names[..count + 1] == Inserted(old(names[..count]), i, name)
    {
      ghost var was := names[..];
      var j := count;
      while j > i
        invariant i <= j <= count
        invariant forall k | 0 <= k <= j :: names[k] == was[k]
        invariant forall k | j < k <= count :: names[k] == was[k - 1]
      {
        names[j] := names[j - 1];
        j := j - 1;
      }
      names[i] := name;
      ghost var before := was[..count];
      assert before == old(names[..count]);
      forall k | 0 <= k <= count
        ensures names[k] == Inserted(before, i, name)[k]
      {
        InsertedElement(before, i, name, k);
      }
    }

    /** Binary search finds exactly the names in the table. */
    method IsDebugged(name: Name) returns (found: bool)
      requires Valid()
      ensures found <==> name in Contents()
    {
      ghost var s := Contents();
      var first, last := 0, count - 1;
      while first < last
        invariant 0 <= first <= count && -1 <= last < count && first <= last + 2
        invariant forall k | 0 <= k < |s| && (k < first || k > last) :: s[k] != name
        decreases last - first + 2
      {
        var middle := (first + last) / 2;
        var result := Strcmp(names[middle], name);
        ApartFrom(s, name, middle);
        if result < 0 {
          first := middle + 1;
        } else if result > 0 {
          last := middle - 1;
        } else {
          assert s[middle] == name;
          return true;
        }
      }
      if first == last {
        StrcmpIsOrder(names[first], name);
        assert s[first] == names[first];
        if Strcmp(names[first], name) == 0 {
          return true;
        }
      }
      found := false;
    }
  }

  /** On which side of a place of a sorted table a name cannot be. */
  lemma ApartFrom(s: seq<Name>, name: Name, m: nat)
    requires Sorted(s) && m < |s|
    ensures Strcmp(s[m], name) == 0 <==> s[m] == name
    ensures Strcmp(s[m], name) < 0 ==> forall k | 0 <= k <= m :: s[k] != name
    ensures Strcmp(s[m], name) > 0 ==> forall k | m <= k < |s| :: s[k] != name
  {
    StrcmpIsOrder(s[m], name);
    forall k | 0 <= k < |s| && s[k] == name
      ensures k <= m ==> Strcmp(name, s[m]) <= 0
      ensures m <= k ==> Strcmp(s[m], name) <= 0
    {
      StrcmpIsOrder(name, name);
    }
  }

  /** All of added[..64] lies below all of added[64..]. */
  ghost predicate LateAreBehind(added: seq<Name>) {
    forall k, m | 0 <= m < MAX_FILES_NUMBER <= k < |added| :: Strcmp(added[m], added[k]) < 0
  }

  /** 64 times the name "b" and then "a": a full sorted table, the place is 0, and the last call overruns. */
  lemma FullTableOverruns()
    ensures var b, a: Name := [98], [97];
            var s := seq(64, _ => b);
            Sorted(s) && Separates(s, a, 0) && Strcmp(s[63], a) >= 0 && !LateAreBehind(s + [a])
  {
    var b, a: Name := [98], [97];
    var s := seq(64, _ => b);
    StrcmpIsOrder(b, b);
    assert (s + [a])[0] == b && (s + [a])[64] == a;
  }

  /** Any series of additions to an empty table, in any order, up to the first that overruns: the table holds exactly
      the first 64 names. No call overruns exactly when the names that come too late all sort behind those. */
  method AddAll(added: seq<Name>) returns (t: NameTable, overrun: bool)
    ensures fresh(t) && fresh(t.names) && t.Valid() && overrun == !LateAreBehind(added)
    ensures multiset(t.Contents()) == multiset(added[..if |added| < MAX_FILES_NUMBER then |added| else MAX_FILES_NUMBER])
  {
    t := new NameTable();
    overrun := false;
    var i := 0;
    hide Strcmp, Sorted, LateAreBehind;
    NothingLate(added);
    while i < |added|
      invariant i <= |added| && fresh(t) && fresh(t.names) && t.Valid()
      invariant t.count == (if i < MAX_FILES_NUMBER then i else MAX_FILES_NUMBER)
      invariant multiset(t.Contents()) == multiset(added[..t.count])
      invariant LateAreBehind(added[..i])
    {
      assert i < MAX_FILES_NUMBER ==> added[..i + 1] == added[..i] + [added[i]];
      ghost var full := t.Contents();
      overrun := t.AddDebugTo(added[i]);
      LateStep(added, i, full);
      if overrun {
        return;
      }
      i := i + 1;
    }
    assert added[..i] == added;
  }

  lemma NothingLate(added: seq<Name>)
    ensures LateAreBehind(added[..0])
  {
  }

  /** One more name keeps to the rule exactly when it sorts behind the last name of the full table. */
  lemma LateStep(added: seq<Name>, i: nat, full: seq<Name>)
    requires i < |added| && LateAreBehind(added[..i]) && Sorted(full)
    requires i >= MAX_FILES_NUMBER ==> |full| == MAX_FILES_NUMBER && multiset(full) == multiset(added[..MAX_FILES_NUMBER])
    ensures i < MAX_FILES_NUMBER ==> LateAreBehind(added[..i + 1])
    ensures i >= MAX_FILES_NUMBER ==> (LateAreBehind(added[..i + 1]) <==> Strcmp(full[MAX_FILES_NUMBER - 1], added[i]) < 0)
    ensures !LateAreBehind(added[..i + 1]) ==> !LateAreBehind(added)
  {
    hide Strcmp;
    if i >= MAX_FILES_NUMBER {
      var first := added[..MAX_FILES_NUMBER];
      LastIsGreatest(full, first, added[i]);
      var now := added[..i + 1];
      assert forall m | 0 <= m < MAX_FILES_NUMBER :: now[m] == first[m] && added[..i][m] == first[m];
      assert now[i] == added[i];
      assert forall k | 0 <= k < i :: now[k] == added[..i][k];
    }
    assert forall k | 0 <= k < i + 1 :: added[..i + 1][k] == added[k];
  }

  lemma LastIsGreatest(full: seq<Name>, first: seq<Name>, name: Name)
    requires full != [] && Sorted(full) && multiset(full) == multiset(first)
    ensures Strcmp(full[|full| - 1], name) < 0 <==> forall m | 0 <= m < |first| :: Strcmp(first[m], name) < 0
  {
    hide Strcmp;
    var last := full[|full| - 1];
    assert last in multiset(first);
    if Strcmp(last, name) < 0 {
      forall m | 0 <= m < |first|
        ensures Strcmp(first[m], name) < 0
      {
        assert first[m] in multiset(full);
        var k :| 0 <= k < |full| && full[k] == first[m];
        StrcmpIsOrder(last, last);
        StrcmpTransitive(full[k], last, name);
      }
    }
  }
}
