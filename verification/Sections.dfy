/**
 Layout of the sections of an address space: sorted by their start, then placed one
 after the other.
 */
module Sections {
  import opened Basics

  datatype Section = Section(size: Word, align: Word, init: Word, final: Word)

  /** For powers of two, masking the low bits off takes the remainder away. */
  function AlignDown(v: Word, a: Word): (r: Word)
    requires a > 0
    ensures r <= v < r + a && r % a == 0
  {
    Remainder(v, a);
    v - v % a
  }

  lemma Remainder(v: nat, a: nat)
    requires a > 0
    ensures (v - v % a) % a == 0
  {
    var q := v / a;
    assert v - v % a == a * q;
    RemainderIs(v - v % a, a, q, 0);
  }

  function AlignUp(v: Word, a: Word): Word
    requires a > 0
  {
    AlignDown((v + a - 1) % 0x1_0000_0000_0000_0000, a)
  }

  /** Without overflow it rounds up: aligned, not below v, by less than a. */
  lemma AlignUpRounds(v: Word, a: Word)
    requires a > 0 && v + a - 1 < 0x1_0000_0000_0000_0000
    ensures v <= AlignUp(v, a) < v + a && AlignUp(v, a) % a == 0
  {
  }

  /** The section placed at base. Its start is never moved, whatever the alignment. */
  function Placed(s: Section, base: Word, bytesAligned: Word): (r: Section)
    requires s.align > 0 && bytesAligned > 0
    ensures r.init == base && r.size == s.size && r.align == s.align
  {
    var end := (base + s.size) % 0x1_0000_0000_0000_0000;
    var down := AlignDown(base, bytesAligned);
    s.(init := if down < base then base else down, final := AlignUp(end, s.align))
  }

  /** Its end is rounded up to its own alignment. */
  lemma PlacedEnds(s: Section, base: Word, bytesAligned: Word)
    requires s.align > 0 && bytesAligned > 0 && base + s.size + s.align <= 0x1_0000_0000_0000_0000
    ensures base + s.size <= Placed(s, base, bytesAligned).final < base + s.size + s.align
    ensures Placed(s, base, bytesAligned).final % s.align == 0
  {
    hide AlignUp;
    AlignUpRounds(base + s.size, s.align);
  }

  // ----- sizes -----

  function SizeOf(table: map<string, Section>, names: seq<string>): nat
    requires forall i :: 0 <= i < |names| ==> names[i] in table
  {
    if names == [] then 0 else SizeOf(table, names[..|names| - 1]) + table[names[|names| - 1]].size
  }

  /** The sizes of all sections, in whatever order the table is walked. */
  ghost function SpaceSize(table: map<string, Section>): nat
    decreases |table|
  {
    if table == map[] then 0
    else
      var n :| n in table;
      table[n].size + SpaceSize(table - {n})
  }

  lemma {:induction false} SpaceSizeRemove(table: map<string, Section>, n: string)
    requires n in table
    ensures SpaceSize(table) == table[n].size + SpaceSize(table - {n})
    decreases |table|
  {
    var m :| m in table && SpaceSize(table) == table[m].size + SpaceSize(table - {m});
    if m != n {
      SpaceSizeRemove(table - {m}, n);
      SpaceSizeRemove(table - {n}, m);
      assert table - {m} - {n} == table - {n} - {m};
    }
  }

  ghost predicate Lists(names: seq<string>, table: map<string, Section>) {
    (forall i :: 0 <= i < |names| ==> names[i] in table) && (forall n :: n in table ==> n in names)
  }

  /** Listed once each, the sections have the size of the space. */
  lemma {:induction false} SizeOfAll(table: map<string, Section>, names: seq<string>)
    requires Lists(names, table) && Distinct(names)
    ensures SizeOf(table, names) == SpaceSize(table)
    decreases |names|
  {
    if names == [] {
      assert table == map[];
    } else {
      var last, rest := names[|names| - 1], names[..|names| - 1];
      assert names == rest + [last];
      SpaceSizeRemove(table, last);
      assert forall n :: n in table - {last} ==> n in rest;
      SizeOfAll(table - {last}, rest);
      SizeOfSame(table - {last}, table, rest);
    }
  }

  lemma {:induction false} SizeOfSame(a: map<string, Section>, b: map<string, Section>, names: seq<string>)
    requires forall i :: 0 <= i < |names| ==> names[i] in a && names[i] in b && a[names[i]].size == b[names[i]].size
    ensures SizeOf(a, names) == SizeOf(b, names)
  {
    if names != [] { SizeOfSame(a, b, names[..|names| - 1]); }
  }

  // ----- the layout -----

  /** Each section starts where the sizes before it end. */
  ghost predicate LaidOut(table: map<string, Section>, names: seq<string>, base: nat, k: nat)
    requires k <= |names| && forall i :: 0 <= i < |names| ==> names[i] in table
  {
    forall i :: 0 <= i < k ==>
      && table[names[i]].init == base + SizeOf(table, names[..i])
      && table[names[i]].final >= table[names[i]].init + table[names[i]].size
      && table[names[i]].align > 0 && table[names[i]].final % table[names[i]].align == 0
  }

  lemma {:induction false} SizeOfPrefix(table: map<string, Section>, names: seq<string>, i: nat)
    requires i < |names| && forall j :: 0 <= j < |names| ==> names[j] in table
    ensures SizeOf(table, names[..i]) + table[names[i]].size == SizeOf(table, names[..i + 1]) <= SizeOf(table, names)
  {
    assert names[..i + 1][..i] == names[..i];
    if i < |names| - 1 {
      var rest := names[..|names| - 1];
      assert rest[..i] == names[..i] && rest[..i + 1] == names[..i + 1];
      SizeOfPrefix(table, rest, i);
    } else {
      assert names[..i + 1] == names;
    }
  }

  /** Contiguous and disjoint: an address of the space lies in exactly one section. */
  lemma {:induction false} OneSection(table: map<string, Section>, names: seq<string>, base: nat, a: nat)
    returns (i: nat)
    requires forall j :: 0 <= j < |names| ==> names[j] in table
    requires LaidOut(table, names, base, |names|) && base <= a < base + SizeOf(table, names)
    ensures i < |names| && table[names[i]].init <= a < table[names[i]].init + table[names[i]].size
    ensures forall j :: 0 <= j < |names| && table[names[j]].init <= a < table[names[j]].init + table[names[j]].size ==>
              j == i
  {
    hide LaidOut, SizeOf;
    assert names[..|names|] == names;
    i := Locate(table, names, base, a, |names|);
    forall j | 0 <= j < |names| && table[names[j]].init <= a < table[names[j]].init + table[names[j]].size
      ensures j == i {
      Before(table, names, base, i, j);
      Before(table, names, base, j, i);
    }
  }

  lemma {:induction false} Locate(table: map<string, Section>, names: seq<string>, base: nat, a: nat, k: nat)
    returns (i: nat)
    requires k <= |names| && forall j :: 0 <= j < |names| ==> names[j] in table
    requires LaidOut(table, names, base, |names|) && base <= a < base + SizeOf(table, names[..k])
    ensures i < k && table[names[i]].init <= a < table[names[i]].init + table[names[i]].size
  {
    SizeOfPrefix(table, names, k - 1);
    if a < base + SizeOf(table, names[..k - 1]) { i := Locate(table, names, base, a, k - 1); } else { i := k - 1; }
  }

  lemma {:induction false} Before(table: map<string, Section>, names: seq<string>, base: nat, i: nat, j: nat)
    requires i < |names| && j < |names| && forall k :: 0 <= k < |names| ==> names[k] in table
    requires LaidOut(table, names, base, |names|)
    ensures i < j ==> table[names[i]].init + table[names[i]].size <= table[names[j]].init
  {
    if i < j {
      SizeOfPrefix(table, names, i);
      if i + 1 < j {
        Before(table, names, base, i, j - 1);
        SizeOfPrefix(table, names, j - 1);
      }
    }
  }

  class Space {
    const base: Word
    var table: map<string, Section>
    var ordered: seq<string>

    ghost predicate Valid()
      reads this
    {
      Lists(ordered, table) && forall n :: n in table ==> PowerOfTwo(table[n].align)
    }

    constructor (base: Word)
      ensures Valid() && this.base == base && table == map[] && ordered == []
    {
      this.base := base;
      table, ordered := map[], [];
    }

    /** A name already there is overwritten, and listed again. */
    method AddSection(name: string, s: Section)
      requires Valid() && PowerOfTwo(s.align)
      modifies this
      ensures Valid() && table == old(table)[name := s] && ordered == old(ordered) + [name]
    {
      table := table[name := s];
      ordered := ordered + [name];
    }

    /** Without overflow: sorted by the old starts, then each section where it is
        listed last. They are contiguous from the base exactly if no size lies between
        two listings of a name; listed once each, they fill the size of the space. */
    method ComputeRanges(bytesAligned: Word)
      requires PowerOfTwo(bytesAligned) && Valid() && Roomy(table, base, SizeOf(table, ordered))
      modifies this
      ensures Valid() && multiset(ordered) == multiset(old(ordered)) && SameShape(old(table), table)
      ensures Ascending(old(table), ordered)
      ensures PlacedSoFar(old(table), table, ordered, base, |ordered|)
      ensures LaidOut(table, ordered, base, |ordered|) <==> NothingBetween(old(table), ordered)
      ensures SizeOf(table, ordered) == old(SizeOf(table, ordered))
      ensures Distinct(old(ordered)) ==>
        LaidOut(table, ordered, base, |ordered|) && SizeOf(table, ordered) == old(SpaceSize(table))
    {
      hide SizeOf, SpaceSize, Distinct, PlacedSoFar, Ascending, LaidOut, PowerOfTwo, Roomy, Placed, NothingBetween,
           Sorted;
      ordered := Sorted(table, ordered);
      SortedIs(table, old(ordered));
      SortedSize(table, old(ordered));
      StillLists(old(ordered), ordered, table);
      PlaceAll(bytesAligned);
      LaidOutIff(old(table), table, ordered, base);
      if Distinct(old(ordered)) {
        StillDistinct(old(ordered), ordered);
        SizeOfAll(old(table), ordered);
        DistinctBetween(old(table), ordered);
      }
    }

    /** The loop: each section starts where the one before it really ends. */
    method PlaceAll(bytesAligned: Word)
      requires PowerOfTwo(bytesAligned) && Valid() && Roomy(table, base, SizeOf(table, ordered))
      modifies this`table
      ensures Valid() && SameShape(old(table), table)
      ensures PlacedSoFar(old(table), table, ordered, base, |ordered|)
    {
      hide SizeOf, PlacedSoFar, PowerOfTwo, Roomy, Placed, PlacedAt;
      ghost var t0 := table;
      var start: Word := base;
      NothingPlaced(t0, ordered, base);
      for i := 0 to |ordered|
        invariant SameShape(t0, table)
        invariant start == base + SizeOf(t0, ordered[..i])
        invariant PlacedSoFar(t0, table, ordered, base, i)
      {
        SizeOfPrefix(t0, ordered, i);
        var n := ordered[i];
        ghost var before := table;
        Room(t0, base, n, start, table[n], bytesAligned, SizeOf(t0, ordered));
        table := table[n := Placed(table[n], start, bytesAligned)];
        PlacedNext(t0, before, table, ordered, base, i);
        start := (start + table[n].size) % 0x1_0000_0000_0000_0000;
      }
      assert ordered[..|ordered|] == ordered;
    }
  }

  ghost predicate SameShape(t0: map<string, Section>, table: map<string, Section>) {
    table.Keys == t0.Keys && forall n :: n in table ==> table[n].size == t0[n].size && table[n].align == t0[n].align
  }

  /** Nothing overflows 64 bits, rounding included. */
  ghost predicate Roomy(table: map<string, Section>, base: Word, size: nat) {
    forall n :: n in table ==> base + size + table[n].align <= 0x1_0000_0000_0000_0000
  }

  lemma Room(t0: map<string, Section>, base: Word, n: string, start: Word, s: Section, bytesAligned: Word, size: nat)
    requires n in t0 && s.size == t0[n].size && s.align == t0[n].align && PowerOfTwo(s.align)
             && PowerOfTwo(bytesAligned)
    requires start + s.size <= base + size && Roomy(t0, base, size)
    ensures s.align > 0 && bytesAligned > 0 && start + s.size < 0x1_0000_0000_0000_0000
    ensures PlacedAt(Placed(s, start, bytesAligned), start)
    ensures Placed(s, start, bytesAligned).size == s.size && Placed(s, start, bytesAligned).align == s.align
  {
    hide Placed;
    PlacedEnds(s, start, bytesAligned);
  }

  lemma NothingPlaced(t0: map<string, Section>, names: seq<string>, base: nat)
    requires forall i :: 0 <= i < |names| ==> names[i] in t0
    ensures PlacedSoFar(t0, t0, names, base, 0) && SizeOf(t0, names[..0]) == 0
  {
  }

  // ----- sorting -----

  function Insert(table: map<string, Section>, names: seq<string>, n: string): seq<string>
    requires n in table && forall i :: 0 <= i < |names| ==> names[i] in table
  {
    if names == [] || table[names[|names| - 1]].init <= table[n].init then names + [n]
    else Insert(table, names[..|names| - 1], n) + [names[|names| - 1]]
  }

  function Sorted(table: map<string, Section>, names: seq<string>): (r: seq<string>)
    requires forall i :: 0 <= i < |names| ==> names[i] in table
    ensures forall i :: 0 <= i < |r| ==> r[i] in table
  {
    if names == [] then []
    else
      var rest := Sorted(table, names[..|names| - 1]);
      InsertKeeps(table, rest, names[|names| - 1]);
      Insert(table, rest, names[|names| - 1])
  }

  ghost predicate Ascending(table: map<string, Section>, names: seq<string>) {
    && (forall i :: 0 <= i < |names| ==> names[i] in table)
    && (forall i, j :: 0 <= i < j < |names| ==> table[names[i]].init <= table[names[j]].init)
  }

  lemma {:induction false} InsertKeeps(table: map<string, Section>, names: seq<string>, n: string)
    requires n in table && forall i :: 0 <= i < |names| ==> names[i] in table
    ensures multiset(Insert(table, names, n)) == multiset(names) + multiset{n}
    ensures forall i :: 0 <= i < |Insert(table, names, n)| ==> Insert(table, names, n)[i] in table
  {
    if names != [] {
      var rest := names[..|names| - 1];
      assert names == rest + [names[|names| - 1]];
      InsertKeeps(table, rest, n);
    }
  }

  lemma {:induction false} InsertAscends(table: map<string, Section>, names: seq<string>, n: string)
    requires n in table && Ascending(table, names)
    ensures Ascending(table, Insert(table, names, n))
    ensures forall i :: 0 <= i < |Insert(table, names, n)| ==>
      Insert(table, names, n)[i] == n || exists j :: 0 <= j < |names| && names[j] == Insert(table, names, n)[i]
  {
    InsertKeeps(table, names, n);
    if names != [] && table[names[|names| - 1]].init > table[n].init {
      InsertAscends(table, names[..|names| - 1], n);
    }
  }

  lemma {:induction false} SortedIs(table: map<string, Section>, names: seq<string>)
    requires forall i :: 0 <= i < |names| ==> names[i] in table
    ensures multiset(Sorted(table, names)) == multiset(names) && Ascending(table, Sorted(table, names))
  {
    hide Ascending, Insert;
    if names == [] {
      NothingAscends(table);
    } else {
      var rest := names[..|names| - 1];
      assert names == rest + [names[|names| - 1]];
      SortedIs(table, rest);
      InsertKeeps(table, Sorted(table, rest), names[|names| - 1]);
      InsertAscends(table, Sorted(table, rest), names[|names| - 1]);
    }
  }

  lemma NothingAscends(table: map<string, Section>)
    ensures Ascending(table, [])
  {
  }

  lemma StillLists(a: seq<string>, b: seq<string>, table: map<string, Section>)
    requires Lists(a, table) && multiset(a) == multiset(b)
    ensures Lists(b, table)
  {
    forall n | n in a ensures n in b { assert n in multiset(b); }
    forall i | 0 <= i < |b| ensures b[i] in table { assert b[i] in multiset(a); }
  }

  /** Position i is the last of the first k to list its name. */
  ghost predicate LastListing(names: seq<string>, i: nat, k: nat)
    requires i < k <= |names|
  {
    forall j :: i < j < k ==> names[j] != names[i]
  }

  /** The first k listings are placed, by the sizes of t0; the last of a name counts. */
  ghost predicate PlacedSoFar(t0: map<string, Section>, table: map<string, Section>, names: seq<string>, base: nat,
                              k: nat)
    requires k <= |names| && forall i :: 0 <= i < |names| ==> names[i] in table && names[i] in t0
  {
    forall i :: 0 <= i < k && LastListing(names, i, k) ==> PlacedAt(table[names[i]], base + SizeOf(t0, names[..i]))
  }

  ghost predicate PlacedAt(s: Section, at: nat) {
    s.init == at && s.align > 0 && s.final >= s.init + s.size && s.final % s.align == 0
  }

  lemma PlacedNext(t0: map<string, Section>, before: map<string, Section>, table: map<string, Section>,
                   names: seq<string>, base: nat, k: nat)
    requires k < |names| && forall i :: 0 <= i < |names| ==> names[i] in before && names[i] in t0
    requires names[k] in table && table == before[names[k] := table[names[k]]]
    requires PlacedAt(table[names[k]], base + SizeOf(t0, names[..k]))
    requires PlacedSoFar(t0, before, names, base, k)
    ensures PlacedSoFar(t0, table, names, base, k + 1)
  {
    hide PlacedAt, SizeOf;
    forall i | 0 <= i < k + 1 && LastListing(names, i, k + 1)
      ensures PlacedAt(table[names[i]], base + SizeOf(t0, names[..i])) {
      if i < k { assert LastListing(names, i, k) && table[names[i]] == before[names[i]]; }
    }
  }

  /** No section with a size stands between two listings of a name. */
  ghost predicate NothingBetween(table: map<string, Section>, names: seq<string>)
    requires forall i :: 0 <= i < |names| ==> names[i] in table
  {
    forall i, j :: 0 <= i < j < |names| && names[i] == names[j] ==>
      SizeOf(table, names[..i]) == SizeOf(table, names[..j])
  }

  lemma DistinctBetween(table: map<string, Section>, names: seq<string>)
    requires Distinct(names) && forall i :: 0 <= i < |names| ==> names[i] in table
    ensures NothingBetween(table, names)
  {
  }

  lemma {:induction false} FindLast(names: seq<string>, i: nat, k: nat) returns (j: nat)
    requires i < k <= |names|
    ensures i <= j < k && names[j] == names[i] && LastListing(names, j, k)
  {
    j := k - 1;
    if names[j] != names[i] { j := FindLast(names, i, k - 1); }
  }

  lemma LaidOutIff(t0: map<string, Section>, table: map<string, Section>, names: seq<string>, base: nat)
    requires forall i :: 0 <= i < |names| ==>
               names[i] in table && names[i] in t0 && table[names[i]].size == t0[names[i]].size
    requires PlacedSoFar(t0, table, names, base, |names|)
    ensures LaidOut(table, names, base, |names|) <==> NothingBetween(t0, names)
    ensures SizeOf(table, names) == SizeOf(t0, names)
  {
    hide SizeOf, LastListing;
    SizeOfSame(t0, table, names);
    forall i | 0 <= i < |names| ensures SizeOf(table, names[..i]) == SizeOf(t0, names[..i]) {
      SizeOfSame(t0, table, names[..i]);
    }
    if NothingBetween(t0, names) {
      forall i | 0 <= i < |names| ensures PlacedAt(table[names[i]], base + SizeOf(t0, names[..i])) {
        var j := FindLast(names, i, |names|);
      }
    }
  }

  lemma {:induction false} InsertSize(table: map<string, Section>, names: seq<string>, n: string)
    requires n in table && forall i :: 0 <= i < |names| ==> names[i] in table
    ensures forall i :: 0 <= i < |Insert(table, names, n)| ==> Insert(table, names, n)[i] in table
    ensures SizeOf(table, Insert(table, names, n)) == SizeOf(table, names) + table[n].size
  {
    InsertKeeps(table, names, n);
    var r := Insert(table, names, n);
    if names == [] || table[names[|names| - 1]].init <= table[n].init {
      assert r[..|r| - 1] == names;
    } else {
      InsertSize(table, names[..|names| - 1], n);
      assert r[..|r| - 1] == Insert(table, names[..|names| - 1], n);
    }
  }

  /** Sorting keeps the sum of the sizes. */
  lemma {:induction false} SortedSize(table: map<string, Section>, names: seq<string>)
    requires forall i :: 0 <= i < |names| ==> names[i] in table
    ensures SizeOf(table, Sorted(table, names)) == SizeOf(table, names)
  {
    hide Insert;
    if names != [] {
      SortedSize(table, names[..|names| - 1]);
      InsertSize(table, Sorted(table, names[..|names| - 1]), names[|names| - 1]);
    }
  }

  lemma StillDistinct(a: seq<string>, b: seq<string>)
    requires Distinct(a) && multiset(a) == multiset(b)
    ensures Distinct(b)
  {
    forall i, j | 0 <= i < j < |b| ensures b[i] != b[j] {
      AtMostOnce(a, b[i]);
      TwiceCounts(b, i, j);
    }
  }

  lemma {:induction false} AtMostOnce(a: seq<string>, x: string)
    requires Distinct(a)
    ensures multiset(a)[x] <= 1
  {
    if a != [] {
      var rest, last := a[..|a| - 1], a[|a| - 1];
      assert a == rest + [last];
      AtMostOnce(rest, x);
      assert last == x ==> x !in rest;
    }
  }

  lemma TwiceCounts(b: seq<string>, i: nat, j: nat)
    requires i < j < |b|
    ensures b[i] == b[j] ==> multiset(b)[b[i]] >= 2
  {
    assert b == b[..j] + [b[j]] + b[j + 1..];
    assert b[..j][i] == b[i] && b[i] in b[..j];
    assert multiset(b[..j])[b[i]] >= 1;
  }

  // ----- a section added twice -----

  /** Adding one name twice and laying out the space: the section starts one size above
      the base, and its size is counted twice. */
  method AddedTwice(base: Word, name: string, s: Section, bytesAligned: Word) returns (start: Word, counted: nat)
    requires PowerOfTwo(s.align) && PowerOfTwo(bytesAligned)
    requires base + 2 * s.size + s.align <= 0x1_0000_0000_0000_0000
    ensures start == base + s.size && counted == 2 * s.size
  {
    hide PowerOfTwo, LaidOut, Ascending, NothingBetween, SpaceSize, Distinct;
    var space := new Space(base);
    space.AddSection(name, s);
    space.AddSection(name, s);
    ghost var table := space.table;
    var names := [name, name];
    assert space.ordered == names;
    TwoOf(table, name, names);
    space.ComputeRanges(bytesAligned);
    SameTwo(space.ordered, name);
    TwoOf(space.table, name, names);
    assert LastListing(space.ordered, 1, 2);
    assert space.table[name].size == s.size;
    start := space.table[name].init;
    counted := SizeOf(space.table, names);
  }

  lemma TwoOf(table: map<string, Section>, name: string, names: seq<string>)
    requires name in table && names == [name, name]
    ensures SizeOf(table, names) == 2 * table[name].size && SizeOf(table, names[..1]) == table[name].size
  {
    var one := names[..1];
    assert one == [name] && one[..|one| - 1] == [];
    assert SizeOf(table, one) == SizeOf(table, one[..|one| - 1]) + table[name].size;
  }

  lemma SameTwo(names: seq<string>, name: string)
    requires multiset(names) == multiset([name, name])
    ensures names == [name, name]
  {
    assert |multiset(names)| == |names|;
    forall i | 0 <= i < |names| ensures names[i] == name { assert names[i] in multiset(names); }
  }
}
