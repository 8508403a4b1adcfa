/**
 The open-addressing hash table that maps payload pointers to handles: linear
 probing, tombstones left by erase, and doubling once half of the buckets have
 been used.  The bucket vector is refined here to a finite map.
 */
module PtrHandleMap {
  import opened Basics
  import opened HeapTypes

  const EMPTY: Ptr := 0
  const TOMBSTONE: Ptr := 1

  datatype Entry = Entry(key: Ptr, value: Handle)

  predicate IsLive(k: Ptr) {
    k != EMPTY && k != TOMBSTONE
  }

  predicate Occupied(k: Ptr) {
    k != EMPTY
  }

  predicate Buried(k: Ptr) {
    k == TOMBSTONE
  }

  /** The home bucket. The capacity is a power of two, so masking with
      capacity - 1 is the remainder. */
  function Home(k: Ptr, cap: nat): (i: nat)
    requires cap > 0
    ensures i < cap
  {
    (k / 8) % cap
  }

  /** The bucket reached after j probes from bucket h. */
  function At(h: nat, j: nat, cap: nat): (i: nat)
    requires h < cap && j < cap
    ensures i < cap
  {
    if h + j < cap then h + j else h + j - cap
  }

  /** The number of probes that separate bucket i from bucket h. */
  function Dist(h: nat, i: nat, cap: nat): (j: nat)
    requires h < cap && i < cap
    ensures j < cap && At(h, j, cap) == i
  {
    if h <= i then i - h else i + cap - h
  }

  /** No EMPTY bucket interrupts the probe sequence of k before bucket i. */
  ghost predicate Reaches(t: seq<Entry>, k: Ptr, i: nat)
    requires i < |t|
  {
    forall j :: 0 <= j < Dist(Home(k, |t|), i, |t|) ==> t[At(Home(k, |t|), j, |t|)].key != EMPTY
  }

  /** The buckets t hold exactly the map m. */
  ghost predicate Represents(t: seq<Entry>, m: map<Ptr, Handle>) {
    && (forall i :: 0 <= i < |t| && IsLive(t[i].key) ==>
          t[i].key in m && m[t[i].key] == t[i].value && Reaches(t, t[i].key, i))
    && (forall k :: k in m ==> IsLive(k) && HasKey(t, k))
    && (forall i, j :: 0 <= i < j < |t| && IsLive(t[i].key) ==> t[i].key != t[j].key)
    && (forall i :: 0 <= i < |t| && !IsLive(t[i].key) ==> t[i].value == NULL_HANDLE)
  }

  ghost predicate HasKey(t: seq<Entry>, k: Ptr) {
    exists i :: 0 <= i < |t| && t[i].key == k
  }

  ghost function Count(t: seq<Entry>, p: Ptr -> bool): nat {
    if t == [] then 0 else Count(t[..|t| - 1], p) + (if p(t[|t| - 1].key) then 1 else 0)
  }

  lemma {:induction false} CountUpdate(t: seq<Entry>, i: nat, e: Entry, p: Ptr -> bool)
    requires i < |t|
    ensures Count(t[i := e], p) ==
            Count(t, p) - (if p(t[i].key) then 1 else 0) + (if p(e.key) then 1 else 0)
  {
    var last := |t| - 1;
    if i < last {
      CountUpdate(t[..last], i, e, p);
      assert t[i := e][..last] == t[..last][i := e];
    } else {
      assert t[i := e][..last] == t[..last];
    }
  }

  lemma {:induction false} CountBound(t: seq<Entry>, p: Ptr -> bool)
    ensures Count(t, p) <= |t|
    ensures Count(t, p) == |t| <==> forall i :: 0 <= i < |t| ==> p(t[i].key)
  {
    if t != [] {
      var last := |t| - 1;
      CountBound(t[..last], p);
      assert forall i :: 0 <= i < last ==> t[..last][i] == t[i];
      if Count(t, p) == |t| {
        forall i | 0 <= i < |t| ensures p(t[i].key) {
          if i < last { assert t[i] == t[..last][i]; }
        }
      }
    }
  }

  lemma {:induction false} CountNone(t: seq<Entry>, p: Ptr -> bool)
    requires forall i :: 0 <= i < |t| ==> !p(t[i].key)
    ensures Count(t, p) == 0
  {
    if t != [] {
      CountNone(t[..|t| - 1], p);
    }
  }

  /** While fewer buckets are occupied than exist, every probe sequence meets an
      EMPTY bucket. */
  lemma ProbeMeetsEmpty(t: seq<Entry>, h: nat) returns (j: nat)
    requires h < |t| && Count(t, Occupied) < |t|
    ensures j < |t| && t[At(h, j, |t|)].key == EMPTY
  {
    CountBound(t, Occupied);
    var i :| 0 <= i < |t| && !Occupied(t[i].key);
    j := Dist(h, i, |t|);
  }

  /** The first n probes for k met neither k nor an EMPTY bucket. */
  ghost predicate Probed(t: seq<Entry>, k: Ptr, n: nat)
    requires n <= |t|
  {
    forall j :: 0 <= j < n ==> var e := t[At(Home(k, |t|), j, |t|)]; e.key != k && e.key != EMPTY
  }

  lemma ProbeStep(t: seq<Entry>, k: Ptr, n: nat)
    requires n < |t| && Probed(t, k, n)
    requires t[At(Home(k, |t|), n, |t|)].key != k && t[At(Home(k, |t|), n, |t|)].key != EMPTY
    ensures Probed(t, k, n + 1)
  {
  }

  lemma ProbedReaches(t: seq<Entry>, k: Ptr, n: nat, i: nat)
    requires n < |t| && Probed(t, k, n) && i < |t| && Dist(Home(k, |t|), i, |t|) <= n
    ensures Reaches(t, k, i)
  {
  }

  /** A probe that reaches an EMPTY bucket without meeting k proves k absent. */
  lemma ProbeMiss(t: seq<Entry>, m: map<Ptr, Handle>, k: Ptr, n: nat)
    requires Represents(t, m) && n < |t| && Probed(t, k, n)
    requires t[At(Home(k, |t|), n, |t|)].key == EMPTY
    ensures k !in m
  {
    forall i | 0 <= i < |t| && IsLive(k)
      ensures t[i].key != k
    {
      if IsLive(t[i].key) {
        assert Reaches(t, t[i].key, i);
        var d := Dist(Home(t[i].key, |t|), i, |t|);
        assert At(Home(t[i].key, |t|), d, |t|) == i;
      }
    }
    assert IsLive(k) ==> !HasKey(t, k);
  }

  /** Filling an unused bucket that the probe sequence of k reaches adds k. */
  lemma PlaceRepresents(t: seq<Entry>, m: map<Ptr, Handle>, k: Ptr, h: Handle, pos: nat)
    requires Represents(t, m) && IsLive(k) && k !in m
    requires pos < |t| && !IsLive(t[pos].key) && Reaches(t, k, pos)
    ensures Represents(t[pos := Entry(k, h)], m[k := h])
  {
    var t' := t[pos := Entry(k, h)];
    forall i | 0 <= i < |t'| && IsLive(t'[i].key)
      ensures t'[i].key in m[k := h] && m[k := h][t'[i].key] == t'[i].value && Reaches(t', t'[i].key, i)
    {
      assert i == pos || t'[i] == t[i];
      assert Reaches(t, t'[i].key, i);
    }
    forall k' | k' in m[k := h] ensures IsLive(k') && HasKey(t', k') {
      if k' == k {
        assert t'[pos].key == k;
      } else {
        assert HasKey(t, k');
        var i :| 0 <= i < |t| && t[i].key == k';
        assert t'[i].key == k';
      }
    }
    forall i, j | 0 <= i < j < |t'| && IsLive(t'[i].key) ensures t'[i].key != t'[j].key {
      assert i != pos ==> t[i].key in m;
      assert j != pos && IsLive(t[j].key) ==> t[j].key in m;
    }
  }

  lemma AssignRepresents(t: seq<Entry>, m: map<Ptr, Handle>, h: Handle, pos: nat)
    requires Represents(t, m)
    requires pos < |t| && IsLive(t[pos].key)
    ensures Represents(t[pos := Entry(t[pos].key, h)], m[t[pos].key := h])
  {
    var k := t[pos].key;
    var t' := t[pos := Entry(k, h)];
    forall i | 0 <= i < |t'| ensures t'[i].key == t[i].key {}
    forall i | 0 <= i < |t'| && IsLive(t'[i].key)
      ensures t'[i].key in m[k := h] && m[k := h][t'[i].key] == t'[i].value && Reaches(t', t'[i].key, i)
    {
      assert Reaches(t, t[i].key, i);
      if i != pos {
        assert t[i].key != k by {
          if i < pos { assert t[i].key != t[pos].key; } else { assert t[pos].key != t[i].key; }
        }
      }
    }
    forall k' | k' in m[k := h] ensures IsLive(k') && HasKey(t', k') {
      assert k' in m;
      assert HasKey(t, k');
      var i :| 0 <= i < |t| && t[i].key == k';
      assert t'[i].key == k';
    }
    forall i, j | 0 <= i < j < |t'| && IsLive(t'[i].key) ensures t'[i].key != t'[j].key {
      assert t[i].key != t[j].key;
    }
  }

  lemma BuryRepresents(t: seq<Entry>, m: map<Ptr, Handle>, pos: nat)
    requires Represents(t, m)
    requires pos < |t| && IsLive(t[pos].key)
    ensures Represents(t[pos := Entry(TOMBSTONE, NULL_HANDLE)], m - {t[pos].key})
  {
    var k := t[pos].key;
    var t' := t[pos := Entry(TOMBSTONE, NULL_HANDLE)];
    forall i | 0 <= i < |t'| && IsLive(t'[i].key)
      ensures t'[i].key in m - {k} && m[t'[i].key] == t'[i].value && Reaches(t', t'[i].key, i)
    {
      assert i != pos && t'[i] == t[i];
      assert t[i].key != k by {
        if i < pos { assert t[i].key != t[pos].key; } else { assert t[pos].key != t[i].key; }
      }
      assert Reaches(t, t[i].key, i);
    }
    forall k' | k' in m - {k} ensures IsLive(k') && HasKey(t', k') {
      assert HasKey(t, k');
      var i :| 0 <= i < |t| && t[i].key == k';
      assert t'[i].key == k';
    }
    forall i, j | 0 <= i < j < |t'| && IsLive(t'[i].key) ensures t'[i].key != t'[j].key {
      assert t[i].key != t[j].key;
    }
  }

  /** c holds the live entries among the first i buckets of t, which represents m. */
  ghost predicate Copied(t: seq<Entry>, m: map<Ptr, Handle>, i: nat, c: map<Ptr, Handle>)
    requires i <= |t|
  {
    && Represents(t, m)
    && (forall j :: 0 <= j < i && IsLive(t[j].key) ==> t[j].key in c)
    && (forall k :: k in c ==> k in m && c[k] == m[k])
  }

  lemma CopyStep(t: seq<Entry>, m: map<Ptr, Handle>, i: nat, c: map<Ptr, Handle>)
    requires i < |t| && Copied(t, m, i, c)
    ensures Copied(t, m, i + 1, if IsLive(t[i].key) then c[t[i].key := t[i].value] else c)
  {
  }

  lemma CopiedSize(t: seq<Entry>, m: map<Ptr, Handle>, i: nat, c: map<Ptr, Handle>)
    requires i <= |t| && Copied(t, m, i, c)
    ensures |c| <= |m|
  {
    SubsetSize(c.Keys, m.Keys);
    assert |c.Keys| == |c| && |m.Keys| == |m|;
  }

  lemma CopiedAll(t: seq<Entry>, m: map<Ptr, Handle>, c: map<Ptr, Handle>)
    requires Copied(t, m, |t|, c)
    ensures c == m
  {
    forall k | k in m ensures k in c {
      assert HasKey(t, k);
    }
  }

  lemma UpdateSize(m: map<Ptr, Handle>, k: Ptr, h: Handle)
    requires k in m
    ensures |m[k := h]| == |m| && |m - {k}| == |m| - 1
  {
    assert m[k := h].Keys == m.Keys && (m - {k}).Keys == m.Keys - {k};
    assert |m.Keys| == |m| && |m[k := h].Keys| == |m[k := h]| && |(m - {k}).Keys| == |m - {k}|;
  }

  lemma KeyHeld(table: seq<Entry>, m: map<Ptr, Handle>, pos: nat)
    requires Represents(table, m) && pos < |table| && IsLive(table[pos].key)
    ensures table[pos].key in m
  {
  }

  class PtrTable {
    var table: seq<Entry>
    var mask: nat
    var liveCount: nat
    var used: nat
    var growAt: nat
    ghost var contents: map<Ptr, Handle>

    ghost predicate Valid()
      reads this
    {
      && |table| >= 64 && PowerOfTwo(|table|)
      && mask == |table| - 1
      && growAt == |table| / 2
      && Represents(table, contents)
      && used == Count(table, Occupied) <= growAt
      && liveCount == |contents|
      && used == liveCount + Count(table, Buried)
    }

    constructor ()
      ensures Valid() && contents == map[]
    {
      var t := seq(64, _ => Entry(EMPTY, NULL_HANDLE));
      table := t;
      mask, growAt, liveCount, used := 63, 32, 0, 0;
      contents := map[];
      CountNone(t, Occupied);
      CountNone(t, Buried);
      assert PowerOfTwo(64) by { assert PowerOfTwo(4); assert PowerOfTwo(16); }
    }

    method Clear()
      requires Valid()
      modifies this
      ensures Valid() && contents == map[]
      ensures |table| == old(|table|)
    {
      Reset(|table|);
    }

    /** Make every one of cap buckets EMPTY. */
    method Reset(cap: nat)
      requires cap >= 64 && PowerOfTwo(cap)
      modifies this
      ensures Valid() && contents == map[] && |table| == cap && used == 0
    {
      table := seq(cap, _ => Entry(EMPTY, NULL_HANDLE));
      mask, growAt, liveCount, used := cap - 1, cap / 2, 0, 0;
      contents := map[];
      CountNone(table, Occupied);
      CountNone(table, Buried);
    }

    method Reserve(n: nat)
      requires Valid()
      modifies this
      ensures Valid() && contents == old(contents) && growAt >= n
    {
      while growAt < n
        invariant Valid() && contents == old(contents)
        decreases n - growAt
      {
        Grow();
      }
    }

    method Grow()
      requires Valid()
      modifies this
      ensures Valid() && contents == old(contents)
      ensures |table| == 2 * old(|table|) && used == liveCount && used + 1 <= growAt
      decreases 1
    {
      var oldTable := table;
      ghost var m := contents;
      assert |m| <= |oldTable| / 2;
      Reset(2 * |oldTable|);
      var i := 0;
      while i < |oldTable|
        invariant 0 <= i <= |oldTable|
        invariant Valid() && |table| == 2 * |oldTable| && used == liveCount
        invariant Copied(oldTable, m, i, contents)
      {
        CopiedSize(oldTable, m, i, contents);
        CopyStep(oldTable, m, i, contents);
        var e := oldTable[i];
        if IsLive(e.key) {
          var _ := InsertOrAssign(e.key, e.value);
        }
        i := i + 1;
      }
      CopiedAll(oldTable, m, contents);
    }

    method InsertOrAssign(key: Ptr, h: Handle) returns (isNew: bool)
      requires Valid() && IsLive(key)
      modifies this
      ensures Valid()
      ensures contents == old(contents)[key := h]
      ensures isNew <==> key !in old(contents)
      ensures used - liveCount <= old(used - liveCount)
      ensures old(used) + 1 <= old(growAt) ==> |table| == old(|table|)
      decreases if used + 1 > growAt then 2 else 0
    {
      if used + 1 > growAt {
        Grow();
      }
      var pos := ProbeForInsert(key);
      isNew := table[pos].key != key;
      if isNew {
        FillBucket(pos, key, h);
      } else {
        AssignBucket(pos, h);
      }
    }

    method FillBucket(pos: nat, key: Ptr, h: Handle)
      requires Valid() && IsLive(key) && key !in contents && used + 1 <= growAt
      requires pos < |table| && !IsLive(table[pos].key) && Reaches(table, key, pos)
      modifies this
      ensures Valid() && table == old(table[pos := Entry(key, h)])
      ensures contents == old(contents)[key := h]
      ensures used - liveCount <= old(used - liveCount)
    {
      PlaceRepresents(table, contents, key, h, pos);
      CountUpdate(table, pos, Entry(key, h), Occupied);
      CountUpdate(table, pos, Entry(key, h), Buried);
      if table[pos].key == EMPTY {
        used := used + 1;
      }
      table := table[pos := Entry(key, h)];
      liveCount := liveCount + 1;
      contents := contents[key := h];
    }

    method AssignBucket(pos: nat, h: Handle)
      requires Valid() && pos < |table| && IsLive(table[pos].key)
      modifies this
      ensures Valid() && table == old(table[pos := Entry(table[pos].key, h)])
      ensures contents == old(contents)[table[pos].key := h]
      ensures used == old(used) && liveCount == old(liveCount)
      ensures table[pos].key in old(contents)
    {
      hide Represents, Count, PowerOfTwo;
      var key := table[pos].key;
      KeyHeld(table, contents, pos);
      AssignRepresents(table, contents, h, pos);
      CountUpdate(table, pos, Entry(key, h), Occupied);
      CountUpdate(table, pos, Entry(key, h), Buried);
      UpdateSize(contents, key, h);
      table := table[pos := Entry(key, h)];
      contents := contents[key := h];
    }

    method BuryBucket(pos: nat)
      requires Valid() && pos < |table| && IsLive(table[pos].key)
      modifies this
      ensures Valid() && table == old(table[pos := Entry(TOMBSTONE, NULL_HANDLE)])
      ensures contents == old(contents) - {old(table[pos].key)}
    {
      hide Represents, Count, PowerOfTwo;
      var key := table[pos].key;
      KeyHeld(table, contents, pos);
      BuryRepresents(table, contents, pos);
      CountUpdate(table, pos, Entry(TOMBSTONE, NULL_HANDLE), Occupied);
      CountUpdate(table, pos, Entry(TOMBSTONE, NULL_HANDLE), Buried);
      UpdateSize(contents, key, NULL_HANDLE);
      table := table[pos := Entry(TOMBSTONE, NULL_HANDLE)];
      liveCount := liveCount - 1;
      contents := contents - {key};
    }

    /** The probe loop of insert_or_assign: the bucket that holds key, else the
        first tombstone met, else the EMPTY bucket that ends the probe. */
    method ProbeForInsert(key: Ptr) returns (pos: nat)
      requires Valid() && IsLive(key)
      ensures pos < |table|
      ensures key in contents ==> table[pos].key == key
      ensures key !in contents ==> !IsLive(table[pos].key) && Reaches(table, key, pos)
    {
      var cap := |table|;
      var home := Home(key, cap);
      var idx := home;
      var firstTomb: int := -1;
      ghost var n := 0;
      ghost var stop := ProbeMeetsEmpty(table, home);
      while true
        invariant 0 <= n <= stop && idx == At(home, n, cap)
        invariant Probed(table, key, n)
        invariant firstTomb == -1 || (0 <= firstTomb < cap && table[firstTomb].key == TOMBSTONE
                                      && Dist(home, firstTomb, cap) < n)
        decreases stop - n
      {
        var k := table[idx].key;
        if k == EMPTY {
          ProbeMiss(table, contents, key, n);
          pos := if firstTomb != -1 then firstTomb else idx;
          ProbedReaches(table, key, n, pos);
          return;
        }
        if k == TOMBSTONE {
          if firstTomb == -1 {
            firstTomb := idx;
          }
        } else if k == key {
          return idx;
        }
        ProbeStep(table, key, n);
        idx := if idx + 1 == cap then 0 else idx + 1;
        n := n + 1;
      }
    }

    /** The probe loop shared by find and erase: the bucket of key, or |table|. */
    method Probe(key: Ptr) returns (pos: nat)
      requires Valid()
      ensures pos <= |table|
      ensures pos < |table| ==> table[pos].key == key && key != EMPTY
      ensures pos == |table| ==> key !in contents
    {
      var cap := |table|;
      var home := Home(key, cap);
      var idx := home;
      ghost var n := 0;
      ghost var stop := ProbeMeetsEmpty(table, home);
      while true
        invariant 0 <= n <= stop && idx == At(home, n, cap)
        invariant Probed(table, key, n)
        decreases stop - n
      {
        var k := table[idx].key;
        if k == EMPTY {
          ProbeMiss(table, contents, key, n);
          return cap;
        }
        if k == key {
          return idx;
        }
        ProbeStep(table, key, n);
        idx := if idx + 1 == cap then 0 else idx + 1;
        n := n + 1;
      }
    }

    /** Any key may be looked up, the two reserved values included. */
    method Find(key: Ptr) returns (h: Handle)
      requires Valid()
      ensures h == if key in contents then contents[key] else NULL_HANDLE
    {
      var pos := Probe(key);
      if pos == |table| {
        return NULL_HANDLE;
      }
      assert !IsLive(key) ==> key !in contents;
      return table[pos].value;
    }

    /** The null pointer is never found; only the tombstone must not be erased. */
    method Erase(key: Ptr) returns (found: bool)
      requires Valid() && key != TOMBSTONE
      modifies this
      ensures Valid()
      ensures contents == old(contents) - {key}
      ensures found <==> key in old(contents)
      ensures |table| == old(|table|)
    {
      var pos := Probe(key);
      if pos == |table| {
        assert contents - {key} == contents;
        return false;
      }
      assert key in contents;
      BuryBucket(pos);
      return true;
    }

    /** Erase one key, then insert another. */
    method Rekey(src: Ptr, dst: Ptr, h: Handle)
      requires Valid() && IsLive(src) && IsLive(dst)
      modifies this
      ensures Valid() && contents == (old(contents) - {src})[dst := h]
    {
      var _ := Erase(src);
      var _ := InsertOrAssign(dst, h);
    }
  }

  /** One call on the table, and the answer of a finite map to it. */
  datatype Op =
    | InsertOrAssign(key: Ptr, value: Handle)
    | Find(key: Ptr)
    | Erase(key: Ptr)
    | Clear
    | Reserve(n: nat)
    | Size

  datatype Answer = Flag(b: bool) | Found(h: Handle) | Number(n: nat) | Done

  predicate Legal(op: Op) {
    (op.InsertOrAssign? ==> IsLive(op.key)) && (op.Erase? ==> op.key != TOMBSTONE)
  }

  function MapAfter(m: map<Ptr, Handle>, op: Op): map<Ptr, Handle> {
    match op
    case InsertOrAssign(k, v) => m[k := v]
    case Erase(k) => m - {k}
    case Clear => map[]
    case _ => m
  }

  function MapAnswer(m: map<Ptr, Handle>, op: Op): Answer {
    match op
    case InsertOrAssign(k, _) => Flag(k !in m)
    case Find(k) => Found(if k in m then m[k] else NULL_HANDLE)
    case Erase(k) => Flag(k in m)
    case Size => Number(|m|)
    case _ => Done
  }

  function MapAfterAll(ops: seq<Op>): map<Ptr, Handle> {
    if ops == [] then map[] else MapAfter(MapAfterAll(ops[..|ops| - 1]), ops[|ops| - 1])
  }

  method Apply(t: PtrTable, op: Op) returns (a: Answer)
    requires t.Valid() && Legal(op)
    modifies t
    ensures t.Valid() && t.contents == MapAfter(old(t.contents), op)
    ensures a == MapAnswer(old(t.contents), op)
  {
    match op
    case InsertOrAssign(k, v) => var b := t.InsertOrAssign(k, v); return Flag(b);
    case Find(k) => var h := t.Find(k); return Found(h);
    case Erase(k) => var b := t.Erase(k); return Flag(b);
    case Clear => t.Clear(); return Done;
    case Reserve(n) => t.Reserve(n); return Done;
    case Size => return Number(t.liveCount);
  }

  /** Over every run of calls the hash table answers as a finite map does. */
  method RunTable(ops: seq<Op>) returns (answers: seq<Answer>)
    requires forall i :: 0 <= i < |ops| ==> Legal(ops[i])
    ensures |answers| == |ops|
    ensures forall i :: 0 <= i < |ops| ==> answers[i] == MapAnswer(MapAfterAll(ops[..i]), ops[i])
  {
    hide PtrTable.Valid, MapAfter, MapAnswer, Legal;
    var t := new PtrTable();
    answers := [];
    for i := 0 to |ops|
      invariant t.Valid() && fresh(t) && t.contents == MapAfterAll(ops[..i])
      invariant |answers| == i
      invariant forall j :: 0 <= j < i ==> answers[j] == MapAnswer(MapAfterAll(ops[..j]), ops[j])
    {
      assert ops[..i + 1][..i] == ops[..i];
      var a := Apply(t, ops[i]);
      answers := answers + [a];
    }
  }
}
