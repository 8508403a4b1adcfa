/**
 Virtual memory over the translation tree: pages of host arenas, allocated when first
 touched, with a one-page cache in front of the tree.
 */
module VirtualMemory {
  import opened Basics
  import opened Tlb

  type Bytes = seq<Byte>

  const NO_PAGE: nat := 0xFFFF_FFFF_FFFF_FFFF

  // ----- the memory as one flat map from addresses to bytes -----

  /** A page that is not mapped reads as zeros: its arena will be fresh. */
  function ByteAt(root: seq<Node>, arenas: seq<Bytes>, a: Address): Byte {
    match Lookup(root, a)
    case Found(Host(id, off)) =>
      if id < |arenas| && off + Offset(a) < |arenas[id]| then arenas[id][off + Offset(a)] else 0
    case _ => 0
  }

  ghost predicate Held(arenas: seq<Bytes>, e: Entry) {
    match e
    case Found(Host(id, off)) => id < |arenas| && off % 0x1000 == 0 && off + 0x1000 <= |arenas[id]|
    case _ => true
  }

  /** Host pages lie inside arenas, and no two share storage. */
  ghost predicate Sound(root: seq<Node>, arenas: seq<Bytes>) {
    && (forall a :: Held(arenas, Lookup(root, a)))
    && (forall a, b :: Lookup(root, a) == Lookup(root, b) && OnHost(Lookup(root, a)) ==> Page(a) == Page(b))
  }

  predicate OnHost(e: Entry) { e.Found? && e.target.Host? }

  /** An access to this entry ends the process. */
  predicate Refused(e: Entry) { e.Found? && (e.target.Vm? || e.target.Remote?) }

  /** How far b lies after v, around the end of the address space. */
  function Distance(v: Address, b: Address): nat { if v <= b then b - v else b + 0x1_0000_0000_0000_0000 - v }

  function Plus(v: Address, k: nat): (r: Address) { (v + k) % 0x1_0000_0000_0000_0000 }

  /** memory after the bytes data are stored from v on. */
  ghost predicate Stored(root0: seq<Node>, arenas0: seq<Bytes>, root: seq<Node>, arenas: seq<Bytes>, v: Address,
                         data: Bytes) {
    forall b :: ByteAt(root, arenas, b) ==
      if Distance(v, b) < |data| then data[Distance(v, b)] else ByteAt(root0, arenas0, b)
  }

  /** The bytes before the first refused page are stored, and no others. */
  ghost predicate StoredToRefusal(root0: seq<Node>, arenas0: seq<Bytes>, root: seq<Node>, arenas: seq<Bytes>,
                                  v: Address, data: Bytes) {
    exists n :: 0 <= n < |data| && Refused(Lookup(root0, Plus(v, n))) && !RefusedFrom(root0, v, n) &&
                Stored(root0, arenas0, root, arenas, v, data[..n])
  }

  ghost predicate SameMemory(root0: seq<Node>, arenas0: seq<Bytes>, root: seq<Node>, arenas: seq<Bytes>) {
    forall b :: ByteAt(root, arenas, b) == ByteAt(root0, arenas0, b)
  }

  ghost predicate SameRefusals(root0: seq<Node>, root: seq<Node>) {
    forall b :: Refused(Lookup(root, b)) == Refused(Lookup(root0, b))
  }

  /** The n bytes from v on. */
  ghost predicate ReadFrom(root: seq<Node>, arenas: seq<Bytes>, v: Address, out: Bytes) {
    forall k :: 0 <= k < |out| ==> out[k] == ByteAt(root, arenas, Plus(v, k))
  }

  // ----- lemmas about single steps -----

  lemma NothingMapped(root: seq<Node>)
    requires forall a :: Lookup(root, a) == Missing
    ensures Sound(root, [])
    ensures forall a :: ByteAt(root, [], a) == 0 && !Refused(Lookup(root, a))
  {
    hide Lookup;
  }

  /** A fresh zeroed arena behind an unmapped page changes no byte. */
  lemma LazyPage(root0: seq<Node>, root: seq<Node>, arenas: seq<Bytes>, a: Address)
    requires Sound(root0, arenas) && !OnHost(Lookup(root0, a))
    requires forall b :: Lookup(root, b) == if Page(b) == Page(a) then Found(Host(|arenas|, 0)) else Lookup(root0, b)
    requires forall b :: Page(b) == Page(a) ==> Lookup(root0, b) == Lookup(root0, a)
    ensures Sound(root, arenas + [Zeros(0x1000)])
    ensures SameMemory(root0, arenas, root, arenas + [Zeros(0x1000)])
  {
    hide Lookup, Page;
    var arenas' := arenas + [Zeros(0x1000)];
    forall b ensures Held(arenas', Lookup(root, b)) && ByteAt(root, arenas', b) == ByteAt(root0, arenas, b) {
      assert Held(arenas, Lookup(root0, b));
    }
  }

  lemma PageMates(root: seq<Node>, a: Address, b: Address)
    requires Page(a) == Page(b)
    ensures Lookup(root, a) == Lookup(root, b)
  {
    IndicesArePage(a, b);
  }

  function PatchedAt(arenas: seq<Bytes>, id: nat, at: nat, data: Bytes): (r: seq<Bytes>)
    requires id < |arenas| && at + |data| <= |arenas[id]|
    ensures |r| == |arenas| && forall i :: 0 <= i < |r| ==> |r[i]| == |arenas[i]|
  {
    arenas[id := Patched(arenas[id], at, data)]
  }

  /** Whether pages are held and apart does not depend on their bytes. */
  lemma SoundPatched(root: seq<Node>, arenas: seq<Bytes>, id: nat, at: nat, data: Bytes)
    requires Sound(root, arenas) && id < |arenas| && at + |data| <= |arenas[id]|
    ensures Sound(root, PatchedAt(arenas, id, at, data))
  {
    hide Lookup, PatchedAt;
    forall a ensures Held(PatchedAt(arenas, id, at, data), Lookup(root, a)) { assert Held(arenas, Lookup(root, a)); }
  }

  /** Bytes of a page that no address is mapped to are not part of the memory. */
  lemma PatchUnmapped(root: seq<Node>, arenas: seq<Bytes>, id: nat, off: nat, o: nat, data: Bytes)
    requires Sound(root, arenas) && id < |arenas| && off % 0x1000 == 0 && off + 0x1000 <= |arenas[id]|
             && o + |data| <= 0x1000
    requires Unmapped(root, id, off)
    ensures SameMemory(root, arenas, root, PatchedAt(arenas, id, off + o, data))
  {
    hide Lookup;
    var arenas' := PatchedAt(arenas, id, off + o, data);
    forall b ensures ByteAt(root, arenas', b) == ByteAt(root, arenas, b) {
      assert Held(arenas, Lookup(root, b)) && Lookup(root, b) != Found(Host(id, off));
    }
  }

  ghost predicate Unmapped(root: seq<Node>, id: nat, off: nat) {
    forall a: Address :: Lookup(root, a) != Found(Host(id, off))
  }

  ghost predicate Overlaid(root0: seq<Node>, arenas0: seq<Bytes>, root: seq<Node>, arenas: seq<Bytes>, a: Address,
                           data: Bytes) {
    forall b: Address ::
      ByteAt(root, arenas, b) == if a <= b < a + |data| then data[b - a] else ByteAt(root0, arenas0, b)
  }

  /** Bytes stored inside one page, through its host pointer. */
  lemma PatchPage(root: seq<Node>, arenas: seq<Bytes>, a: Address, id: nat, off: nat, data: Bytes)
    requires Sound(root, arenas) && Lookup(root, a) == Found(Host(id, off)) && Offset(a) + |data| <= 0x1000
    requires id < |arenas| && off + 0x1000 <= |arenas[id]|
    ensures Sound(root, PatchedAt(arenas, id, off + Offset(a), data))
    ensures Overlaid(root, arenas, root, PatchedAt(arenas, id, off + Offset(a), data), a, data)
  {
    hide Lookup;
    var arenas' := PatchedAt(arenas, id, off + Offset(a), data);
    forall b: Address
      ensures Held(arenas', Lookup(root, b))
      ensures ByteAt(root, arenas', b) == if a <= b < a + |data| then data[b - a] else ByteAt(root, arenas, b)
    {
      assert Held(arenas, Lookup(root, b)) && Held(arenas, Lookup(root, a));
      if Page(a) == Page(b) {
        PageMates(root, a, b);
      } else {
        assert Lookup(root, a) != Lookup(root, b);
      }
    }
  }

  // ----- the memory -----

  class Memory {
    const tlb: LazyHybridTLB
    var arenas: seq<Bytes>
    var cachedPage: nat
    var cachedArena: nat
    var cachedOffset: nat

    ghost predicate Valid()
      reads this, tlb
    {
      && (cachedPage == NO_PAGE || (cachedPage % 0x1000 == 0 && cachedPage < 0x1_0000_0000_0000_0000))
      && WellFormed(tlb.root) && Sound(tlb.root, arenas)
    }

    /** The cached page is mapped to the cached host pointer. */
    ghost predicate Coherent()
      reads this, tlb
    {
      Caches(tlb.root)
    }

    ghost predicate Caches(root: seq<Node>)
      reads this`cachedPage, this`cachedArena, this`cachedOffset
    {
      forall a :: PageBase(a) == cachedPage ==> Lookup(root, a) == Found(Host(cachedArena, cachedOffset))
    }

    constructor ()
      ensures Valid() && Coherent() && fresh(tlb)
      ensures forall a :: ByteAt(tlb.root, arenas, a) == 0 && !Refused(Lookup(tlb.root, a))
    {
      tlb := new LazyHybridTLB();
      arenas := [];
      cachedPage := NO_PAGE;
      cachedArena := 0;
      cachedOffset := 0;
      new;
      hide Lookup, WellFormed, Sound, ByteAt, Refused, Caches;
      NothingMapped(tlb.root);
      NothingCached();
    }

    lemma NothingCached()
      requires cachedPage == NO_PAGE
      ensures Coherent()
    {
      hide Lookup;
    }

    /** The host pointer of the page of v: from the cache, from the tree, or from a
        fresh arena. */
    method HostPage(v: Address) returns (ok: bool, id: nat, off: nat)
      requires Valid() && (Coherent() || PageBase(v) != cachedPage)
      modifies this, tlb
      ensures Valid() && (ok || old(Coherent()) ==> Coherent())
      ensures SameMemory(old(tlb.root), old(arenas), tlb.root, arenas) && SameRefusals(old(tlb.root), tlb.root)
      ensures ok <==> !Refused(old(Lookup(tlb.root, v)))
      ensures ok ==> cachedPage == PageBase(v) && Lookup(tlb.root, v) == Found(Host(id, off))
      ensures ok ==> id < |arenas| && off + 0x1000 <= |arenas[id]|
      ensures !ok ==> unchanged(this)
    {
      hide Lookup, WellFormed;
      var page := v - Offset(v);
      if page == cachedPage {
        assert Held(arenas, Lookup(tlb.root, v));
        return true, cachedArena, cachedOffset;
      }
      var entry := tlb.GetEntry(v);
      ghost var root0 := tlb.root;
      if entry.Missing? || entry.target.Nowhere? {
        forall b | Page(b) == Page(v) ensures Lookup(root0, b) == Lookup(root0, v) { PageMates(root0, b, v); }
        tlb.Translate(page, Host(|arenas|, 0));
        LazyPage(root0, tlb.root, arenas, v);
        arenas := arenas + [Zeros(0x1000)];
        entry := tlb.GetEntry(v);
      }
      if !entry.target.Host? {
        return false, 0, 0;
      }
      assert Held(arenas, Lookup(tlb.root, v));
      id, off := entry.target.arena, entry.target.offset;
      cachedPage, cachedArena, cachedOffset := page, id, off;
      ok := true;
      forall a | PageBase(a) == cachedPage ensures Lookup(tlb.root, a) == Found(Host(id, off)) {
        PageMates(tlb.root, a, v);
      }
    }

    /** How many bytes of an access come from the cached page: those up to its end, if the
        access starts on it. */
    function FromCache(v: Address, n: nat): (k: nat)
      reads this`cachedPage
      ensures k <= n && Offset(v) + k <= 0x1000
    {
      if n > 0 && v - Offset(v) == cachedPage then Chunk(v, n) else 0
    }

    function CachedPart(v: Address, k: nat): (s: Bytes)
      requires CacheHeld() && Offset(v) + k <= 0x1000 && (k > 0 ==> cachedPage != NO_PAGE)
      reads this
      ensures |s| == k
    {
      if k == 0 then [] else arenas[cachedArena][cachedOffset + Offset(v)..cachedOffset + Offset(v) + k]
    }

    /** What an access sees: the cached page where it starts on it, whatever the tree says,
        then the flat memory. */
    ghost function Seen(v: Address, n: nat): (s: Bytes)
      requires CacheHeld()
      reads this, tlb
      ensures |s| == n
    {
      var k := FromCache(v, n);
      CachedPart(v, k) + BytesAt(tlb.root, arenas, Plus(v, k), n - k)
    }

    /** A coherent cache makes that the flat memory. */
    lemma SeenIsFlat(v: Address, n: nat)
      requires Valid() && Coherent() && CacheHeld()
      ensures Seen(v, n) == BytesAt(tlb.root, arenas, v, n)
      ensures RefusedFrom(tlb.root, v, n) <==> RefusedFrom(tlb.root, Plus(v, FromCache(v, n)), n - FromCache(v, n))
    {
      hide Lookup, WellFormed, Sound, RefusedFrom, Plus, SameMemory, ReadFrom, ByteAt;
      AccessStarts(tlb.root, arenas, v);
      var k := FromCache(v, n);
      if k > 0 {
        assert PageBase(v) == cachedPage;
        var part := CachedPart(v, k);
        ReadChunk(tlb.root, arenas, tlb.root, arenas, v, v, cachedArena, cachedOffset, [], part);
        assert [] + part == part;
        ReadJoins(tlb.root, arenas, v, part, BytesAt(tlb.root, arenas, Plus(v, k), n - k));
        ChunkStays(tlb.root, v, 0, v, k);
        RefusedJoins(tlb.root, v, k, n);
      } else {
        assert [] + BytesAt(tlb.root, arenas, v, n) == BytesAt(tlb.root, arenas, v, n);
      }
      ReadIsUnique(tlb.root, arenas, v, Seen(v, n), BytesAt(tlb.root, arenas, v, n));
    }

    method ReadBytes(v: Address, size: nat) returns (ok: bool, out: Bytes)
      requires size < 0x1_0000_0000_0000_0000 && Valid() && CacheHeld()
      modifies this, tlb
      ensures Valid() && CacheHeld()
      ensures SameMemory(old(tlb.root), old(arenas), tlb.root, arenas) && SameRefusals(old(tlb.root), tlb.root)
      ensures ok <==> !RefusedFrom(old(tlb.root), Plus(v, old(FromCache(v, size))), size - old(FromCache(v, size)))
      ensures ok ==> out == old(Seen(v, size))
      ensures ok && old(FromCache(v, size)) < size ==> Coherent()
      ensures old(Coherent()) ==> Coherent() && (ok <==> !RefusedFrom(old(tlb.root), v, size))
      ensures old(Coherent()) && ok ==> ReadFrom(old(tlb.root), old(arenas), v, out)
      ensures ok ==> cachedPage == if size == 0 then old(cachedPage) else PageBase(Plus(v, size - 1))
    {
      hide *;
      if Coherent() { SeenIsFlat(v, size); }
      var k := FromCache(v, size);
      LeavesPage(v, size);
      SeenParts(v, size);
      ghost var root0, arenas0 := tlb.root, arenas;
      var part := if k == 0 then [] else CachedPart(v, k);
      var rest;
      ok, rest := ReadOn(Plus(v, k), size - k);
      out := part + rest;
      if ok { ReadIsUnique(root0, arenas0, Plus(v, k), rest, BytesAt(root0, arenas0, Plus(v, k), size - k)); }
    }

    /** Behind the cached part an access is on another page. */
    lemma LeavesPage(v: Address, n: nat)
      requires Valid() && n < 0x1_0000_0000_0000_0000
      ensures var k := FromCache(v, n);
              && (k > 0 ==> cachedPage != NO_PAGE && PageBase(v) == cachedPage)
              && (k < n ==> PageBase(Plus(v, k)) != cachedPage && Plus(Plus(v, k), n - k - 1) == Plus(v, n - 1))
              && (0 < k == n ==> PageBase(Plus(v, n - 1)) == cachedPage)
    {
      hide WellFormed, Sound, Plus, PageBase;
      var k := FromCache(v, n);
      BaseIs(v);
      if k < n {
        PlusPlus(v, k, n - k - 1);
        AccessStarts(tlb.root, arenas, v);
        if k > 0 { PageEnds(v, k); }
      } else if k > 0 {
        PageInside(v, n);
      }
    }

    lemma SeenParts(v: Address, n: nat)
      requires CacheHeld()
      ensures var k := FromCache(v, n);
              && (k > 0 ==> cachedPage != NO_PAGE)
              && Seen(v, n) == (if k == 0 then [] else CachedPart(v, k)) + BytesAt(tlb.root, arenas, Plus(v, k), n - k)
    {
      hide Lookup, ByteAt;
    }

    /** The loop over pages, once the cached page has been left or is coherent. */
    method ReadOn(v: Address, size: nat) returns (ok: bool, out: Bytes)
      requires size < 0x1_0000_0000_0000_0000 && Valid() && CacheHeld()
               && (Coherent() || size == 0 || PageBase(v) != cachedPage)
      modifies this, tlb
      ensures Valid() && CacheHeld() && ((ok && size > 0) || old(Coherent()) ==> Coherent())
      ensures SameMemory(old(tlb.root), old(arenas), tlb.root, arenas) && SameRefusals(old(tlb.root), tlb.root)
      ensures ok <==> !RefusedFrom(old(tlb.root), v, size)
      ensures ok ==> |out| == size && ReadFrom(old(tlb.root), old(arenas), v, out)
      ensures ok ==> cachedPage == if size == 0 then old(cachedPage) else PageBase(Plus(v, size - 1))
    {
      hide *;
      out := [];
      var left, at := size, v;
      AccessStarts(tlb.root, arenas, v);
      while left > 0
        invariant |out| + left == size && at == Plus(v, |out|)
        invariant Valid() && CacheHeld() && (Coherent() || (out == [] && (left == 0 || PageBase(at) != cachedPage)))
        invariant old(Coherent()) ==> Coherent()
        invariant SameMemory(old(tlb.root), old(arenas), tlb.root, arenas) && SameRefusals(old(tlb.root), tlb.root)
        invariant !RefusedFrom(old(tlb.root), v, |out|)
        invariant ReadFrom(old(tlb.root), old(arenas), v, out)
        invariant cachedPage == if |out| == 0 then old(cachedPage) else PageBase(Plus(v, |out| - 1))
      {
        var chunk := Chunk(at, left);
        var id, off;
        ghost var root1, arenas1 := tlb.root, arenas;
        ok, id, off := HostPage(at);
        Unchanged(old(tlb.root), old(arenas), root1, arenas1, tlb.root, arenas, at);
        if !ok {
          Refusal(old(tlb.root), v, |out|, size);
          return;
        }
        CoherentHeld();
        ChunkStays(old(tlb.root), v, |out|, at, chunk);
        var part := arenas[id][off + Offset(at)..off + Offset(at) + chunk];
        ReadChunk(old(tlb.root), old(arenas), tlb.root, arenas, v, at, id, off, out, part);
        out := out + part;
        at := Plus(at, chunk);
        left := left - chunk;
      }
      ok := true;
    }

    /** The arenas once the bytes of an access that start on the cached page are written
        there. */
    function CacheWritten(v: Address, data: Bytes): (r: seq<Bytes>)
      requires CacheHeld() && (FromCache(v, |data|) > 0 ==> cachedPage != NO_PAGE)
      reads this
    {
      var k := FromCache(v, |data|);
      if k == 0 then arenas else PatchedAt(arenas, cachedArena, cachedOffset + Offset(v), data[..k])
    }

    /** Bytes that start on the cached page go there, whatever the tree says, and the
        others to the flat memory. */
    method WriteBytes(v: Address, data: Bytes) returns (ok: bool)
      requires |data| < 0x1_0000_0000_0000_0000 && Valid() && CacheHeld()
      modifies this, tlb
      ensures Valid() && CacheHeld()
      ensures SameRefusals(old(tlb.root), tlb.root)
      ensures old(FromCache(v, |data|) > 0 ==> cachedPage != NO_PAGE)
      ensures var k := old(FromCache(v, |data|));
              && (ok <==> !RefusedFrom(old(tlb.root), Plus(v, k), |data| - k))
              && (ok && k < |data| ==> Coherent())
              && (ok ==> Stored(old(tlb.root), old(CacheWritten(v, data)), tlb.root, arenas, Plus(v, k), data[k..]))
              && (!ok ==> StoredToRefusal(old(tlb.root), old(CacheWritten(v, data)), tlb.root, arenas, Plus(v, k),
                                          data[k..]))
      ensures old(Coherent()) ==> Coherent() && (ok <==> !RefusedFrom(old(tlb.root), v, |data|))
      ensures old(Coherent()) && ok ==> Stored(old(tlb.root), old(arenas), tlb.root, arenas, v, data)
      ensures old(Coherent()) && !ok ==> StoredToRefusal(old(tlb.root), old(arenas), tlb.root, arenas, v, data)
      ensures ok ==> cachedPage == if |data| == 0 then old(cachedPage) else PageBase(Plus(v, |data| - 1))
    {
      hide *;
      ghost var root0, arenas0 := tlb.root, arenas;
      LeavesPage(v, |data|);
      if Coherent() {
        SeenIsFlat(v, |data|);
        CacheWrittenIsStored(v, data);
      }
      var k := FromCache(v, |data|);
      WriteCache(v, data);
      ghost var arenas1 := arenas;
      ok := WriteOn(Plus(v, k), data[k..]);
      StoreJoins(root0, arenas0, arenas1, tlb.root, arenas, v, data, k);
    }

    method WriteCache(v: Address, data: Bytes)
      requires Valid() && CacheHeld() && (FromCache(v, |data|) > 0 ==> cachedPage != NO_PAGE)
      modifies this`arenas
      ensures Valid() && CacheHeld() && arenas == old(CacheWritten(v, data))
      ensures Coherent() <==> old(Coherent())
    {
      hide Lookup, WellFormed, Sound, Caches;
      var k := FromCache(v, |data|);
      if k > 0 {
        SoundPatched(tlb.root, arenas, cachedArena, cachedOffset + Offset(v), data[..k]);
      }
      arenas := CacheWritten(v, data);
    }

    lemma CacheWrittenIsStored(v: Address, data: Bytes)
      requires Valid() && Coherent() && CacheHeld() && (FromCache(v, |data|) > 0 ==> cachedPage != NO_PAGE)
      ensures Stored(tlb.root, arenas, tlb.root, CacheWritten(v, data), v, data[..FromCache(v, |data|)])
      ensures !RefusedFrom(tlb.root, v, FromCache(v, |data|))
    {
      hide Lookup, WellFormed, Sound, RefusedFrom, Plus, ByteAt, Overlaid, Stored, SameMemory, ReadFrom, PatchedAt;
      AccessStarts(tlb.root, arenas, v);
      var k := FromCache(v, |data|);
      if k > 0 {
        assert PageBase(v) == cachedPage;
        PatchPage(tlb.root, arenas, v, cachedArena, cachedOffset, data[..k]);
        OverlaidIsStored(tlb.root, arenas, PatchedAt(arenas, cachedArena, cachedOffset + Offset(v), data[..k]), v,
                         data[..k]);
        ChunkStays(tlb.root, v, 0, v, k);
      } else {
        assert data[..0] == [];
      }
    }

    method WriteOn(v: Address, data: Bytes) returns (ok: bool)
      requires |data| < 0x1_0000_0000_0000_0000 && Valid() && CacheHeld()
               && (Coherent() || |data| == 0 || PageBase(v) != cachedPage)
      modifies this, tlb
      ensures Valid() && CacheHeld() && ((ok && |data| > 0) || old(Coherent()) ==> Coherent())
      ensures SameRefusals(old(tlb.root), tlb.root)
      ensures ok <==> !RefusedFrom(old(tlb.root), v, |data|)
      ensures ok ==> Stored(old(tlb.root), old(arenas), tlb.root, arenas, v, data)
      ensures !ok ==> StoredToRefusal(old(tlb.root), old(arenas), tlb.root, arenas, v, data)
      ensures ok ==> cachedPage == if |data| == 0 then old(cachedPage) else PageBase(Plus(v, |data| - 1))
    {
      hide *;
      var done, at := 0, v;
      AccessStarts(tlb.root, arenas, v);
      while done < |data|
        invariant done <= |data| && at == Plus(v, done)
        invariant Valid() && CacheHeld() && (Coherent() || (done == 0 && (|data| == 0 || PageBase(at) != cachedPage)))
        invariant old(Coherent()) ==> Coherent()
        invariant SameRefusals(old(tlb.root), tlb.root)
        invariant !RefusedFrom(old(tlb.root), v, done)
        invariant Stored(old(tlb.root), old(arenas), tlb.root, arenas, v, data[..done])
        invariant cachedPage == if done == 0 then old(cachedPage) else PageBase(Plus(v, done - 1))
      {
        var chunk := Chunk(at, |data| - done);
        var id, off;
        ghost var root1, arenas1 := tlb.root, arenas;
        ok, id, off := HostPage(at);
        Unchanged(old(tlb.root), old(arenas), root1, arenas1, tlb.root, arenas, at);
        if !ok {
          Refusal(old(tlb.root), v, done, |data|);
          StoredSoFar(old(tlb.root), old(arenas), root1, arenas1, tlb.root, arenas, v, data, done);
          return;
        }
        ChunkStays(old(tlb.root), v, done, at, chunk);
        ghost var arenas2 := arenas;
        WriteHost(at, id, off, data[done..done + chunk]);
        CoherentHeld();
        StoreChunk(old(tlb.root), old(arenas), root1, arenas1, tlb.root, arenas2, arenas, v, at, data, done, chunk);
        done := done + chunk;
        at := Plus(at, chunk);
      }
      assert data[..done] == data;
      ok := true;
    }

    /** Bytes copied through the host pointer of a page. */
    method WriteHost(at: Address, id: nat, off: nat, part: Bytes)
      requires Lookup(tlb.root, at) == Found(Host(id, off)) && Offset(at) + |part| <= 0x1000
      requires id < |arenas| && off + 0x1000 <= |arenas[id]|
      requires Valid() && Coherent()
      modifies this`arenas
      ensures Valid() && Coherent()
      ensures Overlaid(tlb.root, old(arenas), tlb.root, arenas, at, part)
    {
      hide Lookup, WellFormed, Sound, Overlaid, Page;
      PatchPage(tlb.root, arenas, at, id, off, part);
      arenas := PatchedAt(arenas, id, off + Offset(at), part);
    }

    // ----- the fast paths -----

    /** The fast path is taken: the page is cached and the word does not cross it. */
    predicate Hits(v: Address)
      reads this`cachedPage
    {
      v - v % 0x1000 == cachedPage && v % 0x1000 <= 0x1000 - 8
    }

    ghost predicate CacheHeld()
      reads this
    {
      cachedPage == NO_PAGE ||
      (cachedArena < |arenas| && cachedOffset % 0x1000 == 0 && cachedOffset + 0x1000 <= |arenas[cachedArena]|)
    }

    lemma CoherentHeld()
      requires Valid() && Coherent()
      ensures CacheHeld()
    {
      hide Lookup, WellFormed;
      if cachedPage != NO_PAGE {
        var a: Address := cachedPage;
        assert PageBase(a) == cachedPage;
        assert Held(arenas, Lookup(tlb.root, a));
      }
    }

    lemma HitIsOnPage(v: Address)
      requires Valid() && Coherent() && Hits(v)
      ensures Lookup(tlb.root, v) == Found(Host(cachedArena, cachedOffset))
      ensures cachedArena < |arenas| && cachedOffset + 0x1000 <= |arenas[cachedArena]|
      ensures !RefusedFrom(tlb.root, v, 8) && Offset(v) + 8 <= 0x1000
      ensures PageBase(Plus(v, 7)) == cachedPage
    {
      hide Lookup, WellFormed, Sound, RefusedFrom, Plus;
      CoherentHeld();
      assert PageBase(v) == cachedPage;
      AccessStarts(tlb.root, arenas, v);
      ChunkStays(tlb.root, v, 0, v, 8);
    }

    /** A hit answers from the cached pointer, whatever the tree says; a coherent
        cache makes every answer that of the flat memory. */
    method ReadU64Fast(v: Address) returns (ok: bool, x: nat)
      requires Valid() && CacheHeld()
      modifies this, tlb
      ensures Valid() && CacheHeld()
      ensures old(Hits(v)) ==> ok && unchanged(this) && unchanged(tlb)
      ensures ok ==> x == FromBytes(old(Seen(v, 8)))
      ensures old(Hits(v)) ==> old(CacheHeld()) && x == old(CachedWord(v))
      ensures old(Coherent()) ==> Coherent()
      ensures old(Coherent()) ==>
        SameMemory(old(tlb.root), old(arenas), tlb.root, arenas) && SameRefusals(old(tlb.root), tlb.root)
      ensures old(Coherent()) ==> (ok <==> !RefusedFrom(old(tlb.root), v, 8))
      ensures old(Coherent()) && ok ==> x == FromBytes(BytesAt(old(tlb.root), old(arenas), v, 8))
      ensures old(Coherent()) && ok ==> cachedPage == PageBase(Plus(v, 7))
    {
      hide *;
      AccessStarts(tlb.root, arenas, v);
      if Hits(v) {
        x := CachedWord(v);
        ok := true;
        HitIsSeen(v);
        if Coherent() { CachedWordIsFlat(v); }
        return;
      }
      if Coherent() { SeenIsFlat(v, 8); }
      var s;
      ok, s := ReadBytes(v, 8);
      x := 0;
      if ok { x := FromBytes(s); }
    }

    lemma HitIsSeen(v: Address)
      requires CacheHeld() && Hits(v)
      ensures CachedWord(v) == FromBytes(Seen(v, 8))
    {
      hide FromBytes, ByteAt;
      assert Seen(v, 8) == CachedPart(v, 8);
    }

    function CachedWord(v: Address): nat
      requires CacheHeld() && Hits(v)
      reads this
    {
      FromBytes(arenas[cachedArena][cachedOffset + v % 0x1000..cachedOffset + v % 0x1000 + 8])
    }

    lemma CachedWordIsFlat(v: Address)
      requires Valid() && Coherent() && Hits(v) && CacheHeld()
      ensures CachedWord(v) == FromBytes(BytesAt(tlb.root, arenas, v, 8))
      ensures !RefusedFrom(tlb.root, v, 8) && PageBase(Plus(v, 7)) == cachedPage
    {
      hide Lookup, WellFormed, Sound, RefusedFrom, Plus, FromBytes, SameMemory, ReadFrom;
      HitIsOnPage(v);
      AccessStarts(tlb.root, arenas, v);
      var part := arenas[cachedArena][cachedOffset + v % 0x1000..cachedOffset + v % 0x1000 + 8];
      ReadChunk(tlb.root, arenas, tlb.root, arenas, v, v, cachedArena, cachedOffset, [], part);
      assert [] + part == part;
      ReadIsUnique(tlb.root, arenas, v, part, BytesAt(tlb.root, arenas, v, 8));
    }

    /** A hit writes through the cached pointer, whatever the tree says; a coherent
        cache makes it a write to the flat memory. */
    method WriteU64Fast(v: Address, x: Address) returns (ok: bool)
      requires Valid() && CacheHeld()
      modifies this, tlb
      ensures Valid() && CacheHeld()
      ensures old(FromCache(v, 8) > 0 ==> cachedPage != NO_PAGE)
      ensures !old(Hits(v)) && ok ==>
                var k := old(FromCache(v, 8));
                Stored(old(tlb.root), old(CacheWritten(v, ToBytes(x, 8))), tlb.root, arenas, Plus(v, k),
                       ToBytes(x, 8)[k..])
      ensures old(Hits(v)) ==> ok && unchanged(tlb) && unchanged(this`cachedPage, this`cachedArena, this`cachedOffset)
      ensures old(Hits(v)) ==>
                && CacheHeld() && Offset(v) + 8 <= 0x1000 && cachedArena < |old(arenas)|
                && cachedOffset + 0x1000 <= |old(arenas)[cachedArena]|
                && arenas == PatchedAt(old(arenas), cachedArena, cachedOffset + Offset(v), ToBytes(x, 8))
      ensures old(Coherent()) ==> Coherent() && SameRefusals(old(tlb.root), tlb.root)
      ensures old(Coherent()) ==> (ok <==> !RefusedFrom(old(tlb.root), v, 8))
      ensures old(Coherent()) && ok ==> Stored(old(tlb.root), old(arenas), tlb.root, arenas, v, ToBytes(x, 8))
      ensures old(Coherent()) && ok ==> cachedPage == PageBase(Plus(v, 7))
    {
      hide Lookup, WellFormed, Sound, ByteAt, Stored, Overlaid, RefusedFrom, SameRefusals, Caches, ToBytes, Plus,
           PageBase, SameMemory, ReadFrom, PatchedAt;
      AccessStarts(tlb.root, arenas, v);
      if Hits(v) {
        ghost var arenas0 := arenas;
        SoundPatched(tlb.root, arenas, cachedArena, cachedOffset + Offset(v), ToBytes(x, 8));
        if Coherent() {
          HitIsOnPage(v);
          PatchPage(tlb.root, arenas, v, cachedArena, cachedOffset, ToBytes(x, 8));
          OverlaidIsStored(tlb.root, arenas, PatchedAt(arenas, cachedArena, cachedOffset + Offset(v), ToBytes(x, 8)), v,
                           ToBytes(x, 8));
        }
        arenas := PatchedAt(arenas, cachedArena, cachedOffset + Offset(v), ToBytes(x, 8));
        return true;
      }
      ok := WriteBytes(v, ToBytes(x, 8));
    }

    // ----- map -----

    /** Maps the pages of a range to a fresh zeroed arena. The cache is left as it is,
        so it stays coherent exactly if its page is not in the range. */
    method Map(v: Address, size: Address)
      requires Valid()
      modifies this`arenas, tlb
      ensures Valid()
      ensures Zeroed(old(tlb.root), old(arenas), tlb.root, arenas, MapStart(v), MapEnd(v, size))
      ensures PagesZeroed(old(tlb.root), old(arenas), tlb.root, arenas, v, size)
      ensures forall b: Address :: !Touches(v, size, b) ==>
                ByteAt(tlb.root, arenas, b) == ByteAt(old(tlb.root), old(arenas), b)
      ensures RefusalsLifted(old(tlb.root), tlb.root, MapStart(v), MapEnd(v, size))
      ensures old(arenas) <= arenas
      ensures RangeZero(tlb.root, arenas, MapStart(v), RangeEnd(v, size)) <==>
                || v + size + 0xFFF < 0x1_0000_0000_0000_0000
                || RangeZero(old(tlb.root), old(arenas), Later(MapStart(v), MapEnd(v, size)), RangeEnd(v, size))
      ensures old(Coherent()) && MapStart(v) <= cachedPage < MapEnd(v, size) ==>
                Unmapped(tlb.root, cachedArena, cachedOffset)
      ensures old(Coherent()) ==> (Coherent() <==> !(MapStart(v) <= cachedPage < MapEnd(v, size)))
    {
      hide Lookup, WellFormed, Sound, Zeroed, RefusalsLifted, ByteAt, Page, MappedUpTo, PageBase, MapStart, MapEnd,
           Memory.Caches, RangeZero, RangeEnd, Later, Unmapped, PagesZeroed, Touches;
      var start: nat, end: nat := MapStart(v), MapEnd(v, size);
      var total: nat := if start <= end then end - start else end + 0x1_0000_0000_0000_0000 - start;
      ghost var root0, arenas0 := tlb.root, arenas;
      var id := |arenas|;
      if total > 0 {
        arenas := arenas + [Zeros(total)];
      }
      var page: nat := start;
      MapBegins(tlb.root, start, id);
      ghost var arenas1 := arenas;
      while page < end
        invariant start <= page && page % 0x1000 == 0 && (page <= end || page == start)
        invariant arenas == arenas1
        invariant WellFormed(tlb.root)
        invariant MappedUpTo(root0, tlb.root, start, page, id)
      {
        ghost var root1 := tlb.root;
        tlb.Translate(page, Host(id, page - start));
        MapGoesOn(root0, root1, tlb.root, start, page, id);
        page := page + 0x1000;
      }
      ghost var last: nat := if start <= end then end else start;
      MapDone(root0, arenas0, tlb.root, arenas, start, last, end, id);
      RangeZeroIff(root0, arenas0, tlb.root, arenas, v, size);
      ZeroedPages(root0, arenas0, tlb.root, arenas, v, size);
      if Caches(root0) { MapAndCache(root0, arenas0, start, last, id); }
    }

    lemma MapAndCache(root0: seq<Node>, arenas0: seq<Bytes>, start: nat, last: nat, id: nat)
      requires cachedPage == NO_PAGE || (cachedPage % 0x1000 == 0 && cachedPage < 0x1_0000_0000_0000_0000)
      requires start % 0x1000 == 0 && last % 0x1000 == 0 && start <= last < 0x1_0000_0000_0000_0000
      requires Sound(root0, arenas0) && id == |arenas0|
      requires Caches(root0) && MappedUpTo(root0, tlb.root, start, last, id)
      ensures Coherent() <==> !(start <= cachedPage < last)
      ensures start <= cachedPage < last ==> Unmapped(tlb.root, cachedArena, cachedOffset)
    {
      hide Lookup, Held, Below;
      if start <= cachedPage < last {
        var a: Address := cachedPage;
        assert PageBase(a) == cachedPage;
        NewArena(arenas0, Lookup(root0, a), id);
        forall b: Address ensures Lookup(tlb.root, b) != Found(Host(cachedArena, cachedOffset)) {
          SamePageBase(a, b);
          OnPage(b, start, last);
        }
      } else {
        forall a: Address | PageBase(a) == cachedPage ensures !(start <= a < last) {
          OnPage(a, start, last);
        }
      }
    }

    lemma SamePageBase(a: Address, b: Address)
      ensures Page(a) == Page(b) <==> PageBase(a) == PageBase(b)
    {
    }

    lemma OnPage(a: Address, start: nat, last: nat)
      requires start % 0x1000 == 0 && last % 0x1000 == 0
      ensures start <= a < last <==> start <= PageBase(a) < last
    {
    }

    lemma NewArena(arenas0: seq<Bytes>, e: Entry, id: nat)
      requires Held(arenas0, e) && id == |arenas0|
      ensures forall off :: e != Found(Host(id, off))
    {
    }
  }

  function MapStart(v: Address): (r: Address)
    ensures r % 0x1000 == 0 && r <= v < r + 0x1000
  {
    v - v % 0x1000
  }

  /** Rounded up to a page modulo 2^64: 0 for a range that reaches the last page. */
  function MapEnd(v: Address, size: Address): (r: Address)
    ensures r % 0x1000 == 0
    ensures var end := (v + size + 0xFFF) % 0x1_0000_0000_0000_0000; r <= end < r + 0x1000
  {
    MapStart((v + size + 0xFFF) % 0x1_0000_0000_0000_0000)
  }

  /** The end of the pages that hold the range, in plain numbers. */
  function RangeEnd(v: Address, size: Address): (r: nat)
    ensures r % 0x1000 == 0 && v + size <= r < v + size + 0x1000
  {
    (v + size + 0xFFF) / 0x1000 * 0x1000
  }

  /** The address lies on a page of the range, rounded outwards. */
  predicate Touches(v: Address, size: Address, b: nat) { v / 0x1000 <= b / 0x1000 && b < RangeEnd(v, size) }

  /** Those are the pages that hold a byte of the range, and for an empty range inside a
      page that page. */
  lemma TouchesIff(v: Address, size: Address, b: nat)
    ensures Touches(v, size, b) <==>
              || (exists x: nat :: v <= x < v + size && x / 0x1000 == b / 0x1000)
              || (size == 0 && v % 0x1000 != 0 && b / 0x1000 == v / 0x1000)
  {
    hide RangeEnd;
    PageOrder(b, RangeEnd(v, size));
    if Touches(v, size, b) && size > 0 {
      var x: nat := if b / 0x1000 == v / 0x1000 then v else b / 0x1000 * 0x1000;
      assert v <= x < v + size && x / 0x1000 == b / 0x1000;
    }
    if x: nat :| v <= x < v + size && x / 0x1000 == b / 0x1000 {
      PageOrder(x, RangeEnd(v, size));
    }
  }

  lemma PageOrder(b: nat, end: nat)
    requires end % 0x1000 == 0
    ensures b < end <==> b / 0x1000 < end / 0x1000
    ensures b < end <==> b / 0x1000 * 0x1000 < end
  {
  }

  /** What map reaches: all those pages; if the rounded end leaves 64 bits at most the
      page that the range begins in, and that only if the range comes round to it again. */
  predicate MapReaches(v: Address, size: Address, b: nat) {
    if v + size + 0xFFF < 0x1_0000_0000_0000_0000 then Touches(v, size, b)
    else b / 0x1000 == v / 0x1000 && ComesRound(v, size)
  }

  /** The range covers all addresses and more, and does not begin on the last page. */
  predicate ComesRound(v: Address, size: Address) {
    v % 0x1000 + size > 0x1_0000_0000_0000_0000 && v < 0xFFFF_FFFF_FFFF_F000
  }

  lemma MapRange(v: Address, size: Address, b: nat)
    ensures MapStart(v) <= b < MapEnd(v, size) <==> MapReaches(v, size, b)
    ensures MapReaches(v, size, b) ==> Touches(v, size, b)
  {
    hide MapStart, MapEnd, RangeEnd;
    MapEndIs(v, size);
    var start: nat, end: nat := MapStart(v), MapEnd(v, size);
    assert start / 0x1000 == v / 0x1000;
    assert start <= b <==> v / 0x1000 <= b / 0x1000;
    PageOrder(b, end);
    if v + size + 0xFFF >= 0x1_0000_0000_0000_0000 {
      WrappedEnd(v, size);
      assert b / 0x1000 == v / 0x1000 <==> start <= b < start + 0x1000;
      PageOrder(b, RangeEnd(v, size));
      PageOrder(v, RangeEnd(v, size));
    }
  }

  lemma WrappedEnd(v: Address, size: Address)
    requires v + size + 0xFFF >= 0x1_0000_0000_0000_0000
    ensures MapEnd(v, size) <= MapStart(v) + 0x1000
    ensures MapEnd(v, size) == MapStart(v) + 0x1000 <==> ComesRound(v, size)
    ensures MapEnd(v, size) <= MapStart(v) || MapEnd(v, size) == MapStart(v) + 0x1000
  {
    hide MapStart, MapEnd;
    var start: nat, end: nat := MapStart(v), MapEnd(v, size);
    assert start == v - v % 0x1000;
    assert v + size + 0xFFF < 0x2_0000_0000_0000_0000 ==>
             (v + size + 0xFFF) % 0x1_0000_0000_0000_0000 == v + size + 0xFFF - 0x1_0000_0000_0000_0000;
    assert v + size + 0xFFF >= 0x2_0000_0000_0000_0000 ==>
             (v + size + 0xFFF) % 0x1_0000_0000_0000_0000 == v + size + 0xFFF - 0x2_0000_0000_0000_0000;
    assert end <= v + 0xFFE;
    assert start % 0x1000 == 0 && end % 0x1000 == 0;
  }

  /** The memory after a map: zero where map reaches, as before everywhere else. */
  ghost predicate PagesZeroed(root0: seq<Node>, arenas0: seq<Bytes>, root: seq<Node>, arenas: seq<Bytes>, v: Address,
                              size: Address) {
    forall b: Address ::
      ByteAt(root, arenas, b) == if MapReaches(v, size, b) then 0 else ByteAt(root0, arenas0, b)
  }

  lemma ZeroedPages(root0: seq<Node>, arenas0: seq<Bytes>, root: seq<Node>, arenas: seq<Bytes>, v: Address,
                    size: Address)
    requires Zeroed(root0, arenas0, root, arenas, MapStart(v), MapEnd(v, size))
    ensures PagesZeroed(root0, arenas0, root, arenas, v, size)
    ensures forall b: Address :: !Touches(v, size, b) ==> ByteAt(root, arenas, b) == ByteAt(root0, arenas0, b)
  {
    hide ByteAt, MapStart, MapEnd, MapReaches, Touches;
    forall b: Address
      ensures ByteAt(root, arenas, b) == if MapReaches(v, size, b) then 0 else ByteAt(root0, arenas0, b)
      ensures MapReaches(v, size, b) ==> Touches(v, size, b)
    {
      MapRange(v, size, b);
    }
  }

  function Later(a: nat, b: nat): nat { if a < b then b else a }

  ghost predicate RangeZero(root: seq<Node>, arenas: seq<Bytes>, start: nat, end: nat) {
    forall b: Address :: start <= b < end ==> ByteAt(root, arenas, b) == 0
  }

  /** The end that map computes is that end, unless it leaves 64 bits. */
  lemma MapEndIs(v: Address, size: Address)
    ensures v + size + 0xFFF < 0x1_0000_0000_0000_0000 ==> MapEnd(v, size) == RangeEnd(v, size)
    ensures v + size + 0xFFF >= 0x1_0000_0000_0000_0000 ==> MapEnd(v, size) <= RangeEnd(v, size)
  {
  }

  lemma RangeZeroIff(root0: seq<Node>, arenas0: seq<Bytes>, root: seq<Node>, arenas: seq<Bytes>, v: Address,
                     size: Address)
    requires Zeroed(root0, arenas0, root, arenas, MapStart(v), MapEnd(v, size))
    ensures RangeZero(root, arenas, MapStart(v), RangeEnd(v, size)) <==>
              || v + size + 0xFFF < 0x1_0000_0000_0000_0000
              || RangeZero(root0, arenas0, Later(MapStart(v), MapEnd(v, size)), RangeEnd(v, size))
  {
    hide ByteAt, MapStart, MapEnd, RangeEnd;
    MapEndIs(v, size);
    var start: nat, end: nat := MapStart(v), RangeEnd(v, size);
    if RangeZero(root, arenas, start, end) && v + size + 0xFFF >= 0x1_0000_0000_0000_0000 {
      forall b: Address | Later(start, MapEnd(v, size)) <= b < end ensures ByteAt(root0, arenas0, b) == 0 {
        assert ByteAt(root, arenas, b) == 0;
      }
    }
    if v + size + 0xFFF < 0x1_0000_0000_0000_0000 || RangeZero(root0, arenas0, Later(start, MapEnd(v, size)), end) {
      forall b: Address | start <= b < end ensures ByteAt(root, arenas, b) == 0 {
        assert b >= MapEnd(v, size) ==> Later(start, MapEnd(v, size)) <= b;
      }
    }
  }

  ghost predicate MappedUpTo(root0: seq<Node>, root: seq<Node>, start: nat, page: nat, id: nat) {
    forall b: Address :: Lookup(root, b) ==
      if start <= b < page then Found(Host(id, Below(b, start))) else Lookup(root0, b)
  }

  function Below(b: Address, start: nat): nat { if start <= PageBase(b) then PageBase(b) - start else 0 }

  ghost predicate Zeroed(root0: seq<Node>, arenas0: seq<Bytes>, root: seq<Node>, arenas: seq<Bytes>, start: nat,
                         end: nat) {
    forall b: Address :: ByteAt(root, arenas, b) == if start <= b < end then 0 else ByteAt(root0, arenas0, b)
  }

  ghost predicate RefusalsLifted(root0: seq<Node>, root: seq<Node>, start: nat, end: nat) {
    forall b: Address :: Refused(Lookup(root, b)) == (!(start <= b < end) && Refused(Lookup(root0, b)))
  }

  lemma MapBegins(root: seq<Node>, start: nat, id: nat)
    ensures MappedUpTo(root, root, start, start, id)
  {
    hide Lookup;
  }

  lemma MapGoesOn(root0: seq<Node>, root1: seq<Node>, root: seq<Node>, start: nat, page: Address, id: nat)
    requires start <= page && page % 0x1000 == 0 && start % 0x1000 == 0
    requires MappedUpTo(root0, root1, start, page, id)
    requires forall b :: Lookup(root, b) == if Page(b) == Page(page) then Found(Host(id, page - start))
             else Lookup(root1, b)
    ensures MappedUpTo(root0, root, start, page + 0x1000, id)
  {
    hide Lookup;
    forall b: Address
      ensures Lookup(root, b) == if start <= b < page + 0x1000 then Found(Host(id, Below(b, start)))
              else Lookup(root0, b)
    {
      assert Page(b) == Page(page) <==> page <= b < page + 0x1000;
      assert page <= b < page + 0x1000 ==> PageBase(b) == page;
    }
  }

  lemma MapDone(root0: seq<Node>, arenas0: seq<Bytes>, root: seq<Node>, arenas: seq<Bytes>, start: nat, last: nat,
                end: nat, id: nat)
    requires start % 0x1000 == 0 && last % 0x1000 == 0 && start <= last
    requires last == if start <= end then end else start
    requires id == |arenas0| && (if start == last then arenas0 <= arenas else arenas == arenas0 + [Zeros(last - start)])
    requires Sound(root0, arenas0) && MappedUpTo(root0, root, start, last, id)
    ensures Sound(root, arenas)
    ensures Zeroed(root0, arenas0, root, arenas, start, end) && RefusalsLifted(root0, root, start, end)
  {
    hide Lookup, Below, ByteAt, Held, Page;
    forall b: Address
      ensures Held(arenas, Lookup(root, b))
      ensures ByteAt(root, arenas, b) == if start <= b < last then 0 else ByteAt(root0, arenas0, b)
    {
      MapEntry(root0, arenas0, root, arenas, start, last, id, b);
    }
    forall a: Address, b: Address | Lookup(root, a) == Lookup(root, b) && OnHost(Lookup(root, a))
      ensures Page(a) == Page(b) {
      MapEntry(root0, arenas0, root, arenas, start, last, id, a);
      MapEntry(root0, arenas0, root, arenas, start, last, id, b);
      if start <= a < last && start <= b < last { BelowTellsPages(a, b, start); }
    }
  }

  lemma BelowTellsPages(a: Address, b: Address, start: nat)
    requires start % 0x1000 == 0 && start <= a && start <= b && Below(a, start) == Below(b, start)
    ensures Page(a) == Page(b)
  {
  }

  lemma MapEntry(root0: seq<Node>, arenas0: seq<Bytes>, root: seq<Node>, arenas: seq<Bytes>, start: nat, last: nat,
                 id: nat, b: Address)
    requires start % 0x1000 == 0 && last % 0x1000 == 0 && start <= last
    requires id == |arenas0| && (if start == last then arenas0 <= arenas else arenas == arenas0 + [Zeros(last - start)])
    requires Held(arenas0, Lookup(root0, b))
    requires Lookup(root, b) == if start <= b < last then Found(Host(id, Below(b, start))) else Lookup(root0, b)
    ensures Held(arenas, Lookup(root, b))
    ensures ByteAt(root, arenas, b) == if start <= b < last then 0 else ByteAt(root0, arenas0, b)
    ensures OnHost(Lookup(root0, b)) ==> Lookup(root0, b).target.arena != id
  {
    hide Lookup;
  }

  function PageBase(a: Address): nat { a - Offset(a) }

  // ----- stored bytes -----

  ghost function BytesAt(root: seq<Node>, arenas: seq<Bytes>, v: Address, n: nat): (s: Bytes)
    ensures |s| == n && ReadFrom(root, arenas, v, s)
  {
    seq(n, k requires 0 <= k => ByteAt(root, arenas, Plus(v, k)))
  }

  lemma ReadIsUnique(root: seq<Node>, arenas: seq<Bytes>, v: Address, s: Bytes, t: Bytes)
    requires |s| == |t| && ReadFrom(root, arenas, v, s) && ReadFrom(root, arenas, v, t)
    ensures s == t
  {
    hide ByteAt, Plus;
  }

  lemma BaseIs(v: Address)
    ensures PageBase(v) == v - Offset(v) && (v - Offset(v)) % 0x1000 == 0
  {
  }

  lemma PageEnds(v: Address, k: nat)
    requires Offset(v) + k == 0x1000
    ensures PageBase(Plus(v, k)) != PageBase(v)
  {
    assert Plus(v, k) == (PageBase(v) + 0x1000) % 0x1_0000_0000_0000_0000;
  }

  lemma PageInside(v: Address, n: nat)
    requires 0 < n && Offset(v) + n <= 0x1000
    ensures PageBase(Plus(v, n - 1)) == PageBase(v)
  {
    assert Plus(v, n - 1) == v + n - 1;
  }

  lemma ReadJoins(root: seq<Node>, arenas: seq<Bytes>, v: Address, s: Bytes, t: Bytes)
    requires ReadFrom(root, arenas, v, s) && ReadFrom(root, arenas, Plus(v, |s|), t)
    ensures ReadFrom(root, arenas, v, s + t)
  {
    hide ByteAt, Plus;
    forall k | 0 <= k < |s + t| ensures (s + t)[k] == ByteAt(root, arenas, Plus(v, k)) {
      if k >= |s| { PlusPlus(v, |s|, k - |s|); }
    }
  }

  lemma RefusedJoins(root: seq<Node>, v: Address, k: nat, n: nat)
    requires k <= n && !RefusedFrom(root, v, k)
    ensures RefusedFrom(root, v, n) <==> RefusedFrom(root, Plus(v, k), n - k)
  {
    hide Lookup, Plus;
    forall j | 0 <= j < n - k ensures Plus(Plus(v, k), j) == Plus(v, k + j) { PlusPlus(v, k, j); }
    if RefusedFrom(root, v, n) {
      var i :| 0 <= i < n && Refused(Lookup(root, Plus(v, i)));
      assert Plus(Plus(v, k), i - k) == Plus(v, i);
    }
    if RefusedFrom(root, Plus(v, k), n - k) {
      var j :| 0 <= j < n - k && Refused(Lookup(root, Plus(Plus(v, k), j)));
      assert Refused(Lookup(root, Plus(v, k + j)));
    }
  }

  /** Distances from an address k further on. */
  lemma DistanceFrom(v: Address, k: nat, b: Address)
    requires k < 0x1_0000_0000_0000_0000
    ensures Distance(Plus(v, k), b) ==
            if Distance(v, b) >= k then Distance(v, b) - k else Distance(v, b) + 0x1_0000_0000_0000_0000 - k
  {
  }

  lemma StoredJoins(root0: seq<Node>, arenas0: seq<Bytes>, arenas1: seq<Bytes>, root: seq<Node>, arenas: seq<Bytes>,
                    v: Address, s: Bytes, t: Bytes)
    requires |s| + |t| < 0x1_0000_0000_0000_0000
    requires Stored(root0, arenas0, root0, arenas1, v, s) && Stored(root0, arenas1, root, arenas, Plus(v, |s|), t)
    ensures Stored(root0, arenas0, root, arenas, v, s + t)
  {
    hide ByteAt, Plus, Distance;
    forall b: Address
      ensures ByteAt(root, arenas, b) == if Distance(v, b) < |s + t| then (s + t)[Distance(v, b)]
              else ByteAt(root0, arenas0, b)
    {
      DistanceFrom(v, |s|, b);
    }
  }

  /** The first k bytes of data and then the others. */
  lemma StoreJoins(root0: seq<Node>, arenas0: seq<Bytes>, arenas1: seq<Bytes>, root: seq<Node>, arenas: seq<Bytes>,
                   v: Address, data: Bytes, k: nat)
    requires k <= |data| < 0x1_0000_0000_0000_0000
    ensures Stored(root0, arenas0, root0, arenas1, v, data[..k])
            && Stored(root0, arenas1, root, arenas, Plus(v, k), data[k..]) ==>
              Stored(root0, arenas0, root, arenas, v, data)
    ensures Stored(root0, arenas0, root0, arenas1, v, data[..k]) && !RefusedFrom(root0, v, k)
            && StoredToRefusal(root0, arenas1, root, arenas, Plus(v, k), data[k..]) ==>
              StoredToRefusal(root0, arenas0, root, arenas, v, data)
  {
    hide Stored, Lookup, Plus;
    assert data[..k] + data[k..] == data;
    if Stored(root0, arenas0, root0, arenas1, v, data[..k])
      && Stored(root0, arenas1, root, arenas, Plus(v, k), data[k..]) {
      StoredJoins(root0, arenas0, arenas1, root, arenas, v, data[..k], data[k..]);
    }
    if Stored(root0, arenas0, root0, arenas1, v, data[..k]) && !RefusedFrom(root0, v, k)
       && StoredToRefusal(root0, arenas1, root, arenas, Plus(v, k), data[k..]) {
      var n :| 0 <= n < |data[k..]| && Refused(Lookup(root0, Plus(Plus(v, k), n)))
        && !RefusedFrom(root0, Plus(v, k), n) &&
               Stored(root0, arenas1, root, arenas, Plus(v, k), data[k..][..n]);
      StoredJoins(root0, arenas0, arenas1, root, arenas, v, data[..k], data[k..][..n]);
      assert data[..k] + data[k..][..n] == data[..k + n];
      RefusedJoins(root0, v, k, k + n);
      PlusPlus(v, k, n);
    }
  }

  lemma DistanceOfPlus(v: Address, k: nat)
    requires k < 0x1_0000_0000_0000_0000
    ensures Distance(v, Plus(v, k)) == k
  {
  }

  /** Addresses of a chunk, as distances from the start of the access. */
  lemma ChunkDistance(v: Address, done: nat, at: Address, chunk: nat, b: Address)
    requires at == Plus(v, done) && done + chunk < 0x1_0000_0000_0000_0000 && Offset(at) + chunk <= 0x1000
    ensures at <= b < at + chunk <==> done <= Distance(v, b) < done + chunk
    ensures at <= b < at + chunk ==> b - at == Distance(v, b) - done
  {
  }

  lemma StoreChunk(root0: seq<Node>, arenas0: seq<Bytes>, root1: seq<Node>, arenas1: seq<Bytes>, root: seq<Node>,
                   arenas2: seq<Bytes>, arenas: seq<Bytes>, v: Address, at: Address, data: Bytes, done: nat, chunk: nat)
    requires done + chunk <= |data| < 0x1_0000_0000_0000_0000 && at == Plus(v, done) && Offset(at) + chunk <= 0x1000
    requires Stored(root0, arenas0, root1, arenas1, v, data[..done])
    requires SameMemory(root1, arenas1, root, arenas2)
    requires Overlaid(root, arenas2, root, arenas, at, data[done..done + chunk])
    ensures Stored(root0, arenas0, root, arenas, v, data[..done + chunk])
  {
    hide ByteAt, Plus, Distance;
    forall b: Address
      ensures ByteAt(root, arenas, b) ==
        if Distance(v, b) < done + chunk then data[..done + chunk][Distance(v, b)] else ByteAt(root0, arenas0, b)
    {
      ChunkDistance(v, done, at, chunk, b);
    }
  }

  lemma OverlaidIsStored(root: seq<Node>, arenas0: seq<Bytes>, arenas: seq<Bytes>, v: Address, data: Bytes)
    requires Offset(v) + |data| <= 0x1000 && Overlaid(root, arenas0, root, arenas, v, data)
    ensures Stored(root, arenas0, root, arenas, v, data)
  {
    hide ByteAt, Plus, Distance;
    AccessStarts(root, arenas0, v);
    assert data[..0] == [] && data[0..0 + |data|] == data && data[..0 + |data|] == data;
    StoreChunk(root, arenas0, root, arenas0, root, arenas0, arenas, v, v, data, 0, |data|);
  }

  /** What was stored is read back. */
  lemma StoredIsRead(root0: seq<Node>, arenas0: seq<Bytes>, root: seq<Node>, arenas: seq<Bytes>, v: Address,
                     data: Bytes)
    requires |data| < 0x1_0000_0000_0000_0000 && Stored(root0, arenas0, root, arenas, v, data)
    ensures BytesAt(root, arenas, v, |data|) == data
  {
    hide ByteAt, Plus, Distance;
    forall k | 0 <= k < |data| ensures data[k] == ByteAt(root, arenas, Plus(v, k)) { DistanceOfPlus(v, k); }
    ReadIsUnique(root, arenas, v, data, BytesAt(root, arenas, v, |data|));
  }

  lemma WordRoundTrip(root0: seq<Node>, arenas0: seq<Bytes>, root: seq<Node>, arenas: seq<Bytes>, v: Address,
                      x: Address)
    requires Stored(root0, arenas0, root, arenas, v, ToBytes(x, 8))
    ensures FromBytes(BytesAt(root, arenas, v, 8)) == x
  {
    hide Stored, ToBytes, FromBytes;
    StoredIsRead(root0, arenas0, root, arenas, v, ToBytes(x, 8));
    WordOfBytes(x);
  }

  /** Some byte of the range lies on a page that ends the process. */
  ghost predicate RefusedFrom(root: seq<Node>, v: Address, n: nat) {
    exists k :: 0 <= k < n && Refused(Lookup(root, Plus(v, k)))
  }

  /** What is left, up to the end of the page. */
  function Chunk(at: Address, left: nat): (n: nat)
    ensures n <= left && Offset(at) + n <= 0x1000 && (left > 0 ==> n > 0)
  {
    if 0x1000 - Offset(at) < left then 0x1000 - Offset(at) else left
  }

  lemma AccessStarts(root: seq<Node>, arenas: seq<Bytes>, v: Address)
    ensures Plus(v, 0) == v && !RefusedFrom(root, v, 0) && ReadFrom(root, arenas, v, [])
            && Stored(root, arenas, root, arenas, v, [])
    ensures SameMemory(root, arenas, root, arenas) && SameRefusals(root, root)
  {
    hide Lookup;
  }

  lemma Unchanged(root0: seq<Node>, arenas0: seq<Bytes>, root1: seq<Node>, arenas1: seq<Bytes>, root: seq<Node>,
                  arenas: seq<Bytes>, at: Address)
    requires SameRefusals(root0, root1) && SameRefusals(root1, root)
    requires SameMemory(root1, arenas1, root, arenas)
    ensures SameRefusals(root0, root) && Refused(Lookup(root1, at)) == Refused(Lookup(root0, at))
    ensures SameMemory(root0, arenas0, root1, arenas1) ==> SameMemory(root0, arenas0, root, arenas)
  {
    hide Lookup;
  }

  lemma StoredSoFar(root0: seq<Node>, arenas0: seq<Bytes>, root1: seq<Node>, arenas1: seq<Bytes>, root: seq<Node>,
                    arenas: seq<Bytes>,
                    v: Address, data: Bytes, done: nat)
    requires done < |data| && Refused(Lookup(root0, Plus(v, done))) && !RefusedFrom(root0, v, done)
    requires Stored(root0, arenas0, root1, arenas1, v, data[..done]) && SameMemory(root1, arenas1, root, arenas)
    ensures StoredToRefusal(root0, arenas0, root, arenas, v, data)
  {
    hide ByteAt, Lookup, Plus, Distance, RefusedFrom;
    assert Stored(root0, arenas0, root, arenas, v, data[..done]);
  }

  lemma Refusal(root: seq<Node>, v: Address, k: nat, n: nat)
    requires k < n && Refused(Lookup(root, Plus(v, k)))
    ensures RefusedFrom(root, v, n)
  {
    hide Lookup, Plus;
  }

  /** One chunk lies on one page. */
  lemma ChunkOnPage(v: Address, done: nat, at: Address, chunk: nat, k: nat)
    requires at == Plus(v, done) && Offset(at) + chunk <= 0x1000 && k < chunk
    ensures at + k < 0x1_0000_0000_0000_0000 && Plus(v, done + k) == at + k
    ensures Page(Plus(v, done + k)) == Page(at) && Offset(Plus(v, done + k)) == Offset(at) + k
    ensures Plus(v, done + chunk) == Plus(at, chunk)
    ensures PageBase(Plus(v, done + k)) == PageBase(at)
  {
    PlusPlus(v, done, k);
    PlusPlus(v, done, chunk);
  }

  lemma PlusPlus(v: Address, j: nat, k: nat)
    ensures Plus(Plus(v, j), k) == Plus(v, j + k)
  {
  }

  lemma ChunkStays(root: seq<Node>, v: Address, done: nat, at: Address, chunk: nat)
    requires at == Plus(v, done) && 0 < chunk && Offset(at) + chunk <= 0x1000
    requires !Refused(Lookup(root, at)) && !RefusedFrom(root, v, done)
    ensures !RefusedFrom(root, v, done + chunk)
    ensures Plus(v, done + chunk) == Plus(at, chunk)
    ensures PageBase(Plus(v, done + chunk - 1)) == PageBase(at)
  {
    hide Lookup, Plus, Refused;
    ChunkOnPage(v, done, at, chunk, chunk - 1);
    forall k | 0 <= k < done + chunk ensures !Refused(Lookup(root, Plus(v, k))) {
      if k >= done {
        ChunkOnPage(v, done, at, chunk, k - done);
        PageMates(root, at, Plus(v, k));
      }
    }
  }

  lemma ReadChunk(root0: seq<Node>, arenas0: seq<Bytes>, root: seq<Node>, arenas: seq<Bytes>,
                  v: Address, at: Address, id: nat, off: nat, out: Bytes, part: Bytes)
    requires SameMemory(root0, arenas0, root, arenas) && ReadFrom(root0, arenas0, v, out)
    requires at == Plus(v, |out|) && Lookup(root, at) == Found(Host(id, off))
    requires id < |arenas| && off + 0x1000 <= |arenas[id]| && Offset(at) + |part| <= 0x1000
    requires part == arenas[id][off + Offset(at)..off + Offset(at) + |part|]
    ensures ReadFrom(root0, arenas0, v, out + part)
  {
    hide Lookup, Plus;
    forall k | 0 <= k < |out + part| ensures (out + part)[k] == ByteAt(root0, arenas0, Plus(v, k)) {
      if k >= |out| {
        ChunkOnPage(v, |out|, at, |part|, k - |out|);
        PageMates(root, at, Plus(v, k));
        assert ByteAt(root, arenas, Plus(v, k)) == part[k - |out|];
      }
    }
  }
}
