/**
 Raw memory for native calls: blocks of up to 1024 bytes come from slabs, cut into slots
 of seven sizes and kept on free lists; larger blocks come one by one from the host.
 */
module RawAllocator {
  import opened Basics
  import opened HeapTypes

  function SlabSize(k: nat): (n: nat)
    requires k < 7
    ensures 16 <= n <= 1024
  {
    match k
    case 0 => 16
    case 1 => 32
    case 2 => 64
    case 3 => 128
    case 4 => 256
    case 5 => 512
    case 6 => 1024
  }

  ghost predicate Multiple(x: nat, n: nat)
    requires n > 0
  {
    x == 0 || (x >= n && Multiple(x - n, n))
  }

  /** The smallest class that holds size bytes; 7 if none does. */
  function ClassFor(size: nat): (k: nat)
    ensures k <= 7 && (k == 7 <==> size > 1024)
    ensures k < 7 ==> size <= SlabSize(k) && (k > 0 ==> SlabSize(k - 1) < size)
  {
    if size <= 16 then 0 else if size <= 32 then 1 else if size <= 64 then 2 else if size <= 128 then 3
    else if size <= 256 then 4 else if size <= 512 then 5 else if size <= 1024 then 6 else 7
  }

  /** A slab: 65536 bytes from base on, cut into slots of one class. */
  datatype Chunk = Chunk(base: Ptr, cls: nat)

  predicate Holds(c: Chunk, p: Ptr) { c.base <= p < c.base + 65536 }

  ghost predicate ChunksOk(chunks: seq<Chunk>) {
    && (forall i :: 0 <= i < |chunks| ==> chunks[i].base > 0 && chunks[i].cls < 7)
    && (forall i, j :: 0 <= i < j < |chunks| ==> chunks[i].base + 65536 <= chunks[j].base)
  }

  ghost predicate SlotOf(c: Chunk, p: Ptr) {
    c.cls < 7 && Holds(c, p) && Multiple(p - c.base, SlabSize(c.cls))
  }

  ghost predicate Slot(chunks: seq<Chunk>, p: Ptr, k: nat) {
    exists i :: 0 <= i < |chunks| && chunks[i].cls == k && SlotOf(chunks[i], p)
  }

  predicate InChunks(chunks: seq<Chunk>, p: Ptr) {
    exists i :: 0 <= i < |chunks| && Holds(chunks[i], p)
  }

  /** Two stretches of memory without a byte in common. */
  predicate Apart(p: Ptr, n: nat, q: Ptr, m: nat) { p + n <= q || q + m <= p }

  /** Each slot is outstanding or on the list of its class, never both and once. */
  ghost predicate ListsOk(chunks: seq<Chunk>, free: seq<seq<Ptr>>, blocks: map<Ptr, nat>) {
    && |free| == 7
    && (forall k :: 0 <= k < 7 ==> Distinct(free[k]))
    && (forall k, p :: 0 <= k < 7 && p in free[k] ==> Slot(chunks, p, k) && p !in blocks)
    && (forall k, p :: 0 <= k < 7 && Slot(chunks, p, k) ==> p in free[k] || (p in blocks && blocks[p] == SlabSize(k)))
  }

  /** An outstanding block is a large one or a slot. */
  ghost predicate BlockOk(chunks: seq<Chunk>, large: map<Ptr, nat>, p: Ptr, n: nat) {
    if p in large then n == large[p] else exists k :: 0 <= k < 7 && Slot(chunks, p, k) && n == SlabSize(k)
  }

  ghost predicate LargeOk(chunks: seq<Chunk>, large: map<Ptr, nat>) {
    && (forall p :: p in large ==> p > 0 && large[p] > 0)
    && (forall p, i :: p in large && 0 <= i < |chunks| ==> Apart(p, large[p], chunks[i].base, 65536))
    && (forall p, q :: p in large && q in large && p != q ==> Apart(p, large[p], q, large[q]))
  }

  ghost predicate BlocksOk(chunks: seq<Chunk>, large: map<Ptr, nat>, blocks: map<Ptr, nat>) {
    && (forall p :: p in blocks ==> BlockOk(chunks, large, p, blocks[p]))
    && (forall p :: p in large ==> p in blocks)
  }

  ghost predicate Inv(chunks: seq<Chunk>, free: seq<seq<Ptr>>, large: map<Ptr, nat>, blocks: map<Ptr, nat>) {
    ChunksOk(chunks) && LargeOk(chunks, large) && BlocksOk(chunks, large, blocks) && ListsOk(chunks, free, blocks)
  }

  // ----- arithmetic of slots -----

  lemma {:induction false} MultiplesApart(x: nat, y: nat, n: nat)
    requires n > 0 && Multiple(x, n) && Multiple(y, n) && x < y
    ensures x + n <= y
  {
    if x > 0 { MultiplesApart(x - n, y - n, n); }
  }

  lemma {:induction false} MultipleOf(n: nat, count: nat)
    requires n > 0
    ensures n * count >= 0 && Multiple(n * count, n)
  {
    if count > 0 {
      MultipleOf(n, count - 1);
      assert n * count == n * (count - 1) + n;
    }
  }

  lemma WholeChunk(k: nat)
    requires k < 7
    ensures Multiple(65536, SlabSize(k))
  {
    hide Multiple;
    match k {
      case 0 => MultipleOf(16, 4096);
      case 1 => MultipleOf(32, 2048);
      case 2 => MultipleOf(64, 1024);
      case 3 => MultipleOf(128, 512);
      case 4 => MultipleOf(256, 256);
      case 5 => MultipleOf(512, 128);
      case 6 => MultipleOf(1024, 64);
    }
  }

  lemma SlotFits(c: Chunk, p: Ptr)
    requires SlotOf(c, p)
    ensures p + SlabSize(c.cls) <= c.base + 65536
  {
    WholeChunk(c.cls);
    MultiplesApart(p - c.base, 65536, SlabSize(c.cls));
  }

  lemma SlotsApart(c: Chunk, p: Ptr, q: Ptr)
    requires SlotOf(c, p) && SlotOf(c, q) && p != q
    ensures Apart(p, SlabSize(c.cls), q, SlabSize(c.cls))
  {
    if p < q {
      MultiplesApart(p - c.base, q - c.base, SlabSize(c.cls));
    } else {
      MultiplesApart(q - c.base, p - c.base, SlabSize(c.cls));
    }
  }

  /** Slots of any classes do not overlap. */
  lemma AnySlotsApart(chunks: seq<Chunk>, p: Ptr, k: nat, q: Ptr, l: nat)
    requires ChunksOk(chunks) && k < 7 && l < 7 && Slot(chunks, p, k) && Slot(chunks, q, l) && p != q
    ensures Apart(p, SlabSize(k), q, SlabSize(l))
  {
    hide SlabSize, Multiple;
    var i :| 0 <= i < |chunks| && chunks[i].cls == k && SlotOf(chunks[i], p);
    var j :| 0 <= j < |chunks| && chunks[j].cls == l && SlotOf(chunks[j], q);
    SlotFits(chunks[i], p);
    SlotFits(chunks[j], q);
    if i == j {
      SlotsApart(chunks[i], p, q);
    }
  }

  lemma LargeAndSlotApart(chunks: seq<Chunk>, large: map<Ptr, nat>, p: Ptr, q: Ptr, l: nat)
    requires LargeOk(chunks, large) && p in large && l < 7 && Slot(chunks, q, l)
    ensures Apart(p, large[p], q, SlabSize(l)) && p != q
  {
    hide SlabSize, Multiple;
    var j :| 0 <= j < |chunks| && chunks[j].cls == l && SlotOf(chunks[j], q);
    SlotFits(chunks[j], q);
    assert Apart(p, large[p], chunks[j].base, 65536);
  }

  /** Outstanding blocks never overlap. */
  lemma BlocksApart(chunks: seq<Chunk>, free: seq<seq<Ptr>>, large: map<Ptr, nat>, blocks: map<Ptr, nat>, p: Ptr,
                    q: Ptr)
    requires Inv(chunks, free, large, blocks) && p in blocks && q in blocks && p != q
    ensures Apart(p, blocks[p], q, blocks[q])
  {
    hide SlabSize, Multiple, Slot, ListsOk;
    assert BlockOk(chunks, large, p, blocks[p]) && BlockOk(chunks, large, q, blocks[q]);
    if p in large && q in large {
    } else if p in large {
      var l :| 0 <= l < 7 && Slot(chunks, q, l) && blocks[q] == SlabSize(l);
      LargeAndSlotApart(chunks, large, p, q, l);
    } else if q in large {
      var k :| 0 <= k < 7 && Slot(chunks, p, k) && blocks[p] == SlabSize(k);
      LargeAndSlotApart(chunks, large, q, p, k);
    } else {
      var k :| 0 <= k < 7 && Slot(chunks, p, k) && blocks[p] == SlabSize(k);
      var l :| 0 <= l < 7 && Slot(chunks, q, l) && blocks[q] == SlabSize(l);
      AnySlotsApart(chunks, p, k, q, l);
    }
  }

  /** A pointer lies in one chunk only, so a slot has one class. */
  lemma OneChunk(chunks: seq<Chunk>, p: Ptr, i: nat, j: nat)
    requires ChunksOk(chunks) && i < |chunks| && j < |chunks| && Holds(chunks[i], p) && Holds(chunks[j], p)
    ensures i == j
  {
  }

  lemma OneClass(chunks: seq<Chunk>, p: Ptr, k: nat, l: nat)
    requires ChunksOk(chunks) && Slot(chunks, p, k) && Slot(chunks, p, l)
    ensures k == l
  {
    var i :| 0 <= i < |chunks| && chunks[i].cls == k && SlotOf(chunks[i], p);
    var j :| 0 <= j < |chunks| && chunks[j].cls == l && SlotOf(chunks[j], p);
    OneChunk(chunks, p, i, j);
  }

  // ----- finding the chunk of a pointer -----

  /** The first chunk with base above p. */
  method UpperBound(chunks: seq<Chunk>, p: Ptr) returns (k: nat)
    requires ChunksOk(chunks)
    ensures k <= |chunks|
    ensures forall i :: 0 <= i < k ==> chunks[i].base <= p
    ensures forall i :: k <= i < |chunks| ==> p < chunks[i].base
  {
    var lo, hi := 0, |chunks|;
    while lo < hi
      invariant lo <= hi <= |chunks|
      invariant forall i :: 0 <= i < lo ==> chunks[i].base <= p
      invariant forall i :: hi <= i < |chunks| ==> p < chunks[i].base
    {
      var mid := (lo + hi) / 2;
      if p < chunks[mid].base { hi := mid; } else { lo := mid + 1; }
    }
    k := lo;
  }

  /** The one chunk that holds p, if any does. */
  method FindChunk(chunks: seq<Chunk>, p: Ptr) returns (found: bool, i: nat)
    requires ChunksOk(chunks)
    ensures found <==> InChunks(chunks, p)
    ensures found ==> i < |chunks| && Holds(chunks[i], p)
  {
    found, i := false, 0;
    if |chunks| > 0 && p != 0 {
      var k := UpperBound(chunks, p);
      if k != 0 {
        i := k - 1;
        found := chunks[i].base <= p < chunks[i].base + 65536;
        assert forall j :: 0 <= j < i ==> chunks[j].base + 65536 <= chunks[i].base;
      }
    }
  }

  // ----- single steps on the lists -----

  ghost predicate SameButFor(free: seq<seq<Ptr>>, free': seq<seq<Ptr>>, k: nat) {
    |free| == 7 && |free'| == 7 && forall l :: 0 <= l < 7 && l != k ==> free'[l] == free[l]
  }

  /** The list of class k has p as its new head. */
  ghost predicate Pushed(free: seq<seq<Ptr>>, k: nat, p: Ptr, free': seq<seq<Ptr>>) {
    k < 7 && SameButFor(free, free', k) && free'[k] == free[k] + [p]
  }

  lemma PopKeepsInv(chunks: seq<Chunk>, free: seq<seq<Ptr>>, large: map<Ptr, nat>, blocks: map<Ptr, nat>,
                    k: nat, p: Ptr, free': seq<seq<Ptr>>)
    requires k < 7 && SameButFor(free, free', k) && free[k] == free'[k] + [p]
    requires Inv(chunks, free, large, blocks)
    ensures p !in blocks && p > 0
    ensures Inv(chunks, free', large, blocks[p := SlabSize(k)])
  {
    hide SlabSize, Multiple, Slot, LargeOk;
    var blocks' := blocks[p := SlabSize(k)];
    assert free[k][|free[k]| - 1] == p && p in free[k];
    SlotIsNotLarge(chunks, large, p, k);
    SlotIsPositive(chunks, p, k);
    assert forall q :: q in free'[k] ==> q in free[k];
    assert forall q :: q in free[k] ==> q in free'[k] || q == p;
    assert Distinct(free'[k]) by { assert forall i :: 0 <= i < |free'[k]| ==> free'[k][i] == free[k][i]; }
    forall l, q | 0 <= l < 7 && q in free'[l] ensures Slot(chunks, q, l) && q !in blocks' {
      assert q in free[l];
      if q == p {
        OneClass(chunks, p, k, l);
        LastOnce(free'[k], p);
      }
    }
    forall l, q | 0 <= l < 7 && Slot(chunks, q, l)
      ensures q in free'[l] || (q in blocks' && blocks'[q] == SlabSize(l))
    {
      if q == p { OneClass(chunks, p, k, l); }
    }
    forall q | q in blocks' ensures BlockOk(chunks, large, q, blocks'[q]) {
      if q != p { assert BlockOk(chunks, large, q, blocks[q]); }
    }
  }

  lemma LastOnce(s: seq<Ptr>, p: Ptr)
    requires Distinct(s + [p])
    ensures p !in s
  {
    assert forall i :: 0 <= i < |s| ==> (s + [p])[i] == s[i];
    assert (s + [p])[|s|] == p;
  }

  lemma SlotIsNotLarge(chunks: seq<Chunk>, large: map<Ptr, nat>, p: Ptr, k: nat)
    requires LargeOk(chunks, large) && Slot(chunks, p, k) && k < 7
    ensures p !in large
  {
    if p in large { LargeAndSlotApart(chunks, large, p, p, k); }
  }

  lemma SlotIsPositive(chunks: seq<Chunk>, p: Ptr, k: nat)
    requires ChunksOk(chunks) && Slot(chunks, p, k)
    ensures p > 0
  {
  }

  /** Pushing p keeps everything in order exactly if p is an outstanding slot. */
  lemma PushKeepsInvIff(chunks: seq<Chunk>, free: seq<seq<Ptr>>, large: map<Ptr, nat>, blocks: map<Ptr, nat>,
                        i: nat, p: Ptr, free': seq<seq<Ptr>>)
    requires i < |chunks| && Holds(chunks[i], p)
    requires Inv(chunks, free, large, blocks)
    requires SameButFor(free, free', chunks[i].cls) && free'[chunks[i].cls] == free[chunks[i].cls] + [p]
    ensures Inv(chunks, free', large, blocks - {p}) <==> p in blocks
  {
    hide SlabSize, Multiple, Slot, ListsOk, BlocksOk, LargeOk, ChunksOk;
    if p in blocks {
      PushKeepsInv(chunks, free, large, blocks, i, p, free');
    } else {
      PushBreaksInv(chunks, free, large, blocks, i, p, free');
    }
  }

  lemma BlockInChunk(chunks: seq<Chunk>, free: seq<seq<Ptr>>, large: map<Ptr, nat>, blocks: map<Ptr, nat>, i: nat,
                     p: Ptr)
    requires i < |chunks| && Holds(chunks[i], p) && p in blocks
    requires Inv(chunks, free, large, blocks)
    ensures Slot(chunks, p, chunks[i].cls) && blocks[p] == SlabSize(chunks[i].cls) && p !in large
  {
    hide SlabSize, Multiple, ListsOk;
    assert BlockOk(chunks, large, p, blocks[p]);
    assert p in large ==> Apart(p, large[p], chunks[i].base, 65536);
    var k :| 0 <= k < 7 && Slot(chunks, p, k) && blocks[p] == SlabSize(k);
    var j :| 0 <= j < |chunks| && chunks[j].cls == k && SlotOf(chunks[j], p);
    OneChunk(chunks, p, i, j);
  }

  lemma PushKeepsInv(chunks: seq<Chunk>, free: seq<seq<Ptr>>, large: map<Ptr, nat>, blocks: map<Ptr, nat>,
                     i: nat, p: Ptr, free': seq<seq<Ptr>>)
    requires i < |chunks| && Holds(chunks[i], p) && p in blocks
    requires Inv(chunks, free, large, blocks)
    requires SameButFor(free, free', chunks[i].cls) && free'[chunks[i].cls] == free[chunks[i].cls] + [p]
    ensures Inv(chunks, free', large, blocks - {p})
  {
    hide SlabSize, Multiple, Slot, LargeOk;
    BlockInChunk(chunks, free, large, blocks, i, p);
    var k, blocks' := chunks[i].cls, blocks - {p};
    PushUnique(free[k], p);
    assert forall q :: q in free'[k] <==> q in free[k] || q == p;
    forall l, q | 0 <= l < 7 && q in free'[l] ensures Slot(chunks, q, l) && q !in blocks' {
    }
    forall l, q | 0 <= l < 7 && Slot(chunks, q, l)
      ensures q in free'[l] || (q in blocks' && blocks'[q] == SlabSize(l))
    {
      if q == p { OneClass(chunks, p, k, l); }
    }
    forall q | q in blocks' ensures BlockOk(chunks, large, q, blocks'[q]) {
      assert BlockOk(chunks, large, q, blocks[q]);
    }
  }

  lemma PushUnique(s: seq<Ptr>, p: Ptr)
    requires Distinct(s) && p !in s
    ensures Distinct(s + [p])
  {
    assert forall i :: 0 <= i < |s| ==> (s + [p])[i] == s[i];
  }

  /** A free slot is then listed twice; any other pointer is no slot. */
  lemma PushBreaksInv(chunks: seq<Chunk>, free: seq<seq<Ptr>>, large: map<Ptr, nat>, blocks: map<Ptr, nat>,
                      i: nat, p: Ptr, free': seq<seq<Ptr>>)
    requires i < |chunks| && Holds(chunks[i], p) && p !in blocks
    requires Inv(chunks, free, large, blocks)
    requires SameButFor(free, free', chunks[i].cls) && free'[chunks[i].cls] == free[chunks[i].cls] + [p]
    ensures !ListsOk(chunks, free', blocks - {p})
  {
    hide SlabSize, Multiple, Slot, LargeOk, BlocksOk;
    var k := chunks[i].cls;
    assert free'[k][|free[k]|] == p && p in free'[k];
    if Slot(chunks, p, k) {
      var j :| 0 <= j < |free[k]| && free[k][j] == p;
      assert free'[k][j] == p;
      assert !Distinct(free'[k]);
    }
  }

  // ----- a new slab -----

  /** The slots of the first n bytes of a slab, in the order they are pushed. */
  function Cut(base: Ptr, k: nat, n: nat): (s: seq<Ptr>)
    requires k < 7
  {
    if n < SlabSize(k) then [] else Cut(base, k, n - SlabSize(k)) + [base + n - SlabSize(k)]
  }

  lemma {:induction false} CutHas(base: Ptr, k: nat, n: nat, p: Ptr)
    requires k < 7 && Multiple(n, SlabSize(k))
    ensures p in Cut(base, k, n) <==> base <= p < base + n && Multiple(p - base, SlabSize(k))
    decreases n
  {
    hide SlabSize;
    if n >= SlabSize(k) {
      var m := n - SlabSize(k);
      CutHas(base, k, m, p);
      assert Cut(base, k, n) == Cut(base, k, m) + [base + m];
      if base + m < p && Multiple(p - base, SlabSize(k)) {
        MultiplesApart(m, p - base, SlabSize(k));
      }
    }
  }

  lemma {:induction false} CutUnique(base: Ptr, k: nat, n: nat)
    requires k < 7 && Multiple(n, SlabSize(k))
    ensures Distinct(Cut(base, k, n))
    decreases n
  {
    hide SlabSize;
    if n >= SlabSize(k) {
      var m := n - SlabSize(k);
      CutUnique(base, k, m);
      CutHas(base, k, m, base + m);
      PushUnique(Cut(base, k, m), base + m);
    }
  }

  /** A stretch that the host may hand out: none of it is in use. */
  predicate Unused(chunks: seq<Chunk>, large: map<Ptr, nat>, p: Ptr, n: nat) {
    && (forall i :: 0 <= i < |chunks| ==> Apart(p, n, chunks[i].base, 65536))
    && (forall q :: q in large ==> Apart(p, n, q, large[q]))
  }

  ghost predicate Inserted(chunks: seq<Chunk>, i: nat, c: Chunk, chunks': seq<Chunk>) {
    && i <= |chunks| && chunks' == chunks[..i] + [c] + chunks[i..]
    && (forall j :: 0 <= j < i ==> chunks[j].base <= c.base)
    && (forall j :: i <= j < |chunks| ==> c.base < chunks[j].base)
  }

  lemma InsertChunk(chunks: seq<Chunk>, large: map<Ptr, nat>, i: nat, c: Chunk, chunks': seq<Chunk>)
    requires c.base > 0 && c.cls < 7 && Unused(chunks, large, c.base, 65536)
    requires ChunksOk(chunks) && Inserted(chunks, i, c, chunks')
    ensures ChunksOk(chunks') && forall d :: d in chunks' ==> d in chunks || d == c
  {
    assert forall j :: 0 <= j < |chunks'| ==> chunks'[j] == if j < i then chunks[j] else if j == i then c
           else chunks[j - 1];
  }

  lemma InsertSorted(chunks: seq<Chunk>, large: map<Ptr, nat>, i: nat, c: Chunk, chunks': seq<Chunk>)
    requires c.base > 0 && c.cls < 7 && Unused(chunks, large, c.base, 65536)
    requires ChunksOk(chunks) && LargeOk(chunks, large) && Inserted(chunks, i, c, chunks')
    ensures ChunksOk(chunks') && LargeOk(chunks', large)
  {
    hide ChunksOk, Inserted;
    InsertChunk(chunks, large, i, c, chunks');
    assert forall j :: 0 <= j < |chunks'| ==> chunks'[j] in chunks';
  }

  lemma InsertSlots(chunks: seq<Chunk>, i: nat, c: Chunk, chunks': seq<Chunk>, p: Ptr, k: nat)
    requires Inserted(chunks, i, c, chunks')
    ensures Slot(chunks', p, k) <==> Slot(chunks, p, k) || (k == c.cls && SlotOf(c, p))
  {
    hide SlotOf;
    assert forall j :: 0 <= j < |chunks'| ==> chunks'[j] == if j < i then chunks[j] else if j == i then c
           else chunks[j - 1];
    if Slot(chunks, p, k) {
      var j :| 0 <= j < |chunks| && chunks[j].cls == k && SlotOf(chunks[j], p);
      assert chunks'[if j < i then j else j + 1] == chunks[j];
    }
    if k == c.cls && SlotOf(c, p) { assert chunks'[i] == c; }
  }

  /** Slots of an unused stretch are in no block. */
  lemma NewSlotIsNew(chunks: seq<Chunk>, large: map<Ptr, nat>, c: Chunk, p: Ptr, k: nat)
    requires Unused(chunks, large, c.base, 65536) && SlotOf(c, p) && LargeOk(chunks, large)
    ensures p !in large && !Slot(chunks, p, k)
  {
  }

  lemma GrowKeepsInv(chunks: seq<Chunk>, free: seq<seq<Ptr>>, large: map<Ptr, nat>, blocks: map<Ptr, nat>,
                     i: nat, c: Chunk, chunks': seq<Chunk>, free': seq<seq<Ptr>>)
    requires c.base > 0 && c.cls < 7 && Unused(chunks, large, c.base, 65536)
    requires Inserted(chunks, i, c, chunks')
    requires SameButFor(free, free', c.cls) && free'[c.cls] == free[c.cls] + Cut(c.base, c.cls, 65536)
    requires Inv(chunks, free, large, blocks)
    ensures Inv(chunks', free', large, blocks)
  {
    hide SlabSize, Multiple, Slot, SlotOf, LargeOk, Cut, Unused, Inserted, ChunksOk;
    var k, cut := c.cls, Cut(c.base, c.cls, 65536);
    InsertSorted(chunks, large, i, c, chunks');
    forall p, l ensures Slot(chunks', p, l) <==> Slot(chunks, p, l) || (l == k && SlotOf(c, p)) {
      InsertSlots(chunks, i, c, chunks', p, l);
    }
    forall p ensures p in cut <==> SlotOf(c, p) { CutIsSlots(c, p); }
    forall p | SlotOf(c, p) ensures p !in blocks && p !in free[k] {
      NotABlock(chunks, large, blocks, c, p);
      NewSlotIsNew(chunks, large, c, p, k);
    }
    WholeChunk(k);
    CutUnique(c.base, k, 65536);
    JoinUnique(free[k], cut);
    forall q | q in blocks ensures BlockOk(chunks', large, q, blocks[q]) {
      assert BlockOk(chunks, large, q, blocks[q]);
    }
    assert forall q :: q in free'[k] <==> q in free[k] || q in cut;
  }

  lemma CutIsSlots(c: Chunk, p: Ptr)
    requires c.cls < 7
    ensures p in Cut(c.base, c.cls, 65536) <==> SlotOf(c, p)
  {
    hide SlabSize, Multiple, Cut;
    WholeChunk(c.cls);
    CutHas(c.base, c.cls, 65536, p);
  }

  lemma NotABlock(chunks: seq<Chunk>, large: map<Ptr, nat>, blocks: map<Ptr, nat>, c: Chunk, p: Ptr)
    requires Unused(chunks, large, c.base, 65536) && SlotOf(c, p) && LargeOk(chunks, large)
             && BlocksOk(chunks, large, blocks)
    ensures p !in blocks
  {
    hide SlotOf, Slot, SlabSize, Unused, LargeOk;
    if p in blocks {
      assert BlockOk(chunks, large, p, blocks[p]);
      NewSlotIsNew(chunks, large, c, p, 0);
      var k :| 0 <= k < 7 && Slot(chunks, p, k);
      NewSlotIsNew(chunks, large, c, p, k);
    }
  }

  lemma JoinUnique(s: seq<Ptr>, t: seq<Ptr>)
    requires Distinct(s) && Distinct(t) && forall p :: p in t ==> p !in s
    ensures Distinct(s + t)
  {
    var u := s + t;
    forall i, j | 0 <= i < j < |u| ensures u[i] != u[j] {
      if i < |s| <= j { assert u[j] == t[j - |s|] && t[j - |s|] in t; }
    }
  }

  // ----- large blocks -----

  lemma AddLarge(chunks: seq<Chunk>, free: seq<seq<Ptr>>, large: map<Ptr, nat>, blocks: map<Ptr, nat>, p: Ptr, n: nat)
    requires p > 0 && n > 0 && Unused(chunks, large, p, n)
    requires Inv(chunks, free, large, blocks)
    ensures p !in blocks && Inv(chunks, free, large[p := n], blocks[p := n])
  {
    hide SlabSize, Multiple, Slot, LargeOk, ChunksOk, Unused;
    NotInUse(chunks, large, blocks, p, n);
    LargeGrows(chunks, large, p, n);
    var large', blocks' := large[p := n], blocks[p := n];
    forall q | q in blocks' ensures BlockOk(chunks, large', q, blocks'[q]) {
      if q != p { assert BlockOk(chunks, large, q, blocks[q]); }
    }
    NotASlot(chunks, large, p, n);
  }

  lemma LargeGrows(chunks: seq<Chunk>, large: map<Ptr, nat>, p: Ptr, n: nat)
    requires p > 0 && n > 0 && Unused(chunks, large, p, n) && LargeOk(chunks, large)
    ensures LargeOk(chunks, large[p := n])
  {
  }

  lemma NotASlot(chunks: seq<Chunk>, large: map<Ptr, nat>, p: Ptr, n: nat)
    requires n > 0 && Unused(chunks, large, p, n)
    ensures forall k :: 0 <= k < 7 ==> !Slot(chunks, p, k)
  {
  }

  lemma NotInUse(chunks: seq<Chunk>, large: map<Ptr, nat>, blocks: map<Ptr, nat>, p: Ptr, n: nat)
    requires n > 0 && Unused(chunks, large, p, n) && LargeOk(chunks, large) && BlocksOk(chunks, large, blocks)
    ensures p !in blocks && p !in large
  {
    hide SlabSize, Multiple, Slot;
    assert p in large ==> Apart(p, n, p, large[p]);
    assert p in blocks ==> BlockOk(chunks, large, p, blocks[p]);
    NotASlot(chunks, large, p, n);
  }

  lemma RemoveLarge(chunks: seq<Chunk>, free: seq<seq<Ptr>>, large: map<Ptr, nat>, blocks: map<Ptr, nat>, p: Ptr)
    requires p in large
    requires Inv(chunks, free, large, blocks)
    ensures p in blocks && blocks[p] == large[p] && Inv(chunks, free, large - {p}, blocks - {p})
  {
    hide SlabSize, Multiple, Slot;
    assert BlockOk(chunks, large, p, blocks[p]);
    forall q | q in blocks - {p} ensures BlockOk(chunks, large - {p}, q, (blocks - {p})[q]) {
      assert BlockOk(chunks, large, q, blocks[q]);
    }
    forall k | 0 <= k < 7 ensures !Slot(chunks, p, k) {
      if Slot(chunks, p, k) { SlotIsNotLarge(chunks, large, p, k); }
    }
  }

  // ----- the bytes in use -----

  ghost function Total(blocks: map<Ptr, nat>): nat
    decreases |blocks|
  {
    if blocks == map[] then 0
    else
      var p :| p in blocks;
      blocks[p] + Total(blocks - {p})
  }

  lemma {:induction false} TotalRemove(blocks: map<Ptr, nat>, p: Ptr)
    requires p in blocks
    ensures Total(blocks) == blocks[p] + Total(blocks - {p})
    decreases |blocks|
  {
    var q :| q in blocks && Total(blocks) == blocks[q] + Total(blocks - {q});
    if q != p {
      TotalRemove(blocks - {q}, p);
      TotalRemove(blocks - {p}, q);
      assert blocks - {q} - {p} == blocks - {p} - {q};
    }
  }

  lemma TotalAdd(blocks: map<Ptr, nat>, p: Ptr, n: nat)
    requires p !in blocks
    ensures Total(blocks[p := n]) == Total(blocks) + n
  {
    TotalRemove(blocks[p := n], p);
    assert blocks[p := n] - {p} == blocks;
  }

  // ----- the allocator -----

  /** The common prefix of s, then zeros. */
  function Resized(s: seq<Byte>, n: nat): (r: seq<Byte>)
    ensures |r| == n
    ensures forall i :: 0 <= i < n ==> r[i] == if i < |s| then s[i] else 0
  {
    if n <= |s| then s[..n] else s + Zeros(n - |s|)
  }

  lemma NoSlots()
    ensures forall p, k :: !Slot([], p, k)
  {
  }

  lemma PlacedAt(chunks: seq<Chunk>, i: nat, c: Chunk, chunks': seq<Chunk>)
    requires i <= |chunks| && chunks' == chunks[..i] + [c] + chunks[i..]
    requires forall j :: 0 <= j < i ==> chunks[j].base <= c.base
    requires forall j :: i <= j < |chunks| ==> c.base < chunks[j].base
    ensures Inserted(chunks, i, c, chunks')
  {
  }

  lemma OutstandingIsHeld(chunks: seq<Chunk>, large: map<Ptr, nat>, blocks: map<Ptr, nat>, p: Ptr)
    requires p in blocks && BlocksOk(chunks, large, blocks)
    ensures p in large || InChunks(chunks, p)
  {
    assert BlockOk(chunks, large, p, blocks[p]);
  }

  lemma HeldIsNotLarge(chunks: seq<Chunk>, large: map<Ptr, nat>, i: nat, p: Ptr)
    requires i < |chunks| && Holds(chunks[i], p) && LargeOk(chunks, large)
    ensures large - {p} == large
  {
  }

  lemma UnusedShrinks(chunks: seq<Chunk>, large: map<Ptr, nat>, p: Ptr, n: nat, q: Ptr)
    requires Unused(chunks, large, p, n)
    ensures Unused(chunks, large - {q}, p, n)
  {
  }

  predicate KeepsPrefix(s: seq<Byte>, r: seq<Byte>) {
    forall i :: 0 <= i < |s| && i < |r| ==> r[i] == s[i]
  }

  class Allocator {
    const slabs: bool
    var chunks: seq<Chunk>
    /** The free list of each class; the last element is the head. */
    var free: seq<seq<Ptr>>
    var large: map<Ptr, nat>
    var totalBytes: int
    /** What each outstanding block holds. */
    var memory: map<Ptr, seq<Byte>>
    ghost var blocks: map<Ptr, nat>

    /** What the methods themselves rely on: sorted chunks and one list for each class.
        Every call keeps it, also one that puts the lists in disorder. */
    ghost predicate Usable()
      reads this
    {
      |free| == 7 && ChunksOk(chunks)
    }

    ghost predicate Valid()
      reads this
    {
      && memory.Keys == blocks.Keys
      && (forall p :: p in blocks ==> |memory[p]| == blocks[p])
      && totalBytes == Total(blocks)
      && Inv(chunks, free, large, blocks)
    }

    constructor (slabs: bool)
      ensures Valid() && blocks == map[] && memory == map[] && chunks == [] && large == map[] && this.slabs == slabs
    {
      this.slabs := slabs;
      chunks := [];
      free := [[], [], [], [], [], [], []];
      large := map[];
      totalBytes := 0;
      memory := map[];
      blocks := map[];
      new;
      hide Slot;
      NoSlots();
    }

    /** A slab from the host for class k; os is what the host returns, 0 if nothing. */
    method Grow(k: nat, os: Ptr) returns (ok: bool)
      requires k < 7 && (os == 0 || Unused(chunks, large, os, 65536))
      requires Usable()
      modifies this`chunks, this`free
      ensures Usable() && (old(Valid()) ==> Valid())
      ensures forall c :: c in chunks ==> c in old(chunks) || c.base == os
      ensures ok <==> os != 0
      ensures !ok ==> chunks == old(chunks) && free == old(free)
      ensures ok ==> |free[k]| > 0
    {
      hide SlabSize, Slot, ChunksOk, LargeOk, BlocksOk, BlockOk, Unused, SlotOf, Inserted, Total;
      if os == 0 { return false; }
      ghost var chunks0, free0 := chunks, free;
      var c := Chunk(os, k);
      var i := UpperBound(chunks, os);
      chunks := chunks[..i] + [c] + chunks[i..];
      PlacedAt(chunks0, i, c, chunks);
      var off := 0;
      WholeChunk(k);
      while off < 65536
        invariant 0 <= off <= 65536 && Multiple(65536 - off, SlabSize(k))
        invariant SameButFor(free0, free, k)
        invariant free[k] == free0[k] + Cut(os, k, off)
        invariant chunks == chunks0[..i] + [c] + chunks0[i..]
      {
        assert Cut(os, k, off + SlabSize(k)) == Cut(os, k, off) + [os + off];
        free := free[k := free[k] + [os + off]];
        off := off + SlabSize(k);
      }
      InsertChunk(chunks0, large, i, c, chunks);
      if Inv(chunks0, free0, large, blocks) {
        GrowKeepsInv(chunks0, free0, large, blocks, i, c, chunks, free);
      }
      assert Cut(os, k, 65536) != [];
      ok := true;
    }

    /** The head of a free list, zeroed. */
    method TakeSlot(k: nat) returns (p: Ptr)
      requires k < 7 && |free| == 7 && |free[k]| > 0
      requires Usable()
      modifies this`free, this`memory, this`blocks, this`totalBytes
      ensures Usable() && (old(Valid()) ==> Valid() && p != 0 && p !in old(blocks))
      ensures SameButFor(old(free), free, k) && old(free[k]) == free[k] + [p]
      ensures blocks == old(blocks)[p := SlabSize(k)]
      ensures memory == old(memory)[p := Zeros(SlabSize(k))]
    {
      hide SlabSize, Slot, ChunksOk, LargeOk, BlocksOk, ListsOk, Total;
      ghost var free0 := free;
      var n := |free[k]|;
      p := free[k][n - 1];
      free := free[k := free[k][..n - 1]];
      if Inv(chunks, free0, large, blocks) {
        PopKeepsInv(chunks, free0, large, blocks, k, p, free);
        TotalAdd(blocks, p, SlabSize(k));
      }
      memory := memory[p := Zeros(SlabSize(k))];
      blocks := blocks[p := SlabSize(k)];
      totalBytes := totalBytes + SlabSize(k);
    }

    method AddBlock(os: Ptr, data: seq<Byte>)
      requires os != 0 && |data| > 0 && Unused(chunks, large, os, |data|)
      modifies this`large, this`memory, this`blocks, this`totalBytes
      ensures old(Valid()) ==> Valid() && os !in old(blocks)
      ensures blocks == old(blocks)[os := |data|] && memory == old(memory)[os := data]
      ensures large == old(large)[os := |data|]
    {
      hide SlabSize, Slot, ChunksOk, LargeOk, BlocksOk, ListsOk, Unused, Total;
      if Inv(chunks, free, large, blocks) {
        AddLarge(chunks, free, large, blocks, os, |data|);
        TotalAdd(blocks, os, |data|);
      }
      large := large[os := |data|];
      memory := memory[os := data];
      blocks := blocks[os := |data|];
      totalBytes := totalBytes + |data|;
    }

    method DropBlock(p: Ptr)
      requires p in large
      modifies this`large, this`memory, this`blocks, this`totalBytes
      ensures old(Valid()) ==> Valid() && p in old(blocks)
      ensures blocks == old(blocks) - {p} && memory == old(memory) - {p}
      ensures large == old(large) - {p}
    {
      hide SlabSize, Slot, ChunksOk, LargeOk, BlocksOk, ListsOk, Total;
      if Inv(chunks, free, large, blocks) {
        RemoveLarge(chunks, free, large, blocks, p);
        TotalRemove(blocks, p);
      }
      totalBytes := totalBytes - large[p];
      large := large - {p};
      memory := memory - {p};
      blocks := blocks - {p};
    }

    /** A slab serves the request: its list holds a slot or the host gives a slab. */
    ghost predicate Served(size: nat, osChunk: Ptr)
      reads this
      requires |free| == 7
    {
      slabs && size <= 1024 && (osChunk != 0 || |free[ClassFor(size)]| > 0)
    }

    /** The size of the block that a request gets. */
    ghost function Granted(size: nat, osChunk: Ptr): nat
      reads this
      requires |free| == 7
    {
      if Served(size, osChunk) then SlabSize(ClassFor(size)) else size
    }

    /** A zeroed block of at least size bytes, apart from every other; 0 exactly if no
        bytes were asked for or nothing could give any. */
    method Alloc(size: nat, osChunk: Ptr, osBlock: Ptr) returns (p: Ptr)
      requires osChunk == 0 || Unused(chunks, large, osChunk, 65536)
      requires osBlock == 0 || Unused(chunks, large, osBlock, size)
      requires Usable()
      modifies this
      ensures Usable()
      ensures old(Valid()) ==> Valid() && (p == 0 <==> size == 0 || (osBlock == 0 && !old(Served(size, osChunk))))
      ensures old(Valid()) && p != 0 ==> p !in old(blocks)
      ensures forall c :: c in chunks ==> c in old(chunks) || c.base == osChunk
      ensures size == 0 || (p == 0 && !old(Served(size, osChunk))) ==>
        p == 0 && blocks == old(blocks) && memory == old(memory) && large == old(large)
      ensures p != 0 ==> p in blocks && blocks[p] == old(Granted(size, osChunk)) && blocks[p] >= size > 0
      ensures p != 0 ==> blocks == old(blocks)[p := blocks[p]] && memory == old(memory)[p := Zeros(blocks[p])]
      ensures large == if p == 0 || old(Served(size, osChunk)) then old(large) else old(large)[p := size]
      ensures slabs && 0 < size <= 1024 && |old(free[ClassFor(size)])| > 0 ==>
        chunks == old(chunks) && SameButFor(old(free), free, ClassFor(size))
        && old(free[ClassFor(size)]) == free[ClassFor(size)] + [p]
    {
      hide SlabSize, Slot, Inv, Unused, Total, Zeros, ChunksOk;
      if size == 0 { return 0; }
      var k := if slabs then ClassFor(size) else 7;
      if k < 7 {
        var ok := true;
        if |free[k]| == 0 {
          ok := Grow(k, osChunk);
        }
        if ok {
          p := TakeSlot(k);
          return;
        }
      }
      if osBlock == 0 { return 0; }
      AddBlock(osBlock, Zeros(size));
      p := osBlock;
    }

    /** The owner of a block writes a byte of it. */
    method Store(p: Ptr, i: nat, b: Byte)
      requires p in memory && i < |memory[p]|
      requires Valid()
      modifies this`memory
      ensures Valid() && memory == old(memory)[p := Written(old(memory[p]), i, b)]
    {
      hide Inv, Total;
      memory := memory[p := Written(memory[p], i, b)];
    }

    /** Frees a block. A pointer inside a slab is pushed on the slab's list whatever
        it is, so the allocator stays in order exactly if it was outstanding. */
    method Free(p: Ptr) returns (ok: bool)
      requires Usable()
      modifies this
      ensures Usable() && chunks == old(chunks)
      ensures ok <==> old(InChunks(chunks, p)) || p in old(large)
      ensures ok || old(Valid()) ==> blocks == old(blocks) - {p} && memory == old(memory) - {p}
      ensures old(Valid()) ==> (Valid() <==> !old(InChunks(chunks, p)) || p in old(blocks))
      ensures !ok ==> unchanged(this) && (old(Valid()) ==> p !in old(blocks))
      ensures old(Valid()) ==> large == old(large) - {p}
      ensures forall i :: 0 <= i < |chunks| && Holds(chunks[i], p) ==>
                large == old(large) && Pushed(old(free), chunks[i].cls, p, free)
    {
      hide SlabSize, Slot, LargeOk, BlocksOk, ListsOk, Total;
      var found, i := FindChunk(chunks, p);
      if found {
        forall j | 0 <= j < |chunks| && Holds(chunks[j], p) ensures j == i { OneChunk(chunks, p, i, j); }
        if Valid() { HeldIsNotLarge(chunks, large, i, p); }
        FreeSlot(p, i);
        return true;
      }
      if p !in large {
        if Valid() {
          assert p in blocks ==> p in large || InChunks(chunks, p) by {
            if p in blocks { OutstandingIsHeld(chunks, large, blocks, p); }
          }
          assert blocks - {p} == blocks && memory - {p} == memory;
        }
        return false;
      }
      DropBlock(p);
      ok := true;
    }

    method FreeSlot(p: Ptr, i: nat)
      requires i < |chunks| && chunks[i].cls < 7 && |free| == 7 && Holds(chunks[i], p)
      modifies this`free, this`memory, this`blocks, this`totalBytes
      ensures blocks == old(blocks) - {p} && memory == old(memory) - {p}
      ensures Pushed(old(free), chunks[i].cls, p, free)
      ensures old(Valid()) ==> (Valid() <==> p in old(blocks))
    {
      hide SlabSize, Slot, ChunksOk, LargeOk, BlocksOk, ListsOk, Total, Holds, Inv;
      var k := chunks[i].cls;
      ghost var free0 := free;
      free := free[k := free[k] + [p]];
      if Inv(chunks, free0, large, blocks) {
        PushKeepsInvIff(chunks, free0, large, blocks, i, p, free);
        if p in blocks {
          BlockInChunk(chunks, free0, large, blocks, i, p);
          TotalRemove(blocks, p);
        }
      }
      totalBytes := totalBytes - SlabSize(k);
      memory := memory - {p};
      blocks := blocks - {p};
    }

    /** A large block moves with its common prefix. A slab block is not found in the
        table of large blocks: the caller gets a zeroed block and keeps the old one. */
    method Realloc(p: Ptr, size: nat, osChunk: Ptr, osBlock: Ptr) returns (r: Ptr)
      requires osChunk == 0 || Unused(chunks, large, osChunk, 65536)
      requires osBlock == 0 || Unused(chunks, large, osBlock, size)
      requires Valid()
      modifies this
      ensures |old(free)| == 7
      ensures Valid() <==> size > 0 || !old(InChunks(chunks, p)) || p in old(blocks)
      ensures size > 0 && p !in old(large) ==> (r == 0 <==> osBlock == 0 && !old(Served(size, osChunk)))
      ensures size == 0 ==> r == 0 && blocks == old(blocks) - {p} && memory == old(memory) - {p}
      ensures size == 0 ==> large == old(large) - {p}
      ensures size > 0 && p in old(large) ==> (r == 0 <==> osBlock == 0)
      ensures size > 0 && p in old(large) ==> large == if r == 0 then old(large) else (old(large) - {p})[r := size]
      ensures size > 0 && p !in old(large) ==>
        large == if r == 0 || old(Served(size, osChunk)) then old(large) else old(large)[r := size]
      ensures r == 0 && size > 0 ==> blocks == old(blocks) && memory == old(memory)
      ensures r != 0 ==> r !in old(blocks) && r in blocks && blocks[r] >= size > 0
      ensures r != 0 && p in old(large) ==>
        blocks == (old(blocks) - {p})[r := size] && memory == (old(memory) - {p})[r := Resized(old(memory[p]), size)]
      ensures r != 0 && p !in old(large) ==>
        blocks == old(blocks)[r := old(Granted(size, osChunk))] && memory == old(memory)[r := Zeros(blocks[r])]
    {
      hide SlabSize, Slot, Inv, Unused, Total, Zeros, Resized, ChunksOk;
      StillUsable();
      if size == 0 {
        var ok := Free(p);
        return 0;
      }
      if p !in large {
        r := Alloc(size, osChunk, osBlock);
        return;
      }
      if osBlock == 0 { return 0; }
      LargeIsBlock(p);
      var data := Resized(memory[p], size);
      NewIsNew(osBlock, size);
      UnusedShrinks(chunks, large, osBlock, size, p);
      DropBlock(p);
      AddBlock(osBlock, data);
      r := osBlock;
    }

    lemma Keys()
      requires Valid()
      ensures memory.Keys == blocks.Keys && large.Keys <= blocks.Keys && forall p :: p in memory ==>
                |memory[p]| == blocks[p]
    {
      hide ListsOk, LargeOk, ChunksOk, Total;
    }

    lemma StillUsable()
      requires Valid()
      ensures Usable()
    {
    }

    lemma LargeIsBlock(p: Ptr)
      requires p in large && Valid()
      ensures p in blocks && p in memory
    {
    }

    lemma NewIsNew(os: Ptr, n: nat)
      requires n > 0 && Unused(chunks, large, os, n) && Valid()
      ensures os !in blocks
    {
      NotInUse(chunks, large, blocks, os, n);
    }

    /** The promise of realloc, which holds exactly for large blocks: the common prefix
        is kept and the old block is released. */
    method ReallocOutstanding(p: Ptr, size: nat, osChunk: Ptr, osBlock: Ptr) returns (r: Ptr)
      requires osChunk == 0 || Unused(chunks, large, osChunk, 65536)
      requires osBlock == 0 || Unused(chunks, large, osBlock, size)
      requires p in blocks && p in memory && size > 0
      requires Valid()
      modifies this
      ensures |old(free)| == 7 && Valid()
      ensures r != 0 ==> r in memory && (p !in blocks <==> p in old(large))
      ensures r != 0 ==>
        (KeepsPrefix(old(memory[p]), memory[r]) <==>
         p in old(large) || forall i :: 0 <= i < |old(memory[p])| && i < old(Granted(size, osChunk)) ==>
           old(memory[p])[i] == 0)
    {
      hide SlabSize, Slot, Inv, Unused, Total;
      ghost var s := memory[p];
      r := Realloc(p, size, osChunk, osBlock);
      if r != 0 {
        assert r in memory;
        if p in old(large) { assert memory[r] == Resized(s, size); } else { assert memory[r] == Zeros(|memory[r]|); }
      }
    }
  }

  // ----- two runs -----

  lemma ClassOfSlabSize(k: nat)
    requires k < 7
    ensures ClassFor(SlabSize(k)) == k
  {
  }

  /** The second free of any slab block is accepted, and the next two requests of its
      size get one and the same pointer. */
  method DoubleFree(a: Allocator, p: Ptr) returns (again: bool, q: Ptr, r: Ptr)
    requires a.slabs && p in a.blocks && p !in a.large
    requires a.Valid()
    modifies a
    ensures again && q == p && r == p
  {
    hide SlabSize, Slot, Inv, Total, ChunksOk;
    var size := |a.memory[p]|;
    ghost var i := ChunkOf(a.chunks, a.free, a.large, a.blocks, p);
    ghost var k, chunks := a.chunks[i].cls, a.chunks;
    ClassOfSlabSize(k);
    a.StillUsable();
    ghost var f := a.free;
    var once := a.Free(p);
    assert Pushed(f, k, p, a.free);
    ghost var f' := a.free;
    again := a.Free(p);
    assert Pushed(f', k, p, a.free);
    assert 0 < size <= 1024 && ClassFor(size) == k;
    q := a.Alloc(size, 0, 0);
    SameHead(f'[k], p, a.free[k], q);
    r := a.Alloc(size, 0, 0);
    SameHead(f[k], p, a.free[k], r);
  }

  lemma SameHead(s: seq<Ptr>, p: Ptr, t: seq<Ptr>, q: Ptr)
    requires s + [p] == t + [q]
    ensures s == t && p == q
  {
    assert (s + [p])[|s|] == p && (t + [q])[|t|] == q;
    assert s == (s + [p])[..|s|] && t == (t + [q])[..|t|];
  }

  lemma ChunkOf(chunks: seq<Chunk>, free: seq<seq<Ptr>>, large: map<Ptr, nat>, blocks: map<Ptr, nat>, p: Ptr)
    returns (i: nat)
    requires p in blocks && p !in large
    requires Inv(chunks, free, large, blocks)
    ensures i < |chunks| && Holds(chunks[i], p) && chunks[i].cls < 7 && blocks[p] == SlabSize(chunks[i].cls)
  {
    hide SlabSize, Multiple, ListsOk;
    OutstandingIsHeld(chunks, large, blocks, p);
    i :| 0 <= i < |chunks| && Holds(chunks[i], p);
    BlockInChunk(chunks, free, large, blocks, i, p);
  }

  /** A byte other than 0, stored in a slab block, is not in the block that realloc
      returns; the old block keeps it and stays outstanding. */
  method ByteLostByRealloc(os: Ptr, os': Ptr, n: nat, i: nat, b: Byte, m: nat) returns (kept: seq<Byte>, got: seq<Byte>)
    requires os != 0 && os' != 0 && Apart(os', 65536, os, 65536)
    requires i < n <= 1024 && i < m <= 1024 && b != 0
    ensures |kept| >= n && kept[i] == b
    ensures |got| >= m && got[i] == 0
  {
    hide SlabSize, Slot, Inv, Total, ChunksOk;
    var a := new Allocator(true);
    a.StillUsable();
    var p := a.Alloc(n, os, 0);
    a.Store(p, i, b);
    var r := a.Realloc(p, m, os', 0);
    kept, got := a.memory[p], a.memory[r];
  }

  /** From an empty allocator: alloc, free, free, alloc, alloc. */
  method DoubleFreeRun(os: Ptr, n: nat) returns (first: Ptr, second: Ptr)
    requires os != 0 && 0 < n <= 1024
    ensures first == second != 0
  {
    hide SlabSize, Slot, Inv, Total, ChunksOk;
    var a := new Allocator(true);
    a.StillUsable();
    var p := a.Alloc(n, os, 0);
    var again: bool;
    again, first, second := DoubleFree(a, p);
  }
}
