/**
 The non-moving old generation: blocks whose used prefix is tiled by slots,
 segregated free lists of dead slots, allocation, and the sweep that rebuilds
 the lists.  A header is the pair of size and colour stored at a slot's start;
 the intrusive links of the free lists are modelled as sequences, head first.
 */
module OldGen {
  import opened HeapTypes

  const SMALL_CLASS_COUNT: nat := 16
  const CLASS_SIZES: seq<nat> :=
    [16, 24, 32, 48, 64, 96, 128, 192, 256, 384, 512, 768, 1024, 1536, 2048, 4096]
  const MIN_BLOCK: nat := 65536
  /** The size behind a header is stored in 32 bits. */
  const SIZE_LIMIT: nat := 0x1_0000_0000

  datatype Color = White | Grey | Black | Dead

  datatype Header = Header(size: nat, color: Color)

  datatype Block = Block(ptr: Ptr, size: nat, bump: nat)

  datatype LargeFree = LargeFree(ptr: Ptr, total: nat)

  function RoundUp8(n: nat): (r: nat)
    ensures r % 8 == 0 && n <= r < n + 8
  {
    (n + 7) / 8 * 8
  }

  /** The slot size that the collector computes from a header. */
  function Total(h: Header): nat {
    RoundUp8(HEADER + h.size)
  }

  /** Header plus payload; for old slots the payload includes the padding. */
  function Span(h: Header): nat {
    HEADER + h.size
  }

  lemma TotalIsSpan(h: Header)
    requires LegalTotal(Span(h))
    ensures Total(h) == Span(h)
  {
  }

  /** The first size class that holds total bytes; SMALL_CLASS_COUNT if none. */
  function ClassCeil(total: nat): (c: nat)
    ensures c <= SMALL_CLASS_COUNT
    ensures c < SMALL_CLASS_COUNT ==> CLASS_SIZES[c] >= total
    ensures forall j :: 0 <= j < c ==> CLASS_SIZES[j] < total
  {
    ClassFrom(total, 0)
  }

  function ClassFrom(total: nat, i: nat): (c: nat)
    requires i <= SMALL_CLASS_COUNT
    ensures i <= c <= SMALL_CLASS_COUNT
    ensures c < SMALL_CLASS_COUNT ==> CLASS_SIZES[c] >= total
    ensures forall j :: i <= j < c ==> CLASS_SIZES[j] < total
    decreases SMALL_CLASS_COUNT - i
  {
    if i == SMALL_CLASS_COUNT then i
    else if CLASS_SIZES[i] >= total then i
    else ClassFrom(total, i + 1)
  }

  lemma ClassCount()
    ensures |CLASS_SIZES| == SMALL_CLASS_COUNT
  {
  }

  lemma ClassSizesIncrease()
    ensures forall i, j :: 0 <= i < j < SMALL_CLASS_COUNT ==> CLASS_SIZES[i] < CLASS_SIZES[j]
    ensures forall i :: 0 <= i < SMALL_CLASS_COUNT ==> CLASS_SIZES[i] % 8 == 0 && 16 <= CLASS_SIZES[i] <= 4096
  {
  }

  lemma ClassCeilExact(c: nat)
    requires c < SMALL_CLASS_COUNT
    ensures ClassCeil(CLASS_SIZES[c]) == c
  {
    ClassSizesIncrease();
  }

  lemma LaterClassFits(total: nat, k: nat)
    requires ClassCeil(total) <= k < SMALL_CLASS_COUNT
    ensures CLASS_SIZES[k] >= total
  {
    hide ClassCeil, CLASS_SIZES;
    ClassSizesIncrease();
    assert ClassCeil(total) < k || ClassCeil(total) == k;
  }

  /** Slots are sized so that a dead slot fits its class exactly, or is large. */
  predicate FitsClass(t: nat) {
    && t % 8 == 0 && 16 <= t
    && (ClassCeil(t) < SMALL_CLASS_COUNT ==> CLASS_SIZES[ClassCeil(t)] == t)
  }

  lemma FitsBounds(t: nat)
    requires FitsClass(t)
    ensures t >= 16
  {
  }

  /** The total of a new slot for a request. */
  function SlotTotal(total: nat): (t: nat)
    requires total % 8 == 0 && total > 0
    ensures t >= total && FitsClass(t)
    ensures t == total || t <= CLASS_SIZES[SMALL_CLASS_COUNT - 1]
    ensures ClassCeil(total) < SMALL_CLASS_COUNT ==> t <= CLASS_SIZES[SMALL_CLASS_COUNT - 1]
  {
    var cls := ClassCeil(total);
    ClassSizesIncrease();
    if cls < SMALL_CLASS_COUNT then
      ClassCeilExact(cls);
      CLASS_SIZES[cls]
    else RoundUp8(total)
  }

  /** It is the smallest that holds the request and can be filed again. */
  lemma SmallestSlot(total: nat, u: nat)
    requires total % 8 == 0 && 0 < total <= u && FitsClass(u)
    ensures SlotTotal(total) <= u
  {
    hide CLASS_SIZES;
    ClassCount();
    ClassSizesIncrease();
    var c, d := ClassCeil(total), ClassCeil(u);
    if c < SMALL_CLASS_COUNT && d < SMALL_CLASS_COUNT {
      assert c <= d;
      assert c < d || c == d;
    }
    if c < SMALL_CLASS_COUNT && d == SMALL_CLASS_COUNT { assert CLASS_SIZES[c] < u; }
  }

  /** The total of a slot whose header holds its size. */
  predicate LegalTotal(t: nat) {
    FitsClass(t) && t - HEADER < SIZE_LIMIT
  }

  // ----- the invariants -----

  type Headers = map<Ptr, Header>

  ghost predicate BlocksOk(bs: seq<Block>) {
    && (forall i :: 0 <= i < |bs| ==> bs[i].ptr > 0 && bs[i].bump <= bs[i].size)
    && (forall i, j :: 0 <= i < j < |bs| ==>
          bs[i].ptr + bs[i].size <= bs[j].ptr || bs[j].ptr + bs[j].size <= bs[i].ptr)
  }

  predicate InUse(b: Block, p: Ptr) {
    b.ptr <= p < b.ptr + b.bump
  }

  ghost predicate InSomeBlock(bs: seq<Block>, p: Ptr) {
    exists i :: 0 <= i < |bs| && InUse(bs[i], p)
  }

  ghost predicate SlotsOk(hs: Headers) {
    && (forall p :: p in hs ==> LegalTotal(Span(hs[p])))
    && (forall p, q :: p in hs && q in hs && p < q ==> p + Span(hs[p]) <= q)
  }

  function Next(hs: Headers, p: Ptr): Ptr {
    if p in hs then p + Span(hs[p]) else p
  }

  /** Walking from slot to slot covers the used prefix of b exactly. */
  ghost predicate Tiled(b: Block, hs: Headers) {
    && (b.bump > 0 ==> b.ptr in hs)
    && (forall p {:trigger Next(hs, p)} :: p in hs && InUse(b, p) ==>
          && Next(hs, p) <= b.ptr + b.bump
          && (Next(hs, p) < b.ptr + b.bump ==> Next(hs, p) in hs))
  }

  ghost predicate TilesOk(bs: seq<Block>, hs: Headers) {
    && BlocksOk(bs)
    && SlotsOk(hs)
    && AllTiled(bs, hs)
    && Covered(bs, hs)
  }

  ghost predicate AllTiled(bs: seq<Block>, hs: Headers) {
    forall i :: 0 <= i < |bs| ==> Tiled(bs[i], hs)
  }

  ghost predicate Covered(bs: seq<Block>, hs: Headers) {
    forall p :: p in hs ==> InSomeBlock(bs, p)
  }

  predicate IsDead(hs: Headers, p: Ptr) {
    p in hs && hs[p].color == Dead
  }

  predicate Listed(small: seq<seq<Ptr>>, large: seq<LargeFree>, p: Ptr, total: nat)
    requires |small| == SMALL_CLASS_COUNT
  {
    if ClassCeil(total) < SMALL_CLASS_COUNT then p in small[ClassCeil(total)]
    else LargeFree(p, total) in large
  }

  /** The lists hold, once each, exactly the dead slots among those in scope. */
  ghost predicate FreeExact(hs: Headers, small: seq<seq<Ptr>>, large: seq<LargeFree>, scope: set<Ptr>) {
    && |small| == SMALL_CLASS_COUNT
    && (forall c, i :: 0 <= c < SMALL_CLASS_COUNT && 0 <= i < |small[c]| ==>
          small[c][i] in scope && IsDead(hs, small[c][i]) && Span(hs[small[c][i]]) == CLASS_SIZES[c])
    && (forall c, i, j :: 0 <= c < SMALL_CLASS_COUNT && 0 <= i < j < |small[c]| ==> small[c][i] != small[c][j])
    && (forall i :: 0 <= i < |large| ==>
          large[i].ptr in scope && IsDead(hs, large[i].ptr) && Span(hs[large[i].ptr]) == large[i].total
          && ClassCeil(large[i].total) == SMALL_CLASS_COUNT)
    && (forall i, j :: 0 <= i < j < |large| ==> large[i].ptr != large[j].ptr)
    && (forall p :: p in scope && IsDead(hs, p) ==> Listed(small, large, p, Span(hs[p])))
  }

  /** Bytes held by slots that are not dead. */
  ghost function LiveBytes(hs: Headers): nat
    decreases |hs|
  {
    if hs == map[] then 0
    else
      var p :| p in hs;
      DropSize(hs, p);
      Weight(hs[p]) + LiveBytes(hs - {p})
  }

  function Weight(h: Header): nat {
    if h.color == Dead then 0 else Span(h)
  }

  lemma DropSize(hs: Headers, p: Ptr)
    requires p in hs
    ensures |hs - {p}| == |hs| - 1
  {
    assert (hs - {p}).Keys == hs.Keys - {p};
    assert |hs.Keys| == |hs| && |(hs - {p}).Keys| == |hs - {p}|;
  }

  lemma {:induction false} LiveBytesDrop(hs: Headers, p: Ptr)
    requires p in hs
    ensures LiveBytes(hs) == Weight(hs[p]) + LiveBytes(hs - {p})
    decreases |hs|
  {
    var q :| q in hs && LiveBytes(hs) == Weight(hs[q]) + LiveBytes(hs - {q});
    if p != q {
      DropSize(hs, q);
      DropSize(hs, p);
      LiveBytesDrop(hs - {q}, p);
      LiveBytesDrop(hs - {p}, q);
      assert hs - {q} - {p} == hs - {p} - {q};
    }
  }

  lemma LiveBytesPut(hs: Headers, p: Ptr, h: Header)
    ensures LiveBytes(hs[p := h]) == Weight(h) + LiveBytes(hs) - (if p in hs then Weight(hs[p]) else 0)
  {
    LiveBytesDrop(hs[p := h], p);
    assert hs[p := h] - {p} == hs - {p};
    if p in hs {
      LiveBytesDrop(hs, p);
    } else {
      assert hs - {p} == hs;
    }
  }

  ghost predicate Ok(bs: seq<Block>, hs: Headers, small: seq<seq<Ptr>>, large: seq<LargeFree>, used: nat) {
    && TilesOk(bs, hs)
    && |small| == SMALL_CLASS_COUNT
    && FreeExact(hs, small, large, hs.Keys)
    && used == LiveBytes(hs)
  }

  /** Two distinct slots never overlap. */
  lemma SlotsDisjoint(bs: seq<Block>, hs: Headers, p: Ptr, q: Ptr)
    requires TilesOk(bs, hs) && p in hs && q in hs && p != q
    ensures p + Span(hs[p]) <= q || q + Span(hs[q]) <= p
  {
    assert p < q || q < p;
  }

  // ----- recolouring -----

  ghost predicate SameSizes(hs: Headers, hs': Headers) {
    hs'.Keys == hs.Keys && forall p :: p in hs ==> hs'[p].size == hs[p].size
  }

  lemma RecolourTiled(b: Block, hs: Headers, hs': Headers)
    requires Tiled(b, hs) && SameSizes(hs, hs')
    ensures Tiled(b, hs')
  {
    assert forall p :: Next(hs', p) == Next(hs, p);
  }

  lemma RecolourSlots(hs: Headers, hs': Headers)
    requires SlotsOk(hs) && SameSizes(hs, hs')
    ensures SlotsOk(hs')
  {
    forall p, q | p in hs' && q in hs' && p < q ensures p + Span(hs'[p]) <= q {
      assert p in hs && q in hs;
    }
  }

  /** Changing colours only leaves the tiling alone. */
  lemma RecolourTiles(bs: seq<Block>, hs: Headers, hs': Headers)
    requires TilesOk(bs, hs) && SameSizes(hs, hs')
    ensures TilesOk(bs, hs')
  {
    RecolourSlots(hs, hs');
    forall i | 0 <= i < |bs| ensures Tiled(bs[i], hs') {
      RecolourTiled(bs[i], hs, hs');
    }
  }

  // ----- taking a slot from a free list -----

  lemma PopSmallExact(hs: Headers, small: seq<seq<Ptr>>, large: seq<LargeFree>, c: nat, h: Header)
    requires FreeExact(hs, small, large, hs.Keys) && c < SMALL_CLASS_COUNT && |small[c]| > 0
    requires h.color != Dead
    ensures var hs' := hs[small[c][0] := h];
            FreeExact(hs', small[c := small[c][1..]], large, hs'.Keys)
  {
    hide ClassCeil;
    var p := small[c][0];
    var small' := small[c := small[c][1..]];
    var hs' := hs[p := h];
    ClassCeilExact(c);
    forall d, i | 0 <= d < SMALL_CLASS_COUNT && 0 <= i < |small'[d]|
      ensures small'[d][i] in hs'.Keys && IsDead(hs', small'[d][i]) && Span(hs'[small'[d][i]]) == CLASS_SIZES[d]
    {
      ClassSizesIncrease();
      if d == c {
        assert small'[d][i] == small[c][i + 1];
        assert small[c][0] != small[c][i + 1];
      } else {
        assert small'[d][i] == small[d][i];
        assert CLASS_SIZES[d] != CLASS_SIZES[c] by { assert d < c || c < d; }
      }
    }
    forall i | 0 <= i < |large| ensures large[i].ptr != p {}
    forall q | q in hs'.Keys && IsDead(hs', q) ensures Listed(small', large, q, Span(hs'[q])) {
      assert q != p && Listed(small, large, q, Span(hs[q]));
      if ClassCeil(Span(hs[q])) == c {
        var i :| 0 <= i < |small[c]| && small[c][i] == q;
        assert small'[c][i - 1] == q;
      }
    }
  }

  ghost predicate DistinctPtrs(large: seq<LargeFree>) {
    forall i, j :: 0 <= i < j < |large| ==> large[i].ptr != large[j].ptr
  }

  /** Overwriting entry k with the last one and popping removes exactly entry k. */
  lemma SwapPop(large: seq<LargeFree>, k: nat)
    requires k < |large| && DistinctPtrs(large)
    ensures var rest := large[k := large[|large| - 1]][..|large| - 1];
            && DistinctPtrs(rest)
            && (forall x :: x in rest <==> x in large && x.ptr != large[k].ptr)
  {
    var last := |large| - 1;
    var rest := large[k := large[last]][..last];
    assert forall i :: 0 <= i < |rest| ==> rest[i] == large[if i == k then last else i];
    forall x | x in large && x.ptr != large[k].ptr ensures x in rest {
      var i :| 0 <= i < |large| && large[i] == x;
      assert rest[if i == last then k else i] == x;
    }
  }

  lemma TakeLargeExact(hs: Headers, small: seq<seq<Ptr>>, large: seq<LargeFree>, k: nat, h: Header)
    requires FreeExact(hs, small, large, hs.Keys) && k < |large|
    requires h.color != Dead
    ensures var hs' := hs[large[k].ptr := h];
            FreeExact(hs', small, large[k := large[|large| - 1]][..|large| - 1], hs'.Keys)
  {
    hide ClassCeil;
    var p := large[k].ptr;
    var rest := large[k := large[|large| - 1]][..|large| - 1];
    var hs' := hs[p := h];
    SwapPop(large, k);
    forall i | 0 <= i < |rest| ensures rest[i].ptr != p && rest[i] in large {
      assert rest[i] in rest;
    }
    forall d, i | 0 <= d < SMALL_CLASS_COUNT && 0 <= i < |small[d]| ensures small[d][i] != p {
      ClassCeilExact(d);
    }
    forall q | q in hs'.Keys && IsDead(hs', q) ensures Listed(small, rest, q, Span(hs'[q])) {
      assert q != p && Listed(small, large, q, Span(hs[q]));
    }
  }

  // ----- carving a slot at the bump pointer -----

  lemma SlotOutsideFree(bs: seq<Block>, hs: Headers, k: nat, total: nat, q: Ptr)
    requires TilesOk(bs, hs) && k < |bs| && bs[k].bump + total <= bs[k].size && q in hs && total > 0
    ensures q + Span(hs[q]) <= bs[k].ptr + bs[k].bump || bs[k].ptr + bs[k].bump + total <= q
  {
    assert InSomeBlock(bs, q);
    var j :| 0 <= j < |bs| && InUse(bs[j], q);
    assert Tiled(bs[j], hs);
    assert Next(hs, q) <= bs[j].ptr + bs[j].bump;
    assert j < k || j == k || k < j;
  }

  lemma BumpApart(bs: seq<Block>, hs: Headers, k: nat, total: nat)
    requires TilesOk(bs, hs) && k < |bs| && FitsClass(total) && bs[k].bump + total <= bs[k].size
    ensures bs[k].ptr + bs[k].bump !in hs && ApartFromLive(hs, bs[k].ptr + bs[k].bump, total)
  {
    hide TilesOk;
    forall q | q in hs ensures q + Span(hs[q]) <= bs[k].ptr + bs[k].bump || bs[k].ptr + bs[k].bump + total <= q {
      SlotOutsideFree(bs, hs, k, total, q);
    }
  }

  lemma BumpTiled(b: Block, hs: Headers, raw: Ptr, h: Header, b': Block)
    requires Tiled(b, hs) && raw !in hs
    requires b' == b || (raw == b.ptr + b.bump && b' == b.(bump := b.bump + Span(h)))
    requires b' == b ==> !InUse(b, raw)
    requires b' != b ==> forall q :: q in hs && InUse(b', q) ==> InUse(b, q)
    ensures Tiled(b', hs[raw := h])
  {
    var hs' := hs[raw := h];
    forall p | p in hs' && InUse(b', p)
      ensures Next(hs', p) <= b'.ptr + b'.bump && (Next(hs', p) < b'.ptr + b'.bump ==> Next(hs', p) in hs')
    {
      if p != raw { assert Next(hs', p) == Next(hs, p); }
    }
  }

  lemma BumpTiles(bs: seq<Block>, hs: Headers, k: nat, h: Header)
    requires TilesOk(bs, hs) && k < |bs| && LegalTotal(Span(h)) && bs[k].bump + Span(h) <= bs[k].size
    ensures bs[k].ptr + bs[k].bump !in hs
    ensures TilesOk(bs[k := bs[k].(bump := bs[k].bump + Span(h))], hs[bs[k].ptr + bs[k].bump := h])
  {
    hide Covered, AllTiled, SlotsOk, LegalTotal;
    var raw := bs[k].ptr + bs[k].bump;
    forall q | q in hs ensures q + Span(hs[q]) <= raw || raw + Span(h) <= q {
      SlotOutsideFree(bs, hs, k, Span(h), q);
    }
    BumpSlots(hs, raw, h);
    BumpCovered(bs, hs, k, raw, h);
    BumpAllTiled(bs, hs, k, raw, h);
  }

  lemma BumpAllTiled(bs: seq<Block>, hs: Headers, k: nat, raw: Ptr, h: Header)
    requires BlocksOk(bs) && AllTiled(bs, hs) && k < |bs| && raw == bs[k].ptr + bs[k].bump
    requires Span(h) > 0 && bs[k].bump + Span(h) <= bs[k].size
    requires forall q :: q in hs ==> q + Span(hs[q]) <= raw || raw + Span(h) <= q
    ensures AllTiled(bs[k := bs[k].(bump := bs[k].bump + Span(h))], hs[raw := h])
  {
    var bs' := bs[k := bs[k].(bump := bs[k].bump + Span(h))];
    forall i | 0 <= i < |bs'| ensures Tiled(bs'[i], hs[raw := h]) {
      assert Tiled(bs[i], hs);
      if i != k { assert i < k || k < i; }
      BumpTiled(bs[i], hs, raw, h, bs'[i]);
    }
  }

  lemma BumpSlots(hs: Headers, raw: Ptr, h: Header)
    requires SlotsOk(hs) && LegalTotal(Span(h))
    requires forall q :: q in hs ==> q + Span(hs[q]) <= raw || raw + Span(h) <= q
    ensures SlotsOk(hs[raw := h])
  {
    var hs' := hs[raw := h];
    forall p, q | p in hs' && q in hs' && p < q ensures p + Span(hs'[p]) <= q {
      assert p == raw || p in hs;
      assert q == raw || q in hs;
    }
  }

  lemma BumpCovered(bs: seq<Block>, hs: Headers, k: nat, raw: Ptr, h: Header)
    requires k < |bs| && raw == bs[k].ptr + bs[k].bump
    requires Covered(bs, hs)
    ensures Covered(bs[k := bs[k].(bump := bs[k].bump + Span(h))], hs[raw := h])
  {
    var bs' := bs[k := bs[k].(bump := bs[k].bump + Span(h))];
    forall p | p in hs[raw := h] ensures InSomeBlock(bs', p) {
      if p == raw {
        assert InUse(bs'[k], p);
      } else {
        assert InSomeBlock(bs, p);
        var j :| 0 <= j < |bs| && InUse(bs[j], p);
        assert InUse(bs'[j], p);
      }
    }
  }

  lemma NewLiveExact(hs: Headers, small: seq<seq<Ptr>>, large: seq<LargeFree>, raw: Ptr, h: Header)
    requires FreeExact(hs, small, large, hs.Keys) && raw !in hs && h.color != Dead
    ensures FreeExact(hs[raw := h], small, large, hs[raw := h].Keys)
  {
    var hs' := hs[raw := h];
    forall c, i | 0 <= c < SMALL_CLASS_COUNT && 0 <= i < |small[c]| ensures small[c][i] != raw {}
    forall i | 0 <= i < |large| ensures large[i].ptr != raw {}
    forall q | q in hs'.Keys && IsDead(hs', q) ensures Listed(small, large, q, Span(hs'[q])) {
      assert q in hs.Keys;
    }
  }

  /** The region [p, p + size) meets no block. */
  predicate FreshRegion(bs: seq<Block>, p: Ptr, size: nat) {
    p > 0 && forall i :: 0 <= i < |bs| ==> p + size <= bs[i].ptr || bs[i].ptr + bs[i].size <= p
  }

  lemma AddBlockTiles(bs: seq<Block>, hs: Headers, p: Ptr, size: nat)
    requires TilesOk(bs, hs) && FreshRegion(bs, p, size)
    ensures TilesOk(bs + [Block(p, size, 0)], hs)
  {
    var bs' := bs + [Block(p, size, 0)];
    assert forall i :: 0 <= i < |bs| ==> bs'[i] == bs[i];
    forall i | 0 <= i < |bs'| ensures Tiled(bs'[i], hs) {
      if i < |bs| { assert Tiled(bs[i], hs); }
    }
    forall q | q in hs ensures InSomeBlock(bs', q) {
      assert InSomeBlock(bs, q);
      var j :| 0 <= j < |bs| && InUse(bs[j], q);
      assert InUse(bs'[j], q);
    }
  }

  // ----- colouring one slot that stays live -----

  lemma ColourLive(bs: seq<Block>, hs: Headers, small: seq<seq<Ptr>>, large: seq<LargeFree>, used: nat,
                   p: Ptr, c: Color)
    requires Ok(bs, hs, small, large, used) && p in hs && hs[p].color != Dead && c != Dead
    ensures Ok(bs, hs[p := hs[p].(color := c)], small, large, used)
  {
    hide TilesOk, FreeExact;
    var hs' := hs[p := hs[p].(color := c)];
    RecolourTiles(bs, hs, hs');
    LiveBytesPut(hs, p, hs[p].(color := c));
    ColourExact(hs, hs', small, large);
  }

  /** Colours may change as long as the dead slots are the same. */
  lemma ColourExact(hs: Headers, hs': Headers, small: seq<seq<Ptr>>, large: seq<LargeFree>)
    requires FreeExact(hs, small, large, hs.Keys) && SameSizes(hs, hs')
    requires forall p :: p in hs ==> (hs'[p].color == Dead <==> hs[p].color == Dead)
    ensures FreeExact(hs', small, large, hs'.Keys)
  {
    forall p | p in hs'.Keys && IsDead(hs', p) ensures Listed(small, large, p, Span(hs'[p])) {
      assert p in hs && IsDead(hs, p);
    }
  }

  // ----- the sweep -----

  function PushSmall(small: seq<seq<Ptr>>, large: seq<LargeFree>, p: Ptr, total: nat): seq<seq<Ptr>>
    requires |small| == SMALL_CLASS_COUNT
  {
    var c := ClassCeil(total);
    if c < SMALL_CLASS_COUNT && total >= CLASS_SIZES[c] then small[c := [p] + small[c]] else small
  }

  function PushLarge(large: seq<LargeFree>, p: Ptr, total: nat): seq<LargeFree> {
    var c := ClassCeil(total);
    if c < SMALL_CLASS_COUNT && total >= CLASS_SIZES[c] then large else large + [LargeFree(p, total)]
  }

  /** Pushing a dead slot that was out of scope brings it into scope. */
  lemma PushExact(hs: Headers, small: seq<seq<Ptr>>, large: seq<LargeFree>, scope: set<Ptr>, p: Ptr)
    requires FreeExact(hs, small, large, scope) && p !in scope && IsDead(hs, p) && LegalTotal(Span(hs[p]))
    ensures FreeExact(hs, PushSmall(small, large, p, Span(hs[p])), PushLarge(large, p, Span(hs[p])), scope + {p})
  {
    var total := Span(hs[p]);
    var c := ClassCeil(total);
    var small', large' := PushSmall(small, large, p, total), PushLarge(large, p, total);
    if c < SMALL_CLASS_COUNT {
      assert small' == small[c := [p] + small[c]] && large' == large;
      PushSmallExact(hs, small, large, scope, p, c);
    } else {
      assert small' == small && large' == large + [LargeFree(p, total)];
      PushLargeExact(hs, small, large, scope, p);
    }
  }

  lemma PushSmallExact(hs: Headers, small: seq<seq<Ptr>>, large: seq<LargeFree>, scope: set<Ptr>, p: Ptr, c: nat)
    requires FreeExact(hs, small, large, scope) && p !in scope && IsDead(hs, p)
    requires c == ClassCeil(Span(hs[p])) < SMALL_CLASS_COUNT && CLASS_SIZES[c] == Span(hs[p])
    ensures FreeExact(hs, small[c := [p] + small[c]], large, scope + {p})
  {
    hide ClassCeil;
    var small' := small[c := [p] + small[c]];
    assert small'[c][0] == p;
    assert forall i :: 1 <= i < |small'[c]| ==> small'[c][i] == small[c][i - 1];
    forall q | q in scope + {p} && IsDead(hs, q) ensures Listed(small', large, q, Span(hs[q])) {
      if q != p {
        assert Listed(small, large, q, Span(hs[q]));
        if ClassCeil(Span(hs[q])) == c {
          var i :| 0 <= i < |small[c]| && small[c][i] == q;
          assert small'[c][i + 1] == q;
        }
      }
    }
  }

  lemma PushLargeExact(hs: Headers, small: seq<seq<Ptr>>, large: seq<LargeFree>, scope: set<Ptr>, p: Ptr)
    requires FreeExact(hs, small, large, scope) && p !in scope && IsDead(hs, p)
    requires ClassCeil(Span(hs[p])) == SMALL_CLASS_COUNT
    ensures FreeExact(hs, small, large + [LargeFree(p, Span(hs[p]))], scope + {p})
  {
    hide ClassCeil;
    var large' := large + [LargeFree(p, Span(hs[p]))];
    assert large'[|large|] == LargeFree(p, Span(hs[p]));
    forall q | q in scope + {p} && IsDead(hs, q) ensures Listed(small, large', q, Span(hs[q])) {
      if q != p { assert Listed(small, large, q, Span(hs[q])); }
    }
  }

  /** A slot that is not dead enters the scope without a push, and a slot out of
      scope may change colour. */
  lemma SkipExact(hs: Headers, small: seq<seq<Ptr>>, large: seq<LargeFree>, scope: set<Ptr>, p: Ptr)
    requires FreeExact(hs, small, large, scope) && !IsDead(hs, p)
    ensures FreeExact(hs, small, large, scope + {p})
  {
    hide ClassCeil;
  }

  lemma KillExact(hs: Headers, small: seq<seq<Ptr>>, large: seq<LargeFree>, scope: set<Ptr>, p: Ptr, h: Header)
    requires FreeExact(hs, small, large, scope) && p !in scope
    ensures FreeExact(hs[p := h], small, large, scope)
  {
    hide ClassCeil;
    forall c, i | 0 <= c < SMALL_CLASS_COUNT && 0 <= i < |small[c]| ensures small[c][i] != p {}
    forall i | 0 <= i < |large| ensures large[i].ptr != p {}
    forall q | q in scope && IsDead(hs[p := h], q) ensures Listed(small, large, q, Span(hs[p := h][q])) {
      assert q != p && IsDead(hs, q);
    }
  }

  lemma EmptyExact(hs: Headers)
    ensures FreeExact(hs, seq(SMALL_CLASS_COUNT, _ => []), [], {})
  {
  }

  function SweptHeader(h: Header): Header {
    if h.color == White then h.(color := Dead) else h
  }

  /** The result of a sweep: every white slot has died. */
  function Swept(hs: Headers): Headers {
    map p | p in hs :: SweptHeader(hs[p])
  }

  /** The slots of scope have been swept and listed, the others not yet. */
  ghost predicate Sweeping(hs0: Headers, hs: Headers, small: seq<seq<Ptr>>, large: seq<LargeFree>, used: nat,
                           scope: set<Ptr>)
  {
    && hs.Keys == hs0.Keys && scope <= hs0.Keys
    && (forall p :: p in hs0 ==> hs[p] == if p in scope then SweptHeader(hs0[p]) else hs0[p])
    && |small| == SMALL_CLASS_COUNT
    && FreeExact(hs, small, large, scope)
    && used == LiveBytes(hs)
  }

  /** What one turn of the sweep loop does to a slot. */
  lemma SweepStep(hs0: Headers, hs: Headers, small: seq<seq<Ptr>>, large: seq<LargeFree>, used: nat,
                  scope: set<Ptr>, p: Ptr)
    requires Sweeping(hs0, hs, small, large, used, scope) && p in hs0 && p !in scope && LegalTotal(Span(hs0[p]))
    ensures p in hs && hs[p] == hs0[p] && |small| == SMALL_CLASS_COUNT
    ensures hs[p].color == White ==> used >= Span(hs[p])
    ensures var h := SweptHeader(hs[p]);
            var dies := if hs[p].color == White then Span(h) else 0;
            Sweeping(hs0, hs[p := h],
                     if h.color == Dead then PushSmall(small, large, p, Span(h)) else small,
                     if h.color == Dead then PushLarge(large, p, Span(h)) else large,
                     used - dies, scope + {p})
  {
    hide FreeExact, LegalTotal, ClassCeil;
    var h := SweptHeader(hs[p]);
    LiveBytesPut(hs, p, h);
    KillExact(hs, small, large, scope, p, h);
    if h.color == Dead {
      PushExact(hs[p := h], small, large, scope, p);
    } else {
      SkipExact(hs[p := h], small, large, scope, p);
    }
  }

  lemma SweptAll(hs0: Headers, hs: Headers, small: seq<seq<Ptr>>, large: seq<LargeFree>, used: nat, bs: seq<Block>)
    requires TilesOk(bs, hs0) && Sweeping(hs0, hs, small, large, used, hs0.Keys)
    ensures hs == Swept(hs0) && Ok(bs, hs, small, large, used)
  {
    hide TilesOk, FreeExact;
    assert SameSizes(hs0, hs);
    RecolourTiles(bs, hs0, hs);
  }

  /** The slots of block b that start before limit. */
  ghost function SlotsIn(hs: Headers, b: Block): set<Ptr> {
    set p | p in hs && InUse(b, p)
  }

  ghost function Before(hs: Headers, b: Block, limit: Ptr): set<Ptr> {
    set p | p in hs && InUse(b, p) && p < limit
  }

  lemma LegalBounds(h: Header)
    requires LegalTotal(Span(h))
    ensures Total(h) == Span(h) >= 16
  {
    TotalIsSpan(h);
  }

  /** Stepping over one slot adds just that slot, and stays on slot starts. */
  lemma WalkStep(bs: seq<Block>, hs: Headers, k: nat, cursor: Ptr)
    requires TilesOk(bs, hs) && k < |bs| && cursor in hs && InUse(bs[k], cursor)
    ensures LegalTotal(Span(hs[cursor])) && Total(hs[cursor]) == Span(hs[cursor])
    ensures Before(hs, bs[k], Next(hs, cursor)) == Before(hs, bs[k], cursor) + {cursor}
    ensures cursor < Next(hs, cursor) <= bs[k].ptr + bs[k].bump
    ensures Next(hs, cursor) < bs[k].ptr + bs[k].bump ==> Next(hs, cursor) in hs && InUse(bs[k], Next(hs, cursor))
    ensures cursor + HEADER <= bs[k].ptr + bs[k].bump && hs[cursor].size > 0
  {
    hide SlotsOk, Covered, BlocksOk, Tiled, LegalTotal, Total;
    WalkStepIn(bs[k], hs, cursor);
  }

  lemma WalkStepIn(b: Block, hs: Headers, cursor: Ptr)
    requires SlotsOk(hs) && Tiled(b, hs) && cursor in hs && InUse(b, cursor)
    ensures LegalTotal(Span(hs[cursor])) && Total(hs[cursor]) == Span(hs[cursor])
    ensures Before(hs, b, Next(hs, cursor)) == Before(hs, b, cursor) + {cursor}
    ensures cursor < Next(hs, cursor) <= b.ptr + b.bump
    ensures Next(hs, cursor) < b.ptr + b.bump ==> Next(hs, cursor) in hs && InUse(b, Next(hs, cursor))
    ensures cursor + HEADER <= b.ptr + b.bump && hs[cursor].size > 0
  {
    hide LegalTotal, Total;
    assert LegalTotal(Span(hs[cursor]));
    LegalBounds(hs[cursor]);
    forall p | p in hs && InUse(b, p) && p < Next(hs, cursor) ensures p <= cursor {
    }
  }

  lemma WalkStart(bs: seq<Block>, hs: Headers, k: nat)
    requires TilesOk(bs, hs) && k < |bs|
    ensures bs[k].bump > 0 ==> bs[k].ptr in hs && InUse(bs[k], bs[k].ptr)
    ensures Before(hs, bs[k], bs[k].ptr) == {}
    ensures Before(hs, bs[k], bs[k].ptr + bs[k].bump) == set p | p in hs && InUse(bs[k], p)
  {
    hide Covered, BlocksOk, SlotsOk;
    assert Tiled(bs[k], hs);
  }

  lemma BlocksApart(bs: seq<Block>, hs: Headers, i: nat, k: nat, p: Ptr)
    requires TilesOk(bs, hs) && i < |bs| && k < |bs| && i != k && InUse(bs[i], p)
    ensures !InUse(bs[k], p)
  {
    assert i < k || k < i;
  }

  function WhiteHeader(h: Header): Header {
    if h.color == Dead then h else h.(color := White)
  }

  /** The result of the pre-mark phase: every slot that is not dead is white. */
  function Whitened(hs: Headers): Headers {
    map p | p in hs :: WhiteHeader(hs[p])
  }

  ghost predicate Whitening(hs0: Headers, hs: Headers, scope: set<Ptr>) {
    && hs.Keys == hs0.Keys && scope <= hs0.Keys
    && (forall p :: p in hs0 ==> hs[p] == if p in scope then WhiteHeader(hs0[p]) else hs0[p])
  }

  lemma WhitenStep(hs0: Headers, hs: Headers, scope: set<Ptr>, p: Ptr)
    requires Whitening(hs0, hs, scope) && p in hs0 && p !in scope
    ensures p in hs && hs[p] == hs0[p]
    ensures Whitening(hs0, hs[p := WhiteHeader(hs[p])], scope + {p})
    ensures hs[p].color == Dead ==> hs[p := WhiteHeader(hs[p])] == hs
  {
  }

  lemma WhitenedAll(hs0: Headers, hs: Headers)
    requires Whitening(hs0, hs, hs0.Keys)
    ensures hs == Whitened(hs0)
  {
  }

  // ----- the old generation -----

  /** No block meets the nursery [lo, hi). */
  predicate AwayFrom(bs: seq<Block>, lo: Ptr, hi: Ptr) {
    forall i :: 0 <= i < |bs| ==> bs[i].ptr + bs[i].size <= lo || hi <= bs[i].ptr
  }

  /** The bytes [raw, raw + n) meet no slot that is not dead. */
  ghost predicate ApartFromLive(hs: Headers, raw: Ptr, n: nat) {
    forall q :: q in hs && hs[q].color != Dead ==> q + Span(hs[q]) <= raw || raw + n <= q
  }

  lemma ReservedApart(bs: seq<Block>, hs: Headers, small: seq<seq<Ptr>>, large: seq<LargeFree>, used: nat, raw: Ptr,
                      h: Header)
    requires Ok(bs, hs[raw := h], small, large, used) && (raw in hs ==> hs[raw] == h.(color := Dead))
    ensures ApartFromLive(hs, raw, Span(h))
  {
    hide TilesOk, FreeExact;
    forall q | q in hs && hs[q].color != Dead ensures q + Span(hs[q]) <= raw || raw + Span(h) <= q {
      SlotsDisjoint(bs, hs[raw := h], q, raw);
    }
  }

  /** A header that holds less than the slot takes: the bytes in use are no longer the
      sum over the headers. */
  lemma CutHeader(bs: seq<Block>, hs: Headers, small: seq<seq<Ptr>>, large: seq<LargeFree>, used: nat,
                  raw: Ptr, actual: nat, c: Color)
    requires actual - HEADER >= SIZE_LIMIT && raw !in hs && used == LiveBytes(hs) + actual
    ensures !Ok(bs, hs[raw := Header((actual - HEADER) % SIZE_LIMIT, c)], small, large, used)
  {
    LiveBytesPut(hs, raw, Header((actual - HEADER) % SIZE_LIMIT, c));
  }

  lemma ApartShrinks(hs: Headers, raw: Ptr, n: nat, m: nat)
    requires ApartFromLive(hs, raw, n) && m <= n
    ensures ApartFromLive(hs, raw, m)
  {
  }

  predicate HasRoom(bs: seq<Block>, total: nat) {
    exists i :: 0 <= i < |bs| && bs[i].size - bs[i].bump >= total
  }

  /** The most bytes that one block has left. */
  function Free(bs: seq<Block>): nat {
    if bs == [] then 0
    else
      var b, rest := bs[|bs| - 1], Free(bs[..|bs| - 1]);
      if b.bump <= b.size && rest < b.size - b.bump then b.size - b.bump else rest
  }

  function Bumped(bs: seq<Block>, k: nat, total: nat): seq<Block>
    requires k < |bs|
  {
    bs[k := bs[k].(bump := bs[k].bump + total)]
  }

  lemma {:induction false} FreeIsRoom(bs: seq<Block>, total: nat)
    requires total > 0
    ensures HasRoom(bs, total) <==> total <= Free(bs)
  {
    if bs != [] {
      var rest := bs[..|bs| - 1];
      FreeIsRoom(rest, total);
      assert forall i :: 0 <= i < |rest| ==> rest[i] == bs[i];
    }
  }

  lemma {:induction false} FreeBump(bs: seq<Block>, k: nat, total: nat)
    requires k < |bs| && bs[k].bump + total <= bs[k].size
    ensures Free(Bumped(bs, k, total)) + total >= Free(bs)
  {
    var rest := bs[..|bs| - 1];
    if k < |rest| {
      FreeBump(rest, k, total);
      assert Bumped(bs, k, total)[..|bs| - 1] == Bumped(rest, k, total);
    } else {
      assert Bumped(bs, k, total)[..|bs| - 1] == rest;
    }
  }

  /** A slot taken from a new block. */
  lemma FreeAdd(bs: seq<Block>, bs': seq<Block>, total: nat)
    requires |bs'| == |bs| + 1 && bs'[..|bs|] == bs && bs'[|bs|].bump == 0 && bs'[|bs|].size == BlockSize(total)
    ensures var free := Free(Bumped(bs', |bs|, total));
            free >= Free(bs) && (total < MIN_BLOCK ==> free + total >= MIN_BLOCK)
              && (total >= MIN_BLOCK ==> free >= total)
  {
    assert Bumped(bs', |bs|, total)[..|bs|] == bs;
  }

  lemma FreshAfterBump(bs: seq<Block>, k: nat, total: nat, p: Ptr, size: nat)
    requires k < |bs|
    ensures FreshRegion(Bumped(bs, k, total), p, size) <==> FreshRegion(bs, p, size)
  {
    var bs' := Bumped(bs, k, total);
    assert forall i :: 0 <= i < |bs| ==> bs'[i].ptr == bs[i].ptr && bs'[i].size == bs[i].size;
    if FreshRegion(bs', p, size) {
      forall i | 0 <= i < |bs| ensures p + size <= bs[i].ptr || bs[i].ptr + bs[i].size <= p {
        assert p + size <= bs'[i].ptr || bs'[i].ptr + bs'[i].size <= p;
      }
    }
  }

  lemma EightsBelow(total: nat)
    requires FitsClass(total)
    ensures total < MIN_BLOCK ==> total <= MIN_BLOCK - 8
  {
  }

  /** A new block is of the usual size, or holds a large slot and as much again. */
  function BlockSize(total: nat): (size: nat)
    ensures size >= MIN_BLOCK && size >= total && (size == MIN_BLOCK || size == total + total)
  {
    if total < MIN_BLOCK then MIN_BLOCK else total * 2
  }

  /** The host's next answer is a region of size bytes away from the blocks and from
      [lo, hi). */
  predicate HostGrants(bs: seq<Block>, host: seq<Ptr>, lo: Ptr, hi: Ptr, size: nat) {
    host != [] && FreshRegion(bs, host[0], size) && (host[0] + size <= lo || hi <= host[0])
  }

  /** Bytes that new slots can take for certain: the most that one block has left, or a
      block of the usual size if the host grants one. */
  function SpareOf(bs: seq<Block>, host: seq<Ptr>, lo: Ptr, hi: Ptr): nat {
    var free := Free(bs);
    if HostGrants(bs, host, lo, hi, MIN_BLOCK) && free < MIN_BLOCK - 8 then MIN_BLOCK - 8 else free
  }

  /** A block or the host has the bytes for a new slot. */
  predicate NewSlotServes(bs: seq<Block>, host: seq<Ptr>, lo: Ptr, hi: Ptr, total: nat)
    requires total % 8 == 0 && total > 0
  {
    HasRoom(bs, SlotTotal(total)) || HostGrants(bs, host, lo, hi, BlockSize(SlotTotal(total)))
  }

  /** A dead slot of this span serves a request: one of its class or of the next two, or a
      large one that is large enough. */
  predicate SpanServes(span: nat, total: nat) {
    var cls := ClassCeil(total);
    if cls < SMALL_CLASS_COUNT then exists k :: cls <= k <= cls + 2 && k < SMALL_CLASS_COUNT && CLASS_SIZES[k] == span
    else ClassCeil(span) == SMALL_CLASS_COUNT && span >= total
  }

  /** A slot serves if it is large enough and, for a small request, at most two class sizes
      that would do as well lie below it. */
  lemma SpanServesIff(span: nat, total: nat)
    requires FitsClass(span) && total > 0
    ensures SpanServes(span, total) <==>
              && span >= total
              && (total <= 4096 ==>
                    span <= 4096 && forall k :: 0 <= k < 14 && CLASS_SIZES[k] >= total ==> span <= CLASS_SIZES[k + 2])
  {
    hide CLASS_SIZES;
    ClassCount();
    ClassSizesIncrease();
    LastClass();
    if total <= 4096 && span <= 4096 && total <= span {
      SmallSpanServes(span, total);
      var cls, d := ClassCeil(total), ClassCeil(span);
      if d > cls + 2 {
        assert CLASS_SIZES[cls] >= total && CLASS_SIZES[cls + 2] < CLASS_SIZES[d];
      } else {
        forall k | 0 <= k < 14 && CLASS_SIZES[k] >= total ensures span <= CLASS_SIZES[k + 2] {
          assert cls <= k && (d < k + 2 || d == k + 2);
        }
      }
    }
  }

  lemma SmallSpanServes(span: nat, total: nat)
    requires FitsClass(span) && 0 < total <= span <= 4096
    ensures var cls, d := ClassCeil(total), ClassCeil(span);
            && cls <= d < SMALL_CLASS_COUNT && CLASS_SIZES[d] == span
            && (SpanServes(span, total) <==> d <= cls + 2)
  {
    hide CLASS_SIZES;
    ClassCount();
    ClassSizesIncrease();
    LastClass();
  }

  lemma LastClass()
    ensures CLASS_SIZES[SMALL_CLASS_COUNT - 1] == 4096
  {
  }

  ghost predicate DeadSlotServes(hs: Headers, total: nat) {
    exists p :: IsDead(hs, p) && SpanServes(Span(hs[p]), total)
  }

  /** What the free lists offer is what the dead slots offer. */
  lemma SmallListServes(hs: Headers, small: seq<seq<Ptr>>, large: seq<LargeFree>, total: nat, k: nat)
    requires FreeExact(hs, small, large, hs.Keys) && ClassCeil(total) <= k <= ClassCeil(total) + 2
             && k < SMALL_CLASS_COUNT
    requires small[k] != []
    ensures DeadSlotServes(hs, total)
  {
    hide ClassCeil;
    assert IsDead(hs, small[k][0]) && Span(hs[small[k][0]]) == CLASS_SIZES[k];
    assert SpanServes(Span(hs[small[k][0]]), total);
  }

  lemma LargeListServes(hs: Headers, small: seq<seq<Ptr>>, large: seq<LargeFree>, total: nat, i: nat)
    requires FreeExact(hs, small, large, hs.Keys) && ClassCeil(total) == SMALL_CLASS_COUNT
    requires i < |large| && large[i].total >= total
    ensures DeadSlotServes(hs, total)
  {
    hide ClassCeil;
    assert IsDead(hs, large[i].ptr) && SpanServes(Span(hs[large[i].ptr]), total);
  }

  lemma NoListServes(hs: Headers, small: seq<seq<Ptr>>, large: seq<LargeFree>, total: nat)
    requires FreeExact(hs, small, large, hs.Keys)
    requires var cls := ClassCeil(total);
             if cls < SMALL_CLASS_COUNT then forall k :: cls <= k <= cls + 2 && k < SMALL_CLASS_COUNT ==> small[k] == []
             else forall i :: 0 <= i < |large| ==> large[i].total < total
    ensures !DeadSlotServes(hs, total)
  {
    hide ClassCeil, CLASS_SIZES;
    ClassCount();
    if DeadSlotServes(hs, total) {
      var p :| IsDead(hs, p) && SpanServes(Span(hs[p]), total);
      assert Listed(small, large, p, Span(hs[p]));
      if ClassCeil(total) < SMALL_CLASS_COUNT {
        var k :| ClassCeil(total) <= k <= ClassCeil(total) + 2 && k < SMALL_CLASS_COUNT
          && CLASS_SIZES[k] == Span(hs[p]);
        ClassCeilExact(k);
      }
    }
  }

  function Tail(host: seq<Ptr>): seq<Ptr> { if host == [] then [] else host[1..] }

  class OldSpace {
    var blocks: seq<Block>
    var headers: Headers
    var smallFree: seq<seq<Ptr>>
    var largeFree: seq<LargeFree>
    var used: nat
    /** What the host will answer to the next requests for memory; it refuses once the
        answers are used up. */
    var host: seq<Ptr>
    const nurseryLo: Ptr
    const nurseryHi: Ptr

    ghost predicate Valid()
      reads this
    {
      && |smallFree| == SMALL_CLASS_COUNT
      && Ok(blocks, headers, smallFree, largeFree, used)
      && AwayFrom(blocks, nurseryLo, nurseryHi)
    }

    constructor (lo: Ptr, hi: Ptr, host: seq<Ptr>)
      ensures Valid() && headers == map[] && nurseryLo == lo && nurseryHi == hi && blocks == [] && this.host == host
    {
      this.host := host;
      blocks, headers, largeFree, used := [], map[], [], 0;
      smallFree := seq(SMALL_CLASS_COUNT, _ => []);
      nurseryLo, nurseryHi := lo, hi;
    }

    /** The state is consistent once the caller writes a header of colour c and
        size actual - HEADER at raw, if 32 bits hold that size. */
    ghost predicate Reserved(raw: Ptr, actual: nat, c: Color)
      reads this
    {
      && raw > 0 && FitsClass(actual) && |smallFree| == SMALL_CLASS_COUNT
      && (LegalTotal(actual) ==> Ok(blocks, headers[raw := Header(actual - HEADER, c)], smallFree, largeFree, used))
      && (!LegalTotal(actual) ==>
            used == LiveBytes(headers) + actual && raw !in headers && ApartFromLive(headers, raw, actual))
      && AwayFrom(blocks, nurseryLo, nurseryHi)
      && (raw in headers ==> headers[raw] == Header(actual - HEADER, Dead))
    }

    method PopSmall(k: nat, ghost c: Color) returns (raw: Ptr)
      requires Valid() && k < SMALL_CLASS_COUNT && |smallFree[k]| > 0 && c != Dead
      modifies this`smallFree, this`used
      ensures raw == old(smallFree[k][0]) && raw > 0 && Reserved(raw, CLASS_SIZES[k], c) && LegalTotal(CLASS_SIZES[k])
      ensures used == old(used) + CLASS_SIZES[k]
    {
      hide TilesOk, FreeExact, LegalTotal;
      SmallFreeIsDead(headers, smallFree, largeFree, headers.Keys, k, 0);
      raw := smallFree[k][0];
      ghost var h := Header(CLASS_SIZES[k] - HEADER, c);
      PopSmallExact(headers, smallFree, largeFree, k, h);
      RecolourTiles(blocks, headers, headers[raw := h]);
      LiveBytesPut(headers, raw, h);
      SlotLegal(blocks, headers, raw);
      smallFree := smallFree[k := smallFree[k][1..]];
      used := used + CLASS_SIZES[k];
    }

    method TakeLarge(k: nat, ghost c: Color) returns (raw: Ptr, actual: nat)
      requires Valid() && k < |largeFree| && c != Dead
      modifies this`largeFree, this`used
      ensures actual == old(largeFree[k].total) && raw > 0 && Reserved(raw, actual, c) && LegalTotal(actual)
      ensures used == old(used) + actual
    {
      hide TilesOk, FreeExact, LegalTotal;
      LargeFreeIsDead(headers, smallFree, largeFree, headers.Keys, k);
      raw, actual := largeFree[k].ptr, largeFree[k].total;
      ghost var h := Header(actual - HEADER, c);
      TakeLargeExact(headers, smallFree, largeFree, k, h);
      RecolourTiles(blocks, headers, headers[raw := h]);
      LiveBytesPut(headers, raw, h);
      SlotLegal(blocks, headers, raw);
      largeFree := largeFree[k := largeFree[|largeFree| - 1]][..|largeFree| - 1];
      used := used + actual;
    }

    method Bump(k: nat, total: nat, ghost c: Color) returns (raw: Ptr)
      requires Valid() && k < |blocks| && FitsClass(total) && blocks[k].bump + total <= blocks[k].size && c != Dead
      modifies this`blocks, this`used
      ensures raw > 0 && Reserved(raw, total, c) && used == old(used) + total
      ensures blocks == Bumped(old(blocks), k, total)
    {
      hide TilesOk, FreeExact, FitsClass, ApartFromLive;
      FitsBounds(total);
      BlockPositive(blocks, headers, k);
      raw := blocks[k].ptr + blocks[k].bump;
      ghost var h := Header(total - HEADER, c);
      BumpApart(blocks, headers, k, total);
      if LegalTotal(total) {
        BumpTiles(blocks, headers, k, h);
        NewLiveExact(headers, smallFree, largeFree, raw, h);
        LiveBytesPut(headers, raw, h);
      }
      blocks := Bumped(blocks, k, total);
      used := used + total;
    }

    /** Whether the next request succeeds depends on the dead slots, the blocks and the
        host's next answer. */
    ghost predicate Serves(total: nat)
      reads this
      requires total % 8 == 0 && total > 0
    {
      DeadSlotServes(headers, total) || CanServe(total)
    }

    /** The host's next answer is a region of size bytes that meets nothing in use. */
    predicate Grants(size: nat)
      reads this`host, this`blocks
    {
      HostGrants(blocks, host, nurseryLo, nurseryHi, size)
    }

    /** The host hands out a region that meets no earlier one, or refuses. */
    method NewBlock(size: nat) returns (ok: bool)
      requires Valid()
      modifies this`blocks, this`host
      ensures Valid() && ok == old(Grants(size)) && host == Tail(old(host))
      ensures if ok then |blocks| == |old(blocks)| + 1 && blocks[..|old(blocks)|] == old(blocks)
                         && blocks[|blocks| - 1].bump == 0 && blocks[|blocks| - 1].size == size
              else blocks == old(blocks)
    {
      hide TilesOk, FreeExact, LiveBytes;
      ok := Grants(size);
      if ok {
        AddBlockTiles(blocks, headers, host[0], size);
        blocks := blocks + [Block(host[0], size, 0)];
      }
      host := Tail(host);
    }

    /** The class of the request and the next two classes, or first fit in the
        large list; raw is 0 when no listed slot serves. */
    method FromFreeLists(total: nat, cls: nat, ghost c: Color) returns (raw: Ptr, actual: nat)
      requires Valid() && cls == ClassCeil(total) && c != Dead
      modifies this`smallFree, this`largeFree, this`used
      ensures raw == 0 ==> Valid() && used == old(used)
      ensures raw == 0 <==> !old(DeadSlotServes(headers, total))
      ensures raw != 0 ==>
                actual >= total && Reserved(raw, actual, c) && LegalTotal(actual) && used == old(used) + actual
      ensures cls < SMALL_CLASS_COUNT && old(smallFree[cls]) != [] ==> raw != 0 && raw == old(smallFree[cls])[0]
      ensures raw != 0 && cls < SMALL_CLASS_COUNT ==> actual <= CLASS_SIZES[SMALL_CLASS_COUNT - 1]
    {
      hide Reserved, ClassCeil, TilesOk, FreeExact, LiveBytes, DeadSlotServes, CLASS_SIZES, FitsClass;
      ClassCount();
      if cls < SMALL_CLASS_COUNT {
        var off := 0;
        while off <= 2 && cls + off < SMALL_CLASS_COUNT
          invariant 0 <= off <= 3 && (off > 0 ==> smallFree[cls] == [])
          invariant forall k :: cls <= k < cls + off && k < SMALL_CLASS_COUNT ==> smallFree[k] == []
        {
          if smallFree[cls + off] != [] {
            SmallListServes(headers, smallFree, largeFree, total, cls + off);
            LaterClassFits(total, cls + off);
            ClassSizesIncrease();
            raw := PopSmall(cls + off, c);
            return raw, CLASS_SIZES[cls + off];
          }
          off := off + 1;
        }
      } else {
        var i := 0;
        while i < |largeFree|
          invariant 0 <= i <= |largeFree| && forall j :: 0 <= j < i ==> largeFree[j].total < total
        {
          if largeFree[i].total >= total {
            LargeListServes(headers, smallFree, largeFree, total, i);
            raw, actual := TakeLarge(i, c);
            return;
          }
          i := i + 1;
        }
      }
      NoListServes(headers, smallFree, largeFree, total);
      return 0, 0;
    }

    /** The first block with room, else a new block. */
    method FromBlocks(total: nat, ghost c: Color) returns (raw: Ptr)
      requires Valid() && FitsClass(total) && c != Dead
      modifies this`blocks, this`used, this`host
      ensures raw == 0 ==> Valid() && used == old(used)
      ensures raw != 0 ==> Reserved(raw, total, c) && used == old(used) + total
      ensures raw == 0 <==> !old(HasRoom(blocks, total) || Grants(BlockSize(total)))
      ensures raw == 0 ==> old(Spare()) < total && blocks == old(blocks) && host == Tail(old(host))
      ensures raw != 0 ==> Spare() + total >= old(Spare())
    {
      hide Ok, Reserved, FitsClass, FreshRegion, Free;
      FitsBounds(total);
      FreeIsRoom(blocks, total);
      ghost var bs := blocks;
      var k := 0;
      while k < |blocks|
        invariant 0 <= k <= |blocks| && forall i :: 0 <= i < k ==> blocks[i].size - blocks[i].bump < total
      {
        if blocks[k].size - blocks[k].bump >= total {
          FreeBump(bs, k, total);
          FreshAfterBump(bs, k, total, if host == [] then 0 else host[0], MIN_BLOCK);
          raw := Bump(k, total, c);
          return;
        }
        k := k + 1;
      }
      EightsBelow(total);
      var ok := NewBlock(BlockSize(total));
      if !ok {
        return 0;
      }
      FreeAdd(bs, blocks, total);
      raw := Bump(|blocks| - 1, total, c);
    }

    /** Bytes that new slots can take for certain: the most that one block has left, or
        a block of the usual size if the host grants one. */
    function Spare(): nat
      reads this`host, this`blocks
    {
      SpareOf(blocks, host, nurseryLo, nurseryHi)
    }

    /** A block or the host has the bytes for a new slot. */
    predicate CanServe(total: nat)
      reads this`host, this`blocks
      requires total % 8 == 0 && total > 0
    {
      NewSlotServes(blocks, host, nurseryLo, nurseryHi, total)
    }

    method AllocInOldWithTotal(total: nat, ghost c: Color) returns (raw: Ptr, actual: nat)
      requires Valid() && total % 8 == 0 && 0 < total && c != Dead
      modifies this`blocks, this`smallFree, this`largeFree, this`used, this`host
      ensures raw == 0 <==> !old(Serves(total))
      ensures raw == 0 ==> old(Spare()) < SlotTotal(total) && blocks == old(blocks) && host == Tail(old(host))
      ensures raw != 0 ==> Spare() + SlotTotal(total) >= old(Spare())
      ensures raw == 0 ==> actual == 0 && Valid() && used == old(used)
      ensures raw != 0 ==> actual >= total && Reserved(raw, actual, c) && used == old(used) + actual
      ensures raw != 0 ==>
                (LegalTotal(actual) <==> total - HEADER < SIZE_LIMIT) && (LegalTotal(actual) || actual == total)
      ensures ClassCeil(total) < SMALL_CLASS_COUNT && old(smallFree[ClassCeil(total)]) != [] ==>
                raw != 0 && raw == old(smallFree[ClassCeil(total)])[0]
      ensures raw != 0 && ClassCeil(total) < SMALL_CLASS_COUNT ==> actual <= CLASS_SIZES[SMALL_CLASS_COUNT - 1]
    {
      hide Ok, Reserved, ClassCeil, FitsClass;
      raw, actual := FromFreeLists(total, ClassCeil(total), c);
      if raw == 0 {
        actual := SlotTotal(total);
        raw := FromBlocks(actual, c);
        if raw == 0 {
          actual := 0;
        }
      }
    }

    /** Writing the header completes an allocation. The size is cut to 32 bits, and the
        old generation stays in order exactly if that changes nothing. */
    method Alloc(total: nat, c: Color) returns (raw: Ptr, actual: nat)
      requires Valid() && total % 8 == 0 && 0 < total && c != Dead
      modifies this
      ensures raw == 0 <==> !old(Serves(total))
      ensures raw == 0 ==> old(Spare()) < SlotTotal(total) && blocks == old(blocks) && host == Tail(old(host))
      ensures raw != 0 ==> Spare() + SlotTotal(total) >= old(Spare())
      ensures raw == 0 ==> headers == old(headers) && used == old(used)
      ensures raw != 0 ==>
                actual >= total && actual > HEADER
                && headers == old(headers)[raw := Header((actual - HEADER) % SIZE_LIMIT, c)]
      ensures raw != 0 && total - HEADER < SIZE_LIMIT ==> headers[raw] == Header(actual - HEADER, c)
      ensures raw != 0 ==> used == old(used) + actual
      ensures raw != 0 && raw in old(headers) ==> old(headers)[raw].color == Dead
      ensures raw != 0 ==> ApartFromLive(old(headers), raw, actual)
      ensures ClassCeil(total) < SMALL_CLASS_COUNT && old(smallFree[ClassCeil(total)]) != [] ==>
                raw != 0 && raw == old(smallFree[ClassCeil(total)])[0]
      ensures raw != 0 && ClassCeil(total) < SMALL_CLASS_COUNT ==> actual <= CLASS_SIZES[SMALL_CLASS_COUNT - 1]
      ensures Valid() <==> raw == 0 || total - HEADER < SIZE_LIMIT
      ensures raw != 0 ==> (actual - HEADER < SIZE_LIMIT <==> total - HEADER < SIZE_LIMIT)
      ensures raw != 0 && total - HEADER >= SIZE_LIMIT ==> actual == total
    {
      hide Ok, FitsClass, ApartFromLive, AwayFrom, ClassCeil;
      raw, actual := AllocInOldWithTotal(total, c);
      if raw != 0 {
        FitsBounds(actual);
        if LegalTotal(actual) {
          ReservedApart(blocks, headers, smallFree, largeFree, used, raw, Header(actual - HEADER, c));
        } else {
          CutHeader(blocks, headers, smallFree, largeFree, used, raw, actual, c);
        }
        headers := headers[raw := Header((actual - HEADER) % SIZE_LIMIT, c)];
      }
    }

    method FreelistPush(raw: Ptr, total: nat)
      requires |smallFree| == SMALL_CLASS_COUNT
      modifies this`smallFree, this`largeFree
      ensures smallFree == old(PushSmall(smallFree, largeFree, raw, total))
      ensures largeFree == old(PushLarge(largeFree, raw, total))
    {
      var cls := ClassCeil(total);
      if cls < SMALL_CLASS_COUNT && total >= CLASS_SIZES[cls] {
        smallFree := smallFree[cls := [raw] + smallFree[cls]];
      } else {
        largeFree := largeFree + [LargeFree(raw, total)];
      }
    }

    /** The body of the sweep loop on the slot at cursor. */
    method SweepSlot(cursor: Ptr, total: nat, ghost hs0: Headers, ghost scope: set<Ptr>)
      requires Sweeping(hs0, headers, smallFree, largeFree, used, scope)
      requires cursor in hs0 && cursor !in scope && LegalTotal(Span(hs0[cursor])) && total == Span(hs0[cursor])
      modifies this`headers, this`smallFree, this`largeFree, this`used
      ensures Sweeping(hs0, headers, smallFree, largeFree, used, scope + {cursor})
    {
      hide Sweeping, LegalTotal, PushSmall, PushLarge;
      SweepStep(hs0, headers, smallFree, largeFree, used, scope, cursor);
      if headers[cursor].color == White {
        used := used - total;
      }
      headers := headers[cursor := SweptHeader(headers[cursor])];
      if headers[cursor].color == Dead {
        FreelistPush(cursor, total);
      }
    }

    method SweepBlock(k: nat, ghost hs0: Headers, ghost scope: set<Ptr>) returns (ghost scope': set<Ptr>)
      requires k < |blocks|
      requires forall p :: p in scope ==> !InUse(blocks[k], p)
      requires TilesOk(blocks, hs0)
      requires Sweeping(hs0, headers, smallFree, largeFree, used, scope)
      modifies this`headers, this`smallFree, this`largeFree, this`used
      ensures scope' == scope + SlotsIn(hs0, blocks[k])
      ensures Sweeping(hs0, headers, smallFree, largeFree, used, scope')
    {
      hide TilesOk, Sweeping, LegalTotal, Total;
      var cursor := blocks[k].ptr;
      var end := blocks[k].ptr + blocks[k].bump;
      scope' := scope;
      WalkStart(blocks, hs0, k);
      if cursor < end { WalkStep(blocks, hs0, k, cursor); }
      while cursor + HEADER <= end
        invariant blocks == old(blocks)
        invariant cursor <= end && (cursor < end ==> cursor in hs0 && InUse(blocks[k], cursor))
        invariant cursor < end ==> cursor + HEADER <= end
        invariant scope' == scope + Before(hs0, blocks[k], cursor)
        invariant Sweeping(hs0, headers, smallFree, largeFree, used, scope')
        decreases end - cursor
      {
        WalkStep(blocks, hs0, k, cursor);
        SweepingHeader(hs0, headers, smallFree, largeFree, used, scope', cursor);
        if headers[cursor].size == 0 { break; }
        var total := Total(headers[cursor]);
        SweepSlot(cursor, total, hs0, scope');
        scope' := scope' + {cursor};
        ghost var next := Next(hs0, cursor);
        if next < end { WalkStep(blocks, hs0, k, next); }
        cursor := cursor + total;
      }
    }

    /** Change the colour of a slot that is not dead. */
    method Paint(p: Ptr, c: Color)
      requires Valid() && p in headers && headers[p].color != Dead && c != Dead
      modifies this`headers
      ensures headers == old(headers)[p := old(headers)[p].(color := c)]
      ensures Valid()
    {
      hide Ok;
      ColourLive(blocks, headers, smallFree, largeFree, used, p, c);
      headers := headers[p := headers[p].(color := c)];
    }

    method PreMarkBlock(k: nat, ghost hs0: Headers, ghost scope: set<Ptr>) returns (ghost scope': set<Ptr>)
      requires k < |blocks| && blocks[k].bump <= blocks[k].size
      requires forall p :: p in scope ==> !InUse(blocks[k], p)
      requires forall p :: p in hs0 && blocks[k].ptr <= p < blocks[k].ptr + blocks[k].size ==> InUse(blocks[k], p)
      requires Whitening(hs0, headers, scope) && TilesOk(blocks, hs0) && Valid()
      modifies this`headers
      ensures scope' == scope + set p | p in hs0 && InUse(blocks[k], p)
      ensures Whitening(hs0, headers, scope') && Valid()
    {
      hide TilesOk, Ok, LegalTotal, Total;
      var cursor := blocks[k].ptr;
      var end := blocks[k].ptr + blocks[k].size;
      ghost var top := blocks[k].ptr + blocks[k].bump;
      scope' := scope;
      WalkStart(blocks, hs0, k);
      while cursor + HEADER <= end
        invariant cursor <= top && (cursor < top ==> cursor in hs0 && InUse(blocks[k], cursor))
        invariant scope' == scope + Before(hs0, blocks[k], cursor)
        invariant Whitening(hs0, headers, scope') && Valid()
        decreases end - cursor
      {
        if cursor !in headers || headers[cursor].size == 0 {
          if cursor < top { WalkStep(blocks, hs0, k, cursor); }
          break;
        }
        WalkStep(blocks, hs0, k, cursor);
        WhitenStep(hs0, headers, scope', cursor);
        var total := Total(headers[cursor]);
        if headers[cursor].color != Dead {
          Paint(cursor, White);
        }
        scope' := scope' + {cursor};
        cursor := cursor + total;
      }
      if cursor < top { WalkStep(blocks, hs0, k, cursor); }
    }

    /** The pre-mark phase of major_gc. It walks to the end of each block and
        stops at the first zero header, which lies just past the used prefix. */
    method PreMark()
      requires Valid()
      modifies this`headers
      ensures headers == Whitened(old(headers))
      ensures Valid()
    {
      hide Ok, TilesOk;
      ghost var hs0 := headers;
      OkTiles(blocks, headers, smallFree, largeFree, used);
      ghost var scope: set<Ptr> := {};
      var k := 0;
      while k < |blocks|
        invariant 0 <= k <= |blocks|
        invariant forall p :: p in scope <==> p in hs0 && InSomeBlock(blocks[..k], p)
        invariant Whitening(hs0, headers, scope) && Valid()
      {
        forall p | p in scope ensures !InUse(blocks[k], p) {
          var i :| 0 <= i < k && InUse(blocks[..k][i], p);
          BlocksApart(blocks, hs0, i, k, p);
        }
        PastBumpIsEmpty(blocks, hs0, k);
        scope := PreMarkBlock(k, hs0, scope);
        OneMoreBlock(blocks, k);
        k := k + 1;
      }
      AllCovered(blocks, hs0, scope);
      WhitenedAll(hs0, headers);
    }

    /** The sweep phase of major_gc: white slots die, and the free lists are
        rebuilt to hold exactly the dead slots. */
    method Sweep()
      requires Valid()
      modifies this`headers, this`smallFree, this`largeFree, this`used
      ensures headers == Swept(old(headers))
      ensures Valid()
    {
      hide TilesOk, FreeExact, Sweeping;
      ghost var hs0 := headers;
      smallFree, largeFree := seq(SMALL_CLASS_COUNT, _ => []), [];
      SweepBegins(hs0, used);
      ghost var scope: set<Ptr> := {};
      var k := 0;
      while k < |blocks|
        invariant 0 <= k <= |blocks|
        invariant forall p :: p in scope <==> p in hs0 && InSomeBlock(blocks[..k], p)
        invariant Sweeping(hs0, headers, smallFree, largeFree, used, scope)
      {
        forall p | p in scope ensures !InUse(blocks[k], p) {
          var i :| 0 <= i < k && InUse(blocks[..k][i], p);
          BlocksApart(blocks, hs0, i, k, p);
        }
        scope := SweepBlock(k, hs0, scope);
        OneMoreBlock(blocks, k);
        k := k + 1;
      }
      AllCovered(blocks, hs0, scope);
      SweptAll(hs0, headers, smallFree, largeFree, used, blocks);
    }
  }

  lemma OkTiles(bs: seq<Block>, hs: Headers, small: seq<seq<Ptr>>, large: seq<LargeFree>, used: nat)
    requires Ok(bs, hs, small, large, used)
    ensures TilesOk(bs, hs)
  {
  }

  lemma PastBumpIsEmpty(bs: seq<Block>, hs: Headers, k: nat)
    requires TilesOk(bs, hs) && k < |bs|
    ensures bs[k].bump <= bs[k].size
    ensures forall p :: p in hs && bs[k].ptr <= p < bs[k].ptr + bs[k].size ==> InUse(bs[k], p)
  {
    hide AllTiled, SlotsOk;
    forall p | p in hs && bs[k].ptr <= p < bs[k].ptr + bs[k].size ensures InUse(bs[k], p) {
      assert InSomeBlock(bs, p);
      var j :| 0 <= j < |bs| && InUse(bs[j], p);
      assert j < k || j == k || k < j;
    }
  }

  lemma SlotOutsideNursery(bs: seq<Block>, hs: Headers, lo: Ptr, hi: Ptr, p: Ptr)
    requires TilesOk(bs, hs) && AwayFrom(bs, lo, hi) && p in hs
    ensures !(lo <= p < hi)
  {
    hide AllTiled, SlotsOk;
    assert InSomeBlock(bs, p);
    var j :| 0 <= j < |bs| && InUse(bs[j], p);
    assert bs[j].bump <= bs[j].size;
  }

  lemma NoSlotInNursery(bs: seq<Block>, hs: Headers, lo: Ptr, hi: Ptr, p: Ptr)
    requires TilesOk(bs, hs) && AwayFrom(bs, lo, hi) && lo <= p < hi
    ensures p !in hs
  {
    hide AllTiled, SlotsOk;
    forall j | 0 <= j < |bs| ensures !InUse(bs[j], p) {
      assert bs[j].bump <= bs[j].size;
    }
    assert !InSomeBlock(bs, p);
  }

  lemma SweepBegins(hs: Headers, used: nat)
    requires used == LiveBytes(hs)
    ensures Sweeping(hs, hs, seq(SMALL_CLASS_COUNT, _ => []), [], used, {})
  {
    EmptyExact(hs);
  }

  lemma SweepingHeader(hs0: Headers, hs: Headers, small: seq<seq<Ptr>>, large: seq<LargeFree>, used: nat,
                       scope: set<Ptr>, p: Ptr)
    requires Sweeping(hs0, hs, small, large, used, scope) && p in hs0 && p !in scope
    ensures p in hs && hs[p] == hs0[p]
  {
  }

  lemma OneMoreBlock(bs: seq<Block>, k: nat)
    requires k < |bs|
    ensures forall p :: InSomeBlock(bs[..k + 1], p) <==> InSomeBlock(bs[..k], p) || InUse(bs[k], p)
  {
    var more := bs[..k + 1];
    assert more[k] == bs[k];
    forall p ensures InSomeBlock(more, p) <==> InSomeBlock(bs[..k], p) || InUse(bs[k], p) {
      if InSomeBlock(bs[..k], p) {
        var i :| 0 <= i < k && InUse(bs[..k][i], p);
        assert InUse(more[i], p);
      }
      if InUse(bs[k], p) {
        assert InUse(more[k], p);
      }
      if InSomeBlock(more, p) {
        var i :| 0 <= i < k + 1 && InUse(more[i], p);
        if i < k { assert InUse(bs[..k][i], p); }
      }
    }
  }

  lemma AllCovered(bs: seq<Block>, hs: Headers, scope: set<Ptr>)
    requires TilesOk(bs, hs)
    requires forall p :: p in scope <==> p in hs && InSomeBlock(bs[..|bs|], p)
    ensures scope == hs.Keys
  {
    assert bs[..|bs|] == bs;
  }

  lemma SmallFreeIsDead(hs: Headers, small: seq<seq<Ptr>>, large: seq<LargeFree>, scope: set<Ptr>, k: nat, i: nat)
    requires FreeExact(hs, small, large, scope) && k < SMALL_CLASS_COUNT && i < |small[k]|
    ensures IsDead(hs, small[k][i]) && Span(hs[small[k][i]]) == CLASS_SIZES[k] && LegalTotal(CLASS_SIZES[k])
  {
    ClassSizesIncrease();
    ClassCeilExact(k);
  }

  lemma LargeFreeIsDead(hs: Headers, small: seq<seq<Ptr>>, large: seq<LargeFree>, scope: set<Ptr>, k: nat)
    requires FreeExact(hs, small, large, scope) && k < |large|
    ensures IsDead(hs, large[k].ptr) && Span(hs[large[k].ptr]) == large[k].total
  {
  }

  lemma BlockPositive(bs: seq<Block>, hs: Headers, k: nat)
    requires TilesOk(bs, hs) && k < |bs|
    ensures bs[k].ptr > 0
  {
  }

  lemma SlotLegal(bs: seq<Block>, hs: Headers, p: Ptr)
    requires TilesOk(bs, hs) && p in hs
    ensures p > 0 && LegalTotal(Span(hs[p]))
  {
    assert InSomeBlock(bs, p);
  }
}
