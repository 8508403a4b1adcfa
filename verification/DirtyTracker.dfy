/**
 Detection of changed pages: each page of a region is hashed and compared with a
 baseline, first by Adler-32 and then by BLAKE2s.
 */
module DirtyTracker {
  import opened Basics
  import opened Adler

  /** BLAKE2s-256 of a page; nothing if the library fails. */
  type Strong = seq<Byte> -> Option<seq<Byte>>

  datatype Baseline = Baseline(adler: nat, strong: seq<Byte>)
  datatype DirtyPage = DirtyPage(index: nat, strong: seq<Byte>)

  /** Virtual memory, by 64-bit address. */
  type Memory = nat -> Byte

  const NO_BASELINE: Baseline := Baseline(0, Zeros(32))

  /** Pages of a region, counted in 64-bit arithmetic. */
  function PageCount(size: nat): nat { (size + 4095) % 0x1_0000_0000_0000_0000 / 4096 }

  /** The pages cover the region, unless rounding its size up leaves 64 bits. */
  lemma PagesCoverIff(size: nat)
    requires size < 0x1_0000_0000_0000_0000
    ensures PageCount(size) * 4096 >= size <==> size <= 0x1_0000_0000_0000_0000 - 4096
    ensures PageCount(size) * 4096 < size + 4096
  {
  }

  /** The bytes of page i, zeros past the end of the region. */
  function PageBytes(mem: Memory, base: nat, size: nat, i: nat): (s: seq<Byte>)
    ensures |s| == 4096
    ensures forall k :: 0 <= k < 4096 ==>
      s[k] == if i * 4096 + k < size then mem((base + i * 4096 + k) % 0x1_0000_0000_0000_0000) else 0
  {
    seq<Byte>(4096, k requires 0 <= k => if i * 4096 + k < size
              then mem((base + i * 4096 + k) % 0x1_0000_0000_0000_0000) else 0)
  }

  /** What detection finds for a page with these bytes. */
  predicate Changed(b: Baseline, page: seq<Byte>, strong: Strong) {
    Checksum(page) != b.adler && strong(page).Some? && strong(page).value != b.strong
  }

  function Refreshed(b: Baseline, page: seq<Byte>, strong: Strong): Baseline {
    if Checksum(page) != b.adler && strong(page) == Some(b.strong) then Baseline(Checksum(page), b.strong) else b
  }

  /** The changed pages among the first n. */
  function Found(bs: seq<Baseline>, pages: nat -> seq<Byte>, strong: Strong, n: nat): (ds: seq<DirtyPage>)
    requires n <= |bs|
  {
    if n == 0 then []
    else Found(bs, pages, strong, n - 1) +
         (if Changed(bs[n - 1], pages(n - 1), strong) then [DirtyPage(n - 1, strong(pages(n - 1)).value)] else [])
  }

  /** Exactly the changed pages, in page order, each with its new hash. */
  lemma {:induction false} FoundExactly(bs: seq<Baseline>, pages: nat -> seq<Byte>, strong: Strong, n: nat)
    requires n <= |bs|
    ensures var ds := Found(bs, pages, strong, n);
            && (forall d :: d in ds ==>
                  d.index < n && Changed(bs[d.index], pages(d.index), strong)
                  && strong(pages(d.index)) == Some(d.strong))
            && (forall i: nat :: i < n && Changed(bs[i], pages(i), strong) ==>
                DirtyPage(i, strong(pages(i)).value) in ds)
            && (forall j, k :: 0 <= j < k < |ds| ==> ds[j].index < ds[k].index)
  {
    hide Changed;
    if n > 0 {
      FoundExactly(bs, pages, strong, n - 1);
      ChangedHasHash(bs[n - 1], pages(n - 1), strong);
    }
  }

  lemma ChangedHasHash(b: Baseline, page: seq<Byte>, strong: Strong)
    ensures Changed(b, page, strong) ==> strong(page).Some?
  {
  }

  function RefreshedAll(bs: seq<Baseline>, pages: nat -> seq<Byte>, strong: Strong, n: nat): (rs: seq<Baseline>)
    ensures |rs| == |bs|
    ensures forall i :: 0 <= i < |bs| ==> rs[i] == if i < n then Refreshed(bs[i], pages(i), strong) else bs[i]
  {
    seq(|bs|, i requires 0 <= i < |bs| => if i < n then Refreshed(bs[i], pages(i), strong) else bs[i])
  }

  /** A second detection finds the same. */
  lemma {:induction false} FoundAgain(bs: seq<Baseline>, pages: nat -> seq<Byte>, strong: Strong, n: nat, m: nat)
    requires n <= m <= |bs|
    ensures Found(RefreshedAll(bs, pages, strong, m), pages, strong, n) == Found(bs, pages, strong, n)
  {
    hide Checksum;
    if n > 0 { FoundAgain(bs, pages, strong, n - 1, m); }
  }

  function Stored(bs: seq<Baseline>, ds: seq<DirtyPage>): (rs: seq<Baseline>)
    ensures |rs| == |bs|
  {
    if ds == [] then bs
    else
      var d, rs := ds[|ds| - 1], Stored(bs, ds[..|ds| - 1]);
      if d.index < |rs| then rs[d.index := Baseline(1, d.strong)] else rs
  }

  lemma {:induction false} StoredElsewhere(bs: seq<Baseline>, ds: seq<DirtyPage>, i: nat)
    requires i < |bs| && forall j :: 0 <= j < |ds| ==> ds[j].index != i
    ensures Stored(bs, ds)[i] == bs[i]
  {
    if ds != [] { StoredElsewhere(bs, ds[..|ds| - 1], i); }
  }

  lemma {:induction false} StoredAt(bs: seq<Baseline>, ds: seq<DirtyPage>, j: nat)
    requires j < |ds| && ds[j].index < |bs| && forall k :: j < k < |ds| ==> ds[k].index != ds[j].index
    ensures Stored(bs, ds)[ds[j].index] == Baseline(1, ds[j].strong)
  {
    if j < |ds| - 1 { StoredAt(bs, ds[..|ds| - 1], j); }
  }

  /** Once the reported hashes are stored, unchanged memory gives nothing. */
  lemma {:induction false} NothingAfterUpdate(bs: seq<Baseline>, pages: nat -> seq<Byte>, strong: Strong, n: nat)
    requires n <= |bs|
    ensures var ds := Found(bs, pages, strong, |bs|);
            Found(Stored(RefreshedAll(bs, pages, strong, |bs|), ds), pages, strong, n) == []
    decreases n
  {
    hide Checksum;
    if n > 0 {
      NothingAfterUpdate(bs, pages, strong, n - 1);
      PageIsClean(bs, pages, strong, n - 1);
    }
  }

  lemma PageIsClean(bs: seq<Baseline>, pages: nat -> seq<Byte>, strong: Strong, i: nat)
    requires i < |bs|
    ensures !Changed(Stored(RefreshedAll(bs, pages, strong, |bs|), Found(bs, pages, strong, |bs|))[i], pages(i), strong)
  {
    hide Checksum, Found, Stored;
    var ds, rs := Found(bs, pages, strong, |bs|), RefreshedAll(bs, pages, strong, |bs|);
    FoundExactly(bs, pages, strong, |bs|);
    if Changed(bs[i], pages(i), strong) {
      var d := DirtyPage(i, strong(pages(i)).value);
      assert d in ds;
      var j :| 0 <= j < |ds| && ds[j] == d;
      StoredAt(rs, ds, j);
    } else {
      assert forall j :: 0 <= j < |ds| ==> ds[j] in ds;
      StoredElsewhere(rs, ds, i);
    }
  }

  class Tracker {
    const base: nat
    const size: nat
    var baselines: seq<Baseline>

    constructor (base: nat, size: nat)
      ensures this.base == base && this.size == size && |baselines| == PageCount(size)
      ensures forall i :: 0 <= i < |baselines| ==> baselines[i] == NO_BASELINE
    {
      this.base := base;
      this.size := size;
      baselines := seq(PageCount(size), i => NO_BASELINE);
    }

    ghost function Pages(mem: Memory): nat -> seq<Byte> { (i: nat) => PageBytes(mem, base, size, i) }

    method ReadPage(mem: Memory, i: nat) returns (page: seq<Byte>)
      requires i * 4096 <= size
      ensures page == PageBytes(mem, base, size, i)
    {
      var remaining := size - i * 4096;
      var readLen := if remaining >= 4096 then 4096 else remaining;
      page := [];
      while |page| < readLen
        invariant |page| <= readLen
        invariant forall k :: 0 <= k < |page| ==> page[k] == mem((base + i * 4096 + k) % 0x1_0000_0000_0000_0000)
      {
        page := page + [mem((base + i * 4096 + |page|) % 0x1_0000_0000_0000_0000)];
      }
      page := page + Zeros(4096 - readLen);
    }

    method Detect(mem: Memory, strong: Strong) returns (dirty: seq<DirtyPage>)
      requires |baselines| == PageCount(size) && size < 0x1_0000_0000_0000_0000
      modifies this`baselines
      ensures |baselines| == old(|baselines|)
      ensures dirty == Found(old(baselines), Pages(mem), strong, |baselines|)
      ensures baselines == RefreshedAll(old(baselines), Pages(mem), strong, |baselines|)
    {
      hide Checksum, PageBytes;
      dirty := [];
      ghost var bs, pages := baselines, Pages(mem);
      PagesCoverIff(size);
      for i := 0 to |baselines|
        invariant |baselines| == |bs|
        invariant dirty == Found(bs, pages, strong, i)
        invariant forall k :: 0 <= k < |bs| ==> baselines[k] == if k < i then Refreshed(bs[k], pages(k), strong)
                  else bs[k]
      {
        var page := ReadPage(mem, i);
        assert page == pages(i);
        var a := Adler32(page);
        if a != baselines[i].adler {
          var h := strong(page);
          if h.Some? {
            if h.value == baselines[i].strong {
              baselines := baselines[i := Baseline(a, baselines[i].strong)];
            } else {
              dirty := dirty + [DirtyPage(i, h.value)];
            }
          }
        }
      }
    }

    method UpdateBaseline(pages: seq<DirtyPage>)
      modifies this`baselines
      ensures baselines == Stored(old(baselines), pages)
    {
      ghost var bs := baselines;
      for i := 0 to |pages|
        invariant baselines == Stored(bs, pages[..i])
      {
        assert pages[..i + 1][..i] == pages[..i];
        if pages[i].index < |baselines| {
          baselines := baselines[pages[i].index := Baseline(1, pages[i].strong)];
        }
      }
      assert pages[..|pages|] == pages;
    }
  }

  /** Detect twice, store, detect again on the same memory. */
  method DetectAndStore(t: Tracker, mem: Memory, strong: Strong)
    returns (first: seq<DirtyPage>, again: seq<DirtyPage>, after: seq<DirtyPage>)
    requires |t.baselines| == PageCount(t.size) && t.size < 0x1_0000_0000_0000_0000
    modifies t
    ensures again == first && after == []
  {
    hide Found, Stored, RefreshedAll;
    ghost var bs, pages := t.baselines, t.Pages(mem);
    first := t.Detect(mem, strong);
    FoundAgain(bs, pages, strong, |bs|, |bs|);
    ghost var bs1 := t.baselines;
    again := t.Detect(mem, strong);
    t.UpdateBaseline(again);
    NothingAfterUpdate(bs1, pages, strong, |bs1|);
    after := t.Detect(mem, strong);
  }
}
