/**
 The order in which a trace meets objects: those of the roots, in the order of the roots,
 then those that their payloads name, word by word, object by object.
 */
module TraceOrder {
  import opened Basics
  import opened HeapTypes
  import opened Handles
  import opened Evacuation

  /** The k-th 32-bit little-endian word of a payload. */
  function WordAt(p: seq<Byte>, k: nat): nat
    requires k < |p| / 4
  {
    p[4 * k] as int + 256 * (p[4 * k + 1] as int) + 65536 * (p[4 * k + 2] as int) + 16777216 * (p[4 * k + 3] as int)
  }

  /** The four bytes of h, the lowest first, stand at word k. */
  predicate HandleAt(p: seq<Byte>, k: nat, h: Handle) {
    && k < |p| / 4
    && p[4 * k] == h % 0x100 && p[4 * k + 1] == h / 0x100 % 0x100
    && p[4 * k + 2] == h / 0x1_0000 % 0x100 && p[4 * k + 3] == h / 0x100_0000
  }

  /** A word is the handle whose bytes stand there. */
  lemma WordIsHandle(p: seq<Byte>, k: nat, h: Handle)
    requires k < |p| / 4
    ensures WordAt(p, k) == h <==> HandleAt(p, k, h)
  {
    var a: nat, b: nat, c: nat, d: nat := p[4 * k], p[4 * k + 1], p[4 * k + 2], p[4 * k + 3];
    assert WordAt(p, k) == a + 256 * b + 65536 * c + 16777216 * d;
    FourBytes(a, b, c, d, WordAt(p, k));
    if HandleAt(p, k, h) { FourDigits(h); }
  }

  lemma FourBytes(a: nat, b: nat, c: nat, d: nat, w: nat)
    requires a < 256 && b < 256 && c < 256 && w == a + 256 * b + 65536 * c + 16777216 * d
    ensures w % 0x100 == a && w / 0x100 % 0x100 == b && w / 0x1_0000 % 0x100 == c && w / 0x100_0000 == d
  {
    assert w / 0x100 == b + 256 * c + 65536 * d;
    assert w / 0x1_0000 == c + 256 * d;
  }

  lemma FourDigits(h: nat)
    ensures h == h % 0x100 + 256 * (h / 0x100 % 0x100) + 65536 * (h / 0x1_0000 % 0x100) + 16777216 * (h / 0x100_0000)
  {
    assert h / 0x100 / 0x100 == h / 0x1_0000 && h / 0x1_0000 / 0x100 == h / 0x100_0000;
  }

  function Words(p: seq<Byte>): (r: seq<nat>)
    ensures |r| == |p| / 4 && forall k :: 0 <= k < |r| ==> r[k] == WordAt(p, k)
  {
    seq(|p| / 4, k requires 0 <= k < |p| / 4 => WordAt(p, k))
  }

  /** The list after a look at h: the object that it names is added, if it is one of
      targets and not yet listed. */
  function Visit(t: Table, targets: set<Ptr>, list: seq<Ptr>, h: Handle): seq<Ptr> {
    if IsLiveHandle(t, h) && AddrOf(t, h) in targets && AddrOf(t, h) !in list then list + [AddrOf(t, h)] else list
  }

  function VisitAll(t: Table, targets: set<Ptr>, list: seq<Ptr>, hs: seq<Handle>): seq<Ptr> {
    if hs == [] then list else Visit(t, targets, VisitAll(t, targets, list, hs[..|hs| - 1]), hs[|hs| - 1])
  }

  /** The list after a look at the words of its i-th object. */
  function Expand(t: Table, pay: Payloads, targets: set<Ptr>, list: seq<Ptr>, i: nat): seq<Ptr>
    requires i < |list|
  {
    if list[i] in pay then VisitAll(t, targets, list, Words(pay[list[i]])) else list
  }

  /** The list when the objects from the i-th on have been looked at, those added in the
      meantime included. */
  function TraceFrom(t: Table, pay: Payloads, targets: set<Ptr>, list: seq<Ptr>, i: nat): seq<Ptr>
    decreases |Unseen(targets, list)|, |list| - i
  {
    if i >= |list| then list
    else
      var more := Expand(t, pay, targets, list, i);
      ExpandGrows(t, pay, targets, list, i);
      FewerUnseen(targets, list, more);
      TraceFrom(t, pay, targets, more, i + 1)
  }

  /** The young objects that the roots reach, in the order in which they are met. */
  function OrderOf(t: Table, pay: Payloads, young: set<Ptr>, roots: seq<Handle>): seq<Ptr> {
    TraceFrom(t, pay, young, VisitAll(t, young, [], roots), 0)
  }

  function Unseen(targets: set<Ptr>, list: seq<Ptr>): set<Ptr> { set a | a in targets && a !in list }

  /** more is list with other objects of targets behind it. */
  ghost predicate Extends(targets: set<Ptr>, list: seq<Ptr>, more: seq<Ptr>) {
    && list <= more && (Distinct(list) ==> Distinct(more))
    && forall j :: |list| <= j < |more| ==> more[j] in targets && more[j] !in list
  }

  lemma {:induction false} VisitAllGrows(t: Table, targets: set<Ptr>, list: seq<Ptr>, hs: seq<Handle>)
    ensures Extends(targets, list, VisitAll(t, targets, list, hs))
  {
    if hs != [] {
      var before := VisitAll(t, targets, list, hs[..|hs| - 1]);
      VisitAllGrows(t, targets, list, hs[..|hs| - 1]);
      VisitGrows(t, targets, before, hs[|hs| - 1]);
    }
  }

  lemma VisitGrows(t: Table, targets: set<Ptr>, list: seq<Ptr>, h: Handle)
    ensures Extends(targets, list, Visit(t, targets, list, h))
  {
  }

  lemma ExpandGrows(t: Table, pay: Payloads, targets: set<Ptr>, list: seq<Ptr>, i: nat)
    requires i < |list|
    ensures Extends(targets, list, Expand(t, pay, targets, list, i))
  {
    if list[i] in pay { VisitAllGrows(t, targets, list, Words(pay[list[i]])); }
  }

  lemma FewerUnseen(targets: set<Ptr>, list: seq<Ptr>, more: seq<Ptr>)
    requires Extends(targets, list, more)
    ensures more == list || |Unseen(targets, more)| < |Unseen(targets, list)|
  {
    if more != list {
      var a := more[|list|];
      assert a in Unseen(targets, list) && a !in Unseen(targets, more);
      SubsetSize(Unseen(targets, more), Unseen(targets, list) - {a});
    }
  }

  lemma {:induction false} TraceGrows(t: Table, pay: Payloads, targets: set<Ptr>, list: seq<Ptr>, i: nat)
    ensures Extends(targets, list, TraceFrom(t, pay, targets, list, i))
    decreases |Unseen(targets, list)|, |list| - i
  {
    if i < |list| {
      var more := Expand(t, pay, targets, list, i);
      ExpandGrows(t, pay, targets, list, i);
      FewerUnseen(targets, list, more);
      TraceGrows(t, pay, targets, more, i + 1);
    }
  }

  /** Each object once, and young. */
  lemma OrderWithin(t: Table, pay: Payloads, young: set<Ptr>, roots: seq<Handle>)
    ensures var order := OrderOf(t, pay, young, roots); Distinct(order) && forall a :: a in order ==> a in young
  {
    var first := VisitAll(t, young, [], roots);
    VisitAllGrows(t, young, [], roots);
    TraceGrows(t, pay, young, first, 0);
  }

  /** The object of the first root comes first. */
  lemma OrderFirst(t: Table, pay: Payloads, young: set<Ptr>, roots: seq<Handle>)
    requires roots != [] && IsLiveHandle(t, roots[0]) && AddrOf(t, roots[0]) in young
    ensures var order := OrderOf(t, pay, young, roots); order != [] && order[0] == AddrOf(t, roots[0])
  {
    VisitAllSplit(t, young, [], roots[..1], roots[1..]);
    assert roots == roots[..1] + roots[1..] && roots[..1] == [roots[0]];
    assert [roots[0]][..0] == [];
    var start := VisitAll(t, young, [], roots[..1]);
    assert start == [AddrOf(t, roots[0])];
    VisitAllGrows(t, young, start, roots[1..]);
    TraceGrows(t, pay, young, VisitAll(t, young, [], roots), 0);
  }

  lemma {:induction false} VisitAllSplit(t: Table, targets: set<Ptr>, list: seq<Ptr>, hs: seq<Handle>, gs: seq<Handle>)
    ensures VisitAll(t, targets, list, hs + gs) == VisitAll(t, targets, VisitAll(t, targets, list, hs), gs)
  {
    if gs == [] {
      assert hs + gs == hs;
    } else {
      var all := hs + gs;
      assert all[..|all| - 1] == hs + gs[..|gs| - 1] && all[|all| - 1] == gs[|gs| - 1];
      VisitAllSplit(t, targets, list, hs, gs[..|gs| - 1]);
    }
  }

  /** One more handle of a list. */
  lemma VisitNext(t: Table, targets: set<Ptr>, list: seq<Ptr>, hs: seq<Handle>, i: nat)
    requires i < |hs|
    ensures VisitAll(t, targets, list, hs[..i + 1]) == Visit(t, targets, VisitAll(t, targets, list, hs[..i]), hs[i])
  {
    assert hs[..i + 1][..i] == hs[..i];
  }

  lemma TraceNext(t: Table, pay: Payloads, targets: set<Ptr>, list: seq<Ptr>, i: nat)
    requires i < |list|
    ensures TraceFrom(t, pay, targets, list, i) == TraceFrom(t, pay, targets, Expand(t, pay, targets, list, i), i + 1)
  {
  }

  // ----- a trace that also meets other objects -----

  /** The objects of list that are young, in order. */
  function Within(list: seq<Ptr>, young: set<Ptr>): seq<Ptr> {
    if list == [] then []
    else Within(list[..|list| - 1], young) + if list[|list| - 1] in young then [list[|list| - 1]] else []
  }

  lemma {:induction false} WithinHas(list: seq<Ptr>, young: set<Ptr>, a: Ptr)
    ensures a in Within(list, young) <==> a in list && a in young
  {
    if list != [] {
      assert list == list[..|list| - 1] + [list[|list| - 1]];
      WithinHas(list[..|list| - 1], young, a);
    }
  }

  lemma {:induction false} WithinPrefix(list: seq<Ptr>, young: set<Ptr>, i: nat)
    requires i <= |list|
    ensures Within(list[..i], young) <= Within(list, young)
  {
    if i == |list| {
      assert list[..i] == list;
    } else {
      WithinPrefix(list[..|list| - 1], young, i);
      assert list[..|list| - 1][..i] == list[..i];
    }
  }

  lemma WithinNext(list: seq<Ptr>, young: set<Ptr>, i: nat)
    requires i < |list|
    ensures Within(list[..i + 1], young) == Within(list[..i], young) + if list[i] in young then [list[i]] else []
  {
    assert list[..i + 1][..i] == list[..i];
  }

  /** The young objects that live handles name are among targets. */
  ghost predicate Covers(t: Table, young: set<Ptr>, targets: set<Ptr>) {
    forall h :: IsLiveHandle(t, h) && AddrOf(t, h) in young ==> AddrOf(t, h) in targets
  }

  lemma WithinVisit(t: Table, targets: set<Ptr>, young: set<Ptr>, list: seq<Ptr>, h: Handle)
    requires Covers(t, young, targets)
    ensures Within(Visit(t, targets, list, h), young) == Visit(t, young, Within(list, young), h)
  {
    WithinHas(list, young, AddrOf(t, h));
    assert (list + [AddrOf(t, h)])[..|list|] == list;
  }

  lemma {:induction false} WithinVisitAll(t: Table, targets: set<Ptr>, young: set<Ptr>, list: seq<Ptr>, hs: seq<Handle>)
    requires Covers(t, young, targets)
    ensures Within(VisitAll(t, targets, list, hs), young) == VisitAll(t, young, Within(list, young), hs)
  {
    if hs != [] {
      WithinVisitAll(t, targets, young, list, hs[..|hs| - 1]);
      WithinVisit(t, targets, young, VisitAll(t, targets, list, hs[..|hs| - 1]), hs[|hs| - 1]);
    }
  }

  /** A trace that looks into young objects only meets them in the same order, whatever
      else is on its list. */
  lemma {:induction false} WithinTrace(t: Table, pay: Payloads, inside: Payloads, targets: set<Ptr>, young: set<Ptr>,
                                       list: seq<Ptr>, i: nat)
    requires Covers(t, young, targets) && i <= |list|
    requires inside == map a | a in pay && a in young :: pay[a]
    ensures Within(TraceFrom(t, inside, targets, list, i), young) ==
            TraceFrom(t, pay, young, Within(list, young), |Within(list[..i], young)|)
    decreases |Unseen(targets, list)|, |list| - i
  {
    hide Covers, Within, Expand, Unseen;
    if i == |list| {
      assert list[..i] == list;
    } else {
      var more := Expand(t, inside, targets, list, i);
      ExpandGrows(t, inside, targets, list, i);
      FewerUnseen(targets, list, more);
      WithinTrace(t, pay, inside, targets, young, more, i + 1);
      WithinNext(list, young, i);
      assert more[..i + 1] == list[..i + 1];
      WithinExpand(t, pay, inside, targets, young, list, i);
      TraceNext(t, inside, targets, list, i);
      if list[i] in young {
        AtWithin(list, young, i);
        TraceNext(t, pay, young, Within(list, young), |Within(list[..i], young)|);
      }
    }
  }

  lemma WithinExpand(t: Table, pay: Payloads, inside: Payloads, targets: set<Ptr>, young: set<Ptr>, list: seq<Ptr>,
                     i: nat)
    requires Covers(t, young, targets) && i < |list|
    requires inside == map a | a in pay && a in young :: pay[a]
    ensures var met, k := Within(list, young), |Within(list[..i], young)|;
            Within(Expand(t, inside, targets, list, i), young) ==
            if list[i] !in young then met
              else assert k < |met| by { AtWithin(list, young, i); } Expand(t, pay, young, met, k)
  {
    hide Covers, Within, VisitAll;
    if list[i] in young { AtWithin(list, young, i); }
    if list[i] in inside { WithinVisitAll(t, targets, young, list, Words(pay[list[i]])); }
  }

  lemma AtWithin(list: seq<Ptr>, young: set<Ptr>, i: nat)
    requires i < |list| && list[i] in young
    ensures var k := |Within(list[..i], young)|; k < |Within(list, young)| && Within(list, young)[k] == list[i]
  {
    hide Within;
    WithinNext(list, young, i);
    WithinPrefix(list, young, i + 1);
  }

  /** The list that a trace of the nursery makes: first the objects of the roots, of either
      generation, then the young objects of the pinned handles. */
  lemma ListIsOrder(t: Table, pay: Payloads, inside: Payloads, white: set<Ptr>, targets: set<Ptr>, young: set<Ptr>,
                    scanned: seq<Handle>, pinned: seq<Handle>)
    requires Covers(t, young, white) && Covers(t, young, targets)
    requires inside == map a | a in pay && a in young :: pay[a]
    ensures var start := VisitAll(t, targets, VisitAll(t, white, [], scanned), pinned);
            Within(TraceFrom(t, inside, targets, start, 0), young) == OrderOf(t, pay, young, scanned + pinned)
  {
    var roots := VisitAll(t, white, [], scanned);
    var start := VisitAll(t, targets, roots, pinned);
    WithinVisitAll(t, white, young, [], scanned);
    WithinVisitAll(t, targets, young, roots, pinned);
    VisitAllSplit(t, young, [], scanned, pinned);
    WithinTrace(t, pay, inside, targets, young, start, 0);
    assert start[..0] == [];
  }
}
