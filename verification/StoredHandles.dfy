/**
 Handles stored in objects: which bytes of a payload are a reference, and what a
 collection does with the objects that chains of such references lead to.
 */
module StoredHandles {
  import opened Basics
  import opened HeapTypes
  import opened Handles
  import opened OldGen
  import opened Reachability
  import opened Evacuation
  import opened TraceOrder
  import opened GcHeap
  import opened HeapRuns

  /** A payload names an object exactly if the four bytes of a live handle of that object,
      the lowest first, stand in it at a multiple of four. */
  lemma RefersIff(t: Table, p: seq<Byte>, b: Ptr)
    requires Inv(t)
    ensures Refers(t, p, b) <==> exists k, h :: HandleAt(p, k, h) && IsLiveHandle(t, h) && AddrOf(t, h) == b
  {
    hide Inv, WordAt, HandleAt;
    if Refers(t, p, b) {
      var k :| 0 <= k < |p| / 4 && RefersAt(t, p, k, b);
      WordIsHandle(p, k, WordAt(p, k));
      assert HandleAt(p, k, WordAt(p, k)) && IsLiveHandle(t, WordAt(p, k)) && AddrOf(t, WordAt(p, k)) == b;
    }
    if k, h :| HandleAt(p, k, h) && IsLiveHandle(t, h) && AddrOf(t, h) == b {
      StoredRefers(t, p, k, h);
    }
  }

  lemma StoredRefers(t: Table, p: seq<Byte>, k: nat, h: Handle)
    requires HandleAt(p, k, h) && IsLiveHandle(t, h) && Inv(t)
    ensures Refers(t, p, AddrOf(t, h))
  {
    hide Inv, WordAt;
    NullNamesNothing(t);
    WordIsHandle(p, k, h);
    assert RefersAt(t, p, k, AddrOf(t, h));
  }

  // ----- chains -----

  /** Live handles, the first one of the roots, each stored in the object of the one before
      it; the first object is one of first, the others of inner. */
  ghost predicate HandleChain(t: Table, pay: Payloads, first: set<Ptr>, inner: set<Ptr>, roots: seq<Handle>,
                              hs: seq<Handle>, ks: seq<nat>) {
    && |hs| == |ks| + 1 && hs[0] in roots && AddrOf(t, hs[0]) in first
    && (forall i :: 0 <= i < |hs| ==> IsLiveHandle(t, hs[i]))
    && (forall i :: 0 < i < |hs| ==> AddrOf(t, hs[i]) in inner)
    && (forall i :: 0 <= i < |ks| ==> AddrOf(t, hs[i]) in pay && HandleAt(pay[AddrOf(t, hs[i])], ks[i], hs[i + 1]))
  }

  ghost predicate LedTo(t: Table, pay: Payloads, first: set<Ptr>, inner: set<Ptr>, roots: seq<Handle>, a: Ptr) {
    exists hs, ks :: HandleChain(t, pay, first, inner, roots, hs, ks) && AddrOf(t, hs[|hs| - 1]) == a
  }

  /** What the graph of references reaches is what such chains lead to. */
  lemma ReachIffLedTo(t: Table, pay: Payloads, first: set<Ptr>, inner: set<Ptr>, roots: seq<Handle>, a: Ptr)
    requires Inv(t)
    ensures Reach(RefGraph(t, pay, inner), RootAddrs(t, roots, first), a) <==> LedTo(t, pay, first, inner, roots, a)
  {
    hide Inv, RefGraph, RootAddrs, HandleAt;
    if Reach(RefGraph(t, pay, inner), RootAddrs(t, roots, first), a) {
      var path :| IsPath(RefGraph(t, pay, inner), RootAddrs(t, roots, first), path) && path[|path| - 1] == a;
      PathIsLed(t, pay, first, inner, roots, path);
    }
    if hs, ks :| HandleChain(t, pay, first, inner, roots, hs, ks) && AddrOf(t, hs[|hs| - 1]) == a {
      ChainReaches(t, pay, first, inner, roots, hs, ks);
    }
  }

  lemma {:induction false} ChainReaches(t: Table, pay: Payloads, first: set<Ptr>, inner: set<Ptr>, roots: seq<Handle>,
                                        hs: seq<Handle>, ks: seq<nat>)
    requires Inv(t) && HandleChain(t, pay, first, inner, roots, hs, ks)
    ensures Reach(RefGraph(t, pay, inner), RootAddrs(t, roots, first), AddrOf(t, hs[|hs| - 1]))
    decreases |hs|
  {
    hide Inv, Reach, HandleAt, Refers;
    var g, start := RefGraph(t, pay, inner), RootAddrs(t, roots, first);
    if |ks| == 0 {
      var i :| 0 <= i < |roots| && roots[i] == hs[0];
      assert AddrOf(t, roots[i]) in start;
      ReachRoot(g, start, AddrOf(t, hs[0]));
    } else {
      var n := |ks| - 1;
      ChainReaches(t, pay, first, inner, roots, hs[..n + 1], ks[..n]);
      StoredRefers(t, pay[AddrOf(t, hs[n])], ks[n], hs[n + 1]);
      ReachStep(g, start, AddrOf(t, hs[n]), AddrOf(t, hs[n + 1]));
    }
  }

  lemma {:induction false} PathIsLed(t: Table, pay: Payloads, first: set<Ptr>, inner: set<Ptr>, roots: seq<Handle>,
                                     path: seq<Ptr>)
    requires Inv(t) && IsPath(RefGraph(t, pay, inner), RootAddrs(t, roots, first), path)
    ensures LedTo(t, pay, first, inner, roots, path[|path| - 1])
    decreases |path|
  {
    hide Inv, HandleAt, HandleChain;
    var n := |path| - 1;
    if n == 0 {
      RootIsLed(t, pay, first, inner, roots, path[0]);
    } else {
      PathIsLed(t, pay, first, inner, roots, path[..n]);
      assert path[n - 1 + 1] in Succ(RefGraph(t, pay, inner), path[n - 1]);
      LedOn(t, pay, first, inner, roots, path[n - 1], path[n]);
    }
  }

  lemma RootIsLed(t: Table, pay: Payloads, first: set<Ptr>, inner: set<Ptr>, roots: seq<Handle>, a: Ptr)
    requires a in RootAddrs(t, roots, first)
    ensures LedTo(t, pay, first, inner, roots, a)
  {
    var i :| 0 <= i < |roots| && IsLiveHandle(t, roots[i]) && AddrOf(t, roots[i]) in first && AddrOf(t, roots[i]) == a;
    var hs, ks: seq<nat> := [roots[i]], [];
    assert HandleChain(t, pay, first, inner, roots, hs, ks);
  }

  lemma LedOn(t: Table, pay: Payloads, first: set<Ptr>, inner: set<Ptr>, roots: seq<Handle>, a: Ptr, b: Ptr)
    requires Inv(t) && LedTo(t, pay, first, inner, roots, a) && b in Succ(RefGraph(t, pay, inner), a)
    ensures LedTo(t, pay, first, inner, roots, b)
  {
    hide Inv, HandleAt;
    var hs, ks :| HandleChain(t, pay, first, inner, roots, hs, ks) && AddrOf(t, hs[|hs| - 1]) == a;
    RefersIff(t, pay[a], b);
    var k, h :| HandleAt(pay[a], k, h) && IsLiveHandle(t, h) && AddrOf(t, h) == b;
    var hs', ks' := hs + [h], ks + [k];
    assert HandleChain(t, pay, first, inner, roots, hs', ks');
  }

  // ----- collections -----

  /** An old object survives a major collection exactly if such a chain of old objects leads
      to it from the roots. */
  lemma SurvivesIffLedTo(s: Shot, roots: seq<Handle>, s': Shot, p: Ptr)
    requires Inv(s.t) && MajorDone(s, roots, s')
    ensures p in LiveSlots(s'.hs) <==>
              && p in LiveSlots(s.hs)
              && LedTo(s.t, s.pay, LiveSlots(s.hs) + WhiteYoung(s.ys), LiveSlots(s.hs), roots, p)
  {
    hide Inv, Reach, LedTo, RefGraph, RootAddrs, Survived, SweptWeak;
    ReachIffLedTo(s.t, s.pay, LiveSlots(s.hs) + WhiteYoung(s.ys), LiveSlots(s.hs), roots, p);
  }

  function InsideOf(pay: Payloads, young: set<Ptr>): Payloads { map b | b in pay && b in young :: pay[b] }

  /** The roots reach a young object exactly if such a chain of young objects leads to it. */
  lemma YoungReachIffLedTo(t: Table, pay: Payloads, young: set<Ptr>, roots: seq<Handle>, a: Ptr)
    requires Inv(t)
    ensures YoungReach(t, pay, young, roots, a) <==> LedTo(t, InsideOf(pay, young), young, young, roots, a)
  {
    hide Inv, Reach, LedTo, RefGraph, RootAddrs;
    ReachIffLedTo(t, InsideOf(pay, young), young, young, roots, a);
  }

  /** A remembered old object names a young one exactly if it holds a handle of it. */
  lemma RememberedIffStored(t: Table, pay: Payloads, hs: Headers, remembered: set<Handle>, young: set<Ptr>, b: Ptr)
    requires Inv(t)
    ensures b in RememberedRefs(t, pay, hs, remembered, young) <==>
              b in young && exists q, k, h :: Stored(t, pay, hs, remembered, q, k, h) && AddrOf(t, h) == b
  {
    hide Inv, HandleAt;
    if b in RememberedRefs(t, pay, hs, remembered, young) {
      var q :| q in remembered && RememberedRefersTo(t, pay, hs, q, b);
      RefersIff(t, pay[AddrOf(t, q)], b);
      var k, h :| HandleAt(pay[AddrOf(t, q)], k, h) && IsLiveHandle(t, h) && AddrOf(t, h) == b;
      assert Stored(t, pay, hs, remembered, q, k, h);
    }
    if q, k, h :| b in young && Stored(t, pay, hs, remembered, q, k, h) && AddrOf(t, h) == b {
      RefersIff(t, pay[AddrOf(t, q)], b);
      assert RememberedRefersTo(t, pay, hs, q, b);
    }
  }

  ghost predicate Stored(t: Table, pay: Payloads, hs: Headers, remembered: set<Handle>, q: Handle, k: nat, h: Handle) {
    && q in remembered && IsLiveHandle(t, q) && AddrOf(t, q) in LiveSlots(hs) && AddrOf(t, q) in pay
    && HandleAt(pay[AddrOf(t, q)], k, h) && IsLiveHandle(t, h)
  }

  // ----- what a program sees -----

  /** Handles of the program, the first one a root, each stored in the bytes of the object
      before it; all objects but the last are young. */
  ghost predicate ProgramChain(s: Shot, m: Objects, roots: seq<Handle>, hs: seq<Handle>, ks: seq<nat>) {
    && |hs| == |ks| + 1 && hs[0] in roots
    && (forall i :: 0 <= i < |hs| ==> hs[i] in m)
    && (forall i :: 0 <= i < |ks| ==> AddrOf(s.t, hs[i]) in s.ys && HandleAt(m[hs[i]], ks[i], hs[i + 1]))
  }

  /** A longer payload holds what its beginning holds. */
  lemma HandleStays(p: seq<Byte>, q: seq<Byte>, k: nat, h: Handle)
    requires p <= q && HandleAt(p, k, h)
    ensures HandleAt(q, k, h)
  {
  }

  lemma ProgramChainKept(s: Shot, m: Objects, roots: seq<Handle>, hs: seq<Handle>, ks: seq<nat>)
    requires Inv(s.t) && Represents(s, m) && ProgramChain(s, m, roots, hs, ks)
    ensures Keeps(s, roots, hs[|hs| - 1])
  {
    hide Inv, HandleAt, RememberedRefs, YoungReach;
    var young, n := s.ys.Keys, |ks|;
    if AddrOf(s.t, hs[n]) in s.ys {
      var pay := InsideOf(s.pay, young);
      forall i | 0 <= i < |ks| ensures AddrOf(s.t, hs[i]) in pay
        && HandleAt(pay[AddrOf(s.t, hs[i])], ks[i], hs[i + 1]) {
        HandleStays(m[hs[i]], s.pay[AddrOf(s.t, hs[i])], ks[i], hs[i + 1]);
      }
      assert HandleChain(s.t, pay, young, young, roots, hs, ks);
      assert LedTo(s.t, pay, young, young, roots, AddrOf(s.t, hs[n]));
      YoungReachIffLedTo(s.t, s.pay, young, roots, AddrOf(s.t, hs[n]));
    }
  }

  /** A collection in order keeps every object that the program can get to from the roots
      through young objects, with its bytes. */
  lemma StoredIsKept(s: Shot, threshold: nat, m: Objects, op: Op, ans: Answer, c: Trail, s': Shot, m': Objects,
                     hs: seq<Handle>, ks: seq<nat>)
    requires Inv(s.t) && Represents(s, m) && Performed(s, threshold, m, op, ans, c, s', m') && Collects(s, op)
    requires ProgramChain(s, m, op.scanned + op.pinned, hs, ks)
    ensures var h := hs[|hs| - 1]; h in m' && m'[h] == m[h]
  {
    hide Inv, Represents, Keeps, HeapRuns.Step, ProgramChain;
    ProgramChainKept(s, m, op.scanned + op.pinned, hs, ks);
    ChainEnds(s, m, op.scanned + op.pinned, hs, ks);
  }

  lemma ChainEnds(s: Shot, m: Objects, roots: seq<Handle>, hs: seq<Handle>, ks: seq<nat>)
    requires ProgramChain(s, m, roots, hs, ks)
    ensures hs[|hs| - 1] in m
  {
  }

  /** So does one whose handle stands in a remembered old object. */
  lemma StoredInRememberedIsKept(s: Shot, threshold: nat, m: Objects, op: Op, ans: Answer, c: Trail, s': Shot,
                                 m': Objects, q: Handle, k: nat, h: Handle)
    requires Inv(s.t) && Represents(s, m) && Performed(s, threshold, m, op, ans, c, s', m') && Collects(s, op)
    requires q in m && q in s.remembered && AddrOf(s.t, q) in LiveSlots(s.hs) && h in m && HandleAt(m[q], k, h)
    ensures h in m' && m'[h] == m[h]
  {
    hide Inv, HeapRuns.Step, HandleAt, RememberedRefs, YoungReach;
    HandleStays(m[q], s.pay[AddrOf(s.t, q)], k, h);
    RememberedIffStored(s.t, s.pay, s.hs, s.remembered, s.ys.Keys, AddrOf(s.t, h));
    assert Stored(s.t, s.pay, s.hs, s.remembered, q, k, h);
    assert Keeps(s, op.scanned + op.pinned, h);
  }
}
