/**
 Evacuating young objects into the old generation: how handles, payloads and
 the words of the stack relate before and after objects have moved.
 */
module Evacuation {
  import opened Basics
  import opened HeapTypes
  import opened Handles
  import opened OldGen

  type Payloads = map<Ptr, seq<Byte>>

  /** From the header of a young object to the header of its copy. */
  type Forward = map<Ptr, Ptr>

  function Relocated(fwd: Forward, a: Ptr): Ptr {
    if a in fwd then fwd[a] else a
  }

  ghost predicate LandsOutside(fwd: Forward, young: set<Ptr>) {
    forall a :: a in fwd ==> fwd[a] !in young
  }

  /** Every handle keeps its liveness and follows its object. */
  ghost predicate HandlesFollow(t0: Table, t: Table, fwd: Forward) {
    && |t.handles| == |t0.handles| && t.free == t0.free
    && forall h :: 0 <= h < |t.handles| ==>
         && t.handles[h].live == t0.handles[h].live
         && (t.handles[h].live ==> t.handles[h].addr == Relocated(fwd, t0.handles[h].addr))
  }

  /** Copies are live slots that begin with the bytes of the original. */
  ghost predicate CopiesOk(pay0: Payloads, hs: Headers, pay: Payloads, fwd: Forward) {
    forall a :: a in fwd ==>
      && a in pay0 && fwd[a] in hs && hs[fwd[a]].color != Dead
      && fwd[a] in pay && pay0[a] <= pay[fwd[a]]
  }

  /** Objects that did not move are as they were, and there are no others but copies. */
  ghost predicate OthersKept(pay0: Payloads, hs0: Headers, hs: Headers, pay: Payloads, fwd: Forward) {
    && (forall p :: p in hs0 && hs0[p].color != Dead ==>
          p in hs && hs[p] == hs0[p] && p in pay0 && p in pay && pay[p] == pay0[p])
    && (forall a :: a in fwd ==> fwd[a] !in hs0 || hs0[fwd[a]].color == Dead)
    && (forall p :: p in hs && hs[p].color != Dead ==> (p in hs0 && hs0[p].color != Dead) || p in fwd.Values)
  }

  /** Young objects keep their size, and their bytes until they move: then the first
      bytes make way for the forwarding pointer. */
  ghost predicate YoungKept(young: set<Ptr>, pay0: Payloads, pay: Payloads, fwd: Forward) {
    forall a :: a in young ==>
      a in pay0 && a in pay && |pay[a]| == |pay0[a]| && (a !in fwd ==> pay[a] == pay0[a])
  }

  ghost predicate Evacuated(t0: Table, young: set<Ptr>, pay0: Payloads, hs0: Headers,
                            t: Table, hs: Headers, pay: Payloads, fwd: Forward)
  {
    && HandlesFollow(t0, t, fwd)
    && CopiesOk(pay0, hs, pay, fwd)
    && OthersKept(pay0, hs0, hs, pay, fwd)
    && YoungKept(young, pay0, pay, fwd)
    && fwd.Keys <= young
  }

  lemma EvacuationBegins(t: Table, young: set<Ptr>, pay: Payloads, hs: Headers)
    requires forall a :: a in young ==> a in pay
    requires forall p :: p in hs && hs[p].color != Dead ==> p in pay
    ensures Evacuated(t, young, pay, hs, t, hs, pay, map[])
  {
  }

  // ----- the forwarding pointer -----

  /** The eight bytes of a pointer, low byte first. */
  function PtrBytes(v: Ptr): (s: seq<Byte>)
    ensures |s| == 8
  {
    ToBytes(v, 8)
  }

  /** What is left of a payload once the forwarding pointer v is written over it. */
  function Stamped(p: seq<Byte>, v: Ptr): (s: seq<Byte>)
    ensures |s| == |p| && forall i :: 0 <= i < |p| ==> s[i] == if i < 8 then ToBytes(v, 8)[i] else p[i]
  {
    if |p| <= 8 then PtrBytes(v)[..|p|] else PtrBytes(v) + p[8..]
  }

  /** One call of do_evacuate that found room at raw. */
  lemma EvacuateOne(t0: Table, young: set<Ptr>, pay0: Payloads, hs0: Headers,
                    t: Table, hs: Headers, pay: Payloads, fwd: Forward,
                    h: Handle, raw: Ptr, hdr: Header, copy: seq<Byte>, left: seq<Byte>)
    requires young !! hs.Keys
    requires Evacuated(t0, young, pay0, hs0, t, hs, pay, fwd) && Inv(t0) && Inv(t)
    requires IsLiveHandle(t, h) && t.handles[h].addr in young && t.handles[h].addr !in fwd
    requires hdr.color != Dead && raw !in young && (raw in hs ==> hs[raw].color == Dead)
    requires LandsOutside(fwd, young)
    requires pay[t.handles[h].addr] <= copy && |left| == |pay[t.handles[h].addr]|
    ensures var a := t.handles[h].addr;
            Evacuated(t0, young, pay0, hs0, Move(t, h, raw), hs[raw := hdr], pay[raw := copy][a := left], fwd[a := raw])
  {
    hide Inv;
    var a := t.handles[h].addr;
    SourceOf(t0, t, fwd, young, h);
    FollowOne(t0, t, fwd, h, a, raw);
    assert CopiesOk(pay0, hs[raw := hdr], pay[raw := copy][a := left], fwd[a := raw]);
    OthersKeptOne(young, pay0, hs0, hs, pay, fwd, a, raw, hdr, copy, left);
  }

  lemma OthersKeptOne(young: set<Ptr>, pay0: Payloads, hs0: Headers, hs: Headers, pay: Payloads, fwd: Forward,
                      a: Ptr, raw: Ptr, hdr: Header, copy: seq<Byte>, left: seq<Byte>)
    requires young !! hs.Keys && a in young && a !in fwd && (raw in hs ==> hs[raw].color == Dead)
    requires OthersKept(pay0, hs0, hs, pay, fwd)
    ensures OthersKept(pay0, hs0, hs[raw := hdr], pay[raw := copy][a := left], fwd[a := raw])
  {
    var fwd' := fwd[a := raw];
    forall p | p in fwd.Values + {raw} ensures p in fwd'.Values {
      if p != raw {
        var b :| b in fwd && fwd[b] == p;
        assert fwd'[b] == p;
      } else {
        assert fwd'[a] == p;
      }
    }
  }

  /** A handle whose object is still young has not moved. */
  lemma SourceOf(t0: Table, t: Table, fwd: Forward, young: set<Ptr>, h: Handle)
    requires HandlesFollow(t0, t, fwd) && IsLiveHandle(t, h) && t.handles[h].addr in young && LandsOutside(fwd, young)
    ensures IsLiveHandle(t0, h) && t0.handles[h].addr == t.handles[h].addr && t.handles[h].addr !in fwd
  {
  }

  lemma FollowOne(t0: Table, t: Table, fwd: Forward, h: Handle, a: Ptr, raw: Ptr)
    requires HandlesFollow(t0, t, fwd) && Inv(t0)
    requires IsLiveHandle(t, h) && a == t.handles[h].addr == t0.handles[h].addr && a !in fwd
    ensures HandlesFollow(t0, Move(t, h, raw), fwd[a := raw])
  {
    hide EntriesOk, FreeOk, PtrsOk;
    var t' := Move(t, h, raw);
    forall g | 0 <= g < |t'.handles| && t'.handles[g].live
      ensures t'.handles[g].addr == Relocated(fwd[a := raw], t0.handles[g].addr)
    {
      if g != h { LiveHandlesDistinct(t0, g, h); }
    }
  }

  // ----- killing the handles of objects left behind -----

  /** The handles of dead became free, the others are as they were. */
  ghost predicate KilledExactly(t0: Table, t: Table, dead: set<Handle>) {
    && |t.handles| == |t0.handles|
    && forall h :: 0 <= h < |t.handles| ==>
         if h in dead then !t.handles[h].live else t.handles[h] == t0.handles[h]
  }

  // ----- forwarding the words of the stack and the registers -----

  /** The collector's forward table leads from payload to payload. */
  ghost predicate Tabled(table: map<Ptr, Ptr>, fwd: Forward) {
    forall v :: (v in table <==> v >= HEADER && v - HEADER in fwd) &&
                (v in table ==> table[v] == fwd[v - HEADER] + HEADER)
  }

  /** The test of update_stack_forwards on one word. */
  function ForwardWord(table: map<Ptr, Ptr>, v: nat): nat {
    if v == 0 || v < 256 then v else if v in table then table[v] else v
  }
}
