/**
 What a program holds besides handles, over whole runs: the words of its stack and its
 registers, which follow the objects whose payload addresses they are, and its weak
 references.
 */
module HeapReferences {
  import opened Basics
  import opened HeapTypes
  import opened Handles
  import opened OldGen
  import opened Evacuation
  import opened GcHeap
  import opened HeapRuns

  // ----- words -----

  /** A place that holds a word of the program. */
  datatype Place = Register(i: nat) | StackSlot(i: nat)

  predicate HasPlace(s: Shot, w: Place) {
    match w
    case Register(i) => i < |s.regs|
    case StackSlot(i) => i < |s.stack|
  }

  function WordAt(s: Shot, w: Place): nat
    requires HasPlace(s, w)
  {
    match w
    case Register(i) => s.regs[i]
    case StackSlot(i) => s.stack[i]
  }

  /** The place holds the payload address of the object of h. */
  predicate Holds(s: Shot, w: Place, h: Handle) {
    HasPlace(s, w) && IsLiveHandle(s.t, h) && WordAt(s, w) == Deref(s.t, h)
  }

  /** Collections look at the place: registers always, the stack while it is small. */
  predicate Scanned(s: Shot, w: Place) { w.StackSlot? ==> 8 * |s.stack| < STACK_LIMIT }

  /** The program writes the place itself. */
  predicate Overwrites(op: Op, w: Place) {
    match op
    case RegisterOp(i, _) => w == Register(i)
    case StackOp(_) => w.StackSlot?
    case _ => false
  }

  /** The handle is handed out for a new object. */
  predicate Renews(ans: Answer, h: Handle) { ans.Allocated? && ans.h == h }

  /** A collection moves words and objects alike. */
  lemma CollectFollows(s: Shot, young: seq<Handle>, roots: seq<Handle>, threshold: nat, c: Trail, h: Handle, w: Place)
    requires CollectDone(s, young, roots, threshold, c, Clean) && Holds(s, w, h) && IsLiveHandle(c.after.t, h)
    ensures HasPlace(c.after, w) && |c.after.stack| == |s.stack|
    ensures Scanned(s, w) ==> Holds(c.after, w, h)
    ensures !Scanned(s, w) ==> (Holds(c.after, w, h) <==> AddrOf(s.t, h) !in c.fwd)
  {
    hide YoungFate, Survivors, CopiesOk, SlotsKept, MovesOk, Short, LeavesNursery, ForwardedWord, ReachesAll, LiveBytes,
         Collected, Survived;
    assert c.lost == {};
    WordFollowsHandle(s.t, s.ys.Keys, s.pay, young, c.mid.t, c.fwd, h, s.base, s.end);
  }

  /** The objects that were there before an allocation stay where they are. */
  lemma RequestFollows(s: Shot, size: nat, g: Handle, s': Shot, h: Handle)
    requires Requested(s, size, g, s') && IsLiveHandle(s'.t, h) && h != g
    ensures s'.regs == s.regs && s'.stack == s.stack && s'.weak == s.weak
    ensures IsLiveHandle(s.t, h) && AddrOf(s'.t, h) == AddrOf(s.t, h)
    ensures Inv(s'.t) ==> Inv(s.t)
    ensures AddrOf(s'.t, h) in s'.pay ==> AddrOf(s.t, h) in s.pay
  {
    hide TooLarge, Zeros, LiveSlots, Inv, New, Young, Old;
    if g != NULL_HANDLE {
      var raw :| NewObject(s, g, size, raw, s');
      OthersStay(s.t, raw, h);
    }
  }

  /** One operation: a word that the program does not write follows its object. */
  lemma StepFollows(s: Shot, threshold: nat, op: Op, ans: Answer, c: Trail, s': Shot, h: Handle, w: Place)
    requires HeapRuns.Step(s, threshold, op, ans, c, s') && Holds(s, w, h) && Scanned(s, w)
    requires IsLiveHandle(s'.t, h) && !Overwrites(op, w) && !Renews(ans, h)
    ensures Holds(s', w, h) && Scanned(s', w)
  {
    hide CollectDone, MajorDone, ReachesAll, Requested, RoundUp8, Release, RefAdded, RefReleased, Written;
    match op
    case AllocOp(size, scanned, pinned, roots) =>
      RequestFollows(c.after, size, ans.h, s', h);
      if Collects(s, op) { CollectFollows(s, scanned + pinned, roots, threshold, c, h, w); }
    case PinnedOp(size) => RequestFollows(s, size, ans.h, s', h);
    case CollectOp(scanned, pinned, roots) => CollectFollows(s, scanned + pinned, roots, threshold, c, h, w);
    case MajorOp(roots) => MajorKeepsWords(s, roots, s');
    case DropOp(g) => DropKeepsPlace(s.t, s.ext, g, h);
    case _ =>
  }

  lemma MajorKeepsWords(s: Shot, roots: seq<Handle>, s': Shot)
    requires MajorDone(s, roots, s')
    ensures s'.t == s.t && s'.regs == s.regs && s'.stack == s.stack && s'.weak == SweptWeak(s.weak, s.t, s'.hs)
    ensures s'.pay == Survived(s.pay, s'.hs)
  {
  }

  lemma DropKeepsPlace(t: Table, ext: map<Handle, nat>, g: Handle, h: Handle)
    requires IsLiveHandle(Release(t, ext, g), h)
    ensures IsLiveHandle(t, h) && AddrOf(Release(t, ext, g), h) == AddrOf(t, h)
  {
  }

  /** Over every run: while the program keeps an object and does not write the place, the
      word there is the payload address of that object, wherever collections move it. */
  lemma {:induction false} RunFollows(log: Log, threshold: nat, ops: seq<Op>, answers: seq<Answer>, n: nat, i: nat,
                                      j: nat,
                                      h: Handle, w: Place)
    requires Logged(log, threshold, ops, answers, n) && i <= j <= n
    requires Holds(log.shots[i], w, h) && Scanned(log.shots[i], w)
    requires forall k :: i < k <= j ==> h in log.ms[k]
    requires forall k :: i <= k < j ==> !Overwrites(ops[k], w) && !Renews(answers[k], h)
    ensures Holds(log.shots[j], w, h) && Scanned(log.shots[j], w)
  {
    hide Performed, Represents, Inv, Holds, Scanned, Overwrites, Renews;
    if i < j {
      RunFollows(log, threshold, ops, answers, n, i, j - 1, h, w);
      var k := j - 1;
      assert Represents(log.shots[k + 1], log.ms[k + 1]);
      RepresentedIsLive(log.shots[k + 1], log.ms[k + 1], h);
      PerformedSteps(log.shots[k], threshold, log.ms[k], ops[k], answers[k], log.trails[k], log.shots[k + 1],
                     log.ms[k + 1]);
      StepFollows(log.shots[k], threshold, ops[k], answers[k], log.trails[k], log.shots[k + 1], h, w);
    }
  }

  lemma RepresentedIsLive(s: Shot, m: Objects, h: Handle)
    requires Represents(s, m)
    ensures h in m <==> IsLiveHandle(s.t, h)
    ensures h in m ==> AddrOf(s.t, h) in s.pay
  {
  }

  lemma PerformedSteps(s: Shot, threshold: nat, m: Objects, op: Op, ans: Answer, c: Trail, s': Shot, m': Objects)
    requires Performed(s, threshold, m, op, ans, c, s', m')
    ensures HeapRuns.Step(s, threshold, op, ans, c, s') && Right(s, m, op, ans)
  {
    hide HeapRuns.Step, Right, Represents, HeapRuns.Next;
  }

  // ----- weak references -----

  /** Entry idx is in use and names h. */
  predicate Names(s: Shot, idx: nat, h: Handle) { idx < |s.weak| && s.weak[idx] == WeakEntry(h, true) }

  /** A sweep keeps the entry of a handle with an object. */
  lemma MajorKeepsName(s: Shot, roots: seq<Handle>, s': Shot, idx: nat, h: Handle)
    requires MajorDone(s, roots, s') && Names(s, idx, h) && Inv(s.t) && IsLiveHandle(s.t, h) && AddrOf(s.t, h) in s'.pay
    ensures Names(s', idx, h)
  {
    hide Collected;
  }

  lemma CollectKeepsName(s: Shot, young: seq<Handle>, roots: seq<Handle>, threshold: nat, c: Trail, idx: nat, h: Handle)
    requires CollectDone(s, young, roots, threshold, c, Clean) && Names(s, idx, h)
    requires Inv(c.after.t) && IsLiveHandle(c.after.t, h) && AddrOf(c.after.t, h) in c.after.pay
    ensures Names(c.after, idx, h)
  {
    hide YoungFate, Survivors, CopiesOk, SlotsKept, MovesOk, Short, LeavesNursery, WordsForwarded, ReachesAll,
         LiveBytes, Collected, MajorDone, Inv;
    assert c.lost == {} && c.mid.weak == s.weak;
    if LiveBytes(c.mid.hs) >= threshold {
      MajorKeepsWords(c.mid, roots, c.after);
      MajorKeepsName(c.mid, roots, c.after, idx, h);
    }
  }

  /** One operation: the entry of an object that stays is kept until the program frees it. */
  lemma StepKeepsName(s: Shot, threshold: nat, m: Objects, op: Op, ans: Answer, c: Trail, s': Shot, idx: nat, h: Handle)
    requires HeapRuns.Step(s, threshold, op, ans, c, s') && Right(s, m, op, ans) && Names(s, idx, h) && Inv(s'.t)
    requires IsLiveHandle(s'.t, h) && AddrOf(s'.t, h) in s'.pay && !Renews(ans, h) && op != FreeWeakOp(idx)
    ensures Names(s', idx, h)
  {
    hide CollectDone, MajorDone, ReachesAll, Requested, RoundUp8, Release, RefAdded, RefReleased, Written, Inv,
         KeepsExactly, Restrict;
    match op
    case AllocOp(size, scanned, pinned, roots) =>
      RequestFollows(c.after, size, ans.h, s', h);
      if Collects(s, op) { CollectKeepsName(s, scanned + pinned, roots, threshold, c, idx, h); }
    case PinnedOp(size) => RequestFollows(s, size, ans.h, s', h);
    case CollectOp(scanned, pinned, roots) => CollectKeepsName(s, scanned + pinned, roots, threshold, c, idx, h);
    case MajorOp(roots) =>
      MajorKeepsWords(s, roots, s');
      MajorKeepsName(s, roots, s', idx, h);
    case _ =>
  }

  /** Over every run: while the program keeps an object, its weak reference names it until
      it is freed, and says so when asked. */
  lemma {:induction false} RunKeepsName(log: Log, threshold: nat, ops: seq<Op>, answers: seq<Answer>, n: nat, i: nat,
                                        j: nat,
                                        idx: nat, h: Handle)
    requires Logged(log, threshold, ops, answers, n) && i <= j <= n && Names(log.shots[i], idx, h)
    requires forall k :: i < k <= j ==> h in log.ms[k]
    requires forall k :: i <= k < j ==> ops[k] != FreeWeakOp(idx) && !Renews(answers[k], h)
    ensures Names(log.shots[j], idx, h)
    ensures j < n && ops[j] == DerefWeakOp(idx) ==> answers[j] == WeakIs(h)
  {
    hide Performed, Represents, Inv, Names, Renews, HeapRuns.Step, Right;
    if i < j {
      RunKeepsName(log, threshold, ops, answers, n, i, j - 1, idx, h);
      var k := j - 1;
      assert Represents(log.shots[k + 1], log.ms[k + 1]);
      RepresentedIsLive(log.shots[k + 1], log.ms[k + 1], h);
      PerformedSteps(log.shots[k], threshold, log.ms[k], ops[k], answers[k], log.trails[k], log.shots[k + 1],
                     log.ms[k + 1]);
      StepKeepsName(log.shots[k], threshold, log.ms[k], ops[k], answers[k], log.trails[k], log.shots[k + 1], idx, h);
    }
    if j < n && ops[j] == DerefWeakOp(idx) {
      PerformedSteps(log.shots[j], threshold, log.ms[j], ops[j], answers[j], log.trails[j], log.shots[j + 1],
                     log.ms[j + 1]);
      AnswerNames(log.shots[j], log.ms[j], idx, answers[j], h);
    }
  }

  lemma AnswerNames(s: Shot, m: Objects, idx: nat, ans: Answer, h: Handle)
    requires Right(s, m, DerefWeakOp(idx), ans) && Names(s, idx, h)
    ensures ans == WeakIs(h)
  {
  }

  /** An entry that is not freed changes only when a major collection finds that its handle
      names no object. */
  lemma NameLostHasACause(s: Shot, threshold: nat, m: Objects, op: Op, ans: Answer, c: Trail, s': Shot, idx: nat,
                          h: Handle)
    requires HeapRuns.Step(s, threshold, op, ans, c, s') && Right(s, m, op, ans) && Names(s, idx, h)
             && op != FreeWeakOp(idx)
    requires Inv(s'.t) && (IsLiveHandle(s'.t, h) ==> AddrOf(s'.t, h) in s'.pay)
    ensures Names(s', idx, h) || Names(s', idx, NULL_HANDLE)
    ensures !Names(s', idx, h) ==> (op.MajorOp? || Collects(s, op)) && (!IsLiveHandle(s'.t, h) || Renews(ans, h))
  {
    hide CollectDone, MajorDone, ReachesAll, Requested, RoundUp8, Release, RefAdded, RefReleased, Written, Inv,
         KeepsExactly, Restrict;
    if IsLiveHandle(s'.t, h) && !Renews(ans, h) { StepKeepsName(s, threshold, m, op, ans, c, s', idx, h); }
    match op
    case AllocOp(size, scanned, pinned, roots) =>
      RequestKeepsWeak(c.after, size, ans.h, s');
      if Collects(s, op) { CollectSweepsWeak(s, scanned + pinned, roots, threshold, c); }
    case PinnedOp(size) => RequestKeepsWeak(s, size, ans.h, s');
    case CollectOp(scanned, pinned, roots) => CollectSweepsWeak(s, scanned + pinned, roots, threshold, c);
    case MajorOp(roots) => MajorKeepsWords(s, roots, s');
    case _ =>
  }

  lemma RequestKeepsWeak(s: Shot, size: nat, g: Handle, s': Shot)
    requires Requested(s, size, g, s')
    ensures s'.weak == s.weak
  {
    hide TooLarge, Zeros, LiveSlots, Unused, Inv, New, Young, Old;
  }

  lemma CollectSweepsWeak(s: Shot, young: seq<Handle>, roots: seq<Handle>, threshold: nat, c: Trail)
    requires CollectDone(s, young, roots, threshold, c, Clean)
    ensures c.after.weak == s.weak || c.after.weak == SweptWeak(s.weak, c.after.t, c.after.hs)
  {
    hide YoungFate, Survivors, CopiesOk, SlotsKept, MovesOk, Short, LeavesNursery, WordsForwarded, ReachesAll,
         LiveBytes, Collected, MajorDone;
    assert c.lost == {} && c.mid.weak == s.weak;
    if LiveBytes(c.mid.hs) >= threshold { MajorKeepsWords(c.mid, roots, c.after); }
  }
}
