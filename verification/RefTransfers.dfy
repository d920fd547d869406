/** Which variable holds which pointer after an operation on a `Ref`, whatever the other threads do while
    it is in progress. */
module RefTransfers {
  import opened Basics
  import opened RefCounting

  /** The same pointer, though the reference may have been given up. */
  predicate SamePointer(a: Place, b: Place) {
    if a.Held? then b.Held? && b.ptr == a.ptr && b.kind == a.kind else b.Unborn?
  }

  /** A stretch of a run with the operation of thread `t` in progress throughout; the other threads
      change no other variables than `others`. */
  ghost predicate During(st: State, steps: seq<(nat, Action)>, st': State, t: nat, others: set<nat>)
    decreases |steps|
  {
    && t < |st'.threads| && st'.threads[t] != Idle
    && if steps == [] then st == st'
       else
         var n := |steps| - 1;
         exists mid: State :: During(st, steps[..n], mid, t, others) && OneStep(mid, steps[n], st', t, others)
  }

  ghost predicate OneStep(st: State, step: (nat, Action), st': State, t: nat, others: set<nat>) {
    && Enabled(st, step.0, step.1) && Next(st, step.0, step.1) == st'
    && (step.0 != t ==> Changes(st, step.0, step.1) <= others)
  }

  /** The variables of an operation, and those the other threads leave alone. */
  predicate Watched(op: Operation, others: set<nat>, i: nat) {
    i in Reads(op) + Writes(op) || i !in others
  }

  ghost predicate Kept(st: State, st': State, op: Operation, others: set<nat>) {
    |st'.places| == |st.places| &&
    forall i :: 0 <= i < |st.places| && Watched(op, others, i) ==>
      SamePointer(st.places[i], st'.places[i]) && (i != Released(op) ==> st'.places[i] == st.places[i])
  }

  lemma OwnStepKeeps(st: State, t: nat, a: Action, others: set<nat>)
    requires Inv(st) && Enabled(st, t, a) && st.threads[t] != Idle && Next(st, t, a).threads[t] != Idle
    ensures Next(st, t, a).threads[t].op == st.threads[t].op
    ensures Kept(st, Next(st, t, a), st.threads[t].op, others)
  {
  }

  lemma OtherStepKeeps(st: State, j: nat, a: Action, t: nat, others: set<nat>)
    requires Inv(st) && Enabled(st, j, a) && j != t && t < |st.threads| && st.threads[t] != Idle
    requires Changes(st, j, a) <= others
    ensures Next(st, j, a).threads[t] == st.threads[t]
    ensures Kept(st, Next(st, j, a), st.threads[t].op, others)
  {
    hide PcOk;
    ChangesOnly(st, j, a);
    forall i | i in Reads(st.threads[t].op) + Writes(st.threads[t].op)
      ensures i !in Changes(st, j, a)
    {
      NotOthers(st, j, a, t);
    }
    hide Next, Changes;
  }

  lemma NotOthers(st: State, j: nat, a: Action, t: nat)
    requires Inv(st) && Enabled(st, j, a) && j != t && t < |st.threads| && st.threads[t] != Idle
    ensures Changes(st, j, a) !! Reads(st.threads[t].op) + Writes(st.threads[t].op)
  {
    hide PcOk, Reads, Writes;
    if a.Continue? {
      assert Free(st, j, Reads(st.threads[j].op), Writes(st.threads[j].op));
    }
  }

  lemma {:induction false} DuringKeeps(
    st: State, steps: seq<(nat, Action)>, st': State, t: nat, others: set<nat>)
    requires Inv(st) && During(st, steps, st', t, others)
    ensures Inv(st') && t < |st.threads| && st.threads[t] != Idle && st'.threads[t].op == st.threads[t].op
    ensures Kept(st, st', st.threads[t].op, others)
    decreases |steps|
  {
    hide Inv, Enabled, Next, Changes, Watched;
    if steps != [] {
      var n := |steps| - 1;
      var mid: State :| During(st, steps[..n], mid, t, others) && OneStep(mid, steps[n], st', t, others);
      DuringKeeps(st, steps[..n], mid, t, others);
      StepKeepsInv(mid, steps[n].0, steps[n].1);
      if steps[n].0 == t {
        OwnStepKeeps(mid, t, steps[n].1, others);
      } else {
        OtherStepKeeps(mid, steps[n].0, steps[n].1, t, others);
      }
    }
  }

  /** What an operation has done when it is over: a copy holds what its source still holds; what was
      moved to holds what the source held, and the source nothing; a destroyed variable is gone, as is
      the raw pointer that `AcquireRef` took.  Nothing else has changed but by other threads, and these
      have changed none of its variables. */
  lemma {:induction false} OperationEffect(
    start: State, before: seq<(nat, Action)>, st: State, t: nat, op: Operation,
    steps: seq<(nat, Action)>, mid: State, others: set<nat>)
    requires Init(start) && Run(start, before, st) && Enabled(st, t, Start(op))
    requires During(Next(st, t, Start(op)), steps, mid, t, others)
    requires Enabled(mid, t, Continue) && Next(mid, t, Continue).threads[t] == Idle
    ensures var was, now := st.places, Next(mid, t, Continue).places;
      && |now| == |was|
      && (forall i :: 0 <= i < |was| && i !in others && i !in Writes(op) ==> now[i] == was[i])
      && match op
         case Construct(src, dst, kind) => now[dst] == Held(was[src].ptr, true, kind) && now[src] == was[src]
         case CopyAssign(dst, src) => now[dst] == Held(was[src].ptr, true, Ref) && now[src] == was[src]
         case MoveAssign(dst, src) => now[dst] == Held(was[src].ptr, true, Ref) && now[src] == Held(None, true, Ref)
         case Destroy(dst) => now[dst] == Unborn
         case Acquire(src, dst) => now[dst] == Held(was[src].ptr, true, Ref) && now[src] == Unborn
  {
    hide Inv, Enabled, Next;
    RunKeepsInv(start, before, st);
    StepKeepsInv(st, t, Start(op));
    Started(st, t, op);
    DuringKeeps(Next(st, t, Start(op)), steps, mid, t, others);
    Finished(st, mid, t, op, others);
  }

  lemma Started(st: State, t: nat, op: Operation)
    requires Inv(st) && Enabled(st, t, Start(op))
    ensures var st' := Next(st, t, Start(op));
      && st'.places == st.places && t < |st'.threads| && st'.threads[t] != Idle && st'.threads[t].op == op
    ensures Applicable(st, op)
    ensures forall i :: i in Reads(op) + Writes(op) && IsHeld(st, i) ==> st.places[i].owns
  {
    forall i | i in Reads(op) + Writes(op) && IsHeld(st, i)
      ensures st.places[i].owns
    {
      assert InRelease(st, i) || st.places[i].owns;
    }
  }

  lemma Finished(st: State, mid: State, t: nat, op: Operation, others: set<nat>)
    requires Applicable(st, op) && Kept(st, mid, op, others)
    requires forall i :: i in Reads(op) + Writes(op) && IsHeld(st, i) ==> st.places[i].owns
    requires Enabled(mid, t, Continue) && mid.threads[t] != Idle && mid.threads[t].op == op
    requires Next(mid, t, Continue).threads[t] == Idle
    ensures var was, now := st.places, Next(mid, t, Continue).places;
      && |now| == |was|
      && (forall i :: 0 <= i < |was| && i !in others && i !in Writes(op) ==> now[i] == was[i])
      && match op
         case Construct(src, dst, kind) => now[dst] == Held(was[src].ptr, true, kind) && now[src] == was[src]
         case CopyAssign(dst, src) => now[dst] == Held(was[src].ptr, true, Ref) && now[src] == was[src]
         case MoveAssign(dst, src) => now[dst] == Held(was[src].ptr, true, Ref) && now[src] == Held(None, true, Ref)
         case Destroy(dst) => now[dst] == Unborn
         case Acquire(src, dst) => now[dst] == Held(was[src].ptr, true, Ref) && now[src] == Unborn
  {
    assert mid.threads[t].Finishing?;
    forall i | i in Reads(op) + Writes(op)
      ensures Watched(op, others, i)
    {
    }
  }

  /** The operations that are over at once: a new object is held by a raw pointer, a default `Ref` is
      null, and a move or `detach` hands the pointer over and leaves null behind. */
  lemma EffectAtOnce(st: State, t: nat, a: Action)
    requires Enabled(st, t, a) && !a.Start? && !a.Continue?
    ensures var was, now := st.places, Next(st, t, a).places;
      && |now| == |was|
      && match a
         case New(dst, _) =>
           now[dst] == Held(Some(|st.objs|), true, Raw) && forall i :: 0 <= i < |was| && i != dst ==> now[i] == was[i]
         case Default(dst) =>
           now[dst] == Held(None, true, Ref) && forall i :: 0 <= i < |was| && i != dst ==> now[i] == was[i]
         case Move(src, dst) =>
           && now[dst] == was[src] && now[src] == Held(None, was[src].owns, was[src].kind)
           && forall i :: 0 <= i < |was| && i != dst && i != src ==> now[i] == was[i]
         case Detach(src, dst) =>
           && now[dst] == Held(was[src].ptr, true, Raw) && now[src] == Held(None, was[src].owns, was[src].kind)
           && forall i :: 0 <= i < |was| && i != dst && i != src ==> now[i] == was[i]
  {
  }
}
