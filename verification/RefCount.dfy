/** The intrusive reference count of kwctoolkit/base/ref_count.{h,cc} under arbitrary interleavings.

    Every operation on a `Ref` is split into the atomic operations it performs on the counter and
    the plain stores around them, and any thread may run between any two of these.  The variables
    an operation uses are those of a race-free program: while one thread writes a variable no other
    thread uses it, but any number of threads may read the same one. */
module RefCounting {
  import opened Basics

  const INCREMENT: int := 2
  const MODULUS: int := 0x1_0000_0000_0000_0000

  type uint64 = x: int | 0 <= x < MODULUS

  /** A counted object; `payload` is the constructor's argument and `deletions` counts `delete this`. */
  datatype Obj = Obj(count: uint64, payload: nat, deletions: nat)

  datatype Kind = Ref | Raw

  /** A program variable: not constructed, or a pointer.  A `Ref` owns what it points to; so does a
      raw pointer that came from `new`, `detach` or `reference`, or that a `Result` carries.
      `owns` is false only between the release of the pointee and the store that overwrites it. */
  datatype Place = Unborn | Held(ptr: Option<nat>, owns: bool, kind: Kind)

  /** The operations that take several steps. */
  datatype Operation =
    | Construct(src: nat, dst: nat, kind: Kind)
    | CopyAssign(dst: nat, src: nat)
    | MoveAssign(dst: nat, src: nat)
    | Destroy(dst: nat)
    | Acquire(src: nat, dst: nat)

  /** Where a thread is: `held` is the reference it has taken but not stored yet. */
  datatype Pc =
    | Idle
    | Adding(id: nat, op: Operation)
    | Subbing(id: nat, held: Option<nat>, op: Operation)
    | Deleting(id: nat, held: Option<nat>, op: Operation)
    | Finishing(held: Option<nat>, op: Operation)

  datatype State = State(objs: seq<Obj>, places: seq<Place>, threads: seq<Pc>)

  // ---------- Steps ----------

  datatype Action =
    | New(dst: nat, payload: nat)
    | Default(dst: nat)
    | Move(src: nat, dst: nat)
    | Detach(src: nat, dst: nat)
    | Start(op: Operation)
    | Continue

  function Reads(op: Operation): set<nat> {
    match op
    case Construct(src, _, _) => {src}
    case CopyAssign(_, src) => {src}
    case _ => {}
  }

  function Writes(op: Operation): set<nat> {
    match op
    case Construct(_, dst, _) => {dst}
    case CopyAssign(dst, _) => {dst}
    case MoveAssign(dst, src) => {dst, src}
    case Destroy(dst) => {dst}
    case Acquire(src, dst) => {src, dst}
  }

  /** No other thread is in an operation that conflicts with these uses. */
  ghost predicate Free(st: State, t: nat, read: set<nat>, written: set<nat>) {
    forall j :: 0 <= j < |st.threads| && j != t && st.threads[j] != Idle ==>
      Apart(read, written, st.threads[j].op)
  }

  ghost predicate Apart(read: set<nat>, written: set<nat>, op: Operation) {
    written !! Reads(op) + Writes(op) && read !! Writes(op)
  }

  predicate IsHeld(st: State, i: nat) {
    i < |st.places| && st.places[i].Held?
  }

  predicate IsRef(st: State, i: nat) {
    IsHeld(st, i) && st.places[i].kind.Ref?
  }

  predicate IsUnborn(st: State, i: nat) {
    i < |st.places| && st.places[i].Unborn?
  }

  /** What an operation demands of its operands: no member of a null pointer is called, and an
      assignment of a variable to itself is no operation at all. */
  predicate Applicable(st: State, op: Operation) {
    match op
    case Construct(src, dst, kind) =>
      IsHeld(st, src) && IsUnborn(st, dst) && (kind.Raw? ==> st.places[src].ptr.Some?)
    case CopyAssign(dst, src) => IsRef(st, src) && IsRef(st, dst) && src != dst
    case MoveAssign(dst, src) => IsRef(st, src) && IsRef(st, dst) && src != dst
    case Destroy(dst) => IsHeld(st, dst) && (st.places[dst].kind.Raw? ==> st.places[dst].ptr.Some?)
    case Acquire(src, dst) =>
      IsHeld(st, src) && IsUnborn(st, dst) && st.places[src].kind.Raw? && st.places[src].ptr.Some?
  }

  ghost predicate Enabled(st: State, t: nat, a: Action) {
    && t < |st.threads|
    && (a.Continue? <==> st.threads[t] != Idle)
    && match a
       case New(dst, payload) => IsUnborn(st, dst) && payload <= 1 && Free(st, t, {}, {dst})
       case Default(dst) => IsUnborn(st, dst) && Free(st, t, {}, {dst})
       case Move(src, dst) => IsHeld(st, src) && IsUnborn(st, dst) && Free(st, t, {}, {src, dst})
       case Detach(src, dst) =>
         IsRef(st, src) && IsUnborn(st, dst) && Free(st, t, {}, {src, dst})
       case Start(op) => Applicable(st, op) && Free(st, t, Reads(op), Writes(op))
       case Continue => PcOk(st, st.threads[t])
  }

  /** The operands of an operation in progress, which holds `held`. */
  predicate OperandsOk(st: State, held: Option<nat>, op: Operation) {
    && (held.Some? ==> held.value < |st.objs|)
    && match op
       case Construct(src, dst, _) =>
         Owner(st, src) && st.places[src].ptr == held && IsUnborn(st, dst)
       case CopyAssign(dst, src) =>
         src != dst && Owner(st, src) && st.places[src].ptr == held && IsRef(st, dst)
       case MoveAssign(dst, src) =>
         src != dst && Owner(st, src) && held == None && IsRef(st, dst)
       case Destroy(dst) => IsHeld(st, dst) && held == None
       case Acquire(src, dst) =>
         held.Some? && IsHeld(st, src) && st.places[src].ptr == held && st.places[src].kind.Raw? && IsUnborn(st, dst)
  }

  predicate Owner(st: State, i: nat) {
    IsHeld(st, i) && st.places[i].owns
  }

  /** What holds of the variables a thread uses, at each point of its operation. */
  predicate PcOk(st: State, pc: Pc) {
    match pc
    case Idle => true
    case Adding(id, op) =>
      && (op.Construct? || op.CopyAssign? || op.Acquire?)
      && OperandsOk(st, Some(id), op)
      && (!op.Construct? ==> Owner(st, Released(op)))
    case Subbing(id, held, op) =>
      && !op.Construct? && id < |st.objs|
      && OperandsOk(st, held, op) && Owner(st, Released(op)) && st.places[Released(op)].ptr == Some(id)
    case Deleting(id, held, op) =>
      && !op.Construct? && !op.Acquire? && id < |st.objs|
      && OperandsOk(st, held, op) && !st.places[Released(op)].owns
    case Finishing(held, op) =>
      && OperandsOk(st, held, op)
      && (op.Construct? || st.places[Released(op)].ptr == None || !st.places[Released(op)].owns)
  }

  /** The variable whose reference an operation releases. */
  function Released(op: Operation): nat {
    match op
    case Construct(_, dst, _) => dst
    case CopyAssign(dst, _) => dst
    case MoveAssign(dst, _) => dst
    case Destroy(dst) => dst
    case Acquire(src, _) => src
  }

  /** Where an operation goes when it holds `held` and has a release ahead of it, if its variable is
      not null. */
  function ReleaseNext(st: State, held: Option<nat>, op: Operation): Pc
    requires IsHeld(st, Released(op))
  {
    match st.places[Released(op)].ptr
    case None => Finishing(held, op)
    case Some(id) => Subbing(id, held, op)
  }

  function StartPc(st: State, op: Operation): Pc
    requires Applicable(st, op)
  {
    match op
    case Construct(src, _, _) =>
      (match st.places[src].ptr case None => Finishing(None, op) case Some(id) => Adding(id, op))
    case CopyAssign(_, src) =>
      (match st.places[src].ptr case None => ReleaseNext(st, None, op) case Some(id) => Adding(id, op))
    case MoveAssign(_, _) => ReleaseNext(st, None, op)
    case Destroy(_) => ReleaseNext(st, None, op)
    case Acquire(src, _) => Adding(st.places[src].ptr.value, op)
  }

  /** `fetch_add` and `fetch_sub`. */
  function FetchAdd(c: uint64): uint64 {
    if c + INCREMENT < MODULUS then c + INCREMENT else c + INCREMENT - MODULUS
  }

  function FetchSub(c: uint64): uint64 {
    if c >= INCREMENT then c - INCREMENT else c - INCREMENT + MODULUS
  }

  /** The plain stores at the end of an operation. */
  function Finish(places: seq<Place>, op: Operation): seq<Place>
    requires op.dst < |places| && (!op.Destroy? ==> op.src < |places| && places[op.src].Held?)
  {
    match op
    case Construct(src, dst, kind) => places[dst := Held(places[src].ptr, true, kind)]
    case CopyAssign(dst, src) => places[dst := Held(places[src].ptr, true, Ref)]
    case MoveAssign(dst, src) =>
      places[dst := Held(places[src].ptr, true, Ref)][src := places[src].(ptr := None)]
    case Destroy(dst) => places[dst := Unborn]
    case Acquire(src, dst) => places[dst := Held(places[src].ptr, true, Ref)][src := Unborn]
  }

  function Next(st: State, t: nat, a: Action): State
    requires Enabled(st, t, a)
  {
    match a
    case New(dst, payload) =>
      st.(objs := st.objs + [Obj(INCREMENT + payload, payload, 0)],
          places := st.places[dst := Held(Some(|st.objs|), true, Raw)])
    case Default(dst) => st.(places := st.places[dst := Held(None, true, Ref)])
    case Move(src, dst) =>
      st.(places := st.places[dst := st.places[src]][src := st.places[src].(ptr := None)])
    case Detach(src, dst) =>
      st.(places := st.places[dst := Held(st.places[src].ptr, true, Raw)][src := st.places[src].(ptr := None)])
    case Start(op) => st.(threads := st.threads[t := StartPc(st, op)])
    case Continue =>
      match st.threads[t]
      case Adding(id, op) =>
        var obj := st.objs[id];
        var pc := if op.Construct? then Finishing(Some(id), op) else ReleaseNext(st, Some(id), op);
        st.(objs := st.objs[id := obj.(count := FetchAdd(obj.count))], threads := st.threads[t := pc])
      case Subbing(id, held, op) =>
        var obj, i := st.objs[id], Released(op);
        var pc := if obj.count < 2 * INCREMENT then Deleting(id, held, op) else Finishing(held, op);
        State(st.objs[id := obj.(count := FetchSub(obj.count))],
              st.places[i := st.places[i].(owns := false)],
              st.threads[t := pc])
      case Deleting(id, held, op) =>
        var obj := st.objs[id];
        st.(objs := st.objs[id := obj.(deletions := obj.deletions + 1)],
            threads := st.threads[t := Finishing(held, op)])
      case Finishing(_, op) =>
        st.(places := Finish(st.places, op), threads := st.threads[t := Idle])
      case Idle => assert false; st
  }

  // ---------- The invariant ----------

  function Count<T>(s: seq<T>, f: T -> Option<nat>, o: nat): nat {
    if s == [] then 0 else Count(s[..|s| - 1], f, o) + (if f(s[|s| - 1]) == Some(o) then 1 else 0)
  }

  function Owned(p: Place): Option<nat> {
    if p.Held? && p.owns then p.ptr else None
  }

  function HeldBy(pc: Pc): Option<nat> {
    if pc.Subbing? || pc.Deleting? || pc.Finishing? then pc.held else None
  }

  function DeletedBy(pc: Pc): Option<nat> {
    if pc.Deleting? then Some(pc.id) else None
  }

  /** The number of owners of an object: variables, and references that a thread is about to store. */
  function Owners(st: State, o: nat): nat {
    Count(st.places, Owned, o) + Count(st.threads, HeldBy, o)
  }

  function Deleters(st: State, o: nat): nat {
    Count(st.threads, DeletedBy, o)
  }

  ghost predicate ObjOk(st: State, o: nat)
    requires o < |st.objs|
  {
    && st.objs[o].payload <= 1
    && st.objs[o].count == INCREMENT * Owners(st, o) + st.objs[o].payload
    && st.objs[o].deletions + Deleters(st, o) == (if Owners(st, o) == 0 then 1 else 0)
  }

  ghost predicate Frame(st: State) {
    && (forall t :: 0 <= t < |st.threads| ==> PcOk(st, st.threads[t]))
    && (forall t :: 0 <= t < |st.threads| && st.threads[t] != Idle ==>
          Free(st, t, Reads(st.threads[t].op), Writes(st.threads[t].op)))
    && (forall i :: 0 <= i < |st.places| && st.places[i].Held? && !st.places[i].owns ==> InRelease(st, i))
    && (forall i :: 0 <= i < |st.places| && st.places[i].Held? && st.places[i].ptr.Some? ==>
          st.places[i].ptr.value < |st.objs|)
  }

  /** Some thread is past the release of this variable. */
  ghost predicate InRelease(st: State, i: nat) {
    exists t :: 0 <= t < |st.threads| && st.threads[t] != Idle && !st.threads[t].Adding?
      && !st.threads[t].Subbing? && !st.threads[t].op.Construct? && Released(st.threads[t].op) == i
  }

  ghost predicate Inv(st: State) {
    && Frame(st)
    && (forall o :: 0 <= o < |st.objs| ==> ObjOk(st, o))
    && INCREMENT * (|st.places| + |st.threads|) + 4 < MODULUS
  }

  lemma {:induction false} CountUpdate<T>(s: seq<T>, i: nat, x: T, f: T -> Option<nat>, o: nat)
    requires i < |s|
    ensures Count(s[i := x], f, o) + (if f(s[i]) == Some(o) then 1 else 0)
         == Count(s, f, o) + (if f(x) == Some(o) then 1 else 0)
    decreases |s|
  {
    var n := |s| - 1;
    if i == n {
      assert s[i := x][..n] == s[..n];
    } else {
      CountUpdate(s[..n], i, x, f, o);
      assert s[i := x][..n] == s[..n][i := x];
    }
  }

  lemma {:induction false} CountBound<T>(s: seq<T>, f: T -> Option<nat>, o: nat)
    ensures Count(s, f, o) <= |s|
    ensures Count(s, f, o) == 0 <==> forall i :: 0 <= i < |s| ==> f(s[i]) != Some(o)
    decreases |s|
  {
    if s != [] {
      CountBound(s[..|s| - 1], f, o);
    }
  }

  // ---------- The variables ----------

  /** A step of one thread leaves alone the variables of the operations of the others. */
  lemma OthersKeepPc(st: State, st': State, pc: Pc)
    requires PcOk(st, pc)
    requires |st'.places| == |st.places| && |st.objs| <= |st'.objs|
    requires pc != Idle ==>
      forall i :: i in Reads(pc.op) + Writes(pc.op) && i < |st.places| ==> st'.places[i] == st.places[i]
    ensures PcOk(st', pc)
  {
  }

  /** The variables an action may change. */
  function Changes(st: State, t: nat, a: Action): set<nat>
    requires t < |st.threads|
  {
    match a
    case New(dst, _) => {dst}
    case Default(dst) => {dst}
    case Move(src, dst) => {src, dst}
    case Detach(src, dst) => {src, dst}
    case Start(op) => {}
    case Continue => if st.threads[t].Idle? then {} else Writes(st.threads[t].op)
  }

  lemma ChangesOnly(st: State, t: nat, a: Action)
    requires Inv(st) && Enabled(st, t, a)
    ensures var st' := Next(st, t, a);
      && |st'.places| == |st.places| && |st'.threads| == |st.threads| && |st.objs| <= |st'.objs|
      && (forall i :: 0 <= i < |st.places| && i !in Changes(st, t, a) ==> st'.places[i] == st.places[i])
      && (forall j :: 0 <= j < |st.threads| && j != t ==> st'.threads[j] == st.threads[j])
  {
  }

  lemma OthersKeepFrame(st: State, t: nat, a: Action)
    requires Inv(st) && Enabled(st, t, a)
    ensures var st' := Next(st, t, a);
      forall j :: 0 <= j < |st'.threads| && j != t ==> PcOk(st', st'.threads[j])
  {
    var st' := Next(st, t, a);
    ChangesOnly(st, t, a);
    forall j | 0 <= j < |st'.threads| && j != t
      ensures PcOk(st', st'.threads[j])
    {
      OthersKeepPc(st, st', st.threads[j]);
    }
  }

  /** A variable that owns an object, or a thread that holds a reference to it, keeps it counted. */
  lemma OwnersPositive(st: State, o: nat)
    ensures Owners(st, o) <= |st.places| + |st.threads|
    ensures forall i :: 0 <= i < |st.places| && Owned(st.places[i]) == Some(o) ==> Owners(st, o) > 0
    ensures forall t :: 0 <= t < |st.threads| && HeldBy(st.threads[t]) == Some(o) ==> Owners(st, o) > 0
    ensures forall i, t | 0 <= i < |st.places| && 0 <= t < |st.threads| ::
      Owned(st.places[i]) == Some(o) && HeldBy(st.threads[t]) == Some(o) ==> Owners(st, o) >= 2
  {
    CountBound(st.places, Owned, o);
    CountBound(st.threads, HeldBy, o);
  }

  /** The release inside `AcquireRef` never deletes: the new `Ref` has its own reference by then. */
  lemma {:induction false} AcquireDoesNotDelete(st: State, t: nat)
    requires Inv(st) && t < |st.threads|
    requires st.threads[t].Subbing? && st.threads[t].op.Acquire?
    ensures Next(st, t, Continue).threads[t].Finishing?
  {
    var id := st.threads[t].id;
    assert PcOk(st, st.threads[t]);
    OwnersPositive(st, id);
    assert Owned(st.places[st.threads[t].op.src]) == Some(id) && HeldBy(st.threads[t]) == Some(id);
    assert ObjOk(st, id);
  }

  lemma ThreadKeepsPc(st: State, t: nat, a: Action)
    requires Inv(st) && Enabled(st, t, a)
    ensures PcOk(Next(st, t, a), Next(st, t, a).threads[t])
  {
    if a.Start? {
      StartKeepsPc(st, t, a.op);
    } else if a.Continue? {
      match st.threads[t] {
        case Adding(_, _) => AddKeepsPc(st, t);
        case Subbing(_, _, _) => SubKeepsPc(st, t);
        case _ =>
      }
    }
  }

  lemma StartKeepsPc(st: State, t: nat, op: Operation)
    requires Inv(st) && Enabled(st, t, Start(op))
    ensures PcOk(Next(st, t, Start(op)), Next(st, t, Start(op)).threads[t])
  {
    forall i | i in Reads(op) + Writes(op) && IsHeld(st, i)
      ensures st.places[i].owns
    {
      assert InRelease(st, i) || st.places[i].owns;
    }
  }

  lemma AddKeepsPc(st: State, t: nat)
    requires Inv(st) && Enabled(st, t, Continue) && st.threads[t].Adding?
    ensures PcOk(Next(st, t, Continue), Next(st, t, Continue).threads[t])
  {
  }

  lemma SubKeepsPc(st: State, t: nat)
    requires Inv(st) && Enabled(st, t, Continue) && st.threads[t].Subbing?
    ensures PcOk(Next(st, t, Continue), Next(st, t, Continue).threads[t])
  {
    if st.threads[t].op.Acquire? {
      AcquireDoesNotDelete(st, t);
    }
  }

  lemma KeepsFrame(st: State, t: nat, a: Action)
    requires Inv(st) && Enabled(st, t, a)
    ensures Frame(Next(st, t, a))
  {
    var st' := Next(st, t, a);
    ChangesOnly(st, t, a);
    OthersKeepFrame(st, t, a);
    ThreadKeepsPc(st, t, a);
    KeepsFree(st, t, a);
    KeepsRelease(st, t, a);
  }

  lemma KeepsFree(st: State, t: nat, a: Action)
    requires Inv(st) && Enabled(st, t, a)
    ensures var st' := Next(st, t, a);
      forall j :: 0 <= j < |st'.threads| && st'.threads[j] != Idle ==>
        Free(st', j, Reads(st'.threads[j].op), Writes(st'.threads[j].op))
  {
    var st' := Next(st, t, a);
    ChangesOnly(st, t, a);
    assert a.Continue? && st'.threads[t] != Idle ==> st'.threads[t].op == st.threads[t].op;
  }

  lemma KeepsRelease(st: State, t: nat, a: Action)
    requires Inv(st) && Enabled(st, t, a)
    ensures var st' := Next(st, t, a);
      forall i :: 0 <= i < |st'.places| && st'.places[i].Held? && !st'.places[i].owns ==> InRelease(st', i)
  {
    var st' := Next(st, t, a);
    ChangesOnly(st, t, a);
    forall i | 0 <= i < |st'.places| && st'.places[i].Held? && !st'.places[i].owns
      ensures InRelease(st', i)
    {
      if IsHeld(st, i) && !st.places[i].owns {
        var j :| 0 <= j < |st.threads| && st.threads[j] != Idle && !st.threads[j].Adding?
          && !st.threads[j].Subbing? && !st.threads[j].op.Construct? && Released(st.threads[j].op) == i;
        assert st'.threads[j] != Idle && !st'.threads[j].Adding? && !st'.threads[j].Subbing?;
      } else {
        assert a.Continue? && st.threads[t].Subbing?;
        assert Released(st'.threads[t].op) == i;
      }
    }
  }

  // ---------- The counters ----------

  /** 1 if a variable or thread accounts for `o`, else 0. */
  function One(x: Option<nat>, o: nat): nat {
    if x == Some(o) then 1 else 0
  }

  lemma ThreadStep(st: State, t: nat, pc: Pc, o: nat)
    requires t < |st.threads|
    ensures Count(st.threads[t := pc], HeldBy, o) + One(HeldBy(st.threads[t]), o)
         == Count(st.threads, HeldBy, o) + One(HeldBy(pc), o)
    ensures Count(st.threads[t := pc], DeletedBy, o) + One(DeletedBy(st.threads[t]), o)
         == Deleters(st, o) + One(DeletedBy(pc), o)
  {
    CountUpdate(st.threads, t, pc, HeldBy, o);
    CountUpdate(st.threads, t, pc, DeletedBy, o);
  }

  lemma PlacesStep(places: seq<Place>, i: nat, x: Place, j: nat, y: Place, o: nat)
    requires i < |places| && j < |places| && i != j
    ensures Count(places[i := x][j := y], Owned, o) + One(Owned(places[i]), o) + One(Owned(places[j]), o)
         == Count(places, Owned, o) + One(Owned(x), o) + One(Owned(y), o)
  {
    CountUpdate(places, i, x, Owned, o);
    CountUpdate(places[i := x], j, y, Owned, o);
  }

  lemma NoOwnersOfFresh(st: State)
    requires Frame(st)
    ensures Owners(st, |st.objs|) == 0 && Deleters(st, |st.objs|) == 0
  {
    var o := |st.objs|;
    CountBound(st.places, Owned, o);
    CountBound(st.threads, HeldBy, o);
    CountBound(st.threads, DeletedBy, o);
    forall t | 0 <= t < |st.threads|
      ensures HeldBy(st.threads[t]) != Some(o) && DeletedBy(st.threads[t]) != Some(o)
    {
      assert PcOk(st, st.threads[t]);
    }
  }

  lemma BirthKeepsObj(st: State, t: nat, a: Action, o: nat)
    requires Inv(st) && Enabled(st, t, a) && (a.New? || a.Default?)
    requires o < |Next(st, t, a).objs|
    ensures ObjOk(Next(st, t, a), o)
  {
    CountUpdate(st.places, a.dst, Next(st, t, a).places[a.dst], Owned, o);
    NoOwnersOfFresh(st);
    assert o < |st.objs| ==> ObjOk(st, o);
  }

  lemma MoveKeepsObj(st: State, t: nat, a: Action, o: nat)
    requires Inv(st) && Enabled(st, t, a) && (a.Move? || a.Detach?)
    requires o < |st.objs|
    ensures ObjOk(Next(st, t, a), o)
  {
    var st' := Next(st, t, a);
    assert st.places[a.src].owns || InRelease(st, a.src);
    PlacesStep(st.places, a.dst, st'.places[a.dst], a.src, st'.places[a.src], o);
    assert ObjOk(st, o);
  }

  lemma StartKeepsObj(st: State, t: nat, op: Operation, o: nat)
    requires Inv(st) && Enabled(st, t, Start(op)) && o < |st.objs|
    ensures ObjOk(Next(st, t, Start(op)), o)
  {
    ThreadStep(st, t, StartPc(st, op), o);
    assert ObjOk(st, o);
  }

  lemma AddKeepsObj(st: State, t: nat, o: nat)
    requires Inv(st) && Enabled(st, t, Continue) && st.threads[t].Adding? && o < |st.objs|
    ensures ObjOk(Next(st, t, Continue), o)
  {
    var id := st.threads[t].id;
    ThreadStep(st, t, Next(st, t, Continue).threads[t], o);
    OwnersPositive(st, id);
    assert Owned(st.places[st.threads[t].op.src]) == Some(id);
    assert ObjOk(st, o) && ObjOk(st, id);
  }

  lemma SubKeepsObj(st: State, t: nat, o: nat)
    requires Inv(st) && Enabled(st, t, Continue) && st.threads[t].Subbing? && o < |st.objs|
    ensures ObjOk(Next(st, t, Continue), o)
  {
    var st', id, i := Next(st, t, Continue), st.threads[t].id, Released(st.threads[t].op);
    ThreadStep(st, t, st'.threads[t], o);
    CountUpdate(st.places, i, st'.places[i], Owned, o);
    OwnersPositive(st, id);
    assert Owned(st.places[i]) == Some(id);
    assert ObjOk(st, o) && ObjOk(st, id);
  }

  lemma DeleteKeepsObj(st: State, t: nat, o: nat)
    requires Inv(st) && Enabled(st, t, Continue) && st.threads[t].Deleting? && o < |st.objs|
    ensures ObjOk(Next(st, t, Continue), o)
  {
    ThreadStep(st, t, Next(st, t, Continue).threads[t], o);
    assert ObjOk(st, o);
  }

  lemma FinishKeepsObj(st: State, t: nat, o: nat)
    requires Inv(st) && Enabled(st, t, Continue) && st.threads[t].Finishing? && o < |st.objs|
    ensures ObjOk(Next(st, t, Continue), o)
  {
    var st', op := Next(st, t, Continue), st.threads[t].op;
    ThreadStep(st, t, Idle, o);
    if op.MoveAssign? || op.Acquire? {
      PlacesStep(st.places, op.dst, st'.places[op.dst], op.src, st'.places[op.src], o);
    } else {
      CountUpdate(st.places, op.dst, st'.places[op.dst], Owned, o);
    }
    assert ObjOk(st, o);
  }

  /** Every step of every thread keeps the invariant. */
  lemma {:induction false} StepKeepsInv(st: State, t: nat, a: Action)
    requires Inv(st) && Enabled(st, t, a)
    ensures Inv(Next(st, t, a))
  {
    var st' := Next(st, t, a);
    KeepsFrame(st, t, a);
    ChangesOnly(st, t, a);
    forall o: nat | o < |st'.objs|
      ensures ObjOk(st', o)
    {
      if a.Start? {
        StartKeepsObj(st, t, a.op, o);
      } else if a.New? || a.Default? {
        BirthKeepsObj(st, t, a, o);
      } else if !a.Continue? {
        MoveKeepsObj(st, t, a, o);
      } else {
        match st.threads[t] {
          case Adding(_, _) => AddKeepsObj(st, t, o);
          case Subbing(_, _, _) => SubKeepsObj(st, t, o);
          case Deleting(_, _, _) => DeleteKeepsObj(st, t, o);
          case Finishing(_, _) => FinishKeepsObj(st, t, o);
        }
      }
    }
  }

  // ---------- Whole runs ----------

  /** At the start there is no object and no variable; the number of variables and threads of a
      program is far from overflowing the counter. */
  ghost predicate Init(st: State) {
    && st.objs == []
    && (forall i :: 0 <= i < |st.places| ==> st.places[i].Unborn?)
    && (forall t :: 0 <= t < |st.threads| ==> st.threads[t].Idle?)
    && INCREMENT * (|st.places| + |st.threads|) + 4 < MODULUS
  }

  /** Any schedule of enabled steps. */
  ghost predicate Run(st: State, steps: seq<(nat, Action)>, st': State)
    decreases |steps|
  {
    if steps == [] then st == st'
    else
      var n := |steps| - 1;
      exists mid: State :: Run(st, steps[..n], mid) && Enabled(mid, steps[n].0, steps[n].1)
        && Next(mid, steps[n].0, steps[n].1) == st'
  }

  /** Between any two points of a run the invariant stays, no object is forgotten, and each keeps
      its payload. */
  lemma {:induction false} SpanKeepsInv(st: State, steps: seq<(nat, Action)>, st': State)
    requires Inv(st) && Run(st, steps, st')
    ensures Inv(st') && |st.objs| <= |st'.objs|
    ensures forall o :: 0 <= o < |st.objs| ==> st'.objs[o].payload == st.objs[o].payload
    decreases |steps|
  {
    hide Inv, Enabled, Next;
    var n := |steps| - 1;
    if steps != [] {
      var mid :| Run(st, steps[..n], mid) && Enabled(mid, steps[n].0, steps[n].1)
        && Next(mid, steps[n].0, steps[n].1) == st';
      SpanKeepsInv(st, steps[..n], mid);
      StepKeepsInv(mid, steps[n].0, steps[n].1);
      ObjsStep(mid, steps[n].0, steps[n].1);
    }
  }

  lemma InitInv(st: State)
    requires Init(st)
    ensures Inv(st)
  {
  }

  lemma {:induction false} RunKeepsInv(st: State, steps: seq<(nat, Action)>, st': State)
    requires Init(st) && Run(st, steps, st')
    ensures Inv(st')
  {
    InitInv(st);
    SpanKeepsInv(st, steps, st');
  }

  /** In every reachable state the counter is twice the number of owners plus the payload bit, and
      an object has been deleted, or is about to be, exactly when nobody owns it any more. */
  lemma {:induction false} CounterCountsOwners(st: State, steps: seq<(nat, Action)>, st': State, o: nat)
    requires Init(st) && Run(st, steps, st') && o < |st'.objs|
    ensures st'.objs[o].count == 2 * Owners(st', o) + st'.objs[o].payload
    ensures st'.objs[o].count / 2 == Owners(st', o) && st'.objs[o].count % 2 == st'.objs[o].payload
    ensures st'.objs[o].deletions + Deleters(st', o) == if Owners(st', o) == 0 then 1 else 0
  {
    RunKeepsInv(st, steps, st');
    assert ObjOk(st', o);
  }

  /** Whenever a thread is about to touch a counter, its object has not been deleted and the
      assertion on the counter holds; a thread about to delete an object is the only one. */
  lemma {:induction false} NoUseAfterDelete(st: State, steps: seq<(nat, Action)>, st': State, t: nat)
    requires Init(st) && Run(st, steps, st') && t < |st'.threads|
    requires st'.threads[t].Adding? || st'.threads[t].Subbing? || st'.threads[t].Deleting?
    ensures var id := st'.threads[t].id;
      && id < |st'.objs| && st'.objs[id].deletions == 0
      && (!st'.threads[t].Deleting? ==> st'.objs[id].count >= INCREMENT)
      && (st'.threads[t].Deleting? ==> Owners(st', id) == 0 && Deleters(st', id) == 1)
  {
    RunKeepsInv(st, steps, st');
    var id := st'.threads[t].id;
    assert PcOk(st', st'.threads[t]) && ObjOk(st', id);
    OwnersPositive(st', id);
    CountBound(st'.threads, DeletedBy, id);
    if st'.threads[t].Adding? {
      assert Owned(st'.places[st'.threads[t].op.src]) == Some(id);
    } else if st'.threads[t].Subbing? {
      assert Owned(st'.places[Released(st'.threads[t].op)]) == Some(id);
    } else {
      assert DeletedBy(st'.threads[t]) == Some(id);
    }
  }

  /** The releases of `o` that see a counter below 4. */
  predicate IsLastRelease(st: State, t: nat, a: Action, o: nat) {
    && a.Continue? && t < |st.threads| && st.threads[t].Subbing? && st.threads[t].id == o
    && o < |st.objs| && st.objs[o].count < 4
  }

  ghost predicate RunWithLast(st: State, steps: seq<(nat, Action)>, st': State, o: nat, n: nat)
    decreases |steps|
  {
    if steps == [] then st == st' && n == 0
    else
      var k := |steps| - 1;
      exists mid: State, m: nat :: RunWithLast(st, steps[..k], mid, o, m)
        && Enabled(mid, steps[k].0, steps[k].1) && Next(mid, steps[k].0, steps[k].1) == st'
        && n == m + (if IsLastRelease(mid, steps[k].0, steps[k].1, o) then 1 else 0)
  }

  /** One step: the number of owners drops to zero by a last release and in no other way. */
  lemma {:induction false} OneStepLast(st: State, t: nat, a: Action, o: nat)
    requires Inv(st) && Enabled(st, t, a)
    ensures var st' := Next(st, t, a);
      (if o < |st'.objs| && Owners(st', o) == 0 then 1 else 0)
      == (if o < |st.objs| && Owners(st, o) == 0 then 1 else 0) + (if IsLastRelease(st, t, a, o) then 1 else 0)
  {
    var st' := Next(st, t, a);
    StepKeepsInv(st, t, a);
    ObjsStep(st, t, a);
    if o < |st'.objs| {
      assert ObjOk(st', o);
      assert o < |st.objs| ==> ObjOk(st, o);
      if a.Continue? {
        ThreadStep(st, t, st'.threads[t], o);
      } else if a.New? && o == |st.objs| {
        assert Owned(st'.places[a.dst]) == Some(o);
        OwnersPositive(st', o);
      } else if a.Start? {
        ThreadStep(st, t, StartPc(st, a.op), o);
      }
    }
  }

  /** Objects are never forgotten and keep their payload. */
  lemma ObjsStep(st: State, t: nat, a: Action)
    requires Enabled(st, t, a)
    ensures var st' := Next(st, t, a);
      |st.objs| <= |st'.objs| <= |st.objs| + (if a.New? then 1 else 0)
      && forall o :: 0 <= o < |st.objs| ==> st'.objs[o].payload == st.objs[o].payload
  {
  }

  lemma {:induction false} CountedRunIsRun(st: State, steps: seq<(nat, Action)>, st': State, o: nat, n: nat)
    requires RunWithLast(st, steps, st', o, n)
    ensures Run(st, steps, st')
    decreases |steps|
  {
    var k := |steps| - 1;
    if steps != [] {
      var mid, m: nat :| RunWithLast(st, steps[..k], mid, o, m)
        && Enabled(mid, steps[k].0, steps[k].1) && Next(mid, steps[k].0, steps[k].1) == st'
        && n == m + (if IsLastRelease(mid, steps[k].0, steps[k].1, o) then 1 else 0);
      CountedRunIsRun(st, steps[..k], mid, o, m);
    }
  }

  /** Over a whole run exactly one release of an object sees such a counter if nobody owns the
      object at the end, and none does otherwise. */
  lemma {:induction false} ExactlyOneLastRelease(st: State, steps: seq<(nat, Action)>, st': State, o: nat, n: nat)
    requires Init(st) && RunWithLast(st, steps, st', o, n)
    ensures n == if o < |st'.objs| && Owners(st', o) == 0 then 1 else 0
    decreases |steps|
  {
    var k := |steps| - 1;
    if steps != [] {
      var mid, m: nat :| RunWithLast(st, steps[..k], mid, o, m)
        && Enabled(mid, steps[k].0, steps[k].1) && Next(mid, steps[k].0, steps[k].1) == st'
        && n == m + (if IsLastRelease(mid, steps[k].0, steps[k].1, o) then 1 else 0);
      ExactlyOneLastRelease(st, steps[..k], mid, o, m);
      CountedRunIsRun(st, steps[..k], mid, o, m);
      RunKeepsInv(st, steps[..k], mid);
      OneStepLast(mid, steps[k].0, steps[k].1, o);
    }
  }

  /** No operation gets stuck, and none takes more than four steps. */
  function StepsLeft(pc: Pc): nat {
    match pc
    case Idle => 0
    case Finishing(_, _) => 1
    case Deleting(_, _, _) => 2
    case Subbing(_, _, _) => 3
    case Adding(_, _) => 4
  }

  lemma ContinueShortens(st: State, t: nat)
    requires Enabled(st, t, Continue)
    ensures StepsLeft(Next(st, t, Continue).threads[t]) < StepsLeft(st.threads[t]) <= 4
  {
  }

  lemma {:induction false} OperationsFinish(st: State, steps: seq<(nat, Action)>, st': State, t: nat)
    requires Init(st) && Run(st, steps, st') && t < |st'.threads| && st'.threads[t] != Idle
    ensures Enabled(st', t, Continue)
    ensures StepsLeft(Next(st', t, Continue).threads[t]) < StepsLeft(st'.threads[t]) <= 4
  {
    hide Next, PcOk, StepsLeft;
    RunKeepsInv(st, steps, st');
    ContinueShortens(st', t);
  }

  /** When all threads are idle and no variable is left, every object has been deleted exactly once. */
  lemma {:induction false} NoLeaks(st: State, steps: seq<(nat, Action)>, st': State, o: nat)
    requires Init(st) && Run(st, steps, st') && o < |st'.objs|
    requires forall t :: 0 <= t < |st'.threads| ==> st'.threads[t].Idle?
    ensures st'.objs[o].deletions <= 1
    ensures st'.objs[o].deletions == 1 <==>
      forall i :: 0 <= i < |st'.places| && st'.places[i].Held? ==> st'.places[i].ptr != Some(o)
  {
    RunKeepsInv(st, steps, st');
    assert ObjOk(st', o);
    CountBound(st'.places, Owned, o);
    CountBound(st'.threads, HeldBy, o);
    CountBound(st'.threads, DeletedBy, o);
    forall i | 0 <= i < |st'.places| && st'.places[i].Held?
      ensures st'.places[i].owns
    {
      assert !InRelease(st', i);
    }
    assert forall i :: 0 <= i < |st'.places| && st'.places[i].Held? ==> Owned(st'.places[i]) == st'.places[i].ptr;
  }

  /** From its construction on, in whatever run, the payload bit of an object's counter is the
      argument of its constructor. */
  lemma {:induction false} PayloadNeverChanges(
    st: State, before: seq<(nat, Action)>, mid: State, t: nat, dst: nat, payload: nat,
    after: seq<(nat, Action)>, st': State)
    requires Init(st) && Run(st, before, mid)
    requires Enabled(mid, t, New(dst, payload)) && Run(Next(mid, t, New(dst, payload)), after, st')
    ensures |mid.objs| < |st'.objs| && PayloadBit(st', |mid.objs|) == payload
  {
    hide Inv;
    RunKeepsInv(st, before, mid);
    StepKeepsInv(mid, t, New(dst, payload));
    SpanKeepsInv(Next(mid, t, New(dst, payload)), after, st');
    PayloadIsBit(st', |mid.objs|);
  }

  /** `getRefCountPayload`. */
  function PayloadBit(st: State, o: nat): nat
    requires o < |st.objs|
  {
    st.objs[o].count % INCREMENT
  }

  lemma PayloadIsBit(st: State, o: nat)
    requires o < |st.objs| && Inv(st)
    ensures PayloadBit(st, o) == st.objs[o].payload
  {
    assert ObjOk(st, o);
  }
}
