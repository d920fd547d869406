/** The tagged pointer of kwctoolkit/base/result.{h,cc} and its life over moves, copies and
    deliveries. */
module Results {
  import opened Basics

  type Word = bv64

  const SUCCESS: Word := 0
  const ERROR: Word := 1
  const EMPTY: Word := 2

  predicate Aligned(ptr: Word) {
    ptr & 3 == 0
  }

  function CreatePayload(ptr: Word, tag: Word): Word {
    ptr | tag
  }

  function GetPayload(payload: Word): Word {
    payload & 3
  }

  /** Both the tag and the pointer can be recovered, for every 4-aligned pointer, null included; and
      no value looks like the empty payload. */
  lemma PayloadRoundTrip(ptr: Word)
    requires Aligned(ptr)
    ensures GetPayload(CreatePayload(ptr, SUCCESS)) == SUCCESS && CreatePayload(ptr, SUCCESS) == ptr
    ensures GetPayload(CreatePayload(ptr, ERROR)) == ERROR && CreatePayload(ptr, ERROR) ^ 1 == ptr
    ensures GetPayload(EMPTY) == 2
    ensures GetPayload(EMPTY) != SUCCESS && GetPayload(EMPTY) != ERROR
  {
  }

  /** What a result carries. */
  datatype Value = Success(ptr: Word) | Error(ptr: Word)

  function Encode(v: Value): Word {
    match v
    case Success(p) => CreatePayload(p, SUCCESS)
    case Error(p) => CreatePayload(p, ERROR)
  }

  function Decode(payload: Word): Option<Value> {
    if GetPayload(payload) == SUCCESS then Some(Success(payload))
    else if GetPayload(payload) == ERROR then Some(Error(payload ^ 1))
    else None
  }

  lemma DecodeEncode(v: Value)
    requires Aligned(v.ptr)
    ensures Decode(Encode(v)) == Some(v)
  {
    PayloadRoundTrip(v.ptr);
  }

  const NULL: Word := 0

  /** A `Result<T*, E>`, or a `Result<Ref<T>, E>` if `counted`, whose success is handed to `AcquireRef`. */
  class Result {
    const counted: bool
    var payload: Word

    /** From a success pointer or from an error's released pointer. */
    constructor (counted: bool, v: Value)
      requires Aligned(v.ptr)
      ensures this.counted == counted && Decode(payload) == Some(v)
    {
      this.counted, payload := counted, Encode(v);
      DecodeEncode(v);
    }

    constructor Moved(other: Result)
      modifies other
      ensures counted == other.counted && payload == old(other.payload) && other.payload == EMPTY
    {
      counted, payload := other.counted, other.payload;
      new;
      other.payload := EMPTY;
    }

    /** The target must have been emptied; assigning a result to itself empties it for good. */
    method Assign(other: Result)
      requires payload == EMPTY && counted == other.counted
      modifies this, other
      ensures other.payload == EMPTY && (other != this ==> payload == old(other.payload))
    {
      payload := other.payload;
      other.payload := EMPTY;
    }

    /** The move operations are templates, so the compiler provides copy operations as well. */
    constructor Copied(other: Result)
      ensures counted == other.counted && payload == other.payload
    {
      counted, payload := other.counted, other.payload;
    }

    /** Unlike `Assign`, this one does not ask for an emptied target. */
    method AssignCopy(other: Result)
      requires counted == other.counted
      modifies this
      ensures payload == old(other.payload) && other.payload == old(other.payload)
    {
      payload := other.payload;
    }

    predicate IsSuccess()
      reads this
    {
      GetPayload(payload) == SUCCESS
    }

    predicate IsError()
      reads this
    {
      GetPayload(payload) == ERROR
    }

    method GetSuccess() returns (ptr: Word)
      requires IsSuccess() && !counted
      modifies this
      ensures old(Decode(payload)) == Some(Success(ptr)) && payload == EMPTY
    {
      ptr := payload;
      payload := EMPTY;
    }

    /** The success of a `Result<Ref<T>, E>`: `AcquireRef` calls a member of the object. */
    method GetReference() returns (ptr: Word)
      requires IsSuccess() && counted && payload != NULL
      modifies this
      ensures old(Decode(payload)) == Some(Success(ptr)) && ptr != NULL && payload == EMPTY
    {
      ptr := payload;
      payload := EMPTY;
    }

    method GetError() returns (ptr: Word)
      requires IsError()
      modifies this
      ensures old(Decode(payload)) == Some(Error(ptr)) && payload == EMPTY
    {
      ptr := payload ^ 1;
      payload := EMPTY;
    }
  }

  // ---------- Runs over a pool of results ----------

  /** All results of one of the two types by their payloads, what was put in, what was taken out, and
      what copying has added and overwritten. */
  datatype Pool = Pool(
    counted: bool, cells: seq<Word>,
    made: multiset<Value>, delivered: multiset<Value>, copied: multiset<Value>, lost: multiset<Value>)

  datatype Op = Make(i: nat, v: Value) | Transfer(from: nat, to: nat) | Copy(from: nat, to: nat) | Deliver(i: nat)

  function Content(payload: Word): multiset<Value> {
    if Decode(payload).Some? then multiset{Decode(payload).value} else multiset{}
  }

  /** A null reference cannot be delivered. */
  predicate CanDeliver(counted: bool, payload: Word) {
    Decode(payload).Some? && !(counted && payload == NULL)
  }

  predicate Enabled(pool: Pool, op: Op) {
    match op
    case Make(i, v) => i < |pool.cells| && pool.cells[i] == EMPTY && Aligned(v.ptr)
    case Transfer(from, to) => from < |pool.cells| && to < |pool.cells| && pool.cells[to] == EMPTY
    case Copy(from, to) => from < |pool.cells| && to < |pool.cells|
    case Deliver(i) => i < |pool.cells| && CanDeliver(pool.counted, pool.cells[i])
  }

  function Step(pool: Pool, op: Op): Pool
    requires Enabled(pool, op)
  {
    match op
    case Make(i, v) => pool.(cells := pool.cells[i := Encode(v)], made := pool.made + multiset{v})
    case Transfer(from, to) => pool.(cells := pool.cells[to := pool.cells[from]][from := EMPTY])
    case Copy(from, to) =>
      pool.(cells := pool.cells[to := pool.cells[from]],
            copied := pool.copied + Content(pool.cells[from]),
            lost := pool.lost + Content(pool.cells[to]))
    case Deliver(i) =>
      pool.(cells := pool.cells[i := EMPTY], delivered := pool.delivered + Content(pool.cells[i]))
  }

  ghost predicate Run(pool: Pool, ops: seq<Op>, pool': Pool)
    decreases |ops|
  {
    if ops == [] then pool == pool'
    else Enabled(pool, ops[0]) && Run(Step(pool, ops[0]), ops[1..], pool')
  }

  /** How many results carry `v`. */
  function Carriers(cells: seq<Word>, v: Value): nat {
    if cells == [] then 0 else Carriers(cells[..|cells| - 1], v) + Carries(cells[|cells| - 1], v)
  }

  function Carries(payload: Word, v: Value): nat {
    if Decode(payload) == Some(v) then 1 else 0
  }

  lemma {:induction false} CarriersUpdate(cells: seq<Word>, i: nat, payload: Word, v: Value)
    requires i < |cells|
    ensures Carriers(cells[i := payload], v) + Carries(cells[i], v) == Carriers(cells, v) + Carries(payload, v)
    decreases |cells|
  {
    var n := |cells| - 1;
    if i == n {
      assert cells[i := payload][..n] == cells[..n];
    } else {
      assert cells[i := payload][..n] == cells[..n][i := payload];
      CarriersUpdate(cells[..n], i, payload, v);
    }
  }

  /** Nothing is lost, duplicated or changed but by copying: what was put in is what was taken out plus
      what is still there, whatever the moves. */
  ghost predicate Conserved(pool: Pool) {
    forall v :: pool.made[v] + pool.copied[v] == pool.delivered[v] + pool.lost[v] + Carriers(pool.cells, v)
  }

  /** What the words in a pool account for. */
  lemma CarriesContent(payload: Word, v: Value)
    ensures Content(payload)[v] == Carries(payload, v) && Carries(EMPTY, v) == 0
  {
    hide Decode;
    EmptyContent();
  }

  lemma EmptyContent()
    ensures Decode(EMPTY) == None
  {
  }

  lemma CarriesValue(w: Value, v: Value)
    requires Aligned(w.ptr)
    ensures Carries(Encode(w), v) == multiset{w}[v]
  {
    hide Decode, Encode;
    DecodeEncode(w);
  }

  lemma StepConserves(pool: Pool, op: Op)
    requires Enabled(pool, op) && Conserved(pool)
    ensures Conserved(Step(pool, op))
  {
    hide Decode, Encode, Carries, Content, Carriers, CanDeliver;
    var pool' := Step(pool, op);
    forall v
      ensures pool'.made[v] + pool'.copied[v] == pool'.delivered[v] + pool'.lost[v] + Carriers(pool'.cells, v)
    {
      match op
      case Make(i, w) =>
        CarriesContent(pool.cells[i], v);
        CarriesValue(w, v);
        CarriersUpdate(pool.cells, i, Encode(w), v);
      case Transfer(from, to) =>
        CarriesContent(pool.cells[to], v);
        CarriersUpdate(pool.cells, to, pool.cells[from], v);
        CarriersUpdate(pool.cells[to := pool.cells[from]], from, EMPTY, v);
      case Copy(from, to) =>
        CarriesContent(pool.cells[from], v);
        CarriesContent(pool.cells[to], v);
        CarriersUpdate(pool.cells, to, pool.cells[from], v);
      case Deliver(i) =>
        CarriesContent(pool.cells[i], v);
        CarriersUpdate(pool.cells, i, EMPTY, v);
    }
  }

  lemma {:induction false} RunConserves(pool: Pool, ops: seq<Op>, pool': Pool)
    requires Conserved(pool) && Run(pool, ops, pool')
    ensures Conserved(pool')
    decreases |ops|
  {
    if ops != [] {
      StepConserves(pool, ops[0]);
      RunConserves(Step(pool, ops[0]), ops[1..], pool');
    }
  }

  /** When every result has been emptied, as its destructor asserts, everything has been delivered
      exactly as often as it was made, if and only if copies have added what they have overwritten. */
  lemma AllDelivered(pool: Pool, ops: seq<Op>, pool': Pool)
    requires Conserved(pool) && Run(pool, ops, pool')
    requires Emptied(pool'.cells)
    ensures pool'.made + pool'.copied == pool'.delivered + pool'.lost
    ensures pool'.made == pool'.delivered <==> pool'.copied == pool'.lost
  {
    RunConserves(pool, ops, pool');
    forall v
      ensures pool'.made[v] + pool'.copied[v] == pool'.delivered[v] + pool'.lost[v]
    {
      NothingLeft(pool'.cells, v);
    }
  }

  // ---------- Copies ----------

  /** No result that carries something is overwritten by a copy. */
  predicate OnlyIntoEmpty(pool: Pool, ops: seq<Op>)
    decreases |ops|
  {
    ops == [] ||
    (Enabled(pool, ops[0]) && (ops[0].Copy? ==> pool.cells[ops[0].to] == EMPTY) &&
     OnlyIntoEmpty(Step(pool, ops[0]), ops[1..]))
  }

  /** No result that carries something is copied. */
  predicate OnlyFromEmpty(pool: Pool, ops: seq<Op>)
    decreases |ops|
  {
    ops == [] ||
    (Enabled(pool, ops[0]) && (ops[0].Copy? ==> pool.cells[ops[0].from] == EMPTY) &&
     OnlyFromEmpty(Step(pool, ops[0]), ops[1..]))
  }

  lemma StepCopies(pool: Pool, op: Op)
    requires Sound(pool) && Enabled(pool, op)
    ensures var pool' := Step(pool, op);
      && pool.copied <= pool'.copied
      && (pool'.copied == pool.copied <==> op.Copy? ==> pool.cells[op.from] == EMPTY)
      && ((op.Copy? ==> pool.cells[op.to] == EMPTY) ==> pool'.lost == pool.lost)
  {
    hide Decode, Encode, Conserved, CanDeliver;
    EmptyContent();
    if op.Copy? && Decode(pool.cells[op.from]).Some? {
      var v := Decode(pool.cells[op.from]).value;
      assert Step(pool, op).copied[v] == pool.copied[v] + 1;
    }
  }

  lemma {:induction false} RunCopies(pool: Pool, ops: seq<Op>, pool': Pool)
    requires Sound(pool) && Run(pool, ops, pool') && OnlyIntoEmpty(pool, ops)
    ensures pool'.lost == pool.lost && pool.copied <= pool'.copied
    ensures pool'.copied == pool.copied <==> OnlyFromEmpty(pool, ops)
    decreases |ops|
  {
    hide Sound, Step, Enabled;
    if ops != [] {
      StepCopies(pool, ops[0]);
      StepKeepsSound(pool, ops[0]);
      RunCopies(Step(pool, ops[0]), ops[1..], pool');
      Between(pool.copied, Step(pool, ops[0]).copied, pool'.copied);
    }
  }

  lemma Between(a: multiset<Value>, b: multiset<Value>, c: multiset<Value>)
    requires a <= b <= c
    ensures a == c <==> a == b && b == c
  {
    if a == c {
      forall v
        ensures a[v] == b[v]
      {
        assert a[v] <= b[v] <= c[v];
      }
    }
  }

  /** A program that overwrites no value with a copy and has emptied all its results has delivered
      each value exactly as often as it was made, if and only if it has copied no value either. */
  lemma {:induction false} DeliveredAsMadeIff(pool: Pool, ops: seq<Op>, pool': Pool)
    requires Fresh(pool) && Run(pool, ops, pool') && OnlyIntoEmpty(pool, ops) && Emptied(pool'.cells)
    ensures pool'.made == pool'.delivered <==> OnlyFromEmpty(pool, ops)
  {
    FreshIsSound(pool);
    RunCopies(pool, ops, pool');
    AllDelivered(pool, ops, pool');
  }

  lemma {:induction false} NothingLeft(cells: seq<Word>, v: Value)
    requires Emptied(cells)
    ensures Carriers(cells, v) == 0
    decreases |cells|
  {
    if cells != [] {
      NothingLeft(cells[..|cells| - 1], v);
    }
  }

  // ---------- What cannot be delivered ----------

  /** A made value can be delivered unless it is a null success of a `Result<Ref<T>, E>`. */
  lemma DeliverableIff(counted: bool, v: Value)
    requires Aligned(v.ptr)
    ensures CanDeliver(counted, Encode(v)) <==> !(counted && v == Success(NULL))
  {
    DecodeEncode(v);
    PayloadRoundTrip(v.ptr);
    assert GetPayload(NULL) == SUCCESS;
  }

  predicate Emptied(cells: seq<Word>) {
    forall i :: 0 <= i < |cells| ==> cells[i] == EMPTY
  }

  predicate Fresh(pool: Pool) {
    Emptied(pool.cells) && pool.made == pool.delivered == pool.copied == pool.lost == multiset{}
  }

  /** What holds throughout a program: no other payloads than those of values and the empty one, only
      what was made is copied, and no null reference has been delivered. */
  ghost predicate Sound(pool: Pool) {
    && Conserved(pool)
    && (forall i :: 0 <= i < |pool.cells| ==> pool.cells[i] == EMPTY || Decode(pool.cells[i]).Some?)
    && (forall v :: pool.made[v] == 0 ==> pool.copied[v] == 0)
    && (pool.counted ==> pool.delivered[Success(NULL)] == 0)
  }

  lemma FreshIsSound(pool: Pool)
    requires Fresh(pool)
    ensures Sound(pool)
  {
    forall v
      ensures Carriers(pool.cells, v) == 0
    {
      NothingLeft(pool.cells, v);
    }
  }

  lemma StepKeepsSound(pool: Pool, op: Op)
    requires Enabled(pool, op) && Sound(pool)
    ensures var pool' := Step(pool, op);
      && Sound(pool') && pool'.counted == pool.counted && pool.made <= pool'.made && pool.copied <= pool'.copied
  {
    hide Decode, Encode, Conserved, Content;
    StepConserves(pool, op);
    EmptyContent();
    NullContent();
    match op
    case Make(_, v) => DecodeEncode(v);
    case Copy(from, _) => CopiesOfMade(pool, from);
    case Deliver(i) => OnlyContent(pool.cells[i]);
    case _ =>
  }

  lemma NullContent()
    ensures Decode(NULL) == Some(Success(NULL))
    ensures forall p :: Decode(p) == Some(Success(NULL)) ==> p == NULL
  {
  }

  lemma OnlyContent(payload: Word)
    ensures forall v :: v in Content(payload) ==> Decode(payload) == Some(v)
  {
    hide Decode;
  }

  lemma CopiesOfMade(pool: Pool, i: nat)
    requires Sound(pool) && i < |pool.cells|
    ensures forall v :: pool.made[v] == 0 ==> Content(pool.cells[i])[v] == 0
  {
    forall v | pool.made[v] == 0
      ensures Decode(pool.cells[i]) != Some(v)
    {
      NotCarried(pool.cells, v, i);
    }
  }

  lemma {:induction false} RunKeepsSound(pool: Pool, ops: seq<Op>, pool': Pool)
    requires Sound(pool) && Run(pool, ops, pool')
    ensures Sound(pool') && pool'.counted == pool.counted
    ensures pool.made <= pool'.made && pool.copied <= pool'.copied
    decreases |ops|
  {
    hide Sound, Step;
    if ops != [] {
      StepKeepsSound(pool, ops[0]);
      RunKeepsSound(Step(pool, ops[0]), ops[1..], pool');
    }
  }

  lemma {:induction false} NotCarried(cells: seq<Word>, v: Value, i: nat)
    requires Carriers(cells, v) == 0 && i < |cells|
    ensures Decode(cells[i]) != Some(v)
    decreases |cells|
  {
    if i < |cells| - 1 {
      NotCarried(cells[..|cells| - 1], v, i);
    }
  }

  /** Delivers what the results from the `k`-th on carry. */
  lemma {:induction false} DeliverFrom(pool: Pool, k: nat) returns (more: seq<Op>, end: Pool)
    requires k <= |pool.cells| && Emptied(pool.cells[..k])
    requires forall i :: 0 <= i < |pool.cells| ==> pool.cells[i] == EMPTY || CanDeliver(pool.counted, pool.cells[i])
    ensures Run(pool, more, end) && Emptied(end.cells) && end.lost == pool.lost
    decreases |pool.cells| - k
  {
    hide CanDeliver, Decode;
    if k == |pool.cells| {
      more, end := [], pool;
      assert pool.cells[..k] == pool.cells;
    } else if pool.cells[k] == EMPTY {
      more, end := DeliverFrom(pool, k + 1);
    } else {
      var next := Step(pool, Deliver(k));
      more, end := DeliverFrom(next, k + 1);
      assert ([Deliver(k)] + more)[1..] == more;
      more := [Deliver(k)] + more;
    }
  }

  /** A program can still empty all its results, as their destructors demand, without overwriting one
      that carries something, exactly if none carries a null reference.  If it has never overwritten
      one, this means that it has put no null reference into one. */
  lemma {:induction false} CanBeEmptiedIff(pool: Pool, ops: seq<Op>, pool': Pool)
    requires Fresh(pool) && Run(pool, ops, pool')
    ensures (exists more, end :: Run(pool', more, end) && Emptied(end.cells) && end.lost == pool'.lost)
            <==> !pool.counted || Carriers(pool'.cells, Success(NULL)) == 0
    ensures pool.counted && pool'.lost == multiset{} ==>
      (Carriers(pool'.cells, Success(NULL)) == 0 <==> pool'.made[Success(NULL)] == 0)
  {
    FreshIsSound(pool);
    RunKeepsSound(pool, ops, pool');
    if more, end :| Run(pool', more, end) && Emptied(end.cells) && end.lost == pool'.lost {
      RunKeepsSound(pool', more, end);
      NothingLeft(end.cells, Success(NULL));
    }
    if !pool.counted || Carriers(pool'.cells, Success(NULL)) == 0 {
      forall i | 0 <= i < |pool'.cells|
        ensures pool'.cells[i] == EMPTY || CanDeliver(pool'.counted, pool'.cells[i])
      {
        if pool.counted {
          NotCarried(pool'.cells, Success(NULL), i);
        }
      }
      var more, end := DeliverFrom(pool', 0);
    }
  }
}
