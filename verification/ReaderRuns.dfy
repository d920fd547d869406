/** Properties of the readers over whole runs, and the agreement of the two pattern matchers. */
module ReaderRuns {
  import opened Basics
  import opened Search
  import opened DataReaders

  // ---------- The two pattern matchers ----------

  lemma OccursInSlice(data: string, offset: nat, pattern: string, k: nat)
    requires offset <= |data|
    ensures OccursAt(data[offset..], pattern, k) <==> OccursAt(data, pattern, offset + k)
  {
    if offset + k + |pattern| <= |data| {
      assert data[offset..][k..k + |pattern|] == data[offset + k..offset + k + |pattern|];
    }
  }

  /** The in-memory override delivers what a pattern read must deliver. */
  lemma MemoryUntilIsReadUntil(data: string, st: ReaderState, pattern: string)
    requires ValidState(data, st) && st.offset >= 0
    ensures var r := MemoryUntil(data, st, pattern);
      r.Returned? && IsReadUntil(data[st.offset..], pattern, r.found, r.consumed)
  {
    var rest, r := data[st.offset..], Find(data, pattern, st.offset);
    forall k: nat
      ensures OccursAt(rest, pattern, k) <==> OccursAt(data, pattern, st.offset + k)
    {
      OccursInSlice(data, st.offset, pattern, k);
    }
    if r.Some? {
      var k := r.value - st.offset;
      assert FirstOccurrence(rest, pattern, k);
      assert rest[..k + |pattern|] == data[st.offset..r.value + |pattern|];
    }
  }

  /** Whatever the online matcher returns, the in-memory reader returns. */
  ghost predicate Agree(data: string, offset: nat, pattern: string)
    requires offset <= |data|
  {
    forall found, consumed :: IsReadUntil(data[offset..], CString(pattern), found, consumed) ==>
      MemoryUntil(data, ReaderState(false, offset, Ok), pattern) == Returned(found, consumed)
  }

  /** The online matcher stops at the first NUL of a pattern, the in-memory one does not: the two
      agree on a read exactly when there is no NUL, or what stands before it is not found either. */
  lemma MatchersAgreeOn(data: string, offset: nat, pattern: string)
    requires offset <= |data|
    ensures Agree(data, offset, pattern) <==>
      '\0' !in pattern || forall k: nat :: !OccursAt(data[offset..], CString(pattern), k)
  {
    var rest, p, st := data[offset..], CString(pattern), ReaderState(false, offset, Ok);
    MemoryUntilIsReadUntil(data, st, pattern);
    var r := MemoryUntil(data, st, pattern);
    if '\0' !in pattern {
      assert p == pattern;
      forall found, consumed | IsReadUntil(rest, pattern, found, consumed)
        ensures r == Returned(found, consumed)
      {
        ReadUntilUnique(rest, pattern, found, consumed, r.found, r.consumed);
      }
    } else if k: nat :| OccursAt(rest, p, k) {
      FoundEarlier(rest, pattern, r.found, r.consumed);
    } else {
      NotFoundEither(rest, pattern, r.found, r.consumed);
    }
  }

  lemma BeginningOccurs(rest: string, pattern: string, i: nat)
    requires OccursAt(rest, pattern, i)
    ensures OccursAt(rest, CString(pattern), i)
  {
    var n := |CString(pattern)|;
    assert rest[i..i + n] == rest[i..i + |pattern|][..n];
  }

  /** What stands before the NUL is found, and its read ends before one of the whole pattern. */
  lemma FoundEarlier(rest: string, pattern: string, found: bool, consumed: string)
    requires '\0' in pattern && IsReadUntil(rest, pattern, found, consumed)
    requires exists k: nat :: OccursAt(rest, CString(pattern), k)
    ensures exists c :: IsReadUntil(rest, CString(pattern), true, c) && !(found && consumed == c)
  {
    var p := CString(pattern);
    var j: nat :| OccursAt(rest, p, j);
    var k := Find(rest, p, 0).value;
    var c := rest[..k + |p|];
    assert FirstOccurrence(rest, p, k) && IsReadUntil(rest, p, true, c);
    if found {
      var i: nat :| FirstOccurrence(rest, pattern, i) && consumed == rest[..i + |pattern|];
      BeginningOccurs(rest, pattern, i);
      assert |c| < |consumed|;
    }
  }

  lemma NotFoundEither(rest: string, pattern: string, found: bool, consumed: string)
    requires IsReadUntil(rest, pattern, found, consumed)
    requires forall k: nat :: !OccursAt(rest, CString(pattern), k)
    ensures !found && consumed == rest
  {
    if found {
      var i: nat :| FirstOccurrence(rest, pattern, i) && consumed == rest[..i + |pattern|];
      BeginningOccurs(rest, pattern, i);
    }
  }

  /** So they agree on all inputs exactly when the pattern has no NUL. */
  lemma MatchersAgree(pattern: string)
    ensures (forall data: string, offset: nat | offset <= |data| :: Agree(data, offset, pattern))
            <==> '\0' !in pattern
  {
    forall data: string, offset: nat | offset <= |data|
      ensures '\0' !in pattern ==> Agree(data, offset, pattern)
    {
      MatchersAgreeOn(data, offset, pattern);
    }
    var p := CString(pattern);
    assert p[0..] == p && p[0..0 + |p|] == p;
    if '\0' in pattern {
      assert OccursAt(p[0..], CString(pattern), 0);
      MatchersAgreeOn(p, 0, pattern);
      assert Agree(p, 0, pattern) <==> forall k: nat :: !OccursAt(p[0..], CString(pattern), k);
    }
  }

  // ---------- Runs of the in-memory reader ----------

  datatype Op = Seek(position: int) | Read(n: int) | Until(pattern: string)

  /** The state after an operation and the bytes it delivered, or an exception. */
  datatype Outcome = Next(st: ReaderState, bytes: string) | Threw

  function Step(data: string, st: ReaderState, op: Op): Outcome
    requires ValidState(data, st)
  {
    match op
    case Seek(p) => Next(AfterSeek(data, st, p), "")
    case Read(n) => Next(AfterRead(data, st, n), Delivered(data, st, n))
    case Until(p) =>
      var r := MemoryUntil(data, st, p);
      if r.OutOfRange? then Threw else Next(AfterUntil(data, st, p), r.consumed)
  }

  lemma StepValid(data: string, st: ReaderState, op: Op)
    requires ValidState(data, st)
    ensures var r := Step(data, st, op);
      && (r.Threw? <==> op.Until? && st.offset == -1)
      && (r.Next? ==> ValidState(data, r.st))
      && (r.Next? && !op.Seek? && st.offset >= 0 ==>
            st.offset <= r.st.offset && r.bytes == data[st.offset..r.st.offset])
  {
  }

  function Run(data: string, st: ReaderState, ops: seq<Op>): (r: Outcome)
    requires ValidState(data, st)
    ensures r.Next? ==> ValidState(data, r.st)
    decreases |ops|
  {
    if ops == [] then Next(st, "")
    else
      StepValid(data, st, ops[0]);
      match Step(data, st, ops[0])
      case Threw => Threw
      case Next(st', bytes) =>
        match Run(data, st', ops[1..])
        case Threw => Threw
        case Next(st'', bytes') => Next(st'', bytes + bytes')
  }

  /** Between seeks, whatever the mixture of reads, the bytes delivered are the exact slice of the
      data between the two offsets, and nothing throws. */
  lemma {:induction false} ReadsConcatenate(data: string, st: ReaderState, ops: seq<Op>)
    requires ValidState(data, st) && st.offset >= 0
    requires forall i :: 0 <= i < |ops| ==> !ops[i].Seek?
    ensures var r := Run(data, st, ops);
      r.Next? && st.offset <= r.st.offset <= |data| && r.bytes == data[st.offset..r.st.offset]
    decreases |ops|
  {
    if ops != [] {
      StepValid(data, st, ops[0]);
      var first := Step(data, st, ops[0]);
      ReadsConcatenate(data, first.st, ops[1..]);
      Join(data, st.offset, first.st.offset, Run(data, st, ops).st.offset);
    }
  }

  /** What a read after a seek delivers, from any state: the bytes from the position on, unless the
      reader was done and has not been moved back.  The end is noticed when it is reached. */
  lemma SeekThenRead(data: string, st: ReaderState, position: nat, n: nat)
    requires ValidState(data, st)
    ensures var r := Run(data, st, [Seek(position), Read(n)]);
      var from := if position < |data| then position else |data|;
      var to := if position + n < |data| then position + n else |data|;
      && r.Next? && r.st.status.Ok?
      && if st.done && 0 <= st.offset <= position then r.bytes == "" && r.st.offset == from && r.st.done
         else r.bytes == data[from..to] && r.st.offset == to && (n > 0 ==> (r.st.done <==> from + n >= |data|))
  {
    var sought := AfterSeek(data, st, position);
    var ops := [Seek(position), Read(n)];
    assert ops[1..] == [Read(n)] && ops[1..][1..] == [];
    assert Run(data, AfterRead(data, sought, n), []) == Next(AfterRead(data, sought, n), "");
    assert Run(data, sought, [Read(n)]) == Next(AfterRead(data, sought, n), Delivered(data, sought, n) + "");
  }

  /** "Done without an error" means that the data is exhausted. */
  ghost predicate DoneMeansEnd(data: string, st: ReaderState) {
    st.done && st.status.Ok? ==> st.offset == |data|
  }

  /** A single step loses that meaning exactly when it is a seek that does not move back, short of
      the end, of a reader that an error had stopped where it was: the seek clears the error but
      not the done flag. */
  lemma DoneMeansEndStep(data: string, st: ReaderState, op: Op)
    requires ValidState(data, st) && DoneMeansEnd(data, st)
    requires Step(data, st, op).Next?
    ensures DoneMeansEnd(data, Step(data, st, op).st) <==>
      !(op.Seek? && st.status.Error? && 0 <= st.offset <= op.position < |data|)
  {
  }

  /** Only a read of negative size stops the reader with an error in the middle of the data, so
      runs without one keep the meaning of the done flag. */
  ghost predicate Sound(data: string, st: ReaderState) {
    DoneMeansEnd(data, st) && (st.status.Error? ==> st.offset == -1)
  }

  lemma {:induction false} RunsAreSound(data: string, st: ReaderState, ops: seq<Op>)
    requires ValidState(data, st) && Sound(data, st)
    requires forall i :: 0 <= i < |ops| && ops[i].Read? ==> ops[i].n >= 0
    ensures var r := Run(data, st, ops); r.Next? ==> Sound(data, r.st)
    decreases |ops|
  {
    if ops != [] && Step(data, st, ops[0]).Next? {
      StepValid(data, st, ops[0]);
      var st' := Step(data, st, ops[0]).st;
      assert Sound(data, st');
      RunsAreSound(data, st', ops[1..]);
    }
  }

  /** The run that shows why negative reads are excluded. */
  lemma NegativeReadThenSeek(data: string, position: nat)
    requires position < |data|
    ensures var r := Run(data, InitialState(data), [Read(-1), Seek(position)]);
      r.Next? && r.st == ReaderState(true, position, Ok) && !DoneMeansEnd(data, r.st)
  {
    var st := InitialState(data);
    var ops := [Read(-1), Seek(position)];
    var st1 := AfterRead(data, st, -1);
    assert ops[1..] == [Seek(position)];
    assert Run(data, AfterSeek(data, st1, position), ops[1..][1..]) == Next(AfterSeek(data, st1, position), "");
    assert Run(data, st1, ops[1..]).st == AfterSeek(data, st1, position);
  }
}
