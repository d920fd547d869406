/** The readers of kwctoolkit/serialization: `DataReader` with its chunked reads and its online
    pattern matcher, the in-memory reader that overrides the matcher, and an arbitrary
    self-advancing source (an input stream, say) that may deliver fewer bytes than asked for. */
module DataReaders {
  import opened Basics
  import opened Search

  datatype ErrorCode = UNKNOWN | INVALID_ARGUMENT | NOT_FOUND
  datatype Status = Ok | Error(code: ErrorCode)

  /** Which overrides a reader has.  A stream may come with an announced length, which need not be
      that of its data; -1 stands for none. */
  datatype Backend = InMemory | Stream(announced: int, seekable: bool)

  datatype UntilResult = Returned(found: bool, consumed: string) | OutOfRange

  const DEFAULT_BUFFER_SIZE: int := 8192

  // ---------- The state of the in-memory reader, as a value ----------

  datatype ReaderState = ReaderState(done: bool, offset: int, status: Status)

  ghost predicate ValidState(data: string, st: ReaderState) {
    && -1 <= st.offset <= |data|
    && (st.status.Error? ==> st.done)
    && (st.offset == -1 ==> st.status.Error?)
  }

  function InitialState(data: string): ReaderState {
    ReaderState(data == "", 0, Ok)
  }

  function AfterSeek(data: string, st: ReaderState, position: int): ReaderState {
    if position < 0 then ReaderState(true, -1, Error(INVALID_ARGUMENT))
    else ReaderState(st.done && !(position < st.offset || st.offset < 0), Min(position, |data|), Ok)
  }

  /** The bytes a read of `n` delivers. */
  function Delivered(data: string, st: ReaderState, n: int): string
    requires ValidState(data, st)
  {
    if st.done || n <= 0 then "" else data[st.offset..Min(st.offset + n, |data|)]
  }

  function AfterRead(data: string, st: ReaderState, n: int): ReaderState
    requires ValidState(data, st)
  {
    if n < 0 then st.(done := true, status := Error(INVALID_ARGUMENT))
    else if st.done || n == 0 then st
    else st.(done := n >= |data| - st.offset, offset := Min(st.offset + n, |data|))
  }

  function MemoryUntil(data: string, st: ReaderState, pattern: string): UntilResult
    requires ValidState(data, st)
  {
    if st.offset < 0 then OutOfRange
    else
      match Find(data, pattern, st.offset)
      case None => Returned(false, data[st.offset..])
      case Some(k) => Returned(true, data[st.offset..k + |pattern|])
  }

  function AfterUntil(data: string, st: ReaderState, pattern: string): ReaderState
    requires ValidState(data, st)
  {
    match MemoryUntil(data, st, pattern)
    case OutOfRange => st
    case Returned(_, consumed) => st.(offset := st.offset + |consumed|)
  }

  /** A read loop that started in `st`, which was not done, has come to `now`. */
  ghost predicate Progress(inMemory: bool, data: string, st: ReaderState, now: ReaderState, totalRead: nat) {
    && ValidState(data, st) && ValidState(data, now) && !st.done
    && now.offset == st.offset + totalRead
    && (now.done ==> now.offset == |data|)
    && (inMemory ==> now.status == st.status && (totalRead > 0 ==> now.done == (now.offset == |data|)))
  }

  /** Reading `n` and then `k` more bytes is reading `n + k` bytes. */
  lemma DeliveredMore(data: string, st: ReaderState, n: nat, k: nat)
    requires ValidState(data, st) && !st.done && st.offset + n + k <= |data|
    ensures Delivered(data, st, n) + data[st.offset + n..st.offset + n + k] == Delivered(data, st, n + k)
    ensures |Delivered(data, st, n)| == n
  {
    if n > 0 {
      Join(data, st.offset, st.offset + n, st.offset + n + k);
    }
  }

  lemma DeliveredSlice(data: string, st: ReaderState, n: nat)
    requires ValidState(data, st) && !st.done
    ensures var bytes := Delivered(data, st, n);
      |bytes| == Min(n, |data| - st.offset) && bytes == data[st.offset..st.offset + |bytes|]
  {
  }

  lemma DeliveredNothing(data: string, st: ReaderState)
    requires ValidState(data, st)
    ensures Delivered(data, st, 0) == ""
  {
  }

  lemma ProgressEnd(inMemory: bool, data: string, st: ReaderState, now: ReaderState, totalRead: nat, maxBytes: nat)
    requires Progress(inMemory, data, st, now, totalRead) && totalRead <= maxBytes
    requires totalRead == maxBytes || now.done
    requires maxBytes == 0 ==> now == st
    ensures Delivered(data, st, totalRead) == Delivered(data, st, maxBytes)
    ensures |Delivered(data, st, maxBytes)| == totalRead
    ensures inMemory ==> now == AfterRead(data, st, maxBytes)
  {
  }

  // ---------- The end of a pattern read ----------

  lemma OneMoreByte(data: string, from: nat, k: nat, prefix: string)
    requires from <= k < |data|
    ensures prefix + data[from..k] + [data[k]] == prefix + data[from..k + 1]
  {
  }

  lemma EndWithoutMatch(data: string, from: nat, prefix: string, f: nat, m: nat, pattern: string)
    requires from <= |data| && m < |pattern|
    requires Matching(prefix + data[from..|data|], |prefix|, f, m, pattern)
    ensures IsReadUntil(data[from..], pattern, false, (prefix + data[from..|data|])[|prefix|..])
  {
    IncompleteMatch(prefix + data[from..|data|], |prefix|, f, m, pattern);
    assert (prefix + data[from..|data|])[|prefix|..] == data[from..];
  }

  lemma EndWithMatch(data: string, from: nat, to: nat, prefix: string, f: nat, pattern: string)
    requires from <= to <= |data|
    requires Matching(prefix + data[from..to], |prefix|, f, |pattern|, pattern)
    ensures IsReadUntil(data[from..], pattern, true, (prefix + data[from..to])[|prefix|..])
  {
    assert (prefix + data[from..to])[|prefix|..] == data[from..to] <= data[from..];
    CompleteMatch(prefix + data[from..to], |prefix|, f, pattern, data[from..]);
  }

  // ---------- The reader ----------

  class DataReader {
    const backend: Backend
    /** Everything the source will ever deliver. */
    const data: string
    var done: bool
    var totalLength: int
    var offset: int
    var status: Status
    /** A stream's own position, and how many more of its reads may come back empty-handed. */
    var position: nat
    var stalls: nat

    ghost predicate Valid()
      reads this
    {
      ValidSource() && (backend.Stream? && offset != -1 ==> offset == position)
    }

    /** The part of `Valid` that does not tie the offset to a stream's own position. */
    ghost predicate ValidSource()
      reads this
    {
      && ValidState(data, State())
      && position <= |data|
      && totalLength == (if backend.InMemory? then |data| else backend.announced)
    }

    function State(): ReaderState
      reads this
    {
      ReaderState(done, offset, status)
    }

    constructor FromMemory(data: string)
      ensures Valid() && backend.InMemory? && this.data == data
      ensures State() == InitialState(data)
    {
      this.backend, this.data := InMemory, data;
      done, offset, status, position, stalls := false, 0, Ok, 0, 0;
      new;
      SetTotalLength(|data|);
    }

    /** A stream at its beginning. */
    constructor FromStream(data: string, announced: int, seekable: bool, stalls: nat)
      ensures Valid() && backend == Stream(announced, seekable) && this.data == data
      ensures done == (announced == 0) && offset == 0 && status == Ok
    {
      this.backend, this.data := Stream(announced, seekable), data;
      done, totalLength, offset, status, position, this.stalls := false, -1, 0, Ok, 0, stalls;
      new;
      if announced != -1 {
        SetTotalLength(announced);
      }
    }

    method SetStatus(status: Status)
      modifies `status, `done
      ensures this.status == status && done == (old(done) || status.Error?)
    {
      this.status := status;
      if !status.Ok? {
        done := true;
      }
    }

    method SetTotalLength(length: int)
      modifies `totalLength, `done
      ensures totalLength == length && done == (old(done) || length == 0)
    {
      totalLength := length;
      if length == 0 {
        done := true;
      }
    }

    method SetOffset(position: int) returns (r: int)
      requires Valid()
      modifies this
      ensures Valid() && r == offset
      ensures CanSeek(position) ==> State() == AfterSeek(data, old(State()), position)
      ensures !CanSeek(position) ==> offset == -1 && done && status.Error?
    {
      if position < 0 {
        SetStatus(Error(INVALID_ARGUMENT));
        offset := -1;
        return -1;
      }
      if position < offset || offset < 0 {
        done := false;
      }
      if !status.Ok? {
        status := Ok;
      }
      offset := DoSetOffset(position);
      if offset < 0 && status.Ok? {
        SetStatus(Error(UNKNOWN));
      }
      return offset;
    }

    /** A seekable stream can be put anywhere in its data, the in-memory reader clamps. */
    predicate CanSeek(position: int) {
      backend.InMemory? || (backend.seekable && position <= |data|)
    }

    /** A stream that cannot seek may leave it to the caller to report that. */
    method DoSetOffset(position: int) returns (r: int)
      requires position >= 0 && status.Ok?
      modifies `status, `done, `position
      ensures CanSeek(position) ==> r == Min(position, |data|) && status == old(status) && done == old(done)
      ensures this.position == if backend.Stream? && CanSeek(position) then position else old(this.position)
      ensures !CanSeek(position) ==> r == -1 && (status.Error? ==> done)
    {
      match backend
      case InMemory =>
        r := if position > |data| then |data| else position;
      case Stream(_, seekable) =>
        if seekable {
          if position > |data| {
            SetStatus(Error(UNKNOWN));
            return -1;
          }
          this.position := position;
          return position;
        }
        var reports: bool := *;
        if reports {
          SetStatus(Error(NOT_FOUND));
        }
        r := -1;
    }

    /** The index of the next byte. */
    ghost function Cursor(): int
      reads this
    {
      if backend.InMemory? then offset else position
    }

    method DoReadIntoBuffer(maxBytes: nat, storage: array<char>, at: nat) returns (read: nat)
      requires ValidSource() && !done && maxBytes > 0 && at + maxBytes <= storage.Length
      modifies `done, `status, `position, `stalls, storage
      ensures ValidSource() && offset == old(offset)
      ensures read <= maxBytes && old(Cursor()) + read <= |data|
      ensures storage[at..at + read] == data[old(Cursor())..old(Cursor()) + read]
      ensures forall i :: 0 <= i < at || at + read <= i < storage.Length ==> storage[i] == old(storage[i])
      ensures done ==> old(Cursor()) + read == |data|
      ensures read == 0 ==> done || stalls < old(stalls)
      ensures stalls <= old(stalls)
      ensures backend.InMemory? ==>
        && read == Min(maxBytes, |data| - offset) && done == (read == |data| - offset)
        && status == old(status) && position == old(position)
      ensures backend.Stream? ==> position == old(position) + read
    {
      ghost var was := storage[..];
      match backend
      case InMemory =>
        var remaining := |data| - offset;
        if remaining == 0 {
          done := true;
          return 0;
        }
        read := Min(maxBytes, remaining);
        if read > 0 {
          Copy(storage, at, data[offset..offset + read]);
          if read == remaining {
            done := true;
          }
        }
      case Stream(_, _) =>
        read :| 0 <= read <= maxBytes && position + read <= |data|;
        if read == 0 && position < |data| && stalls == 0 {
          read := 1;
        }
        Copy(storage, at, data[position..position + read]);
        position := position + read;
        var reportsEnd: bool := *;
        if position == |data| && (reportsEnd || (read == 0 && stalls == 0)) {
          var failed: bool := *;
          if failed {
            SetStatus(Error(UNKNOWN));
          } else {
            done := true;
          }
        } else if read == 0 {
          stalls := stalls - 1;
        }
    }

    static method Copy(storage: array<char>, at: nat, bytes: string)
      requires at + |bytes| <= storage.Length
      modifies storage
      ensures storage[at..at + |bytes|] == bytes
      ensures forall i :: 0 <= i < at || at + |bytes| <= i < storage.Length ==> storage[i] == old(storage[i])
    {
      forall i | 0 <= i < |bytes| {
        storage[at + i] := bytes[i];
      }
    }

    /** The step common to the read loops: fetch some bytes and move the offset past them. */
    method Fetch(maxBytes: nat, storage: array<char>, at: nat) returns (read: nat)
      requires Valid() && !done && maxBytes > 0 && at + maxBytes <= storage.Length
      modifies this, storage
      ensures Valid() && 0 <= old(offset) && offset == old(offset) + read && read <= maxBytes
      ensures storage[..at + read] == old(storage[..at]) + data[old(offset)..offset]
      ensures forall i :: at + read <= i < storage.Length ==> storage[i] == old(storage[i])
      ensures done ==> offset == |data|
      ensures stalls <= old(stalls) && (read == 0 ==> done || stalls < old(stalls))
      ensures backend.InMemory? ==>
        read == Min(maxBytes, |data| - old(offset)) && done == (offset == |data|)
        && status == old(status) && position == old(position)
    {
      read := DoReadIntoBuffer(maxBytes, storage, at);
      assert storage[..at + read] == old(storage[..at]) + storage[at..at + read];
      offset := offset + read;
    }

    /** The same, with the fetched bytes as a value. */
    method FetchChunk(maxBytes: nat, storage: array<char>) returns (read: nat, chunk: string)
      requires Valid() && !done && 0 < maxBytes <= storage.Length
      modifies this, storage
      ensures Valid() && 0 <= old(offset) && offset == old(offset) + read && read <= maxBytes
      ensures chunk == data[old(offset)..offset]
      ensures done ==> offset == |data|
      ensures stalls <= old(stalls) && (read == 0 ==> done || stalls < old(stalls))
      ensures backend.InMemory? ==>
        read == Min(maxBytes, |data| - old(offset)) && done == (offset == |data|)
        && status == old(status) && position == old(position)
    {
      read := Fetch(maxBytes, storage, 0);
      chunk := storage[..0 + read];
    }

    /** One byte, if the source delivers one. */
    method ReadByte() returns (read: nat, c: char)
      requires ValidSource() && backend.Stream? && !done
      modifies `done, `status, `position, `stalls
      ensures ValidSource() && position == old(position) + read && read <= 1
      ensures read == 1 ==> c == data[old(position)]
      ensures done ==> position == |data|
      ensures stalls <= old(stalls) && (read == 0 ==> done || stalls < old(stalls))
    {
      var storage := new char[1];
      read := DoReadIntoBuffer(1, storage, 0);
      c := storage[0];
      assert read == 1 ==> c == storage[0..1][0];
    }

    /** Whatever the source's chunking, a read delivers the next `maxBytes` bytes, or all there are. */
    method ReadIntoBuffer(maxBytes: int, storage: array<char>) returns (totalRead: int)
      requires Valid() && maxBytes <= storage.Length
      modifies this, storage
      ensures Valid()
      ensures totalRead == |Delivered(data, old(State()), maxBytes)| && offset == old(offset) + totalRead
      ensures storage[..totalRead] == Delivered(data, old(State()), maxBytes)
      ensures forall i :: totalRead <= i < storage.Length ==> storage[i] == old(storage[i])
      ensures totalRead < maxBytes ==> done
      ensures !old(done) && maxBytes >= 0 && done ==> offset == |data|
      ensures backend.InMemory? ==> State() == AfterRead(data, old(State()), maxBytes) && position == old(position)
    {
      if maxBytes < 0 {
        SetStatus(Error(INVALID_ARGUMENT));
      }
      totalRead := 0;
      if 0 < maxBytes && !done {
        totalRead := ReadLoop(maxBytes, storage);
      }
    }

    /** The loop of `ReadIntoBuffer`, once entered. */
    method ReadLoop(maxBytes: nat, storage: array<char>) returns (totalRead: nat)
      requires Valid() && !done && 0 < maxBytes <= storage.Length
      modifies this, storage
      ensures Valid() && totalRead <= maxBytes && old(offset) >= 0 && offset == old(offset) + totalRead
      ensures storage[..totalRead] == Delivered(data, old(State()), maxBytes)
      ensures forall i :: totalRead <= i < storage.Length ==> storage[i] == old(storage[i])
      ensures totalRead < maxBytes ==> done
      ensures done ==> offset == |data|
      ensures backend.InMemory? ==> State() == AfterRead(data, old(State()), maxBytes) && position == old(position)
    {
      totalRead := 0;
      ghost var st, got := State(), "";
      while totalRead < maxBytes && !done
        invariant Valid() && totalRead <= maxBytes
        invariant Progress(backend.InMemory?, data, st, State(), totalRead)
        invariant storage[..totalRead] == got == Delivered(data, st, totalRead)
        invariant forall i :: totalRead <= i < storage.Length ==> storage[i] == old(storage[i])
        invariant backend.InMemory? ==> position == old(position)
        decreases maxBytes - totalRead, stalls, !done
      {
        var read := Fetch(maxBytes - totalRead, storage, totalRead);
        DeliveredMore(data, st, totalRead, read);
        totalRead := totalRead + read;
        got := Delivered(data, st, totalRead);
      }
      ProgressEnd(backend.InMemory?, data, st, State(), totalRead, maxBytes);
    }

    /** The same with a fixed-size buffer in between. */
    method ReadIntoString(maxBytes: int, into: string) returns (totalRead: int, result: string)
      requires Valid()
      modifies this
      ensures Valid()
      ensures totalRead == |Delivered(data, old(State()), maxBytes)| && offset == old(offset) + totalRead
      ensures result == into + Delivered(data, old(State()), maxBytes)
      ensures backend.InMemory? ==> State() == AfterRead(data, old(State()), maxBytes) && position == old(position)
    {
      totalRead, result := 0, into;
      if maxBytes < 0 {
        SetStatus(Error(INVALID_ARGUMENT));
        return;
      }
      var storage := new char[DEFAULT_BUFFER_SIZE];
      if 0 < maxBytes && !done {
        totalRead, result := StringLoop(maxBytes, storage, into);
      }
    }

    /** The loop of `ReadIntoString`, once entered. */
    method StringLoop(maxBytes: nat, storage: array<char>, into: string) returns (totalRead: nat, result: string)
      requires Valid() && !done && 0 < maxBytes && storage.Length == DEFAULT_BUFFER_SIZE
      modifies this, storage
      ensures Valid() && old(offset) >= 0 && offset == old(offset) + totalRead
      ensures totalRead == |Delivered(data, old(State()), maxBytes)|
      ensures result == into + Delivered(data, old(State()), maxBytes)
      ensures backend.InMemory? ==> State() == AfterRead(data, old(State()), maxBytes) && position == old(position)
    {
      hide Delivered, AfterRead;
      totalRead, result := 0, into;
      ghost var st, got := State(), "";
      DeliveredNothing(data, st);
      while totalRead < maxBytes && !done
        invariant Valid() && totalRead <= maxBytes
        invariant Progress(backend.InMemory?, data, st, State(), totalRead)
        invariant result == into + got && got == Delivered(data, st, totalRead)
        invariant backend.InMemory? ==> position == old(position)
        decreases maxBytes - totalRead, stalls, !done
      {
        var bytesToRead := Min(DEFAULT_BUFFER_SIZE, maxBytes - totalRead);
        var read, chunk := FetchChunk(bytesToRead, storage);
        DeliveredMore(data, st, totalRead, read);
        if read != 0 {
          totalRead := totalRead + read;
          result := result + chunk;
          got := got + chunk;
        }
      }
      ProgressEnd(backend.InMemory?, data, st, State(), totalRead, maxBytes);
    }

    /** Reads up to the end of the first occurrence of `pattern`, or everything. */
    method ReadUntil(pattern: string) returns (result: UntilResult)
      requires Valid()
      modifies this
      ensures Valid()
      ensures backend.InMemory? ==> result == MemoryUntil(data, old(State()), pattern)
      ensures backend.InMemory? ==> State() == AfterUntil(data, old(State()), pattern)
      ensures backend.Stream? ==> result.Returned? && offset == old(offset) + |result.consumed|
      ensures backend.Stream? && old(done) ==> result == Returned(CString(pattern) == "", "")
      ensures backend.Stream? && !old(done) ==>
        IsReadUntil(data[old(offset)..], CString(pattern), result.found, result.consumed)
    {
      if backend.InMemory? {
        result := AppendUntilInMemory(pattern);
      } else {
        var found, consumed := DoAppendUntil(pattern, "");
        result := Returned(found, consumed);
      }
      if result.Returned? {
        offset := offset + |result.consumed|;
      }
    }

    /** The override of the in-memory reader; `substr` throws on an offset beyond the data. */
    method AppendUntilInMemory(pattern: string) returns (result: UntilResult)
      requires Valid() && backend.InMemory?
      ensures result == MemoryUntil(data, State(), pattern)
    {
      var start := offset;
      if start < 0 {
        return OutOfRange;
      }
      var found := Find(data, pattern, start);
      var end := if found.None? then |data| else found.value + |pattern|;
      result := Returned(found.Some?, data[start..end]);
    }

    /** The online matcher: appends to `prefix` until `pattern` (a C string) has been read.  The
        offset is left to the caller; a stream's own position moves. */
    method DoAppendUntil(pattern: string, prefix: string) returns (found: bool, consumed: string)
      requires Valid() && backend.Stream?
      modifies `done, `status, `position, `stalls
      ensures ValidSource() && prefix <= consumed && position == old(position) + |consumed| - |prefix|
      ensures old(done) ==> consumed == prefix && (found <==> CString(pattern) == "")
      ensures !old(done) ==>
        IsReadUntil(data[old(position)..], CString(pattern), found, consumed[|prefix|..])
    {
      hide Matching, IsReadUntil;
      ghost var p := CString(pattern);
      ghost var base, from, wasDone := |prefix|, position, done;
      var find: nat, foundOffset: nat := 0, |prefix|;
      consumed := prefix;
      MatchNothing(prefix, p);
      while At(pattern, find) != '\0'
        invariant ValidSource() && from <= position
        invariant wasDone ==> done && consumed == prefix && find == 0
        invariant done && !wasDone ==> position == |data|
        invariant consumed == prefix + data[from..position]
        invariant Matching(consumed, base, foundOffset, find, p)
        decreases |data| - position, stalls, !done
      {
        MatchedSoFar(consumed, base, foundOffset, find, p);
        AtEnd(pattern, find);
        if done {
          if !wasDone {
            EndWithoutMatch(data, from, prefix, foundOffset, find, p);
          }
          return false, consumed;
        }
        var read, c := ReadByte();
        if read == 0 {
          continue;
        }
        OneMoreByte(data, from, position - 1, prefix);
        foundOffset, find := Advance(pattern, consumed, c, base, foundOffset, find);
        consumed := consumed + [c];
      }
      MatchedSoFar(consumed, base, foundOffset, find, p);
      AtEnd(pattern, find);
      found := true;
      EndWithMatch(data, from, position, prefix, foundOffset, p);
    }

    /** One more byte `c` after `read`: the match grows, or another start takes over. */
    static method Advance(pattern: string, read: string, c: char, ghost base: nat, start: nat, matched: nat)
      returns (foundOffset: nat, find: nat)
      requires Matching(read, base, start, matched, CString(pattern)) && matched < |CString(pattern)|
      ensures Matching(read + [c], base, foundOffset, find, CString(pattern))
    {
      ghost var p := CString(pattern);
      foundOffset, find := start, matched;
      if c == At(pattern, find) {
        MatchExtends(read, base, foundOffset, find, p, c);
        find := find + 1;
        return;
      }
      MatchBreaks(read, base, foundOffset, find, p, c);
      if foundOffset == |read| {
        foundOffset := foundOffset + 1;
        return;
      }
      foundOffset, find := FallBack(pattern, read + [c], base, foundOffset, find);
    }

    /** After a mismatch: the next start from which the bytes read so far still match.  `m` bytes
        had matched before the last one did not. */
    static method FallBack(pattern: string, consumed: string, ghost base: nat, start: nat, ghost m: nat)
      returns (foundOffset: nat, find: nat)
      requires base <= start && start + m + 1 == |consumed| && 0 < m < |CString(pattern)|
      requires forall g :: base <= g <= start ==> Mismatch(consumed, g, CString(pattern))
      ensures Matching(consumed, base, foundOffset, find, CString(pattern))
    {
      ghost var p := CString(pattern);
      foundOffset := start;
      while true
        invariant start <= foundOffset < |consumed|
        invariant forall g :: base <= g <= foundOffset ==> Mismatch(consumed, g, p)
        decreases |consumed| - foundOffset
      {
        var next := FindChar(consumed, At(pattern, 0), foundOffset + 1);
        var limit := if next.None? then |consumed| else next.value;
        forall g | foundOffset < g < limit
          ensures Mismatch(consumed, g, p)
        {
          assert consumed[g + 0] != p[0];
        }
        if next.None? {
          return |consumed|, 0;
        }
        foundOffset := next.value;
        find := Compare(pattern, consumed, foundOffset);
        if foundOffset + find == |consumed| {
          return;
        }
      }
    }

    /** How many bytes of the pattern the bytes from `start` on match; the first one does. */
    static method Compare(pattern: string, consumed: string, start: nat) returns (find: nat)
      requires start < |consumed| && |consumed| - start < |CString(pattern)|
      requires consumed[start] == At(pattern, 0)
      ensures start + find <= |consumed| && consumed[start..start + find] == CString(pattern)[..find]
      ensures start + find < |consumed| ==> Mismatch(consumed, start, CString(pattern))
    {
      ghost var p := CString(pattern);
      var have := start + 1;
      find := 1;
      while have < |consumed| && At(pattern, find) == consumed[have]
        invariant find == have - start && have <= |consumed|
        invariant forall k :: 0 <= k < find ==> consumed[start + k] == p[k]
      {
        assert pattern[find] == p[find];
        have, find := have + 1, find + 1;
      }
      assert have < |consumed| ==> consumed[start + find] != p[find];
    }
  }
}
