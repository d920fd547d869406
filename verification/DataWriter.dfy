/** The writer of kwctoolkit/serialization over a string (`DataWriter` with the overrides of
    `StringDataWriter`), and the copy of a reader into it. */
module DataWriters {
  import opened Basics
  import opened DataReaders

  const INT64_MAX: int := 0x7fff_ffff_ffff_ffff
  const DEFAULT_CHUNK_SIZE: int := 4096

  /** The writer's state as a value; a writer may be given a non-empty string to write into. */
  datatype WriterState = WriterState(size: int, hasBegun: bool, status: Status, storage: string)

  function Begun(st: WriterState): WriterState {
    WriterState(0, true, Ok, "")
  }

  /** The state after a write of `bytes`; the first write begins, which empties the storage. */
  function AfterWrite(st: WriterState, bytes: string): WriterState {
    var st' := if st.hasBegun then st else Begun(st);
    if st'.status.Ok? then st'.(size := st'.size + |bytes|, storage := st'.storage + bytes) else st'
  }

  lemma WriteMore(st: WriterState, bytes: string, chunk: string)
    requires st.hasBegun ==> st.status.Ok?
    ensures AfterWrite(AfterWrite(st, bytes), chunk) == AfterWrite(st, bytes + chunk)
    ensures bytes == "" ==> AfterWrite(st, chunk) == AfterWrite(st, bytes + chunk)
    ensures AfterWrite(st, bytes + chunk).status.Ok?
  {
    var before := if st.hasBegun then st.storage else "";
    assert (before + bytes) + chunk == before + (bytes + chunk);
    assert bytes == "" ==> bytes + chunk == chunk;
  }

  /** The number of bytes a copy may take; negative stands for no limit. */
  function Limit(maxBytes: int): int {
    if maxBytes < 0 then INT64_MAX else maxBytes
  }

  /** The same with regard to the length the reader has or claims to have; a reader that claims none,
      or is past the length it claims, is copied up to the limit. */
  function ToCopy(totalLength: int, reader: ReaderState, maxBytes: int): nat {
    var remaining := totalLength - reader.offset;
    if remaining < 0 then Limit(maxBytes) else Min(remaining, Limit(maxBytes))
  }

  /** Whether a copy writes at all: not from a reader that is done or claims to have nothing left. */
  predicate Copies(totalLength: int, reader: ReaderState, maxBytes: int) {
    !reader.done && ToCopy(totalLength, reader, maxBytes) != 0
  }

  /** A copy without a limit takes all that is left exactly when the claimed length is not between
      the offset and the end of the data. */
  lemma WholeRestCopied(data: string, reader: ReaderState, totalLength: int)
    requires ValidState(data, reader) && !reader.done && |data| <= INT64_MAX
    ensures Delivered(data, reader, ToCopy(totalLength, reader, -1)) == data[reader.offset..]
            <==> totalLength < reader.offset || totalLength >= |data|
  {
    DeliveredSlice(data, reader, ToCopy(totalLength, reader, -1));
  }

  /** What a copy of at most `maxBytes` bytes takes: no more than that, than is left, and than the
      claimed length allows, if the reader has not passed it. */
  lemma CopiedBytes(data: string, reader: ReaderState, totalLength: int, maxBytes: int)
    requires ValidState(data, reader) && !reader.done && |data| <= INT64_MAX
    ensures var bytes := Delivered(data, reader, ToCopy(totalLength, reader, maxBytes));
      var left, claimed := |data| - reader.offset, totalLength - reader.offset;
      var cap := if maxBytes < 0 then left else maxBytes;
      var n := if 0 <= claimed < cap then claimed else cap;
      && bytes == data[reader.offset..reader.offset + (if n < left then n else left)]
      && (maxBytes >= 0 ==> (Copies(totalLength, reader, maxBytes) <==> n > 0))
      && (maxBytes < 0 ==> (Copies(totalLength, reader, maxBytes) <==> claimed != 0))
  {
    DeliveredSlice(data, reader, ToCopy(totalLength, reader, maxBytes));
  }

  /** The writer after it. */
  lemma CopyEffect(was: WriterState, data: string, reader: ReaderState, totalLength: int, maxBytes: int)
    requires ValidState(data, reader) && !reader.done && |data| <= INT64_MAX && was.status.Ok?
    ensures var left, claimed := |data| - reader.offset, totalLength - reader.offset;
      var cap := if maxBytes < 0 then left else maxBytes;
      var n := if 0 <= claimed < cap then claimed else cap;
      var bytes := data[reader.offset..reader.offset + (if n < left then n else left)];
      var taken := Delivered(data, reader, ToCopy(totalLength, reader, maxBytes));
      var st := if Copies(totalLength, reader, maxBytes) then AfterWrite(was, taken) else was;
      && taken == bytes
      && (was.hasBegun || n > 0 ==>
            && st.storage == (if was.hasBegun then was.storage else "") + bytes
            && st.size == (if was.hasBegun then was.size else 0) + |bytes|)
      && (maxBytes >= 0 && n == 0 ==> st.storage == was.storage && st.size == was.size && st.hasBegun == was.hasBegun)
  {
    CopiedBytes(data, reader, totalLength, maxBytes);
    hide Delivered, ToCopy;
  }

  lemma DoneDelivers(data: string, reader: ReaderState)
    requires ValidState(data, reader)
    ensures reader.done ==> forall k: int :: Delivered(data, reader, k) == ""
    ensures !reader.done ==> Delivered(data, reader, 0) == ""
  {
  }

  // ---------- Runs ----------

  datatype Op = Begin | Clear | End | Write(bytes: string) | Copy(writes: bool, bytes: string, reader: Status)

  /** The contracts of the methods of `DataWriter` below, as one step function. */
  function Step(st: WriterState, op: Op): WriterState {
    match op
    case Begin => Begun(st)
    case Clear => st.(size := 0, status := Ok, storage := "")
    case End => st.(status := Ok)
    case Write(bytes) => AfterWrite(st, bytes)
    case Copy(writes, bytes, reader) =>
      if !st.status.Ok? then st
      else
        var st' := if writes then AfterWrite(st, bytes) else st;
        if reader.Error? then st'.(status := reader) else st'
  }

  function Run(st: WriterState, ops: seq<Op>): WriterState
    decreases |ops|
  {
    if ops == [] then st else Run(Step(st, ops[0]), ops[1..])
  }

  /** The size is the stored length, except that a writer that was given a string and has neither
      begun nor been cleared still holds that string at size zero. */
  ghost predicate SizeTracks(st: WriterState, given: string) {
    st.size == |st.storage| || (!st.hasBegun && st.size == 0 && st.storage == given)
  }

  lemma {:induction false} SizeTracksOverRuns(st: WriterState, given: string, ops: seq<Op>)
    requires SizeTracks(st, given) && (st.hasBegun ==> st.size == |st.storage|)
    ensures var r := Run(st, ops);
      SizeTracks(r, given) && (r.hasBegun || given == "" ==> r.size == |r.storage|)
    decreases |ops|
  {
    if ops != [] {
      SizeTracksOverRuns(Step(st, ops[0]), given, ops[1..]);
    }
  }

  /** Splitting what is written between several writes, in whatever way, stores the same. */
  lemma {:induction false} WritesConcatenate(st: WriterState, chunks: seq<string>)
    requires st.hasBegun && st.status.Ok?
    ensures Run(st, Writes(chunks)) == AfterWrite(st, Concat(chunks))
    decreases |chunks|
  {
    if chunks == [] {
      assert st.storage + "" == st.storage;
    } else {
      var st' := AfterWrite(st, chunks[0]);
      assert Writes(chunks)[0] == Write(chunks[0]) && Writes(chunks)[1..] == Writes(chunks[1..]);
      WritesConcatenate(st', chunks[1..]);
      WriteMore(st, chunks[0], Concat(chunks[1..]));
    }
  }

  function Writes(chunks: seq<string>): seq<Op> {
    seq(|chunks|, i requires 0 <= i < |chunks| => Write(chunks[i]))
  }

  function Concat(chunks: seq<string>): string {
    if chunks == [] then "" else chunks[0] + Concat(chunks[1..])
  }

  // ---------- The writer ----------

  class DataWriter {
    var size: int
    var hasBegun: bool
    var status: Status
    var storage: string

    function State(): WriterState
      reads this
    {
      WriterState(size, hasBegun, status, storage)
    }

    constructor (storage: string)
      ensures State() == WriterState(0, false, Ok, storage)
    {
      size, hasBegun, status, this.storage := 0, false, Ok, storage;
    }

    method Clear()
      modifies this
      ensures State() == WriterState(0, old(hasBegun), Ok, "")
    {
      size := 0;
      storage, status := "", Ok;
    }

    method Begin()
      modifies this
      ensures State() == Begun(old(State()))
    {
      size := 0;
      storage, status := "", Ok;
      hasBegun := status.Ok?;
    }

    method End()
      modifies this
      ensures State() == old(State()).(status := Ok)
    {
      status := Ok;
    }

    method WriteData(bytes: int, data: array<char>) returns (r: Status)
      requires bytes <= data.Length
      modifies this
      ensures bytes >= 0 ==> State() == AfterWrite(old(State()), data[..bytes]) && r == status
      ensures bytes >= 0 && (old(hasBegun) ==> old(status).Ok?) ==>
        && hasBegun && status.Ok? && size == (if old(hasBegun) then old(size) else 0) + bytes
        && storage == (if old(hasBegun) then old(storage) else "") + data[..bytes]
      ensures bytes < 0 ==> State() == if old(hasBegun) then old(State()) else Begun(old(State()))
      ensures bytes < 0 ==> r == if status.Ok? then Error(INVALID_ARGUMENT) else status
    {
      if !hasBegun {
        Begin();
      }
      if !status.Ok? {
        return status;
      }
      if bytes < 0 {
        return Error(INVALID_ARGUMENT);
      }
      storage, status := storage + data[..bytes], Ok;
      size := size + bytes;
      return status;
    }

    /** Appends exactly what the reader delivers for the limit and its claimed length, whatever the
        chunking. */
    method WriteReader(reader: DataReader, maxBytes: int) returns (r: Status)
      requires reader.Valid() && |reader.data| <= INT64_MAX
      modifies this, reader
      ensures reader.Valid() && r == status
      ensures !old(status).Ok? ==> State() == old(State()) && reader.State() == old(reader.State())
      ensures old(status).Ok? ==>
        var was, from := old(State()), old(reader.State());
        var bytes := Delivered(reader.data, from, ToCopy(reader.totalLength, from, maxBytes));
        var st := if Copies(reader.totalLength, from, maxBytes) then AfterWrite(was, bytes) else was;
        && State() == (if reader.status.Error? then st.(status := reader.status) else st)
        && reader.offset == from.offset + |bytes|
      ensures old(status).Ok? && !old(reader.done) ==>
        var left, claimed := |reader.data| - old(reader.offset), reader.totalLength - old(reader.offset);
        var cap := if maxBytes < 0 then left else maxBytes;
        var n := if 0 <= claimed < cap then claimed else cap;
        var bytes := reader.data[old(reader.offset)..old(reader.offset) + (if n < left then n else left)];
        && reader.offset == old(reader.offset) + |bytes|
        && (old(hasBegun) || n > 0 ==>
              && storage == (if old(hasBegun) then old(storage) else "") + bytes
              && size == (if old(hasBegun) then old(size) else 0) + |bytes|)
        && (maxBytes >= 0 && n == 0 ==> storage == old(storage) && size == old(size) && hasBegun == old(hasBegun))
    {
      hide AfterWrite, Delivered;
      if status.Ok? && !reader.done {
        CopyEffect(State(), reader.data, reader.State(), reader.totalLength, maxBytes);
      }
      DoneDelivers(reader.data, reader.State());
      if !status.Ok? {
        return status;
      }
      if !reader.done {
        var limit := if maxBytes < 0 then INT64_MAX else maxBytes;
        var readerRemaining := reader.totalLength - reader.offset;
        var remaining := if readerRemaining < 0 then limit else Min(readerRemaining, limit);
        if remaining != 0 {
          CopyChunks(reader, remaining);
        }
      }
      if reader.status.Error? {
        status := reader.status;
      }
      return status;
    }

    /** The loop of the copy. */
    method CopyChunks(reader: DataReader, total: int)
      requires reader.Valid() && !reader.done && status.Ok? && total > 0
      modifies this, reader
      ensures reader.Valid()
      ensures var bytes := Delivered(reader.data, old(reader.State()), total);
        && State() == AfterWrite(old(State()), bytes)
        && reader.offset == old(reader.offset) + |bytes|
    {
      hide AfterWrite, Delivered;
      var remaining := total;
      var chunkSize := Min(remaining, DEFAULT_CHUNK_SIZE);
      var buffer := new char[chunkSize];
      ghost var from, was := reader.State(), State();
      ghost var wrote, bytes := false, "";
      while remaining != 0 && !reader.done && status.Ok?
        invariant reader.Valid() && status.Ok? && 0 <= remaining <= total
        invariant 0 <= from.offset && reader.offset == from.offset + total - remaining
        invariant bytes == reader.data[from.offset..reader.offset]
        invariant if wrote then State() == AfterWrite(was, bytes) else State() == was && remaining == total
        invariant reader.done ==> wrote && reader.offset == |reader.data|
        decreases remaining, !reader.done
      {
        var read, chunk := CopyChunk(reader, Min(remaining, chunkSize), buffer);
        Join(reader.data, from.offset, reader.offset - read, reader.offset);
        WriteMore(was, bytes, chunk);
        wrote, bytes := true, bytes + chunk;
        remaining := remaining - read;
      }
      DeliveredSlice(reader.data, from, total);
    }

    /** One round of it. */
    method CopyChunk(reader: DataReader, n: nat, buffer: array<char>) returns (read: nat, ghost chunk: string)
      requires reader.Valid() && !reader.done && 0 < n <= buffer.Length
      modifies this, reader, buffer
      ensures reader.Valid() && old(reader.offset) >= 0 && reader.offset == old(reader.offset) + read
      ensures chunk == reader.data[old(reader.offset)..reader.offset] && read <= n
      ensures State() == AfterWrite(old(State()), chunk)
      ensures reader.done ==> reader.offset == |reader.data|
      ensures read == 0 ==> reader.done
    {
      DeliveredSlice(reader.data, reader.State(), n);
      read := reader.ReadIntoBuffer(n, buffer);
      chunk := buffer[..read];
      var _ := WriteData(read, buffer);
    }
  }
}
