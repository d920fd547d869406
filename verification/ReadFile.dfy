/** Reading a whole file with kwctoolkit/file/file_utils.h: `WrapIncomplete` makes up for reads that
    deliver less than asked or are interrupted, and `ReadFile` grows its buffer until the file ends. */
module ReadFiles {
  import opened Basics

  const INITIAL_ALLOC: nat := 4096
  const INT_MAX: int := 0x7fff_ffff

  datatype Errno = NoError | Interrupted | Failure

  /** An open file: its contents, the position of the descriptor, what `fstat` says its size is, and
      how many of the reads to come are interrupted.  `reliable` files give no other error. */
  class File {
    const contents: string
    const advertisedSize: int
    const statFails: bool
    const reliable: bool
    var position: nat
    var interrupts: nat

    ghost predicate Valid()
      reads this
    {
      position <= |contents| <= INT_MAX
    }

    constructor (contents: string, advertisedSize: int, statFails: bool, reliable: bool, interrupts: nat)
      requires |contents| <= INT_MAX
      ensures Valid() && this.contents == contents && position == 0 && this.advertisedSize == advertisedSize
      ensures this.statFails == statFails && this.reliable == reliable
    {
      this.contents, this.advertisedSize := contents, advertisedSize;
      this.statFails, this.reliable := statFails, reliable;
      position, this.interrupts := 0, interrupts;
    }

    /** `read`: any number of bytes up to `count`, but none only at the end of the file; or -1. */
    method Read(buf: array<char>, at: nat, count: nat) returns (r: int, errno: Errno)
      requires Valid() && at + count <= buf.Length
      modifies this, buf
      ensures Valid() && interrupts <= old(interrupts)
      ensures r == -1 ==> errno != NoError && position == old(position) && buf[..] == old(buf[..])
      ensures errno == Interrupted ==> r == -1 && interrupts < old(interrupts)
      ensures errno == Failure ==> r == -1 && !reliable
      ensures r != -1 ==> errno == NoError && 0 <= r <= count && position == old(position) + r
      ensures r == 0 ==> count == 0 || position == |contents|
      ensures r >= 0 ==> buf[..at + r] == old(buf[..at]) + contents[old(position)..position]
      ensures r >= 0 ==> buf[at + r..] == old(buf[at + r..])
    {
      var interrupted: bool, failed: bool := *, *;
      if interrupted && interrupts > 0 {
        interrupts := interrupts - 1;
        return -1, Interrupted;
      }
      if failed && !reliable {
        return -1, Failure;
      }
      var available := Min(count, |contents| - position);
      r :| (if available == 0 then 0 else 1) <= r <= available;
      forall i | 0 <= i < r {
        buf[at + i] := contents[position + i];
      }
      position := position + r;
      errno := NoError;
    }
  }

  /** Reads `count` bytes or up to the end of the file, however many reads that takes. */
  method WrapIncomplete(file: File, buf: array<char>, at: nat, count: nat) returns (r: int)
    requires file.Valid() && at + count <= buf.Length
    modifies file, buf
    ensures file.Valid() && file.position >= old(file.position)
    ensures r == -1 ==> !file.reliable
    ensures r != -1 ==> r == Min(count, |file.contents| - old(file.position)) && file.position == old(file.position) + r
    ensures buf[..at] == old(buf[..at])
    ensures r != -1 ==> buf[..at + r] == old(buf[..at]) + file.contents[old(file.position)..file.position]
  {
    var b, left, total := at, count, 0;
    ghost var start := file.position;
    var again := true;
    while again
      invariant file.Valid() && start + total == file.position
      invariant b == at + total && left == count - total && 0 <= total <= count
      invariant buf[..b] == old(buf[..at]) + file.contents[start..file.position]
      invariant !again ==> left == 0 || file.position == |file.contents|
      invariant again && left == 0 ==> count == 0
      decreases left, file.interrupts, again
    {
      var errno;
      ghost var before, mid := buf[..], file.position;
      assert before[..b] == buf[..b];
      r, errno := file.Read(buf, b, left);
      if r == -1 {
        if errno == Interrupted {
          assert buf[..b] == before[..b];
          again := left != 0;
          continue;
        }
        return -1;
      }
      Join(file.contents, start, mid, file.position);
      total := total + r;
      b := b + r;
      left := left - r;
      again := r != 0 && left != 0;
    }
    return total;
  }

  /** A buffer of another size with as much of the contents as fits. */
  method Resize(buf: array<char>, size: nat) returns (r: array<char>)
    ensures fresh(r) && r.Length == size
    ensures r[..Min(size, buf.Length)] == buf[..Min(size, buf.Length)]
  {
    var was := buf[..];
    r := new char[size](i => if 0 <= i < |was| then was[i] else '\0');
  }

  function InitialSize(advertisedSize: int, numBytes: nat): nat {
    Min(if advertisedSize > 0 then advertisedSize + 1 else INITIAL_ALLOC, numBytes)
  }

  /** Delivers exactly the bytes of the file, but no more than `numBytes`, from a file that gives no
      error, whatever size it claims to have; otherwise what it delivers is a beginning of them. */
  method ReadFile(file: File, numBytes: nat) returns (ok: bool, out: array<char>)
    requires file.Valid()
    modifies file
    ensures file.Valid() && fresh(out)
    ensures file.reliable && !file.statFails ==> ok
    ensures var rest := file.contents[old(file.position)..];
      out[..] <= rest && |out[..]| <= numBytes && (ok ==> |out[..]| == Min(|rest|, numBytes))
  {
    var readSoFar := 0;
    out := new char[0];
    ok := !file.statFails;
    if ok {
      out := new char[InitialSize(file.advertisedSize, numBytes)];
      ok, out, readSoFar := Grow(file, out, numBytes);
    }
    out := Resize(out, readSoFar);
  }

  /** The buffer made half as large again, up to `numBytes`. */
  method Enlarge(buf: array<char>, numBytes: nat) returns (r: array<char>)
    requires buf.Length <= numBytes
    ensures fresh(r) && r.Length == Min(buf.Length * 3 / 2, numBytes)
    ensures buf.Length <= r.Length && r[..buf.Length] == buf[..buf.Length]
    ensures buf.Length >= 2 ==> r.Length > buf.Length || r.Length == numBytes
  {
    r := Resize(buf, Min(buf.Length * 3 / 2, numBytes));
  }

  /** The loop: a full buffer is made half as large again, up to `numBytes`. */
  method Grow(file: File, buf: array<char>, numBytes: nat) returns (ok: bool, out: array<char>, readSoFar: nat)
    requires file.Valid() && buf.Length <= numBytes && (buf.Length >= 2 || buf.Length == numBytes)
    modifies file, buf
    ensures file.Valid() && (out == buf || fresh(out)) && (file.reliable ==> ok)
    ensures readSoFar <= out.Length && readSoFar <= Min(|file.contents| - old(file.position), numBytes)
    ensures out[..readSoFar] == file.contents[old(file.position)..old(file.position) + readSoFar]
    ensures ok ==> readSoFar == Min(|file.contents| - old(file.position), numBytes)
  {
    readSoFar, out, ok := 0, buf, true;
    ghost var start, got := file.position, "";
    while readSoFar < out.Length
      invariant file.Valid() && ok && (out == buf || fresh(out))
      invariant readSoFar <= out.Length <= numBytes && (out.Length >= 2 || out.Length == numBytes)
      invariant file.position == start + readSoFar
      invariant out[..readSoFar] == got == file.contents[start..start + readSoFar]
      invariant readSoFar == out.Length ==> readSoFar == numBytes
      decreases numBytes - readSoFar
    {
      var actual := WrapIncomplete(file, out, readSoFar, out.Length - readSoFar);
      if actual == -1 {
        return false, out, readSoFar;
      }
      Join(file.contents, start, start + readSoFar, start + readSoFar + actual);
      got := file.contents[start..start + readSoFar + actual];
      readSoFar := readSoFar + actual;
      if readSoFar < out.Length {
        return;
      }
      out := Enlarge(out, numBytes);
    }
  }
}
