/** The two-row edit distance of kwctoolkit/utils/levenshtein.h.

    The distance is specified by edit scripts: a script is a sequence of edits, it turns its
    `Source` into its `Target`, and the distance is the least cost of a script between two
    sequences.  `Dist` is the textbook recurrence on unbounded integers and `Cell` is the same
    recurrence on the 32-bit unsigned integers of the program. */
module Levenshtein {

  // ---------- Edit scripts ----------

  /** Replacing an element by itself is free. */
  datatype Edit<T> = Insert(elem: T) | Delete(elem: T) | Replace(from: T, to: T)

  function EditCost<T(==)>(e: Edit<T>): nat {
    if e.Replace? && e.from == e.to then 0 else 1
  }

  /** What an edit takes from the source and adds to the target. */
  function Read<T>(e: Edit<T>): seq<T> {
    match e
    case Insert(_) => []
    case Delete(x) => [x]
    case Replace(x, _) => [x]
  }

  function Written<T>(e: Edit<T>): seq<T> {
    match e
    case Insert(y) => [y]
    case Delete(_) => []
    case Replace(_, y) => [y]
  }

  function Source<T>(script: seq<Edit<T>>): seq<T> {
    if script == [] then [] else Source(script[..|script| - 1]) + Read(script[|script| - 1])
  }

  function Target<T>(script: seq<Edit<T>>): seq<T> {
    if script == [] then [] else Target(script[..|script| - 1]) + Written(script[|script| - 1])
  }

  function Cost<T(==)>(script: seq<Edit<T>>): nat {
    if script == [] then 0
    else Cost(script[..|script| - 1]) + EditCost(script[|script| - 1])
  }

  ghost predicate Turns<T>(script: seq<Edit<T>>, a: seq<T>, b: seq<T>) {
    Source(script) == a && Target(script) == b
  }

  /** `d` is the cost of some script from `a` to `b`, and no script is cheaper. */
  ghost predicate IsMinCost<T(!new)>(a: seq<T>, b: seq<T>, d: nat) {
    && (exists script :: Turns(script, a, b) && Cost(script) == d)
    && (forall script :: Turns(script, a, b) ==> d <= Cost(script))
  }

  // ---------- The recurrence ----------

  function Min3(x: int, y: int, z: int): int {
    if x <= y && x <= z then x else if y <= z then y else z
  }

  function Max(x: int, y: int): int {
    if x <= y then y else x
  }

  function Dist<T(==)>(a: seq<T>, b: seq<T>): nat
    decreases |a| + |b|
  {
    if a == [] then |b|
    else if b == [] then |a|
    else
      var (a', x), (b', y) := (a[..|a| - 1], a[|a| - 1]), (b[..|b| - 1], b[|b| - 1]);
      Min3(Dist(a', b) + 1, Dist(a, b') + 1, Dist(a', b') + (if x == y then 0 else 1))
  }

  const MODULUS := 0x1_0000_0000

  type uint32 = x: int | 0 <= x < MODULUS

  /** Addition of 0 or 1 on 32-bit unsigned integers. */
  function Add(x: uint32, bit: nat): uint32
    requires bit <= 1
  {
    if x + bit == MODULUS then 0 else x + bit
  }

  /** What the program computes: every sum is reduced to 32 bits. */
  function Cell<T(==)>(a: seq<T>, b: seq<T>): uint32
    requires |a| < MODULUS && |b| < MODULUS
    decreases |a| + |b|
  {
    if a == [] then |b|
    else if b == [] then |a|
    else
      var (a', x), (b', y) := (a[..|a| - 1], a[|a| - 1]), (b[..|b| - 1], b[|b| - 1]);
      Min3(Add(Cell(a', b), 1), Add(Cell(a, b'), 1), Add(Cell(a', b'), if x == y then 0 else 1))
  }

  const INT_MAX := 0x7fff_ffff

  /** `Overflow`: the signed counter that fills the first row has overflowed, which is undefined. */
  datatype Outcome = Distance(d: uint32) | Overflow

  function Computed<T(==)>(a: seq<T>, b: seq<T>): Outcome
    requires |a| < MODULUS
  {
    if |b| < INT_MAX then Distance(Cell(a, b)) else Overflow
  }

  /** The program computes the distance. */
  predicate IsRight<T(==)>(a: seq<T>, b: seq<T>)
    requires |a| < MODULUS
  {
    var r := Computed(a, b);
    r.Distance? && r.d == Dist(a, b)
  }

  /** The lengths for which the counter does not overflow and no sum of the table needs more than
      32 bits. */
  predicate Fits(m: nat, n: nat) {
    n < 0x7fff_ffff && (n == 0 || m < 0xffff_ffff)
  }

  /** The program; its outer loop counter is 32-bit, so it stops on these lengths only. */
  method LevenshteinDistance<T(==, !new)>(s1: seq<T>, s2: seq<T>) returns (r: Outcome)
    requires |s1| < MODULUS
    ensures r == Computed(s1, s2)
    ensures Fits(|s1|, |s2|) ==> IsRight(s1, s2) && IsMinCost(s1, s2, r.d)
  {
    var len1, len2 := |s1|, |s2|;
    var col, prevCol := new uint32[len2 + 1], new uint32[len2 + 1];
    var counter: nat := 0;
    for k := 0 to len2 + 1
      invariant counter == k <= INT_MAX
      invariant forall j :: 0 <= j < k ==> prevCol[j] == j
    {
      prevCol[k] := counter;
      if counter == INT_MAX {
        return Overflow;
      }
      counter := counter + 1;
    }
    for i := 0 to len1
      invariant col != prevCol && col.Length == prevCol.Length == len2 + 1
      invariant fresh(col) && fresh(prevCol)
      invariant IsRow(prevCol[..], s1[..i], s2)
    {
      FillRow(col, prevCol, s1, i, s2);
      col, prevCol := prevCol, col;
    }
    r := Distance(prevCol[len2]);
    assert s1[..len1] == s1 && s2[..len2] == s2 && r.d == prevCol[..][len2];
    if Fits(len1, len2) {
      CellIsDist(s1, s2);
      DistIsMinCost(s1, s2);
    }
  }

  /** The body of the outer loop, without the swap of the rows. */
  method FillRow<T(==)>(col: array<uint32>, prevCol: array<uint32>, s1: seq<T>, i: nat, s2: seq<T>)
    requires i < |s1| < MODULUS && |s2| < MODULUS
    requires col != prevCol && col.Length == prevCol.Length == |s2| + 1
    requires IsRow(prevCol[..], s1[..i], s2)
    modifies col
    ensures IsRow(col[..], s1[..i + 1], s2)
  {
    col[0] := i + 1;
    for j := 0 to |s2|
      invariant IsRow(col[..j + 1], s1[..i + 1], s2)
    {
      NextCell(prevCol[..], col[..j + 1], s1, i, s2, j);
      col[j + 1] := Min3(Add(prevCol[1 + j], 1), Add(col[j], 1),
                         Add(prevCol[j], if s1[i] == s2[j] then 0 else 1));
      assert col[..j + 1 + 1] == col[..j + 1] + [col[j + 1]];
    }
    assert col[..|s2| + 1] == col[..];
  }

  /** The values of `row` are those of the table row for `a`. */
  ghost predicate IsRow<T>(row: seq<uint32>, a: seq<T>, b: seq<T>)
    requires |a| < MODULUS && |row| <= |b| + 1 <= MODULUS
  {
    forall j :: 0 <= j < |row| ==> row[j] == Cell(a, b[..j])
  }

  lemma NextCell<T>(prev: seq<uint32>, cur: seq<uint32>, s1: seq<T>, i: nat, s2: seq<T>, j: nat)
    requires i < |s1| < MODULUS && j < |s2| < MODULUS
    requires |prev| == |s2| + 1 && |cur| == j + 1
    requires IsRow(prev, s1[..i], s2) && IsRow(cur, s1[..i + 1], s2)
    ensures Cell(s1[..i + 1], s2[..j + 1])
         == Min3(Add(prev[j + 1], 1), Add(cur[j], 1), Add(prev[j], if s1[i] == s2[j] then 0 else 1))
  {
    assert s1[..i + 1][..i] == s1[..i] && s2[..j + 1][..j] == s2[..j];
  }

  // ---------- 32-bit arithmetic ----------

  lemma {:induction false} DistBounds<T>(a: seq<T>, b: seq<T>)
    ensures |a| - |b| <= Dist(a, b) && |b| - |a| <= Dist(a, b)
    ensures Dist(a, b) <= Max(|a|, |b|)
    decreases |a| + |b|
  {
    if a != [] && b != [] {
      var a', b' := a[..|a| - 1], b[..|b| - 1];
      DistBounds(a', b);
      DistBounds(a, b');
      DistBounds(a', b');
    }
  }

  lemma {:induction false} CellIsDist<T>(a: seq<T>, b: seq<T>)
    requires |a| < MODULUS && |b| < MODULUS && Fits(|a|, |b|)
    ensures Cell(a, b) == Dist(a, b)
    decreases |a| + |b|
  {
    if a != [] && b != [] {
      var a', b' := a[..|a| - 1], b[..|b| - 1];
      CellIsDist(a', b);
      CellIsDist(a, b');
      CellIsDist(a', b');
      DistBounds(a', b);
      DistBounds(a, b');
      DistBounds(a', b');
    }
  }

  /** Two sequences without a common element need an edit for every position of the longer one. */
  lemma {:induction false} DistDisjoint<T>(a: seq<T>, b: seq<T>)
    requires forall i, j :: 0 <= i < |a| && 0 <= j < |b| ==> a[i] != b[j]
    ensures Dist(a, b) == Max(|a|, |b|)
    decreases |a| + |b|
  {
    if a != [] && b != [] {
      var a', b' := a[..|a| - 1], b[..|b| - 1];
      DistDisjoint(a', b);
      DistDisjoint(a, b');
      DistDisjoint(a', b');
    }
  }

  /** With a first sequence of 2^32 - 1 elements the first entry of a row wraps to zero. */
  lemma {:induction false} WrappedColumn<T>(a: seq<T>, b: seq<T>)
    requires |a| == MODULUS - 1 && 0 < |b| < MODULUS
    ensures Cell(a, b) <= |b| - 1
    decreases |b|
  {
    var b' := b[..|b| - 1];
    if b' != [] {
      WrappedColumn(a, b');
    }
  }

  /** The lengths on which the program is right for every input are exactly those of `Fits`. */
  lemma ExactLengths(m: nat, n: nat)
    requires m <= 0xffff_ffff
    ensures (forall a: seq<bool>, b: seq<bool> | |a| == m && |b| == n :: IsRight(a, b))
            <==> Fits(m, n)
  {
    if Fits(m, n) {
      forall a: seq<bool>, b: seq<bool> | |a| == m && |b| == n
        ensures IsRight(a, b)
      {
        CellIsDist(a, b);
      }
    } else {
      var a, b := seq(m, _ => true), seq(n, _ => false);
      if n < INT_MAX {
        DistDisjoint(a, b);
        WrappedColumn(a, b);
      }
      assert !IsRight(a, b);
    }
  }

  // ---------- The recurrence computes the cheapest script ----------

  /** A script with one more edit at its end. */
  function Append<T(==)>(script: seq<Edit<T>>, e: Edit<T>): (r: seq<Edit<T>>)
    ensures Source(r) == Source(script) + Read(e)
    ensures Target(r) == Target(script) + Written(e)
    ensures Cost(r) == Cost(script) + EditCost(e)
  {
    assert (script + [e])[..|script + [e]| - 1] == script;
    script + [e]
  }

  /** Some script costs `Dist(a, b)`. */
  lemma {:induction false} BestScript<T>(a: seq<T>, b: seq<T>) returns (script: seq<Edit<T>>)
    ensures Turns(script, a, b)
    ensures Cost(script) == Dist(a, b)
    decreases |a| + |b|
  {
    if a == [] && b == [] {
      script := [];
      return;
    }
    var a', b', e := LastEdit(a, b);
    var rest := BestScript(a', b');
    script := Append(rest, e);
  }

  /** The last edit of a cheapest script, and what is left to do before it. */
  lemma LastEdit<T>(a: seq<T>, b: seq<T>) returns (a': seq<T>, b': seq<T>, e: Edit<T>)
    requires a != [] || b != []
    ensures a == a' + Read(e) && b == b' + Written(e)
    ensures Dist(a, b) == Dist(a', b') + EditCost(e)
    ensures |a'| + |b'| < |a| + |b|
  {
    a', b' := a, b;
    if b == [] || (a != [] && Dist(a, b) == Dist(a[..|a| - 1], b) + 1) {
      a', e := a[..|a| - 1], Delete(a[|a| - 1]);
    } else if a == [] || Dist(a, b) == Dist(a, b[..|b| - 1]) + 1 {
      b', e := b[..|b| - 1], Insert(b[|b| - 1]);
    } else {
      a', b', e := a[..|a| - 1], b[..|b| - 1], Replace(a[|a| - 1], b[|b| - 1]);
    }
  }

  lemma OneMoreEdit<T>(a: seq<T>, b: seq<T>, e: Edit<T>)
    ensures Dist(a + Read(e), b + Written(e)) <= Dist(a, b) + EditCost(e)
  {
    var a', b' := a + Read(e), b + Written(e);
    assert if e.Insert? then a' == a else a'[..|a'| - 1] == a;
    assert if e.Delete? then b' == b else b'[..|b'| - 1] == b;
    DistBounds(a, b);
  }

  lemma {:induction false} NoCheaperScript<T>(script: seq<Edit<T>>)
    ensures Dist(Source(script), Target(script)) <= Cost(script)
    decreases |script|
  {
    if script != [] {
      var e, rest := script[|script| - 1], script[..|script| - 1];
      NoCheaperScript(rest);
      OneMoreEdit(Source(rest), Target(rest), e);
    }
  }

  /** The recurrence is the minimum over all scripts. */
  lemma DistIsMinCost<T(!new)>(a: seq<T>, b: seq<T>)
    ensures IsMinCost(a, b, Dist(a, b))
  {
    var best := BestScript(a, b);
    assert Turns(best, a, b) && Cost(best) == Dist(a, b);
    forall script: seq<Edit<T>> | Turns(script, a, b)
      ensures Dist(a, b) <= Cost(script)
    {
      NoCheaperScript(script);
    }
  }

  // ---------- The distance is a metric ----------

  function Flip<T>(e: Edit<T>): (r: Edit<T>)
    ensures Read(r) == Written(e) && Written(r) == Read(e)
  {
    match e
    case Insert(y) => Delete(y)
    case Delete(x) => Insert(x)
    case Replace(x, y) => Replace(y, x)
  }

  /** The script that undoes a script. */
  lemma {:induction false} Inverse<T>(script: seq<Edit<T>>) returns (r: seq<Edit<T>>)
    ensures Turns(r, Target(script), Source(script))
    ensures Cost(r) == Cost(script)
    decreases |script|
  {
    if script == [] {
      r := [];
    } else {
      var rest := Inverse(script[..|script| - 1]);
      r := Append(rest, Flip(script[|script| - 1]));
    }
  }

  /** One script that does the work of two, at no higher cost. */
  lemma {:induction false} Compose<T>(p: seq<Edit<T>>, q: seq<Edit<T>>) returns (r: seq<Edit<T>>)
    requires Target(p) == Source(q)
    ensures Turns(r, Source(p), Target(q))
    ensures Cost(r) <= Cost(p) + Cost(q)
    decreases |p| + |q|
  {
    if p != [] && p[|p| - 1].Delete? {
      var rest := Compose(p[..|p| - 1], q);
      r := Append(rest, p[|p| - 1]);
    } else if q != [] && q[|q| - 1].Insert? {
      var rest := Compose(p, q[..|q| - 1]);
      r := Append(rest, q[|q| - 1]);
    } else if p == [] || q == [] {
      r := [];
    } else {
      var e, f, p', q' := p[|p| - 1], q[|q| - 1], p[..|p| - 1], q[..|q| - 1];
      SameLast(Target(p'), Written(e), Source(q'), Read(f));
      var rest := Compose(p', q');
      r := if e.Insert? && f.Delete? then rest else Append(rest, Fuse(e, f));
    }
  }

  lemma SameLast<T>(s: seq<T>, x: seq<T>, t: seq<T>, y: seq<T>)
    requires |x| == |y| == 1 && s + x == t + y
    ensures s == t && x == y
  {
    assert (s + x)[..|s|] == s && (t + y)[..|t|] == t;
    assert (s + x)[|s|] == x[0] && (t + y)[|t|] == y[0];
  }

  /** The edit that does the work of `e` and then of `f` on the element `e` writes. */
  function Fuse<T(==)>(e: Edit<T>, f: Edit<T>): (r: Edit<T>)
    requires !e.Delete? && !f.Insert? && !(e.Insert? && f.Delete?)
    requires Written(e) == Read(f)
    ensures Read(r) == Read(e) && Written(r) == Written(f)
    ensures EditCost(r) <= EditCost(e) + EditCost(f)
  {
    if e.Insert? then Insert(f.to)
    else if f.Delete? then Delete(e.from)
    else
      assert Written(e)[0] == Read(f)[0];
      Replace(e.from, f.to)
  }

  lemma {:induction false} ZeroIffEqual<T>(a: seq<T>, b: seq<T>)
    ensures Dist(a, b) == 0 <==> a == b
  {
    if a == b {
      DistSelf(a);
    } else if Dist(a, b) == 0 {
      var script := BestScript(a, b);
      FreeScript(script);
    }
  }

  lemma {:induction false} DistSelf<T>(a: seq<T>)
    ensures Dist(a, a) == 0
    decreases |a|
  {
    if a != [] {
      DistSelf(a[..|a| - 1]);
    }
  }

  lemma {:induction false} FreeScript<T>(script: seq<Edit<T>>)
    requires Cost(script) == 0
    ensures Source(script) == Target(script)
    decreases |script|
  {
    if script != [] {
      FreeScript(script[..|script| - 1]);
    }
  }

  lemma {:induction false} Symmetric<T>(a: seq<T>, b: seq<T>)
    ensures Dist(a, b) == Dist(b, a)
  {
    var there := BestScript(a, b);
    var back := BestScript(b, a);
    there := Inverse(there);
    back := Inverse(back);
    NoCheaperScript(there);
    NoCheaperScript(back);
  }

  lemma {:induction false} TriangleInequality<T>(a: seq<T>, b: seq<T>, c: seq<T>)
    ensures Dist(a, c) <= Dist(a, b) + Dist(b, c)
  {
    var p := BestScript(a, b);
    var q := BestScript(b, c);
    var both := Compose(p, q);
    NoCheaperScript(both);
  }
}
