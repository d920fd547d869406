/** Substring search: what `std::string::find` promises, and the facts about partial matches on
    which the online matcher of the data reader rests. */
module Search {
  import opened Basics

  /** `pattern` occurs in `text` at index `k`. */
  predicate OccursAt(text: string, pattern: string, k: nat) {
    k + |pattern| <= |text| && text[k..k + |pattern|] == pattern
  }

  ghost predicate FirstOccurrence(text: string, pattern: string, k: nat) {
    OccursAt(text, pattern, k) && forall j: nat :: j < k ==> !OccursAt(text, pattern, j)
  }

  /** The first occurrence of `pattern` at or after `from`. */
  function Find(text: string, pattern: string, from: nat): (r: Option<nat>)
    ensures r.Some? ==> from <= r.value && OccursAt(text, pattern, r.value)
    ensures r.Some? ==> forall j :: from <= j < r.value ==> !OccursAt(text, pattern, j)
    ensures r.None? ==> forall j: nat :: from <= j ==> !OccursAt(text, pattern, j)
    decreases |text| - from
  {
    if from + |pattern| > |text| then None
    else if OccursAt(text, pattern, from) then Some(from)
    else Find(text, pattern, from + 1)
  }

  /** The first index at or after `from` that holds `c`. */
  function FindChar(text: string, c: char, from: nat): (r: Option<nat>)
    ensures r.Some? ==> from <= r.value < |text| && text[r.value] == c && c !in text[from..r.value]
    ensures r.None? ==> forall j :: from <= j < |text| ==> text[j] != c
    decreases |text| - from
  {
    if from >= |text| then None
    else if text[from] == c then Some(from)
    else FindChar(text, c, from + 1)
  }

  /** What a pattern read must deliver from the bytes `rest` that are left: everything up to and
      including the first occurrence, or everything there is. */
  ghost predicate IsReadUntil(rest: string, pattern: string, found: bool, consumed: string) {
    if found then
      exists k: nat :: FirstOccurrence(rest, pattern, k) && consumed == rest[..k + |pattern|]
    else
      consumed == rest && forall k: nat :: !OccursAt(rest, pattern, k)
  }

  lemma ReadUntilUnique(rest: string, pattern: string, f1: bool, c1: string, f2: bool, c2: string)
    requires IsReadUntil(rest, pattern, f1, c1) && IsReadUntil(rest, pattern, f2, c2)
    ensures f1 == f2 && c1 == c2
  {
    if f1 && f2 {
      var k1: nat :| FirstOccurrence(rest, pattern, k1) && c1 == rest[..k1 + |pattern|];
      var k2: nat :| FirstOccurrence(rest, pattern, k2) && c2 == rest[..k2 + |pattern|];
      assert k1 == k2;
    }
  }

  // ---------- C strings ----------

  /** The bytes of a C string: those before the first NUL. */
  function CString(s: string): (r: string)
    ensures |r| <= |s| && r == s[..|r|] && '\0' !in r
    ensures |r| < |s| ==> s[|r|] == '\0'
  {
    if s == [] || s[0] == '\0' then [] else [s[0]] + CString(s[1..])
  }

  lemma {:induction false} CStringNoNul(s: string)
    requires '\0' !in s
    ensures CString(s) == s
    decreases |s|
  {
    if s != "" {
      CStringNoNul(s[1..]);
    }
  }

  /** The byte that a pointer `i` places into the C string reads. */
  function At(s: string, i: nat): char {
    if i < |s| then s[i] else '\0'
  }

  /** Reading the C string byte by byte meets the NUL at its end. */
  lemma AtEnd(s: string, i: nat)
    requires i <= |CString(s)|
    ensures At(s, i) == '\0' <==> i == |CString(s)|
  {
    if i < |CString(s)| {
      assert CString(s)[i] == s[i] && s[i] in CString(s);
    }
  }

  // ---------- Partial matches ----------

  /** The bytes of `text` from `g` on already contradict an occurrence of `pattern` at `g`. */
  ghost predicate Mismatch(text: string, g: nat, pattern: string) {
    exists k: nat :: k < |pattern| && g + k < |text| && text[g + k] != pattern[k]
  }

  /** All starts in `[base, f)` are contradicted and the bytes from `f` on are the first `m` of
      `pattern`: `f` starts the longest suffix that can still grow into an occurrence. */
  ghost predicate Matching(text: string, base: nat, f: nat, m: nat, pattern: string) {
    && base <= f && f + m == |text| && m <= |pattern|
    && text[f..] == pattern[..m]
    && forall g :: base <= g < f ==> Mismatch(text, g, pattern)
  }

  lemma MatchNothing(text: string, pattern: string)
    ensures Matching(text, |text|, |text|, 0, pattern)
  {
  }

  lemma MatchedSoFar(text: string, base: nat, f: nat, m: nat, pattern: string)
    requires Matching(text, base, f, m, pattern)
    ensures m <= |pattern|
  {
  }

  lemma MismatchGrows(text: string, g: nat, pattern: string, more: string)
    requires Mismatch(text, g, pattern)
    ensures Mismatch(text + more, g, pattern)
  {
    var k: nat :| k < |pattern| && g + k < |text| && text[g + k] != pattern[k];
    assert (text + more)[g + k] != pattern[k];
  }

  lemma MismatchNoOccurrence(text: string, g: nat, pattern: string)
    requires Mismatch(text, g, pattern)
    ensures !OccursAt(text, pattern, g)
  {
    var k: nat :| k < |pattern| && g + k < |text| && text[g + k] != pattern[k];
    assert g + |pattern| <= |text| ==> text[g..g + |pattern|][k] == text[g + k];
  }

  /** One more byte that the pattern expects. */
  lemma MatchExtends(text: string, base: nat, f: nat, m: nat, pattern: string, c: char)
    requires Matching(text, base, f, m, pattern) && m < |pattern| && c == pattern[m]
    ensures Matching(text + [c], base, f, m + 1, pattern)
  {
    forall g | base <= g < f
      ensures Mismatch(text + [c], g, pattern)
    {
      MismatchGrows(text, g, pattern, [c]);
    }
  }

  /** One more byte that the pattern does not expect rules out the current start as well. */
  lemma MatchBreaks(text: string, base: nat, f: nat, m: nat, pattern: string, c: char)
    requires Matching(text, base, f, m, pattern) && m < |pattern| && c != pattern[m]
    ensures forall g :: base <= g <= f ==> Mismatch(text + [c], g, pattern)
  {
    forall g | base <= g <= f
      ensures Mismatch(text + [c], g, pattern)
    {
      if g == f {
        assert (text + [c])[f + m] != pattern[m];
      } else {
        MismatchGrows(text, g, pattern, [c]);
      }
    }
  }

  /** The partial match is the longest suffix that is a prefix of the pattern. */
  lemma MatchingIsLongest(text: string, base: nat, f: nat, m: nat, pattern: string, g: nat)
    requires Matching(text, base, f, m, pattern) && base <= g < f
    ensures !(text[g..] <= pattern)
  {
    assert Mismatch(text, g, pattern);
    var k: nat :| k < |pattern| && g + k < |text| && text[g + k] != pattern[k];
    assert text[g..][k] == text[g + k];
  }

  /** A complete match ends at the first occurrence. */
  lemma CompleteMatch(text: string, base: nat, f: nat, pattern: string, rest: string)
    requires Matching(text, base, f, |pattern|, pattern)
    requires text[base..] <= rest
    ensures IsReadUntil(rest, pattern, true, text[base..])
  {
    var t := text[base..];
    forall j: nat | j < f - base
      ensures !OccursAt(rest, pattern, j)
    {
      assert Mismatch(text, base + j, pattern);
      var k: nat :| k < |pattern| && base + j + k < |text| && text[base + j + k] != pattern[k];
      assert rest[j + k] == t[j + k] == text[base + j + k];
      assert Mismatch(rest, j, pattern);
      MismatchNoOccurrence(rest, j, pattern);
    }
    assert text[f..] == pattern;
    assert rest[f - base..f - base + |pattern|] == t[f - base..] == text[f..];
    assert FirstOccurrence(rest, pattern, f - base);
    assert rest[..f - base + |pattern|] == t;
  }

  /** An incomplete match at the end of the input means that there is no occurrence. */
  lemma IncompleteMatch(text: string, base: nat, f: nat, m: nat, pattern: string)
    requires Matching(text, base, f, m, pattern) && m < |pattern|
    ensures IsReadUntil(text[base..], pattern, false, text[base..])
  {
    forall j: nat
      ensures !OccursAt(text[base..], pattern, j)
    {
      if j < f - base {
        assert Mismatch(text, base + j, pattern);
        var k: nat :| k < |pattern| && base + j + k < |text| && text[base + j + k] != pattern[k];
        assert text[base..][j + k] == text[base + j + k];
        assert Mismatch(text[base..], j, pattern);
        MismatchNoOccurrence(text[base..], j, pattern);
      }
    }
  }
}
