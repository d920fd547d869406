/** The Base64 codec of kwctoolkit/utils/base64.cc (section 4 of RFC 4648). */
module Base64 {
  import opened Basics
  import opened Search

  const UPPER: string := "ABCDEFGHIJKLMNOPQRSTUVWXYZ"
  const LOWER: string := "abcdefghijklmnopqrstuvwxyz"
  const DIGITS: string := "0123456789+/"
  const BASE64_CHARS: string := UPPER + LOWER + DIGITS

  /** `isalnum` in the C locale, plus the two other characters of the alphabet. */
  predicate IsBase64(c: char) {
    'A' <= c <= 'Z' || 'a' <= c <= 'z' || '0' <= c <= '9' || c == '+' || c == '/'
  }

  predicate AllBase64(s: string) {
    forall c :: c in s ==> IsBase64(c)
  }

  lemma MoreBase64(s: string, from: nat, to: nat)
    requires from <= to < |s| && AllBase64(s[from..to]) && IsBase64(s[to])
    ensures AllBase64(s[from..to + 1])
  {
    assert s[from..to + 1] == s[from..to] + [s[to]];
  }

  lemma NoLetters()
    ensures AllBase64("") && !IsBase64('=')
  {
  }

  // ---------- The alphabet ----------

  function Symbol(i: nat): char
    requires i < 64
  {
    if i < 26 then 'A' + i as char
    else if i < 52 then 'a' + (i - 26) as char
    else if i < 62 then '0' + (i - 52) as char
    else if i == 62 then '+' else '/'
  }

  lemma AlphabetSymbols()
    ensures |BASE64_CHARS| == 64 && forall i :: 0 <= i < 64 ==> BASE64_CHARS[i] == Symbol(i)
  {
    assert forall i :: 0 <= i < 26 ==> UPPER[i] == 'A' + i as char;
    assert forall i :: 0 <= i < 26 ==> LOWER[i] == 'a' + i as char;
    assert forall i :: 0 <= i < 10 ==> DIGITS[i] == '0' + i as char;
  }

  /** `kBase64Chars.find(c)` as an unsigned char: a failed search truncates to 255. */
  function Lookup(c: char): bv8 {
    AlphabetSymbols();
    match FindChar(BASE64_CHARS, c, 0)
    case None => 255
    case Some(i) => i as bv8
  }

  function Letter(sextet: bv8): char
    requires sextet < 64
  {
    AlphabetSymbols();
    BASE64_CHARS[sextet as int]
  }

  lemma FindSymbol(i: nat)
    requires i < 64
    ensures FindChar(BASE64_CHARS, Symbol(i), 0) == Some(i) && IsBase64(Symbol(i))
  {
    AlphabetSymbols();
    assert BASE64_CHARS[i] == Symbol(i);
    var k := FindChar(BASE64_CHARS, Symbol(i), 0);
    assert k.Some? && BASE64_CHARS[k.value] == Symbol(k.value);
  }

  lemma FromSextet(sextet: bv8)
    requires sextet < 64
    ensures (sextet as int) < 64 && (sextet as int) as bv8 == sextet
  {
  }

  lemma ToSextet(i: nat)
    requires i < 64
    ensures (i as bv8) as int == i && i as bv8 < 64
  {
    ToWordAndBack(i);
    SmallWord(i as bv8);
  }

  lemma ToWordAndBack(i: nat)
    requires i < 64
    ensures (i as bv8) as int == i
  {
  }

  lemma SmallWord(b: bv8)
    requires b as int < 64
    ensures b < 64
  {
  }

  lemma LookupLetter(sextet: bv8)
    requires sextet < 64
    ensures IsBase64(Letter(sextet)) && Lookup(Letter(sextet)) == sextet
  {
    FromSextet(sextet);
    AlphabetSymbols();
    FindSymbol(sextet as int);
  }

  /** The place of a character in the alphabet. */
  function Index(c: char): (i: nat)
    requires IsBase64(c)
    ensures i < 64 && Symbol(i) == c
  {
    if 'A' <= c <= 'Z' then (c - 'A') as int
    else if 'a' <= c <= 'z' then (c - 'a') as int + 26
    else if '0' <= c <= '9' then (c - '0') as int + 52
    else if c == '+' then 62 else 63
  }

  lemma LetterLookup(c: char)
    requires IsBase64(c)
    ensures Lookup(c) < 64 && Letter(Lookup(c)) == c
  {
    FindSymbol(Index(c));
    ToSextet(Index(c));
    AlphabetSymbols();
  }

  type sextet = x: bv8 | x < 64

  function LettersOf(t: seq<sextet>): string {
    seq(|t|, i requires 0 <= i < |t| => Letter(t[i]))
  }

  function LookupSextet(c: char): sextet
    requires IsBase64(c)
  {
    LetterLookup(c);
    Lookup(c)
  }

  function LookupsOf(s: string): (t: seq<sextet>)
    requires AllBase64(s)
  {
    seq(|s|, i requires 0 <= i < |s| => LookupSextet(s[i]))
  }

  lemma LookupsOfLetters(t: seq<sextet>)
    ensures AllBase64(LettersOf(t))
    ensures LookupsOf(LettersOf(t)) == t
  {
    forall i | 0 <= i < |t|
      ensures IsBase64(LettersOf(t)[i]) && Lookup(LettersOf(t)[i]) == t[i]
    {
      LookupLetter(t[i]);
    }
  }

  lemma LettersOfLookups(s: string)
    requires AllBase64(s)
    ensures LettersOf(LookupsOf(s)) == s
  {
    forall i | 0 <= i < |s|
      ensures LettersOf(LookupsOf(s))[i] == s[i]
    {
      LetterLookup(s[i]);
    }
  }

  // ---------- Groups ----------

  /** The four sextets of three bytes. */
  function Split(x: bv8, y: bv8, z: bv8): (t: seq<sextet>)
    ensures |t| == 4
  {
    var a: sextet := (x & 0xfc) >> 2;
    var b: sextet := ((x & 0x03) << 4) + ((y & 0xf0) >> 4);
    var c: sextet := ((y & 0x0f) << 2) + ((z & 0xc0) >> 6);
    var d: sextet := z & 0x3f;
    [a, b, c, d]
  }

  /** The three bytes of four sextets; a place without a character has been looked up as well. */
  function Merge(a: bv8, b: bv8, c: bv8, d: bv8): (bytes: seq<bv8>)
    ensures |bytes| == 3
  {
    [(a << 2) + ((b & 0x30) >> 4),
     ((b & 0xf) << 4) + ((c & 0x3c) >> 2),
     ((c & 0x3) << 6) + d]
  }

  lemma MergeSplit(x: bv8, y: bv8, z: bv8)
    ensures var t := Split(x, y, z); Merge(t[0], t[1], t[2], t[3]) == [x, y, z]
  {
  }

  lemma SplitMerge(a: sextet, b: sextet, c: sextet, d: sextet)
    ensures var m := Merge(a, b, c, d); Split(m[0], m[1], m[2]) == [a, b, c, d]
  {
  }

  /** In a partial group only the whole bytes before the missing characters are emitted, and these
      do not depend on what is looked up for the missing ones. */
  lemma JunkIsNotEmitted(a: bv8, b: bv8, c: bv8, c': bv8, d: bv8, d': bv8)
    ensures Merge(a, b, c, d)[..1] == Merge(a, b, c', d')[..1]
    ensures Merge(a, b, c, d)[..2] == Merge(a, b, c, d')[..2]
  {
  }

  // ---------- What the codec computes ----------

  function ToSextets(bytes: seq<bv8>): seq<sextet> {
    if bytes == [] then []
    else if |bytes| == 1 then Split(bytes[0], 0, 0)[..2]
    else if |bytes| == 2 then Split(bytes[0], bytes[1], 0)[..3]
    else Split(bytes[0], bytes[1], bytes[2]) + ToSextets(bytes[3..])
  }

  function Padding(n: nat): string {
    if n % 3 == 1 then "==" else if n % 3 == 2 then "=" else ""
  }

  function Encode(bytes: seq<bv8>): string {
    LettersOf(ToSextets(bytes)) + Padding(|bytes|)
  }

  /** A sextet of a group; a missing one is what NUL is looked up as. */
  function SextetAt(t: seq<sextet>, i: nat): bv8 {
    if i < |t| then t[i] else Lookup('\0')
  }

  function MergeGroup(t: seq<sextet>): (bytes: seq<bv8>)
    ensures |bytes| == 3
  {
    Merge(SextetAt(t, 0), SextetAt(t, 1), SextetAt(t, 2), SextetAt(t, 3))
  }

  /** Three bytes for every four sextets, and one fewer than there are sextets for a partial group. */
  function ToBytes(t: seq<sextet>): seq<bv8> {
    if t == [] then []
    else if |t| < 4 then MergeGroup(t)[..|t| - 1]
    else MergeGroup(t[..4]) + ToBytes(t[4..])
  }

  /** The characters before the first one that is not of the alphabet. */
  function LetterPrefix(s: string): (r: string)
    ensures |r| <= |s| && r == s[..|r|] && AllBase64(r)
    ensures |r| < |s| ==> !IsBase64(s[|r|])
  {
    if s == "" || !IsBase64(s[0]) then "" else [s[0]] + LetterPrefix(s[1..])
  }

  function Decode(s: string): seq<bv8> {
    ToBytes(LookupsOf(LetterPrefix(s)))
  }

  // ---------- The bit string ----------

  /** Section 4 of RFC 4648 defines the encoding on bits: the bytes, the highest bit of each first,
      are read again in groups of six. */
  function Bits8(x: bv8): seq<bool> {
    [x & 0x80 != 0, x & 0x40 != 0, x & 0x20 != 0, x & 0x10 != 0,
     x & 0x08 != 0, x & 0x04 != 0, x & 0x02 != 0, x & 0x01 != 0]
  }

  function Bits6(x: bv8): seq<bool> {
    [x & 0x20 != 0, x & 0x10 != 0, x & 0x08 != 0, x & 0x04 != 0, x & 0x02 != 0, x & 0x01 != 0]
  }

  function ByteBits(bytes: seq<bv8>): seq<bool> {
    if bytes == [] then [] else Bits8(bytes[0]) + ByteBits(bytes[1..])
  }

  function SextetBits(t: seq<sextet>): seq<bool> {
    if t == [] then [] else Bits6(t[0]) + SextetBits(t[1..])
  }

  lemma BitsOfFirst(x: bv8)
    ensures Bits6((x & 0xfc) >> 2) == Bits8(x)[..6]
  {
    var t := (x & 0xfc) >> 2;
    assert t & 0x20 != 0 <==> x & 0x80 != 0;
    assert t & 0x10 != 0 <==> x & 0x40 != 0;
    assert t & 0x08 != 0 <==> x & 0x20 != 0;
    assert t & 0x04 != 0 <==> x & 0x10 != 0;
    assert t & 0x02 != 0 <==> x & 0x08 != 0;
    assert t & 0x01 != 0 <==> x & 0x04 != 0;
  }

  lemma BitsOfSecond(x: bv8, y: bv8)
    ensures Bits6(((x & 0x03) << 4) + ((y & 0xf0) >> 4)) == Bits8(x)[6..] + Bits8(y)[..4]
  {
    var t := ((x & 0x03) << 4) + ((y & 0xf0) >> 4);
    assert t & 0x20 != 0 <==> x & 0x02 != 0;
    assert t & 0x10 != 0 <==> x & 0x01 != 0;
    assert t & 0x08 != 0 <==> y & 0x80 != 0;
    assert t & 0x04 != 0 <==> y & 0x40 != 0;
    assert t & 0x02 != 0 <==> y & 0x20 != 0;
    assert t & 0x01 != 0 <==> y & 0x10 != 0;
  }

  lemma BitsOfThird(y: bv8, z: bv8)
    ensures Bits6(((y & 0x0f) << 2) + ((z & 0xc0) >> 6)) == Bits8(y)[4..] + Bits8(z)[..2]
  {
    var t := ((y & 0x0f) << 2) + ((z & 0xc0) >> 6);
    assert t & 0x20 != 0 <==> y & 0x08 != 0;
    assert t & 0x10 != 0 <==> y & 0x04 != 0;
    assert t & 0x08 != 0 <==> y & 0x02 != 0;
    assert t & 0x04 != 0 <==> y & 0x01 != 0;
    assert t & 0x02 != 0 <==> z & 0x80 != 0;
    assert t & 0x01 != 0 <==> z & 0x40 != 0;
  }

  lemma BitsOfFourth(z: bv8)
    ensures Bits6(z & 0x3f) == Bits8(z)[2..]
  {
    var t := z & 0x3f;
    assert t & 0x20 != 0 <==> z & 0x20 != 0;
    assert t & 0x10 != 0 <==> z & 0x10 != 0;
    assert t & 0x08 != 0 <==> z & 0x08 != 0;
    assert t & 0x04 != 0 <==> z & 0x04 != 0;
    assert t & 0x02 != 0 <==> z & 0x02 != 0;
    assert t & 0x01 != 0 <==> z & 0x01 != 0;
  }

  lemma SplitBits(x: bv8, y: bv8, z: bv8)
    ensures var t := Split(x, y, z);
      && Bits6(t[0]) == Bits8(x)[..6] && Bits6(t[1]) == Bits8(x)[6..] + Bits8(y)[..4]
      && Bits6(t[2]) == Bits8(y)[4..] + Bits8(z)[..2] && Bits6(t[3]) == Bits8(z)[2..]
  {
    hide Bits6, Bits8;
    BitsOfFirst(x);
    BitsOfSecond(x, y);
    BitsOfThird(y, z);
    BitsOfFourth(z);
  }

  lemma Regroup(x: seq<bool>, y: seq<bool>, z: seq<bool>)
    requires |x| == |y| == |z| == 8
    ensures x[..6] + (x[6..] + y[..4]) + (y[4..] + z[..2]) + z[2..] == x + y + z
    ensures x[..6] + (x[6..] + y[..4]) + (y[4..] + z[..2]) == x + y + z[..2]
    ensures x[..6] + (x[6..] + y[..4]) == x + y[..4]
  {
  }

  /** The bits that fill up the last sextet are zero. */
  function Fill0(n: nat): seq<bool> {
    if n % 3 == 1 then [false, false, false, false] else if n % 3 == 2 then [false, false] else []
  }

  lemma {:induction false} SextetBitsConcat(t: seq<sextet>, u: seq<sextet>)
    ensures SextetBits(t + u) == SextetBits(t) + SextetBits(u)
    decreases |t|
  {
    hide Bits6;
    if t == [] {
      assert t + u == u;
    } else {
      assert (t + u)[1..] == t[1..] + u;
      SextetBitsConcat(t[1..], u);
    }
  }

  lemma GroupBits(x: bv8, y: bv8, z: bv8)
    ensures SextetBits(Split(x, y, z)) == Bits8(x) + Bits8(y) + Bits8(z)
    ensures SextetBits(Split(x, y, z)[..3]) == Bits8(x) + Bits8(y) + Bits8(z)[..2]
    ensures SextetBits(Split(x, y, z)[..2]) == Bits8(x) + Bits8(y)[..4]
  {
    hide *;
    var t := Split(x, y, z);
    SplitBits(x, y, z);
    BitLengths(x, y, z);
    Regroup(Bits8(x), Bits8(y), Bits8(z));
    FewSextets(t[0], t[1], t[2], t[3]);
    assert t == [t[0], t[1], t[2], t[3]] && t[..3] == [t[0], t[1], t[2]] && t[..2] == [t[0], t[1]];
  }

  lemma OneSextet(a: sextet, rest: seq<sextet>)
    ensures SextetBits([a] + rest) == Bits6(a) + SextetBits(rest) && SextetBits([]) == []
  {
    assert ([a] + rest)[1..] == rest;
  }

  lemma OneByte(x: bv8, rest: seq<bv8>)
    ensures ByteBits([x] + rest) == Bits8(x) + ByteBits(rest) && ByteBits([]) == []
  {
    assert ([x] + rest)[1..] == rest;
  }

  lemma FewSextets(a: sextet, b: sextet, c: sextet, d: sextet)
    ensures SextetBits([a, b]) == Bits6(a) + Bits6(b)
    ensures SextetBits([a, b, c]) == Bits6(a) + Bits6(b) + Bits6(c)
    ensures SextetBits([a, b, c, d]) == Bits6(a) + Bits6(b) + Bits6(c) + Bits6(d)
  {
    hide *;
    assert [a, b] == [a] + ([b] + []) && [a, b, c] == [a] + ([b] + ([c] + []));
    assert [a, b, c, d] == [a] + ([b] + ([c] + ([d] + [])));
    OneSextet(d, []);
    OneSextet(c, [d] + []);
    OneSextet(b, [c] + ([d] + []));
    OneSextet(a, [b] + ([c] + ([d] + [])));
    OneSextet(c, []);
    OneSextet(b, [c] + []);
    OneSextet(a, [b] + ([c] + []));
    OneSextet(b, []);
    OneSextet(a, [b] + []);
  }

  lemma BitLengths(x: bv8, y: bv8, z: bv8)
    ensures |Bits8(x)| == |Bits8(y)| == |Bits8(z)| == 8
  {
  }

  lemma NoBits()
    ensures Bits8(0)[..4] == Fill0(1) && Bits8(0)[..2] == Fill0(2)
  {
  }

  lemma {:induction false} SameBits(bytes: seq<bv8>)
    ensures SextetBits(ToSextets(bytes)) == ByteBits(bytes) + Fill0(|bytes|)
    decreases |bytes|
  {
    hide Bits6, Bits8, Split;
    if |bytes| == 1 {
      PartialSameBits(bytes[0], 0);
      assert bytes == [bytes[0]];
    } else if |bytes| == 2 {
      PartialSameBits(bytes[0], bytes[1]);
      assert bytes == [bytes[0], bytes[1]];
    } else if |bytes| >= 3 {
      var x, y, z, rest := bytes[0], bytes[1], bytes[2], bytes[3..];
      SameBits(rest);
      GroupSameBits(x, y, z, rest);
      assert bytes == [x] + ([y] + ([z] + rest));
      assert Fill0(|bytes|) == Fill0(|rest|);
    }
  }

  lemma GroupSameBits(x: bv8, y: bv8, z: bv8, rest: seq<bv8>)
    requires SextetBits(ToSextets(rest)) == ByteBits(rest) + Fill0(|rest|)
    ensures SextetBits(Split(x, y, z) + ToSextets(rest)) == ByteBits([x] + ([y] + ([z] + rest))) + Fill0(|rest|)
  {
    hide *;
    GroupBits(x, y, z);
    SextetBitsConcat(Split(x, y, z), ToSextets(rest));
    OneByte(z, rest);
    OneByte(y, [z] + rest);
    OneByte(x, [y] + ([z] + rest));
    Associate(Bits8(x), Bits8(y), Bits8(z), ByteBits(rest), Fill0(|rest|));
  }

  lemma Associate(a: seq<bool>, b: seq<bool>, c: seq<bool>, d: seq<bool>, e: seq<bool>)
    ensures (a + b + c) + (d + e) == (a + (b + (c + d))) + e
  {
  }

  lemma PartialSameBits(x: bv8, y: bv8)
    ensures SextetBits(Split(x, 0, 0)[..2]) == ByteBits([x]) + Fill0(1)
    ensures SextetBits(Split(x, y, 0)[..3]) == ByteBits([x, y]) + Fill0(2)
  {
    hide *;
    NoBits();
    GroupBits(x, 0, 0);
    GroupBits(x, y, 0);
    OneByte(x, []);
    OneByte(y, []);
    OneByte(x, [y] + []);
    assert [x] == [x] + [] && [x, y] == [x] + ([y] + []);
  }

  // ---------- The bits of decoded strings ----------

  /** A group stands for the bits of its letters; of a partial one, for as many bytes as these fill. */
  lemma MergedBits(t: seq<sextet>)
    requires 2 <= |t| <= 4
    ensures ByteBits(MergeGroup(t)[..|t| - 1]) <= SextetBits(t)
    ensures |t| == 4 ==> ByteBits(MergeGroup(t)) == SextetBits(t)
  {
    hide *;
    var m := MergeGroup(t);
    assert m[..3] == m && m == [m[0], m[1], m[2]];
    if |t| == 4 {
      MergedFour(t);
    } else if |t| == 3 {
      MergedThree(t);
    } else {
      MergedTwo(t);
    }
  }

  lemma MergedFour(t: seq<sextet>)
    requires |t| == 4
    ensures ByteBits(MergeGroup(t)) == SextetBits(t)
  {
    hide *;
    var m := MergeGroup(t);
    GroupOfFour(t);
    FullGroupBits(t[0], t[1], t[2], t[3]);
    FewBytes(m[0], m[1], m[2]);
    assert t == [t[0], t[1], t[2], t[3]] && m == [m[0], m[1], m[2]];
  }

  lemma MergedThree(t: seq<sextet>)
    requires |t| == 3
    ensures ByteBits(MergeGroup(t)[..2]) <= SextetBits(t)
  {
    hide *;
    var m := MergeGroup(t);
    GroupOfThree(t);
    FullGroupBits(t[0], t[1], t[2], 0);
    FewBytes(m[0], m[1], m[2]);
    assert t == [t[0], t[1], t[2]] && m[..2] == [m[0], m[1]];
  }

  lemma MergedTwo(t: seq<sextet>)
    requires |t| == 2
    ensures ByteBits(MergeGroup(t)[..1]) <= SextetBits(t)
  {
    hide *;
    var m := MergeGroup(t);
    GroupOfTwo(t);
    FullGroupBits(t[0], t[1], 0, 0);
    FewBytes(m[0], m[1], m[2]);
    assert t == [t[0], t[1]] && m[..1] == [m[0]];
  }

  lemma FewBytes(x: bv8, y: bv8, z: bv8)
    ensures ByteBits([x]) == Bits8(x) && ByteBits([x, y]) == Bits8(x) + Bits8(y)
    ensures ByteBits([x, y, z]) == Bits8(x) + Bits8(y) + Bits8(z)
  {
    hide *;
    OneByte(z, []);
    OneByte(y, []);
    OneByte(y, [z] + []);
    OneByte(x, []);
    OneByte(x, [y] + []);
    OneByte(x, [y] + ([z] + []));
    assert [x, y, z] == [x] + ([y] + ([z] + [])) && [x, y] == [x] + ([y] + []) && [x] == [x] + [];
  }

  lemma FullGroupBits(a: sextet, b: sextet, c: sextet, d: sextet)
    ensures var m := Merge(a, b, c, d);
      && SextetBits([a, b, c, d]) == Bits8(m[0]) + Bits8(m[1]) + Bits8(m[2])
      && SextetBits([a, b, c]) == Bits8(m[0]) + Bits8(m[1]) + Bits8(m[2])[..2]
      && SextetBits([a, b]) == Bits8(m[0]) + Bits8(m[1])[..4]
  {
    hide *;
    var m := Merge(a, b, c, d);
    SplitMerge(a, b, c, d);
    GroupBits(m[0], m[1], m[2]);
    BitLengths(m[0], m[1], m[2]);
    assert [a, b, c, d][..3] == [a, b, c] && [a, b, c, d][..2] == [a, b];
  }

  lemma GroupOfFour(t: seq<sextet>)
    requires |t| == 4
    ensures MergeGroup(t) == Merge(t[0], t[1], t[2], t[3])
  {
    hide Merge, Lookup;
  }

  lemma GroupOfThree(t: seq<sextet>)
    requires |t| == 3
    ensures var m, n := MergeGroup(t), Merge(t[0], t[1], t[2], 0); m[0] == n[0] && m[1] == n[1]
  {
    hide Merge, Lookup;
    var m, n := MergeGroup(t), Merge(t[0], t[1], t[2], 0);
    JunkIsNotEmitted(t[0], t[1], t[2], t[2], Lookup('\0'), 0);
    assert m[..2] == n[..2] && m[0] == m[..2][0] && m[1] == m[..2][1];
  }

  lemma GroupOfTwo(t: seq<sextet>)
    requires |t| == 2
    ensures var m, n := MergeGroup(t), Merge(t[0], t[1], 0, 0); m[0] == n[0]
  {
    hide Merge, Lookup;
    var m, n := MergeGroup(t), Merge(t[0], t[1], 0, 0);
    JunkIsNotEmitted(t[0], t[1], Lookup('\0'), 0, Lookup('\0'), 0);
    assert m[..1] == n[..1] && m[0] == m[..1][0];
  }

  lemma {:induction false} ByteBitsConcat(t: seq<bv8>, u: seq<bv8>)
    ensures ByteBits(t + u) == ByteBits(t) + ByteBits(u)
    decreases |t|
  {
    hide Bits8;
    if t == [] {
      assert t + u == u;
    } else {
      assert (t + u)[1..] == t[1..] + u;
      ByteBitsConcat(t[1..], u);
    }
  }

  /** Whatever the letters, canonical or not, the bytes are their bits in order, as far as these fill
      whole bytes. */
  lemma {:induction false} DecodedBits(t: seq<sextet>)
    ensures ByteBits(ToBytes(t)) <= SextetBits(t)
    decreases |t|
  {
    hide Bits6, Bits8, MergeGroup;
    if |t| >= 4 {
      DecodedBits(t[4..]);
      MergedBits(t[..4]);
      SextetBitsConcat(t[..4], t[4..]);
      ByteBitsConcat(MergeGroup(t[..4]), ToBytes(t[4..]));
      assert t == t[..4] + t[4..];
    } else if |t| >= 2 {
      MergedBits(t);
    }
  }

  // ---------- Round trips ----------

  lemma {:induction false} SextetCount(bytes: seq<bv8>)
    ensures |ToSextets(bytes)| == |bytes| + (|bytes| + 2) / 3
    decreases |bytes|
  {
    if |bytes| >= 3 {
      SextetCount(bytes[3..]);
    }
  }

  lemma EncodedLength(bytes: seq<bv8>)
    ensures |Encode(bytes)| == 4 * ((|bytes| + 2) / 3)
  {
    SextetCount(bytes);
  }

  /** The alphabet of section 4 of RFC 4648. */
  lemma LetterExactly(x: sextet)
    ensures var i := x as int;
      Letter(x) == if i < 26 then 'A' + i as char else if i < 52 then 'a' + (i - 26) as char
                   else if i < 62 then '0' + (i - 52) as char else if i == 62 then '+' else '/'
  {
    AlphabetSymbols();
    FromSextet(x);
  }

  /** An encoding is letters of the alphabet, and at its end one '=' for each byte that is missing from
      the last group of three. */
  lemma EncodedShape(bytes: seq<bv8>)
    ensures var s := Encode(bytes);
      var letters := |s| - (if |bytes| % 3 == 1 then 2 else if |bytes| % 3 == 2 then 1 else 0);
      && 0 <= letters
      && (forall i :: 0 <= i < letters ==>
            'A' <= s[i] <= 'Z' || 'a' <= s[i] <= 'z' || '0' <= s[i] <= '9' || s[i] == '+' || s[i] == '/')
      && (forall i :: letters <= i < |s| ==> s[i] == '=')
  {
    hide Letter, Lookup, ToSextets;
    LookupsOfLetters(ToSextets(bytes));
    var t := LettersOf(ToSextets(bytes));
    assert forall i :: 0 <= i < |t| ==> t[i] in t;
  }

  lemma {:induction false} ByteCount(t: seq<sextet>)
    ensures |ToBytes(t)| == 3 * (|t| / 4) + (if |t| % 4 == 0 then 0 else |t| % 4 - 1)
    decreases |t|
  {
    if |t| >= 4 {
      ByteCount(t[4..]);
    }
  }

  lemma {:induction false} BytesOfSextets(bytes: seq<bv8>)
    ensures ToBytes(ToSextets(bytes)) == bytes
    decreases |bytes|
  {
    var junk := Lookup('\0');
    if |bytes| == 1 {
      var t := Split(bytes[0], 0, 0);
      MergeSplit(bytes[0], 0, 0);
      JunkIsNotEmitted(t[0], t[1], t[2], junk, t[3], junk);
    } else if |bytes| == 2 {
      var t := Split(bytes[0], bytes[1], 0);
      MergeSplit(bytes[0], bytes[1], 0);
      JunkIsNotEmitted(t[0], t[1], t[2], t[2], t[3], junk);
    } else if |bytes| >= 3 {
      var t, rest := Split(bytes[0], bytes[1], bytes[2]), ToSextets(bytes[3..]);
      MergeSplit(bytes[0], bytes[1], bytes[2]);
      BytesOfSextets(bytes[3..]);
      assert (t + rest)[..4] == t && (t + rest)[4..] == rest;
    }
  }

  lemma {:induction false} PrefixOfConcat(letters: string, rest: string)
    requires AllBase64(letters)
    ensures LetterPrefix(letters + rest) == letters + LetterPrefix(rest)
    decreases |letters|
  {
    if letters == "" {
      assert letters + rest == rest;
    } else {
      assert (letters + rest)[1..] == letters[1..] + rest;
      PrefixOfConcat(letters[1..], rest);
    }
  }

  /** The prefix ends where the padding starts. */
  lemma PrefixBeforePadding(letters: string, padding: string)
    requires AllBase64(letters)
    requires padding == "" || !IsBase64(padding[0])
    ensures LetterPrefix(letters + padding) == letters
  {
    PrefixOfConcat(letters, padding);
    assert letters + LetterPrefix(padding) == letters;
  }

  lemma DecodeEncode(bytes: seq<bv8>)
    ensures Decode(Encode(bytes)) == bytes
  {
    var t := ToSextets(bytes);
    LookupsOfLetters(t);
    PrefixBeforePadding(LettersOf(t), Padding(|bytes|));
    BytesOfSextets(bytes);
  }

  /** Groups of four and a last one that stands for one or two bytes, whose unused bits are zero. */
  predicate Complete(t: seq<sextet>) {
    if |t| >= 4 then Complete(t[4..])
    else |t| != 1 && (|t| == 2 ==> t[1] & 0xf == 0) && (|t| == 3 ==> t[2] & 0x3 == 0)
  }

  lemma {:induction false} CompleteLength(t: seq<sextet>)
    requires Complete(t)
    ensures |t| % 4 != 1
    decreases |t|
  {
    if |t| >= 4 {
      CompleteLength(t[4..]);
    }
  }

  /** What completes a group of four. */
  function PaddingAfter(letters: nat): string {
    if letters % 4 == 2 then "==" else if letters % 4 == 3 then "=" else ""
  }

  lemma PaddingCompletes(bytes: nat)
    ensures PaddingAfter(bytes + (bytes + 2) / 3) == Padding(bytes) && (bytes + (bytes + 2) / 3) % 4 != 1
  {
    var q, r := bytes / 3, bytes % 3;
    assert bytes == 3 * q + r;
    assert bytes + (bytes + 2) / 3 == 4 * q + (if r == 0 then 0 else r + 1);
  }

  lemma PaddingOfBytes(letters: nat)
    requires letters % 4 != 1
    ensures Padding(3 * (letters / 4) + (if letters % 4 == 0 then 0 else letters % 4 - 1)) == PaddingAfter(letters)
  {
  }

  /** Section 4 of RFC 4648: letters in groups of four, the last group padded with '=' when it
      stands for one or two bytes only, and (section 3.5) the unused bits of its last letter zero. */
  predicate Canonical(s: string) {
    var letters := LetterPrefix(s);
    s[|letters|..] == PaddingAfter(|letters|) && Complete(LookupsOf(letters))
  }

  lemma {:induction false} SextetsAreComplete(bytes: seq<bv8>)
    ensures Complete(ToSextets(bytes))
    decreases |bytes|
  {
    if |bytes| >= 3 {
      SextetsAreComplete(bytes[3..]);
      var t, rest := Split(bytes[0], bytes[1], bytes[2]), ToSextets(bytes[3..]);
      assert (t + rest)[4..] == rest;
    } else if |bytes| == 1 {
      SplitUnused(bytes[0], 0);
    } else if |bytes| == 2 {
      SplitUnused(bytes[0], bytes[1]);
    }
  }

  lemma SplitUnused(x: bv8, y: bv8)
    ensures Split(x, 0, 0)[1] & 0xf == 0 && Split(x, y, 0)[2] & 0x3 == 0
  {
  }

  lemma EncodeIsCanonical(bytes: seq<bv8>)
    ensures Canonical(Encode(bytes))
  {
    var t := ToSextets(bytes);
    var letters, padding := LettersOf(t), Padding(|bytes|);
    LookupsOfLetters(t);
    PrefixBeforePadding(letters, padding);
    SextetCount(bytes);
    PaddingCompletes(|bytes|);
    SextetsAreComplete(bytes);
    assert (letters + padding)[|letters|..] == padding;
  }

  lemma {:induction false} SextetsOfBytes(t: seq<sextet>)
    requires Complete(t)
    ensures ToSextets(ToBytes(t)) == t
    decreases |t|
  {
    if |t| >= 4 {
      SextetsOfBytes(t[4..]);
      SextetsOfGroup(t[..4], ToBytes(t[4..]));
      assert t == t[..4] + t[4..];
    } else if |t| == 2 {
      SextetsOfPair(t[0], t[1]);
      assert t == [t[0], t[1]];
    } else if |t| == 3 {
      SextetsOfTriple(t[0], t[1], t[2]);
      assert t == [t[0], t[1], t[2]];
    }
  }

  lemma SextetsOfGroup(t: seq<sextet>, rest: seq<bv8>)
    requires |t| == 4
    ensures ToSextets(MergeGroup(t) + rest) == t + ToSextets(rest)
  {
    SplitMerge(t[0], t[1], t[2], t[3]);
    var m := MergeGroup(t);
    assert (m + rest)[3..] == rest;
    assert t == [t[0], t[1], t[2], t[3]];
  }

  lemma SextetsOfPair(a: sextet, b: sextet)
    requires b & 0xf == 0
    ensures ToSextets(ToBytes([a, b])) == [a, b]
  {
    var junk := Lookup('\0');
    var m := Merge(a, b, junk, junk);
    PartialSplit1(a, b, junk);
    assert ToBytes([a, b]) == [m[0]];
  }

  lemma SextetsOfTriple(a: sextet, b: sextet, c: sextet)
    requires c & 0x3 == 0
    ensures ToSextets(ToBytes([a, b, c])) == [a, b, c]
  {
    var junk := Lookup('\0');
    var m := Merge(a, b, c, junk);
    PartialSplit2(a, b, c, junk);
    assert ToBytes([a, b, c]) == [m[0], m[1]];
  }

  lemma PartialSplit1(a: sextet, b: sextet, junk: bv8)
    requires b & 0xf == 0
    ensures Split(Merge(a, b, junk, junk)[0], 0, 0)[..2] == [a, b]
  {
  }

  lemma PartialSplit2(a: sextet, b: sextet, c: sextet, junk: bv8)
    requires c & 0x3 == 0
    ensures var m := Merge(a, b, c, junk); Split(m[0], m[1], 0)[..3] == [a, b, c]
  {
  }

  /** Encoding undoes decoding exactly on the canonical strings. */
  lemma EncodeDecodeIffCanonical(s: string)
    ensures Encode(Decode(s)) == s <==> Canonical(s)
  {
    if Canonical(s) {
      EncodeDecode(s);
    } else {
      EncodeIsCanonical(Decode(s));
    }
  }

  lemma EncodeDecode(s: string)
    requires Canonical(s)
    ensures Encode(Decode(s)) == s
  {
    var letters := LetterPrefix(s);
    var t := LookupsOf(letters);
    EncodeBytesOf(t);
    LettersOfLookups(letters);
    assert s == letters + s[|letters|..];
  }

  lemma EncodeBytesOf(t: seq<sextet>)
    requires Complete(t)
    ensures Encode(ToBytes(t)) == LettersOf(t) + PaddingAfter(|t|)
  {
    hide ToBytes, ToSextets, Complete, LettersOf, Padding, PaddingAfter;
    SextetsOfBytes(t);
    CompleteLength(t);
    ByteCount(t);
    PaddingOfBytes(|t|);
  }

  // ---------- The program ----------

  lemma EncodeStep(bytes: seq<bv8>, k: nat)
    requires k + 3 <= |bytes|
    ensures Encode(bytes[k..])
         == LettersOf(Split(bytes[k], bytes[k + 1], bytes[k + 2])) + Encode(bytes[k + 3..])
  {
    var t, rest := Split(bytes[k], bytes[k + 1], bytes[k + 2]), ToSextets(bytes[k + 3..]);
    assert bytes[k..][3..] == bytes[k + 3..];
    assert ToSextets(bytes[k..]) == t + rest;
    LettersOfConcat(t, rest);
    PaddingPeriod(|bytes| - k);
  }

  lemma EncodeNothing()
    ensures Encode([]) == ""
  {
  }

  lemma LettersOfConcat(t: seq<sextet>, u: seq<sextet>)
    ensures LettersOf(t + u) == LettersOf(t) + LettersOf(u)
  {
  }

  lemma PaddingPeriod(n: nat)
    requires n >= 3
    ensures Padding(n) == Padding(n - 3)
  {
  }

  /** Fills the four-byte buffer from the three-byte one. */
  method SplitGroup(chars3: array<bv8>, chars4: array<sextet>)
    requires chars3.Length == 3 && chars4.Length == 4
    modifies chars4
    ensures chars4[..] == Split(chars3[0], chars3[1], chars3[2])
  {
    var t := Split(chars3[0], chars3[1], chars3[2]);
    Fill(chars4, t);
  }

  method Fill<T>(buffer: array<T>, values: seq<T>)
    requires buffer.Length == |values|
    modifies buffer
    ensures buffer[..] == values
  {
    for i := 0 to |values|
      invariant buffer[..i] == values[..i]
    {
      buffer[i] := values[i];
    }
  }

  method EmitLetters(ret: string, chars4: array<sextet>, n: nat) returns (r: string)
    requires n <= chars4.Length
    ensures r == ret + LettersOf(chars4[..n])
  {
    r := ret;
    for i := 0 to n
      invariant r == ret + LettersOf(chars4[..i])
    {
      r := r + [Letter(chars4[i])];
      assert LettersOf(chars4[..i + 1]) == LettersOf(chars4[..i]) + [Letter(chars4[i])];
    }
  }

  method Base64Encode(bytes: seq<bv8>) returns (ret: string)
    ensures ret == Encode(bytes)
  {
    hide *;
    EncodeNothing();
    ret := "";
    var i, next := 0, 0;
    var chars3, chars4 := new bv8[3], new sextet[4];
    while next < |bytes|
      invariant next <= |bytes| && 0 <= i < 3 && i <= next
      invariant forall k :: 0 <= k < i ==> chars3[k] == bytes[next - i + k]
      invariant ret + Encode(bytes[next - i..]) == Encode(bytes)
    {
      chars3[i] := bytes[next];
      i, next := i + 1, next + 1;
      if i == 3 {
        SplitGroup(chars3, chars4);
        EncodeStep(bytes, next - 3);
        assert chars4[..4] == chars4[..];
        ret := EmitLetters(ret, chars4, 4);
        i := 0;
      }
    }
    ghost var rest := bytes[next - i..];
    if i != 0 {
      ret := EncodePartial(ret, chars3, chars4, i, rest);
    }
  }

  /** The last one or two bytes. */
  method EncodePartial(ret: string, chars3: array<bv8>, chars4: array<sextet>, i: nat, ghost rest: seq<bv8>)
    returns (r: string)
    requires chars3.Length == 3 && chars4.Length == 4
    requires |rest| == i && 1 <= i <= 2 && forall k :: 0 <= k < i ==> chars3[k] == rest[k]
    modifies chars3, chars4
    ensures r == ret + Encode(rest)
  {
    for j := i to 3
      invariant forall k :: 0 <= k < j ==> chars3[k] == if k < i then rest[k] else 0
    {
      chars3[j] := 0;
    }
    SplitGroup(chars3, chars4);
    assert chars4[..i + 1] == ToSextets(rest);
    r := EmitLetters(ret, chars4, i + 1);
    r := Pad(r, i);
  }

  method Pad(ret: string, i: nat) returns (r: string)
    requires 1 <= i <= 2
    ensures r == ret + Padding(i)
  {
    r := ret;
    var pad := i;
    while pad < 3
      invariant i <= pad <= 3 && r == ret + seq(pad - i, _ => '=')
    {
      r := r + "=";
      pad := pad + 1;
    }
    assert seq(3 - i, _ => '=') == Padding(i);
  }

  /** And back. */
  method MergeChars(chars4: array<bv8>, chars3: array<bv8>)
    requires chars3.Length == 3 && chars4.Length == 4
    modifies chars3
    ensures chars3[..] == Merge(chars4[0], chars4[1], chars4[2], chars4[3])
  {
    var bytes := Merge(chars4[0], chars4[1], chars4[2], chars4[3]);
    Fill(chars3, bytes);
  }

  /** Replaces the characters of a group by their places in the alphabet and merges these.  The
      program keeps both in the same array. */
  method DecodeGroup(chars: array<char>, chars3: array<bv8>, ghost group: string)
    requires chars.Length == 4 && chars3.Length == 3
    requires 0 < |group| <= 4 && AllBase64(group)
    requires forall k :: 0 <= k < 4 ==> chars[k] == if k < |group| then group[k] else '\0'
    modifies chars3
    ensures chars3[..] == MergeGroup(LookupsOf(group))
  {
    hide Lookup;
    var chars4 := new bv8[4];
    for i := 0 to 4
      invariant forall k :: 0 <= k < i ==> chars4[k] == Lookup(chars[k])
    {
      chars4[i] := Lookup(chars[i]);
    }
    MergeChars(chars4, chars3);
    ghost var t := LookupsOf(group);
    assert forall k :: 0 <= k < 4 ==> chars4[k] == SextetAt(t, k);
  }

  lemma PrefixStep(s: string, n: nat)
    requires n <= |s| && AllBase64(s[..n])
    ensures LetterPrefix(s) == s[..n] + LetterPrefix(s[n..])
  {
    PrefixOfConcat(s[..n], s[n..]);
    assert s == s[..n] + s[n..];
  }

  lemma LookupsOfConcat(s: string, t: string)
    requires AllBase64(s) && AllBase64(t)
    ensures LookupsOf(s + t) == LookupsOf(s) + LookupsOf(t)
  {
  }

  lemma BytesOfConcat(t: seq<sextet>, u: seq<sextet>)
    requires |t| == 4
    ensures ToBytes(t + u) == MergeGroup(t) + ToBytes(u)
  {
    assert (t + u)[..4] == t && (t + u)[4..] == u;
  }

  lemma DecodeStep(s: string, k: nat)
    requires k + 4 <= |s| && AllBase64(s[k..k + 4])
    ensures Decode(s[k..]) == MergeGroup(LookupsOf(s[k..k + 4])) + Decode(s[k + 4..])
  {
    var rest, group, more := s[k..], s[k..k + 4], s[k + 4..];
    assert rest[..4] == group && rest[4..] == more;
    PrefixStep(rest, 4);
    LookupsOfConcat(group, LetterPrefix(more));
    BytesOfConcat(LookupsOf(group), LookupsOf(LetterPrefix(more)));
  }

  lemma DecodeLast(s: string, k: nat, n: nat)
    requires k + n <= |s| && n < 4 && AllBase64(s[k..k + n])
    requires k + n < |s| ==> !IsBase64(s[k + n])
    ensures Decode(s[k..]) == if n == 0 then [] else MergeGroup(LookupsOf(s[k..k + n]))[..n - 1]
  {
    var rest, group := s[k..], s[k..k + n];
    assert rest[..n] == group && rest[n..] == s[k + n..];
    PrefixStep(rest, n);
    assert LetterPrefix(rest) == group;
  }

  method Base64Decode(s: string) returns (ret: seq<bv8>)
    ensures ret == Decode(s)
  {
    hide *;
    NoLetters();
    ret := [];
    var i, next := 0, 0;
    var chars, chars3 := new char[4], new bv8[3];
    assert s[0..] == s;
    while next < |s| && s[next] != '=' && IsBase64(s[next])
      invariant next <= |s| && 0 <= i < 4 && i <= next
      invariant forall k :: 0 <= k < i ==> chars[k] == s[next - i + k]
      invariant AllBase64(s[next - i..next])
      invariant ret + Decode(s[next - i..]) == Decode(s)
    {
      chars[i] := s[next];
      i, next := i + 1, next + 1;
      MoreBase64(s, next - i, next - 1);
      if i == 4 {
        ret := DecodeFull(ret, chars, chars3, s, next - 4);
        i := 0;
        assert s[next - i..next] == [];
      }
    }
    DecodeLast(s, next - i, i);
    if i != 0 {
      ret := DecodePartial(ret, chars, chars3, i, s[next - i..next]);
    }
  }

  /** A full group. */
  method DecodeFull(ret: seq<bv8>, chars: array<char>, chars3: array<bv8>, ghost s: string, ghost k: nat)
    returns (r: seq<bv8>)
    requires chars.Length == 4 && chars3.Length == 3
    requires k + 4 <= |s| && AllBase64(s[k..k + 4]) && forall j :: 0 <= j < 4 ==> chars[j] == s[k + j]
    modifies chars3
    ensures r + Decode(s[k + 4..]) == ret + Decode(s[k..])
  {
    hide *;
    DecodeGroup(chars, chars3, s[k..k + 4]);
    DecodeStep(s, k);
    assert chars3[..3] == chars3[..];
    r := EmitBytes(ret, chars3, 3);
  }

  /** The last one to three characters. */
  method DecodePartial(ret: seq<bv8>, chars: array<char>, chars3: array<bv8>, i: nat, ghost group: string)
    returns (r: seq<bv8>)
    requires chars.Length == 4 && chars3.Length == 3 && 1 <= i <= 3
    requires |group| == i && AllBase64(group) && forall k :: 0 <= k < i ==> chars[k] == group[k]
    modifies chars, chars3
    ensures r == ret + MergeGroup(LookupsOf(group))[..i - 1]
  {
    hide *;
    for j := i to 4
      invariant forall k :: 0 <= k < j ==> chars[k] == if k < i then group[k] else '\0'
    {
      chars[j] := '\0';
    }
    DecodeGroup(chars, chars3, group);
    r := EmitBytes(ret, chars3, i - 1);
    assert chars3[..i - 1] == chars3[..][..i - 1];
  }

  method EmitBytes(ret: seq<bv8>, chars3: array<bv8>, n: nat) returns (r: seq<bv8>)
    requires n <= chars3.Length
    ensures r == ret + chars3[..n]
  {
    r := ret;
    for j := 0 to n
      invariant r == ret + chars3[..j]
    {
      r := r + [chars3[j]];
    }
  }
}
