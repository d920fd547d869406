/** What the response parser makes of the status line: which word of it is the code, and what each code
    means for the body. */
module HttpStatuses {
  import opened Basics
  import opened Search
  import opened TextUtils
  import opened HttpParser
  import opened HttpResponses

  // ---------- The words of a status line ----------

  predicate IsWord(s: string) {
    s != "" && ' ' !in s && '\0' !in s
  }

  lemma SkipBlanksIs(s: string, i: nat, j: nat)
    requires i <= j <= |s| && (forall k :: i <= k < j ==> s[k] == ' ') && (j < |s| ==> s[j] != ' ')
    ensures SkipBlanks(s, i) == j
  {
  }

  lemma WordEndIs(s: string, i: nat, j: nat)
    requires i <= j <= |s| && (forall k :: i <= k < j ==> s[k] != ' ' && s[k] != '\0')
    requires j < |s| ==> s[j] == ' ' || s[j] == '\0'
    ensures WordEnd(s, i) == j
  {
  }

  /** The second word is the status code: blanks up to `i`, a word up to `a`, blanks up to `b`, and
      digits up to `c`, where the line or the word ends. */
  lemma CodeIsSecondWord(line: string, i: nat, a: nat, b: nat, c: nat)
    requires i < a < b < c <= |line|
    requires forall k :: 0 <= k < i || a <= k < b ==> line[k] == ' '
    requires forall k :: i <= k < a ==> line[k] != ' ' && line[k] != '\0'
    requires forall k :: b <= k < c ==> '0' <= line[k] <= '9'
    requires c < |line| ==> line[c] == ' ' || line[c] == '\0'
    ensures AllHex(line[b..c]) && StatusCode(line) == Value(line[b..c], 10)
  {
    hide Atoi, Value, SkipBlanks, WordEnd;
    SkipBlanksIs(line, 0, i);
    WordEndIs(line, i, a);
    SkipBlanksIs(line, a, b);
    WordEndIs(line, b, c);
    AtoiOfDigits(line[b..c]);
  }

  datatype StatusLine = StatusLine(version: string, digits: string, reason: string)

  predicate ValidStatus(s: StatusLine) {
    && IsWord(RemoveCr(s.version)) && IsLine(s.version) && IsLine(s.reason)
    && s.digits != "" && AllDigits(s.digits) && AllHex(s.digits)
  }

  /** A status line and the header lines under it. */
  datatype Answer = Answer(line: StatusLine, headers: seq<string>)

  predicate ValidAnswer(a: Answer) {
    ValidStatus(a.line) && AreLines(a.headers) && Trims(a.headers)
  }

  function HeadOf(a: Answer): Head {
    Head(a.line.version + " " + a.line.digits + " " + a.line.reason, a.headers)
  }

  function Number(a: Answer): nat
    requires ValidAnswer(a)
  {
    Value(a.line.digits, 10)
  }

  lemma CodeOfHead(a: Answer)
    requires ValidAnswer(a)
    ensures Code(HeadOf(a)) == Number(a) && ValidHead(HeadOf(a))
  {
    hide Value, StatusCode, RemoveCr, Trims, AreLines, IsWord;
    LineWithoutCr(a.line);
    CodeOfWords(RemoveCr(a.line.version), a.line.digits, RemoveCr(a.line.reason));
    StatusIsLine(a.line);
  }

  lemma CodeOfWords(version: string, digits: string, reason: string)
    requires IsWord(version) && digits != "" && AllDigits(digits) && AllHex(digits)
    ensures StatusCode(version + " " + digits + " " + reason) == Value(digits, 10)
  {
    hide Value, StatusCode;
    var line := version + " " + digits + " " + reason;
    var b := |version| + 1;
    var c := b + |digits|;
    assert line[..|version|] == version && line[b..c] == digits && line[|version|] == line[c] == ' ';
    assert forall k :: 0 <= k < |version| ==> line[k] == version[k];
    assert forall k :: 0 <= k < |digits| ==> IsDigit(digits[k]) && line[b + k] == digits[k];
    assert forall k :: b <= k < c ==> line[k] == digits[k - b];
    CodeIsSecondWord(line, 0, |version|, b, c);
  }

  lemma StatusIsLine(s: StatusLine)
    requires ValidStatus(s)
    ensures IsLine(s.version + " " + s.digits + " " + s.reason)
  {
    forall i | 0 <= i < |s.digits|
      ensures s.digits[i] != '\n'
    {
      assert IsDigit(s.digits[i]);
    }
  }

  lemma LineWithoutCr(s: StatusLine)
    requires ValidStatus(s)
    ensures RemoveCr(s.version + " " + s.digits + " " + s.reason)
         == RemoveCr(s.version) + " " + s.digits + " " + RemoveCr(s.reason)
  {
    hide RemoveCr;
    RemoveCrConcat(s.version + " " + s.digits + " ", s.reason);
    RemoveCrConcat(s.version + " " + s.digits, " ");
    RemoveCrConcat(s.version + " ", s.digits);
    RemoveCrConcat(s.version, " ");
    RemoveCrNone(" ");
    RemoveCrNone(s.digits);
  }

  /** Exactly 100 is taken as interim: another status line is expected after it. */
  lemma HundredIff(p: Parser, a: Answer, rest: string, count: int)
    requires p.state.STATUSLINE? && ValidAnswer(a) && count >= |HeadText(HeadOf(a), rest)|
    ensures var q := AfterHead(p, HeadOf(a));
      && Parse(p, HeadText(HeadOf(a), rest), count) == Parse(q, rest, count)
      && (q.state == STATUSLINE <==> Number(a) == 100)
      && q.httpCode == Number(a) && q.body == p.body
  {
    hide Parse, HeadText, HeadOf, Value, ValidAnswer, HeaderMap, IsChunkedCoding, FindHeader, Code, Atoi;
    CodeOfHead(a);
    OneHead(p, HeadOf(a), rest, count);
  }

  // ---------- All header lines of a response ----------

  function Heads(interim: seq<Answer>): seq<Head> {
    if interim == [] then [] else [HeadOf(interim[0])] + Heads(interim[1..])
  }

  function AllLines(interim: seq<Answer>, final: Answer): seq<string> {
    if interim == [] then final.headers else interim[0].headers + AllLines(interim[1..], final)
  }

  predicate ValidAnswers(interim: seq<Answer>, final: Answer) {
    && (forall i :: 0 <= i < |interim| ==> ValidAnswer(interim[i]) && Number(interim[i]) == 100)
    && ValidAnswer(final) && Number(final) != 100
  }

  lemma {:induction false} HeadsAreValid(interim: seq<Answer>, final: Answer)
    requires ValidAnswers(interim, final)
    ensures ValidHeads(Heads(interim), HeadOf(final)) && Trims(AllLines(interim, final))
    decreases |interim|
  {
    hide HeadOf, ValidAnswer, ValidHead, Code, Value, HeaderTrims;
    CodeOfHead(final);
    if interim == [] {
      TrimsOf(final);
    } else {
      assert ValidAnswers(interim[1..], final);
      CodeOfHead(interim[0]);
      TrimsOf(interim[0]);
      HeadsAreValid(interim[1..], final);
    }
  }

  lemma TrimsOf(a: Answer)
    requires ValidAnswer(a)
    ensures Trims(a.headers)
  {
  }

  lemma {:induction false} HeaderMapConcat(headers: map<string, string>, a: seq<string>, b: seq<string>)
    requires Trims(a) && Trims(b) && Trims(a + b)
    ensures HeaderMap(headers, a + b) == HeaderMap(HeaderMap(headers, a), b)
    decreases |a|
  {
    hide HeaderTrims, HeaderParts, AddHeader, Trim;
    if a == [] {
      assert a + b == b;
    } else {
      assert (a + b)[1..] == a[1..] + b && (a + b)[0] == a[0];
      assert HeaderTrims(a[0]);
      HeaderMapConcat(OneMore(headers, a[0]), a[1..], b);
      FirstLine(headers, a);
      FirstLine(headers, a + b);
    }
  }

  function OneMore(headers: map<string, string>, line: string): map<string, string>
    requires HeaderTrims(line)
  {
    AddHeader(headers, HeaderParts(RemoveCr(line)).0, Trim(HeaderParts(RemoveCr(line)).1).value)
  }

  lemma FirstLine(headers: map<string, string>, lines: seq<string>)
    requires Trims(lines) && lines != []
    ensures HeaderTrims(lines[0]) && Trims(lines[1..])
    ensures HeaderMap(headers, lines) == HeaderMap(OneMore(headers, lines[0]), lines[1..])
  {
    assert HeaderTrims(lines[0]);
  }

  /** The headers of the parser come from all header lines received, those of interim responses first. */
  lemma {:induction false} HeadersOfAllLines(headers: map<string, string>, interim: seq<Answer>, final: Answer)
    requires ValidHeads(Heads(interim), HeadOf(final)) && Trims(AllLines(interim, final))
    ensures HeaderMap(HeadsMap(headers, Heads(interim)), final.headers) == HeaderMap(headers, AllLines(interim, final))
    decreases |interim|
  {
    hide HeaderMap, Code, HeaderTrims;
    if interim != [] {
      var a, more := interim[0].headers, AllLines(interim[1..], final);
      assert Heads(interim)[0] == HeadOf(interim[0]) && Heads(interim)[1..] == Heads(interim[1..]);
      assert forall i :: 0 <= i < |more| ==> (a + more)[|a| + i] == more[i];
      HeadersOfAllLines(HeaderMap(headers, a), interim[1..], final);
      HeaderMapConcat(headers, a, more);
    }
  }

  // ---------- Chunked coding ----------

  /** The value of the first header line of that name starts with "chunked", in whatever case. */
  predicate StartsChunked(value: string) {
    |value| >= 7 && forall i :: 0 <= i < 7 ==> value[i] == "chunked"[i] || value[i] == "CHUNKED"[i]
  }

  lemma ChunkedIff(lines: seq<string>)
    requires Trims(lines)
    ensures var coding := FirstValue(lines, "transfer-encoding");
      IsChunkedCoding(HeaderMap(map[], lines)) <==> coding.Some? && StartsChunked(coding.value)
  {
    hide HeaderMap, FirstValue, Trims;
    HeaderMapFindsFirst(map[], lines, "transfer-encoding");
    SameName();
    var coding := FirstValue(lines, "transfer-encoding");
    if coding.Some? {
      ChunkedPrefixIff(coding.value);
    }
  }

  lemma SameName()
    ensures Lower("Transfer-encoding") == Lower("transfer-encoding")
  {
  }

  lemma ChunkedPrefixIff(value: string)
    ensures StartsWithIgnoringCase(value, "chunked") <==> StartsChunked(value)
  {
    if |value| >= 7 {
      forall i | 0 <= i < 7
        ensures Lower(value[..7])[i] == Lower("chunked")[i] <==> value[i] == "chunked"[i] || value[i] == "CHUNKED"[i]
      {
        SameLetter(value[i], i);
      }
      assert |Lower(value[..7])| == |Lower("chunked")| == 7;
    }
  }

  lemma SameLetter(c: char, i: nat)
    requires i < 7
    ensures ToLower(c) == ToLower("chunked"[i]) <==> c == "chunked"[i] || c == "CHUNKED"[i]
  {
    assert "chunked"[i] == ['c', 'h', 'u', 'n', 'k', 'e', 'd'][i];
    assert "CHUNKED"[i] == ['C', 'H', 'U', 'N', 'K', 'E', 'D'][i];
  }

  // ---------- Bodies by status ----------

  /** The bytes after the headers for every body length, -1 for none; the headers in the count let the
      program take more than is there. */
  lemma BodyOutcome(p: Parser, rest: string, count: int)
    requires p.state.BODY? && !p.chunked && p.bytesRead == 0 && count > |rest|
    ensures Parse(p, rest, count) ==
      if rest == "" then Finished(p)
      else if p.length == -1 then OutOfBounds(BODY)
      else if p.length < 0 then OutOfBounds(COMPLETE)
      else if p.length <= |rest| then
        Finished(p.(state := COMPLETE, body := p.body + rest[..p.length], bytesRead := p.length))
      else OutOfBounds(if count >= p.length then COMPLETE else BODY)
  {
    if rest == "" {
      ParseEnd(p, rest, count);
    } else {
      ParseBlock(p, rest, count);
      if 0 <= p.length <= |rest| {
        ParseEnd(Block(p, rest[..p.length]), rest[p.length..], count - p.length);
      }
    }
  }

  function ResponseText(interim: seq<Answer>, final: Answer, rest: string): string {
    HeadsText(Heads(interim), HeadText(HeadOf(final), rest))
  }

  /** The parser at the body of a response without chunked coding. */
  lemma AtBody(interim: seq<Answer>, final: Answer, rest: string) returns (p: Parser)
    requires ValidAnswers(interim, final) && Trims(AllLines(interim, final))
    requires !IsChunkedCoding(HeaderMap(map[], AllLines(interim, final)))
    ensures var text, code := ResponseText(interim, final, rest), Number(final);
      var length := FirstValue(AllLines(interim, final), "Content-Length");
      && Parse(FRESH, text, |text|) == Parse(p, rest, |text|) && |text| > |rest|
      && p.state == BODY && !p.chunked && p.bytesRead == 0 && p.body == ""
      && p.length == if code == 204 || code == 304 || 100 <= code < 200 then 0
                     else if length.Some? then Atoi(length.value) else -1
  {
    hide Parse, HeadsText, HeadText, IsChunkedCoding, FindHeader, Code, HeaderMap, HeadsMap, Atoi, HeadOf;
    hide Value, FirstValue, Trims, ValidAnswer, ValidHead, Heads, AllLines;
    HeadsAreValid(interim, final);
    CodeOfHead(final);
    var heads, head := Heads(interim), HeadOf(final);
    var text := ResponseText(interim, final, rest);
    LongEnough(heads, head, rest);
    HeadersInside(final);
    Interim(FRESH, heads, HeadText(head, rest), |text|);
    OneHead(AfterInterim(FRESH, heads), head, rest, |text|);
    HeadersOfAllLines(map[], interim, final);
    HeaderMapFindsFirst(map[], AllLines(interim, final), "Content-Length");
    NothingFound("Content-Length");
    p := AfterHead(AfterInterim(FRESH, heads), head);
  }

  lemma HeadersInside(a: Answer)
    requires ValidAnswer(a)
    ensures HeadOf(a).headers == a.headers && Trims(a.headers)
  {
  }

  lemma NothingFound(name: string)
    ensures FindHeader(map[], name) == None
  {
  }

  /** The response by the number in its last status line.  204, 304 and 1xx have no body; any other has
      the announced one.  The rest is what follows the headers. */
  lemma ResponseByStatus(interim: seq<Answer>, final: Answer, rest: string)
    requires ValidAnswers(interim, final) && Trims(AllLines(interim, final))
    requires var coding := FirstValue(AllLines(interim, final), "transfer-encoding");
      !(coding.Some? && StartsChunked(coding.value))
    ensures var text, code := ResponseText(interim, final, rest), Number(final);
      var length := FirstValue(AllLines(interim, final), "Content-Length");
      var n := if code == 204 || code == 304 || 100 <= code < 200 then 0
               else if length.Some? then Atoi(length.value) else -1;
      var o := Parse(FRESH, text, |text|);
      && (rest == "" ==> o.Finished? && o.p.state == BODY && o.p.body == "")
      && (rest != "" && 0 <= n <= |rest| ==> o.Finished? && o.p.state == COMPLETE && o.p.body == rest[..n])
      && (rest != "" && !(0 <= n <= |rest|) ==>
            o == OutOfBounds(if n == -1 || n > |text| then BODY else COMPLETE))
  {
    hide Parse, IsChunkedCoding, HeaderMap, Atoi, Value, FirstValue, Trims, ValidAnswer, AllLines, ResponseText;
    ChunkedIff(AllLines(interim, final));
    var p := AtBody(interim, final, rest);
    BodyOutcome(p, rest, |ResponseText(interim, final, rest)|);
  }
}
