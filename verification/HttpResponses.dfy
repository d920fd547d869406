/** What the response parser makes of well-formed responses: it undoes the chunked transfer coding
    of section 3.6.1 of RFC 2616, and takes a body of known length from the bytes after the headers. */
module HttpResponses {
  import opened Basics
  import opened Search
  import opened TextUtils
  import opened HttpParser

  // ---------- Serialisation ----------

  predicate IsLine(s: string) {
    '\n' !in s
  }

  predicate AreLines(lines: seq<string>) {
    forall i :: 0 <= i < |lines| ==> IsLine(lines[i]) && RemoveCr(lines[i]) != ""
  }

  function LineText(s: string): string {
    s + "\r\n"
  }

  function LinesText(lines: seq<string>): string {
    if lines == [] then "" else LineText(lines[0]) + LinesText(lines[1..])
  }

  /** A status line and header lines, in front of more text. */
  datatype Head = Head(status: string, headers: seq<string>)

  function HeadText(h: Head, rest: string): (r: string)
    ensures |r| > |rest|
  {
    LineText(h.status) + (LinesText(h.headers) + (LineText("") + rest))
  }

  function HeadsText(heads: seq<Head>, rest: string): (r: string)
    ensures |r| >= |rest|
  {
    if heads == [] then rest else HeadText(heads[0], HeadsText(heads[1..], rest))
  }

  predicate ValidHead(h: Head) {
    IsLine(h.status) && AreLines(h.headers) && Trims(h.headers)
  }

  function Code(h: Head): int {
    StatusCode(RemoveCr(h.status))
  }

  datatype Chunk = Chunk(size: string, extension: string, data: string)

  /** A hexadecimal number and an extension that cannot continue it. */
  predicate ValidSize(size: string, extension: string, n: int) {
    && size != "" && AllHex(size) && Value(size, 16) == n <= LONG_MAX
    && '\n' !in extension && '\r' !in extension
    && (extension == "" || !(IsHexDigit(extension[0]) || extension[0] == 'x' || extension[0] == 'X'))
  }

  predicate ValidChunks(chunks: seq<Chunk>) {
    forall i :: 0 <= i < |chunks| ==>
      chunks[i].data != "" && ValidSize(chunks[i].size, chunks[i].extension, |chunks[i].data|)
  }

  function ChunksText(chunks: seq<Chunk>, rest: string): (r: string)
    ensures |r| >= |Payload(chunks)| + |rest|
  {
    if chunks == [] then rest
    else
      var c := chunks[0];
      LineText(c.size + c.extension) + (c.data + (LineText("") + ChunksText(chunks[1..], rest)))
  }

  function Payload(chunks: seq<Chunk>): string {
    if chunks == [] then "" else chunks[0].data + Payload(chunks[1..])
  }

  // ---------- Headers ----------

  /** A header line whose value is nothing but blanks makes the parser throw. */
  predicate HeaderTrims(line: string) {
    Trim(HeaderParts(RemoveCr(line)).1).Some?
  }

  predicate Trims(headers: seq<string>) {
    forall i :: 0 <= i < |headers| ==> HeaderTrims(headers[i])
  }

  function HeaderMap(headers: map<string, string>, lines: seq<string>): map<string, string>
    requires Trims(lines)
    decreases |lines|
  {
    if lines == [] then headers
    else
      assert HeaderTrims(lines[0]);
      var (name, value) := HeaderParts(RemoveCr(lines[0]));
      HeaderMap(AddHeader(headers, name, Trim(value).value), lines[1..])
  }

  function HeadsMap(headers: map<string, string>, heads: seq<Head>): map<string, string>
    requires forall i :: 0 <= i < |heads| ==> ValidHead(heads[i])
    decreases |heads|
  {
    if heads == [] then headers
    else
      assert ValidHead(heads[0]);
      HeadsMap(HeaderMap(headers, heads[0].headers), heads[1..])
  }

  /** The value of the first header line of that name, in whatever case. */
  function FirstValue(lines: seq<string>, name: string): Option<string>
    requires Trims(lines)
    decreases |lines|
  {
    if lines == [] then None
    else
      assert HeaderTrims(lines[0]);
      var (n, value) := HeaderParts(RemoveCr(lines[0]));
      if Lower(n) == Lower(name) then Trim(value) else FirstValue(lines[1..], name)
  }

  lemma {:induction false} HeaderMapFindsFirst(headers: map<string, string>, lines: seq<string>, name: string)
    requires Trims(lines)
    ensures FindHeader(HeaderMap(headers, lines), name) ==
      if FindHeader(headers, name).Some? then FindHeader(headers, name) else FirstValue(lines, name)
    decreases |lines|
  {
    if lines != [] {
      assert HeaderTrims(lines[0]);
      var (n, value) := HeaderParts(RemoveCr(lines[0]));
      HeaderMapFindsFirst(AddHeader(headers, n, Trim(value).value), lines[1..], name);
    }
  }

  // ---------- Lines ----------

  lemma {:induction false} FirstChar(text: string, c: char, from: nat, k: nat)
    requires from <= k < |text| && text[k] == c && forall j :: from <= j < k ==> text[j] != c
    ensures FindChar(text, c, from) == Some(k)
    decreases k - from
  {
    if from < k {
      FirstChar(text, c, from + 1, k);
    }
  }

  lemma LineEnd(s: string, rest: string)
    requires IsLine(s)
    ensures var text := LineText(s) + rest;
      && FindChar(text, '\n', 0) == Some(|s| + 1)
      && RemoveCr(text[..|s| + 1]) == RemoveCr(s) && text[|s| + 2..] == rest
  {
    hide *;
    var text := LineText(s) + rest;
    LineShape(s, rest);
    FirstChar(text, '\n', 0, |s| + 1);
    RemoveCrLast(s);
  }

  lemma LineShape(s: string, rest: string)
    requires IsLine(s)
    ensures var text, k := LineText(s) + rest, |s| + 1;
      && k < |text| && text[k] == '\n' && (forall j :: 0 <= j < k ==> text[j] != '\n')
      && text[..k] == s + "\r" && text[k + 1..] == rest
  {
    var text := LineText(s) + rest;
    assert forall j :: 0 <= j < |s| ==> text[j] == s[j] && s[j] in s;
  }

  lemma OneLine(p: Parser, s: string, rest: string, count: int)
    requires ReadsLines(p.state) && IsLine(s) && count >= |LineText(s) + rest|
    ensures Parse(p, LineText(s) + rest, count) ==
      match Line(p, RemoveCr(s)) case None => Thrown case Some(q) => Parse(q, rest, count)
  {
    hide *;
    LineEnd(s, rest);
    LineLonger(s, rest);
    ParseLine(p, LineText(s) + rest, count);
  }

  lemma LineLonger(s: string, rest: string)
    ensures |LineText(s) + rest| == |s| + 2 + |rest|
  {
  }

  /** All header lines are taken up, unless one of them makes the parser throw. */
  lemma {:induction false} HeaderLines(p: Parser, lines: seq<string>, rest: string, count: int)
    requires p.state.HEADERS? && AreLines(lines) && count >= |LinesText(lines) + rest|
    ensures Parse(p, LinesText(lines) + rest, count) ==
      if Trims(lines) then Parse(p.(headers := HeaderMap(p.headers, lines)), rest, count) else Thrown
    decreases |lines|
  {
    if lines == [] {
      assert LinesText(lines) + rest == rest;
    } else {
      var more := LinesText(lines[1..]) + rest;
      assert LinesText(lines) + rest == LineText(lines[0]) + more;
      OneLine(p, lines[0], more, count);
      var (name, value) := HeaderParts(RemoveCr(lines[0]));
      if HeaderTrims(lines[0]) {
        HeaderLines(p.(headers := AddHeader(p.headers, name, Trim(value).value)), lines[1..], rest, count);
        assert Trims(lines) <==> Trims(lines[1..]);
      }
    }
  }

  function AfterHead(p: Parser, h: Head): Parser
    requires Trims(h.headers)
  {
    var q := p.(httpCode := Code(h), headers := HeaderMap(p.headers, h.headers), state := HEADERS);
    if Code(h) == CONTINUE then q.(state := STATUSLINE) else BeginBody(q)
  }

  lemma OneHead(p: Parser, h: Head, rest: string, count: int)
    requires p.state.STATUSLINE? && ValidHead(h) && count >= |HeadText(h, rest)|
    ensures Parse(p, HeadText(h, rest), count) == Parse(AfterHead(p, h), rest, count)
  {
    var more := LineText("") + rest;
    var q := p.(httpCode := Code(h), state := HEADERS);
    OneLine(p, h.status, LinesText(h.headers) + more, count);
    HeaderLines(q, h.headers, more, count);
    OneLine(q.(headers := HeaderMap(q.headers, h.headers)), "", rest, count);
  }

  /** Any number of 100 Continue responses before the final one. */
  lemma {:induction false} Interim(p: Parser, heads: seq<Head>, rest: string, count: int)
    requires p.state.STATUSLINE? && count >= |HeadsText(heads, rest)|
    requires forall i :: 0 <= i < |heads| ==> ValidHead(heads[i]) && Code(heads[i]) == CONTINUE
    ensures Parse(p, HeadsText(heads, rest), count) == Parse(AfterInterim(p, heads), rest, count)
    decreases |heads|
  {
    hide Parse, Code, Trims, HeadText, BeginBody, HeaderMap;
    if heads != [] {
      OneHead(p, heads[0], HeadsText(heads[1..], rest), count);
      Interim(AfterHead(p, heads[0]), heads[1..], rest, count);
    }
  }

  function AfterInterim(p: Parser, heads: seq<Head>): Parser
    requires forall i :: 0 <= i < |heads| ==> ValidHead(heads[i])
  {
    p.(headers := HeadsMap(p.headers, heads), httpCode := if heads == [] then p.httpCode else CONTINUE)
  }

  // ---------- Chunked bodies ----------

  lemma SizeLine(size: string, extension: string, n: int)
    requires ValidSize(size, extension, n)
    ensures IsLine(size + extension) && RemoveCr(size + extension) == size + extension
    ensures Strtol16(size + extension) == n
  {
    hide Strtol16, RemoveCr, Value;
    HexHasNoBreaks(size);
    RemoveCrNone(size + extension);
    Strtol16OfHex(size, extension);
  }

  /** One chunk is taken whole: the believed count is never less than what is there. */
  lemma OneChunk(p: Parser, c: Chunk, rest: string, count: int)
    requires p.state.CHUNK_LEN? && p.chunked
    requires c.data != "" && ValidSize(c.size, c.extension, |c.data|)
    requires count >= |LineText(c.size + c.extension) + (c.data + (LineText("") + rest))|
    ensures var q := p.(bytesLeft := 0, bytesRead := p.bytesRead + |c.data|, body := p.body + c.data);
      Parse(p, LineText(c.size + c.extension) + (c.data + (LineText("") + rest)), count)
        == Parse(q, rest, count - |c.data|)
  {
    hide Parse, Strtol16, RemoveCr, ValidSize, IsLine, LineText;
    var line, end := c.size + c.extension, LineText("") + rest;
    SizeLine(c.size, c.extension, |c.data|);
    LineLonger(line, c.data + end);
    LineLonger("", rest);
    OneLine(p, line, c.data + end, count);
    ParseBlock(p.(bytesLeft := |c.data|, state := BODY), c.data + end, count);
    assert (c.data + end)[..|c.data|] == c.data && (c.data + end)[|c.data|..] == end;
    EmptyLine();
    OneLine(Block(p.(bytesLeft := |c.data|, state := BODY), c.data), "", rest, count - |c.data|);
  }

  /** A chunk of which only a part has been received: the header bytes in the count let the program
      take more than is there.  Without any of its data the chunk is still awaited. */
  lemma ShortChunk(p: Parser, size: string, extension: string, n: int, data: string, count: int)
    requires p.state.CHUNK_LEN? && p.chunked && ValidSize(size, extension, n) && |data| < n
    requires count >= |LineText(size + extension) + data|
    ensures Parse(p, LineText(size + extension) + data, count) ==
      if data == "" then Finished(p.(bytesLeft := n, state := BODY))
      else OutOfBounds(if count >= n then CHUNK_END else BODY)
  {
    hide Parse, Strtol16, RemoveCr, ValidSize, IsLine, LineText;
    SizeLine(size, extension, n);
    LineLonger(size + extension, data);
    OneLine(p, size + extension, data, count);
    var q := p.(bytesLeft := n, state := BODY);
    if data == "" {
      ParseEnd(q, data, count);
    } else {
      ParseBlock(q, data, count);
    }
  }

  lemma EmptyLine()
    ensures IsLine("") && RemoveCr("") == ""
  {
  }

  lemma HexHasNoBreaks(s: string)
    requires AllHex(s)
    ensures '\n' !in s && '\r' !in s
  {
  }

  function AfterChunks(p: Parser, chunks: seq<Chunk>): Parser {
    p.(bytesLeft := if chunks == [] then p.bytesLeft else 0,
       bytesRead := p.bytesRead + |Payload(chunks)|,
       body := p.body + Payload(chunks))
  }

  lemma {:induction false} AllChunks(p: Parser, chunks: seq<Chunk>, rest: string, count: int)
    requires p.state.CHUNK_LEN? && p.chunked && ValidChunks(chunks) && count >= |ChunksText(chunks, rest)|
    ensures Parse(p, ChunksText(chunks, rest), count) == Parse(AfterChunks(p, chunks), rest, count - |Payload(chunks)|)
    decreases |chunks|
  {
    hide Parse, ValidSize, LineText;
    if chunks == [] {
      assert p.body + Payload(chunks) == p.body;
    } else {
      var c, more := chunks[0], chunks[1..];
      OneChunk(p, c, ChunksText(more, rest), count);
      var q := p.(bytesLeft := 0, bytesRead := p.bytesRead + |c.data|, body := p.body + c.data);
      AllChunks(q, more, rest, count - |c.data|);
      assert q.body + Payload(more) == p.body + Payload(chunks);
      assert AfterChunks(q, more) == AfterChunks(p, chunks);
    }
  }

  /** The trailer is skipped, and what follows it is not looked at. */
  lemma {:induction false} Trailer(p: Parser, lines: seq<string>, rest: string, count: int)
    requires p.state.FOOTERS? && AreLines(lines) && count >= |LinesText(lines) + (LineText("") + rest)|
    ensures Parse(p, LinesText(lines) + (LineText("") + rest), count) == Finished(p.(state := COMPLETE))
    decreases |lines|
  {
    hide Parse, RemoveCr, LineText;
    EmptyLine();
    var end := LineText("") + rest;
    if lines == [] {
      assert LinesText(lines) + end == end;
      OneLine(p, "", rest, count);
      ParseEnd(p.(state := COMPLETE), rest, count);
    } else {
      var more := LinesText(lines[1..]) + end;
      assert LinesText(lines) + end == LineText(lines[0]) + more;
      OneLine(p, lines[0], more, count);
      Trailer(p, lines[1..], rest, count);
    }
  }

  /** A response in chunked transfer coding. */
  datatype ChunkedResponse = ChunkedResponse(
    interim: seq<Head>, head: Head, chunks: seq<Chunk>, last: Chunk, trailer: seq<string>)

  function ChunkedText(r: ChunkedResponse, rest: string): string {
    HeadsText(r.interim, HeadText(r.head, ChunksText(r.chunks,
      LineText(r.last.size + r.last.extension) + (LinesText(r.trailer) + (LineText("") + rest)))))
  }

  predicate ValidHeads(interim: seq<Head>, head: Head) {
    && (forall i :: 0 <= i < |interim| ==> ValidHead(interim[i]) && Code(interim[i]) == CONTINUE)
    && ValidHead(head) && Code(head) != CONTINUE
  }

  /** The headers of the whole response; those of interim responses come first. */
  function FinalHeaders(interim: seq<Head>, head: Head): map<string, string>
    requires ValidHeads(interim, head)
  {
    HeaderMap(HeadsMap(map[], interim), head.headers)
  }

  predicate ValidChunked(r: ChunkedResponse) {
    && ValidHeads(r.interim, r.head)
    && ValidChunks(r.chunks) && ValidSize(r.last.size, r.last.extension, 0) && AreLines(r.trailer)
    && IsChunkedCoding(FinalHeaders(r.interim, r.head))
  }

  /** Decoding undoes coding: whatever the split into chunks, the extensions, the trailer and the
      bytes that follow, a fresh parser writes the payload and completes. */
  lemma ChunkedRoundTrip(r: ChunkedResponse, rest: string)
    requires ValidChunked(r)
    ensures var text := ChunkedText(r, rest); var o := Parse(FRESH, text, |text|);
      o.Finished? && o.p.state == COMPLETE && o.p.body == Payload(r.chunks)
  {
    hide Parse, ValidChunks, ValidSize, AreLines, HeadsText, HeadText, ChunksText, LinesText, LineText, Payload;
    hide BeginBody, IsChunkedCoding, FindHeader, Code, HeaderMap, HeadsMap, Trims, IsLine, Strtol16, RemoveCr;
    var text := ChunkedText(r, rest);
    var end := LinesText(r.trailer) + (LineText("") + rest);
    var tail := LineText(r.last.size + r.last.extension) + end;
    var body := ChunksText(r.chunks, tail);
    Interim(FRESH, r.interim, HeadText(r.head, body), |text|);
    var p := AfterInterim(FRESH, r.interim);
    OneHead(p, r.head, body, |text|);
    var q := AfterHead(p, r.head);
    BodyStart(p, r.head);
    AllChunks(q, r.chunks, tail, |text|);
    LastChunk(AfterChunks(q, r.chunks), r.last, r.trailer, rest, |text| - |Payload(r.chunks)|);
    assert q.body + Payload(r.chunks) == Payload(r.chunks);
  }

  /** A response that ends inside a chunk of `n` bytes, of which `data` has been received. */
  function CutText(interim: seq<Head>, head: Head, chunks: seq<Chunk>, size: string, extension: string, data: string)
    : string
  {
    HeadsText(interim, HeadText(head, ChunksText(chunks, LineText(size + extension) + data)))
  }

  /** Before any byte of that chunk the parser waits for it with the chunks before it written.  With a
      part of it, the program reads beyond the received bytes, and takes the chunk as complete if all
      bytes but those of the chunks before it are as many as the chunk should have. */
  lemma CutInsideChunk(
    interim: seq<Head>, head: Head, chunks: seq<Chunk>, size: string, extension: string, n: int, data: string)
    requires ValidHeads(interim, head) && IsChunkedCoding(FinalHeaders(interim, head)) && ValidChunks(chunks)
    requires ValidSize(size, extension, n) && |data| < n
    ensures var text := CutText(interim, head, chunks, size, extension, data); var o := Parse(FRESH, text, |text|);
      && (data == "" ==> o.Finished? && o.p.state == BODY && o.p.body == Payload(chunks))
      && (data != "" ==> o == OutOfBounds(if |text| - |Payload(chunks)| >= n then CHUNK_END else BODY))
  {
    hide Parse, ValidChunks, ValidSize, AreLines, HeadsText, HeadText, ChunksText, LinesText, LineText, Payload;
    hide BeginBody, IsChunkedCoding, FindHeader, Code, HeaderMap, HeadsMap, Trims, IsLine, Strtol16, RemoveCr;
    var text := CutText(interim, head, chunks, size, extension, data);
    var tail := LineText(size + extension) + data;
    var body := ChunksText(chunks, tail);
    Interim(FRESH, interim, HeadText(head, body), |text|);
    var p := AfterInterim(FRESH, interim);
    OneHead(p, head, body, |text|);
    var q := AfterHead(p, head);
    BodyStart(p, head);
    AllChunks(q, chunks, tail, |text|);
    ShortChunk(AfterChunks(q, chunks), size, extension, n, data, |text| - |Payload(chunks)|);
    assert q.body + Payload(chunks) == Payload(chunks);
  }

  /** Where the final head leaves the parser. */
  lemma BodyStart(p: Parser, h: Head)
    requires Trims(h.headers) && Code(h) != CONTINUE && !p.chunked
    ensures var q := AfterHead(p, h); var headers := HeaderMap(p.headers, h.headers);
      && q.body == p.body && q.bytesRead == p.bytesRead
      && q.chunked == IsChunkedCoding(headers) && q.state == (if q.chunked then CHUNK_LEN else BODY)
      && (!q.chunked && !ExpectsNoBody(Code(h)) && FindHeader(headers, "Content-Length").Some? ==>
            q.length == Atoi(FindHeader(headers, "Content-Length").value))
  {
    hide IsChunkedCoding, FindHeader, Code, HeaderMap, Atoi;
  }

  lemma LastChunk(p: Parser, last: Chunk, trailer: seq<string>, rest: string, count: int)
    requires p.state.CHUNK_LEN? && ValidSize(last.size, last.extension, 0) && AreLines(trailer)
    requires count >= |LineText(last.size + last.extension) + (LinesText(trailer) + (LineText("") + rest))|
    ensures Parse(p, LineText(last.size + last.extension) + (LinesText(trailer) + (LineText("") + rest)), count)
         == Finished(p.(bytesLeft := 0, state := COMPLETE))
  {
    hide Parse, Strtol16, RemoveCr, ValidSize, IsLine, LineText, AreLines;
    var line, end := last.size + last.extension, LinesText(trailer) + (LineText("") + rest);
    SizeLine(last.size, last.extension, 0);
    LineLonger(line, end);
    OneLine(p, line, end, count);
    Trailer(p.(bytesLeft := 0, state := FOOTERS), trailer, rest, count);
  }

  // ---------- Bodies of known length ----------

  function LengthText(interim: seq<Head>, head: Head, rest: string): string {
    HeadsText(interim, HeadText(head, rest))
  }

  /** The headers announce `n` bytes and the status allows a body. */
  predicate Announces(interim: seq<Head>, head: Head, n: int) {
    && ValidHeads(interim, head)
    && !IsChunkedCoding(FinalHeaders(interim, head)) && !ExpectsNoBody(Code(head))
    && var length := FindHeader(FinalHeaders(interim, head), "Content-Length");
       length.Some? && Atoi(length.value) == n
  }

  /** The body is the announced number of bytes after the headers if that many have been received;
      whatever follows them is not looked at.  If there is a part of them only, the program reads
      beyond the received bytes, and reports the response as complete all the same if the headers are
      long enough to make up for what is missing.  Without any the body is still awaited. */
  lemma KnownLength(interim: seq<Head>, head: Head, n: int, rest: string)
    requires Announces(interim, head, n) && n > 0
    ensures var text := LengthText(interim, head, rest); var o := Parse(FRESH, text, |text|);
      && (|rest| >= n <==> o.Finished? && o.p.state == COMPLETE)
      && (|rest| >= n ==> o.p.body == rest[..n])
      && (0 < |rest| < n <==> o.OutOfBounds?)
      && (0 < |rest| < n ==> o.state == if |text| >= n then COMPLETE else BODY)
      && (rest == "" ==> o.Finished? && o.p.state == BODY && o.p.body == "")
  {
    hide Parse, HeadsText, HeadText, BeginBody, IsChunkedCoding, FindHeader, Code, HeaderMap, Atoi;
    var text := LengthText(interim, head, rest);
    Interim(FRESH, interim, HeadText(head, rest), |text|);
    var p := AfterInterim(FRESH, interim);
    OneHead(p, head, rest, |text|);
    BodyStart(p, head);
    LongEnough(interim, head, rest);
    KnownBlock(AfterHead(p, head), n, rest, |text|);
  }

  /** The headers are bytes too, which the believed count never loses. */
  lemma LongEnough(interim: seq<Head>, head: Head, rest: string)
    ensures |LengthText(interim, head, rest)| > |rest|
  {
  }

  lemma KnownBlock(p: Parser, n: int, rest: string, count: int)
    requires p.state.BODY? && !p.chunked && p.length == n > 0 && p.bytesRead == 0 && p.body == ""
    requires count > |rest|
    ensures Parse(p, rest, count) ==
      if rest == "" then Finished(p)
      else if |rest| < n then OutOfBounds(if count >= n then COMPLETE else BODY)
      else Finished(p.(state := COMPLETE, body := rest[..n], bytesRead := n))
  {
    if rest == "" {
      ParseEnd(p, rest, count);
    } else {
      ParseBlock(p, rest, count);
      if |rest| >= n {
        ParseEnd(Block(p, rest[..n]), rest[n..], count - n);
      }
    }
  }

  // ---------- The usual header lines ----------

  /** A header line as it is usually written, on its own. */
  lemma OneHeader(name: string, value: string)
    requires ':' !in name && IsLine(name) && '\r' !in name
    requires value != "" && value[0] != BLANK && value[|value| - 1] != BLANK && IsLine(value) && '\r' !in value
    ensures var lines := [name + ": " + value];
      AreLines(lines) && Trims(lines) && HeaderMap(map[], lines) == map[Lower(name) := value]
  {
    hide *;
    HeaderShape(name, value);
    TrimOneBlank(value);
    OnlyHeader(name + ": " + value, name, value);
  }

  lemma HeaderShape(name: string, value: string)
    requires ':' !in name && IsLine(name) && '\r' !in name && IsLine(value) && '\r' !in value
    ensures var line := name + ": " + value;
      IsLine(line) && RemoveCr(line) == line != "" && HeaderParts(line) == (name, " " + value)
  {
    hide RemoveCr, FindChar;
    var line := name + ": " + value;
    RemoveCrNone(line);
    assert line[|name|] == ':' && line[..|name|] == name && line[|name| + 1..] == " " + value;
    FirstChar(line, ':', 0, |name|);
  }

  lemma TrimOneBlank(s: string)
    requires s != "" && s[0] != BLANK && s[|s| - 1] != BLANK
    ensures Trim(" " + s) == Some(s)
  {
    assert (" " + s)[1] == s[0] && (" " + s)[1..] == s;
    assert !AllBlank(" " + s);
  }

  lemma OnlyHeader(line: string, name: string, value: string)
    requires IsLine(line) && RemoveCr(line) == line != ""
    requires HeaderParts(line) == (name, " " + value) && Trim(" " + value) == Some(value)
    ensures AreLines([line]) && Trims([line]) && HeaderMap(map[], [line]) == map[Lower(name) := value]
  {
    hide Trim, HeaderParts, RemoveCr, IsLine, Lower;
    assert HeaderTrims([line][0]);
    assert [line][1..] == [];
  }

  /** A line without a colon is name and value in one. */
  lemma HeaderWithoutColon(line: string, headers: map<string, string>)
    requires IsLine(line) && '\r' !in line && line != "" && ':' !in line && Trim(line).Some?
    ensures Trims([line]) && HeaderMap(headers, [line]) == AddHeader(headers, line, Trim(line).value)
  {
    hide Trim, AddHeader;
    RemoveCrNone(line);
    NoColon(line);
    assert HeaderTrims([line][0]);
    assert [line][1..] == [];
  }

  lemma NoColon(line: string)
    requires ':' !in line
    ensures HeaderParts(line) == (line, line)
  {
    assert forall j :: 0 <= j < |line| ==> line[j] in line;
  }

  /** A head with this one header line. */
  function UsualHead(status: string, name: string, value: string): Head {
    Head(status, [name + ": " + value])
  }

  lemma UsualHeaders(status: string, name: string, value: string)
    requires IsLine(status) && Code(UsualHead(status, name, value)) != CONTINUE
    requires AreLines([name + ": " + value]) && Trims([name + ": " + value])
    ensures ValidHeads([], UsualHead(status, name, value))
    ensures FinalHeaders([], UsualHead(status, name, value)) == HeaderMap(map[], [name + ": " + value])
  {
    hide AreLines, Trims, HeaderMap, Code;
  }

  /** A decimal Content-Length announces the number it denotes. */
  lemma UsualLength(status: string, length: string)
    requires length != "" && AllDigits(length) && AllHex(length) && IsLine(status)
    requires var code := Code(UsualHead(status, "Content-Length", length)); code != CONTINUE && !ExpectsNoBody(code)
    ensures Announces([], UsualHead(status, "Content-Length", length), Value(length, 10))
  {
    hide Value, Code, ExpectsNoBody, UsualHead, ValidHeads, FinalHeaders, Trims, AreLines, HeaderMap, Atoi;
    hide StartsWithIgnoringCase;
    assert length[0] != BLANK && length[|length| - 1] != BLANK && IsLine(length) && '\r' !in length;
    OneHeader("Content-Length", length);
    UsualHeaders(status, "Content-Length", length);
    AtoiOfDigits(length);
    assert |Lower("Transfer-encoding")| != |Lower("Content-Length")|;
  }

  /** The usual header line selects the chunked transfer coding. */
  lemma UsualCoding(status: string)
    requires IsLine(status) && Code(UsualHead(status, "Transfer-Encoding", "chunked")) != CONTINUE
    ensures var head := UsualHead(status, "Transfer-Encoding", "chunked");
      ValidHeads([], head) && IsChunkedCoding(FinalHeaders([], head))
  {
    hide Code, UsualHead, ValidHeads, FinalHeaders, Trims, AreLines, HeaderMap;
    OneHeader("Transfer-Encoding", "chunked");
    UsualHeaders(status, "Transfer-Encoding", "chunked");
    assert Lower("Transfer-Encoding") == Lower("Transfer-encoding");
    assert "chunked"[..|"chunked"|] == "chunked";
  }
}
