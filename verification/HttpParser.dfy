/** The response parser of kwctoolkit/transport/simple_http_transaction.cc: a state machine that is
    fed the received bytes, line by line in its header states and in blocks in its body state.

    `Parse` is the machine as a function of the bytes after the cursor; the class below has the
    program's fields and loops and is proved to compute it. */
module HttpParser {
  import opened Basics
  import opened Search
  import opened TextUtils

  datatype ResponseState = STATUSLINE | HEADERS | BODY | CHUNK_LEN | CHUNK_END | FOOTERS | COMPLETE

  datatype Parser = Parser(
    state: ResponseState, httpCode: int, chunked: bool,
    bytesLeft: int, bytesRead: int, length: int,
    headers: map<string, string>, body: string)

  /** A processor as constructed, its response without headers and its body writer empty. */
  const FRESH: Parser := Parser(STATUSLINE, 0, false, 0, 0, -1, map[], "")

  const INT_MAX := 0x7fff_ffff

  const CONTINUE := 100
  const NO_CONTENT := 204
  const NOT_MODIFIED := 304

  predicate IsInformational(code: int) {
    100 <= code < 200
  }

  // ---------- Lines ----------

  function StatusCode(line: string): int {
    var version := SkipBlanks(line, 0);
    var status := SkipBlanks(line, WordEnd(line, version));
    Atoi(line[status..WordEnd(line, status)])
  }

  function FindHeader(headers: map<string, string>, name: string): Option<string> {
    if Lower(name) in headers then Some(headers[Lower(name)]) else None
  }

  /** A header map does not repeat names: the first one stays. */
  function AddHeader(headers: map<string, string>, name: string, value: string): map<string, string> {
    if Lower(name) in headers then headers else headers[Lower(name) := value]
  }

  /** Name and value of a header line; without a colon the whole line is both. */
  function HeaderParts(line: string): (string, string) {
    match FindChar(line, ':', 0)
    case None => (line, line)
    case Some(colon) => (line[..colon], line[colon + 1..])
  }

  predicate IsChunkedCoding(headers: map<string, string>) {
    var coding := FindHeader(headers, "Transfer-encoding");
    coding.Some? && StartsWithIgnoringCase(coding.value, "chunked")
  }

  predicate ExpectsNoBody(code: int) {
    code == NO_CONTENT || code == NOT_MODIFIED || IsInformational(code)
  }

  function BeginBody(p: Parser): Parser {
    var chunked := p.chunked || IsChunkedCoding(p.headers);
    var contentLength := FindHeader(p.headers, "Content-Length");
    p.(chunked := chunked,
       bytesLeft := if IsChunkedCoding(p.headers) then -1 else p.bytesLeft,
       length := if ExpectsNoBody(p.httpCode) then 0
                 else if contentLength.Some? && !chunked then Atoi(contentLength.value) else p.length,
       state := if chunked then CHUNK_LEN else BODY)
  }

  function HeaderLine(p: Parser, line: string): Option<Parser> {
    if line == "" then
      Some(if p.httpCode == CONTINUE then p.(state := STATUSLINE) else BeginBody(p))
    else
      var (name, value) := HeaderParts(line);
      match Trim(value)
      case None => None
      case Some(v) => Some(p.(headers := AddHeader(p.headers, name, v)))
  }

  function ChunkLengthLine(p: Parser, line: string): Parser {
    p.(bytesLeft := Strtol16(line), state := if Strtol16(line) != 0 then BODY else FOOTERS)
  }

  predicate ReadsLines(state: ResponseState) {
    state != BODY && state != COMPLETE
  }

  /** What a complete line does; no result stands for the exception of `TrimString`. */
  function Line(p: Parser, line: string): Option<Parser>
    requires ReadsLines(p.state)
  {
    match p.state
    case STATUSLINE => Some(p.(httpCode := StatusCode(line), state := HEADERS))
    case HEADERS => HeaderLine(p, line)
    case FOOTERS => Some(if line == "" then p.(state := COMPLETE) else p)
    case CHUNK_LEN => Some(ChunkLengthLine(p, line))
    case _ => Some(p.(state := CHUNK_LEN))
  }

  // ---------- Blocks ----------

  /** How many bytes the body states take when `count` are believed to be there. */
  function BlockSize(p: Parser, count: int): int {
    if p.chunked then (if count > p.bytesLeft then p.bytesLeft else count)
    else if p.length != -1 && count > p.length - p.bytesRead then p.length - p.bytesRead
    else count
  }

  /** The state after a block of `n` bytes; what the bytes are does not matter. */
  function BlockState(p: Parser, n: int): ResponseState {
    if p.chunked then if p.bytesLeft - n == 0 then CHUNK_END else p.state
    else if p.length != -1 && p.bytesRead + n == p.length then COMPLETE else p.state
  }

  function Block(p: Parser, bytes: string): Parser {
    var n := |bytes|;
    p.(body := p.body + bytes, bytesRead := p.bytesRead + n,
       bytesLeft := if p.chunked then p.bytesLeft - n else p.bytesLeft,
       state := BlockState(p, n))
  }

  // ---------- The machine ----------

  /** `Thrown`: an exception left the parser.  `OutOfBounds`: a block reached beyond the received
      bytes or had a negative size, which moves the cursor out of the buffer or backwards; the
      program goes on in this state. */
  datatype Outcome = Finished(p: Parser) | Thrown | OutOfBounds(state: ResponseState)

  /** The parser on the bytes `rest` after the cursor, of which it believes there are `count`. */
  function Parse(p: Parser, rest: string, count: int): Outcome
    requires count >= |rest|
    decreases |rest|, p.state.BODY?
  {
    if rest == "" || p.state.COMPLETE? then Finished(p)
    else if p.state.BODY? then
      var n := BlockSize(p, count);
      if n < 0 || n > |rest| then OutOfBounds(BlockState(p, n))
      else Parse(Block(p, rest[..n]), rest[n..], count - n)
    else
      match FindChar(rest, '\n', 0)
      case None => Finished(p)
      case Some(k) =>
        match Line(p, RemoveCr(rest[..k]))
        case None => Thrown
        case Some(q) => Parse(q, rest[k + 1..], count)
  }

  /** The steps of the machine, one at a time. */
  lemma ParseEnd(p: Parser, rest: string, count: int)
    requires count >= |rest| && (rest == "" || p.state.COMPLETE?)
    ensures Parse(p, rest, count) == Finished(p)
  {
  }

  lemma ParseBlock(p: Parser, rest: string, count: int)
    requires count >= |rest| > 0 && p.state.BODY?
    ensures var n := BlockSize(p, count);
      Parse(p, rest, count) == if n < 0 || n > |rest| then OutOfBounds(BlockState(p, n))
                               else Parse(Block(p, rest[..n]), rest[n..], count - n)
    ensures BlockSize(p, count) == 0 ==> !Block(p, "").state.BODY?
  {
    hide Line, RemoveCr, FindChar;
  }

  lemma ParseLine(p: Parser, rest: string, count: int)
    requires count >= |rest| > 0 && ReadsLines(p.state)
    ensures Parse(p, rest, count) ==
      match FindChar(rest, '\n', 0)
      case None => Finished(p)
      case Some(k) =>
        match Line(p, RemoveCr(rest[..k]))
        case None => Thrown
        case Some(q) => Parse(q, rest[k + 1..], count)
  {
    hide Line, RemoveCr, Block, BlockSize;
  }

  // ---------- The program ----------

  class SimpleHttpProcessor {
    var responseState: ResponseState
    var httpCode: int
    var chunkedResponse: bool
    var chunkBytesLeft: int
    var chunkBytesRead: int
    var chunkLength: int
    /** The headers of the response object and the bytes its body writer holds. */
    var headers: map<string, string>
    var body: string

    function State(): Parser
      reads this
    {
      Parser(responseState, httpCode, chunkedResponse, chunkBytesLeft, chunkBytesRead, chunkLength, headers, body)
    }

    constructor ()
      ensures State() == FRESH
    {
      responseState, httpCode, chunkedResponse := STATUSLINE, 0, false;
      chunkBytesLeft, chunkBytesRead, chunkLength := 0, 0, -1;
      headers, body := map[], "";
    }

    method ProcessStatusLine(line: string)
      requires responseState.STATUSLINE?
      modifies this
      ensures Some(State()) == Line(old(State()), line)
    {
      var p := SkipBlanksFrom(line, 0);
      p := SkipWordFrom(line, p);
      p := SkipBlanksFrom(line, p);
      var start := p;
      p := SkipWordFrom(line, p);
      httpCode := Atoi(line[start..p]);
      responseState := HEADERS;
    }

    static method SkipBlanksFrom(line: string, from: nat) returns (p: nat)
      requires from <= |line|
      ensures p == SkipBlanks(line, from)
    {
      p := from;
      while At(line, p) != '\0' && At(line, p) == BLANK
        invariant from <= p <= |line| && SkipBlanks(line, p) == SkipBlanks(line, from)
        decreases |line| - p
      {
        p := p + 1;
      }
    }

    static method SkipWordFrom(line: string, from: nat) returns (p: nat)
      requires from <= |line|
      ensures p == WordEnd(line, from)
    {
      p := from;
      while At(line, p) != '\0' && At(line, p) != BLANK
        invariant from <= p <= |line| && WordEnd(line, p) == WordEnd(line, from)
        decreases |line| - p
      {
        p := p + 1;
      }
    }

    method ProcessHeaderLine(line: string) returns (threw: bool)
      requires responseState.HEADERS?
      modifies this
      ensures Line(old(State()), line) == if threw then None else Some(State())
      ensures threw ==> State() == old(State())
    {
      if line == "" {
        if httpCode == CONTINUE {
          responseState := STATUSLINE;
        } else {
          BeginBodyState();
        }
        return false;
      }
      var (name, value) := HeaderParts(line);
      var trimmed := Trim(value);
      if trimmed.None? {
        return true;
      }
      headers := AddHeader(headers, name, trimmed.value);
      return false;
    }

    method BeginBodyState()
      modifies this
      ensures State() == BeginBody(old(State()))
    {
      var chunk := FindHeader(headers, "Transfer-encoding");
      if chunk.Some? && StartsWithIgnoringCase(chunk.value, "chunked") {
        chunkedResponse := true;
        chunkBytesLeft := -1;
      }
      var contentLength := FindHeader(headers, "Content-Length");
      if contentLength.Some? && !chunkedResponse {
        chunkLength := Atoi(contentLength.value);
      }
      if httpCode == NO_CONTENT || httpCode == NOT_MODIFIED || IsInformational(httpCode) {
        chunkLength := 0;
      }
      responseState := if chunkedResponse then CHUNK_LEN else BODY;
    }

    method ProcessFooterLine(line: string)
      requires responseState.FOOTERS?
      modifies `responseState
      ensures Some(State()) == Line(old(State()), line)
    {
      if line == "" {
        responseState := COMPLETE;
      }
    }

    method ProcessChunkLengthLine(line: string)
      requires responseState.CHUNK_LEN?
      modifies `responseState, `chunkBytesLeft
      ensures Some(State()) == Line(old(State()), line)
    {
      chunkBytesLeft := Strtol16(line);
      responseState := if chunkBytesLeft != 0 then BODY else FOOTERS;
    }

    method ProcessLine(line: string) returns (threw: bool)
      requires ReadsLines(responseState)
      modifies this
      ensures Line(old(State()), line) == if threw then None else Some(State())
    {
      threw := false;
      match responseState
      case STATUSLINE => ProcessStatusLine(line);
      case HEADERS => threw := ProcessHeaderLine(line);
      case FOOTERS => ProcessFooterLine(line);
      case CHUNK_LEN => ProcessChunkLengthLine(line);
      case CHUNK_END => responseState := CHUNK_LEN;
      case _ =>
    }

    /** The bytes of a block, none if the block does not lie within the data. */
    method ProcessDataChunked(data: string, dit: nat, count: int) returns (n: int)
      requires responseState.BODY? && chunkedResponse && dit <= |data|
      modifies `body, `chunkBytesRead, `chunkBytesLeft, `responseState
      ensures n == BlockSize(old(State()), count) && responseState == BlockState(old(State()), n)
      ensures 0 <= n <= |data| - dit ==> State() == Block(old(State()), data[dit..dit + n])
    {
      n := count;
      if n > chunkBytesLeft {
        n := chunkBytesLeft;
      }
      if 0 <= n <= |data| - dit {
        body := body + data[dit..dit + n];
      }
      chunkBytesRead := chunkBytesRead + n;
      chunkBytesLeft := chunkBytesLeft - n;
      if chunkBytesLeft == 0 {
        responseState := CHUNK_END;
      }
    }

    method ProcessDataNonChunked(data: string, dit: nat, count: int) returns (n: int)
      requires responseState.BODY? && !chunkedResponse && dit <= |data|
      modifies `body, `chunkBytesRead, `responseState
      ensures n == BlockSize(old(State()), count) && responseState == BlockState(old(State()), n)
      ensures 0 <= n <= |data| - dit ==> State() == Block(old(State()), data[dit..dit + n])
    {
      n := count;
      if chunkLength != -1 {
        var remaining := chunkLength - chunkBytesRead;
        if n > remaining {
          n := remaining;
        }
      }
      if 0 <= n <= |data| - dit {
        body := body + data[dit..dit + n];
      }
      chunkBytesRead := chunkBytesRead + n;
      if chunkLength != -1 && chunkBytesRead == chunkLength {
        responseState := COMPLETE;
      }
    }

    /** The inner loop: collects a line, up to its end or the end of the data. */
    static method ReadLine(data: string, from: nat) returns (found: bool, line: string, dit: nat)
      requires from <= |data|
      ensures from <= dit <= |data|
      ensures match FindChar(data[from..], '\n', 0)
        case None => !found && dit == |data|
        case Some(k) => found && dit == from + k + 1 && line == RemoveCr(data[from..][..k])
    {
      line, dit := "", from;
      ghost var rest := data[from..];
      while dit < |data|
        invariant from <= dit <= |data| && line == RemoveCr(rest[..dit - from]) && '\n' !in rest[..dit - from]
      {
        var c := data[dit];
        dit := dit + 1;
        if c == '\n' {
          assert rest[dit - 1 - from] == c;
          return true, line, dit;
        }
        assert rest[..dit - from][..dit - 1 - from] == rest[..dit - 1 - from] && rest[dit - 1 - from] == c;
        if c != '\r' {
          line := line + [c];
        }
      }
      found := false;
      assert rest[..dit - from] == rest;
    }

    /** The parser passes the byte count on as an `int`. */
    method ParseResponse(data: string) returns (r: Outcome)
      requires |data| <= INT_MAX
      modifies this
      ensures r == Parse(old(State()), data, |data|)
      ensures r.Finished? ==> State() == r.p
      ensures r.OutOfBounds? ==> responseState == r.state
    {
      hide Parse, Block, BlockSize, BlockState, Line;
      var count, dit := |data|, 0;
      ghost var start := State();
      assert data[0..] == data;
      while dit < |data| && !responseState.COMPLETE?
        invariant 0 <= dit <= |data| && count >= |data| - dit
        invariant Parse(State(), data[dit..], count) == Parse(start, data, |data|)
        decreases |data| - dit, responseState.BODY?
      {
        ghost var rest, p := data[dit..], State();
        if responseState.BODY? {
          ParseBlock(p, rest, count);
          var used;
          if chunkedResponse {
            used := ProcessDataChunked(data, dit, count);
          } else {
            used := ProcessDataNonChunked(data, dit, count);
          }
          if !(0 <= used <= |data| - dit) {
            return OutOfBounds(responseState);
          }
          assert rest[..0] == "" && rest[..used] == data[dit..dit + used] && rest[used..] == data[dit + used..];
          dit, count := dit + used, count - used;
        } else {
          ParseLine(p, rest, count);
          ghost var from := dit;
          var found, line;
          found, line, dit := ReadLine(data, dit);
          if !found {
            return Finished(State());
          }
          assert rest[dit - from..] == data[dit..];
          var threw := ProcessLine(line);
          if threw {
            return Thrown;
          }
        }
      }
      ParseEnd(State(), data[dit..], count);
      return Finished(State());
    }
  }
}
