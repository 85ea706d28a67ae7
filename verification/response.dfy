/**
  The HTTP/1.0 responses the engine writes: the header block of httpd_send
  (Status-Line, section 6.1 of RFC 1945, then fixed header fields), the
  smaller header block of the file handler, and a reader that splits a
  response back into header lines and body, used to state what a client
  receives.
*/
module Response {
  import opened Wrappers
  import opened CStrings
  import opened HttpdTypes
  import opened Tables

  const EXPIRES_DATE: string := "Fri, 10 Apr 2015 14:00:00 GMT"

  /** A response body: its MIME type and its bytes. */
  datatype Body = Body(mime: string, data: string)

  /** Status-Line: "HTTP/1.0 <code> <reason>" (the code printed with %d). */
  function StatusLine(code: uint32): string {
    "HTTP/1.0 " + CodeAndReason(code)
  }

  function CodeAndReason(code: uint32): string {
    IntToString(Signed32(code)) + " " + ResponseCodeToString(code)
  }

  /** "Content-Length: <n>" (n printed with %d). */
  function LengthLine(n: uint32): string {
    "Content-Length: " + IntToString(Signed32(n))
  }

  const ServerLine: string := "Server: " + HTTPD_SERVER
  const AllowOriginLine: string := "Access-Control-Allow-Origin: *"
  const ExpiresLine: string := "Expires: " + EXPIRES_DATE
  const PragmaLine: string := "Pragma: no-cache"

  /** "Content-type: <mime>". */
  function TypeLine(mime: string): string {
    "Content-type: " + mime
  }

  /**
    The header lines httpd_send writes with its two sprintf calls, each
    without its CRLF: Status-Line, Content-Length, Server and
    Access-Control-Allow-Origin, then Content-type, Expires and Pragma when
    there is a body.
  */
  function HeaderLines(code: uint32, lData: uint32, mime: Option<string>): (ls: seq<string>)
    ensures |ls| == if mime.Some? then 7 else 4
  {
    [StatusLine(code), LengthLine(lData), ServerLine, AllowOriginLine]
    + match mime
      case Some(m) => [TypeLine(m), ExpiresLine, PragmaLine]
      case None => []
  }

  /** httphead: the header lines and the blank line that ends the header. */
  function HttpHead(code: uint32, lData: uint32, mime: Option<string>): string {
    JoinLines(HeaderLines(code, lData, mime)) + CRLF
  }

  /** httphead is a 256-byte array: the header and its terminating NUL must fit. */
  predicate HeadFits(code: uint32, lData: uint32, mime: Option<string>) {
    |HttpHead(code, lData, mime)| < 256
  }

  /**
    The bytes of the single espconn_send done by
    httpd_send(pEspconn, code, pMime, pData, lData): with a body, the header
    and then exactly lData body bytes; without one, the header alone.
  */
  function SendBytes(code: uint32, body: Option<Body>, lData: uint32): string
    requires body.Some? ==> lData <= |body.value.data|
  {
    match body
    case Some(b) => HttpHead(code, lData, Some(b.mime)) + b.data[..lData]
    case None => HttpHead(code, lData, None)
  }

  /**
    What a client does with a response: read CRLF-terminated lines up to
    the first empty one; what follows is the body.
  */
  function ReadHead(s: string): Option<(seq<string>, string)>
    decreases |s|
  {
    match FindCrlf(s)
    case None => None
    case Some(i) =>
      if i == 0 then Some(([], s[2..]))
      else match ReadHead(s[i + 2..])
        case None => None
        case Some(rest) => Some(([s[..i]] + rest.0, rest.1))
  }

  /** Line framing round trip: non-empty lines without CR are read back exactly, then the body. */
  lemma {:induction false} ReadHeadOfLines(ls: seq<string>, body: string)
    requires forall i :: 0 <= i < |ls| ==> LineOk(ls[i])
    ensures ReadHead(JoinLines(ls) + CRLF + body) == Some((ls, body))
  {
    var s := JoinLines(ls) + CRLF + body;
    if ls == [] {
      assert s == CRLF + body;
      CrlfAfterLine([], body);
      assert [] + CRLF + body == s;
    } else {
      var tail := JoinLines(ls[1..]) + CRLF + body;
      assert s == ls[0] + CRLF + tail;
      CrlfAfterLine(ls[0], tail);
      assert s[|ls[0]| + 2..] == tail;
      assert s[..|ls[0]|] == ls[0];
      ReadHeadOfLines(ls[1..], body);
      assert [ls[0]] + ls[1..] == ls;
    }
  }

  lemma StatusLineOk(code: uint32)
    ensures LineOk(StatusLine(code))
  {
  }

  lemma LengthLineOk(n: uint32)
    ensures LineOk(LengthLine(n))
  {
  }

  lemma FixedLinesOk()
    ensures LineOk(ServerLine) && LineOk(AllowOriginLine)
  {
  }

  lemma TypeLineOk(mime: string)
    requires '\r' !in mime
    ensures LineOk(TypeLine(mime))
  {
  }

  lemma CacheLinesOk()
    ensures LineOk(ExpiresLine) && LineOk(PragmaLine)
  {
  }

  lemma LinePiecesOk(code: uint32, lData: uint32)
    ensures LineOk(StatusLine(code)) && LineOk(LengthLine(lData))
    ensures LineOk(ServerLine) && LineOk(AllowOriginLine)
    ensures LineOk(ExpiresLine) && LineOk(PragmaLine)
  {
    StatusLineOk(code);
    LengthLineOk(lData);
    FixedLinesOk();
    CacheLinesOk();
  }

  lemma HeaderLinesOk(code: uint32, lData: uint32, mime: Option<string>)
    requires mime.Some? ==> '\r' !in mime.value
    ensures forall i :: 0 <= i < |HeaderLines(code, lData, mime)| ==> LineOk(HeaderLines(code, lData, mime)[i])
  {
    LinePiecesOk(code, lData);
    var ls := HeaderLines(code, lData, mime);
    assert ls[..4] == [StatusLine(code), LengthLine(lData), ServerLine, AllowOriginLine];
    if mime.Some? {
      TypeLineOk(mime.value);
      assert ls[4..] == [TypeLine(mime.value), ExpiresLine, PragmaLine];
    }
  }

  /**
    A client reading a response of httpd_send gets back exactly the header
    lines and, after the blank line, exactly lData body bytes (none without a body).
  */
  lemma ResponseFraming(code: uint32, body: Option<Body>, lData: uint32)
    requires body.Some? ==> lData <= |body.value.data| && '\r' !in body.value.mime
    ensures var mime := if body.Some? then Some(body.value.mime) else None;
      ReadHead(SendBytes(code, body, lData))
      == Some((HeaderLines(code, lData, mime), if body.Some? then body.value.data[..lData] else []))
  {
    var mime := if body.Some? then Some(body.value.mime) else None;
    HeaderLinesOk(code, lData, mime);
    var payload: string := if body.Some? then body.value.data[..lData] else [];
    ReadHeadOfLines(HeaderLines(code, lData, mime), payload);
    assert SendBytes(code, body, lData) == JoinLines(HeaderLines(code, lData, mime)) + CRLF + payload;
  }

  /** The Status-Line carries the code and its reason; atoi reads the code back. */
  lemma StatusLineCode(code: uint32)
    ensures StatusLine(code)[9..] == CodeAndReason(code)
    ensures ToU32(Atoi(StatusLine(code)[9..])) == code
  {
    var c, r := IntToString(Signed32(code)), ResponseCodeToString(code);
    UintRoundTrip([], code, " " + r);
    assert [] + c + (" " + r) == CodeAndReason(code);
  }

  /** The Content-Length line, read with atoi into a uint as the request parser does, gives n. */
  lemma LengthLineValue(n: uint32)
    ensures "Content-Length:" <= LengthLine(n)
    ensures ToU32(Atoi(LengthLine(n)[15..])) == n
  {
    var d := IntToString(Signed32(n));
    var l := LengthLine(n);
    assert l[15..] == " " + d;
    UintRoundTrip(" ", n, []);
    assert " " + d + [] == l[15..];
  }

  /** An httpd_send header with a body of MIME type of at most 55 bytes always fits its buffer. */
  lemma HeadFitsShortMime(code: uint32, lData: uint32, mime: Option<string>)
    requires mime.Some? ==> |mime.value| <= 55
    ensures HeadFits(code, lData, mime)
  {
    IntToStringLength(Signed32(code));
    IntToStringLength(Signed32(lData));
    var fixed := [StatusLine(code), LengthLine(lData), ServerLine, AllowOriginLine];
    LinesLength4(StatusLine(code), LengthLine(lData), ServerLine, AllowOriginLine);
    assert LinesLength(fixed) <= 124;
    var extra: seq<string> := match mime
      case Some(m) => [TypeLine(m), ExpiresLine, PragmaLine]
      case None => [];
    if mime.Some? {
      LinesLength3(TypeLine(mime.value), ExpiresLine, PragmaLine);
    }
    assert LinesLength(extra) <= 129;
    assert HeaderLines(code, lData, mime) == fixed + extra;
    LinesLengthAppend(fixed, extra);
    JoinLinesLength(fixed + extra);
  }

  lemma {:induction false} LinesLengthAppend(a: seq<string>, b: seq<string>)
    ensures LinesLength(a + b) == LinesLength(a) + LinesLength(b)
  {
    if a != [] {
      assert (a + b)[1..] == a[1..] + b;
      LinesLengthAppend(a[1..], b);
    } else {
      assert a + b == b;
    }
  }

  lemma LinesLength4(a: string, b: string, c: string, d: string)
    ensures LinesLength([a, b, c, d]) == |a| + |b| + |c| + |d| + 8
  {
    LinesLength3(b, c, d);
    assert [a, b, c, d][1..] == [b, c, d];
  }

  lemma LinesLength3(a: string, b: string, c: string)
    ensures LinesLength([a, b, c]) == |a| + |b| + |c| + 6
  {
    assert LinesLength([c]) == |c| + 2 by {
      assert [c][1..] == [];
    }
    assert LinesLength([b, c]) == |b| + |c| + 4 by {
      assert [b, c][1..] == [c];
    }
    assert [a, b, c][1..] == [b, c];
  }

  /** The length of lines joined with CRLF. */
  function LinesLength(ls: seq<string>): nat {
    if ls == [] then 0 else |ls[0]| + 2 + LinesLength(ls[1..])
  }

  lemma {:induction false} JoinLinesLength(ls: seq<string>)
    ensures |JoinLines(ls)| == LinesLength(ls)
  {
    if ls != [] {
      JoinLinesLength(ls[1..]);
    }
  }

  lemma IntToStringLength(x: int)
    requires INT_MIN <= x <= INT_MAX
    ensures |IntToString(x)| <= 11
  {
    var n: nat := if x < 0 then -x else x;
    NatDigitsLength(n, 10);
  }

  lemma {:induction false} NatDigitsLength(n: nat, k: nat)
    requires n < Pow10(k) && k > 0
    ensures |NatDigits(n)| <= k
  {
    if n >= 10 {
      assert n / 10 < Pow10(k - 1);
      NatDigitsLength(n / 10, k - 1);
    }
  }

  function Pow10(k: nat): (p: nat)
    ensures p > 0
  {
    if k == 0 then 1 else 10 * Pow10(k - 1)
  }

  // ---------------------------------------------------------------- file header

  /**
    The header httpd_fileHandler sends before a file: 200 OK, the file
    size, the server name and the MIME type. Unlike httpd_send it has no
    Access-Control-Allow-Origin, Expires or Pragma line.
  */
  function FileHeadLines(size: uint32, mime: string): seq<string> {
    ["HTTP/1.0 200 OK", LengthLine(size), ServerLine, TypeLine(mime)]
  }

  function FileHead(size: uint32, mime: string): string {
    JoinLines(FileHeadLines(size, mime)) + CRLF
  }

  /**
    A client reads the file header as its four lines and an empty body,
    with the file size as Content-Length; no line grants cross-origin access.
  */
  lemma FileHeadFraming(size: uint32, mime: string)
    requires '\r' !in mime
    ensures ReadHead(FileHead(size, mime)) == Some((FileHeadLines(size, mime), []))
    ensures ToU32(Atoi(FileHeadLines(size, mime)[1][15..])) == size
    ensures AllowOriginLine !in FileHeadLines(size, mime)
  {
    var ls := FileHeadLines(size, mime);
    assert FileHead(size, mime) == JoinLines(ls) + CRLF + [];
    LengthLineOk(size);
    FixedLinesOk();
    TypeLineOk(mime);
    assert LineOk(ls[0]);
    ReadHeadOfLines(ls, []);
    LengthLineValue(size);
    assert ls[1][0] != AllowOriginLine[0];
    assert ls[3][0] != AllowOriginLine[0];
  }

  /** The file header, with a MIME type of at most 44 bytes, fits the handler's 128-byte buffer with its NUL. */
  lemma FileHeadFits(size: uint32, mime: string)
    requires |mime| <= 44
    ensures |FileHead(size, mime)| < 128
  {
    IntToStringLength(Signed32(size));
    var ls := FileHeadLines(size, mime);
    LinesLength4(ls[0], ls[1], ls[2], ls[3]);
    JoinLinesLength(ls);
  }
}
