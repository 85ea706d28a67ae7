/**
  How httpd_recv reads a request. The first chunk of a connection holds
  the Request-Line (section 5.1 of RFC 1945) and the header; the engine
  keeps the method, the Request-URI, Content-Length (section 10.4) and
  Authorization (section 10.2). Every later chunk is body, appended to the
  body buffer.
*/
module RequestParser {
  import opened Wrappers
  import opened CStrings
  import opened HttpdTypes
  import opened Tables

  // ---------------------------------------------------------------- Request-Line

  /** The method compare of httpd_recv: a prefix test, in the order GET, POST, PUT, PATCH, DELETE. */
  function ParseMethod(chunk: string): (m: Option<HttpMethod>)
    ensures m.Some? ==> m.value in {HttpGet, HttpPost, HttpPut, HttpPatch, HttpDelete}
  {
    if StartsWith(chunk, "GET") then Some(HttpGet)
    else if StartsWith(chunk, "POST") then Some(HttpPost)
    else if StartsWith(chunk, "PUT") then Some(HttpPut)
    else if StartsWith(chunk, "PATCH") then Some(HttpPatch)
    else if StartsWith(chunk, "DELETE") then Some(HttpDelete)
    else None
  }

  /**
    Each method is chosen exactly when the chunk starts with its token:
    the five tokens cannot start the same chunk, so the order of the
    tests does not matter.
  */
  lemma ParseMethodPrefixes(chunk: string)
    ensures ParseMethod(chunk) == Some(HttpGet) <==> StartsWith(chunk, "GET")
    ensures ParseMethod(chunk) == Some(HttpPost) <==> StartsWith(chunk, "POST")
    ensures ParseMethod(chunk) == Some(HttpPut) <==> StartsWith(chunk, "PUT")
    ensures ParseMethod(chunk) == Some(HttpPatch) <==> StartsWith(chunk, "PATCH")
    ensures ParseMethod(chunk) == Some(HttpDelete) <==> StartsWith(chunk, "DELETE")
  {
    assert StartsWith(chunk, "GET") ==> chunk[0] == 'G';
    assert StartsWith(chunk, "POST") ==> chunk[0] == 'P' && chunk[1] == 'O';
    assert StartsWith(chunk, "PUT") ==> chunk[0] == 'P' && chunk[1] == 'U';
    assert StartsWith(chunk, "PATCH") ==> chunk[0] == 'P' && chunk[1] == 'A';
    assert StartsWith(chunk, "DELETE") ==> chunk[0] == 'D';
  }

  /** The token a client writes for a request method is parsed back to that method, whatever follows it. */
  lemma MethodRoundTrip(m: HttpMethod, rest: string)
    requires m in {HttpGet, HttpPost, HttpPut, HttpPatch, HttpDelete}
    ensures ParseMethod(MethodToString(m) + rest) == Some(m)
  {
    var t := MethodToString(m) + rest;
    assert t[..|MethodToString(m)|] == MethodToString(m);
    ParseMethodPrefixes(t);
  }

  /** The compare is a prefix test: a token that only begins with GET is GET. */
  lemma PrefixMethod()
    ensures ParseMethod("GETX /a HTTP/1.0\r\n") == Some(HttpGet)
    ensures ParseMethod("get /a HTTP/1.0\r\n") == None
  {
    ParseMethodPrefixes("GETX /a HTTP/1.0\r\n");
  }

  /** The parts of a Request-Line httpd_recv uses: the method and the bytes between the first two spaces. */
  datatype RequestLine = RequestLine(httpMethod: HttpMethod, space1: nat, space2: nat, uri: string)

  /**
    The Request-Line test of httpd_recv: the first space, the next space
    after it, then the method; any of them missing rejects the chunk.
    Otherwise the URI is exactly the bytes strictly between the first space
    and the next one.
  */
  function ParseRequestLine(chunk: string): (r: Option<RequestLine>)
    ensures r.Some? ==> r.value.space1 < r.value.space2 < |chunk|
    ensures r.Some? ==> chunk[r.value.space1] == ' ' && chunk[r.value.space2] == ' '
    ensures r.Some? ==> forall j :: 0 <= j < r.value.space1 ==> chunk[j] != ' '
    ensures r.Some? ==> forall j :: r.value.space1 < j < r.value.space2 ==> chunk[j] != ' '
    ensures r.Some? ==> r.value.uri == chunk[r.value.space1 + 1..r.value.space2]
    ensures r.Some? ==> Some(r.value.httpMethod) == ParseMethod(chunk)
  {
    match IndexOf(chunk, ' ')
    case None => None
    case Some(s1) =>
      var after := chunk[s1 + 1..];
      match IndexOf(after, ' ')
      case None => None
      case Some(k) =>
        match ParseMethod(chunk)
        case None => None
        case Some(m) =>
          assert after[..k] == chunk[s1 + 1..s1 + 1 + k];
          Some(RequestLine(m, s1, s1 + 1 + k, after[..k]))
  }

  /** A chunk is rejected exactly when it has fewer than two spaces or starts with no known method. */
  lemma RequestLineRejects(chunk: string)
    ensures ParseRequestLine(chunk).None? <==> Count(chunk, ' ') < 2 || ParseMethod(chunk).None?
  {
    match IndexOf(chunk, ' ')
    case None =>
      CountAbsent(chunk, ' ');
    case Some(s1) =>
      CountAtFirst(chunk, ' ', s1);
      var after := chunk[s1 + 1..];
      match IndexOf(after, ' ')
      case None =>
        CountAbsent(after, ' ');
      case Some(k) =>
        CountAtFirst(after, ' ', k);
  }

  // ---------------------------------------------------------------- header lines

  /** The header fields httpd_recv keeps while it scans: lenData and auth. */
  datatype HeaderFields = HeaderFields(lenData: uint32, auth: Option<string>)

  const CONTENT_LENGTH: string := "Content-Length:"
  const AUTHORIZATION: string := "Authorization: "

  /** A literal without CR that `text` begins with ends before the first CRLF of `text`. */
  lemma PrefixBeforeCrlf(text: string, lit: string, k: nat)
    requires StartsWith(text, lit) && '\r' !in lit
    requires FindCrlf(text) == Some(k)
    ensures |lit| <= k
  {
    assert text[k..][0] == '\r';
    forall j | 0 <= j < |lit| ensures text[j] != '\r' {
      assert text[j] == lit[j];
    }
  }

  /**
    One pass of the header loop. `text` starts at ptrFrom and its first
    CRLF is at k (ptrTo). Both tests compare 15 bytes of `text`, and atoi
    reads from ptrFrom + 15 on, past the end of the line if need be.
  */
  function HeaderLine(text: string, k: nat, h: HeaderFields): (r: HeaderFields)
    requires FindCrlf(text) == Some(k)
    ensures !StartsWith(text, CONTENT_LENGTH) && !StartsWith(text, AUTHORIZATION) ==> r == h
  {
    if StartsWith(text, CONTENT_LENGTH) then
      h.(lenData := ToU32(Atoi(text[15..])))
    else if StartsWith(text, AUTHORIZATION) then
      PrefixBeforeCrlf(text, AUTHORIZATION, k);
      h.(auth := Some(text[15..k]))
    else h
  }

  /**
    The header loop of httpd_recv, from ptrFrom to the last CRLF of the
    chunk. It does not stop at the empty line: CRLF-separated lines in body
    bytes of the first chunk are scanned too.
  */
  function Scan(text: string, h: HeaderFields): HeaderFields
    decreases |text|
  {
    match FindCrlf(text)
    case None => h
    case Some(k) => Scan(text[k + 2..], HeaderLine(text, k, h))
  }

  /**
    The while loop of httpd_recv over the header, on indices into the
    chunk: `from` is ptrFrom, `to` is ptrTo; HeaderLine is its body.
  */
  method ScanHeaderLines(chunk: string, from0: nat, init: HeaderFields) returns (h: HeaderFields)
    requires from0 <= |chunk|
    ensures h == Scan(chunk[from0..], init)
  {
    var from := from0;
    h := init;
    var next := FindCrlf(chunk[from..]);
    while next.Some?
      invariant from <= |chunk|
      invariant next == FindCrlf(chunk[from..])
      invariant Scan(chunk[from..], h) == Scan(chunk[from0..], init)
      decreases |chunk| - from
    {
      var from', h' := from + next.value + 2, HeaderLine(chunk[from..], next.value, h);
      ScanAdvance(chunk, from, next.value, h, from', h');
      from, h := from', h';
      next := FindCrlf(chunk[from..]);
    }
  }

  /** One pass of the loop, on indices: the scan goes on two bytes past ptrTo. */
  lemma {:induction false} ScanAdvance(chunk: string, from: nat, k: nat, h: HeaderFields, from': nat, h': HeaderFields)
    requires from <= |chunk| && FindCrlf(chunk[from..]) == Some(k)
    requires from' == from + k + 2 && h' == HeaderLine(chunk[from..], k, h)
    ensures from' <= |chunk|
    ensures Scan(chunk[from'..], h') == Scan(chunk[from..], h)
  {
    var text := chunk[from..];
    ScanStep(text, k, h);
    DropDrop(chunk, from, k + 2, from');
    assert text[k + 2..] == chunk[from'..];
  }

  lemma ScanStep(text: string, k: nat, h: HeaderFields)
    requires FindCrlf(text) == Some(k)
    ensures Scan(text, h) == Scan(text[k + 2..], HeaderLine(text, k, h))
  {
  }

  /** What one header line, on its own, does to the fields. */
  function ApplyLine(h: HeaderFields, l: string): HeaderFields {
    if StartsWith(l, CONTENT_LENGTH) then h.(lenData := ToU32(Atoi(l[15..])))
    else if StartsWith(l, AUTHORIZATION) then h.(auth := Some(l[15..]))
    else h
  }

  /** The header lines applied in order: for each field, the last line naming it wins. */
  function ApplyLines(h: HeaderFields, ls: seq<string>): HeaderFields
    decreases ls
  {
    if ls == [] then h else ApplyLines(ApplyLine(h, ls[0]), ls[1..])
  }

  /**
    A header line the scan reads as the line itself: without CR, and a
    Content-Length line has something other than white space after the
    colon (otherwise atoi reads on into the next line).
  */
  predicate FieldLine(l: string) {
    LineOk(l) && (StartsWith(l, CONTENT_LENGTH) ==> SkipSpace(l[15..]) != [])
  }

  lemma HeaderLineOfLine(l: string, rest: string, h: HeaderFields)
    requires FieldLine(l)
    ensures FindCrlf(l + CRLF + rest) == Some(|l|)
    ensures HeaderLine(l + CRLF + rest, |l|, h) == ApplyLine(h, l)
  {
    var text := l + CRLF + rest;
    CrlfAfterLine(l, rest);
    LinePrefix(l, text, CONTENT_LENGTH);
    LinePrefix(l, text, AUTHORIZATION);
    if StartsWith(l, CONTENT_LENGTH) {
      LengthAfterLine(l, rest);
    } else if StartsWith(l, AUTHORIZATION) {
      AuthAfterLine(l, rest);
    }
  }

  /** The number after "Content-Length:" is read from the line alone. */
  lemma LengthAfterLine(l: string, rest: string)
    requires StartsWith(l, CONTENT_LENGTH) && SkipSpace(l[15..]) != []
    ensures Atoi((l + CRLF + rest)[15..]) == Atoi(l[15..])
  {
    Assoc(l, CRLF, rest);
    DropLeft(l, CRLF + rest, 15);
    AtoiStopsAtCr(l[15..], CRLF + rest);
  }

  /** The credentials after "Authorization: " are the rest of the line. */
  lemma AuthAfterLine(l: string, rest: string)
    requires StartsWith(l, AUTHORIZATION)
    ensures (l + CRLF + rest)[15..|l|] == l[15..]
  {
    Assoc(l, CRLF, rest);
  }

  /** A line and the text it starts, where a CR follows it, start with the same CR-free literal or neither does. */
  lemma LinePrefix(l: string, text: string, lit: string)
    requires l <= text && |l| < |text| && text[|l|] == '\r' && '\r' !in lit
    ensures StartsWith(text, lit) <==> StartsWith(l, lit)
  {
    if |l| < |lit| {
      assert |lit| <= |text| ==> text[|l|] != lit[|l|];
    }
  }

  lemma {:induction false} ScanJoined(ls: seq<string>, rest: string, h: HeaderFields)
    requires forall i :: 0 <= i < |ls| ==> FieldLine(ls[i])
    ensures Scan(JoinLines(ls) + rest, h) == Scan(rest, ApplyLines(h, ls))
  {
    if ls == [] {
      assert JoinLines(ls) + rest == rest;
    } else {
      var tail := JoinLines(ls[1..]) + rest;
      assert JoinLines(ls) + rest == ls[0] + CRLF + tail;
      HeaderLineOfLine(ls[0], tail, h);
      assert (ls[0] + CRLF + tail)[|ls[0]| + 2..] == tail;
      ScanStep(ls[0] + CRLF + tail, |ls[0]|, h);
      ScanJoined(ls[1..], rest, ApplyLine(h, ls[0]));
    }
  }

  /** A line that is empty (the text starts with CRLF) sets nothing. */
  lemma ScanSkipsBlank(rest: string, h: HeaderFields)
    ensures Scan(CRLF + rest, h) == Scan(rest, h)
  {
    CrlfAfterLine([], rest);
    assert [] + CRLF + rest == CRLF + rest;
    assert (CRLF + rest)[2..] == rest;
    assert (CRLF + rest)[0] != CONTENT_LENGTH[0] && (CRLF + rest)[0] != AUTHORIZATION[0];
    ScanStep(CRLF + rest, 0, h);
  }

  /**
    The scan starts at the CRLF that ends the Request-Line. Over a header
    of field lines, the empty line and a body without CR, it sets each field
    from the last line that names it.
  */
  lemma ScanHeaderBlock(ls: seq<string>, body: string, h: HeaderFields)
    requires forall i :: 0 <= i < |ls| ==> FieldLine(ls[i])
    requires '\r' !in body
    ensures Scan(CRLF + (JoinLines(ls) + (CRLF + body)), h) == ApplyLines(h, ls)
  {
    ScanSkipsBlank(JoinLines(ls) + (CRLF + body), h);
    ScanJoined(ls, CRLF + body, h);
    ScanSkipsBlank(body, ApplyLines(h, ls));
    NoCrlf(body);
  }

  /** The last Content-Length line wins; other lines leave the fields alone. */
  lemma LastContentLengthWins()
    ensures ApplyLines(HeaderFields(0, None), ["Content-Length: 5", "Host: x", "Content-Length: 7"])
      == HeaderFields(7, None)
  {
    AtoiOfIntToString(" ", 5, []);
    AtoiOfIntToString(" ", 7, []);
    assert "Content-Length: 5"[15..] == " " + IntToString(5) + [];
    assert "Content-Length: 7"[15..] == " " + IntToString(7) + [];
  }

  // ---------------------------------------------------------------- the first chunk

  /**
    The first chunk can be parsed without reading outside it: when the
    Request-Line parses, the chunk goes on at least two bytes past the
    second space and holds a CRLF from there on (strstr(space2 + 2, CRLF)
    must not be NULL).
  */
  predicate HeaderDefined(chunk: string) {
    match ParseRequestLine(chunk)
    case None => true
    case Some(rl) => CrlfAfter(chunk, rl.space2 + 2)
  }

  predicate CrlfAfter(chunk: string, from: nat) {
    from <= |chunk| && FindCrlf(chunk[from..]).Some?
  }

  /** Where the header loop starts: the first CRLF at or after `from` (space2 + 2). */
  function ScanStart(chunk: string, from: nat): (start: nat)
    requires CrlfAfter(chunk, from)
    ensures from <= start <= |chunk|
  {
    from + FindCrlf(chunk[from..]).value
  }

  /**
    The header branch of httpd_recv (slot in phase HttpAny). A chunk
    without two spaces or without a known method leaves the slot as it was
    (None). Otherwise the method, uri, lenData and auth are set, and nothing
    else: body bytes in this chunk are not stored.
  */
  function HeaderStep(req: HttpRequest, chunk: string): (r: Option<HttpRequest>)
    requires HeaderDefined(chunk)
    ensures r.None? <==> ParseRequestLine(chunk).None?
    ensures r.Some? ==> var rl := ParseRequestLine(chunk).value;
      r.value == req.(httpMethod := rl.httpMethod, uri := Some(rl.uri),
                      lenData := r.value.lenData, auth := r.value.auth)
  {
    match ParseRequestLine(chunk)
    case None => None
    case Some(rl) => Some(WithHeader(req, chunk, rl))
  }

  /** The slot after a parsed Request-Line `rl`: its method and URI, and the fields the header loop found. */
  function WithHeader(req: HttpRequest, chunk: string, rl: RequestLine): (r: HttpRequest)
    requires CrlfAfter(chunk, rl.space2 + 2)
    ensures r == req.(httpMethod := rl.httpMethod, uri := Some(rl.uri), lenData := r.lenData, auth := r.auth)
  {
    var h := Scan(chunk[ScanStart(chunk, rl.space2 + 2)..], HeaderFields(req.lenData, req.auth));
    req.(httpMethod := rl.httpMethod, uri := Some(rl.uri), lenData := h.lenData, auth := h.auth)
  }

  /**
    Request text as a client writes it: method, URI and version separated
    by single spaces, CRLF, the field lines, the empty line, the body.
  */
  function RequestText(m: HttpMethod, uri: string, version: string, ls: seq<string>, body: string): string {
    MethodToString(m) + (" " + (uri + (" " + (version + HeaderText(ls, body)))))
  }

  /** What follows the version: the CRLF that ends the Request-Line, the field lines, the empty line, the body. */
  function HeaderText(ls: seq<string>, body: string): string {
    CRLF + (JoinLines(ls) + (CRLF + body))
  }

  /**
    A well-formed request (URI and version without space or CR, a version
    of at least one byte, field lines, a body without CR) is read as its
    method and URI, with lenData and auth as its last Content-Length and
    Authorization lines give them.
  */
  lemma ReadRequest(req: HttpRequest, m: HttpMethod, uri: string, version: string, ls: seq<string>, body: string)
    requires m in {HttpGet, HttpPost, HttpPut, HttpPatch, HttpDelete}
    requires ' ' !in uri && '\r' !in uri
    requires version != [] && ' ' !in version && '\r' !in version
    requires forall i :: 0 <= i < |ls| ==> FieldLine(ls[i])
    requires '\r' !in body
    ensures var chunk := RequestText(m, uri, version, ls, body);
      var h := ApplyLines(HeaderFields(req.lenData, req.auth), ls);
      HeaderDefined(chunk) &&
      HeaderStep(req, chunk) == Some(req.(httpMethod := m, uri := Some(uri), lenData := h.lenData, auth := h.auth))
  {
    RequestTextHeader(req, m, uri, version, ls, body);
    ScanHeaderBlock(ls, body, HeaderFields(req.lenData, req.auth));
  }

  /** The header branch on request text: method and URI from its Request-Line, the scan from the CRLF that ends it. */
  lemma RequestTextHeader(req: HttpRequest, m: HttpMethod, uri: string, version: string, ls: seq<string>, body: string)
    requires m in {HttpGet, HttpPost, HttpPut, HttpPatch, HttpDelete}
    requires ' ' !in uri
    requires version != [] && '\r' !in version
    ensures var chunk := RequestText(m, uri, version, ls, body);
      var h := Scan(HeaderText(ls, body), HeaderFields(req.lenData, req.auth));
      HeaderDefined(chunk) &&
      HeaderStep(req, chunk) == Some(req.(httpMethod := m, uri := Some(uri), lenData := h.lenData, auth := h.auth))
  {
    var chunk := RequestText(m, uri, version, ls, body);
    var rl := RequestTextLine(m, uri, version, ls, body);
    HeaderStepAt(req, chunk, rl, version, JoinLines(ls) + (CRLF + body));
  }

  /**
    HeaderStep on a chunk whose Request-Line `rl` ends with a version:
    the scan starts at the CRLF after it.
  */
  lemma HeaderStepAt(req: HttpRequest, chunk: string, rl: RequestLine, version: string, rest: string)
    requires ParseRequestLine(chunk) == Some(rl)
    requires version != [] && '\r' !in version
    requires rl.space2 + 2 <= |chunk| && chunk[rl.space2 + 2..] == version[1..] + (CRLF + rest)
    ensures HeaderDefined(chunk)
    ensures var h := Scan(CRLF + rest, HeaderFields(req.lenData, req.auth));
      HeaderStep(req, chunk) == Some(req.(httpMethod := rl.httpMethod, uri := Some(rl.uri), lenData := h.lenData, auth := h.auth))
  {
    assert '\r' !in version[1..] by {
      forall j | 0 <= j < |version| - 1 ensures version[1..][j] != '\r' {
        assert version[1..][j] == version[j + 1];
      }
    }
    ScanStartOf(chunk, rl.space2 + 2, version[1..], rest);
    HeaderDefinedOf(chunk, rl);
    HeaderStepOf(req, chunk, rl);
    WithHeaderOf(req, chunk, rl, CRLF + rest);
  }

  /** HeaderStep is defined once a CRLF follows the byte after the second space. */
  lemma HeaderDefinedOf(chunk: string, rl: RequestLine)
    requires ParseRequestLine(chunk) == Some(rl) && CrlfAfter(chunk, rl.space2 + 2)
    ensures HeaderDefined(chunk)
  {
  }

  /** HeaderStep on a chunk whose Request-Line is `rl`. */
  lemma HeaderStepOf(req: HttpRequest, chunk: string, rl: RequestLine)
    requires ParseRequestLine(chunk) == Some(rl) && HeaderDefined(chunk)
    ensures CrlfAfter(chunk, rl.space2 + 2)
    ensures HeaderStep(req, chunk) == Some(WithHeader(req, chunk, rl))
  {
  }

  /** WithHeader once the text the scan starts at is known. */
  lemma WithHeaderOf(req: HttpRequest, chunk: string, rl: RequestLine, text: string)
    requires CrlfAfter(chunk, rl.space2 + 2) && chunk[ScanStart(chunk, rl.space2 + 2)..] == text
    ensures var h := Scan(text, HeaderFields(req.lenData, req.auth));
      WithHeader(req, chunk, rl) == req.(httpMethod := rl.httpMethod, uri := Some(rl.uri), lenData := h.lenData, auth := h.auth)
  {
  }

  /** The Request-Line of request text, and what follows the byte after its second space. */
  lemma RequestTextLine(m: HttpMethod, uri: string, version: string, ls: seq<string>, body: string)
    returns (rl: RequestLine)
    requires m in {HttpGet, HttpPost, HttpPut, HttpPatch, HttpDelete}
    requires ' ' !in uri
    requires version != []
    ensures ParseRequestLine(RequestText(m, uri, version, ls, body)) == Some(rl)
    ensures rl.httpMethod == m && rl.uri == uri
    ensures rl.space2 + 2 <= |RequestText(m, uri, version, ls, body)|
    ensures RequestText(m, uri, version, ls, body)[rl.space2 + 2..]
      == version[1..] + HeaderText(ls, body)
  {
    var chunk := RequestText(m, uri, version, ls, body);
    var after := version + HeaderText(ls, body);
    rl := RequestLineOf(m, uri, after);
    AfterSecondSpace(MethodToString(m), uri, after, rl.space2 + 1);
    DropDrop(chunk, rl.space2 + 1, 1, rl.space2 + 2);
    DropLeft(version, HeaderText(ls, body), 1);
  }

  /** What follows the second space of a Request-Line. */
  lemma AfterSecondSpace(tok: string, uri: string, after: string, at: nat)
    requires at == |tok| + 1 + |uri| + 1
    ensures (tok + (" " + (uri + (" " + after))))[at..] == after
  {
    var x3 := " " + after;
    var x2 := uri + x3;
    var x1 := " " + x2;
    DropAppend(tok, x1, 1 + |uri| + 1);
    DropAppend(" ", x2, |uri| + 1);
    DropAppend(uri, x3, 1);
    DropAppend(" ", after, 0);
  }

  /** When the version ends before the first CRLF, the scan starts at that CRLF. */
  lemma ScanStartOf(chunk: string, from: nat, v: string, rest: string)
    requires from <= |chunk| && chunk[from..] == v + (CRLF + rest)
    requires '\r' !in v
    ensures CrlfAfter(chunk, from) && chunk[ScanStart(chunk, from)..] == CRLF + rest
  {
    CrlfAfterLine(v, rest);
    Assoc(v, CRLF, rest);
    DropDrop(chunk, from, |v|, from + |v|);
    DropAppend(v, CRLF + rest, 0);
  }

  /** The Request-Line of request text: its method token, the URI between the first two spaces. */
  lemma RequestLineOf(m: HttpMethod, uri: string, after: string) returns (rl: RequestLine)
    requires m in {HttpGet, HttpPost, HttpPut, HttpPatch, HttpDelete}
    requires ' ' !in uri
    ensures var tok := MethodToString(m);
      rl == RequestLine(m, |tok|, |tok| + 1 + |uri|, uri) &&
      ParseRequestLine(tok + (" " + (uri + (" " + after)))) == Some(rl)
  {
    var tok := MethodToString(m);
    var rest := uri + (" " + after);
    var chunk := tok + (" " + rest);
    rl := RequestLine(m, |tok|, |tok| + 1 + |uri|, uri);
    MethodRoundTrip(m, " " + rest);
    SpaceAfter(tok, rest);
    SpaceAfter(uri, after);
    RequestLineAt(chunk, m, |tok|, |uri|);
  }

  /** In a token without spaces followed by a space, the first space is the one after the token. */
  lemma SpaceAfter(tok: string, rest: string)
    requires ' ' !in tok
    ensures IndexOf(tok + (" " + rest), ' ') == Some(|tok|)
    ensures (tok + (" " + rest))[|tok| + 1..] == rest
    ensures (tok + (" " + rest))[..|tok|] == tok
  {
    var s := tok + (" " + rest);
    assert s[..|tok|] == tok;
    DropAppend(tok, " " + rest, 1);
    IndexOfAt(s, ' ', |tok|);
  }

  /** ParseRequestLine once both spaces and the method are known. */
  lemma RequestLineAt(chunk: string, m: HttpMethod, s1: nat, k: nat)
    requires IndexOf(chunk, ' ') == Some(s1) && IndexOf(chunk[s1 + 1..], ' ') == Some(k)
    requires ParseMethod(chunk) == Some(m)
    ensures ParseRequestLine(chunk) == Some(RequestLine(m, s1, s1 + 1 + k, chunk[s1 + 1..][..k]))
  {
  }

  // ---------------------------------------------------------------- later chunks

  /**
    The body branch of httpd_recv (any phase but HttpAny). The first body
    chunk is copied (strcpy: the chunk has no NUL); a later one is written at
    offset lenSoFar of the grown buffer, and lenSoFar grows by its length.
  */
  function BodyStep(req: HttpRequest, chunk: string): (r: HttpRequest)
    requires |chunk| < 0x1_0000
    requires req.data.Some? ==> req.lenSoFar + |chunk| + 1 < TWO_32
    ensures r == req.(data := r.data, lenSoFar := r.lenSoFar)
    ensures r.data.Some? && |r.data.value| == r.lenSoFar
    ensures r.lenSoFar == (if req.data.Some? then req.lenSoFar + |chunk| else |chunk|)
    ensures r.data.value[r.lenSoFar - |chunk|..] == chunk
    ensures req.data.Some? && |req.data.value| == req.lenSoFar ==> r.data.value == req.data.value + chunk
  {
    match req.data
    case None => req.(data := Some(chunk), lenSoFar := |chunk|)
    case Some(d) =>
      var buf := Resize(d, req.lenSoFar) + chunk;
      assert buf[req.lenSoFar..] == chunk;
      req.(data := Some(buf), lenSoFar := req.lenSoFar + |chunk|)
  }

  /** Body chunks one after another; the flag of each says whether lenSoFar == lenData after it. */
  function BodySteps(req: HttpRequest, chunks: seq<string>): (HttpRequest, seq<bool>)
    requires forall i :: 0 <= i < |chunks| ==> |chunks[i]| < 0x1_0000
    requires req.lenSoFar + Total(chunks) + 1 < TWO_32
    decreases chunks
  {
    if chunks == [] then (req, [])
    else
      var next := BodyStep(req, chunks[0]);
      var rest := BodySteps(next, chunks[1..]);
      (rest.0, [next.lenSoFar == next.lenData] + rest.1)
  }

  /**
    After the header (no body buffer yet, lenSoFar 0), body chunks are
    stored as their concatenation and lenSoFar counts them up to lenData.
  */
  lemma {:induction false} BodyCollects(req: HttpRequest, chunks: seq<string>, sofar: string)
    requires forall i :: 0 <= i < |chunks| ==> 0 < |chunks[i]| < 0x1_0000
    requires req.data == (if sofar == [] then None else Some(sofar))
    requires req.lenSoFar == |sofar|
    requires |sofar| + Total(chunks) == req.lenData < TWO_32 - 1
    ensures var last := BodySteps(req, chunks).0;
      last == req.(data := last.data, lenSoFar := req.lenData) &&
      (sofar != [] || chunks != [] ==> last.data == Some(sofar + Concat(chunks)))
    decreases chunks
  {
    if chunks == [] {
      assert sofar + Concat(chunks) == sofar;
    } else {
      var next := BodyStep(req, chunks[0]);
      BodyAppends(req, chunks[0], sofar);
      BodyCollects(next, chunks[1..], sofar + chunks[0]);
      Assoc(sofar, chunks[0], Concat(chunks[1..]));
    }
  }

  /** One body chunk after the bytes `sofar`: the buffer holds both and lenSoFar counts both. */
  lemma BodyAppends(req: HttpRequest, chunk: string, sofar: string)
    requires 0 < |chunk| < 0x1_0000
    requires req.data == (if sofar == [] then None else Some(sofar))
    requires req.lenSoFar == |sofar| && |sofar| + |chunk| + 1 < TWO_32
    ensures BodyStep(req, chunk) == req.(data := Some(sofar + chunk), lenSoFar := |sofar| + |chunk|)
  {
    if sofar == [] {
      assert sofar + chunk == chunk;
    }
  }

  /**
    For non-empty chunks that bring lenSoFar to lenData, the request is
    complete after the last chunk and after no other, so the router runs
    exactly once.
  */
  lemma {:induction false} DispatchOnce(req: HttpRequest, chunks: seq<string>)
    requires forall i :: 0 <= i < |chunks| ==> 0 < |chunks[i]| < 0x1_0000
    requires req.data.None? ==> req.lenSoFar == 0
    requires req.lenSoFar + Total(chunks) == req.lenData < TWO_32 - 1
    ensures var flags := BodySteps(req, chunks).1;
      |flags| == |chunks| && forall i :: 0 <= i < |chunks| ==> (flags[i] <==> i == |chunks| - 1)
    decreases chunks
  {
    if chunks != [] {
      var next := BodyStep(req, chunks[0]);
      assert next.lenSoFar == req.lenSoFar + |chunks[0]|;
      assert next.lenSoFar == next.lenData <==> |chunks| == 1 by {
        if |chunks| > 1 {
          assert Total(chunks[1..]) >= |chunks[1..][0]|;
        }
      }
      DispatchOnce(next, chunks[1..]);
    }
  }
}
