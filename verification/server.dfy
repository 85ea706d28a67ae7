/**
  The connection-slot pool and the transport events of the server: the
  zeroing in httpd_init, httpd_findAvailHttpReq, httpd_findHttpReq,
  httpd_connect, httpd_discon, httpd_recv, httpd_sent, httpd_router on a
  slot, httpd_fileHandler on a slot and the three httpd_send overloads. Each
  event is given the peer it is for and what else it reads (the time, the
  chunk, the file storage, the application's handlers); every espconn_send
  is an append to the log `out`.
*/
module Httpd {
  import opened Wrappers
  import opened CStrings
  import opened HttpdTypes
  import opened Response
  import opened RequestParser
  import opened FileStream
  import opened Router
  import Params

  // ---------------------------------------------------------------- slots as values

  /** A slot httpd_findAvailHttpReq may hand out: free, or idle longer than CONNECTION_EXPIRE_MS (unsigned difference). */
  predicate Avail(s: HttpRequest, now: uint32) {
    s.httpMethod == HttpNone || (now - s.msLast) % TWO_32 > CONNECTION_EXPIRE_MS
  }

  /** The lowest slot index that is available, or NOT_FOUND. */
  function FirstAvail(ss: seq<HttpRequest>, now: uint32): (r: int)
    ensures -1 <= r < |ss|
    ensures r >= 0 ==> Avail(ss[r], now)
    ensures forall j :: 0 <= j < |ss| && (r == -1 || j < r) ==> !Avail(ss[j], now)
    decreases |ss|
  {
    if ss == [] then NOT_FOUND
    else if Avail(ss[0], now) then 0
    else
      var k := FirstAvail(ss[1..], now);
      if k == NOT_FOUND then NOT_FOUND else k + 1
  }

  /** The lowest slot index bound to the peer (four address bytes and port), whatever its phase, or NOT_FOUND. */
  function FirstPeer(ss: seq<HttpRequest>, peer: Peer): (r: int)
    ensures -1 <= r < |ss|
    ensures r >= 0 ==> ss[r].remote == peer
    ensures forall j :: 0 <= j < |ss| && (r == -1 || j < r) ==> ss[j].remote != peer
    decreases |ss|
  {
    if ss == [] then NOT_FOUND
    else if ss[0].remote == peer then 0
    else
      var k := FirstPeer(ss[1..], peer);
      if k == NOT_FOUND then NOT_FOUND else k + 1
  }

  /** A slot as httpd_connect leaves it: the peer, the time, phase HttpAny, every other field cleared. */
  function Bound(peer: Peer, now: uint32): HttpRequest {
    HttpRequest(peer, now, HttpAny, None, None, 0, 0, None, [])
  }

  /** A slot as httpd_discon leaves it: phase HttpNone, no URI, no body, no parameters. */
  function Released(s: HttpRequest): HttpRequest {
    s.(httpMethod := HttpNone, uri := None, data := None, args := [])
  }

  /** httpd_connect on the pool: the first available slot is bound; with none available nothing changes. */
  function Connected(ss: seq<HttpRequest>, peer: Peer, now: uint32): (r: seq<HttpRequest>)
    ensures |r| == |ss|
  {
    var k := FirstAvail(ss, now);
    if k == NOT_FOUND then ss else ss[k := Bound(peer, now)]
  }

  /** httpd_discon on the pool: the peer's first slot is released; without one nothing changes. */
  function Disconnected(ss: seq<HttpRequest>, peer: Peer): (r: seq<HttpRequest>)
    ensures |r| == |ss|
  {
    var k := FirstPeer(ss, peer);
    if k == NOT_FOUND then ss else ss[k := Released(ss[k])]
  }

  /** Once a request line was read the slot has a URI: every phase past HttpAny has one. */
  predicate SlotOk(s: HttpRequest) {
    s.httpMethod != HttpNone && s.httpMethod != HttpAny ==> s.uri.Some?
  }

  predicate AllOk(ss: seq<HttpRequest>) {
    forall i :: 0 <= i < |ss| ==> SlotOk(ss[i])
  }

  /**
    What httpd_recv needs of a chunk: no NUL inside (it is read with strchr
    and strcpy), at most 65535 bytes (an unsigned short), and what the
    peer's slot needs of it.
  */
  predicate RecvOk(ss: seq<HttpRequest>, peer: Peer, chunk: string) {
    Lacks(chunk, NUL) && |chunk| < 0x1_0000 &&
    var k := FirstPeer(ss, peer);
    k >= 0 ==> SlotRecvOk(ss[k], chunk)
  }

  /**
    In phase HttpAny a CRLF after the Request-Line; otherwise lenSoFar stays
    in range, and a slot that then dispatches has a URI.
  */
  predicate SlotRecvOk(s: HttpRequest, chunk: string) {
    if s.httpMethod == HttpAny then HeaderDefined(chunk)
    else
      |chunk| < 0x1_0000 && (s.data.Some? ==> s.lenSoFar + |chunk| + 1 < TWO_32) &&
      (BodyStep(s, chunk).lenSoFar == s.lenData ==> s.uri.Some?)
  }

  /** The slot after the chunk: the header branch (None when the Request-Line is rejected) or the body branch. */
  function RecvSlot(s: HttpRequest, chunk: string): (r: Option<HttpRequest>)
    requires SlotRecvOk(s, chunk)
    ensures SlotOk(s) && r.Some? ==> SlotOk(r.value)
    ensures r.Some? && r.value.lenSoFar == r.value.lenData ==> r.value.uri.Some?
  {
    if s.httpMethod == HttpAny then HeaderStep(s, chunk) else Some(BodyStep(s, chunk))
  }

  /**
    The slot part of httpd_recv: in phase HttpAny the Request-Line is parsed
    and the header lines scanned from the byte after the second space's
    CRLF; in any other phase the chunk is added to the body.
  */
  method ReceiveSlot(s: HttpRequest, chunk: string) returns (r: Option<HttpRequest>)
    requires SlotRecvOk(s, chunk)
    ensures r == RecvSlot(s, chunk)
    ensures r.None? <==> s.httpMethod == HttpAny && ParseRequestLine(chunk).None?
  {
    if s.httpMethod != HttpAny {
      return Some(BodyStep(s, chunk));
    }
    var rl := ParseRequestLine(chunk);
    if rl.None? {
      return None;
    }
    var start := ScanStart(chunk, rl.value.space2 + 2);
    var h := ScanHeaderLines(chunk, start, HeaderFields(s.lenData, s.auth));
    r := Some(s.(httpMethod := rl.value.httpMethod, uri := Some(rl.value.uri), lenData := h.lenData, auth := h.auth));
  }

  /**
    httpd_recv on the pool: the new slots and the bytes sent. An unknown
    peer or a rejected Request-Line changes nothing; otherwise the slot
    takes the chunk, and the router runs on it when lenSoFar == lenData.
  */
  function RecvEvent(ss: seq<HttpRequest>, routes: seq<HttpRoute>, peer: Peer, chunk: string, fs: Storage, app: App)
    : (r: (seq<HttpRequest>, seq<string>))
    requires TableOk(routes) && StorageOk(fs) && AllOk(ss) && RecvOk(ss, peer, chunk)
    ensures |r.0| == |ss| && AllOk(r.0)
  {
    var k := FirstPeer(ss, peer);
    if k == NOT_FOUND then (ss, []) else SlotRecv(ss, k, routes, chunk, fs, app)
  }

  /** httpd_recv on slot k. */
  function SlotRecv(ss: seq<HttpRequest>, k: nat, routes: seq<HttpRoute>, chunk: string, fs: Storage, app: App)
    : (r: (seq<HttpRequest>, seq<string>))
    requires TableOk(routes) && StorageOk(fs) && AllOk(ss) && k < |ss| && SlotRecvOk(ss[k], chunk)
    ensures |r.0| == |ss| && AllOk(r.0)
  {
    match RecvSlot(ss[k], chunk)
    case None => (ss, [])
    case Some(s) =>
      var d := Delivered(s, routes, fs, app);
      (ss[k := d.0], d.1)
  }

  /** A slot whose data is all in goes through the router; any other slot waits for more. */
  function Delivered(s: HttpRequest, routes: seq<HttpRoute>, fs: Storage, app: App): (r: (HttpRequest, seq<string>))
    requires TableOk(routes) && StorageOk(fs) && SlotOk(s)
    requires s.lenSoFar == s.lenData ==> s.uri.Some?
    ensures SlotOk(r.0)
  {
    if s.lenSoFar == s.lenData then
      var o := Dispatch(routes, 0, s, fs, app);
      (o.req, o.sent)
    else (s, [])
  }

  // ---------------------------------------------------------------- the server

  class Server {
    /** httpd_requests: one record per connection slot. */
    const slots: array<HttpRequest>
    /** httpd_routes: the route table, ended by an HttpNone entry. */
    const routes: seq<HttpRoute>
    /** Every espconn_send so far, in order. */
    ghost var out: seq<Packet>

    ghost predicate Valid()
      reads slots
    {
      slots.Length == MAX_HTTP_CONNECTIONS && TableOk(routes) && AllOk(slots[..])
    }

    /** httpd_init without the listener: the route table is kept and every slot zeroed. */
    constructor(routes: seq<HttpRoute>)
      requires TableOk(routes)
      ensures Valid() && fresh(slots)
      ensures this.routes == routes && slots[..] == seq(MAX_HTTP_CONNECTIONS, _ => ZeroRequest) && out == []
    {
      this.routes := routes;
      slots := new HttpRequest[MAX_HTTP_CONNECTIONS](_ => ZeroRequest);
      out := [];
    }

    /** httpd_findAvailHttpReq: a read-only scan for the first available slot. */
    method FindAvailHttpReq(now: uint32) returns (r: int)
      requires Valid()
      ensures r == FirstAvail(slots[..], now)
      ensures 0 <= r ==> Avail(slots[r], now)
    {
      var i := 0;
      while i < slots.Length
        invariant 0 <= i <= slots.Length
        invariant forall j :: 0 <= j < i ==> !Avail(slots[j], now)
      {
        if slots[i].httpMethod == HttpNone {
          return i;
        }
        if (now - slots[i].msLast) % TWO_32 > CONNECTION_EXPIRE_MS {
          return i;
        }
        i := i + 1;
      }
      return NOT_FOUND;
    }

    /** httpd_findHttpReq: a read-only scan for the first slot bound to the peer. */
    method FindHttpReq(peer: Peer) returns (r: int)
      requires Valid()
      ensures r == FirstPeer(slots[..], peer)
      ensures 0 <= r ==> slots[r].remote == peer
    {
      var i := 0;
      while i < slots.Length
        invariant 0 <= i <= slots.Length
        invariant forall j :: 0 <= j < i ==> slots[j].remote != peer
      {
        if slots[i].remote == peer {
          return i;
        }
        i := i + 1;
      }
      return NOT_FOUND;
    }

    /** httpd_connect. */
    method Connect(peer: Peer, now: uint32)
      requires Valid()
      modifies slots
      ensures Valid()
      ensures slots[..] == Connected(old(slots[..]), peer, now)
    {
      var r := FindAvailHttpReq(now);
      if r == NOT_FOUND {
        return;
      }
      slots[r] := slots[r].(remote := peer, httpMethod := HttpAny, msLast := now, uri := None, auth := None,
                            lenData := 0, lenSoFar := 0, data := None, args := []);
      assert slots[..] == old(slots[..])[r := Bound(peer, now)];
    }

    /** httpd_discon. */
    method Discon(peer: Peer)
      requires Valid()
      modifies slots
      ensures Valid()
      ensures slots[..] == Disconnected(old(slots[..]), peer)
    {
      var r := FindHttpReq(peer);
      if r == NOT_FOUND {
        return;
      }
      slots[r] := slots[r].(httpMethod := HttpNone, uri := None, data := None, args := []);
      assert slots[..] == old(slots[..])[r := Released(old(slots[r]))];
    }

    /** httpd_recv: the header or body branch on the peer's slot, then the router when all the data is in. */
    method Recv(peer: Peer, chunk: string, fs: Storage, app: App)
      requires Valid() && StorageOk(fs) && RecvOk(slots[..], peer, chunk)
      modifies this, slots
      ensures Valid()
      ensures var e := RecvEvent(old(slots[..]), routes, peer, chunk, fs, app);
        slots[..] == e.0 && out == old(out) + ToPeer(peer, e.1)
    {
      var r := FindHttpReq(peer);
      if r == NOT_FOUND {
        return;
      }
      ReceiveAt(r, peer, chunk, fs, app);
    }

    /** httpd_recv once the peer's slot r is found. */
    method ReceiveAt(r: nat, peer: Peer, chunk: string, fs: Storage, app: App)
      requires Valid() && r < slots.Length && StorageOk(fs) && SlotRecvOk(slots[r], chunk)
      modifies this, slots
      ensures Valid()
      ensures var e := SlotRecv(old(slots[..]), r, routes, chunk, fs, app);
        slots[..] == e.0 && out == old(out) + ToPeer(peer, e.1)
    {
      var next := ReceiveSlot(slots[r], chunk);
      if next.None? {
        return;
      }
      assert SlotOk(next.value) by {
        assert SlotOk(slots[r]);
      }
      slots[r] := next.value;
      Deliver(r, peer, fs, app);
    }

    /** The end of httpd_recv: the router runs once lenSoFar has reached lenData. */
    method Deliver(r: nat, peer: Peer, fs: Storage, app: App)
      requires Valid() && r < slots.Length && StorageOk(fs)
      requires slots[r].lenSoFar == slots[r].lenData ==> slots[r].uri.Some?
      modifies this, slots
      ensures Valid()
      ensures var d := Delivered(old(slots[r]), routes, fs, app);
        slots[..] == old(slots[..])[r := d.0] && out == old(out) + ToPeer(peer, d.1)
    {
      if slots[r].lenSoFar == slots[r].lenData {
        Router(r, peer, fs, app);
      } else {
        assert slots[..] == old(slots[..])[r := slots[r]];
      }
    }

    /** httpd_router on slot r, answering the peer. */
    method Router(r: nat, peer: Peer, fs: Storage, app: App)
      requires Valid() && r < slots.Length && slots[r].uri.Some? && StorageOk(fs)
      modifies this, slots
      ensures Valid()
      ensures var o := Dispatch(routes, 0, old(slots[r]), fs, app);
        slots[..] == old(slots[..])[r := o.req] && out == old(out) + ToPeer(peer, o.sent)
    {
      var req, sent, notFound := RouteRequest(routes, slots[r], fs, app);
      slots[r] := req;
      out := out + ToPeer(peer, sent);
    }

    /** httpd_sent: the next chunk of a file being sent, or the slot freed once it is all sent. */
    method Sent(peer: Peer, fs: Storage)
      requires Valid() && StorageOk(fs)
      modifies this, slots
      ensures Valid()
      ensures var k := FirstPeer(old(slots[..]), peer);
        if k == NOT_FOUND then slots[..] == old(slots[..]) && out == old(out)
        else var e := SentStep(old(slots[k]), fs);
          slots[..] == old(slots[..])[k := e.req] && out == old(out) + ToPeer(peer, e.sent)
    {
      var r := FindHttpReq(peer);
      if r == NOT_FOUND {
        return;
      }
      if slots[r].httpMethod == HttpSending {
        if slots[r].lenSoFar < slots[r].lenData {
          var ok := FileHandler(r, peer, None, fs);
        } else {
          slots[r] := slots[r].(httpMethod := HttpNone);
        }
      }
    }

    /** httpd_fileHandler on slot r, answering the peer. */
    method FileHandler(r: nat, peer: Peer, arg: Option<string>, fs: Storage) returns (ok: bool)
      requires Valid() && r < slots.Length && slots[r].uri.Some? && StorageOk(fs)
      modifies this, slots
      ensures Valid()
      ensures var h := FileStep(old(slots[r]), arg, fs);
        ok == h.ok && slots[..] == old(slots[..])[r := h.req] && out == old(out) + ToPeer(peer, h.sent)
    {
      var h := FileStep(slots[r], arg, fs);
      assert SlotOk(h.req) by {
        assert h.req.uri == slots[r].uri;
      }
      ok := h.ok;
      slots[r] := h.req;
      out := out + ToPeer(peer, h.sent);
    }

    /** httpd_send(pEspconn, responseCode): a header-only response. */
    method Send(peer: Peer, code: uint32)
      modifies this
      ensures out == old(out) + [Packet(peer, SendBytes(code, None, 0))]
    {
      HeadFitsShortMime(code, 0, None);
      SendData(peer, code, None, 0);
    }

    /** httpd_send(pEspconn, responseCode, pMime, pData): the body is the C string pData. */
    method SendText(peer: Peer, code: uint32, mime: string, text: string)
      requires Lacks(text, NUL) && |text| < TWO_32 && HeadFits(code, |text|, Some(mime))
      modifies this
      ensures out == old(out) + [Packet(peer, SendBytes(code, Some(Body(mime, text)), |text|))]
    {
      SendData(peer, code, Some(Body(mime, text)), |text|);
    }

    /** httpd_send(pEspconn, responseCode, pMime, pData, lData): one send of the header and lData body bytes. */
    method SendData(peer: Peer, code: uint32, body: Option<Body>, lData: uint32)
      requires body.Some? ==> lData <= |body.value.data|
      requires HeadFits(code, lData, if body.Some? then Some(body.value.mime) else None)
      modifies this
      ensures out == old(out) + [Packet(peer, SendBytes(code, body, lData))]
    {
      out := out + [Packet(peer, SendBytes(code, body, lData))];
    }
  }

  // ---------------------------------------------------------------- properties

  /** A connection never takes a slot in use that has not expired: those slots keep their contents. */
  lemma ConnectKeepsLive(ss: seq<HttpRequest>, peer: Peer, now: uint32)
    ensures forall j :: 0 <= j < |ss| && !Avail(ss[j], now) ==> Connected(ss, peer, now)[j] == ss[j]
    ensures FirstAvail(ss, now) == NOT_FOUND <==> forall j :: 0 <= j < |ss| ==> !Avail(ss[j], now)
    ensures FirstAvail(ss, now) == NOT_FOUND ==> Connected(ss, peer, now) == ss
    ensures FirstAvail(ss, now) != NOT_FOUND ==> Connected(ss, peer, now)[FirstAvail(ss, now)] == Bound(peer, now)
  {
  }

  /** A released slot is available again at any time, and only the peer's first slot changes. */
  lemma DisconFrees(ss: seq<HttpRequest>, peer: Peer, now: uint32)
    requires FirstPeer(ss, peer) != NOT_FOUND
    ensures var k := FirstPeer(ss, peer);
      Avail(Disconnected(ss, peer)[k], now) &&
      forall j :: 0 <= j < |ss| && j != k ==> Disconnected(ss, peer)[j] == ss[j]
  {
  }

  /**
    A connection that finds a slot, then its disconnection, with no earlier
    slot bound to the same peer: the slot it took is free again and no other
    slot changed.
  */
  lemma ConnectThenDiscon(ss: seq<HttpRequest>, peer: Peer, now: uint32)
    requires FirstAvail(ss, now) != NOT_FOUND
    requires forall j :: 0 <= j < FirstAvail(ss, now) ==> ss[j].remote != peer
    ensures var k := FirstAvail(ss, now);
      Disconnected(Connected(ss, peer, now), peer) == ss[k := Released(Bound(peer, now))]
  {
    var k := FirstAvail(ss, now);
    var c := Connected(ss, peer, now);
    assert c == ss[k := Bound(peer, now)];
    assert c[k].remote == peer;
    assert forall j :: 0 <= j < k ==> c[j] == ss[j];
    assert FirstPeer(c, peer) == k;
  }

  /** The fields httpd_recv keeps while lines without Content-Length are scanned. */
  lemma {:induction false} NoLengthLines(h: HeaderFields, ls: seq<string>)
    requires forall i :: 0 <= i < |ls| ==> !StartsWith(ls[i], CONTENT_LENGTH)
    ensures ApplyLines(h, ls).lenData == h.lenData
    decreases ls
  {
    if ls != [] {
      NoLengthLines(ApplyLine(h, ls[0]), ls[1..]);
    }
  }

  /**
    A well-formed request without a Content-Length line, on a freshly
    connected slot, is routed as soon as its header chunk arrives: the router
    sees its method and URI, and nothing of its body is stored.
  */
  lemma HeaderOnlyDispatches(ss: seq<HttpRequest>, routes: seq<HttpRoute>, peer: Peer, now: uint32,
                             m: HttpMethod, uri: string, version: string, ls: seq<string>, body: string,
                             fs: Storage, app: App)
    requires TableOk(routes) && StorageOk(fs) && AllOk(ss)
    requires FirstPeer(ss, peer) != NOT_FOUND && ss[FirstPeer(ss, peer)] == Bound(peer, now)
    requires m in {HttpGet, HttpPost, HttpPut, HttpPatch, HttpDelete}
    requires ' ' !in uri && '\r' !in uri
    requires version != [] && ' ' !in version && '\r' !in version
    requires forall i :: 0 <= i < |ls| ==> FieldLine(ls[i]) && !StartsWith(ls[i], CONTENT_LENGTH)
    requires '\r' !in body
    requires RecvOk(ss, peer, RequestText(m, uri, version, ls, body))
    ensures var k := FirstPeer(ss, peer);
      var auth := ApplyLines(HeaderFields(0, None), ls).auth;
      var o := Dispatch(routes, 0, Bound(peer, now).(httpMethod := m, uri := Some(uri), auth := auth), fs, app);
      RecvEvent(ss, routes, peer, RequestText(m, uri, version, ls, body), fs, app) == (ss[k := o.req], o.sent)
  {
    var k := FirstPeer(ss, peer);
    ReadRequest(ss[k], m, uri, version, ls, body);
    NoLengthLines(HeaderFields(0, None), ls);
  }

  /**
    A POST of "/test" with no body, on a fresh slot: the header chunk alone
    dispatches (lenSoFar == lenData == 0) with no body buffer. EmptyPostRoute
    takes that slot to the demonstration table's cgiPost entry, whose handler
    asks for a body parse. The source runs that parse outside
    Params.ParamsOk, taking `strlen` of the null body; the corrected parse
    gives no parameters.
  */
  lemma EmptyPostUndefined(peer: Peer, now: uint32)
    ensures var chunk := RequestText(HttpPost, "/test", "HTTP/1.0", [], "");
      var r := Bound(peer, now).(httpMethod := HttpPost, uri := Some("/test"));
      SlotRecvOk(Bound(peer, now), chunk) && RecvSlot(Bound(peer, now), chunk) == Some(r) &&
      r.lenSoFar == r.lenData == 0 && r.data.None? &&
      !Params.ParamsOk(r, HttpData) && Params.ParamsStep(r, HttpData) == r.(args := [])
  {
    EmptyPostHeader(peer, now);
    var r := Bound(peer, now).(httpMethod := HttpPost, uri := Some("/test"));
    Params.MissingBodyNoParams(r);
  }

  /** The header chunk "POST /test HTTP/1.0" CRLF CRLF on a fresh slot sets the method and the URI, and nothing else. */
  lemma EmptyPostHeader(peer: Peer, now: uint32)
    ensures var chunk := RequestText(HttpPost, "/test", "HTTP/1.0", [], "");
      SlotRecvOk(Bound(peer, now), chunk) &&
      RecvSlot(Bound(peer, now), chunk) == Some(Bound(peer, now).(httpMethod := HttpPost, uri := Some("/test")))
  {
    assert ' ' !in "/test" && '\r' !in "/test";
    assert ' ' !in "HTTP/1.0" && '\r' !in "HTTP/1.0";
    ReadRequest(Bound(peer, now), HttpPost, "/test", "HTTP/1.0", [], "");
  }

  /** A POST of "/test" passes over the first three entries of the demonstration table and matches the fourth. */
  lemma EmptyPostRoute(r: HttpRequest)
    requires r.httpMethod == HttpPost && r.uri == Some("/test")
    ensures TableOk(TestRoutes) && Skips(TestRoutes, 0, 3, r) && Matches(TestRoutes[3], r)
  {
    TestTableOk();
    assert TestRoutes[0].uri[1] != "/test"[1];
    assert TestRoutes[1].uri[1] != "/test"[1];
  }
}
