/**
  The records and constants of the server: the connection slot
  (HttpRequest), whose method field doubles as the slot's phase, the route
  table entry (HttpRoute) and the values that cross the engine's
  boundaries (peers, files, packets handed to the TCP stack).
*/
module HttpdTypes {
  import opened Wrappers
  import opened CStrings

  const MAX_HTTP_CONNECTIONS: nat := 4
  const CONNECTION_EXPIRE_MS: nat := 30000
  const FILE_BUFFER_SIZE: nat := 1400
  const NOT_FOUND: int := -1
  const HTTPD_SERVER: string := "ESP_httpd"

  /**
    The request method, and at the same time the phase of a slot:
    HttpNone = free, HttpAny = connected and waiting for the header,
    HttpGet .. HttpDelete = collecting the body, HttpSending = streaming a file.
  */
  datatype HttpMethod = HttpNone | HttpAny | HttpGet | HttpPost | HttpPut | HttpPatch | HttpDelete | HttpSending

  /** Where httpd_parseParams looks: the query part of the URI or the body. */
  datatype ParamLocation = HttpQuery | HttpData

  /** One parsed parameter (the source keeps two views into a buffer; here they are copies). */
  datatype Arg = Arg(key: string, value: string)

  /** The remote end of a TCP connection: IPv4 address bytes and port. */
  datatype Peer = Peer(ip0: uint8, ip1: uint8, ip2: uint8, ip3: uint8, port: uint32)

  /**
    One connection slot. A `None` string is a null pointer. `data` is the
    whole body buffer, which may hold NUL bytes once parameters were split
    in it. `args` holds the first argCount parsed parameters, so argCount is
    |args| (a uint8 in the source; |args| < 256 is kept by every operation).
  */
  datatype HttpRequest = HttpRequest(
    remote: Peer,
    msLast: uint32,
    httpMethod: HttpMethod,
    uri: Option<string>,
    auth: Option<string>,
    lenData: uint32,
    lenSoFar: uint32,
    data: Option<string>,
    args: seq<Arg>)

  /** A slot as httpd_init leaves it: all zero bytes, so method HttpNone and null pointers. */
  const ZeroRequest: HttpRequest :=
    HttpRequest(Peer(0, 0, 0, 0, 0), 0, HttpNone, None, None, 0, 0, None, [])

  /**
    A route's handler: the library's own file handler, or an application
    handler identified by a number, whose behaviour is a parameter of the model.
  */
  datatype Handler = FileHandler | Responder(id: nat)

  /** A route table entry (the source field `method` is httpMethod here); an entry whose httpMethod is HttpNone ends the table. */
  datatype HttpRoute = HttpRoute(httpMethod: HttpMethod, uri: string, handler: Handler, handlerArg: Option<string>)

  /** The flash file system as the file handler sees it: a path is present and readable, or not. */
  type Storage = map<string, string>

  /** Files whose size fits the 32-bit length fields. */
  predicate StorageOk(fs: Storage) {
    forall p :: p in fs ==> |fs[p]| < TWO_32
  }

  /** One espconn_send call: the connection and the bytes handed to the TCP stack. */
  datatype Packet = Packet(to: Peer, bytes: string)

  /** The packets of one event, all for the same connection. */
  function ToPeer(peer: Peer, ps: seq<string>): (r: seq<Packet>)
    ensures |r| == |ps|
    ensures forall i :: 0 <= i < |ps| ==> r[i] == Packet(peer, ps[i])
  {
    if ps == [] then [] else [Packet(peer, ps[0])] + ToPeer(peer, ps[1..])
  }
}
