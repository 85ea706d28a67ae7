# esp_httpd engine, modelled in Dafny

This project models the HTTP/1.0 engine of esp_httpd (`lib/esp_httpd/esp_httpd.cpp`). esp_httpd is a
small web server for the ESP8266 that is driven by callbacks from the TCP stack. The engine keeps a pool
of four connection slots (`httpd_requests`). Each slot's method field doubles as its phase:

- free (`HTTP_NONE`);
- connected and waiting for the header (`HTTP_ANY`);
- collecting the body (`HTTP_GET` … `HTTP_DELETE`);
- streaming a file (`HTTP_SENDING`).

The engine handles these events and operations:

- **Connect.** A connect event binds the first free or expired slot.
- **Receive.** A receive event parses the Request-Line and the `Content-Length` and `Authorization` header
  lines of the first chunk, then collects body chunks. Once `lenSoFar == lenData` it runs the router.
- **Route.** The router scans the route table for the first entry whose method and URI pattern match and
  whose handler accepts the request. A scan that reaches the end of the table sends a built-in 404.
- **Serve a file.** The file handler sends a 200 header and then, one sent event at a time, the file in
  1400-byte chunks. The sent event after the last chunk frees the slot.
- **Parse parameters.** `httpd_parseParams` splits `key=value&…` parameters out of the URI's query or
  out of the body.
- **Send.** `httpd_send` builds a response header in a 256-byte buffer and sends the header and body.

## How the model is organised

| module | file | contents |
|---|---|---|
| `CStrings` | `cstrings.dfy` | C strings as `string`: `strchr`, `strrchr`, `strstr(.., "\r\n")`, `strlen` on a buffer, `atoi` (newlib, saturating at 32 bits), `%d`, unsigned 32-bit wrap-around. |
| `HttpdTypes` | `types.dfy` | The records `HttpRequest` (a slot) and `HttpRoute`, the constants, peers, storage and packets. |
| `Tables` | `tables.dfy` | The status reasons, the MIME table and the method names. |
| `Response` | `response.dfy` | The bytes of `httpd_send` and of the file handler's header, and how a client reads them back. |
| `RequestParser` | `request.dfy` | The header and body branches of `httpd_recv`. |
| `Params` | `params.dfy` | `httpd_parseParams`, both as the method that follows the source statement by statement and as a function over segments. |
| `FileStream` | `filestream.dfy` | `httpd_fileHandler` and the part of `httpd_sent` that streams a file. |
| `Router` | `router.dfy` | `httpd_router`: the scanning loop as a method, proved equal to a recursive `Dispatch`. |
| `Httpd` | `server.dfy` | The slot pool as a class `Server` over an `array<HttpRequest>`, with one method per event. Also the event functions it is proved against, and the lemmas about the pool. |

Conventions:

- One Dafny `char` stands for one C `char`, and `None` stands for a null pointer.
- Every `espconn_send` appends a `Packet(peer, bytes)` to the ghost log `Server.out`.
- The current time (`millis()`), the file system (a `map` from path to contents) and the application's
  route handlers (`App`) are parameters of the events that use them.

## Model

| member | source | states |
|---|---|---|
| CStrings.ToU32 | lib/esp_httpd/esp_httpd.cpp:184 | Assigning an int to a `uint` field reduces it modulo 2^32: a value that is already in range is kept, and a negative 32-bit value gains 2^32. |
| CStrings.Signed32 | lib/esp_httpd/esp_httpd.cpp:327-333 | `%d` of a `uint` prints a signed 32-bit value whose bits, converted back, are the uint. |
| CStrings.CStr | lib/esp_httpd/esp_httpd.cpp:470 | What `strlen` sees of a buffer: a NUL-free prefix that ends at the first NUL or at the end. |
| CStrings.Resize | lib/esp_httpd/esp_httpd.cpp:204-210 | A buffer grown or shrunk to n bytes keeps its first bytes. |
| CStrings.IndexOf | lib/esp_httpd/esp_httpd.cpp:144 | `strchr` returns the first position of the character, or nothing when it is absent. |
| CStrings.LastIndexOf | lib/esp_httpd/esp_httpd.cpp:522 | `strrchr` returns the last position of the character, or nothing when it is absent. |
| CStrings.FindCrlfFirst | lib/esp_httpd/esp_httpd.cpp:177-178 | `strstr(.., "\r\n")` finds the first CRLF, and finds nothing only when there is none. |
| CStrings.AtoiOfIntToString | lib/esp_httpd/esp_httpd.cpp:184 | `atoi` reads back any int that `%d` printed, after any leading white space and before any non-digit. |
| CStrings.UintRoundTrip | lib/esp_httpd/esp_httpd.cpp:184 | A uint printed with `%d` and read with `atoi` into a `uint` comes back unchanged. |
| CStrings.AtoiStopsAtCr | lib/esp_httpd/esp_httpd.cpp:182-185 | A value that `atoi` reads from a header line does not depend on the CRLF and the lines that follow it. |
| Tables.ResponseCodeToString | lib/esp_httpd/esp_httpd.cpp:509-519 | A reason phrase is never empty, has no NUL and no CR, and is at most 21 bytes. |
| Tables.ReasonPhrases | lib/esp_httpd/esp_httpd.cpp:509-519 | Codes 200, 404 and 500, and only those, have their own phrase. Every other code is "Unknown Error". |
| Tables.Mimetype | lib/esp_httpd/esp_httpd.cpp:521-536 | The type is one of the table's seven, at most 22 bytes long, and a path without '.' gets text/plain. |
| Tables.MimetypeOfSuffix | lib/esp_httpd/esp_httpd.cpp:522-535 | Any path ending in ".ext", where ext has no dot, gets the type the table lists for ext. |
| Tables.MimetypeFollowsLastDot | lib/esp_httpd/esp_httpd.cpp:522-529 | The last '.' decides the type even when it is inside a directory name. |
| Tables.MethodToString | lib/esp_httpd/esp_httpd.cpp:542-558 | A method name is never empty and has no space and no NUL. |
| Response.ResponseFraming | lib/esp_httpd/esp_httpd.cpp:318-353 | A client that reads lines up to the empty line gets back exactly the header lines `httpd_send` wrote. The 404 and no-body form has four lines and the body form seven, and the body is the first lData bytes of the data. |
| Response.StatusLineCode | lib/esp_httpd/esp_httpd.cpp:327-333 | The Status-Line carries the code and its reason, and `atoi` reads the code back. |
| Response.LengthLineValue | lib/esp_httpd/esp_httpd.cpp:327-333 | The Content-Length line, read as the request parser reads it, gives back lData. |
| Response.HeadFitsShortMime | lib/esp_httpd/esp_httpd.cpp:323-340 | A header whose MIME type has at most 55 bytes fits `httphead[256]` with its terminating NUL, whatever the code and length are. |
| Response.FileHeadFraming | lib/esp_httpd/esp_httpd.cpp:388-406 | The file handler's header reads back as its four lines, carries the file size, and has no Access-Control-Allow-Origin line. |
| Response.FileHeadFits | lib/esp_httpd/esp_httpd.cpp:388-400 | The file handler's header fits its 128-byte buffer when the MIME type has at most 44 bytes. |
| RequestParser.ParseMethodPrefixes | lib/esp_httpd/esp_httpd.cpp:155-163 | Each method is recognised exactly when the chunk starts with its token. |
| RequestParser.MethodRoundTrip | lib/esp_httpd/esp_httpd.cpp:155-163 | A request that starts with a method's token is parsed as that method, whatever follows it. |
| RequestParser.PrefixMethod | lib/esp_httpd/esp_httpd.cpp:155 | The compare tests a prefix and is case-sensitive: "GETX" is GET and "get" is rejected. |
| RequestParser.ParseRequestLine | lib/esp_httpd/esp_httpd.cpp:144-173 | The two spaces are the first two spaces of the chunk. The URI is exactly the bytes between them, and the method is the parsed one. |
| RequestParser.RequestLineRejects | lib/esp_httpd/esp_httpd.cpp:144-163 | A chunk is rejected if and only if it has fewer than two spaces or starts with no known method. |
| RequestParser.ScanHeaderLines | lib/esp_httpd/esp_httpd.cpp:177-199 | The header loop gives the same fields as the line-by-line scan, starting from ptrFrom. |
| RequestParser.HeaderLine | lib/esp_httpd/esp_httpd.cpp:181-198 | A line that starts with neither "Content-Length:" nor "Authorization: " leaves the fields unchanged. |
| RequestParser.HeaderLineOfLine | lib/esp_httpd/esp_httpd.cpp:181-198 | One pass of the loop over one line does what that line alone does. |
| RequestParser.ScanHeaderBlock | lib/esp_httpd/esp_httpd.cpp:177-199 | The scan over the lines, the empty line and a CR-free body applies the lines in order, and the body changes nothing. |
| RequestParser.LastContentLengthWins | lib/esp_httpd/esp_httpd.cpp:182-185 | With two Content-Length lines the later one wins, and a Host line changes nothing. |
| RequestParser.HeaderStep | lib/esp_httpd/esp_httpd.cpp:140-199 | The header branch changes only the method, the URI, lenData and auth, and fails exactly when the Request-Line is rejected. |
| RequestParser.ReadRequest | lib/esp_httpd/esp_httpd.cpp:140-199 | A well-formed request gives its method and URI, with lenData and auth taken from its last Content-Length and Authorization lines. |
| RequestParser.BodyStep | lib/esp_httpd/esp_httpd.cpp:200-226 | The body branch changes only the data and lenSoFar. The buffer is lenSoFar bytes, ends with the chunk, and extends the buffer it had. |
| RequestParser.BodyCollects | lib/esp_httpd/esp_httpd.cpp:200-226 | Body chunks that add up to lenData leave exactly the earlier bytes followed by every chunk, with lenSoFar == lenData. |
| RequestParser.BodyAppends | lib/esp_httpd/esp_httpd.cpp:202-222 | One chunk after the bytes received so far appends it and adds its length to lenSoFar. |
| RequestParser.DispatchOnce | lib/esp_httpd/esp_httpd.cpp:230-236 | While the body arrives, lenSoFar == lenData holds after the last chunk only, so the router runs once. |
| Params.CountParams | lib/esp_httpd/esp_httpd.cpp:481-487 | The counting loop computes one plus the number of '&'s, wrapping in a uint8_t. |
| Params.SplitParams | lib/esp_httpd/esp_httpd.cpp:488-505 | The splitting loop yields the first c segments' parameters and leaves the buffer with those segments' '&'s and first '='s overwritten by NUL. |
| Params.SplitSegment | lib/esp_httpd/esp_httpd.cpp:489-504 | One round of the loop splits exactly the segment at its start and changes nothing else in the buffer. |
| Params.ParseParams | lib/esp_httpd/esp_httpd.cpp:459-507 | The method, statement by statement, computes ParamsStep. A missing body is read as an empty one (see Findings). |
| Params.ParamsStep | lib/esp_httpd/esp_httpd.cpp:459-507 | A query parse leaves the body alone and a body parse leaves the URI alone. In phase HttpAny the parse only clears the arguments. The argument count is below 256. |
| Params.MissingBodyNoParams | lib/esp_httpd/esp_httpd.cpp:469-470 | The corrected body parse reads a missing body exactly as an empty one: no parameters, and nothing else changes. |
| Params.ParseArgsSegments | lib/esp_httpd/esp_httpd.cpp:488-505 | While the count does not exceed the segments, the parameters are the first n '&'-segments, each split at its first '='. |
| Params.ParamListSegments | lib/esp_httpd/esp_httpd.cpp:475-505 | A non-empty text with fewer than 255 '&'s gives one parameter per segment. A text with 255 (mod 256) '&'s wraps the count to 0 and gives none. |
| Params.ParamListClean | lib/esp_httpd/esp_httpd.cpp:488-505 | Every parameter parsed has a key without '=' or '&' and a value without '&'. |
| Params.ParamListOfJoin | lib/esp_httpd/esp_httpd.cpp:475-505 | Between 1 and 255 clean parameters, written as `k=v&…`, parse back to themselves. |
| Params.OneParam | lib/esp_httpd/esp_httpd.cpp:475-505 | "a=1" gives the single parameter a=1. |
| Params.TwoParams | lib/esp_httpd/esp_httpd.cpp:475-505 | "a=1&b=2" gives a=1 and b=2. |
| Params.KeyWithoutValue | lib/esp_httpd/esp_httpd.cpp:493-503 | A segment without '=' is a key with an empty value. |
| Params.QueryParams | lib/esp_httpd/esp_httpd.cpp:464-468 | A query parse of "path?query" cuts the URI at the '?' and parses the query. |
| Params.QueryAbsent | lib/esp_httpd/esp_httpd.cpp:464-479 | A URI without '?' gives no parameters and is left as it is. |
| Params.BodyParams | lib/esp_httpd/esp_httpd.cpp:469-505 | A body parse gives one parameter per segment of the body's C string. Afterwards the body, read as a C string, is the first key. |
| Params.ToArgSplits | lib/esp_httpd/esp_httpd.cpp:493-503 | A segment splits at its first '=' into a key without '=', and the split joins back into the segment. |
| Params.ArgOfJoin | lib/esp_httpd/esp_httpd.cpp:493-503 | A parameter whose key has no '=', written as "key=value", splits back into itself. |
| Params.JoinSegments | lib/esp_httpd/esp_httpd.cpp:488-505 | The '&'-segments of a text, joined with '&', are the text. |
| Params.SegmentsOfJoin | lib/esp_httpd/esp_httpd.cpp:488-505 | Segments without '&', joined with '&', split back into the same segments. |
| FileStream.ChunkLen | lib/esp_httpd/esp_httpd.cpp:410-411 | A chunk is never longer than FILE_BUFFER_SIZE. |
| FileStream.ReadAt | lib/esp_httpd/esp_httpd.cpp:413-415 | A read inside the file returns exactly the bytes at the offset. |
| FileStream.FileStep | lib/esp_httpd/esp_httpd.cpp:359-422 | The handler accepts the request if and only if the path is in storage. When it refuses, nothing changes and nothing is sent. When it accepts, the slot is in HttpSending, at most one packet goes out, and only the phase and the two lengths change. |
| FileStream.SentStep | lib/esp_httpd/esp_httpd.cpp:252-262 | A sent event keeps the URI. It leaves slots that are not sending alone. |
| FileStream.FileStepBound | lib/esp_httpd/esp_httpd.cpp:409-418 | lenSoFar never passes lenData, and each chunk adds min(lenData - lenSoFar, 1400) to it. |
| FileStream.StreamsRest | lib/esp_httpd/esp_httpd.cpp:252-256 | From any point of a transfer, one sent event per remaining chunk sends exactly those chunks, in order, and ends with lenSoFar == lenData. |
| FileStream.ServeFile | lib/esp_httpd/esp_httpd.cpp:359-422 | A file served from the start sends the 200 header and then the file in 1400-byte chunks whose concatenation is the file. The sent event after the last chunk frees the slot. |
| FileStream.FileHeaderFits | lib/esp_httpd/esp_httpd.cpp:388-400 | The first call of the handler sends exactly the file header, which always fits the 128-byte buffer. |
| FileStream.ThreeThousandBytes | lib/esp_httpd/esp_httpd.cpp:409-418 | A 3000-byte file goes out as 1400, 1400 and 200 bytes. |
| Router.Handle | lib/esp_httpd/esp_httpd.cpp:296 | The handler gets the slot by reference. The file handler keeps its URI, and an application handler may change any field, its URI included. Every handler leaves a URI on the slot, so a sending slot always has one. |
| Router.Dispatch | lib/esp_httpd/esp_httpd.cpp:277-308 | The request the scan leaves has a URI. Handlers that return false pass the request on as they left it, so later entries are matched against a rewritten URI. |
| Router.RouteRequest | lib/esp_httpd/esp_httpd.cpp:277-308 | The scanning loop and the 404 after it compute the recursive scan Dispatch from entry 0. |
| Router.DispatchStep | lib/esp_httpd/esp_httpd.cpp:284-299 | An entry that does not match is passed over. A matching handler that returns true ends the scan. One that returns false puts its bytes in front of the rest of the scan. |
| Router.NotFoundLast | lib/esp_httpd/esp_httpd.cpp:302-307 | A scan that ends in the built-in 404 sends it last. |
| Router.DispatchSkips | lib/esp_httpd/esp_httpd.cpp:284-299 | A stretch of entries that do not match is passed over without any handler being called. |
| Router.FirstMatchWins | lib/esp_httpd/esp_httpd.cpp:284-299 | After entries that do not match, the scan ends in the 404 at the terminator, or the first matching entry whose handler returns true decides the outcome. |
| Router.WildcardIsPrefix | lib/esp_httpd/esp_httpd.cpp:290-292 | A pattern "stem*" matches exactly the URIs that start with stem. |
| Router.LiteralIsEquality | lib/esp_httpd/esp_httpd.cpp:288-292 | A pattern that does not end in '*' matches only the identical URI. |
| Router.TestPatterns | src/esp_httpd_test.cpp:20-22 | The literal pattern "/static" matches "/static" but not "/static/x". The pattern "/test?*" matches "/test?a=1" and "/test?" but not "/test". |
| Router.TestGetQuery | src/esp_httpd_test.cpp:91-93 | In the demonstration table, a GET of "/test?a=1" reaches cgiGet, which parses the query. The slot the router leaves has the URI "/test" and the parameter a=1. |
| Router.TestPostElsewhere | src/esp_httpd_test.cpp:18-27 | In the demonstration table, a POST to an unlisted URI gets the 404 whatever the handlers do. |
| Router.TestMissingFile | src/esp_httpd_test.cpp:18-27 | In the demonstration table, a GET of a file that is not in storage falls through to the catch-all file handler and then to the 404. |
| Httpd.FirstAvail | lib/esp_httpd/esp_httpd.cpp:51-58 | The result is the lowest free or expired slot, and NOT_FOUND means there is no such slot. |
| Httpd.FirstPeer | lib/esp_httpd/esp_httpd.cpp:86-95 | The result is the lowest slot bound to the peer, and NOT_FOUND means there is none. |
| Httpd.RecvSlot | lib/esp_httpd/esp_httpd.cpp:140-226 | Receiving a chunk keeps "every phase past HttpAny has a URI", and a slot that is about to dispatch has a URI. |
| Httpd.RecvEvent | lib/esp_httpd/esp_httpd.cpp:127-237 | A receive event keeps the pool's size and its invariant. |
| Httpd.SlotRecv | lib/esp_httpd/esp_httpd.cpp:140-236 | Receiving on a slot keeps the pool's size and its invariant. |
| Httpd.Delivered | lib/esp_httpd/esp_httpd.cpp:230-236 | Running the router, or waiting for more data, keeps the slot invariant. |
| Httpd.ReceiveSlot | lib/esp_httpd/esp_httpd.cpp:140-226 | The header and body branches, statement by statement, compute RecvSlot. They change nothing exactly when a header chunk's Request-Line is rejected. |
| Httpd.Server.constructor | lib/esp_httpd/esp_httpd.cpp:17-23 | After init every slot is zero, which makes it free, and nothing has been sent. |
| Httpd.Server.FindAvailHttpReq | lib/esp_httpd/esp_httpd.cpp:51-58 | The loop computes FirstAvail, and a slot it returns is available. |
| Httpd.Server.FindHttpReq | lib/esp_httpd/esp_httpd.cpp:86-95 | The loop computes FirstPeer, and a slot it returns is bound to the peer. |
| Httpd.Server.Connect | lib/esp_httpd/esp_httpd.cpp:60-84 | The new pool is Connected(old pool), and the pool invariant holds. |
| Httpd.Server.Discon | lib/esp_httpd/esp_httpd.cpp:97-119 | The new pool is Disconnected(old pool), and the pool invariant holds. |
| Httpd.Server.Recv | lib/esp_httpd/esp_httpd.cpp:127-237 | The new pool and the packets sent to the peer are those of RecvEvent. |
| Httpd.Server.ReceiveAt | lib/esp_httpd/esp_httpd.cpp:140-236 | Once the peer's slot is found, the pool and the packets are those of SlotRecv. |
| Httpd.Server.Deliver | lib/esp_httpd/esp_httpd.cpp:230-236 | The slot and the packets are those of Delivered, and no other slot changes. |
| Httpd.Server.Router | lib/esp_httpd/esp_httpd.cpp:277-308 | The slot becomes the scan's request, the scan's bytes go to the peer, and no other slot changes. |
| Httpd.Server.Sent | lib/esp_httpd/esp_httpd.cpp:239-263 | An unknown peer changes nothing. Otherwise the peer's slot and its packets are those of SentStep. |
| Httpd.Server.FileHandler | lib/esp_httpd/esp_httpd.cpp:359-422 | The result, the slot and the packets are those of FileStep, and no other slot changes. |
| Httpd.Server.Send | lib/esp_httpd/esp_httpd.cpp:310-312 | One packet carries a header with no body. |
| Httpd.Server.SendText | lib/esp_httpd/esp_httpd.cpp:314-316 | One packet carries the header and all of the C string as the body. |
| Httpd.Server.SendData | lib/esp_httpd/esp_httpd.cpp:318-353 | One packet carries the header and the first lData bytes of the data. |
| Httpd.ConnectKeepsLive | lib/esp_httpd/esp_httpd.cpp:51-84 | A connect never touches a live slot that has not expired. It fails if and only if every slot is live, and then nothing changes. Otherwise the first available slot is bound to the peer. |
| Httpd.DisconFrees | lib/esp_httpd/esp_httpd.cpp:97-119 | A released slot is available again at any time, and no other slot changes. |
| Httpd.ConnectThenDiscon | lib/esp_httpd/esp_httpd.cpp:60-119 | A connect followed by a disconnect of the same peer leaves the pool as it was, except that the slot taken is released. |
| Httpd.NoLengthLines | lib/esp_httpd/esp_httpd.cpp:181-185 | Lines without Content-Length keep lenData. |
| Httpd.EmptyPostUndefined | lib/esp_httpd/esp_httpd.cpp:230-236 | A POST of "/test" with no body dispatches on its header chunk with lenSoFar == lenData == 0 and no body buffer, so a body parse of it lies outside Params.ParamsOk. |
| Httpd.EmptyPostRoute | src/esp_httpd_test.cpp:18-22 | In the demonstration table a POST of "/test" passes over the first three entries and matches cgiPost's. |
| Httpd.HeaderOnlyDispatches | lib/esp_httpd/esp_httpd.cpp:127-237 | On a freshly connected slot, a well-formed request without Content-Length is routed as soon as its header chunk arrives. The router sees the request's method and URI. |

## Left out

- The listener set-up of `httpd_init`, its reconnect and write-finish callbacks, and the espconn registration. They are I/O set-up with no logic of the engine in them.
- `httpd_dirHandler` is not part of this model. It depends on a SPIFFS directory iterator. In the demonstration table it is application handler 4.
- The debug dumps (`httpd_dumpHttpReq`, `httpd_dumpEspconn`) and every `SPF`/`SPN` trace are output only.
- Storage is a `map` from path to contents. A missing key covers a missing file, a file that does not open, and a storage that does not mount. `millis()` is a parameter.
- A failed `malloc` or `realloc` returns early in the source. The model assumes allocation succeeds, and it does not model freeing or leaks.
- Application route handlers are a parameter `App`. A handler returns whether it took the request, the request as it left it, and the bytes it sent. Router.AppOk requires every handler to leave a URI: when a handler returns false the source's router runs `strcmp` on that URI. What the handlers send and compute is not modelled.
- The two pointers per parameter (`key` and `value` into a shared buffer) are copies in `Arg`. A `connect` clears the arguments, whereas the source sets only `argCount` to 0 and leaves stale pointers behind.
- CStrings.Resize: bytes that `realloc` leaves indeterminate (a body chunk after the file handler moved lenSoFar) and the bytes of a file read past its end are NUL in the model. Through a C-string view they are unobservable.
- RequestParser.BodyStep: requires that lenSoFar + |chunk| + 1 stays below 2^32. Wrap-around of the 32-bit length in the source is not modelled.
- Httpd.Server.Recv: requires the chunk to have no NUL, because `strchr`, `strstr` and `strcpy` read it as a C string. It also requires a CRLF after the Request-Line, because `strstr(ptrFrom, ..)` with a null ptrFrom is undefined.
- Httpd.SlotRecvOk: excludes a free (`HTTP_NONE`) or released slot that receives data and then dispatches without a URI. The router's `strcmp` on a null URI crashes in the source.
- Httpd.Server.FileHandler: requires the slot to have a URI even when the route gives an argument.
- Httpd.Server.SendData and Httpd.Server.SendText: require the header to fit `httphead[256]`. The source's `sprintf` overflows the buffer otherwise. Response.HeadFitsShortMime shows the requirement holds for every MIME type of up to 55 bytes, so it holds for every type of the table.
- FileStream.SentStep: a re-entry from `httpd_sent` passes a null handler argument, so a route that served a file named by its argument continues with the file named by the request URI. The model follows the code.
- Router.Dispatch: TableOk requires the table to have at most 128 entries. The source's scan index is an `int8_t`, so a terminator past index 127 wraps the index to -128 and reads before the table. TableOk also requires a terminator at the end of the table and a non-empty pattern in every other entry. Without a terminator the source reads past the table. With an empty pattern its wildcard test reads the byte before the pattern.
- Params.ParamsStep: a body parse of a slot without a body gives no parameters. The source takes `strlen` of the null body there and crashes. Params.ParamsOk states what the source as written needs (see Findings).
- Tables.MethodToString: used only for diagnostics. It is kept because it gives the tokens MethodRoundTrip reads back.

## Findings

| source | as written | input that shows it | evidently intended | confidence | as-written member | corrected member |
|---|---|---|---|---|---|---|
| lib/esp_httpd/esp_httpd.cpp:469-470 | A body parse takes `strlen(httpd_request.data)` without testing for a null body. | `POST /test HTTP/1.0` CRLF CRLF on a fresh slot: the header chunk dispatches with `data == NULL`, and cgiPost (src/esp_httpd_test.cpp:117) asks for a body parse. | A missing body gives no parameters, as an empty one does. | high, not executed | Httpd.EmptyPostUndefined, Httpd.EmptyPostRoute (against Params.ParamsOk) | Params.ParamsStep, Params.MissingBodyNoParams |
