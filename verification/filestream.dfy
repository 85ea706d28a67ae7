/**
  httpd_fileHandler and the part of httpd_sent that re-enters it. The first
  call on a request sends the 200 header with the file size and puts the
  slot in phase HttpSending; every later call (one per sent event) sends the
  next chunk of at most FILE_BUFFER_SIZE bytes, read at offset lenSoFar, and
  adds its length to lenSoFar. Once lenSoFar reaches lenData the next sent
  event frees the slot.
*/
module FileStream {
  import opened Wrappers
  import opened CStrings
  import opened HttpdTypes
  import opened Tables
  import opened Response

  /** What a route handler did: whether it took the request, the slot as it left it, and the bytes it sent. */
  datatype Handled = Handled(ok: bool, req: HttpRequest, sent: seq<string>)

  /** What one event did to a slot: the slot afterwards and the bytes sent. */
  datatype Event = Event(req: HttpRequest, sent: seq<string>)

  /** The path served: the route's argument when it has one, else the request URI; "/" is the directory listing. */
  function FilePath(req: HttpRequest, arg: Option<string>): string
    requires arg.Some? || req.uri.Some?
  {
    var uri := if arg.Some? then arg.value else req.uri.value;
    if uri == "/" then "/dirlist.htm" else uri
  }

  /** lenToSend: the unsigned difference lenData - lenSoFar, cut to FILE_BUFFER_SIZE. */
  function ChunkLen(lenData: uint32, lenSoFar: uint32): (n: nat)
    ensures n <= FILE_BUFFER_SIZE
  {
    var left := (lenData - lenSoFar) % TWO_32;
    if left > FILE_BUFFER_SIZE then FILE_BUFFER_SIZE else left
  }

  /** f.seek(off) and f.readBytes(buf, n): the file's bytes from off, as many as there are, in a buffer of n bytes. */
  function ReadAt(file: string, off: nat, n: nat): (r: string)
    ensures |r| == n
    ensures off + n <= |file| ==> r == file[off..off + n]
  {
    Resize(if off <= |file| then file[off..] else [], n)
  }

  /**
    httpd_fileHandler. A path missing from storage (absent, not openable, or
    storage not mounted) is not handled and nothing changes. Otherwise the
    first call sends the header and enters HttpSending with lenData the file
    size and lenSoFar 0; a call with everything sent sends nothing; any
    other call sends the next chunk.
  */
  function FileStep(req: HttpRequest, arg: Option<string>, fs: Storage): (r: Handled)
    requires arg.Some? || req.uri.Some?
    requires StorageOk(fs)
    ensures r.req == req.(httpMethod := r.req.httpMethod, lenData := r.req.lenData, lenSoFar := r.req.lenSoFar)
    ensures r.ok <==> FilePath(req, arg) in fs
    ensures !r.ok ==> r.req == req && r.sent == []
    ensures r.ok ==> r.req.httpMethod == HttpSending && |r.sent| <= 1
  {
    var path := FilePath(req, arg);
    if path !in fs then Handled(false, req, [])
    else
      var file := fs[path];
      if req.httpMethod != HttpSending then
        Handled(true, req.(httpMethod := HttpSending, lenData := |file|, lenSoFar := 0),
                [FileHead(|file|, Mimetype(path))])
      else if req.lenSoFar == req.lenData then Handled(true, req, [])
      else
        var n := ChunkLen(req.lenData, req.lenSoFar);
        Handled(true, req.(lenSoFar := (req.lenSoFar + n) % TWO_32), [ReadAt(file, req.lenSoFar, n)])
  }

  /** A slot in phase HttpSending has a URI (the file handler re-reads the path from it). */
  predicate SendingOk(req: HttpRequest) {
    req.httpMethod == HttpSending ==> req.uri.Some?
  }

  /**
    httpd_sent on a slot: while lenSoFar < lenData the file handler runs
    again (without a route argument); after that the slot is freed. Slots in
    other phases are left alone.
  */
  function SentStep(req: HttpRequest, fs: Storage): (r: Event)
    requires SendingOk(req) && StorageOk(fs)
    ensures r.req.uri == req.uri && SendingOk(r.req)
    ensures req.httpMethod != HttpSending ==> r == Event(req, [])
  {
    if req.httpMethod != HttpSending then Event(req, [])
    else if req.lenSoFar < req.lenData then
      var h := FileStep(req, None, fs);
      Event(h.req, h.sent)
    else Event(req.(httpMethod := HttpNone), [])
  }

  /** k sent events one after another. */
  function SentSteps(req: HttpRequest, fs: Storage, k: nat): (r: Event)
    requires SendingOk(req) && StorageOk(fs)
    ensures SendingOk(r.req)
    decreases k
  {
    if k == 0 then Event(req, [])
    else
      var e := SentStep(req, fs);
      var rest := SentSteps(e.req, fs, k - 1);
      Event(rest.req, e.sent + rest.sent)
  }

  /** Bytes cut into FILE_BUFFER_SIZE pieces; only the last may be shorter, none is empty. */
  function Chunks(t: string): (r: seq<string>)
    ensures Concat(r) == t
    ensures forall i :: 0 <= i < |r| ==> 0 < |r[i]| <= FILE_BUFFER_SIZE
    ensures forall i :: 0 <= i < |r| - 1 ==> |r[i]| == FILE_BUFFER_SIZE
    decreases |t|
  {
    if t == [] then []
    else if |t| <= FILE_BUFFER_SIZE then [t]
    else
      var rest := Chunks(t[FILE_BUFFER_SIZE..]);
      assert t == t[..FILE_BUFFER_SIZE] + t[FILE_BUFFER_SIZE..];
      [t[..FILE_BUFFER_SIZE]] + rest
  }

  // ---------------------------------------------------------------- properties

  /**
    A call of the file handler never takes lenSoFar past lenData, and while
    a file is being sent each call that finds it adds min(lenData - lenSoFar,
    FILE_BUFFER_SIZE) to lenSoFar.
  */
  lemma FileStepBound(req: HttpRequest, arg: Option<string>, fs: Storage)
    requires arg.Some? || req.uri.Some?
    requires StorageOk(fs) && req.lenSoFar <= req.lenData
    ensures var r := FileStep(req, arg, fs).req; r.lenSoFar <= r.lenData
    ensures req.httpMethod == HttpSending && req.lenSoFar < req.lenData && FilePath(req, arg) in fs ==>
      FileStep(req, arg, fs).req.lenSoFar
        == req.lenSoFar + (if req.lenData - req.lenSoFar > FILE_BUFFER_SIZE then FILE_BUFFER_SIZE else req.lenData - req.lenSoFar)
  {
  }

  /**
    From any point of a file's transfer (lenData its size), as many sent
    events as there are chunks left send exactly those chunks, in order, and
    leave lenSoFar at lenData.
  */
  lemma {:induction false} StreamsRest(req: HttpRequest, fs: Storage, file: string)
    requires StorageOk(fs) && req.httpMethod == HttpSending && req.uri.Some?
    requires FilePath(req, None) in fs && fs[FilePath(req, None)] == file
    requires req.lenData == |file| && req.lenSoFar <= |file|
    ensures var e := SentSteps(req, fs, |Chunks(file[req.lenSoFar..])|);
      e.sent == Chunks(file[req.lenSoFar..]) && e.req == req.(lenSoFar := req.lenData)
    decreases |file| - req.lenSoFar
  {
    var s := req.lenSoFar;
    if s < |file| {
      var n := ChunkLen(req.lenData, s);
      var s' := s + n;
      var next := req.(lenSoFar := s');
      assert SentStep(req, fs) == Event(next, [file[s..s']]);
      ChunksFront(file, s, n, s');
      StreamsRest(next, fs, file);
    } else {
      assert file[s..] == [];
    }
  }

  /** The chunks from offset s: the next chunk is the n bytes at s, then the chunks from s + n. */
  lemma ChunksFront(file: string, s: nat, n: nat, s': nat)
    requires s < |file| && s' == s + n
    requires n == (if |file| - s > FILE_BUFFER_SIZE then FILE_BUFFER_SIZE else |file| - s)
    ensures Chunks(file[s..]) == [file[s..s']] + Chunks(file[s'..])
  {
    var t := file[s..];
    assert t[..n] == file[s..s'];
    DropDrop(file, s, n, s');
    if n == |t| {
      assert file[s'..] == [];
    }
  }

  /** Sent events run in two stretches are the same as one run. */
  lemma {:induction false} SentStepsSplit(req: HttpRequest, fs: Storage, a: nat, b: nat)
    requires SendingOk(req) && StorageOk(fs)
    ensures var first := SentSteps(req, fs, a);
      var second := SentSteps(first.req, fs, b);
      SentSteps(req, fs, a + b) == Event(second.req, first.sent + second.sent)
    decreases a
  {
    if a > 0 {
      var e := SentStep(req, fs);
      SentStepsSplit(e.req, fs, a - 1, b);
      var first := SentSteps(e.req, fs, a - 1);
      var second := SentSteps(first.req, fs, b);
      Assoc(e.sent, first.sent, second.sent);
    }
  }

  /**
    A file served from the start: the handler sends the 200 header; then, one
    sent event per chunk, the file's bytes go out in FILE_BUFFER_SIZE chunks
    whose concatenation is the file; the next sent event frees the slot.
  */
  lemma ServeFile(req: HttpRequest, fs: Storage)
    requires StorageOk(fs) && req.uri.Some? && req.httpMethod != HttpSending
    requires FilePath(req, None) in fs
    ensures var path := FilePath(req, None); var file := fs[path];
      var first := FileStep(req, None, fs);
      var rest := SentSteps(first.req, fs, |Chunks(file)| + 1);
      first.sent == [FileHead(|file|, Mimetype(path))] &&
      rest.sent == Chunks(file) && Concat(rest.sent) == file &&
      rest.req == req.(httpMethod := HttpNone, lenData := |file|, lenSoFar := |file|)
  {
    var path := FilePath(req, None);
    var file := fs[path];
    var first := FileStep(req, None, fs);
    assert file[first.req.lenSoFar..] == file;
    StreamsRest(first.req, fs, file);
    SentStepsSplit(first.req, fs, |Chunks(file)|, 1);
    var done := SentSteps(first.req, fs, |Chunks(file)|);
    assert SentSteps(done.req, fs, 1) == Event(done.req.(httpMethod := HttpNone), []);
    assert Chunks(file) + [] == Chunks(file);
  }

  /** The header the file handler sends always fits its 128-byte buffer: every MIME type of the table is short. */
  lemma FileHeaderFits(req: HttpRequest, arg: Option<string>, fs: Storage)
    requires arg.Some? || req.uri.Some?
    requires StorageOk(fs) && req.httpMethod != HttpSending && FilePath(req, arg) in fs
    ensures var h := FileStep(req, arg, fs);
      h.sent == [FileHead(|fs[FilePath(req, arg)]|, Mimetype(FilePath(req, arg)))] && |h.sent[0]| < 128
  {
    var path := FilePath(req, arg);
    FileHeadFits(|fs[path]|, Mimetype(path));
  }

  /** A 3000-byte file leaves as 1400, 1400 and 200 bytes. */
  lemma ThreeThousandBytes(file: string)
    requires |file| == 3000
    ensures |Chunks(file)| == 3
    ensures |Chunks(file)[0]| == 1400 && |Chunks(file)[1]| == 1400 && |Chunks(file)[2]| == 200
  {
    var r1 := file[1400..];
    var r2 := r1[1400..];
    assert Chunks(r2) == [r2];
    assert Chunks(r1) == [r1[..1400]] + Chunks(r2);
    assert Chunks(file) == [file[..1400]] + Chunks(r1);
  }
}
