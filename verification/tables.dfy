/** The three lookup tables of the engine: status reasons, MIME types and method names. */
module Tables {
  import opened Wrappers
  import opened CStrings
  import opened HttpdTypes

  /** httpd_responseCodeToString. */
  function ResponseCodeToString(code: uint32): (r: string)
    ensures r != [] && NoNul(r) && '\r' !in r
    ensures |r| <= 21
  {
    match code
    case 200 => "OK"
    case 404 => "Not Found"
    case 500 => "Internal Server Error"
    case _ => "Unknown Error"
  }

  /** Only 200, 404 and 500 have a reason phrase of their own; every other code is "Unknown Error". */
  lemma ReasonPhrases(code: uint32)
    ensures ResponseCodeToString(code) == "OK" <==> code == 200
    ensures ResponseCodeToString(code) == "Not Found" <==> code == 404
    ensures ResponseCodeToString(code) == "Internal Server Error" <==> code == 500
    ensures ResponseCodeToString(code) == "Unknown Error" <==> code !in {200, 404, 500}
  {
  }

  /** The extension table of httpd_mimetype; unknown extensions fall back to text/plain. */
  function MimeOfExtension(ext: string): (r: string)
    ensures r != [] && NoNul(r) && '\r' !in r
  {
    if ext == "htm" then "text/html"
    else if ext == "css" then "text/css"
    else if ext == "jpg" then "image/jpeg"
    else if ext == "png" then "image/png"
    else if ext == "gif" then "image/gif"
    else if ext == "js" then "application/javascript"
    else "text/plain"
  }

  /**
    httpd_mimetype: the extension is whatever follows the LAST '.' anywhere
    in the path (strrchr), even a '.' in a directory name.
  */
  function Mimetype(path: string): (r: string)
    ensures r != [] && NoNul(r) && '\r' !in r
    ensures r in {"text/html", "text/css", "image/jpeg", "image/png", "image/gif",
                  "application/javascript", "text/plain"}
    ensures '.' !in path ==> r == "text/plain"
    ensures |r| <= 22
  {
    match LastIndexOf(path, '.')
    case None => "text/plain"
    case Some(i) => MimeOfExtension(path[i + 1..])
  }

  /** Any path that ends in ".ext", for an ext without a dot, gets the type the table gives ext. */
  lemma MimetypeOfSuffix(stem: string, ext: string)
    requires '.' !in ext
    ensures Mimetype(stem + "." + ext) == MimeOfExtension(ext)
  {
    var path := stem + "." + ext;
    var i := |stem|;
    assert path[i + 1..] == ext;
    forall j | i < j < |path| ensures path[j] != '.' {
      assert path[j] == ext[j - i - 1];
    }
    LastIndexOfAt(path, '.', i);
  }

  /** A '.' in a directory name with none after it decides the type (a quirk of strrchr). */
  lemma MimetypeFollowsLastDot()
    ensures Mimetype("/a.htm/b") == "text/plain"
    ensures Mimetype("/lib.v2/app.js") == "application/javascript"
  {
    var dir := "/a.htm/b";
    LastIndexOfAt(dir, '.', 2);
    assert dir[3..] == "htm/b";
    var file := "/lib.v2/app.js";
    LastIndexOfAt(file, '.', 11);
    assert file[12..] == "js";
  }

  /** httpd_methodToString (used for diagnostics). */
  function MethodToString(m: HttpMethod): (r: string)
    ensures r != [] && ' ' !in r && NoNul(r)
  {
    match m
    case HttpAny => "<any>"
    case HttpGet => "GET"
    case HttpPost => "POST"
    case HttpPut => "PUT"
    case HttpPatch => "PATCH"
    case HttpDelete => "DELETE"
    case _ => "Unknown"
  }
}
