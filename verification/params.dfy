/**
  httpd_parseParams: the query part of the URI, or the body, split on '&'
  into parameters and on the first '=' of each into key and value, with no
  percent or '+' decoding. The count is kept in a uint8_t, so 256 segments
  count as none. The split writes NULs into the buffer in place; for the
  body that is visible afterwards in `data`.
*/
module Params {
  import opened Wrappers
  import opened CStrings
  import opened HttpdTypes

  // ---------------------------------------------------------------- specification

  /** The parameter count as the source computes it: one more than the '&'s, in a uint8_t. */
  function ArgCount(t: string): uint8 {
    (1 + Count(t, '&')) % 256
  }

  /** A segment's key is the text before its first '=', its value the rest after that '=' ("" without one). */
  function ToArg(seg: string): Arg {
    match IndexOf(seg, '=')
    case None => Arg(seg, [])
    case Some(k) => Arg(seg[..k], seg[k + 1..])
  }

  /** The '&'-separated segments of a text. */
  function Segments(t: string): (r: seq<string>)
    ensures |r| == 1 + Count(t, '&')
    ensures forall i :: 0 <= i < |r| ==> Lacks(r[i], '&')
    decreases |t|
  {
    match IndexOf(t, '&')
    case None =>
      CountAbsent(t, '&');
      [t]
    case Some(a) =>
      CountAtFirst(t, '&', a);
      [t[..a]] + Segments(t[a + 1..])
  }

  /** Segments glued back together with '&'. */
  function JoinAmp(ss: seq<string>): (r: string)
    requires ss != []
    ensures ss[0] <= r
  {
    if |ss| == 1 then ss[0] else ss[0] + "&" + JoinAmp(ss[1..])
  }

  /** The parameters of segments. */
  function ToArgs(ss: seq<string>): (r: seq<Arg>)
    ensures |r| == |ss|
    ensures forall i :: 0 <= i < |ss| ==> r[i] == ToArg(ss[i])
  {
    if ss == [] then [] else [ToArg(ss[0])] + ToArgs(ss[1..])
  }

  /** The first n parameters of a text, taken segment by segment as the source's loop does. */
  function ParseArgs(t: string, n: nat): (r: seq<Arg>)
    ensures |r| <= n
    decreases n
  {
    if n == 0 then []
    else match IndexOf(t, '&')
      case None => [ToArg(t)]
      case Some(a) => [ToArg(t[..a])] + ParseArgs(t[a + 1..], n - 1)
  }

  /** The parameters the source produces from a non-empty text (none from an empty one). */
  function ParamList(t: string): seq<Arg> {
    if t == [] then [] else ParseArgs(t, ArgCount(t))
  }

  /** A segment with its first '=' overwritten by NUL. */
  function MarkEq(seg: string): (r: string)
    ensures |r| == |seg|
  {
    match IndexOf(seg, '=')
    case None => seg
    case Some(k) => seg[k := NUL]
  }

  /** The text after the first n segments were split: each ending '&' and each first '=' became NUL. */
  function SplitBuf(t: string, n: nat): (r: string)
    ensures |r| == |t|
    decreases n
  {
    if n == 0 then t
    else match IndexOf(t, '&')
      case None => MarkEq(t)
      case Some(a) => MarkEq(t[..a]) + [NUL] + SplitBuf(t[a + 1..], n - 1)
  }

  /** Where the segment at the front of a text ends: its first '&', or the end. */
  function SegEnd(rest: string): (r: nat)
    ensures r <= |rest|
  {
    match IndexOf(rest, '&')
    case None => |rest|
    case Some(a) => a
  }

  /** Where the next round starts: after the '&', or at the end when there is none. */
  function NextStart(text: string, start: nat): nat
    requires start <= |text|
  {
    var rest := text[start..];
    if SegEnd(rest) < |rest| then start + SegEnd(rest) + 1 else |text|
  }

  /** The segment at the front of a text as a round leaves it in the buffer. */
  function Piece(rest: string): string {
    if SegEnd(rest) < |rest| then MarkEq(rest[..SegEnd(rest)]) + [NUL] else MarkEq(rest)
  }

  /**
    What httpd_parseParams as written needs: the URI for a query parse, and
    for a body parse the body buffer, whose `strlen` it takes unguarded.
    A slot that dispatched without a body has none (see Findings).
  */
  predicate ParamsOk(req: HttpRequest, where: ParamLocation) {
    req.httpMethod != HttpAny ==>
      (where == HttpQuery ==> req.uri.Some?) && (where == HttpData ==> req.data.Some?)
  }

  /** What the corrected parse needs: the URI for a query parse. */
  predicate QueryOk(req: HttpRequest, where: ParamLocation) {
    req.httpMethod != HttpAny && where == HttpQuery ==> req.uri.Some?
  }

  /**
    The whole of httpd_parseParams on a slot. The parameters are cleared first;
    a connected slot without a request, a URI without '?' and an empty text
    leave none. A query parse cuts the URI at its first '?'; a body parse
    writes its NULs into `data`. A missing body is read as an empty one,
    where the source takes `strlen` of a null pointer (see Findings).
  */
  function ParamsStep(req: HttpRequest, where: ParamLocation): (r: HttpRequest)
    requires QueryOk(req, where)
    ensures r == req.(uri := r.uri, data := r.data, args := r.args)
    ensures req.httpMethod == HttpAny ==> r == req.(args := [])
    ensures where == HttpQuery ==> r.data == req.data
    ensures where == HttpData ==> r.uri == req.uri
    ensures r.data.Some? ==> req.data.Some? && |r.data.value| == |req.data.value|
    ensures |r.args| < 256
  {
    if req.httpMethod == HttpAny then req.(args := [])
    else if where == HttpQuery then
      var u := req.uri.value;
      match IndexOf(u, '?')
      case None => req.(args := [])
      case Some(q) =>
        req.(uri := Some(u[..q]), args := ParamList(u[q + 1..]))
    else if req.data.None? then req.(args := [])
    else
      var buf := req.data.value;
      var t := CStr(buf);
      if t == [] then req.(args := [])
      else
        req.(data := Some(SplitBuf(t, ArgCount(t)) + buf[|t|..]), args := ParamList(t))
  }

  // ---------------------------------------------------------------- the operation

  /** The counting loop: one plus the '&'s, wrapping in a uint8_t. */
  method CountParams(t: string) returns (c: uint8)
    ensures c == ArgCount(t)
  {
    c := 1;
    var i := 0;
    while i < |t|
      invariant i <= |t|
      invariant c == (1 + Count(t[..i], '&')) % 256
    {
      CountSnoc(t, i);
      if t[i] == '&' {
        c := (c + 1) % 256;
      }
      i := i + 1;
    }
    assert t[..i] == t;
  }

  /**
    The splitting loop: c rounds, each taking the segment at the current start,
    NUL-ing its ending '&' and its first '=' when that comes before the '&'.
  */
  method SplitParams(text: string, c: uint8) returns (args: seq<Arg>, buf: string)
    requires c <= 1 + Count(text, '&')
    ensures args == ParseArgs(text, c)
    ensures buf == SplitBuf(text, c)
  {
    args, buf := [], text;
    var start: nat := 0;
    Started(text, c);
    for i := 0 to c
      invariant Progress(text, c, i, start, args, buf)
    {
      var arg, out, next := SplitSegment(text, start, buf);
      Round(text, start, next, c, i, args, arg, buf, out);
      args, buf, start := args + [arg], out, next;
    }
    Finished(text, c, start, args, buf);
  }

  /**
    One round of the loop: the segment at `start` (up to the next '&' or the
    end) becomes a parameter, and its '&' and its first '=' are overwritten by NUL.
  */
  method SplitSegment(text: string, start: nat, buf: string) returns (arg: Arg, out: string, next: nat)
    requires start <= |text| && |buf| == |text| && buf[start..] == text[start..]
    ensures SegmentSplit(text, start, buf, arg, out, next)
  {
    var rest := text[start..];
    var eq := IndexOf(rest, '=');
    var amp := IndexOf(rest, '&');
    var end := if amp.Some? then amp.value else |rest|;
    out := buf;
    if amp.Some? {
      out := out[start + end := NUL];
    }
    ghost var cut := out;
    if eq.Some? && eq.value < end {
      out := out[start + eq.value := NUL];
      arg := Arg(rest[..eq.value], rest[eq.value + 1..end]);
    } else {
      arg := Arg(rest[..end], []);
    }
    if amp.Some? {
      next := start + end + 1;
      InnerDone(text, start, buf, cut, out, arg, end, next);
    } else {
      next := |text|;
      LastDone(text, start, buf, out, arg, next);
    }
  }

  /**
    What one round does: the parameter is the segment's, the next round
    starts after the segment's '&', and the buffer up to there holds the
    finished part followed by the marked segment, the rest still untouched.
  */
  ghost predicate SegmentSplit(text: string, start: nat, buf: string, arg: Arg, out: string, next: nat) {
    start <= |text| && |buf| == |text|
    && arg == ToArg(text[start..][..SegEnd(text[start..])])
    && next == NextStart(text, start) && |out| == |text|
    && out[..next] == buf[..start] + Piece(text[start..])
    && out[next..] == text[next..]
  }

  lemma InnerDone(text: string, start: nat, buf: string, cut: string, out: string, arg: Arg, end: nat, next: nat)
    requires start <= |text| && |buf| == |text| && buf[start..] == text[start..]
    requires IndexOf(text[start..], '&') == Some(end) && next == start + end + 1
    requires cut == buf[start + end := NUL]
    requires var e := IndexOf(text[start..], '=');
      out == (if e.Some? && e.value < end then cut[start + e.value := NUL] else cut)
    requires var e := IndexOf(text[start..], '='); var rest := text[start..];
      arg == (if e.Some? && e.value < end then Arg(rest[..e.value], rest[e.value + 1..end]) else Arg(rest[..end], []))
    ensures SegmentSplit(text, start, buf, arg, out, next)
  {
    var rest := text[start..];
    ArgOfSegment(rest, end);
    MarkInner(buf, cut, out, start, rest, end, next);
    DropDrop(text, start, end + 1, next);
  }

  lemma LastDone(text: string, start: nat, buf: string, out: string, arg: Arg, next: nat)
    requires start <= |text| && |buf| == |text| && buf[start..] == text[start..]
    requires IndexOf(text[start..], '&').None? && next == |text|
    requires var e := IndexOf(text[start..], '=');
      out == (if e.Some? && e.value < |text[start..]| then buf[start + e.value := NUL] else buf)
    requires var e := IndexOf(text[start..], '='); var rest := text[start..];
      arg == (if e.Some? && e.value < |rest| then Arg(rest[..e.value], rest[e.value + 1..|rest|]) else Arg(rest[..|rest|], []))
    ensures SegmentSplit(text, start, buf, arg, out, next)
  {
    var rest := text[start..];
    ArgOfSegment(rest, |rest|);
    MarkLast(buf, out, start, rest, next);
  }

  /** httpd_parseParams, statement by statement, with the missing body read as an empty one. */
  method ParseParams(req: HttpRequest, where: ParamLocation) returns (r: HttpRequest)
    requires QueryOk(req, where)
    ensures r == ParamsStep(req, where)
  {
    r := req.(args := []);
    if req.httpMethod == HttpAny {
      return;
    }
    var text;
    if where == HttpQuery {
      var u := req.uri.value;
      var q := IndexOf(u, '?');
      if q.None? {
        return;
      }
      r := r.(uri := Some(u[..q.value]));
      text := u[q.value + 1..];
    } else {
      if req.data.None? {
        return;
      }
      text := CStr(req.data.value);
      if |text| == 0 {
        return;
      }
    }
    if text == [] {
      return;
    }
    var c := CountParams(text);
    var args, buf := SplitParams(text, c);
    if where == HttpData {
      r := r.(data := Some(buf + req.data.value[|text|..]));
    }
    r := r.(args := args);
  }

  // ---------------------------------------------------------------- loop lemmas

  /** While the count does not wrap, the loop yields one parameter per counted segment. */
  lemma ParseArgsLength(t: string, n: nat)
    requires n <= 1 + Count(t, '&')
    ensures |ParseArgs(t, n)| == n
  {
    ParseArgsSegments(t, n);
  }

  lemma CountSnoc(t: string, i: nat)
    requires i < |t|
    ensures Count(t[..i + 1], '&') == Count(t[..i], '&') + (if t[i] == '&' then 1 else 0)
  {
    assert t[..i + 1] == t[..i] + [t[i]];
    CountSplit(t[..i], [t[i]], '&');
  }

  /** The first '=' of a segment is the first '=' of the text, when that comes before the segment's end. */
  lemma ArgOfSegment(rest: string, end: nat)
    requires end <= |rest|
    ensures ToArg(rest[..end]) ==
      match IndexOf(rest, '=')
      case Some(e) => if e < end then Arg(rest[..e], rest[e + 1..end]) else Arg(rest[..end], [])
      case None => Arg(rest[..end], [])
  {
    IndexOfPrefix(rest, '=', end);
  }

  /** The two NUL writes of a round that ends at an '&': the segment is marked and the '&' NUL-ed, nothing else changed. */
  lemma MarkInner(before: string, cut: string, after: string, start: nat, rest: string, end: nat, next: nat)
    requires start + |rest| == |before| && before[start..] == rest
    requires end < |rest| && next == start + end + 1
    requires cut == before[start + end := NUL]
    requires after == (var e := IndexOf(rest, '='); if e.Some? && e.value < end then cut[start + e.value := NUL] else cut)
    ensures |after| == |before|
    ensures after[..next] == before[..start] + (MarkEq(rest[..end]) + [NUL])
    ensures after[next..] == rest[end + 1..]
  {
    var seg := rest[..end];
    var e := IndexOf(rest, '=');
    var m := if e.Some? && e.value < end then seg[e.value := NUL] else seg;
    MarkEqOfPrefix(rest, end);
    Spliced(before, after, start, m + [NUL], next);
    DropDrop(before, start, end + 1, next);
  }

  /** The NUL write of the last round: the rest of the text is marked. */
  lemma MarkLast(before: string, after: string, start: nat, rest: string, next: nat)
    requires start + |rest| == |before| == next && before[start..] == rest
    requires after == (var e := IndexOf(rest, '='); if e.Some? && e.value < |rest| then before[start + e.value := NUL] else before)
    ensures after[..next] == before[..start] + MarkEq(rest)
    ensures after[next..] == []
  {
    var e := IndexOf(rest, '=');
    var m := if e.Some? then rest[e.value := NUL] else rest;
    Spliced(before, after, start, m, next);
  }

  /** The first '=' of a segment, when the text's first '=' lies inside it. */
  lemma MarkEqOfPrefix(rest: string, end: nat)
    requires end <= |rest|
    ensures MarkEq(rest[..end]) ==
      var e := IndexOf(rest, '=');
      if e.Some? && e.value < end then rest[..end][e.value := NUL] else rest[..end]
  {
    IndexOfPrefix(rest, '=', end);
  }

  /** A buffer that differs from another only by m written at start. */
  lemma Spliced(before: string, after: string, start: nat, m: string, stop: nat)
    requires stop == start + |m| <= |before| == |after|
    requires forall j :: 0 <= j < |after| ==> after[j] == (if start <= j < stop then m[j - start] else before[j])
    ensures after[..stop] == before[..start] + m
    ensures after[stop..] == before[stop..]
  {
  }

  /**
    The splitting loop after i of its c rounds, with the next segment at
    `start`: the parameters and the marked buffer so far, followed by what the
    remaining rounds make of the rest of the text, are the whole result.
  */
  ghost predicate Progress(text: string, c: nat, i: nat, start: nat, args: seq<Arg>, buf: string) {
    i <= c && start <= |text| && |buf| == |text| && buf[start..] == text[start..]
    && c - i <= 1 + Count(text[start..], '&')
    && args + ParseArgs(text[start..], c - i) == ParseArgs(text, c)
    && buf[..start] + SplitBuf(text[start..], c - i) == SplitBuf(text, c)
  }

  lemma Started(text: string, c: nat)
    requires c <= 1 + Count(text, '&')
    ensures Progress(text, c, 0, 0, [], text)
  {
    assert text[0..] == text;
    assert text[..0] == [];
  }

  lemma Finished(text: string, c: nat, start: nat, args: seq<Arg>, buf: string)
    requires Progress(text, c, c, start, args, buf)
    ensures args == ParseArgs(text, c) && buf == SplitBuf(text, c)
  {
    assert buf[..start] + text[start..] == buf;
  }

  /** One round of the splitting loop keeps its invariants. */
  lemma Round(text: string, start: nat, next: nat, c: nat, i: nat, args: seq<Arg>, arg: Arg, buf: string, out: string)
    requires Progress(text, c, i, start, args, buf) && i < c
    requires SegmentSplit(text, start, buf, arg, out, next)
    ensures Progress(text, c, i + 1, next, args + [arg], out)
  {
    var rest := text[start..];
    var end := SegEnd(rest);
    if end < |rest| {
      ArgsRound(text, start, end, next, c, i, args, arg, ParseArgs(text, c));
      BufRound(text, start, end, next, c, i, buf[..start], out, SplitBuf(text, c));
    } else {
      LastRound(text, start, end, next, c, i, args, arg, buf[..start], out, ParseArgs(text, c), SplitBuf(text, c));
    }
  }

  /** A round that ends at an '&': the segment's parameter is appended and the next round starts after the '&'. */
  lemma ArgsRound(text: string, start: nat, end: nat, next: nat, c: nat, i: nat, args: seq<Arg>, arg: Arg, total: seq<Arg>)
    requires start + end < |text| && i < c && next == start + end + 1
    requires IndexOf(text[start..], '&') == Some(end)
    requires arg == ToArg(text[start..][..end])
    requires c - i <= 1 + Count(text[start..], '&')
    requires args + ParseArgs(text[start..], c - i) == total
    ensures c - (i + 1) <= 1 + Count(text[next..], '&')
    ensures (args + [arg]) + ParseArgs(text[next..], c - (i + 1)) == total
  {
    var rest := text[start..];
    CountAtFirst(rest, '&', end);
    DropDrop(text, start, end + 1, next);
    ParseArgsAt(rest, end, c - i, c - (i + 1));
    Assoc(args, [arg], ParseArgs(rest[end + 1..], c - (i + 1)));
  }

  lemma ParseArgsAt(rest: string, end: nat, n: nat, m: nat)
    requires IndexOf(rest, '&') == Some(end) && m + 1 == n
    ensures ParseArgs(rest, n) == [ToArg(rest[..end])] + ParseArgs(rest[end + 1..], m)
  {
  }

  lemma SplitBufAt(rest: string, end: nat, n: nat, m: nat)
    requires IndexOf(rest, '&') == Some(end) && m + 1 == n
    ensures SplitBuf(rest, n) == MarkEq(rest[..end]) + [NUL] + SplitBuf(rest[end + 1..], m)
  {
  }

  /** The same round on the buffer: the marked segment and its NUL join the finished part. */
  lemma BufRound(text: string, start: nat, end: nat, next: nat, c: nat, i: nat, done: string, buf: string, total: string)
    requires start + end < |text| && i < c && next == start + end + 1
    requires IndexOf(text[start..], '&') == Some(end)
    requires |buf| == |text| && buf[..next] == done + (MarkEq(text[start..][..end]) + [NUL])
    requires done + SplitBuf(text[start..], c - i) == total
    ensures buf[..next] + SplitBuf(text[next..], c - (i + 1)) == total
  {
    var rest := text[start..];
    DropDrop(text, start, end + 1, next);
    SplitBufAt(rest, end, c - i, c - (i + 1));
    Assoc(done, MarkEq(rest[..end]) + [NUL], SplitBuf(rest[end + 1..], c - (i + 1)));
  }

  /** A round that finds no '&' is the last one: its parameter completes the list and the buffer. */
  lemma LastRound(text: string, start: nat, end: nat, next: nat, c: nat, i: nat, args: seq<Arg>, arg: Arg, done: string, buf: string, totalArgs: seq<Arg>, total: string)
    requires start <= |text| && i < c
    requires IndexOf(text[start..], '&').None?
    requires end == |text| - start && arg == ToArg(text[start..][..end])
    requires c - i <= 1 + Count(text[start..], '&')
    requires args + ParseArgs(text[start..], c - i) == totalArgs
    requires next == |text| == |buf| && buf[..next] == done + MarkEq(text[start..])
    requires done + SplitBuf(text[start..], c - i) == total
    ensures c - (i + 1) <= 1 + Count(text[next..], '&')
    ensures (args + [arg]) + ParseArgs(text[next..], c - (i + 1)) == totalArgs
    ensures buf[..next] + SplitBuf(text[next..], c - (i + 1)) == total
  {
    var rest := text[start..];
    CountAbsent(rest, '&');
    assert rest[..end] == rest;
  }

  // ---------------------------------------------------------------- properties

  /** A parameter written back as a segment. */
  function JoinArg(a: Arg): string {
    a.key + "=" + a.value
  }

  /** Parameters written back as segments. */
  function ArgTexts(args: seq<Arg>): (r: seq<string>)
    ensures |r| == |args|
    ensures forall i :: 0 <= i < |args| ==> r[i] == JoinArg(args[i])
  {
    if args == [] then [] else [JoinArg(args[0])] + ArgTexts(args[1..])
  }

  /** Parameters written back as a query string. */
  function JoinArgs(args: seq<Arg>): string
    requires args != []
  {
    JoinAmp(ArgTexts(args))
  }

  /** A parameter that reads back as itself: no '=' or '&' in its key, no '&' in its value. */
  predicate CleanArg(a: Arg) {
    Lacks(a.key, '=') && Lacks(a.key, '&') && Lacks(a.value, '&')
  }

  /**
    A segment splits at its first '=': the key has no '=', and key, '=' and
    value give the segment back; without '=' the whole segment is the key
    and the value is empty.
  */
  lemma ToArgSplits(seg: string)
    ensures Lacks(ToArg(seg).key, '=')
    ensures IndexOf(seg, '=').Some? ==> JoinArg(ToArg(seg)) == seg
    ensures IndexOf(seg, '=').None? ==> ToArg(seg).key == seg && ToArg(seg).value == []
    ensures Lacks(seg, '&') ==> CleanArg(ToArg(seg))
  {
    match IndexOf(seg, '=')
    case None =>
    case Some(k) =>
      assert seg == seg[..k] + "=" + seg[k + 1..];
  }

  /** Writing a parameter out and splitting it again gives it back. */
  lemma ArgOfJoin(a: Arg)
    requires Lacks(a.key, '=')
    ensures ToArg(JoinArg(a)) == a
  {
    IndexOfJoin(a.key, '=', a.value);
  }

  /** The segments, glued with '&', are the text. */
  lemma {:induction false} JoinSegments(t: string)
    ensures JoinAmp(Segments(t)) == t
    decreases |t|
  {
    match IndexOf(t, '&')
    case None =>
    case Some(a) =>
      var ss := Segments(t);
      assert ss[1..] == Segments(t[a + 1..]);
      JoinSegments(t[a + 1..]);
      assert t == t[..a] + "&" + t[a + 1..];
  }

  /** Segments without '&', glued with '&', split back into themselves. */
  lemma {:induction false} SegmentsOfJoin(ss: seq<string>)
    requires ss != []
    requires forall i :: 0 <= i < |ss| ==> Lacks(ss[i], '&')
    ensures Segments(JoinAmp(ss)) == ss
    decreases |ss|
  {
    if |ss| == 1 {
      assert Segments(ss[0]) == [ss[0]];
    } else {
      SegmentsOfJoin(ss[1..]);
      SegmentsCons(ss[0], JoinAmp(ss[1..]));
      assert ss == [ss[0]] + ss[1..];
    }
  }

  /** A segment without '&' in front of '&' and more text splits off first. */
  lemma SegmentsCons(a: string, rest: string)
    requires Lacks(a, '&')
    ensures Segments(a + "&" + rest) == [a] + Segments(rest)
  {
    IndexOfJoin(a, '&', rest);
  }

  /** The loop's parameters, as long as the count does not exceed the segments, are the first segments split. */
  lemma {:induction false} ParseArgsSegments(t: string, n: nat)
    requires n <= 1 + Count(t, '&')
    ensures ParseArgs(t, n) == ToArgs(Segments(t)[..n])
    decreases n
  {
    if n > 0 {
      var i := IndexOf(t, '&');
      if i.None? {
        CountAbsent(t, '&');
        assert Segments(t)[..n] == [t];
      } else {
        var a := i.value;
        var rest := t[a + 1..];
        CountAtFirst(t, '&', a);
        ParseArgsSegments(rest, n - 1);
        assert n <= |Segments(t)|;
        ParseArgsStep(t, n, a, rest);
      }
    }
  }

  /** One segment more: the step of ParseArgsSegments. */
  lemma ParseArgsStep(t: string, n: nat, a: nat, rest: string)
    requires 0 < n <= |Segments(t)| && IndexOf(t, '&') == Some(a) && rest == t[a + 1..]
    requires ParseArgs(rest, n - 1) == ToArgs(Segments(rest)[..n - 1])
    ensures ParseArgs(t, n) == ToArgs(Segments(t)[..n])
  {
    SegmentsFront(t, a, n);
    ToArgsCons(t[..a], Segments(rest)[..n - 1]);
  }

  lemma ToArgsCons(s: string, ss: seq<string>)
    ensures ToArgs([s] + ss) == [ToArg(s)] + ToArgs(ss)
  {
  }

  /** The first n segments of a text with a '&' at a: the text before it, then the first n - 1 segments after it. */
  lemma SegmentsFront(t: string, a: nat, n: nat)
    requires IndexOf(t, '&') == Some(a) && 0 < n <= |Segments(t)|
    ensures Segments(t)[..n] == [t[..a]] + Segments(t[a + 1..])[..n - 1]
  {
    assert Segments(t) == [t[..a]] + Segments(t[a + 1..]);
  }

  /**
    A non-empty text with fewer than 255 '&'s yields one parameter per
    segment; a text whose '&'s number 255 modulo 256 has its count wrap to 0
    and yields none.
  */
  lemma ParamListSegments(t: string)
    ensures t != [] && Count(t, '&') < 255 ==> ParamList(t) == ToArgs(Segments(t))
    ensures Count(t, '&') % 256 == 255 ==> ParamList(t) == []
  {
    var n := ArgCount(t);
    if t != [] && Count(t, '&') < 255 {
      assert n == 1 + Count(t, '&');
      ParseArgsSegments(t, n);
      assert Segments(t)[..n] == Segments(t);
    }
    if Count(t, '&') % 256 == 255 {
      CountWraps(Count(t, '&'));
    }
  }

  /** The uint8 count wraps to 0 when one more than a number that is 255 modulo 256. */
  lemma CountWraps(c: nat)
    requires c % 256 == 255
    ensures (1 + c) % 256 == 0
  {
    var q := c / 256;
    assert c == 256 * q + 255;
    assert 1 + c == 256 * (q + 1);
  }

  /** Every parameter the parse yields has a key without '=' or '&' and a value without '&'. */
  lemma ParamListClean(t: string)
    ensures forall i :: 0 <= i < |ParamList(t)| ==> CleanArg(ParamList(t)[i])
  {
    if t != [] {
      var n := ArgCount(t);
      assert n <= 1 + Count(t, '&');
      ParseArgsSegments(t, n);
      var ss := Segments(t)[..n];
      forall i | 0 <= i < |ss|
        ensures CleanArg(ToArg(ss[i]))
      {
        ToArgSplits(ss[i]);
      }
    }
  }

  /** Clean parameters, fewer than 256 and at least one, written out as a query string, parse back to themselves. */
  lemma ParamListOfJoin(args: seq<Arg>)
    requires 0 < |args| < 256
    requires forall i :: 0 <= i < |args| ==> CleanArg(args[i])
    ensures ParamList(JoinArgs(args)) == args
  {
    var ss := ArgTexts(args);
    forall i | 0 <= i < |ss|
      ensures Lacks(ss[i], '&')
    {
      assert ss[i] == args[i].key + "=" + args[i].value;
    }
    SegmentsOfJoin(ss);
    var t := JoinArgs(args);
    assert |t| >= |ss[0]| > 0;
    ParamListSegments(t);
    forall i | 0 <= i < |args|
      ensures ToArg(ss[i]) == args[i]
    {
      ArgOfJoin(args[i]);
    }
  }

  /** Two parameters written out read back as themselves. */
  lemma TwoParams()
    ensures ParamList("a=1&b=2") == [Arg("a", "1"), Arg("b", "2")]
  {
    var args := [Arg("a", "1"), Arg("b", "2")];
    assert JoinArg(args[0]) == "a=1" && JoinArg(args[1]) == "b=2";
    assert ArgTexts(args) == ["a=1", "b=2"];
    assert JoinArgs(args) == "a=1&b=2";
    ParamListOfJoin(args);
  }

  /** One parameter written out reads back as itself. */
  lemma OneParam()
    ensures ParamList("a=1") == [Arg("a", "1")]
  {
    var args := [Arg("a", "1")];
    assert JoinArg(args[0]) == "a=1";
    assert JoinArgs(args) == "a=1";
    ParamListOfJoin(args);
  }

  /** A segment without '=' is a key with an empty value. */
  lemma KeyWithoutValue()
    ensures ParamList("a&b=2") == [Arg("a", ""), Arg("b", "2")]
  {
    var ss := ["a", "b=2"];
    assert JoinAmp(ss) == "a" + "&" + "b=2" == "a&b=2";
    SegmentsOfJoin(ss);
    ParamListSegments("a&b=2");
    KeyWithoutValueArgs();
  }

  lemma KeyWithoutValueArgs()
    ensures ToArg("a") == Arg("a", "") && ToArg("b=2") == Arg("b", "2")
  {
    assert IndexOf("a", '=') == None;
    IndexOfJoin("b", '=', "2");
    assert "b=2" == "b" + ['='] + "2";
  }

  /**
    A query parse of "path?query", the path without '?': the URI is cut to
    the path, the parameters are those of the query, and the body is untouched.
  */
  lemma QueryParams(req: HttpRequest, path: string, query: string)
    requires req.httpMethod != HttpAny && req.uri == Some(path + "?" + query) && Lacks(path, '?')
    ensures ParamsStep(req, HttpQuery) == req.(uri := Some(path), args := ParamList(query))
  {
    IndexOfJoin(path, '?', query);
  }

  /** A URI without '?' gives no parameters and stays as it is. */
  lemma QueryAbsent(req: HttpRequest)
    requires req.httpMethod != HttpAny && req.uri.Some? && Lacks(req.uri.value, '?')
    ensures ParamsStep(req, HttpQuery) == req.(args := [])
  {
  }

  /**
    The corrected body parse reads a missing body as an empty one: no
    parameters, and nothing else changes.
  */
  lemma MissingBodyNoParams(req: HttpRequest)
    requires req.data.None?
    ensures ParamsStep(req, HttpData) == ParamsStep(req.(data := Some([])), HttpData).(data := None)
    ensures ParamsStep(req, HttpData) == req.(args := [])
  {
    assert CStr([]) == [];
  }

  /**
    A body parse of a body whose text (up to the first NUL) is not empty and
    has fewer than 255 '&'s: one parameter per segment, and afterwards the
    body, read as a C string, is the first key alone.
  */
  lemma BodyParams(req: HttpRequest)
    requires req.httpMethod != HttpAny && req.data.Some?
    requires CStr(req.data.value) != [] && Count(CStr(req.data.value), '&') < 255
    ensures ParamsStep(req, HttpData).args == ToArgs(Segments(CStr(req.data.value)))
    ensures CStr(ParamsStep(req, HttpData).data.value) == ParamsStep(req, HttpData).args[0].key
  {
    var buf := req.data.value;
    var t := CStr(buf);
    ParamListSegments(t);
    FirstKeyOfSplit(t, buf[|t|..]);
  }

  /** The split text, followed by a NUL or nothing, reads as a C string as the first segment's key. */
  lemma FirstKeyOfSplit(t: string, tail: string)
    requires Lacks(t, NUL) && Count(t, '&') < 255
    requires tail == [] || tail[0] == NUL
    ensures CStr(SplitBuf(t, ArgCount(t)) + tail) == ToArg(Segments(t)[0]).key
  {
    var n := ArgCount(t);
    var m: nat := Count(t, '&');
    match IndexOf(t, '&')
    case None =>
      FirstKey(t, tail);
    case Some(a) =>
      var more := [NUL] + (SplitBuf(t[a + 1..], m) + tail);
      assert Segments(t)[0] == t[..a];
      SplitBufAt(t, a, n, m);
      Assoc(MarkEq(t[..a]) + [NUL], SplitBuf(t[a + 1..], m), tail);
      Assoc(MarkEq(t[..a]), [NUL], SplitBuf(t[a + 1..], m) + tail);
      FirstKey(t[..a], more);
  }

  /** A marked segment followed by a NUL (or nothing) reads, as a C string, as the segment's key. */
  lemma FirstKey(seg: string, tail: string)
    requires Lacks(seg, NUL) && (tail == [] || tail[0] == NUL)
    ensures CStr(MarkEq(seg) + tail) == ToArg(seg).key
  {
    match IndexOf(seg, '=')
    case None =>
      CStrOf(seg, tail);
    case Some(k) =>
      assert MarkEq(seg) + tail == seg[..k] + ([NUL] + seg[k + 1..] + tail);
      CStrOf(seg[..k], [NUL] + seg[k + 1..] + tail);
  }
}
