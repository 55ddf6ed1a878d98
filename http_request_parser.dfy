/**
 * http_request_init: the request line, the header block, the body and the
 * query string of a raw HTTP/1.1 request (section 3 of RFC 7230), all cut
 * in place in the one buffer that holds the request.
 *
 * The request is split with the same strtok state the helpers use: the
 * method up to a space, the URI up to a space, the version up to CR or LF.
 * The headers start after the first CRLF, the body after the first
 * CRLFCRLF, and a '?' in the URI is overwritten with NUL so that what
 * follows it can be read as the query parameters.  Pointers into the
 * buffer are indexes, as in the helpers.
 */
module HttpParser {
  import opened Wrappers
  import opened CString
  import opened HttpUtils

  /**
   * The fields of http_request_t.  raw and body are copies (strdup), so
   * they are values; the other strings point into the buffer, and the
   * lists are the nodes the helpers build.
   */
  datatype Request = Request(
    raw: string,
    methodStr: Option<nat>,
    httpMethod: Method,
    uri: Option<nat>,
    version: Option<nat>,
    headers: seq<Node>,
    body: Option<string>,
    bodyParams: seq<Node>,
    queryParams: seq<Node>)

  /**
   * What http_request_init hands back: NULL, a request, or Undefined when
   * the code goes on with a NULL pointer (the headers loop on a broken
   * line, or strchr on a NULL URI), which C leaves undefined.
   */
  datatype Outcome = Null | Built(req: Request) | Undefined

  /** The request line's three tokens, and the method get_method finds for the first. */
  datatype Line = Line(methodStr: Option<nat>, httpMethod: Method, uri: Option<nat>, version: Option<nat>)

  /**
   * The three strtok calls over the request line: the method up to a
   * space, the URI up to the next space, the version up to CR or LF.
   * get_method reads the method while it is fresh.
   */
  function RequestLine(s: seq<char>): (r: (seq<char>, Line))
    requires Terminated(s)
    ensures |r.0| == |s| && Terminated(r.0)
    ensures r.1.uri.Some? ==> r.1.uri.value < |s|
  {
    var m := StrTokFrom(s, 0, " ");
    var httpMethod := MethodOf(if m.1.token.Some? then Some(CStr(m.0, m.1.token.value)) else None);
    var u := StrTokFrom(m.0, m.1.save, " ");
    var v := StrTokFrom(u.0, u.1.save, "\r\n");
    (v.0, Line(m.1.token, httpMethod, u.1.token, v.1.token))
  }

  /**
   * The query of the URI at `uri`: strchr finds its first '?', which is
   * overwritten with NUL, and the text after it is parsed as parameters;
   * with no '?' the list is NULL.
   */
  function QueryOf(s: seq<char>, uri: nat): (r: (seq<char>, seq<Node>))
    requires Terminated(s) && uri < |s|
    ensures |r.0| == |s| && Terminated(r.0) && InBuffer(r.1, |s|)
  {
    var query := StrStr(s, uri, "?");
    if query.None? then (s, [])
    else
      var q := uri + query.value;
      ParamsInit(s[q := NUL], Some(q + 1))
  }

  /**
   * http_request_init on the request held in s.  `mallocOk` says whether
   * the malloc of the request struct succeeded.
   */
  function RequestInit(s: seq<char>, mallocOk: bool): (r: (seq<char>, Outcome))
    requires Terminated(s)
    ensures |r.0| == |s| && Terminated(r.0)
    ensures r.1.Null? ==> r.0 == s
    ensures !mallocOk ==> r.1.Null?
    ensures r.1.Built? ==> r.1.req.raw == CStr(s, 0)
    ensures r.1.Built? ==> InBuffer(r.1.req.headers, |s|) && InBuffer(r.1.req.bodyParams, |s|) && InBuffer(r.1.req.queryParams, |s|)
  {
    if !mallocOk then (s, Null)
    else
      var crlf := StrStr(s, 0, "\r\n");
      var blank := StrStr(s, 0, "\r\n\r\n");
      if crlf.None? || blank.None? then (s, Null)
      else RequestParsed(s, crlf.value, blank.value + 4)
  }

  /**
   * The rest of http_request_init once both searches have succeeded: the
   * first CRLF is at crlf and the body starts at body.
   */
  function RequestParsed(s: seq<char>, crlf: nat, body: nat): (r: (seq<char>, Outcome))
    requires Terminated(s) && crlf + 2 < |s| && body < |s|
    ensures |r.0| == |s| && Terminated(r.0) && !r.1.Null?
    ensures r.1.Built? ==> r.1.req.raw == CStr(s, 0)
    ensures r.1.Built? ==> InBuffer(r.1.req.headers, |s|) && InBuffer(r.1.req.bodyParams, |s|) && InBuffer(r.1.req.queryParams, |s|)
  {
    var line := RequestLine(s);
    var hd := HeadersFrom(line.0, crlf + 2, []);
    if hd.1.Undefined? then (hd.0, Outcome.Undefined)
    else
      var copy := if hd.0[body] != NUL then Some(CStr(hd.0, body)) else None;
      var bp := ParamsInit(hd.0, Some(body));
      if line.1.uri.None? then (bp.0, Outcome.Undefined)
      else
        var qp := QueryOf(bp.0, line.1.uri.value);
        var l := line.1;
        (qp.0, Built(Request(CStr(s, 0), l.methodStr, l.httpMethod, l.uri, l.version, hd.1.nodes, copy, bp.1, qp.1)))
  }

  /** The request line's strtok calls and get_method. */
  method SplitRequestLine(buf: array<char>) returns (line: Line)
    requires Terminated(buf[..])
    modifies buf
    ensures (buf[..], line) == RequestLine(old(buf[..]))
  {
    var methodStr, save := StrTokR(buf, Some(0), " ", 0);
    var httpMethod := GetMethod(if methodStr.Some? then Some(CStr(buf[..], methodStr.value)) else None);
    var uri, save' := StrTokR(buf, None, " ", save);
    var version, save'' := StrTokR(buf, None, "\r\n", save');
    line := Line(methodStr, httpMethod, uri, version);
  }

  /** The query: strchr, the NUL over '?', and http_params_init. */
  method ParseQuery(buf: array<char>, uri: nat) returns (nodes: seq<Node>)
    requires Terminated(buf[..]) && uri < buf.Length
    modifies buf
    ensures (buf[..], nodes) == QueryOf(old(buf[..]), uri)
  {
    var query := StrStr(buf[..], uri, "?");
    if query.None? {
      return [];
    }
    var q := uri + query.value;
    buf[q] := NUL;
    nodes := HttpParamsInit(buf, Some(q + 1));
  }

  /** http_request_init, tokenising the request in buf. */
  method HttpRequestInit(buf: array<char>, mallocOk: bool) returns (r: Outcome)
    requires Terminated(buf[..])
    modifies buf
    ensures (buf[..], r) == RequestInit(old(buf[..]), mallocOk)
  {
    if !mallocOk {
      return Null;
    }
    var crlf := StrStr(buf[..], 0, "\r\n");
    var blank := StrStr(buf[..], 0, "\r\n\r\n");
    if crlf.None? || blank.None? {
      return Null;
    }
    r := ParseRequest(buf, crlf.value, blank.value + 4);
  }

  /** The tokenising part of http_request_init, after both searches have succeeded. */
  method ParseRequest(buf: array<char>, crlf: nat, body: nat) returns (r: Outcome)
    requires Terminated(buf[..]) && crlf + 2 < buf.Length && body < buf.Length
    modifies buf
    ensures (buf[..], r) == RequestParsed(old(buf[..]), crlf, body)
  {
    ghost var s0 := buf[..];
    var raw := CStr(buf[..], 0);
    var line := SplitRequestLine(buf);
    ghost var s1 := buf[..];
    assert (s1, line) == RequestLine(s0);
    var hd := HttpHeadersInit(buf, crlf + 2);
    ghost var s2 := buf[..];
    assert (s2, hd) == HeadersFrom(s1, crlf + 2, []);
    if hd.Undefined? {
      return Outcome.Undefined;
    }
    var copy := if buf[body] != NUL then Some(CStr(buf[..], body)) else None;
    var bodyParams := HttpParamsInit(buf, Some(body));
    ghost var s3 := buf[..];
    assert (s3, bodyParams) == ParamsInit(s2, Some(body));
    if line.uri.None? {
      return Outcome.Undefined;
    }
    var queryParams := ParseQuery(buf, line.uri.value);
    assert (buf[..], queryParams) == QueryOf(s3, line.uri.value);
    return Built(Request(raw, line.methodStr, line.httpMethod, line.uri, line.version, hd.nodes, copy, bodyParams, queryParams));
  }

  /** Where the C string at 0 holds "\r\n\r\n". */
  predicate HasBlankLine(s: seq<char>)
    requires Terminated(s)
  {
    exists k :: 0 <= k < StrLen(s, 0) && At(s, k, "\r\n\r\n")
  }

  /**
   * http_request_init gives NULL exactly when the malloc of the struct
   * fails or the request has no empty line: a CRLFCRLF also holds the
   * first CRLF, so that search never fails alone.
   */
  lemma {:induction false} RequestNull(s: seq<char>, mallocOk: bool)
    requires Terminated(s)
    ensures RequestInit(s, mallocOk).1.Null? <==> !mallocOk || !HasBlankLine(s)
  {
    StrStrFirst(s, 0, "\r\n\r\n");
    var blank := StrStr(s, 0, "\r\n\r\n");
    if blank.Some? {
      var k := blank.value;
      assert At(s, k, "\r\n\r\n");
      assert s[k + 0] == "\r\n\r\n"[0];
      StrLenChars(s, 0);
      // the string goes on past k, so k lies before the terminator
      assert s[0 + StrLen(s, 0)] == NUL;
      assert k < StrLen(s, 0);
      BlankHasCrlf(s, k);
      StrStrFirst(s, 0, "\r\n");
      assert StrStr(s, 0, "\r\n").Some?;
    }
  }

  lemma {:induction false} BlankHasCrlf(s: seq<char>, k: nat)
    requires At(s, k, "\r\n\r\n")
    ensures At(s, k, "\r\n")
  {
    assert "\r\n\r\n" == "\r\n" + "\r\n";
    AtConcat(s, k, "\r\n", "\r\n");
  }

  /*
   * A well-formed request, cut as http_request_init cuts it.  The lemmas
   * below take a request as a client sends it (section 3 of RFC 7230: the
   * request line, the header lines, an empty line, then the body) and
   * follow it through every stage of RequestParsed.
   */

  /** A request-line token as a client sends it: not empty, and no space, CR, LF or NUL. */
  predicate Word(w: string)
  {
    |w| > 0 && forall i :: 0 <= i < |w| ==> w[i] != ' ' && w[i] != '\r' && w[i] != '\n' && w[i] != NUL
  }

  /** A request as a client sends it. */
  function RequestText(name: string, uri: string, version: string, hs: seq<Header>, body: string): string
  {
    name + " " + uri + " " + version + "\r\n" + HeaderLines(hs) + "\r\n" + body
  }

  /** A request target: the path, then '?' and the query pairs when there is a query. */
  function Uri(path: string, query: Option<seq<Param>>): string
  {
    if query.None? then path else path + "?" + ParamsText(query.value)
  }

  /** The two buffers hold the same characters in [lo, hi). */
  predicate Kept(s: seq<char>, t: seq<char>, lo: nat, hi: nat)
  {
    |t| == |s| && hi <= |s| && forall k :: lo <= k < hi ==> t[k] == s[k]
  }

  lemma KeptTrans(s: seq<char>, t: seq<char>, u: seq<char>, lo: nat, hi: nat)
    requires Kept(s, t, lo, hi) && Kept(t, u, lo, hi)
    ensures Kept(s, u, lo, hi)
  {
  }

  lemma KeptWithin(s: seq<char>, t: seq<char>, lo: nat, hi: nat, lo': nat, hi': nat)
    requires Kept(s, t, lo, hi) && lo <= lo' && hi' <= hi
    ensures Kept(s, t, lo', hi')
  {
  }

  /**
   * The parts of a request one after another from the start of s: the
   * method, a space, the URI, a space, the version, CRLF, the header
   * lines, CRLF and the body, then the terminator and no NUL before it.
   */
  predicate Laid(s: seq<char>, m: string, u: string, v: string, hs: seq<Header>, body: string)
  {
    var c, n := |m| + |u| + |v| + 2, |HeaderLines(hs)|;
    && |s| == c + n + 5 + |body|
    && At(s, 0, m) && s[|m|] == ' ' && At(s, |m| + 1, u) && s[|m| + 1 + |u|] == ' ' && At(s, |m| + |u| + 2, v)
    && At(s, c, "\r\n") && At(s, c + 2, HeaderLines(hs) + "\r\n") && At(s, c + n + 4, body + [NUL])
    && forall k :: 0 <= k < |s| - 1 ==> s[k] != NUL
  }

  /** Where the parts of a request sit in the buffer that holds it; the whole request is the C string at 0. */
  lemma {:induction false} RequestLayout(s: seq<char>, m: string, u: string, v: string, hs: seq<Header>, body: string)
    requires Word(m) && Word(u) && Word(v) && (forall h :: h in hs ==> HeaderOk(h)) && NUL !in body
    requires s == RequestText(m, u, v, hs, body) + [NUL]
    ensures Terminated(s) && Laid(s, m, u, v, hs, body) && CStr(s, 0) == RequestText(m, u, v, hs, body)
  {
    var text := RequestText(m, u, v, hs, body);
    assert At(s, 0, text + [NUL]) && |s| == |text| + 1;
    RequestTextNoNul(m, u, v, hs, body);
    LaidOfText(s, m, u, v, hs, body);
  }

  /** The layout of a buffer that holds a request and its terminator, read off part by part. */
  lemma {:induction false} LaidOfText(s: seq<char>, m: string, u: string, v: string, hs: seq<Header>, body: string)
    requires At(s, 0, RequestText(m, u, v, hs, body) + [NUL]) && |s| == |RequestText(m, u, v, hs, body)| + 1
    requires NUL !in RequestText(m, u, v, hs, body)
    ensures Terminated(s) && Laid(s, m, u, v, hs, body) && CStr(s, 0) == RequestText(m, u, v, hs, body)
  {
    var text := RequestText(m, u, v, hs, body);
    var head := m + " " + u + " " + v + "\r\n";
    var lines := head + HeaderLines(hs);
    var x := lines + "\r\n";
    AtSplit(s, 0, text, [NUL], |text|);
    AtSplit(s, 0, x, body, |x|);
    AtSplit(s, 0, lines, "\r\n", |lines|);
    AtSplit(s, 0, head, HeaderLines(hs), |head|);
    AtMoved(s, |head|, |m| + |u| + |v| + 2 + 2, HeaderLines(hs));
    AtMoved(s, |lines|, |m| + |u| + |v| + 2 + 2 + |HeaderLines(hs)|, "\r\n");
    AtMoved(s, |x|, |m| + |u| + |v| + 2 + 2 + |HeaderLines(hs)| + 2, body);
    AtMoved(s, |text|, |m| + |u| + |v| + 2 + 2 + |HeaderLines(hs)| + 2 + |body|, [NUL]);
    LineLaid(s, m, u, v);
    TailLaid(s, |m| + |u| + |v| + 2, hs, body);
    TextInBuffer(s, text);
  }

  /** The request line at the start of s: method, space, URI, space, version, CRLF. */
  lemma {:induction false} LineLaid(s: seq<char>, m: string, u: string, v: string)
    requires At(s, 0, m + " " + u + " " + v + "\r\n")
    ensures At(s, 0, m) && At(s, |m| + 1, u) && At(s, |m| + |u| + 2, v) && At(s, |m| + |u| + |v| + 2, "\r\n")
    ensures |m| + 1 + |u| < |s| && s[|m|] == ' ' && s[|m| + 1 + |u|] == ' '
  {
    var t0 := m + " ";
    var t1 := t0 + u;
    var t2 := t1 + " ";
    var t3 := t2 + v;
    AtSplit(s, 0, t3, "\r\n", |m| + |u| + |v| + 2);
    AtSplit(s, 0, t2, v, |m| + |u| + 2);
    AtSplit(s, 0, t1, " ", |m| + 1 + |u|);
    AtSplit(s, 0, t0, u, |m| + 1);
    AtSplit(s, 0, m, " ", |m|);
    AtChar(s, |m|, ' ');
    AtChar(s, |m| + 1 + |u|, ' ');
  }

  /** The header lines, the empty line and the body with its terminator, after the request line's CRLF at c. */
  lemma {:induction false} TailLaid(s: seq<char>, c: nat, hs: seq<Header>, body: string)
    requires At(s, c + 2, HeaderLines(hs)) && At(s, c + 2 + |HeaderLines(hs)|, "\r\n")
    requires At(s, c + 2 + |HeaderLines(hs)| + 2, body) && At(s, c + 2 + |HeaderLines(hs)| + 2 + |body|, [NUL])
    ensures At(s, c + 2, HeaderLines(hs) + "\r\n") && At(s, c + |HeaderLines(hs)| + 4, body + [NUL])
  {
    AtConcat(s, c + 2, HeaderLines(hs), "\r\n");
    AtConcat(s, c + 2 + |HeaderLines(hs)| + 2, body, [NUL]);
    AtMoved(s, c + 2 + |HeaderLines(hs)| + 2, c + |HeaderLines(hs)| + 4, body + [NUL]);
  }

  /** A text without NUL, then its terminator, filling s: s is terminated, holds NUL only at the end, and its C string is the text. */
  lemma {:induction false} TextInBuffer(s: seq<char>, text: string)
    requires At(s, 0, text + [NUL]) && |s| == |text| + 1 && NUL !in text
    ensures Terminated(s) && CStr(s, 0) == text
    ensures forall k :: 0 <= k < |s| - 1 ==> s[k] != NUL
  {
    forall k | 0 <= k < |s| - 1
      ensures s[k] != NUL
    {
      assert s[0 + k] == (text + [NUL])[k];
    }
    AtSplit(s, 0, text, [NUL], |text|);
    AtChar(s, |text|, NUL);
    forall i | 0 <= i < |text|
      ensures text[i] != NUL
    {
    }
    CStrAt(s, 0, text);
  }

  /** A request as a client sends it holds no NUL. */
  lemma {:induction false} RequestTextNoNul(m: string, u: string, v: string, hs: seq<Header>, body: string)
    requires Word(m) && Word(u) && Word(v) && (forall h :: h in hs ==> HeaderOk(h)) && NUL !in body
    ensures NUL !in RequestText(m, u, v, hs, body)
  {
    HeaderLinesNoNul(hs);
    assert NUL !in m && NUL !in u && NUL !in v;
  }

  /** The request line holds no CR and no NUL before its CRLF. */
  lemma {:induction false} RequestLineChars(s: seq<char>, m: string, u: string, v: string, hs: seq<Header>, body: string)
    requires Laid(s, m, u, v, hs, body) && Word(m) && Word(u) && Word(v)
    ensures forall k :: 0 <= k < |m| + |u| + |v| + 2 ==> s[k] != '\r' && s[k] != NUL
  {
    var a, b := |m|, |m| + 1 + |u|;
    forall k | 0 <= k < |m| + |u| + |v| + 2
      ensures s[k] != '\r' && s[k] != NUL
    {
      if k < a {
        assert s[0 + k] == m[k];
      } else if a < k < b {
        assert s[a + 1 + (k - a - 1)] == u[k - a - 1];
      } else if b < k {
        assert s[b + 1 + (k - b - 1)] == v[k - b - 1];
      }
    }
  }

  /** No CRLFCRLF starts inside a block of well-formed header lines before its last CRLF. */
  lemma {:induction false} NoBlankInBlock(s: seq<char>, line: nat, hs: seq<Header>)
    requires Terminated(s) && hs != [] && Block(s, line, hs, "\r\n")
    ensures forall k :: line <= k < line + |HeaderLines(hs)| - 2 ==> !At(s, k, "\r\n\r\n")
    decreases |hs|
  {
    var h := hs[0];
    var f, v := |h.field|, |h.value|;
    var next := line + |HeaderLine(h)|;
    assert |HeaderLines(hs)| == |HeaderLine(h)| + |HeaderLines(hs[1..])|;
    LineLayout(s, line, h);
    LineChars(s, line, h);
    assert hs[1..] != [] ==> s[next] != '\r' by {
      if hs[1..] != [] {
        LineStart(s, next, hs[1..][0]);
      }
    }
    if hs[1..] != [] {
      NoBlankInBlock(s, next, hs[1..]);
    }
    forall k | line <= k < line + |HeaderLines(hs)| - 2
      ensures !At(s, k, "\r\n\r\n")
    {
      if k < line + f + 2 + v || k == line + f + 3 + v {
        assert s[k + 0] != "\r\n\r\n"[0];
      } else if k == line + f + 2 + v {
        assert s[k + 2] != "\r\n\r\n"[2];
      }
    }
  }

  /** strstr finds the request line's CRLF first, and the empty line right after the header lines. */
  lemma {:induction false} RequestSearches(s: seq<char>, m: string, u: string, v: string, hs: seq<Header>, body: string)
    requires Terminated(s) && Laid(s, m, u, v, hs, body) && Word(m) && Word(u) && Word(v)
    requires forall h :: h in hs ==> HeaderOk(h)
    ensures StrStr(s, 0, "\r\n").Some? && StrStr(s, 0, "\r\n").value == |m| + |u| + |v| + 2
    ensures StrStr(s, 0, "\r\n\r\n").Some? && StrStr(s, 0, "\r\n\r\n").value == |m| + |u| + |v| + 2 + |HeaderLines(hs)|
  {
    RequestLineChars(s, m, u, v, hs, body);
    CrlfSearch(s, |m| + |u| + |v| + 2);
    BlankSearch(s, m, u, v, hs, body);
  }

  /** strstr for CRLF stops at the first CR, when a LF follows it. */
  lemma {:induction false} CrlfSearch(s: seq<char>, c: nat)
    requires Terminated(s) && At(s, c, "\r\n")
    requires forall k :: 0 <= k < c ==> s[k] != '\r' && s[k] != NUL
    ensures StrStr(s, 0, "\r\n") == Some(c)
  {
    forall k | 0 <= k < c
      ensures !At(s, k, "\r\n")
    {
      assert s[k + 0] != "\r\n"[0];
    }
    StrStrAt(s, 0, "\r\n", c);
  }

  /** strstr for CRLFCRLF finds the empty line that ends the header lines. */
  lemma {:induction false} BlankSearch(s: seq<char>, m: string, u: string, v: string, hs: seq<Header>, body: string)
    requires Terminated(s) && Laid(s, m, u, v, hs, body) && (forall h :: h in hs ==> HeaderOk(h))
    requires forall k :: 0 <= k < |m| + |u| + |v| + 2 ==> s[k] != '\r' && s[k] != NUL
    ensures StrStr(s, 0, "\r\n\r\n") == Some(|m| + |u| + |v| + 2 + |HeaderLines(hs)|)
  {
    BlankAfterLines(s, |m| + |u| + |v| + 2 + 2, hs);
    AtMoved(s, |m| + |u| + |v| + 2 + 2 + |HeaderLines(hs)| - 2, 0 + (|m| + |u| + |v| + 2 + |HeaderLines(hs)|), "\r\n\r\n");
    InsideBlock(s, |m| + |u| + |v| + 2 + 2, hs);
    NoBlankBefore(s, |m| + |u| + |v| + 2, |HeaderLines(hs)|);
    StrStrAt(s, 0, "\r\n\r\n", |m| + |u| + |v| + 2 + |HeaderLines(hs)|);
  }

  /** Inside a block of well-formed header lines: no CR where it starts, and no CRLFCRLF before its last CRLF. */
  lemma {:induction false} InsideBlock(s: seq<char>, line: nat, hs: seq<Header>)
    requires Terminated(s) && (forall h :: h in hs ==> HeaderOk(h)) && At(s, line, HeaderLines(hs) + "\r\n")
    ensures hs != [] ==> s[line] != '\r' && forall k :: line <= k < line + |HeaderLines(hs)| - 2 ==> !At(s, k, "\r\n\r\n")
  {
    if hs != [] {
      BlockOfLines(s, line, hs, "\r\n");
      LineStart(s, line, hs[0]);
      NoBlankInBlock(s, line, hs);
    }
  }

  /** Header lines followed by CRLF end in CRLFCRLF: the empty line, right after the request line when there are none. */
  lemma {:induction false} BlankAfterLines(s: seq<char>, line: nat, hs: seq<Header>)
    requires line >= 2 && At(s, line - 2, "\r\n") && At(s, line, HeaderLines(hs) + "\r\n")
    ensures At(s, line + |HeaderLines(hs)| - 2, "\r\n\r\n")
  {
    var hl := HeaderLines(hs);
    var e := line + |hl| - 2;
    AtConcat(s, line, hl, "\r\n");
    AtMoved(s, line + |hl|, e + 2, "\r\n");
    if hs == [] {
      AtMoved(s, line - 2, e, "\r\n");
    } else {
      LinesEndCrlf(hs);
      AtSlice(s, line, hl, |hl| - 2, |hl|);
      assert hl[|hl| - 2..|hl|] == "\r\n";
      AtMoved(s, line + (|hl| - 2), e, "\r\n");
    }
    AtConcat(s, e, "\r\n", "\r\n");
    assert "\r\n" + "\r\n" == "\r\n\r\n";
  }

  /** Before the empty line there is no CRLFCRLF: not on the request line, not at its CRLF, not among the header lines. */
  lemma {:induction false} NoBlankBefore(s: seq<char>, c: nat, n: nat)
    requires At(s, c, "\r\n") && c + n + 3 < |s|
    requires forall k :: 0 <= k < c ==> s[k] != '\r'
    requires n > 0 ==> s[c + 2] != '\r' && forall k :: c + 2 <= k < c + n ==> !At(s, k, "\r\n\r\n")
    ensures forall k :: 0 <= k < c + n ==> !At(s, k, "\r\n\r\n")
  {
    assert s[c + 0] == "\r\n"[0] && s[c + 1] == "\r\n"[1];
    forall k | 0 <= k < c + n
      ensures !At(s, k, "\r\n\r\n")
    {
      if k < c || k == c + 1 {
        assert s[k + 0] != "\r\n\r\n"[0];
      } else if k == c {
        assert s[k + 2] != "\r\n\r\n"[2];
      }
    }
  }

  /**
   * strtok_r at a token w that starts right at p and ends at a delimiter
   * at e: the buffer it leaves differs only at that delimiter, now NUL,
   * and the C string at p reads w.
   */
  lemma {:induction false} TokenStep(s: seq<char>, p: nat, delim: seq<char>, w: string, e: nat) returns (s1: seq<char>)
    requires Terminated(s) && NUL !in delim && |w| > 0 && e == p + |w|
    requires forall i :: 0 <= i < |w| ==> w[i] != NUL && w[i] !in delim
    requires At(s, p, w) && e < |s| && s[e] in delim
    ensures e + 1 < |s| && StrTokFrom(s, p, delim) == (s1, Tok(e + 1, Some(p)))
    ensures Terminated(s1) && CStr(s1, p) == w && s1[e] == NUL
    ensures Kept(s, s1, 0, e) && Kept(s, s1, e + 1, |s|)
  {
    TokenBeforeDelimiter(s, p, delim, w);
    s1 := s[e := NUL];
    AtFrame(s, s1, p, w);
    CStrAt(s1, p, w);
  }

  /**
   * The three strtok calls over a well-formed request line cut it in
   * place: NUL over the two spaces and over the CR, and the method, the
   * URI and the version are the three tokens; get_method reads the method.
   * Nothing after the CR is written.
   */
  lemma {:induction false} RequestLineWords(s: seq<char>, m: string, u: string, v: string) returns (t: seq<char>)
    requires Terminated(s) && Word(m) && Word(u) && Word(v) && |m| + |u| + |v| + 2 < |s|
    requires At(s, 0, m) && s[|m|] == ' ' && At(s, |m| + 1, u) && s[|m| + 1 + |u|] == ' ' && At(s, |m| + |u| + 2, v)
    requires s[|m| + |u| + |v| + 2] == '\r'
    ensures RequestLine(s) == (t, Line(Some(0), MethodOf(Some(m)), Some(|m| + 1), Some(|m| + |u| + 2)))
    ensures Terminated(t) && CStr(t, 0) == m && CStr(t, |m| + 1) == u && CStr(t, |m| + |u| + 2) == v
    ensures Kept(s, t, |m| + |u| + |v| + 3, |s|)
  {
    var a, b, c := |m|, |m| + 1 + |u|, |m| + |u| + |v| + 2;
    var line := Line(Some(0), MethodOf(Some(m)), Some(a + 1), Some(b + 1));
    assert line == Line(Some(0), MethodOf(Some(m)), Some(|m| + 1), Some(|m| + |u| + 2));
    var t1, t2;
    t1, t2, t := LineCuts(s, m, u, v, a, b, c);
    LineOfTokens(s, t1, t2, t, a, b, c, m);
  }

  /** The three strtok calls of the request line, one token after another. */
  lemma {:induction false} LineCuts(s: seq<char>, m: string, u: string, v: string, a: nat, b: nat, c: nat) returns (t1: seq<char>, t2: seq<char>, t: seq<char>)
    requires Terminated(s) && Word(m) && Word(u) && Word(v) && a == |m| && b == a + 1 + |u| && c == b + 1 + |v| && c < |s|
    requires At(s, 0, m) && s[a] == ' ' && At(s, a + 1, u) && s[b] == ' ' && At(s, b + 1, v) && s[c] == '\r'
    ensures Terminated(t1) && Terminated(t2) && a + 1 < |s| && b + 1 < |s|
    ensures StrTokFrom(s, 0, " ") == (t1, Tok(a + 1, Some(0))) && CStr(t1, 0) == m
    ensures StrTokFrom(t1, a + 1, " ") == (t2, Tok(b + 1, Some(a + 1)))
    ensures StrTokFrom(t2, b + 1, "\r\n") == (t, Tok(c + 1, Some(b + 1)))
    ensures Terminated(t) && CStr(t, 0) == m && CStr(t, a + 1) == u && CStr(t, b + 1) == v
    ensures Kept(s, t, c + 1, |s|)
  {
    t1 := TokenStep(s, 0, " ", m, a);
    AtFrame(s, t1, a + 1, u);
    t2 := TokenStep(t1, a + 1, " ", u, b);
    AtFrame(s, t2, b + 1, v);
    t := TokenStep(t2, b + 1, "\r\n", v, c);
    CStrFrame(t1, t, 0);
    CStrFrame(t2, t, a + 1);
    KeptTrans(s, t1, t2, c + 1, |s|);
    KeptTrans(s, t2, t, c + 1, |s|);
  }

  /** The request line from the three strtok results over it. */
  lemma LineOfTokens(s: seq<char>, t1: seq<char>, t2: seq<char>, t: seq<char>, a: nat, b: nat, c: nat, m: string)
    requires Terminated(s) && Terminated(t1) && Terminated(t2) && a + 1 < |s| && b + 1 < |s|
    requires StrTokFrom(s, 0, " ") == (t1, Tok(a + 1, Some(0))) && CStr(t1, 0) == m
    requires StrTokFrom(t1, a + 1, " ") == (t2, Tok(b + 1, Some(a + 1)))
    requires StrTokFrom(t2, b + 1, "\r\n") == (t, Tok(c + 1, Some(b + 1)))
    ensures RequestLine(s) == (t, Line(Some(0), MethodOf(Some(m)), Some(a + 1), Some(b + 1)))
  {
    var mt := StrTokFrom(s, 0, " ");
    var ut := StrTokFrom(mt.0, mt.1.save, " ");
    assert ut == StrTokFrom(t1, a + 1, " ");
    var vt := StrTokFrom(ut.0, ut.1.save, "\r\n");
    assert vt == StrTokFrom(t2, b + 1, "\r\n");
  }

  /**
   * http_headers_init over well-formed header lines and an empty line:
   * one node per line, every line cut in place, and nothing written
   * before the block or after its lines.
   */
  lemma {:induction false} HeadersStage(t: seq<char>, line: nat, hs: seq<Header>) returns (t': seq<char>, nodes: seq<Node>)
    requires Terminated(t) && (forall h :: h in hs ==> HeaderOk(h)) && At(t, line, HeaderLines(hs) + "\r\n")
    ensures line < |t| && HeadersFrom(t, line, []) == (t', Parsed(nodes))
    ensures Terminated(t') && nodes == LineNodes(line, hs) && CutBlock(t', line, hs)
    ensures Kept(t, t', 0, line) && Kept(t, t', line + |HeaderLines(hs)|, |t|)
  {
    BlockOfLines(t, line, hs, "\r\n");
    HeadersLaidOut(t, line, hs, []);
    HeadersAfterBlock(t, line, hs, []);
    HeadersFromFrame(t, line, []);
    assert [] + LineNodes(line, hs) == LineNodes(line, hs);
    t', nodes := HeadersFrom(t, line, []).0, LineNodes(line, hs);
  }

  /**
   * The body of a well-formed request: its copy is NULL exactly when it is
   * empty, and http_params_init reads its pairs back, writing nothing
   * outside it.
   */
  lemma {:induction false} BodyStage(t: seq<char>, body: nat, bs: seq<Param>) returns (t': seq<char>, nodes: seq<Node>)
    requires Terminated(t) && (forall q :: q in bs ==> ParamOk(q)) && At(t, body, ParamsText(bs) + [NUL])
    ensures body < |t|
    ensures (if t[body] != NUL then Some(CStr(t, body)) else None) == (if bs == [] then None else Some(ParamsText(bs)))
    ensures ParamsInit(t, Some(body)) == (t', nodes) && Terminated(t') && InBuffer(nodes, |t'|)
    ensures ParamViews(t', nodes) == bs && Kept(t, t', 0, body) && Kept(t, t', body + |ParamsText(bs)|, |t|)
    ensures forall i :: 0 <= i < |nodes| ==> body <= nodes[i].first && body <= nodes[i].second
  {
    BodyCopy(t, body, bs);
    t', nodes := ParamsStage(t, body, body + |ParamsText(bs)|, bs);
  }

  /** The body's copy is NULL exactly when there are no pairs, and their text otherwise. */
  lemma {:induction false} BodyCopy(t: seq<char>, body: nat, bs: seq<Param>)
    requires Terminated(t) && (forall q :: q in bs ==> ParamOk(q)) && At(t, body, ParamsText(bs) + [NUL])
    ensures body + |ParamsText(bs)| < |t| && t[body + |ParamsText(bs)|] == NUL
    ensures (if t[body] != NUL then Some(CStr(t, body)) else None) == (if bs == [] then None else Some(ParamsText(bs)))
  {
    var text := ParamsText(bs);
    ParamsNoNul(bs);
    AtConcat(t, body, text, [NUL]);
    AtChar(t, body + |text|, NUL);
    if bs == [] {
      assert text == "";
    } else {
      assert |text| > 0;
      assert t[body + 0] == text[0];
      CStrAt(t, body, text);
    }
  }

  /** Well-formed pairs hold no NUL. */
  lemma {:induction false} ParamsNoNul(bs: seq<Param>)
    requires forall q :: q in bs ==> ParamOk(q)
    ensures NUL !in ParamsText(bs)
  {
    forall q | q in bs
      ensures NUL !in q.key && NUL !in q.value
    {
      assert ParamOk(q);
    }
    ParamsTextAvoids(bs, NUL);
  }

  /** http_params_init reads the pairs back and writes nothing outside their text. */
  lemma {:induction false} ParamsStage(t: seq<char>, body: nat, e: nat, bs: seq<Param>) returns (t': seq<char>, nodes: seq<Node>)
    requires Terminated(t) && (forall q :: q in bs ==> ParamOk(q)) && At(t, body, ParamsText(bs) + [NUL])
    requires e == body + |ParamsText(bs)|
    ensures body < |t| && ParamsInit(t, Some(body)) == (t', nodes) && Terminated(t') && InBuffer(nodes, |t'|)
    ensures ParamViews(t', nodes) == bs && Kept(t, t', 0, body) && Kept(t, t', e, |t|)
    ensures forall i :: 0 <= i < |nodes| ==> body <= nodes[i].first && body <= nodes[i].second
  {
    AtSplit(t, body, ParamsText(bs), [NUL], e);
    AtChar(t, e, NUL);
    ParamsRoundTrip(t, body, bs);
    ParamsInitBounds(t, body, e);
    t', nodes := ParamsInit(t, Some(body)).0, ParamsInit(t, Some(body)).1;
  }

  /**
   * strchr finds the '?' that ends the path; it is overwritten with NUL,
   * the URI then reads as the path, and the pairs after it come back.
   * Nothing is written before the '?' or after the query's terminator.
   */
  lemma {:induction false} QueryCut(s: seq<char>, uri: nat, path: string, qs: seq<Param>) returns (t': seq<char>, nodes: seq<Node>)
    requires Terminated(s) && '?' !in path && NUL !in path && (forall q :: q in qs ==> ParamOk(q))
    requires At(s, uri, path + "?" + ParamsText(qs) + [NUL])
    ensures uri < |s| && QueryOf(s, uri) == (t', nodes) && Terminated(t') && InBuffer(nodes, |t'|)
    ensures CStr(t', uri) == path && ParamViews(t', nodes) == qs
    ensures Kept(s, t', 0, uri + |path|) && Kept(s, t', uri + |path| + 1 + |ParamsText(qs)|, |s|)
  {
    QueryFound(s, uri, path, qs);
    t', nodes := QueryRead(s, uri, path, qs);
  }

  /** strchr's '?' overwritten, the URI reads as the path and the pairs after it come back. */
  lemma {:induction false} QueryRead(s: seq<char>, uri: nat, path: string, qs: seq<Param>) returns (t': seq<char>, nodes: seq<Node>)
    requires Terminated(s) && NUL !in path && (forall q :: q in qs ==> ParamOk(q))
    requires uri + |path| + 1 + |ParamsText(qs)| < |s| && StrStr(s, uri, "?") == Some(|path|)
    requires At(s, uri, path) && At(s, uri + |path| + 1, ParamsText(qs) + [NUL])
    ensures QueryOf(s, uri) == (t', nodes) && Terminated(t') && InBuffer(nodes, |t'|)
    ensures CStr(t', uri) == path && ParamViews(t', nodes) == qs
    ensures Kept(s, t', 0, uri + |path|) && Kept(s, t', uri + |path| + 1 + |ParamsText(qs)|, |s|)
  {
    QueryOfFound(s, uri, path);
    var t := s[uri + |path| := NUL];
    t', nodes := QueryTail(s, t, uri, path, qs, uri + |path|, uri + |path| + 1, uri + |path| + 1 + |ParamsText(qs)|);
  }

  /** Where the '?', the pairs and their terminator sit after a URI with a query. */
  lemma {:induction false} QueryFound(s: seq<char>, uri: nat, path: string, qs: seq<Param>)
    requires Terminated(s) && '?' !in path && NUL !in path
    requires At(s, uri, path + "?" + ParamsText(qs) + [NUL])
    ensures uri + |path| + 1 + |ParamsText(qs)| < |s| && s[uri + |path| + 1 + |ParamsText(qs)|] == NUL
    ensures StrStr(s, uri, "?") == Some(|path|)
    ensures At(s, uri, path) && At(s, uri + |path| + 1, ParamsText(qs) + [NUL])
  {
    var q := uri + |path|;
    var e := q + 1 + |ParamsText(qs)|;
    var w := path + "?";
    var x := w + ParamsText(qs);
    AtConcat(s, uri, x, [NUL]);
    assert uri + |x| == e && At(s, e, [NUL]);
    AtChar(s, e, NUL);
    AtConcat(s, uri, w, ParamsText(qs));
    assert uri + |w| == q + 1 && At(s, q + 1, ParamsText(qs));
    AtConcat(s, q + 1, ParamsText(qs), [NUL]);
    AtConcat(s, uri, path, "?");
    assert At(s, q, "?");
    AtChar(s, q, '?');
    forall k | uri <= k < q
      ensures s[k] != NUL && s[k] != '?'
    {
      assert s[uri + (k - uri)] == path[k - uri];
    }
    forall k | uri <= k < q
      ensures !At(s, k, "?")
    {
      assert s[k + 0] != "?"[0];
    }
    StrStrAt(s, uri, "?", |path|);
  }

  /** The pairs after the '?' once it is NUL at q, and the path before it; they run from p to e. */
  lemma {:induction false} QueryTail(s: seq<char>, t: seq<char>, uri: nat, path: string, qs: seq<Param>, q: nat, p: nat, e: nat)
    returns (t': seq<char>, nodes: seq<Node>)
    requires Terminated(s) && NUL !in path && (forall q :: q in qs ==> ParamOk(q))
    requires q == uri + |path| && p == q + 1 && e == p + |ParamsText(qs)| && e < |s|
    requires At(s, uri, path) && At(s, p, ParamsText(qs) + [NUL])
    requires Kept(s, t, 0, q) && Kept(s, t, p, |s|) && t[q] == NUL
    ensures ParamsInit(t, Some(p)) == (t', nodes) && Terminated(t') && InBuffer(nodes, |t'|)
    ensures CStr(t', uri) == path && ParamViews(t', nodes) == qs
    ensures Kept(s, t', 0, q) && Kept(s, t', e, |s|)
  {
    AtFrame(s, t, p, ParamsText(qs) + [NUL]);
    assert CStr(t, uri) == path by {
      AtFrame(s, t, uri, path);
      forall i | 0 <= i < |path|
        ensures path[i] != NUL
      {
      }
      CStrAt(t, uri, path);
    }
    t', nodes := ParamsStage(t, p, e, qs);
    CStrFrame(t, t', uri);
    KeptWithin(t, t', 0, p, 0, q);
    KeptTrans(s, t, t', 0, q);
    KeptWithin(s, t, p, |s|, e, |s|);
    KeptTrans(s, t, t', e, |s|);
  }

  /** Once strchr has found the '?' right after the path, the query is what follows it. */
  lemma QueryOfFound(s: seq<char>, uri: nat, path: string)
    requires Terminated(s) && uri < |s| && StrStr(s, uri, "?") == Some(|path|)
    ensures uri + |path| + 1 < |s| && QueryOf(s, uri) == ParamsInit(s[uri + |path| := NUL], Some(uri + |path| + 1))
  {
  }

  /** A URI without '?' has no query: nothing is written and the list is NULL. */
  lemma {:induction false} NoQuery(s: seq<char>, uri: nat)
    requires Terminated(s) && uri < |s| && '?' !in CStr(s, uri)
    ensures QueryOf(s, uri) == (s, [])
  {
    var t := CStr(s, uri);
    CStrChars(s, uri);
    forall k | uri <= k < uri + StrLen(s, uri)
      ensures !At(s, k, "?")
    {
      assert s[k] == t[k - uri];
      assert s[k + 0] != "?"[0];
    }
    StrStrNone(s, uri, "?");
  }

  /** The query pairs a request target carries: none without a '?'. */
  function Pairs(query: Option<seq<Param>>): seq<Param>
  {
    if query.Some? then query.value else []
  }

  predicate QueryOk(query: Option<seq<Param>>)
  {
    query.Some? ==> forall q :: q in query.value ==> ParamOk(q)
  }

  /**
   * What a request reads back as from the buffer t it leaves: the raw
   * copy, the three request-line tokens and the method, the headers, the
   * body's copy and pairs, and the query pairs.
   */
  predicate ReadsBack(t: seq<char>, req: Request, raw: string, m: string, path: string, query: Option<seq<Param>>, v: string, hs: seq<Header>, bs: seq<Param>)
  {
    && Terminated(t) && req.raw == raw
    && req.methodStr == Some(0) && req.httpMethod == MethodOf(Some(m)) && CStr(t, 0) == m
    && req.uri == Some(|m| + 1) && |m| + 1 < |t| && CStr(t, |m| + 1) == path
    && req.version == Some(|m| + |Uri(path, query)| + 2) && |m| + |Uri(path, query)| + 2 < |t|
    && CStr(t, |m| + |Uri(path, query)| + 2) == v
    && InBuffer(req.headers, |t|) && HeaderViews(t, req.headers) == hs
    && req.body == (if bs == [] then None else Some(ParamsText(bs)))
    && InBuffer(req.bodyParams, |t|) && ParamViews(t, req.bodyParams) == bs
    && InBuffer(req.queryParams, |t|) && ParamViews(t, req.queryParams) == Pairs(query)
  }

  /**
   * The round trip: http_request_init on the text of a well-formed request
   * builds a request that reads back the method, the path, the query
   * pairs, the version, the headers and the body pairs it was made of, and
   * copies the whole text as raw.
   */
  lemma {:induction false} RequestRoundTrip(s: seq<char>, m: string, path: string, query: Option<seq<Param>>, v: string, hs: seq<Header>, bs: seq<Param>)
    requires Word(m) && Word(Uri(path, query)) && Word(v) && '?' !in path && QueryOk(query)
    requires (forall h :: h in hs ==> HeaderOk(h)) && (forall q :: q in bs ==> ParamOk(q))
    requires s == RequestText(m, Uri(path, query), v, hs, ParamsText(bs)) + [NUL]
    ensures Terminated(s) && RequestInit(s, true).1.Built?
    ensures ReadsBack(RequestInit(s, true).0, RequestInit(s, true).1.req, RequestText(m, Uri(path, query), v, hs, ParamsText(bs)), m, path, query, v, hs, bs)
  {
    ParamsNoNul(bs);
    RequestLayout(s, m, Uri(path, query), v, hs, ParamsText(bs));
    LaidRoundTrip(s, m, path, query, v, hs, bs);
  }

  /** The round trip on a buffer that holds a laid-out request. */
  lemma {:induction false} LaidRoundTrip(s: seq<char>, m: string, path: string, query: Option<seq<Param>>, v: string, hs: seq<Header>, bs: seq<Param>)
    requires Word(m) && Word(Uri(path, query)) && Word(v) && '?' !in path && QueryOk(query)
    requires (forall h :: h in hs ==> HeaderOk(h)) && (forall q :: q in bs ==> ParamOk(q))
    requires Terminated(s) && Laid(s, m, Uri(path, query), v, hs, ParamsText(bs))
    ensures RequestInit(s, true).1.Built?
    ensures ReadsBack(RequestInit(s, true).0, RequestInit(s, true).1.req, CStr(s, 0), m, path, query, v, hs, bs)
  {
    var c, bd, t, req := LaidStages(s, m, path, query, v, hs, bs);
    SearchedRoundTrip(s, c, bd, t, req, m, path, query, v, hs, bs);
  }

  /** Where the searches stop in a laid-out request, and what RequestParsed builds from there. */
  lemma {:induction false} LaidStages(s: seq<char>, m: string, path: string, query: Option<seq<Param>>, v: string, hs: seq<Header>, bs: seq<Param>)
    returns (c: nat, bd: nat, t: seq<char>, req: Request)
    requires Word(m) && Word(Uri(path, query)) && Word(v) && '?' !in path && QueryOk(query)
    requires (forall h :: h in hs ==> HeaderOk(h)) && (forall q :: q in bs ==> ParamOk(q))
    requires Terminated(s) && Laid(s, m, Uri(path, query), v, hs, ParamsText(bs))
    ensures StrStr(s, 0, "\r\n").Some? && StrStr(s, 0, "\r\n").value == c
    ensures StrStr(s, 0, "\r\n\r\n").Some? && StrStr(s, 0, "\r\n\r\n").value + 4 == bd
    ensures c + 2 < |s| && bd < |s| && RequestParsed(s, c, bd) == (t, Built(req))
    ensures ReadsBack(t, req, CStr(s, 0), m, path, query, v, hs, bs)
  {
    RequestSearches(s, m, Uri(path, query), v, hs, ParamsText(bs));
    c := |m| + |Uri(path, query)| + |v| + 2;
    bd := |m| + |Uri(path, query)| + |v| + 2 + |HeaderLines(hs)| + 4;
    t, req := ParsedRoundTrip(s, m, path, query, v, hs, bs, c, bd);
  }

  /** The round trip once the CRLF search has found c and the blank-line search puts the body at bd. */
  lemma SearchedRoundTrip(s: seq<char>, c: nat, bd: nat, t: seq<char>, req: Request,
                          m: string, path: string, query: Option<seq<Param>>, v: string, hs: seq<Header>, bs: seq<Param>)
    requires Terminated(s)
    requires StrStr(s, 0, "\r\n").Some? && StrStr(s, 0, "\r\n").value == c
    requires StrStr(s, 0, "\r\n\r\n").Some? && StrStr(s, 0, "\r\n\r\n").value + 4 == bd
    requires c + 2 < |s| && bd < |s| && RequestParsed(s, c, bd) == (t, Built(req))
    requires ReadsBack(t, req, CStr(s, 0), m, path, query, v, hs, bs)
    ensures RequestInit(s, true).1.Built?
    ensures ReadsBack(RequestInit(s, true).0, RequestInit(s, true).1.req, CStr(s, 0), m, path, query, v, hs, bs)
  {
    InitIsParsed(s, c, bd);
    ReadsBackOf(RequestInit(s, true), t, req, CStr(s, 0), m, path, query, v, hs, bs);
  }

  /** An outcome that is the request req over the buffer t reads back what they read back. */
  lemma ReadsBackOf(r: (seq<char>, Outcome), t: seq<char>, req: Request, raw: string, m: string, path: string, query: Option<seq<Param>>, v: string, hs: seq<Header>, bs: seq<Param>)
    requires r == (t, Built(req)) && ReadsBack(t, req, raw, m, path, query, v, hs, bs)
    ensures r.1.Built? && ReadsBack(r.0, r.1.req, raw, m, path, query, v, hs, bs)
  {
  }

  /** http_request_init searches for the first CRLF and the blank line, then goes on with RequestParsed. */
  lemma InitSearches(s: seq<char>)
    requires Terminated(s)
    ensures RequestInit(s, true) == (var crlf := StrStr(s, 0, "\r\n"); var blank := StrStr(s, 0, "\r\n\r\n");
      if crlf.None? || blank.None? then (s, Null) else RequestParsed(s, crlf.value, blank.value + 4))
  {
  }

  /** Once both searches succeed, http_request_init goes on with what follows them. */
  lemma InitIsParsed(s: seq<char>, c: nat, bd: nat)
    requires Terminated(s)
    requires StrStr(s, 0, "\r\n").Some? && StrStr(s, 0, "\r\n").value == c
    requires StrStr(s, 0, "\r\n\r\n").Some? && StrStr(s, 0, "\r\n\r\n").value + 4 == bd
    ensures c + 2 < |s| && bd < |s| && RequestInit(s, true) == RequestParsed(s, c, bd)
  {
    InitSearches(s);
  }

  /** RequestParsed on a laid-out request, stage after stage; the first CRLF is at c and the body at bd. */
  lemma {:induction false} ParsedRoundTrip(s: seq<char>, m: string, path: string, query: Option<seq<Param>>, v: string, hs: seq<Header>, bs: seq<Param>,
                                           c: nat, bd: nat)
    returns (t: seq<char>, req: Request)
    requires Terminated(s) && Word(m) && Word(Uri(path, query)) && Word(v) && '?' !in path && QueryOk(query)
    requires (forall h :: h in hs ==> HeaderOk(h)) && (forall q :: q in bs ==> ParamOk(q))
    requires Laid(s, m, Uri(path, query), v, hs, ParamsText(bs))
    requires c == |m| + |Uri(path, query)| + |v| + 2 && bd == |m| + |Uri(path, query)| + |v| + 2 + |HeaderLines(hs)| + 4
    ensures c + 2 < |s| && bd < |s| && RequestParsed(s, c, bd) == (t, Built(req))
    ensures ReadsBack(t, req, CStr(s, 0), m, path, query, v, hs, bs)
  {
    var t1 := LineStage(s, m, Uri(path, query), v, hs, ParamsText(bs));
    AtMoved(t1, |m| + |Uri(path, query)| + |v| + 2 + 2, c + 2, HeaderLines(hs) + "\r\n");
    AtMoved(t1, |m| + |Uri(path, query)| + |v| + 2 + |HeaderLines(hs)| + 4, bd, ParamsText(bs) + [NUL]);
    t, req := ParsedAfterLine(s, t1, m, path, query, v, hs, bs, c, bd);
  }

  /** RequestParsed once the request line is cut: the headers, the body and the query. */
  lemma {:induction false} ParsedAfterLine(s: seq<char>, t1: seq<char>, m: string, path: string, query: Option<seq<Param>>, v: string,
                                           hs: seq<Header>, bs: seq<Param>, c: nat, bd: nat)
    returns (t: seq<char>, req: Request)
    requires Terminated(s) && Word(Uri(path, query)) && '?' !in path && QueryOk(query)
    requires (forall h :: h in hs ==> HeaderOk(h)) && (forall q :: q in bs ==> ParamOk(q))
    requires c == |m| + |Uri(path, query)| + |v| + 2 && bd == c + 2 + |HeaderLines(hs)| + 2 && |s| == |t1|
    requires RequestLine(s) == (t1, Line(Some(0), MethodOf(Some(m)), Some(|m| + 1), Some(|m| + |Uri(path, query)| + 2)))
    requires Terminated(t1) && CStr(t1, 0) == m && |m| + 1 < |t1| && CStr(t1, |m| + 1) == Uri(path, query)
    requires |m| + |Uri(path, query)| + 2 < |t1| && CStr(t1, |m| + |Uri(path, query)| + 2) == v
    requires At(t1, c + 2, HeaderLines(hs) + "\r\n") && At(t1, bd, ParamsText(bs) + [NUL])
    ensures c + 2 < |s| && bd < |s| && RequestParsed(s, c, bd) == (t, Built(req))
    ensures ReadsBack(t, req, CStr(s, 0), m, path, query, v, hs, bs)
  {
    CStrPlaced(t1, |m| + 1);
    var t2, hn, t3, bn, t4, qn := LaterStages(t1, m, path, query, hs, bs, c, bd);
    ReadLine(t1, t4, m, path, query, v, c);
    var line := Line(Some(0), MethodOf(Some(m)), Some(|m| + 1), Some(|m| + |Uri(path, query)| + 2));
    ParsedOfStages(s, c, bd, t1, line, t2, hn, t3, bn, t4, qn);
    t := t4;
    req := Request(CStr(s, 0), line.methodStr, line.httpMethod, line.uri, line.version, hn,
      if t2[bd] != NUL then Some(CStr(t2, bd)) else None, bn, qn);
  }

  /**
   * The header, body and query stages after the request line, what the
   * buffer they leave reads back as, and the request line's tokens they
   * leave alone.
   */
  lemma {:induction false} LaterStages(t1: seq<char>, m: string, path: string, query: Option<seq<Param>>,
                                       hs: seq<Header>, bs: seq<Param>, c: nat, bd: nat)
    returns (t2: seq<char>, hn: seq<Node>, t3: seq<char>, bn: seq<Node>, t4: seq<char>, qn: seq<Node>)
    requires Word(Uri(path, query)) && '?' !in path && QueryOk(query)
    requires (forall h :: h in hs ==> HeaderOk(h)) && (forall q :: q in bs ==> ParamOk(q))
    requires |m| + 1 + |Uri(path, query)| < c + 2 && bd == c + 2 + |HeaderLines(hs)| + 2
    requires Terminated(t1) && At(t1, |m| + 1, Uri(path, query) + [NUL])
    requires At(t1, c + 2, HeaderLines(hs) + "\r\n") && At(t1, bd, ParamsText(bs) + [NUL])
    ensures c + 2 < |t1| && bd < |t1| && HeadersFrom(t1, c + 2, []) == (t2, Parsed(hn))
    ensures Terminated(t2) && |t2| == |t1| && (if t2[bd] != NUL then Some(CStr(t2, bd)) else None) == (if bs == [] then None else Some(ParamsText(bs)))
    ensures ParamsInit(t2, Some(bd)) == (t3, bn) && Terminated(t3) && |t3| == |t1| && QueryOf(t3, |m| + 1) == (t4, qn)
    ensures Terminated(t4) && CStr(t4, |m| + 1) == path
    ensures InBuffer(hn, |t4|) && HeaderViews(t4, hn) == hs
    ensures InBuffer(bn, |t4|) && ParamViews(t4, bn) == bs
    ensures InBuffer(qn, |t4|) && ParamViews(t4, qn) == Pairs(query)
    ensures Kept(t1, t4, 0, |m| + 1) && Kept(t1, t4, |m| + 1 + |Uri(path, query)|, c + 2)
  {
    t2, hn, t3, bn := BlockStages(t1, c, bd, hs, bs);
    UriPath(path, query);
    AtFrame(t1, t3, |m| + 1, Uri(path, query) + [NUL]);
    t4, qn := UriStage(t3, |m| + 1, path, query);
    BlockViews(t2, t3, t4, c, bd, hs, hn, bn, |m| + 1 + |Uri(path, query)|);
    KeptThrough(t1, t3, t4, 0, |m| + 1, 0, c + 2, 0, |m| + 1 + |path|);
    KeptThrough(t1, t3, t4, |m| + 1 + |Uri(path, query)|, c + 2, 0, c + 2, |m| + 1 + |Uri(path, query)|, |t3|);
  }

  /** Two writes that both keep [lo, hi) keep it together. */
  lemma KeptThrough(a: seq<char>, b: seq<char>, d: seq<char>, lo: nat, hi: nat, lo1: nat, hi1: nat, lo2: nat, hi2: nat)
    requires Kept(a, b, lo1, hi1) && Kept(b, d, lo2, hi2)
    requires lo1 <= lo && hi <= hi1 && lo2 <= lo && hi <= hi2
    ensures Kept(a, d, lo, hi)
  {
  }

  /** The method and the version, read back from a buffer that kept them and their terminators. */
  lemma {:induction false} ReadLine(t1: seq<char>, t4: seq<char>, m: string, path: string, query: Option<seq<Param>>, v: string, c: nat)
    requires Terminated(t1) && Terminated(t4) && c == |m| + |Uri(path, query)| + |v| + 2
    requires CStr(t1, 0) == m && |m| + |Uri(path, query)| + 2 < |t1| && CStr(t1, |m| + |Uri(path, query)| + 2) == v
    requires Kept(t1, t4, 0, |m| + 1) && Kept(t1, t4, |m| + 1 + |Uri(path, query)|, c + 2)
    ensures CStr(t4, 0) == m && CStr(t4, |m| + |Uri(path, query)| + 2) == v
  {
    CStrFrame(t1, t4, 0);
    CStrFrame(t1, t4, |m| + |Uri(path, query)| + 2);
  }

  /**
   * The headers and the body pairs read back from the final buffer: the
   * body stage writes only after the header block, and the query stage
   * only before e.
   */
  lemma {:induction false} BlockViews(t2: seq<char>, t3: seq<char>, t4: seq<char>, c: nat, bd: nat,
                                      hs: seq<Header>, hn: seq<Node>, bn: seq<Node>, e: nat)
    requires Terminated(t2) && Terminated(t3) && Terminated(t4)
    requires (forall h :: h in hs ==> HeaderOk(h)) && CutBlock(t2, c + 2, hs) && hn == LineNodes(c + 2, hs)
    requires c + 2 + |HeaderLines(hs)| <= bd && e <= c + 2
    requires InBuffer(bn, |t3|) && forall i :: 0 <= i < |bn| ==> bd <= bn[i].first && bd <= bn[i].second
    requires Kept(t2, t3, 0, bd) && Kept(t3, t4, e, |t3|)
    ensures InBuffer(hn, |t4|) && HeaderViews(t4, hn) == hs
    ensures InBuffer(bn, |t4|) && ParamViews(t4, bn) == ParamViews(t3, bn)
  {
    KeptThrough(t2, t3, t4, c + 2, bd, 0, bd, e, |t3|);
    CutBlockFrame(t2, t4, c + 2, hs);
    CutBlockViews(t4, c + 2, hs);
    ParamViewsFrame(t3, t4, bn, bd);
  }

  /** The request line cut in place, and the header block and body it leaves in place. */
  lemma {:induction false} LineStage(s: seq<char>, m: string, u: string, v: string, hs: seq<Header>, body: string) returns (t: seq<char>)
    requires Terminated(s) && Word(m) && Word(u) && Word(v) && |m| + |u| + |v| + 2 < |s|
    requires At(s, 0, m) && s[|m|] == ' ' && At(s, |m| + 1, u) && s[|m| + 1 + |u|] == ' ' && At(s, |m| + |u| + 2, v)
    requires At(s, |m| + |u| + |v| + 2, "\r\n") && At(s, |m| + |u| + |v| + 2 + 2, HeaderLines(hs) + "\r\n")
    requires At(s, |m| + |u| + |v| + 2 + |HeaderLines(hs)| + 4, body + [NUL])
    ensures RequestLine(s) == (t, Line(Some(0), MethodOf(Some(m)), Some(|m| + 1), Some(|m| + |u| + 2)))
    ensures Terminated(t) && |t| == |s| && CStr(t, 0) == m && |m| + 1 < |t| && CStr(t, |m| + 1) == u
    ensures |m| + |u| + 2 < |t| && CStr(t, |m| + |u| + 2) == v
    ensures At(t, |m| + |u| + |v| + 2 + 2, HeaderLines(hs) + "\r\n")
    ensures At(t, |m| + |u| + |v| + 2 + |HeaderLines(hs)| + 4, body + [NUL])
  {
    assert s[|m| + |u| + |v| + 2] == '\r' by {
      assert s[|m| + |u| + |v| + 2 + 0] == "\r\n"[0];
    }
    t := RequestLineWords(s, m, u, v);
    AtFrame(s, t, |m| + |u| + |v| + 2 + 2, HeaderLines(hs) + "\r\n");
    AtFrame(s, t, |m| + |u| + |v| + 2 + |HeaderLines(hs)| + 4, body + [NUL]);
  }

  /** The header block and then the body, each read back, with the buffer kept before them. */
  lemma {:induction false} BlockStages(t1: seq<char>, c: nat, bd: nat, hs: seq<Header>, bs: seq<Param>)
    returns (t2: seq<char>, hn: seq<Node>, t3: seq<char>, bn: seq<Node>)
    requires Terminated(t1) && (forall h :: h in hs ==> HeaderOk(h)) && (forall q :: q in bs ==> ParamOk(q))
    requires bd == c + 2 + |HeaderLines(hs)| + 2
    requires At(t1, c + 2, HeaderLines(hs) + "\r\n") && At(t1, bd, ParamsText(bs) + [NUL])
    ensures c + 2 < |t1| && bd < |t1|
    ensures HeadersFrom(t1, c + 2, []) == (t2, Parsed(hn)) && Terminated(t2) && hn == LineNodes(c + 2, hs)
    ensures CutBlock(t2, c + 2, hs)
    ensures (if t2[bd] != NUL then Some(CStr(t2, bd)) else None) == (if bs == [] then None else Some(ParamsText(bs)))
    ensures ParamsInit(t2, Some(bd)) == (t3, bn) && Terminated(t3) && InBuffer(bn, |t3|) && ParamViews(t3, bn) == bs
    ensures forall i :: 0 <= i < |bn| ==> bd <= bn[i].first && bd <= bn[i].second
    ensures Kept(t1, t3, 0, c + 2) && Kept(t2, t3, 0, bd)
  {
    t2, hn := HeadersStage(t1, c + 2, hs);
    AtFrame(t1, t2, bd, ParamsText(bs) + [NUL]);
    t3, bn := BodyStage(t2, bd, bs);
    KeptWithin(t2, t3, 0, bd, 0, c + 2);
    KeptTrans(t1, t2, t3, 0, c + 2);
  }

  /** The path of a request target is its start, and holds no NUL when the target is a token. */
  lemma {:induction false} UriPath(path: string, query: Option<seq<Param>>)
    requires Word(Uri(path, query))
    ensures NUL !in path && |path| <= |Uri(path, query)|
    ensures query.Some? ==> |Uri(path, query)| == |path| + 1 + |ParamsText(query.value)|
  {
    var u := Uri(path, query);
    forall i | 0 <= i < |path|
      ensures path[i] != NUL
    {
      assert path[i] == u[i];
    }
  }

  /** The query of a request target cut and read back: its pairs, or none without a '?'. */
  lemma {:induction false} UriStage(t: seq<char>, p: nat, path: string, query: Option<seq<Param>>) returns (t': seq<char>, nodes: seq<Node>)
    requires Terminated(t) && '?' !in path && NUL !in path && QueryOk(query)
    requires At(t, p, Uri(path, query) + [NUL])
    ensures p < |t| && QueryOf(t, p) == (t', nodes) && Terminated(t') && InBuffer(nodes, |t'|)
    ensures CStr(t', p) == path && ParamViews(t', nodes) == Pairs(query)
    ensures Kept(t, t', 0, p + |path|) && Kept(t, t', p + |Uri(path, query)|, |t|)
  {
    if query.Some? {
      t', nodes := QueryCut(t, p, path, query.value);
    } else {
      AtSplit(t, p, path, [NUL], p + |path|);
      AtChar(t, p + |path|, NUL);
      CStrAt(t, p, path);
      NoQuery(t, p);
      t', nodes := t, [];
    }
  }

  /** RequestParsed from the results of its stages. */
  lemma ParsedOfStages(s: seq<char>, c: nat, bd: nat, t1: seq<char>, line: Line, t2: seq<char>, hn: seq<Node>,
                       t3: seq<char>, bn: seq<Node>, t4: seq<char>, qn: seq<Node>)
    requires Terminated(s) && c + 2 < |s| && bd < |s|
    requires RequestLine(s) == (t1, line) && line.uri.Some?
    requires HeadersFrom(t1, c + 2, []) == (t2, Parsed(hn))
    requires ParamsInit(t2, Some(bd)) == (t3, bn) && QueryOf(t3, line.uri.value) == (t4, qn)
    ensures bd < |t2| && RequestParsed(s, c, bd) ==
      (t4, Built(Request(CStr(s, 0), line.methodStr, line.httpMethod, line.uri, line.version, hn,
                         if t2[bd] != NUL then Some(CStr(t2, bd)) else None, bn, qn)))
  {
  }
}
