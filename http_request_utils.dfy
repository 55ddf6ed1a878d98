/**
 * The request helpers of the todo API server: looking up a header or a
 * parameter by name, mapping the method string to its enumeration, and
 * building the header and parameter lists by cutting the request buffer into
 * C strings with strtok.
 *
 * The lists are sequences.  A node holds the two pointers the C code stores,
 * as indices into the request buffer, and `HeaderViews`/`ParamViews` read
 * the strings they point to.  strtok's hidden static pointer is threaded
 * through each function as a local saved position: each of these functions
 * begins with a strtok call on a non-NULL string, so no state crosses from
 * one function to the next.
 */
module HttpUtils {
  import opened Wrappers
  import opened CString

  /** The request methods in the order of get_method's table, and UNKNOWN. */
  datatype Method = GET | HEAD | POST | PUT | DELETE | CONNECT | OPTIONS | TRACE | UNKNOWN

  const MethodNames: seq<string> := ["GET", "HEAD", "POST", "PUT", "DELETE", "CONNECT", "OPTIONS", "TRACE"]
  const Methods: seq<Method> := [GET, HEAD, POST, PUT, DELETE, CONNECT, OPTIONS, TRACE]

  /** The table entries from i on: the method whose name is `name`, or UNKNOWN. */
  function MethodFrom(name: string, i: nat): (m: Method)
    requires i <= |MethodNames|
    ensures forall j :: i <= j < |MethodNames| ==> (m == Methods[j] <==> name == MethodNames[j])
    ensures m == UNKNOWN <==> forall j :: i <= j < |MethodNames| ==> name != MethodNames[j]
    decreases |MethodNames| - i
  {
    if i == |MethodNames| then UNKNOWN
    else if MethodNames[i] == name then Methods[i]
    else MethodFrom(name, i + 1)
  }

  /**
   * What get_method returns: the enumerator whose table name equals the
   * string, and UNKNOWN for NULL, for the empty string and for every other
   * string.
   */
  function MethodOf(methodStr: Option<string>): (m: Method)
    ensures m != UNKNOWN <==> methodStr.Some? && methodStr.value in MethodNames
    ensures forall i :: 0 <= i < |MethodNames| ==> (m == Methods[i] <==> methodStr == Some(MethodNames[i]))
  {
    if methodStr.None? || methodStr.value == "" then UNKNOWN
    else MethodFrom(methodStr.value, 0)
  }

  /** get_method: a scan of the method table. */
  method GetMethod(methodStr: Option<string>) returns (m: Method)
    ensures m == MethodOf(methodStr)
  {
    if methodStr.None? || |methodStr.value| == 0 {
      return UNKNOWN;
    }
    var i := 0;
    while i < |MethodNames|
      invariant 0 <= i <= |MethodNames|
      invariant MethodFrom(methodStr.value, i) == MethodOf(methodStr)
    {
      if MethodNames[i] == methodStr.value {
        return Methods[i];
      }
      i := i + 1;
    }
    return UNKNOWN;
  }

  /** A header field and its value, as the strings a header node points to. */
  datatype Header = Header(field: string, value: string)

  /** A parameter key and its value, as the strings a parameter node points to. */
  datatype Param = Param(key: string, value: string)

  /** get_header: the value of the first header whose field is `field`, or NULL when none is. */
  method GetHeader(headers: seq<Header>, field: string) returns (v: Option<string>)
    ensures v.None? <==> forall i :: 0 <= i < |headers| ==> headers[i].field != field
    ensures v.Some? ==> exists i :: (0 <= i < |headers| && headers[i] == Header(field, v.value)
      && forall j :: 0 <= j < i ==> headers[j].field != field)
  {
    var i := 0;
    while i < |headers|
      invariant 0 <= i <= |headers|
      invariant forall j :: 0 <= j < i ==> headers[j].field != field
    {
      if headers[i].field == field {
        return Some(headers[i].value);
      }
      i := i + 1;
    }
    return None;
  }

  /** get_param: the value of the first parameter whose key is `key`, or NULL when none is. */
  method GetParam(params: seq<Param>, key: string) returns (v: Option<string>)
    ensures v.None? <==> forall i :: 0 <= i < |params| ==> params[i].key != key
    ensures v.Some? ==> exists i :: (0 <= i < |params| && params[i] == Param(key, v.value)
      && forall j :: 0 <= j < i ==> params[j].key != key)
  {
    var i := 0;
    while i < |params|
      invariant 0 <= i <= |params|
      invariant forall j :: 0 <= j < i ==> params[j].key != key
    {
      if params[i].key == key {
        return Some(params[i].value);
      }
      i := i + 1;
    }
    return None;
  }

  /** A list node as the parser builds it: the positions of its two strings in the request buffer. */
  datatype Node = Node(first: nat, second: nat)

  predicate InBuffer(nodes: seq<Node>, n: nat)
  {
    forall i :: 0 <= i < |nodes| ==> nodes[i].first < n && nodes[i].second < n
  }

  /** The header one node denotes in buffer s: the two strings it points to. */
  function HeaderView(s: seq<char>, n: Node): (h: Header)
    requires Terminated(s) && n.first < |s| && n.second < |s|
  {
    Header(CStr(s, n.first), CStr(s, n.second))
  }

  /** The headers a list of header nodes denotes in buffer s. */
  function HeaderViews(s: seq<char>, nodes: seq<Node>): (hs: seq<Header>)
    requires Terminated(s) && InBuffer(nodes, |s|)
    ensures |hs| == |nodes| && forall i :: 0 <= i < |nodes| ==> hs[i] == HeaderView(s, nodes[i])
  {
    seq(|nodes|, i requires 0 <= i < |nodes| => HeaderView(s, nodes[i]))
  }

  /** The parameters a list of parameter nodes denotes in buffer s. */
  function ParamView(s: seq<char>, n: Node): (q: Param)
    requires Terminated(s) && n.first < |s| && n.second < |s|
  {
    Param(CStr(s, n.first), CStr(s, n.second))
  }

  function ParamViews(s: seq<char>, nodes: seq<Node>): (ps: seq<Param>)
    requires Terminated(s) && InBuffer(nodes, |s|)
    ensures |ps| == |nodes| && forall i :: 0 <= i < |nodes| ==> ps[i] == ParamView(s, nodes[i])
  {
    seq(|nodes|, i requires 0 <= i < |nodes| => ParamView(s, nodes[i]))
  }

  /** What http_headers_init returns: a list (NULL when it is empty), or behaviour C leaves undefined. */
  datatype Parsed = Parsed(nodes: seq<Node>) | Undefined

  /** The outcome of one pass of http_headers_init's loop: the buffer after it and, unless it is undefined, the node and the next line. */
  datatype LineCut = Cut(node: Node, next: nat) | Broken

  /**
   * One pass of http_headers_init's loop over a line that starts with
   * neither CR nor NUL: the position after its CRLF, the field cut at the
   * first ':' and the value cut at the next CR or LF, less its first
   * character.  Broken when the line has no CRLF (the next line pointer
   * would be NULL + 2) or no value (the value would be NULL + 1): both are
   * undefined.  No write happens before `line`.
   */
  function CutLine(s: seq<char>, line: nat): (r: (seq<char>, LineCut))
    requires Terminated(s) && line < |s|
    ensures |r.0| == |s| && Terminated(r.0)
    ensures r.1.Cut? ==> line < r.1.next < |s| && r.1.node.first < |s| && r.1.node.second < |s|
  {
    var crlf := StrStr(s, line, "\r\n");
    if crlf.None? then (s, Broken)
    else
      var field := StrTokFrom(s, line, ":");
      var value := StrTokFrom(field.0, field.1.save, "\r\n");
      // a NULL field is always followed by a NULL value
      if field.1.token.None? || value.1.token.None? then (value.0, Broken)
      else (value.0, Cut(Node(field.1.token.value, value.1.token.value + 1), line + crlf.value + 2))
  }

  /**
   * The loop of http_headers_init from the line at `line`, with the nodes
   * built so far: stop at a line that starts with CR, give NULL (dropping
   * the list) at the end of the string, and cut every other line.  No write
   * happens before `line`.
   */
  function HeadersFrom(s: seq<char>, line: nat, acc: seq<Node>): (r: (seq<char>, Parsed))
    requires Terminated(s) && line < |s| && InBuffer(acc, |s|)
    ensures |r.0| == |s| && Terminated(r.0)
    ensures r.1.Parsed? ==> InBuffer(r.1.nodes, |s|)
    decreases |s| - line, 1
  {
    if s[line] == '\r' then (s, Parsed(acc))
    else if s[line] == NUL then (s, Parsed([]))
    else HeadersAfter(line, CutLine(s, line), acc)
  }

  /** The rest of http_headers_init's loop once the line at `line` has been cut into c. */
  function HeadersAfter(line: nat, c: (seq<char>, LineCut), acc: seq<Node>): (r: (seq<char>, Parsed))
    requires Terminated(c.0) && InBuffer(acc, |c.0|)
    requires c.1.Cut? ==> line < c.1.next < |c.0| && c.1.node.first < |c.0| && c.1.node.second < |c.0|
    ensures |r.0| == |c.0| && Terminated(r.0)
    ensures r.1.Parsed? ==> InBuffer(r.1.nodes, |c.0|)
    decreases |c.0| - line, 0
  {
    if c.1.Broken? then (c.0, Undefined)
    else HeadersFrom(c.0, c.1.next, acc + [c.1.node])
  }

  /** Cutting a line writes nothing before it. */
  lemma {:induction false} CutLineFrame(s: seq<char>, line: nat)
    requires Terminated(s) && line < |s|
    ensures var r := CutLine(s, line);
      forall k {:trigger r.0[k]} :: 0 <= k < line ==> r.0[k] == s[k]
  {
    var field := StrTokFrom(s, line, ":");
    StrTokFrame(s, line, ":");
    StrTokFrame(field.0, field.1.save, "\r\n");
  }

  /** http_headers_init's loop writes nothing before the line it starts at. */
  lemma {:induction false} HeadersFromFrame(s: seq<char>, line: nat, acc: seq<Node>)
    requires Terminated(s) && line < |s| && InBuffer(acc, |s|)
    ensures var r := HeadersFrom(s, line, acc);
      |r.0| == |s| && forall k {:trigger r.0[k]} :: 0 <= k < line ==> r.0[k] == s[k]
    decreases |s| - line
  {
    if s[line] != '\r' && s[line] != NUL {
      var c := CutLine(s, line);
      CutLineFrame(s, line);
      if c.1.Cut? {
        assert HeadersFrom(s, line, acc) == HeadersFrom(c.0, c.1.next, acc + [c.1.node]);
        HeadersFromFrame(c.0, c.1.next, acc + [c.1.node]);
        forall k | 0 <= k < line
          ensures HeadersFrom(s, line, acc).0[k] == s[k]
        {
          assert HeadersFrom(c.0, c.1.next, acc + [c.1.node]).0[k] == c.0[k];
          assert c.0[k] == s[k];
        }
      } else {
        assert HeadersFrom(s, line, acc).0 == c.0;
      }
    }
  }

  /** One pass of http_headers_init's loop: strstr, then the two strtok calls. */
  method CutHeaderLine(buf: array<char>, line: nat) returns (ok: bool, node: Node, next: nat)
    requires Terminated(buf[..]) && line < buf.Length
    modifies buf
    ensures var c := CutLine(old(buf[..]), line);
      buf[..] == c.0 && (ok <==> c.1.Cut?) && (ok ==> node == c.1.node && next == c.1.next)
  {
    var crlf := StrStr(buf[..], line, "\r\n");
    if crlf.None? {
      return false, Node(0, 0), 0;
    }
    var field, save := StrTokR(buf, Some(line), ":", 0);
    var value, save' := StrTokR(buf, None, "\r\n", save);
    if field.None? || value.None? {
      return false, Node(0, 0), 0;
    }
    return true, Node(field.value, value.value + 1), line + crlf.value + 2;
  }

  /** http_headers_init on the header block that starts at `line`. */
  method HttpHeadersInit(buf: array<char>, line: nat) returns (r: Parsed)
    requires Terminated(buf[..]) && line < buf.Length
    modifies buf
    ensures (buf[..], r) == HeadersFrom(old(buf[..]), line, [])
  {
    var nodes: seq<Node> := [];
    var l := line;
    while buf[l] != '\r'
      invariant Terminated(buf[..]) && l < buf.Length && InBuffer(nodes, buf.Length)
      invariant HeadersFrom(buf[..], l, nodes) == HeadersFrom(old(buf[..]), line, [])
      decreases buf.Length - l
    {
      if buf[l] == NUL {
        return Parsed([]);
      }
      var ok, node, next := CutHeaderLine(buf, l);
      if !ok {
        return Undefined;
      }
      nodes := nodes + [node];
      l := next;
    }
    return Parsed(nodes);
  }

  /**
   * The loop of http_params_init from position p, with the nodes built so
   * far: a key up to '=', then a value up to '&'; stop as soon as either is
   * NULL.  No write happens before p, and the nodes built so far stay.
   */
  function ParamsFrom(s: seq<char>, p: nat, acc: seq<Node>): (r: (seq<char>, seq<Node>))
    requires Terminated(s) && p < |s| && InBuffer(acc, |s|)
    ensures |r.0| == |s| && Terminated(r.0)
    ensures InBuffer(r.1, |s|) && |acc| <= |r.1|
    decreases |s| - p, 1
  {
    var key := StrTokFrom(s, p, "=");
    var value := StrTokFrom(key.0, key.1.save, "&");
    ParamsStep(value.0, p, value.1.save, key.1.token, value.1.token, acc)
  }

  /**
   * The rest of http_params_init's loop once the pass that started at p has
   * cut a key and a value and saved `save`.
   */
  function ParamsStep(s: seq<char>, p: nat, save: nat, key: Option<nat>, value: Option<nat>, acc: seq<Node>): (r: (seq<char>, seq<Node>))
    requires Terminated(s) && p <= save < |s| && InBuffer(acc, |s|)
    requires key.Some? ==> key.value < |s|
    requires value.Some? ==> p <= value.value < save
    ensures |r.0| == |s| && Terminated(r.0)
    ensures InBuffer(r.1, |s|) && |acc| <= |r.1|
    decreases |s| - p, 0
  {
    if key.None? || value.None? then (s, acc)
    else ParamsFrom(s, save, acc + [Node(key.value, value.value)])
  }

  /** http_params_init: no list for NULL or the empty string, the loop otherwise. */
  function ParamsInit(s: seq<char>, str: Option<nat>): (r: (seq<char>, seq<Node>))
    requires Terminated(s) && (str.Some? ==> str.value < |s|)
    ensures |r.0| == |s| && Terminated(r.0) && InBuffer(r.1, |s|)
    ensures (str.None? || s[str.value] == NUL) ==> r == (s, [])
  {
    if str.None? || s[str.value] == NUL then (s, []) else ParamsFrom(s, str.value, [])
  }

  /** http_params_init on the string at `str` (None for NULL). */
  method HttpParamsInit(buf: array<char>, str: Option<nat>) returns (nodes: seq<Node>)
    requires Terminated(buf[..]) && (str.Some? ==> str.value < buf.Length)
    modifies buf
    ensures (buf[..], nodes) == ParamsInit(old(buf[..]), str)
  {
    nodes := [];
    if str.None? || buf[str.value] == NUL {
      return;
    }
    var p := str.value;
    while true
      invariant Terminated(buf[..]) && p < buf.Length && InBuffer(nodes, buf.Length)
      invariant nodes == [] ==> p == str.value
      invariant ParamsFrom(old(buf[..]), str.value, []) == ParamsFrom(buf[..], p, nodes)
      decreases buf.Length - p
    {
      // the first pass hands strtok the string, later ones NULL
      ParamsPass(buf[..], p, nodes);
      var key, value, save := CutParam(buf, if nodes == [] then str else None, p);
      if key.None? || value.None? {
        return;
      }
      nodes := nodes + [Node(key.value, value.value)];
      p := save;
    }
  }

  /** ParamsFrom unfolded by one pass. */
  lemma {:induction false} ParamsPass(s: seq<char>, p: nat, acc: seq<Node>)
    requires Terminated(s) && p < |s| && InBuffer(acc, |s|)
    ensures var k := StrTokFrom(s, p, "=");
      var v := StrTokFrom(k.0, k.1.save, "&");
      if k.1.token.Some? && v.1.token.Some? then
        p < v.1.save && ParamsFrom(s, p, acc) == ParamsFrom(v.0, v.1.save, acc + [Node(k.1.token.value, v.1.token.value)])
      else ParamsFrom(s, p, acc) == (v.0, acc)
  {
  }

  /**
   * One pass of http_params_init's loop: strtok for the key up to '=', then
   * for the value up to '&', starting at `str` or, for NULL, at the saved
   * position.
   */
  method CutParam(buf: array<char>, str: Option<nat>, saved: nat) returns (key: Option<nat>, value: Option<nat>, save: nat)
    requires Terminated(buf[..]) && (if str.Some? then str.value else saved) < buf.Length
    modifies buf
    ensures var k := StrTokFrom(old(buf[..]), if str.Some? then str.value else saved, "=");
      var v := StrTokFrom(k.0, k.1.save, "&");
      buf[..] == v.0 && key == k.1.token && value == v.1.token && save == v.1.save
  {
    var save0;
    key, save0 := StrTokR(buf, str, "=", saved);
    value, save := StrTokR(buf, None, "&", save0);
  }

  /** A header that survives the parser: a non-empty field without ':', CR or NUL, and a value without CR, LF or NUL. */
  predicate HeaderOk(h: Header)
  {
    && |h.field| > 0
    && (forall i :: 0 <= i < |h.field| ==> h.field[i] != ':' && h.field[i] != '\r' && h.field[i] != NUL)
    && (forall i :: 0 <= i < |h.value| ==> h.value[i] != '\r' && h.value[i] != '\n' && h.value[i] != NUL)
  }

  /** A header line as a client sends it. */
  function HeaderLine(h: Header): string
  {
    h.field + ": " + h.value + "\r\n"
  }

  function HeaderLines(hs: seq<Header>): string
  {
    if hs == [] then "" else HeaderLine(hs[0]) + HeaderLines(hs[1..])
  }

  /** The layout of a header line placed in a buffer. */
  lemma {:induction false} LineLayout(s: seq<char>, line: nat, h: Header)
    requires Terminated(s) && At(s, line, HeaderLine(h))
    ensures var f, v := |h.field|, |h.value|;
      && |HeaderLine(h)| == f + 4 + v && line + f + 4 + v < |s|
      && At(s, line, h.field) && s[line + f] == ':' && s[line + f + 1] == ' '
      && At(s, line + f + 2, h.value) && s[line + f + 2 + v] == '\r' && s[line + f + 3 + v] == '\n'
      && At(s, line + f + 2 + v, "\r\n")
  {
    var f, v := |h.field|, |h.value|;
    AtConcat(s, line, h.field + ": " + h.value, "\r\n");
    AtConcat(s, line, h.field + ": ", h.value);
    AtConcat(s, line, h.field, ": ");
    assert s[line + f + 0] == ": "[0] && s[line + f + 1] == ": "[1];
    var q := line + f + 2 + v;
    assert s[q + 0] == "\r\n"[0] && s[q + 1] == "\r\n"[1];
  }

  /** Up to its CR, a well-formed line holds neither NUL nor CR. */
  lemma {:induction false} LineChars(s: seq<char>, line: nat, h: Header)
    requires Terminated(s) && HeaderOk(h) && At(s, line, HeaderLine(h))
    ensures forall k :: line <= k < line + |h.field| + 2 + |h.value| ==> s[k] != NUL && s[k] != '\r'
  {
    var f, v := |h.field|, |h.value|;
    LineLayout(s, line, h);
    forall k | line <= k < line + f + 2 + v
      ensures s[k] != NUL && s[k] != '\r'
    {
      if k < line + f {
        assert s[line + (k - line)] == h.field[k - line];
      } else if k >= line + f + 2 {
        assert s[line + f + 2 + (k - line - f - 2)] == h.value[k - line - f - 2];
      }
    }
  }

  /** strstr finds the CRLF that ends a well-formed header line. */
  lemma {:induction false} LineEnd(s: seq<char>, line: nat, h: Header)
    requires Terminated(s) && HeaderOk(h) && At(s, line, HeaderLine(h))
    ensures line + |HeaderLine(h)| < |s|
    ensures StrStr(s, line, "\r\n") == Some(|HeaderLine(h)| - 2)
  {
    var j := |h.field| + 2 + |h.value|;
    LineLayout(s, line, h);
    LineChars(s, line, h);
    forall k | line <= k < line + j
      ensures !At(s, k, "\r\n")
    {
      assert s[k + 0] != "\r\n"[0];
    }
    StrStrAt(s, line, "\r\n", j);
  }

  /** The buffer once a well-formed header line at `line` is cut: NUL over its ':' and its CR. */
  function CutBuffer(s: seq<char>, line: nat, h: Header): (b: seq<char>)
    requires line + |HeaderLine(h)| <= |s|
    ensures |b| == |s|
  {
    s[line + |h.field| := NUL][line + |h.field| + 2 + |h.value| := NUL]
  }

  /** Cutting a line leaves the terminator and everything after the line as they were. */
  lemma {:induction false} CutBufferFrame(s: seq<char>, line: nat, h: Header)
    requires Terminated(s) && line + |HeaderLine(h)| < |s|
    ensures Terminated(CutBuffer(s, line, h))
    ensures forall k {:trigger CutBuffer(s, line, h)[k]} :: line + |HeaderLine(h)| <= k < |s| ==> CutBuffer(s, line, h)[k] == s[k]
  {
  }

  /** strtok(line, ":") cuts a well-formed line's field. */
  lemma {:induction false} FieldCut(s: seq<char>, line: nat, h: Header)
    requires Terminated(s) && HeaderOk(h) && At(s, line, HeaderLine(h))
    ensures line + |h.field| + 1 < |s|
    ensures StrTokFrom(s, line, ":") == (s[line + |h.field| := NUL], Tok(line + |h.field| + 1, Some(line)))
  {
    LineLayout(s, line, h);
    TokenBeforeDelimiter(s, line, ":", h.field);
  }

  /** strtok(NULL, "\r\n") then cuts its value, with the blank in front, at the CR. */
  lemma {:induction false} ValueCut(s: seq<char>, line: nat, h: Header)
    requires Terminated(s) && HeaderOk(h) && At(s, line, HeaderLine(h))
    ensures line + |HeaderLine(h)| < |s|
    ensures var field := StrTokFrom(s, line, ":");
      var value := StrTokFrom(field.0, field.1.save, "\r\n");
      && field.1.token == Some(line)
      && value == (CutBuffer(s, line, h), Tok(line + |h.field| + 3 + |h.value|, Some(line + |h.field| + 1)))
  {
    var f, v := |h.field|, |h.value|;
    LineLayout(s, line, h);
    FieldCut(s, line, h);
    var s1 := s[line + f := NUL];
    var t := [' '] + h.value;
    AtFrame(s, s1, line + f + 2, h.value);
    AtChar(s1, line + f + 1, ' ');
    AtConcat(s1, line + f + 1, [' '], h.value);
    assert forall i :: 0 <= i < |t| ==> t[i] != NUL && t[i] !in "\r\n" by {
      forall i | 0 <= i < |t|
        ensures t[i] != NUL && t[i] !in "\r\n"
      {
        if i > 0 {
          assert t[i] == h.value[i - 1];
        }
      }
    }
    TokenBeforeDelimiter(s1, line + f + 1, "\r\n", t);
  }

  /**
   * A well-formed header line is cut into its field and its value: NUL
   * replaces the ':' and the CR, the value starts after the blank that
   * follows the ':', and the next line starts after the CRLF.
   */
  lemma {:induction false} CutWellFormedLine(s: seq<char>, line: nat, h: Header)
    requires Terminated(s) && HeaderOk(h) && At(s, line, HeaderLine(h))
    ensures line + |HeaderLine(h)| < |s|
    ensures CutLine(s, line) == (CutBuffer(s, line, h), Cut(Node(line, line + |h.field| + 2), line + |HeaderLine(h)|))
  {
    LineEnd(s, line, h);
    ValueCut(s, line, h);
  }

  /** A header line cut in place: its field and its value, each ended by NUL. */
  predicate LineCutAt(b: seq<char>, line: nat, h: Header)
  {
    && line + |h.field| + 2 + |h.value| < |b|
    && At(b, line, h.field) && b[line + |h.field|] == NUL
    && At(b, line + |h.field| + 2, h.value) && b[line + |h.field| + 2 + |h.value|] == NUL
  }

  /** After the cut, the field and the value of a well-formed line are each followed by NUL. */
  lemma {:induction false} CutLineStrings(s: seq<char>, line: nat, h: Header)
    requires Terminated(s) && HeaderOk(h) && At(s, line, HeaderLine(h)) && line + |HeaderLine(h)| < |s|
    ensures LineCutAt(CutBuffer(s, line, h), line, h)
  {
    var f, v := |h.field|, |h.value|;
    LineLayout(s, line, h);
    var b := CutBuffer(s, line, h);
    AtFrame(s, b, line, h.field);
    AtFrame(s, b, line + f + 2, h.value);
  }

  /** A well-formed line starts with its field's first character, which is neither CR nor NUL. */
  lemma {:induction false} LineStart(s: seq<char>, line: nat, h: Header)
    requires Terminated(s) && HeaderOk(h) && At(s, line, HeaderLine(h))
    ensures line < |s| && s[line] != '\r' && s[line] != NUL
  {
    LineLayout(s, line, h);
    assert s[line + 0] == h.field[0];
  }

  /** Cutting the first line of a block leaves that line cut and the rest of the block in place. */
  lemma {:induction false} BlockAfterCut(s: seq<char>, line: nat, hs: seq<Header>, stop: string)
    requires Terminated(s) && hs != [] && Block(s, line, hs, stop)
    ensures line + |HeaderLine(hs[0])| < |s| && Terminated(CutBuffer(s, line, hs[0]))
    ensures Block(CutBuffer(s, line, hs[0]), line + |HeaderLine(hs[0])|, hs[1..], stop)
    ensures LineCutAt(CutBuffer(s, line, hs[0]), line, hs[0])
  {
    var h := hs[0];
    LineEnd(s, line, h);
    CutBufferFrame(s, line, h);
    BlockFrame(s, CutBuffer(s, line, h), line + |HeaderLine(h)|, hs[1..], stop);
    CutLineStrings(s, line, h);
  }

  /** A buffer holding a cut line reads h back through the line's node. */
  lemma {:induction false} HeaderReadsBack(t: seq<char>, line: nat, h: Header)
    requires HeaderOk(h) && Terminated(t) && LineCutAt(t, line, h)
    ensures HeaderView(t, Node(line, line + |h.field| + 2)) == h
  {
    CStrAt(t, line, h.field);
    CStrAt(t, line + |h.field| + 2, h.value);
  }

  /** The rest of http_headers_init's loop, which starts after a cut line, leaves that line as it is. */
  lemma {:induction false} CutKept(b: seq<char>, next: nat, acc: seq<Node>, line: nat, h: Header)
    requires Terminated(b) && next < |b| && InBuffer(acc, |b|)
    requires LineCutAt(b, line, h) && line + |HeaderLine(h)| <= next
    ensures LineCutAt(HeadersFrom(b, next, acc).0, line, h)
  {
    var t := HeadersFrom(b, next, acc).0;
    HeadersFromFrame(b, next, acc);
    AtFrame(b, t, line, h.field);
    AtFrame(b, t, line + |h.field| + 2, h.value);
  }

  /** The well-formed lines of hs, one after another from `line`, then an empty line. */
  predicate Block(s: seq<char>, line: nat, hs: seq<Header>, stop: string)
    decreases |hs|
  {
    if hs == [] then At(s, line, stop)
    else HeaderOk(hs[0]) && At(s, line, HeaderLine(hs[0])) && Block(s, line + |HeaderLine(hs[0])|, hs[1..], stop)
  }

  lemma {:induction false} BlockOfLines(s: seq<char>, line: nat, hs: seq<Header>, stop: string)
    requires (forall h :: h in hs ==> HeaderOk(h)) && At(s, line, HeaderLines(hs) + stop)
    ensures Block(s, line, hs, stop)
    decreases |hs|
  {
    if hs != [] {
      var rest := HeaderLines(hs[1..]) + stop;
      assert HeaderLines(hs) + stop == HeaderLine(hs[0]) + rest;
      AtConcat(s, line, HeaderLine(hs[0]), rest);
      assert hs[0] in hs;
      assert forall h :: h in hs[1..] ==> h in hs;
      BlockOfLines(s, line + |HeaderLine(hs[0])|, hs[1..], stop);
    } else {
      assert HeaderLines(hs) + stop == stop;
    }
  }

  /** A block stays where it is when only bytes before it change. */
  lemma {:induction false} BlockFrame(s: seq<char>, t: seq<char>, line: nat, hs: seq<Header>, stop: string)
    requires Block(s, line, hs, stop) && |t| == |s|
    requires forall k :: line <= k < |s| ==> t[k] == s[k]
    ensures Block(t, line, hs, stop)
    decreases |hs|
  {
    if hs == [] {
      AtFrame(s, t, line, stop);
    } else {
      AtFrame(s, t, line, HeaderLine(hs[0]));
      BlockFrame(s, t, line + |HeaderLine(hs[0])|, hs[1..], stop);
    }
  }

  /** The empty line that ends a block stops http_headers_init with the nodes gathered so far. */
  lemma {:induction false} BlockEnd(s: seq<char>, line: nat, acc: seq<Node>)
    requires Terminated(s) && InBuffer(acc, |s|) && At(s, line, "\r\n")
    ensures line < |s| && HeadersFrom(s, line, acc) == (s, Parsed(acc))
  {
    assert s[line + 0] == "\r\n"[0];
  }

  /** Cutting the first line of a block leaves the rest of the block, ready for the next pass. */
  lemma {:induction false} BlockStep(s: seq<char>, line: nat, hs: seq<Header>, stop: string, acc: seq<Node>)
    requires Terminated(s) && InBuffer(acc, |s|) && hs != [] && Block(s, line, hs, stop)
    ensures var h := hs[0];
      var b := CutBuffer(s, line, h);
      var next := line + |HeaderLine(h)|;
      && line < next < |s| && |b| == |s| && Terminated(b)
      && InBuffer(acc + [Node(line, line + |h.field| + 2)], |b|)
      && Block(b, next, hs[1..], stop) && LineCutAt(b, line, h)
  {
    BlockAfterCut(s, line, hs, stop);
  }

  /**
   * One pass of http_headers_init's loop over the first line of a block:
   * the line is cut in place (b), its node is appended, and the loop goes
   * on at the next line.
   */
  lemma {:induction false} HeadersStep(s: seq<char>, line: nat, h: Header, acc: seq<Node>, b: seq<char>, next: nat, node: Node)
    requires Terminated(s) && InBuffer(acc, |s|) && HeaderOk(h) && At(s, line, HeaderLine(h))
    requires b == CutBuffer(s, line, h) && next == line + |HeaderLine(h)| && node == Node(line, line + |h.field| + 2)
    ensures line < next < |b| && Terminated(b) && InBuffer(acc + [node], |b|)
    ensures HeadersFrom(s, line, acc) == HeadersFrom(b, next, acc + [node])
  {
    LineStart(s, line, h);
    CutWellFormedLine(s, line, h);
    assert CutLine(s, line) == (b, Cut(node, next));
  }

  /** The headers read through nodes from n on are the first header, then the rest from n + 1 on. */
  lemma {:induction false} ViewsShift(t: seq<char>, nodes: seq<Node>, n: nat, m: nat, hs: seq<Header>)
    requires Terminated(t) && InBuffer(nodes, |t|) && hs != [] && m == n + 1 && n + |hs| <= |nodes|
    requires HeaderView(t, nodes[n]) == hs[0]
    requires forall i :: 0 <= i < |hs[1..]| ==> HeaderView(t, nodes[m + i]) == hs[1..][i]
    ensures forall i :: 0 <= i < |hs| ==> HeaderView(t, nodes[n + i]) == hs[i]
  {
    forall i | 0 <= i < |hs|
      ensures HeaderView(t, nodes[n + i]) == hs[i]
    {
      if i > 0 {
        assert HeaderView(t, nodes[m + (i - 1)]) == hs[1..][i - 1];
      }
    }
  }

  /**
   * Nodes read back in buffer t, started with the nodes acc, for a block
   * of headers hs: the nodes acc, then one node per header that reads
   * that header back.
   */
  predicate NodesRead(t: seq<char>, nodes: seq<Node>, acc: seq<Node>, hs: seq<Header>)
  {
    && Terminated(t) && InBuffer(nodes, |t|) && |acc| <= |nodes|
    && nodes[..|acc|] == acc && InBuffer(nodes[|acc|..], |t|) && HeaderViews(t, nodes[|acc|..]) == hs
  }

  /** What http_headers_init's loop hands back reads back as acc, then hs. */
  predicate ReadsBack(r: (seq<char>, Parsed), acc: seq<Node>, hs: seq<Header>)
  {
    r.1.Parsed? && NodesRead(r.0, r.1.nodes, acc, hs)
  }

  /** The headers of a node list are the first node's header, then the rest's. */
  lemma HeaderViewsCons(t: seq<char>, nodes: seq<Node>)
    requires Terminated(t) && InBuffer(nodes, |t|) && nodes != []
    ensures InBuffer(nodes[1..], |t|)
    ensures HeaderViews(t, nodes) == [HeaderView(t, nodes[0])] + HeaderViews(t, nodes[1..])
  {
    assert forall i :: 0 <= i < |nodes[1..]| ==> nodes[1..][i] == nodes[i + 1];
  }

  /** The nodes read back after one pass: the cut line's header, then those the rest of the loop reads. */
  lemma {:induction false} StepViews(hs: seq<Header>, acc: seq<Node>, node: Node, t: seq<char>, nodes: seq<Node>)
    requires hs != [] && NodesRead(t, nodes, acc + [node], hs[1..])
    requires node.first < |t| && node.second < |t| && HeaderView(t, node) == hs[0]
    ensures NodesRead(t, nodes, acc, hs)
  {
    var n := |acc|;
    assert nodes[..n] == nodes[..n + 1][..n] == acc;
    assert nodes[n] == nodes[..n + 1][n] == node;
    var tail := nodes[n..];
    assert InBuffer(tail, |t|);
    assert tail[1..] == nodes[n + 1..];
    HeaderViewsCons(t, tail);
    assert hs == [hs[0]] + hs[1..];
  }

  /**
   * The inductive step of the round trip: the rest of the loop, run on the
   * buffer with the first line cut, keeps that line, so its node reads back
   * the first header in front of the rest of the block.
   */
  lemma {:induction false} RoundTripStep(b: seq<char>, line: nat, next: nat, hs: seq<Header>, acc: seq<Node>,
                                         node: Node, r: (seq<char>, Parsed))
    requires hs != [] && HeaderOk(hs[0]) && node == Node(line, line + |hs[0].field| + 2)
    requires Terminated(b) && next < |b| && InBuffer(acc + [node], |b|)
    requires LineCutAt(b, line, hs[0]) && line + |HeaderLine(hs[0])| <= next
    requires r == HeadersFrom(b, next, acc + [node]) && ReadsBack(r, acc + [node], hs[1..])
    ensures ReadsBack(r, acc, hs)
  {
    var t := r.0;
    assert LineCutAt(t, line, hs[0]) by {
      CutKept(b, next, acc + [node], line, hs[0]);
    }
    assert node.first < |t| && node.second < |t| && HeaderView(t, node) == hs[0] by {
      HeaderReadsBack(t, line, hs[0]);
    }
    StepViews(hs, acc, node, t, r.1.nodes);
  }

  /** The round trip below, stated node by node. */
  lemma {:induction false} HeadersRoundTripAt(s: seq<char>, line: nat, hs: seq<Header>, acc: seq<Node>)
    requires Terminated(s) && InBuffer(acc, |s|) && Block(s, line, hs, "\r\n")
    ensures line < |s| && ReadsBack(HeadersFrom(s, line, acc), acc, hs)
    decreases |hs|, 1
  {
    if hs == [] {
      BlockEnd(s, line, acc);
    } else {
      HeadersRoundTripCons(s, line, hs, acc, CutBuffer(s, line, hs[0]), line + |HeaderLine(hs[0])|, Node(line, line + |hs[0].field| + 2));
    }
  }

  /** The round trip for a block that starts with a header line: cut it, then read back the rest. */
  lemma {:induction false} HeadersRoundTripCons(s: seq<char>, line: nat, hs: seq<Header>, acc: seq<Node>,
                                                b: seq<char>, next: nat, node: Node)
    requires Terminated(s) && InBuffer(acc, |s|) && hs != [] && Block(s, line, hs, "\r\n")
    requires b == CutBuffer(s, line, hs[0]) && next == line + |HeaderLine(hs[0])| && node == Node(line, line + |hs[0].field| + 2)
    ensures line < |s| && ReadsBack(HeadersFrom(s, line, acc), acc, hs)
    decreases |hs|, 0
  {
    BlockStep(s, line, hs, "\r\n", acc);
    HeadersRoundTripAt(b, next, hs[1..], acc + [node]);
    CutStepSame(s, line, hs, acc, b, next, node);
    CutStepReads(s, line, hs, acc, b, next, node);
  }

  /** The loop run from the first line of a block is the loop run after that line is cut. */
  lemma {:induction false} CutStepSame(s: seq<char>, line: nat, hs: seq<Header>, acc: seq<Node>,
                                       b: seq<char>, next: nat, node: Node)
    requires Terminated(s) && InBuffer(acc, |s|) && hs != [] && Block(s, line, hs, "\r\n")
    requires b == CutBuffer(s, line, hs[0]) && next == line + |HeaderLine(hs[0])| && node == Node(line, line + |hs[0].field| + 2)
    ensures line < |s| && Terminated(b) && next < |b| && InBuffer(acc + [node], |b|)
    ensures HeadersFrom(s, line, acc) == HeadersFrom(b, next, acc + [node])
  {
    HeadersStep(s, line, hs[0], acc, b, next, node);
  }

  /** After the first line is cut, the loop reads back that line's header in front of the rest. */
  lemma {:induction false} CutStepReads(s: seq<char>, line: nat, hs: seq<Header>, acc: seq<Node>,
                                        b: seq<char>, next: nat, node: Node)
    requires Terminated(s) && InBuffer(acc, |s|) && hs != [] && Block(s, line, hs, "\r\n")
    requires b == CutBuffer(s, line, hs[0]) && next == line + |HeaderLine(hs[0])| && node == Node(line, line + |hs[0].field| + 2)
    requires Terminated(b) && next < |b| && InBuffer(acc + [node], |b|)
    requires ReadsBack(HeadersFrom(b, next, acc + [node]), acc + [node], hs[1..])
    ensures ReadsBack(HeadersFrom(b, next, acc + [node]), acc, hs)
  {
    BlockStep(s, line, hs, "\r\n", acc);
    RoundTripStep(b, line, next, hs, acc, node, HeadersFrom(b, next, acc + [node]));
  }

  /**
   * A header block as a client sends it (well-formed lines, then an empty
   * line) comes back as exactly its headers, in order.
   */
  lemma {:induction false} HeadersRoundTrip(s: seq<char>, line: nat, hs: seq<Header>)
    requires Terminated(s) && (forall h :: h in hs ==> HeaderOk(h))
    requires At(s, line, HeaderLines(hs) + "\r\n")
    ensures line < |s|
    ensures var r := HeadersFrom(s, line, []);
      r.1.Parsed? && HeaderViews(r.0, r.1.nodes) == hs
  {
    BlockOfLines(s, line, hs, "\r\n");
    HeadersRoundTripAt(s, line, hs, []);
    var r := HeadersFrom(s, line, []);
    assert r.1.nodes[0..] == r.1.nodes;
  }

  /** The headers of a block that the string ends inside, before its empty line. */
  lemma {:induction false} BlockNul(s: seq<char>, line: nat, acc: seq<Node>)
    requires Terminated(s) && InBuffer(acc, |s|) && At(s, line, [NUL])
    ensures line < |s| && HeadersFrom(s, line, acc) == (s, Parsed([]))
  {
    assert s[line + 0] == [NUL][0];
  }

  /** The loop over a block of well-formed lines that the string ends after drops every node. */
  lemma {:induction false} HeadersUnterminatedAt(s: seq<char>, line: nat, hs: seq<Header>, acc: seq<Node>)
    requires Terminated(s) && InBuffer(acc, |s|) && Block(s, line, hs, [NUL])
    ensures line < |s| && HeadersFrom(s, line, acc).1 == Parsed([])
    decreases |hs|
  {
    if hs == [] {
      BlockNul(s, line, acc);
    } else {
      var h := hs[0];
      var b, next, node := CutBuffer(s, line, h), line + |HeaderLine(h)|, Node(line, line + |h.field| + 2);
      BlockStep(s, line, hs, [NUL], acc);
      HeadersUnterminatedAt(b, next, hs[1..], acc + [node]);
      HeadersStep(s, line, h, acc, b, next, node);
    }
  }

  /**
   * Well-formed header lines that the string ends after, with no empty
   * line, give NULL: every node built is dropped.
   */
  lemma {:induction false} HeadersUnterminated(s: seq<char>, line: nat, hs: seq<Header>)
    requires Terminated(s) && (forall h :: h in hs ==> HeaderOk(h))
    requires At(s, line, HeaderLines(hs) + [NUL])
    ensures line < |s| && HeadersFrom(s, line, []).1 == Parsed([])
  {
    BlockOfLines(s, line, hs, [NUL]);
    HeadersUnterminatedAt(s, line, hs, []);
  }

  /** A pair that survives the parser: a non-empty key without '=' or NUL, and a non-empty value without '&' or NUL. */
  predicate ParamOk(q: Param)
  {
    && |q.key| > 0 && (forall i :: 0 <= i < |q.key| ==> q.key[i] != '=' && q.key[i] != NUL)
    && |q.value| > 0 && (forall i :: 0 <= i < |q.value| ==> q.value[i] != '&' && q.value[i] != NUL)
  }

  /** Text after the last pair that no pair comes out of: no '=' and no NUL. */
  predicate BareOk(t: string)
  {
    forall i :: 0 <= i < |t| ==> t[i] != '=' && t[i] != NUL
  }

  function PairText(q: Param): string
  {
    q.key + "=" + q.value
  }

  /** Pairs as a query string or a form body carries them: key=value, joined by '&'. */
  function ParamsText(ps: seq<Param>): string
    decreases |ps|
  {
    if ps == [] then ""
    else if |ps| == 1 then PairText(ps[0])
    else PairText(ps[0]) + "&" + ParamsText(ps[1..])
  }

  /** The layout of a pair placed in a buffer. */
  lemma {:induction false} PairLayout(s: seq<char>, p: nat, q: Param)
    requires At(s, p, PairText(q))
    ensures |PairText(q)| == |q.key| + 1 + |q.value|
    ensures At(s, p, q.key) && s[p + |q.key|] == '=' && At(s, p + |q.key| + 1, q.value)
  {
    AtConcat(s, p, q.key + "=", q.value);
    AtConcat(s, p, q.key, "=");
    assert s[p + |q.key| + 0] == "="[0];
  }

  /** Where the pass after a pair whose text ends at e starts: past the '&', or at the NUL. */
  function PairNext(s: seq<char>, e: nat): (n: nat)
    requires e < |s|
    ensures n == e || n == e + 1
  {
    if s[e] == '&' then e + 1 else e
  }

  /** The buffer once the pair at p is cut: NUL over its '=' and over the '&' after it. */
  function PairBuffer(s: seq<char>, p: nat, q: Param): (b: seq<char>)
    requires p + |q.key| + 1 + |q.value| < |s|
    ensures |b| == |s|
  {
    var e := p + |q.key| + 1 + |q.value|;
    var s1 := s[p + |q.key| := NUL];
    if s[e] == '&' then s1[e := NUL] else s1
  }

  /** The pair at p, ended by '&' or NUL, is cut into its key and its value. */
  lemma {:induction false} PairCut(s: seq<char>, p: nat, q: Param)
    requires Terminated(s) && ParamOk(q) && At(s, p, PairText(q))
    requires p + |PairText(q)| < |s| && (s[p + |PairText(q)|] == '&' || s[p + |PairText(q)|] == NUL)
    ensures var k := StrTokFrom(s, p, "=");
      var v := StrTokFrom(k.0, k.1.save, "&");
      && k.1.token == Some(p) && v.1.token == Some(p + |q.key| + 1)
      && v.0 == PairBuffer(s, p, q) && v.1.save == PairNext(s, p + |PairText(q)|)
  {
    PairLayout(s, p, q);
    var f := |q.key|;
    var e := p + |PairText(q)|;
    KeyCut(s, p, q);
    var s1 := s[p + f := NUL];
    AtFrame(s, s1, p + f + 1, q.value);
    assert s1[e] == s[e];
    PairValueCut(s1, p + f + 1, q);
    assert PairNext(s1, e) == PairNext(s, e);
  }

  /** strtok(str, "=") cuts a well-formed pair's key. */
  lemma {:induction false} KeyCut(s: seq<char>, p: nat, q: Param)
    requires Terminated(s) && ParamOk(q) && At(s, p, PairText(q))
    ensures p + |q.key| + 1 < |s|
    ensures StrTokFrom(s, p, "=") == (s[p + |q.key| := NUL], Tok(p + |q.key| + 1, Some(p)))
  {
    PairLayout(s, p, q);
    assert forall i :: 0 <= i < |q.key| ==> q.key[i] != NUL && q.key[i] !in "=";
    TokenBeforeDelimiter(s, p, "=", q.key);
  }

  /** strtok(NULL, "&") then cuts the value, ended by '&' or NUL. */
  lemma {:induction false} PairValueCut(s: seq<char>, v: nat, q: Param)
    requires Terminated(s) && ParamOk(q) && At(s, v, q.value) && v + |q.value| < |s|
    requires s[v + |q.value|] == '&' || s[v + |q.value|] == NUL
    ensures var e := v + |q.value|;
      StrTokFrom(s, v, "&") == (if s[e] == '&' then s[e := NUL] else s, Tok(PairNext(s, e), Some(v)))
  {
    assert forall i :: 0 <= i < |q.value| ==> q.value[i] != NUL && q.value[i] !in "&";
    if s[v + |q.value|] == '&' {
      TokenBeforeDelimiter(s, v, "&", q.value);
    } else {
      TokenBeforeEnd(s, v, "&", q.value);
    }
  }

  /** One pass of http_params_init's loop over a pair ended by '&' or NUL. */
  lemma {:induction false} PairStep(s: seq<char>, p: nat, q: Param, acc: seq<Node>)
    requires Terminated(s) && ParamOk(q) && At(s, p, PairText(q)) && InBuffer(acc, |s|)
    requires p + |PairText(q)| < |s| && (s[p + |PairText(q)|] == '&' || s[p + |PairText(q)|] == NUL)
    ensures var b := PairBuffer(s, p, q);
      var n := PairNext(s, p + |PairText(q)|);
      && p < n < |b| && Terminated(b) && InBuffer(acc + [Node(p, p + |q.key| + 1)], |b|)
      && ParamsFrom(s, p, acc) == ParamsFrom(b, n, acc + [Node(p, p + |q.key| + 1)])
  {
    PairCut(s, p, q);
  }

  /** The pairs ps one after another from p, each ended by '&' or NUL, then the bare text `bare` and NUL. */
  predicate Pairs(s: seq<char>, p: nat, ps: seq<Param>, bare: string)
    decreases |ps|
  {
    if ps == [] then At(s, p, bare + [NUL])
    else
      var e := p + |PairText(ps[0])|;
      && ParamOk(ps[0]) && At(s, p, PairText(ps[0])) && e < |s| && (s[e] == '&' || s[e] == NUL)
      && Pairs(s, PairNext(s, e), ps[1..], bare)
  }

  /** Pairs stay where they are when only bytes before them change. */
  lemma {:induction false} PairsFrame(s: seq<char>, t: seq<char>, p: nat, ps: seq<Param>, bare: string)
    requires Pairs(s, p, ps, bare) && |t| == |s|
    requires forall k :: p <= k < |s| ==> t[k] == s[k]
    ensures Pairs(t, p, ps, bare)
    decreases |ps|
  {
    if ps == [] {
      AtFrame(s, t, p, bare + [NUL]);
    } else {
      var e := p + |PairText(ps[0])|;
      AtFrame(s, t, p, PairText(ps[0]));
      PairsFrame(s, t, PairNext(s, e), ps[1..], bare);
    }
  }

  /** A pair cut in place: its key and its value, each ended by NUL. */
  predicate PairCutAt(b: seq<char>, p: nat, q: Param)
  {
    && p + |q.key| + 1 + |q.value| < |b|
    && At(b, p, q.key) && b[p + |q.key|] == NUL
    && At(b, p + |q.key| + 1, q.value) && b[p + |q.key| + 1 + |q.value|] == NUL
  }

  /** Cutting the first pair leaves it cut and the rest of the pairs in place. */
  lemma {:induction false} PairsAfterCut(s: seq<char>, p: nat, ps: seq<Param>, bare: string)
    requires Terminated(s) && ps != [] && Pairs(s, p, ps, bare)
    ensures var q := ps[0];
      var b := PairBuffer(s, p, q);
      PairCutAt(b, p, q) && Pairs(b, PairNext(s, p + |PairText(q)|), ps[1..], bare)
  {
    var q := ps[0];
    var e := p + |PairText(q)|;
    PairLayout(s, p, q);
    var b := PairBuffer(s, p, q);
    AtFrame(s, b, p, q.key);
    AtFrame(s, b, p + |q.key| + 1, q.value);
    PairsFrame(s, b, PairNext(s, e), ps[1..], bare);
  }

  /** The loop at the text after the last pair cuts nothing more. */
  lemma {:induction false} BareEnd(s: seq<char>, p: nat, bare: string, acc: seq<Node>)
    requires Terminated(s) && InBuffer(acc, |s|) && BareOk(bare) && At(s, p, bare + [NUL])
    ensures p < |s| && ParamsFrom(s, p, acc) == (s, acc)
  {
    AtConcat(s, p, bare, [NUL]);
    AtChar(s, p + |bare|, NUL);
    if bare == [] {
      TokenPastEnd(s, p, "=");
      TokenPastEnd(s, p, "&");
    } else {
      assert forall i :: 0 <= i < |bare| ==> bare[i] != NUL && bare[i] !in "=";
      TokenBeforeEnd(s, p, "=", bare);
      TokenPastEnd(s, p + |bare|, "&");
    }
  }

  /** http_params_init's loop writes nothing before the position it starts at. */
  lemma {:induction false} ParamsFromFrame(s: seq<char>, p: nat, acc: seq<Node>)
    requires Terminated(s) && p < |s| && InBuffer(acc, |s|)
    ensures var r := ParamsFrom(s, p, acc);
      |r.0| == |s| && forall k {:trigger r.0[k]} :: 0 <= k < p ==> r.0[k] == s[k]
    decreases |s| - p
  {
    var key := StrTokFrom(s, p, "=");
    var value := StrTokFrom(key.0, key.1.save, "&");
    StrTokFrame(s, p, "=");
    StrTokFrame(key.0, key.1.save, "&");
    if key.1.token.Some? && value.1.token.Some? {
      var acc' := acc + [Node(key.1.token.value, value.1.token.value)];
      assert ParamsFrom(s, p, acc) == ParamsFrom(value.0, value.1.save, acc');
      ParamsFromFrame(value.0, value.1.save, acc');
      forall k | 0 <= k < p
        ensures ParamsFrom(s, p, acc).0[k] == s[k]
      {
        assert ParamsFrom(value.0, value.1.save, acc').0[k] == value.0[k];
        assert value.0[k] == key.0[k];
      }
    } else {
      assert ParamsFrom(s, p, acc).0 == value.0;
    }
  }

  /**
   * What http_params_init's loop hands back, started with the nodes acc,
   * for the pairs ps: the nodes acc, then one node per pair that reads
   * that pair back.
   */
  predicate PairsReadBack(r: (seq<char>, seq<Node>), acc: seq<Node>, ps: seq<Param>)
  {
    && Terminated(r.0) && InBuffer(r.1, |r.0|) && |r.1| == |acc| + |ps|
    && (forall i :: 0 <= i < |acc| ==> r.1[i] == acc[i])
    && forall i :: 0 <= i < |ps| ==> ParamView(r.0, r.1[|acc| + i]) == ps[i]
  }

  /** The rest of http_params_init's loop, which starts after a cut pair, leaves that pair as it is. */
  lemma {:induction false} PairKept(b: seq<char>, n: nat, acc: seq<Node>, p: nat, q: Param)
    requires Terminated(b) && n < |b| && InBuffer(acc, |b|)
    requires PairCutAt(b, p, q) && p + |PairText(q)| < n + 1
    ensures PairCutAt(ParamsFrom(b, n, acc).0, p, q)
  {
    var t := ParamsFrom(b, n, acc).0;
    ParamsFromFrame(b, n, acc);
    AtFrame(b, t, p, q.key);
    AtFrame(b, t, p + |q.key| + 1, q.value);
  }

  /** The nodes read back after one pass: the cut pair, then those the rest of the loop reads. */
  lemma {:induction false} PairViews(p: nat, ps: seq<Param>, acc: seq<Node>, node: Node, r: (seq<char>, seq<Node>))
    requires ps != [] && ParamOk(ps[0]) && node == Node(p, p + |ps[0].key| + 1)
    requires PairCutAt(r.0, p, ps[0]) && PairsReadBack(r, acc + [node], ps[1..])
    ensures PairsReadBack(r, acc, ps)
  {
    var nodes := r.1;
    var q := ps[0];
    assert nodes[|acc|] == node by {
      assert nodes[|acc|] == (acc + [node])[|acc|];
    }
    CStrAt(r.0, p, q.key);
    CStrAt(r.0, p + |q.key| + 1, q.value);
    forall i | 0 <= i < |ps|
      ensures ParamView(r.0, nodes[|acc| + i]) == ps[i]
    {
      if i > 0 {
        assert ParamView(r.0, nodes[|acc + [node]| + (i - 1)]) == ps[1..][i - 1];
      }
    }
    forall i | 0 <= i < |acc|
      ensures nodes[i] == acc[i]
    {
      assert (acc + [node])[i] == acc[i];
    }
  }

  /** The inductive step of the pairs' round trip. */
  lemma {:induction false} PairsRoundTripStep(s: seq<char>, p: nat, ps: seq<Param>, bare: string, acc: seq<Node>)
    requires Terminated(s) && InBuffer(acc, |s|) && ps != [] && Pairs(s, p, ps, bare)
    requires var q := ps[0];
      var b := PairBuffer(s, p, q);
      var n := PairNext(s, p + |PairText(q)|);
      var node := Node(p, p + |q.key| + 1);
      && p < n < |b| && Terminated(b) && InBuffer(acc + [node], |b|)
      && PairsReadBack(ParamsFrom(b, n, acc + [node]), acc + [node], ps[1..])
    ensures p < |s| && PairsReadBack(ParamsFrom(s, p, acc), acc, ps)
  {
    var q := ps[0];
    var b := PairBuffer(s, p, q);
    var n := PairNext(s, p + |PairText(q)|);
    var node := Node(p, p + |q.key| + 1);
    PairStep(s, p, q, acc);
    PairsAfterCut(s, p, ps, bare);
    PairKept(b, n, acc + [node], p, q);
    PairViews(p, ps, acc, node, ParamsFrom(b, n, acc + [node]));
  }

  /** The round trips below, stated node by node. */
  lemma {:induction false} PairsRoundTripAt(s: seq<char>, p: nat, ps: seq<Param>, bare: string, acc: seq<Node>)
    requires Terminated(s) && InBuffer(acc, |s|) && BareOk(bare) && Pairs(s, p, ps, bare)
    ensures p < |s| && PairsReadBack(ParamsFrom(s, p, acc), acc, ps)
    decreases |ps|
  {
    if ps == [] {
      BareEnd(s, p, bare, acc);
    } else {
      var q := ps[0];
      PairStep(s, p, q, acc);
      PairsAfterCut(s, p, ps, bare);
      PairsRoundTripAt(PairBuffer(s, p, q), PairNext(s, p + |PairText(q)|), ps[1..], bare, acc + [Node(p, p + |q.key| + 1)]);
      PairsRoundTripStep(s, p, ps, bare, acc);
    }
  }

  /** The text of a last pair, then the bare text after an '&' when there is one, then NUL, lays out that pair. */
  lemma PairsOfLast(s: seq<char>, p: nat, ps: seq<Param>, bare: string)
    requires |ps| == 1 && ParamOk(ps[0]) && BareOk(bare)
    requires At(s, p, ParamsText(ps) + (if bare == [] then "" else "&") + bare + [NUL])
    ensures Pairs(s, p, ps, bare)
  {
    var q := ps[0];
    var e := p + |PairText(q)|;
    var sep := if bare == [] then "" else "&";
    assert ParamsText(ps) + sep + bare + [NUL] == PairText(q) + (sep + bare + [NUL]);
    AtConcat(s, p, PairText(q), sep + bare + [NUL]);
    if bare == [] {
      assert sep + bare + [NUL] == [NUL];
      AtChar(s, e, NUL);
    } else {
      assert sep + bare + [NUL] == ['&'] + (bare + [NUL]);
      AtConcat(s, e, ['&'], bare + [NUL]);
      AtChar(s, e, '&');
    }
    assert ps[1..] == [];
  }

  /** The text of two or more pairs is the first pair, an '&', then the text of the rest. */
  lemma PairsTextSplit(s: seq<char>, p: nat, ps: seq<Param>, tail: string) returns (e: nat)
    requires |ps| > 1 && At(s, p, ParamsText(ps) + tail)
    ensures e == p + |PairText(ps[0])| && At(s, p, PairText(ps[0])) && e < |s| && s[e] == '&'
    ensures At(s, e + 1, ParamsText(ps[1..]) + tail)
  {
    e := p + |PairText(ps[0])|;
    var rest := ParamsText(ps[1..]) + tail;
    assert ParamsText(ps) + tail == PairText(ps[0]) + (['&'] + rest);
    AtConcat(s, p, PairText(ps[0]), ['&'] + rest);
    AtConcat(s, e, ['&'], rest);
    AtChar(s, e, '&');
  }

  /** The text of the pairs ps, then, after an '&' when both are there, the bare text, then NUL, lays out the pairs. */
  lemma {:induction false} PairsOfText(s: seq<char>, p: nat, ps: seq<Param>, bare: string)
    requires (forall q :: q in ps ==> ParamOk(q)) && BareOk(bare)
    requires At(s, p, ParamsText(ps) + (if ps == [] || bare == [] then "" else "&") + bare + [NUL])
    ensures Pairs(s, p, ps, bare)
    decreases |ps|
  {
    var sep := if ps == [] || bare == [] then "" else "&";
    assert ps != [] ==> ps[0] in ps;
    if ps == [] {
      assert ParamsText(ps) + sep + bare + [NUL] == bare + [NUL];
    } else if |ps| == 1 {
      PairsOfLast(s, p, ps, bare);
    } else {
      var tail := sep + bare + [NUL];
      assert ParamsText(ps) + sep + bare + [NUL] == ParamsText(ps) + tail;
      var e := PairsTextSplit(s, p, ps, tail);
      assert ParamsText(ps[1..]) + tail == ParamsText(ps[1..]) + sep + bare + [NUL];
      assert forall q' :: q' in ps[1..] ==> q' in ps;
      PairsOfText(s, e + 1, ps[1..], bare);
    }
  }

  /** The pairs start with NUL only when there are none and no bare text either. */
  lemma {:induction false} PairsStart(s: seq<char>, p: nat, ps: seq<Param>, bare: string)
    requires Pairs(s, p, ps, bare) && BareOk(bare)
    ensures p < |s| && (s[p] == NUL <==> ps == [] && bare == [])
  {
    if ps != [] {
      PairLayout(s, p, ps[0]);
      assert s[p + 0] == ps[0].key[0];
    } else {
      assert s[p + 0] == (bare + [NUL])[0];
    }
  }

  /** A string of well-formed key=value pairs joined by '&' comes back as exactly its pairs, in order. */
  lemma {:induction false} ParamsRoundTrip(s: seq<char>, p: nat, ps: seq<Param>)
    requires Terminated(s) && (forall q :: q in ps ==> ParamOk(q))
    requires At(s, p, ParamsText(ps) + [NUL])
    ensures p < |s|
    ensures var r := ParamsInit(s, Some(p));
      ParamViews(r.0, r.1) == ps
  {
    var none: string := [];
    assert ParamsText(ps) + (if ps == [] || none == [] then "" else "&") + none + [NUL] == ParamsText(ps) + [NUL];
    PairsOfText(s, p, ps, none);
    PairsRoundTripAt(s, p, ps, none, []);
    PairsStart(s, p, ps, none);
  }

  /**
   * A key with no value after the last pair is dropped: the loop stops at
   * the first key that has no value token.
   */
  lemma {:induction false} ParamsTailDropped(s: seq<char>, p: nat, ps: seq<Param>, key: string)
    requires Terminated(s) && (forall q :: q in ps ==> ParamOk(q)) && |key| > 0 && BareOk(key)
    requires At(s, p, ParamsText(ps) + (if ps == [] then "" else "&") + key + [NUL])
    ensures p < |s|
    ensures var r := ParamsInit(s, Some(p));
      ParamViews(r.0, r.1) == ps
  {
    PairsOfText(s, p, ps, key);
    PairsRoundTripAt(s, p, ps, key, []);
    PairsStart(s, p, ps, key);
  }

  /** http_params_init's loop keeps the nodes built so far, and every node it adds points at or after the position it starts at. */
  lemma {:induction false} ParamsFromAbove(s: seq<char>, p: nat, acc: seq<Node>)
    requires Terminated(s) && p < |s| && InBuffer(acc, |s|)
    ensures var r := ParamsFrom(s, p, acc);
      && r.1[..|acc|] == acc
      && forall i :: |acc| <= i < |r.1| ==> p <= r.1[i].first && p <= r.1[i].second
    decreases |s| - p
  {
    var key := StrTokFrom(s, p, "=");
    var value := StrTokFrom(key.0, key.1.save, "&");
    if key.1.token.Some? && value.1.token.Some? {
      var node := Node(key.1.token.value, value.1.token.value);
      var acc' := acc + [node];
      assert ParamsFrom(s, p, acc) == ParamsFrom(value.0, value.1.save, acc');
      ParamsFromAbove(value.0, value.1.save, acc');
      var r := ParamsFrom(s, p, acc);
      assert r.1[..|acc|] == r.1[..|acc'|][..|acc|];
      assert r.1[|acc|] == r.1[..|acc'|][|acc|] == node;
    }
  }

  /** http_params_init's loop writes nothing at or after the NUL that ends its string. */
  lemma {:induction false} ParamsFromBelow(s: seq<char>, p: nat, acc: seq<Node>, e: nat)
    requires Terminated(s) && p <= e < |s| && InBuffer(acc, |s|) && s[e] == NUL
    ensures var r := ParamsFrom(s, p, acc);
      forall k {:trigger r.0[k]} :: e <= k < |s| ==> r.0[k] == s[k]
    decreases |s| - p
  {
    var key := StrTokFrom(s, p, "=");
    StrTokBelow(s, p, "=", e);
    var value := StrTokFrom(key.0, key.1.save, "&");
    StrTokBelow(key.0, key.1.save, "&", e);
    if key.1.token.Some? && value.1.token.Some? {
      var acc' := acc + [Node(key.1.token.value, value.1.token.value)];
      assert ParamsFrom(s, p, acc) == ParamsFrom(value.0, value.1.save, acc');
      ParamsFromBelow(value.0, value.1.save, acc', e);
      forall k | e <= k < |s|
        ensures ParamsFrom(s, p, acc).0[k] == s[k]
      {
        assert ParamsFrom(value.0, value.1.save, acc').0[k] == value.0[k] == key.0[k];
      }
    } else {
      assert ParamsFrom(s, p, acc).0 == value.0;
    }
  }

  /**
   * http_params_init on the string at p, whose terminator is at e, writes
   * only from p up to e, and every node it builds points at or after p.
   */
  lemma {:induction false} ParamsInitBounds(s: seq<char>, p: nat, e: nat)
    requires Terminated(s) && p <= e < |s| && s[e] == NUL
    ensures var r := ParamsInit(s, Some(p));
      && (forall k {:trigger r.0[k]} :: 0 <= k < p ==> r.0[k] == s[k])
      && (forall k {:trigger r.0[k]} :: e <= k < |s| ==> r.0[k] == s[k])
      && forall i :: 0 <= i < |r.1| ==> p <= r.1[i].first && p <= r.1[i].second
  {
    if s[p] != NUL {
      ParamsFromFrame(s, p, []);
      ParamsFromBelow(s, p, [], e);
      ParamsFromAbove(s, p, []);
    }
  }

  /** Parameter nodes read the same pairs in two buffers that agree from lo on, when every node points at or after lo. */
  lemma {:induction false} ParamViewsFrame(t: seq<char>, t': seq<char>, nodes: seq<Node>, lo: nat)
    requires Terminated(t) && Terminated(t') && |t'| == |t| && InBuffer(nodes, |t|)
    requires forall i :: 0 <= i < |nodes| ==> lo <= nodes[i].first && lo <= nodes[i].second
    requires forall k :: lo <= k < |t| ==> t'[k] == t[k]
    ensures ParamViews(t', nodes) == ParamViews(t, nodes)
  {
    forall i | 0 <= i < |nodes|
      ensures ParamView(t', nodes[i]) == ParamView(t, nodes[i])
    {
      CStrFrame(t, t', nodes[i].first);
      CStrFrame(t, t', nodes[i].second);
    }
  }

  /** A character other than '=' and '&' that no key and no value holds is not in the pairs' text. */
  lemma {:induction false} ParamsTextAvoids(ps: seq<Param>, c: char)
    requires c != '=' && c != '&'
    requires forall q :: q in ps ==> c !in q.key && c !in q.value
    ensures c !in ParamsText(ps)
    decreases |ps|
  {
    if ps != [] {
      assert ps[0] in ps;
      if |ps| > 1 {
        assert forall q :: q in ps[1..] ==> q in ps;
        ParamsTextAvoids(ps[1..], c);
      }
    }
  }

  /** Well-formed header lines hold no NUL. */
  lemma {:induction false} HeaderLinesNoNul(hs: seq<Header>)
    requires forall h :: h in hs ==> HeaderOk(h)
    ensures NUL !in HeaderLines(hs)
    decreases |hs|
  {
    if hs != [] {
      assert hs[0] in hs;
      assert forall h :: h in hs[1..] ==> h in hs;
      HeaderLinesNoNul(hs[1..]);
      assert NUL !in hs[0].field && NUL !in hs[0].value;
    }
  }

  /** Header lines that are not empty end with CRLF. */
  lemma {:induction false} LinesEndCrlf(hs: seq<Header>)
    requires hs != []
    ensures var t := HeaderLines(hs); |t| >= 2 && t[|t| - 2..] == "\r\n"
    decreases |hs|
  {
    var t := HeaderLines(hs);
    if hs[1..] == [] {
      assert HeaderLines(hs[1..]) == "";
      assert t == HeaderLine(hs[0]) + "";
    } else {
      LinesEndCrlf(hs[1..]);
      var t' := HeaderLines(hs[1..]);
      assert t == HeaderLine(hs[0]) + t';
      assert t[|t| - 2..] == t'[|t'| - 2..];
    }
  }

  /** The nodes http_headers_init builds for a block of well-formed lines from `line`: one per line, at its field and at its value. */
  function LineNodes(line: nat, hs: seq<Header>): (nodes: seq<Node>)
    ensures |nodes| == |hs|
    decreases |hs|
  {
    if hs == [] then []
    else [Node(line, line + |hs[0].field| + 2)] + LineNodes(line + |HeaderLine(hs[0])|, hs[1..])
  }

  /** The lines of hs cut in place one after another from `line`. */
  predicate CutBlock(t: seq<char>, line: nat, hs: seq<Header>)
    decreases |hs|
  {
    hs != [] ==> LineCutAt(t, line, hs[0]) && CutBlock(t, line + |HeaderLine(hs[0])|, hs[1..])
  }

  /**
   * http_headers_init over a block of well-formed lines and an empty line:
   * one node per line, at its field and its value, and every line cut in
   * place.
   */
  lemma {:induction false} HeadersLaidOut(s: seq<char>, line: nat, hs: seq<Header>, acc: seq<Node>)
    requires Terminated(s) && InBuffer(acc, |s|) && Block(s, line, hs, "\r\n")
    ensures line < |s|
    ensures HeadersFrom(s, line, acc).1 == Parsed(acc + LineNodes(line, hs))
    ensures CutBlock(HeadersFrom(s, line, acc).0, line, hs)
    decreases |hs|
  {
    if hs == [] {
      BlockEnd(s, line, acc);
    } else {
      var h := hs[0];
      var b, next, node := CutBuffer(s, line, h), line + |HeaderLine(h)|, Node(line, line + |h.field| + 2);
      assert Terminated(b) && next < |b| && InBuffer(acc + [node], |b|) && Block(b, next, hs[1..], "\r\n") && LineCutAt(b, line, h) by {
        BlockStep(s, line, hs, "\r\n", acc);
      }
      assert HeadersFrom(s, line, acc) == HeadersFrom(b, next, acc + [node]) by {
        HeadersStep(s, line, h, acc, b, next, node);
      }
      assert HeadersFrom(b, next, acc + [node]).1 == Parsed(acc + LineNodes(line, hs)) by {
        HeadersLaidOut(b, next, hs[1..], acc + [node]);
        LineNodesCons(line, hs, acc);
      }
      assert CutBlock(HeadersFrom(b, next, acc + [node]).0, line, hs) by {
        HeadersLaidOut(b, next, hs[1..], acc + [node]);
        CutKept(b, next, acc + [node], line, h);
      }
    }
  }

  /** The nodes of a block are the first line's node and then the rest's. */
  lemma LineNodesCons(line: nat, hs: seq<Header>, acc: seq<Node>)
    requires hs != []
    ensures acc + [Node(line, line + |hs[0].field| + 2)] + LineNodes(line + |HeaderLine(hs[0])|, hs[1..]) == acc + LineNodes(line, hs)
  {
  }

  /** http_headers_init over a block of well-formed lines and an empty line writes nothing after the lines. */
  lemma {:induction false} HeadersAfterBlock(s: seq<char>, line: nat, hs: seq<Header>, acc: seq<Node>)
    requires Terminated(s) && InBuffer(acc, |s|) && Block(s, line, hs, "\r\n")
    ensures line + |HeaderLines(hs)| < |s|
    ensures var r := HeadersFrom(s, line, acc);
      forall k {:trigger r.0[k]} :: line + |HeaderLines(hs)| <= k < |s| ==> r.0[k] == s[k]
    decreases |hs|
  {
    if hs == [] {
      BlockEnd(s, line, acc);
    } else {
      var h := hs[0];
      var b, next, node := CutBuffer(s, line, h), line + |HeaderLine(h)|, Node(line, line + |h.field| + 2);
      assert HeadersFrom(s, line, acc) == HeadersFrom(b, next, acc + [node]) by {
        HeadersStep(s, line, h, acc, b, next, node);
      }
      BlockStep(s, line, hs, "\r\n", acc);
      HeadersAfterBlock(b, next, hs[1..], acc + [node]);
      assert |HeaderLines(hs)| == |HeaderLine(h)| + |HeaderLines(hs[1..])|;
      CutBufferFrame(s, line, h);
      forall k | line + |HeaderLines(hs)| <= k < |s|
        ensures HeadersFrom(s, line, acc).0[k] == s[k]
      {
        assert HeadersFrom(b, next, acc + [node]).0[k] == b[k];
      }
    }
  }

  /** Cut lines stay cut when only bytes outside them change. */
  lemma {:induction false} CutBlockFrame(t: seq<char>, t': seq<char>, line: nat, hs: seq<Header>)
    requires CutBlock(t, line, hs) && |t'| == |t|
    requires forall k :: line <= k < line + |HeaderLines(hs)| && k < |t| ==> t'[k] == t[k]
    ensures CutBlock(t', line, hs)
    decreases |hs|
  {
    if hs != [] {
      var h := hs[0];
      assert HeaderLines(hs) == HeaderLine(h) + HeaderLines(hs[1..]);
      AtFrame(t, t', line, h.field);
      AtFrame(t, t', line + |h.field| + 2, h.value);
      CutBlockFrame(t, t', line + |HeaderLine(h)|, hs[1..]);
    }
  }

  /** A block cut in place reads back as its headers through the nodes built for it. */
  lemma {:induction false} CutBlockViews(t: seq<char>, line: nat, hs: seq<Header>)
    requires Terminated(t) && (forall h :: h in hs ==> HeaderOk(h)) && CutBlock(t, line, hs)
    ensures InBuffer(LineNodes(line, hs), |t|) && HeaderViews(t, LineNodes(line, hs)) == hs
    decreases |hs|
  {
    if hs != [] {
      var h := hs[0];
      var next := line + |HeaderLine(h)|;
      var rest := LineNodes(next, hs[1..]);
      var nodes := LineNodes(line, hs);
      assert nodes == [Node(line, line + |h.field| + 2)] + rest;
      assert nodes[0].first < |t| && nodes[0].second < |t| && HeaderView(t, nodes[0]) == h by {
        assert h in hs;
        HeaderReadsBack(t, line, h);
      }
      assert InBuffer(rest, |t|) && HeaderViews(t, rest) == hs[1..] by {
        assert forall g :: g in hs[1..] ==> g in hs;
        CutBlockViews(t, next, hs[1..]);
      }
      forall i | 0 <= i < |nodes|
        ensures nodes[i].first < |t| && nodes[i].second < |t| && HeaderView(t, nodes[i]) == hs[i]
      {
        if i > 0 {
          assert nodes[i] == rest[i - 1];
          assert HeaderViews(t, rest)[i - 1] == hs[i];
        }
      }
    }
  }
}
