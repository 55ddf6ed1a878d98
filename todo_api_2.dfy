/**
 * print_header_info: the header fields and values of a request, split with
 * strtok_r.  The request line is cut at its CR and dropped; then each field
 * runs up to ':' and each value up to the next CR, and both are printed
 * from their second character on, which skips the LF before a field and
 * the space before a value.  The loop stops when the value token is
 * missing.  The pairs are read when they are printed, from the buffer as
 * it is then.
 */
module TodoApi2 {
  import opened Wrappers
  import opened CString
  import opened Seqs
  import opened HttpUtils

  /**
   * The loop from the saved position p, with the headers printed so far:
   * the field token, the value token, then the rest of the pass.
   */
  function HeaderPairsFrom(s: seq<char>, p: nat, acc: seq<Header>): (r: (seq<char>, seq<Header>))
    requires Terminated(s) && p < |s|
    ensures |r.0| == |s| && Terminated(r.0) && |acc| <= |r.1|
    decreases |s| - p, 1
  {
    var field := StrTokFrom(s, p, ":");
    var value := StrTokFrom(field.0, field.1.save, "\r");
    ValueNeedsField(s, p);
    HeaderPairsStep(value.0, p, value.1.save, field.1.token, value.1.token, acc)
  }

  /**
   * The end of one pass, once both tokens are cut (field at `field`, value
   * at `value`, the next search from `save`): stop on a NULL value, else
   * print both from their second character and go on.
   */
  function HeaderPairsStep(s: seq<char>, p: nat, save: nat, field: Option<nat>, value: Option<nat>, acc: seq<Header>): (r: (seq<char>, seq<Header>))
    requires Terminated(s) && p <= save < |s|
    requires value.Some? ==> field.Some? && field.value < |s| - 1 && p <= value.value < save && value.value < |s| - 1
    ensures |r.0| == |s| && Terminated(r.0) && |acc| <= |r.1|
    decreases |s| - p, 0
  {
    if value.None? then (s, acc)
    else HeaderPairsFrom(s, save, acc + [Header(PastFirst(s, field.value), PastFirst(s, value.value))])
  }

  /** The C string that starts one character after the token at k, which is what printf gets once the token pointer is incremented. */
  function PastFirst(s: seq<char>, k: nat): (r: string)
    requires Terminated(s) && k < |s| - 1
    ensures k + 1 + |r| < |s| && s[k + 1 + |r|] == NUL
  {
    CStr(s, k + 1)
  }

  /** A value token comes only after a field token: strtok_r gives NULL only at the end of the string. */
  lemma {:induction false} ValueNeedsField(s: seq<char>, p: nat)
    requires Terminated(s) && p < |s|
    ensures var field := StrTokFrom(s, p, ":");
      var value := StrTokFrom(field.0, field.1.save, "\r");
      value.1.token.Some? ==> field.1.token.Some?
  {
    var field := StrTokFrom(s, p, ":");
    StrTokNull(s, p, ":");
    if field.1.token.None? {
      assert s[field.1.save] == NUL;
      TokenPastEnd(field.0, field.1.save, "\r");
    }
  }

  /** print_header_info on the request held in s. */
  function HeaderInfo(s: seq<char>): (r: (seq<char>, seq<Header>))
    requires Terminated(s)
    ensures |r.0| == |s| && Terminated(r.0)
  {
    var line := StrTokFrom(s, 0, "\r");
    HeaderPairsFrom(line.0, line.1.save, [])
  }

  /** print_header_info, tokenising the request in buf. */
  method PrintHeaderInfo(buf: array<char>) returns (out: seq<Header>)
    requires Terminated(buf[..])
    modifies buf
    ensures (buf[..], out) == HeaderInfo(old(buf[..]))
  {
    var line, save := StrTokR(buf, Some(0), "\r", 0);
    out := [];
    ghost var start := buf[..];
    ghost var from := save;
    while true
      invariant Terminated(buf[..]) && save < buf.Length
      invariant HeaderPairsFrom(buf[..], save, out) == HeaderPairsFrom(start, from, [])
      decreases buf.Length - save
    {
      ValueNeedsField(buf[..], save);
      var field, s1 := StrTokR(buf, None, ":", save);
      var value, s2 := StrTokR(buf, None, "\r", s1);
      if value.None? {
        break;
      }
      // both pointers are advanced by one before printing; a NULL field comes only with a NULL value
      out := out + [Header(PastFirst(buf[..], field.value), PastFirst(buf[..], value.value))];
      save := s2;
    }
  }

  /** A header as the loop meets it, from the LF that ends the line before it up to its own CR. */
  function HeaderText(h: Header): string
  {
    "\n" + h.field + ": " + h.value + "\r"
  }

  /** Text after the blank line from which no header comes: no ':' and no NUL. */
  predicate BodyOk(t: string)
  {
    forall i :: 0 <= i < |t| ==> t[i] != ':' && t[i] != NUL
  }

  /** The headers hs laid out from p, one HeaderText after another, then the blank line, the body and NUL. */
  predicate HeadersAt(s: seq<char>, p: nat, hs: seq<Header>, body: string)
    decreases |hs|
  {
    if hs == [] then At(s, p, "\n\r\n" + body + [NUL])
    else HeaderOk(hs[0]) && At(s, p, HeaderText(hs[0])) && HeadersAt(s, p + |HeaderText(hs[0])|, hs[1..], body)
  }

  /** The headers stay where they are when only bytes before them change. */
  lemma {:induction false} HeadersAtFrame(s: seq<char>, t: seq<char>, p: nat, hs: seq<Header>, body: string)
    requires HeadersAt(s, p, hs, body) && |t| == |s|
    requires forall k :: p <= k < |s| ==> t[k] == s[k]
    ensures HeadersAt(t, p, hs, body)
    decreases |hs|
  {
    if hs == [] {
      AtFrame(s, t, p, "\n\r\n" + body + [NUL]);
    } else {
      AtFrame(s, t, p, HeaderText(hs[0]));
      HeadersAtFrame(s, t, p + |HeaderText(hs[0])|, hs[1..], body);
    }
  }

  /** The layout of a header placed in a buffer. */
  lemma {:induction false} TextLayout(s: seq<char>, p: nat, h: Header)
    requires At(s, p, HeaderText(h))
    ensures var f, v := |h.field|, |h.value|;
      && |HeaderText(h)| == f + v + 4
      && At(s, p, "\n" + h.field) && s[p + 1 + f] == ':'
      && At(s, p + 2 + f, " " + h.value) && s[p + 3 + f + v] == '\r'
  {
    var f, v := |h.field|, |h.value|;
    assert HeaderText(h) == ("\n" + h.field) + ([':'] + ((" " + h.value) + ['\r']));
    AtConcat(s, p, "\n" + h.field, [':'] + ((" " + h.value) + ['\r']));
    AtConcat(s, p + 1 + f, [':'], (" " + h.value) + ['\r']);
    AtConcat(s, p + 2 + f, " " + h.value, ['\r']);
    AtChar(s, p + 1 + f, ':');
    AtChar(s, p + 3 + f + v, '\r');
  }

  /** The buffer once the header at p is cut: NUL over its ':' and over its CR. */
  function HeaderBuffer(s: seq<char>, p: nat, h: Header): (b: seq<char>)
    requires p + 3 + |h.field| + |h.value| < |s|
    ensures |b| == |s|
  {
    s[p + 1 + |h.field| := NUL][p + 3 + |h.field| + |h.value| := NUL]
  }

  /** The field and the value strtok_r cut for a header. */
  lemma {:induction false} HeaderCut(s: seq<char>, p: nat, h: Header)
    requires Terminated(s) && HeaderOk(h) && At(s, p, HeaderText(h))
    ensures p + 4 + |h.field| + |h.value| < |s|
    ensures var f, v := |h.field|, |h.value|;
      var field := StrTokFrom(s, p, ":");
      var value := StrTokFrom(field.0, field.1.save, "\r");
      && field.1.token == Some(p)
      && value == (HeaderBuffer(s, p, h), Tok(p + 4 + f + v, Some(p + 2 + f)))
  {
    TextLayout(s, p, h);
    var s1, q := FieldCut(s, p, h);
    ValueCut(s, s1, p, h);
  }

  /** strtok_r(NULL, ":") cuts the field, with the LF before it, at its ':'. */
  lemma {:induction false} FieldCut(s: seq<char>, p: nat, h: Header) returns (s1: seq<char>, q: nat)
    requires Terminated(s) && HeaderOk(h) && At(s, p, "\n" + h.field) && p + 1 + |h.field| < |s| && s[p + 1 + |h.field|] == ':'
    ensures s1 == s[p + 1 + |h.field| := NUL] && q == p + 2 + |h.field| && q < |s|
    ensures StrTokFrom(s, p, ":") == (s1, Tok(q, Some(p)))
  {
    var name := "\n" + h.field;
    forall i | 0 <= i < |name|
      ensures name[i] != NUL && name[i] !in ":"
    {
      if i > 0 {
        assert name[i] == h.field[i - 1];
      }
    }
    TokenBeforeDelimiter(s, p, ":", name);
    s1, q := s[p + 1 + |h.field| := NUL], p + 2 + |h.field|;
  }

  /** strtok_r(NULL, "\r") then cuts the value, with the space before it, at its CR. */
  lemma {:induction false} ValueCut(s: seq<char>, s1: seq<char>, p: nat, h: Header)
    requires Terminated(s) && HeaderOk(h) && p + 3 + |h.field| + |h.value| < |s|
    requires At(s, p + 2 + |h.field|, " " + h.value) && s[p + 3 + |h.field| + |h.value|] == '\r'
    requires s1 == s[p + 1 + |h.field| := NUL]
    ensures StrTokFrom(s1, p + 2 + |h.field|, "\r") == (HeaderBuffer(s, p, h), Tok(p + 4 + |h.field| + |h.value|, Some(p + 2 + |h.field|)))
  {
    var f, v := |h.field|, |h.value|;
    var text := " " + h.value;
    AtFrame(s, s1, p + 2 + f, text);
    forall i | 0 <= i < |text|
      ensures text[i] != NUL && text[i] !in "\r"
    {
      if i > 0 {
        assert text[i] == h.value[i - 1];
      }
    }
    TokenBeforeDelimiter(s1, p + 2 + f, "\r", text);
  }

  /** The field and the value read back, from their second characters, once the header is cut. */
  lemma {:induction false} HeaderPrinted(s: seq<char>, p: nat, h: Header)
    requires Terminated(s) && HeaderOk(h) && At(s, p, HeaderText(h)) && p + 4 + |h.field| + |h.value| < |s|
    ensures var b := HeaderBuffer(s, p, h);
      Terminated(b) && PastFirst(b, p) == h.field && PastFirst(b, p + 2 + |h.field|) == h.value
  {
    var f, v := |h.field|, |h.value|;
    var b := HeaderBuffer(s, p, h);
    TextLayout(s, p, h);
    AtConcat(s, p, "\n", h.field);
    AtConcat(s, p + 2 + f, " ", h.value);
    AtFrame(s, b, p + 1, h.field);
    AtFrame(s, b, p + 3 + f, h.value);
    CStrAt(b, p + 1, h.field);
    CStrAt(b, p + 3 + f, h.value);
  }

  /** One pass of HeaderPairsFrom, as the two strtok_r calls leave it. */
  lemma {:induction false} HeaderPairsUnfold(s: seq<char>, p: nat, acc: seq<Header>)
    requires Terminated(s) && p < |s|
    ensures var field := StrTokFrom(s, p, ":");
      var value := StrTokFrom(field.0, field.1.save, "\r");
      && (value.1.token.Some? ==> field.1.token.Some? && field.1.token.value < |value.0| - 1 && p <= value.1.token.value < value.1.save)
      && HeaderPairsFrom(s, p, acc) == HeaderPairsStep(value.0, p, value.1.save, field.1.token, value.1.token, acc)
  {
    ValueNeedsField(s, p);
  }

  /** A pass that found both tokens prints them and goes on from `save`. */
  lemma {:induction false} StepPrints(s: seq<char>, p: nat, save: nat, field: nat, value: nat, acc: seq<Header>)
    requires Terminated(s) && p <= save < |s| && field < |s| - 1 && p <= value < save && value < |s| - 1
    ensures HeaderPairsStep(s, p, save, Some(field), Some(value), acc) == HeaderPairsFrom(s, save, acc + [Header(PastFirst(s, field), PastFirst(s, value))])
  {
  }

  /** A pass that cuts the field at p and the value at v, leaving b and going on from save, prints them as h. */
  lemma {:induction false} HeaderPass(s: seq<char>, p: nat, acc: seq<Header>, b: seq<char>, save: nat, v: nat, h: Header)
    requires Terminated(s) && p < |s|
    requires var field := StrTokFrom(s, p, ":");
      var value := StrTokFrom(field.0, field.1.save, "\r");
      field.1.token == Some(p) && value == (b, Tok(save, Some(v)))
    requires p <= v < save < |b| && v < |b| - 1 && PastFirst(b, p) == h.field && PastFirst(b, v) == h.value
    ensures HeaderPairsFrom(s, p, acc) == HeaderPairsFrom(b, save, acc + [h])
  {
    HeaderPairsUnfold(s, p, acc);
    StepPrints(b, p, save, p, v, acc);
  }

  /** One pass of the loop over a header prints it and goes on from n, at the LF that ends its line. */
  lemma {:induction false} HeaderStep(s: seq<char>, p: nat, h: Header, acc: seq<Header>) returns (b: seq<char>, n: nat)
    requires Terminated(s) && HeaderOk(h) && At(s, p, HeaderText(h))
    ensures n == p + |HeaderText(h)| && p + 3 + |h.field| + |h.value| < |s| && b == HeaderBuffer(s, p, h)
    ensures n < |s| && HeaderPairsFrom(s, p, acc) == HeaderPairsFrom(b, n, acc + [h])
  {
    var f, v := |h.field|, |h.value|;
    HeaderCut(s, p, h);
    TextLayout(s, p, h);
    b, n := HeaderBuffer(s, p, h), p + 4 + f + v;
    HeaderPrinted(s, p, h);
    HeaderPass(s, p, acc, b, n, p + 2 + f, h);
  }

  /** Cutting the first header leaves the others in place. */
  lemma {:induction false} RestAfterHeader(s: seq<char>, p: nat, hs: seq<Header>, body: string, b: seq<char>, n: nat)
    requires Terminated(s) && hs != [] && HeadersAt(s, p, hs, body)
    requires p + 3 + |hs[0].field| + |hs[0].value| < |s| && b == HeaderBuffer(s, p, hs[0]) && n == p + |HeaderText(hs[0])|
    ensures Terminated(b) && HeadersAt(b, n, hs[1..], body)
  {
    TextLayout(s, p, hs[0]);
    HeadersAtFrame(s, b, n, hs[1..], body);
  }

  /** One pass over the first header: the loop prints it and goes on from n in b, where the other headers are still laid out. */
  lemma {:induction false} HeadersCut(s: seq<char>, p: nat, hs: seq<Header>, body: string, acc: seq<Header>) returns (b: seq<char>, n: nat)
    requires Terminated(s) && hs != [] && HeadersAt(s, p, hs, body)
    ensures p < n < |b| && |b| == |s| && Terminated(b) && HeadersAt(b, n, hs[1..], body)
    ensures HeaderPairsFrom(s, p, acc) == HeaderPairsFrom(b, n, acc + [hs[0]])
  {
    b, n := HeaderStep(s, p, hs[0], acc);
    RestAfterHeader(s, p, hs, body, b, n);
  }

  /** At the blank line the loop reads the rest as one field and finds no value: it stops. */
  lemma {:induction false} HeadersEnd(s: seq<char>, p: nat, body: string, acc: seq<Header>)
    requires Terminated(s) && BodyOk(body) && At(s, p, "\n\r\n" + body + [NUL])
    ensures p < |s| && HeaderPairsFrom(s, p, acc).1 == acc
  {
    var t := "\n\r\n" + body;
    AtConcat(s, p, t, [NUL]);
    AtChar(s, p + |t|, NUL);
    assert forall i :: 0 <= i < |t| ==> t[i] != NUL && t[i] !in ":" by {
      forall i | 0 <= i < |t|
        ensures t[i] != NUL && t[i] !in ":"
      {
        if i >= 3 {
          assert t[i] == body[i - 3];
        }
      }
    }
    TokenBeforeEnd(s, p, ":", t);
    TokenPastEnd(s, p + |t|, "\r");
  }

  /** The loop prints the headers laid out from p, in order, after those printed before. */
  lemma {:induction false} HeadersPrinted(s: seq<char>, p: nat, hs: seq<Header>, body: string, acc: seq<Header>)
    requires Terminated(s) && BodyOk(body) && HeadersAt(s, p, hs, body)
    ensures p < |s| && HeaderPairsFrom(s, p, acc).1 == acc + hs
    decreases |hs|
  {
    if hs == [] {
      HeadersEnd(s, p, body, acc);
    } else {
      ShiftFirst(acc, hs);
      var b, n := HeadersCut(s, p, hs, body, acc);
      HeadersPrinted(b, n, hs[1..], body, acc + [hs[0]]);
    }
  }

  /** The headers as the loop meets them, each from its LF to its CR. */
  function HeaderTexts(hs: seq<Header>): string
    decreases |hs|
  {
    if hs == [] then "" else HeaderText(hs[0]) + HeaderTexts(hs[1..])
  }

  /** The lines a client sends, read from the LF after the request line's CR: every line's CR LF straddles two HeaderTexts. */
  lemma {:induction false} LinesAsTexts(hs: seq<Header>)
    ensures "\n" + HeaderLines(hs) == HeaderTexts(hs) + "\n"
    decreases |hs|
  {
    if hs != [] {
      var h := hs[0];
      LinesAsTexts(hs[1..]);
      calc {
        "\n" + HeaderLines(hs);
        "\n" + (HeaderLine(h) + HeaderLines(hs[1..]));
        { assert "\n" + HeaderLine(h) == HeaderText(h) + "\n"; }
        HeaderText(h) + ("\n" + HeaderLines(hs[1..]));
        HeaderText(h) + (HeaderTexts(hs[1..]) + "\n");
        HeaderTexts(hs) + "\n";
      }
    }
  }

  /** The headers' texts, then the blank line and the body, lay the headers out. */
  lemma {:induction false} HeadersOfText(s: seq<char>, p: nat, hs: seq<Header>, body: string)
    requires (forall h :: h in hs ==> HeaderOk(h)) && At(s, p, HeaderTexts(hs) + ("\n\r\n" + body + [NUL]))
    ensures HeadersAt(s, p, hs, body)
    decreases |hs|
  {
    if hs == [] {
      assert HeaderTexts(hs) + ("\n\r\n" + body + [NUL]) == "\n\r\n" + body + [NUL];
    } else {
      var h := hs[0];
      assert h in hs;
      var after := HeaderTexts(hs[1..]) + ("\n\r\n" + body + [NUL]);
      assert HeaderTexts(hs) + ("\n\r\n" + body + [NUL]) == HeaderText(h) + after;
      AtConcat(s, p, HeaderText(h), after);
      assert forall h' :: h' in hs[1..] ==> h' in hs;
      HeadersOfText(s, p + |HeaderText(h)|, hs[1..], body);
    }
  }

  /** A request line that strtok_r cuts whole at its CR: non-empty, without CR or NUL. */
  predicate RequestLineOk(t: string)
  {
    |t| > 0 && forall i :: 0 <= i < |t| ==> t[i] != '\r' && t[i] != NUL
  }

  /** The first strtok_r call cuts the request line at its CR and leaves the rest in place. */
  lemma {:induction false} RequestLineCut(s: seq<char>, line: string, tail: string) returns (s1: seq<char>, p: nat)
    requires Terminated(s) && RequestLineOk(line) && At(s, 0, line + ("\r" + tail))
    ensures |s1| == |s| && Terminated(s1) && p < |s| && At(s1, p, tail)
    ensures HeaderInfo(s) == HeaderPairsFrom(s1, p, [])
  {
    s1, p := LineToken(s, line, tail);
  }

  /** The token that first strtok_r call returns, and the buffer and saved pointer it leaves. */
  lemma {:induction false} LineToken(s: seq<char>, line: string, tail: string) returns (s1: seq<char>, p: nat)
    requires Terminated(s) && RequestLineOk(line) && At(s, 0, line + ("\r" + tail))
    ensures StrTokFrom(s, 0, "\r") == (s1, Tok(p, Some(0)))
    ensures |s1| == |s| && Terminated(s1) && p < |s| && At(s1, p, tail)
  {
    var l := |line|;
    AtConcat(s, 0, line, "\r" + tail);
    AtConcat(s, l, "\r", tail);
    AtChar(s, l, '\r');
    assert forall i :: 0 <= i < l ==> line[i] != NUL && line[i] !in "\r";
    TokenBeforeDelimiter(s, 0, "\r", line);
    s1, p := s[l := NUL], l + 1;
    AtFrame(s, s1, p, tail);
  }

  /**
   * For a request "line CRLF headers CRLF body" whose body holds no ':',
   * the function prints exactly the headers, in order, field and value.
   */
  lemma {:induction false} HeaderInfoRoundTrip(s: seq<char>, line: string, hs: seq<Header>, body: string)
    requires Terminated(s) && RequestLineOk(line) && (forall h :: h in hs ==> HeaderOk(h)) && BodyOk(body)
    requires At(s, 0, line + "\r\n" + HeaderLines(hs) + "\r\n" + body + [NUL])
    ensures HeaderInfo(s).1 == hs
  {
    LinesAsTexts(hs);
    var tail := HeaderTexts(hs) + ("\n\r\n" + body + [NUL]);
    calc {
      line + "\r\n" + HeaderLines(hs) + "\r\n" + body + [NUL];
      line + ("\r" + (("\n" + HeaderLines(hs)) + ("\r\n" + body + [NUL])));
      line + ("\r" + ((HeaderTexts(hs) + "\n") + ("\r\n" + body + [NUL])));
      line + ("\r" + tail);
    }
    var s1, p := RequestLineCut(s, line, tail);
    HeadersOfText(s1, p, hs, body);
    HeadersPrinted(s1, p, hs, body, []);
    assert [] + hs == hs;
  }
}
