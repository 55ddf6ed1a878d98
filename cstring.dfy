/**
 * NUL-terminated character buffers and the C library string routines the
 * HTTP code relies on: strlen, strspn/strcspn, strstr, strchr and glibc's
 * strtok_r, which skips leading delimiters, cuts the token at the next
 * delimiter by overwriting it with NUL and remembers where to resume.
 *
 * A buffer is a `seq<char>` (or an `array<char>` where it is written) whose
 * last character is NUL, so every index into it starts a C string; a
 * pointer into the buffer is an index.
 */
module CString {
  import opened Wrappers

  const NUL: char := '\0'

  predicate Terminated(s: seq<char>)
  {
    |s| > 0 && s[|s| - 1] == NUL
  }

  /** strlen of the string starting at p. */
  function StrLen(s: seq<char>, p: nat): (n: nat)
    requires Terminated(s) && p < |s|
    ensures p + n < |s| && s[p + n] == NUL
    decreases |s| - p
  {
    if s[p] == NUL then 0 else 1 + StrLen(s, p + 1)
  }

  /** No NUL comes before the terminator strlen finds. */
  lemma {:induction false} StrLenChars(s: seq<char>, p: nat)
    requires Terminated(s) && p < |s|
    ensures forall k :: p <= k < p + StrLen(s, p) ==> s[k] != NUL
    decreases |s| - p
  {
    if s[p] != NUL {
      StrLenChars(s, p + 1);
    }
  }

  /** The C string starting at p, without its terminator. */
  function CStr(s: seq<char>, p: nat): (r: string)
    requires Terminated(s) && p < |s|
    ensures p + |r| < |s| && s[p + |r|] == NUL
  {
    s[p..p + StrLen(s, p)]
  }

  /** A C string is the run of characters from p up to its terminator, and holds no NUL. */
  lemma {:induction false} CStrChars(s: seq<char>, p: nat)
    requires Terminated(s) && p < |s|
    ensures CStr(s, p) == s[p..p + |CStr(s, p)|] && NUL !in CStr(s, p)
  {
    StrLenChars(s, p);
    var r := CStr(s, p);
    forall i | 0 <= i < |r|
      ensures r[i] != NUL
    {
      assert r[i] == s[p + i];
    }
  }

  /** A C string is determined by its characters up to and including its terminator. */
  lemma {:induction false} CStrOfLayout(s: seq<char>, p: nat, t: string)
    requires Terminated(s) && p + |t| < |s| && NUL !in t
    requires s[p..p + |t|] == t && s[p + |t|] == NUL
    ensures CStr(s, p) == t
  {
    forall k | p <= k < p + |t|
      ensures s[k] != NUL
    {
      assert s[k] == t[k - p];
    }
    StrLenExact(s, p, |t|);
  }

  /** Writing outside a C string and its terminator leaves it alone. */
  lemma {:induction false} CStrFrame(s: seq<char>, s': seq<char>, p: nat)
    requires Terminated(s) && Terminated(s') && |s'| == |s| && p < |s|
    requires forall k :: p <= k <= p + |CStr(s, p)| ==> s'[k] == s[k]
    ensures CStr(s', p) == CStr(s, p)
  {
    var t := CStr(s, p);
    CStrChars(s, p);
    assert s'[p..p + |t|] == t;
    CStrOfLayout(s', p, t);
  }

  /** The C string at p is placed at p, followed by its terminator. */
  lemma {:induction false} CStrPlaced(s: seq<char>, p: nat)
    requires Terminated(s) && p < |s|
    ensures At(s, p, CStr(s, p) + [NUL])
  {
    var r := CStr(s, p);
    assert At(s, p, r);
    AtChar(s, p + |r|, NUL);
    AtConcat(s, p, r, [NUL]);
  }

  /** strspn: the length of the run of delimiters at p. */
  function SpanOf(s: seq<char>, p: nat, delim: seq<char>): (n: nat)
    requires Terminated(s) && p < |s| && NUL !in delim
    ensures p + n < |s| && s[p + n] !in delim
    decreases |s| - p
  {
    if s[p] in delim then 1 + SpanOf(s, p + 1, delim) else 0
  }

  /** Everything strspn skips is a delimiter. */
  lemma {:induction false} SpanOfChars(s: seq<char>, p: nat, delim: seq<char>)
    requires Terminated(s) && p < |s| && NUL !in delim
    ensures forall k :: p <= k < p + SpanOf(s, p, delim) ==> s[k] in delim
    decreases |s| - p
  {
    if s[p] in delim {
      SpanOfChars(s, p + 1, delim);
    }
  }

  /** strcspn: the length of the run at p of characters that are neither NUL nor delimiters. */
  function CSpanOf(s: seq<char>, p: nat, delim: seq<char>): (n: nat)
    requires Terminated(s) && p < |s|
    ensures p + n < |s| && (s[p + n] == NUL || s[p + n] in delim)
    decreases |s| - p
  {
    if s[p] == NUL || s[p] in delim then 0 else 1 + CSpanOf(s, p + 1, delim)
  }

  /** Everything strcspn passes over is neither NUL nor a delimiter. */
  lemma {:induction false} CSpanOfChars(s: seq<char>, p: nat, delim: seq<char>)
    requires Terminated(s) && p < |s|
    ensures forall k :: p <= k < p + CSpanOf(s, p, delim) ==> s[k] != NUL && s[k] !in delim
    decreases |s| - p
  {
    if s[p] != NUL && s[p] !in delim {
      CSpanOfChars(s, p + 1, delim);
    }
  }

  /** A run of non-delimiters that ends at a delimiter or NUL has exactly its length as strcspn. */
  lemma {:induction false} CSpanExact(s: seq<char>, p: nat, delim: seq<char>, len: nat)
    requires Terminated(s) && p + len < |s|
    requires forall k :: p <= k < p + len ==> s[k] != NUL && s[k] !in delim
    requires s[p + len] == NUL || s[p + len] in delim
    ensures CSpanOf(s, p, delim) == len
    decreases len
  {
    if len > 0 {
      CSpanExact(s, p + 1, delim, len - 1);
    }
  }

  /** What one strtok_r call leaves besides the buffer: the pointer it saves and the token it returns. */
  datatype Tok = Tok(save: nat, token: Option<nat>)

  /**
   * One strtok_r call that resumes at p (the string argument, or the saved
   * pointer when that argument is NULL).
   */
  function StrTokFrom(s: seq<char>, p: nat, delim: seq<char>): (r: (seq<char>, Tok))
    requires Terminated(s) && p < |s| && NUL !in delim
    ensures |r.0| == |s| && Terminated(r.0) && p <= r.1.save < |s|
    ensures r.1.token.Some? ==> p <= r.1.token.value < r.1.save && r.1.token.value < |s| - 1
  {
    var q := p + SpanOf(s, p, delim);
    if s[q] == NUL then
      (s, Tok(q, None))
    else
      var e := q + CSpanOf(s, q, delim);
      if s[e] == NUL then (s, Tok(e, Some(q)))
      else (s[e := NUL], Tok(e + 1, Some(q)))
  }

  /** strtok_r writes nothing before the position it resumes at. */
  lemma {:induction false} StrTokFrame(s: seq<char>, p: nat, delim: seq<char>)
    requires Terminated(s) && p < |s| && NUL !in delim
    ensures var r := StrTokFrom(s, p, delim);
      forall k {:trigger r.0[k]} :: 0 <= k < p ==> r.0[k] == s[k]
  {
  }

  /**
   * strtok_r stops at the first NUL from p on: it writes nothing at or after
   * a NUL at e >= p, and resumes no further than e.
   */
  lemma {:induction false} StrTokBelow(s: seq<char>, p: nat, delim: seq<char>, e: nat)
    requires Terminated(s) && p <= e < |s| && NUL !in delim && s[e] == NUL
    ensures var r := StrTokFrom(s, p, delim);
      && r.1.save <= e
      && forall k {:trigger r.0[k]} :: e <= k < |s| ==> r.0[k] == s[k]
  {
    SpanOfChars(s, p, delim);
    var q := p + SpanOf(s, p, delim);
    assert q <= e;
    if s[q] != NUL {
      CSpanOfChars(s, q, delim);
    }
  }

  /** strtok_r returns NULL exactly when only delimiters remain, and then writes nothing and saves the end of the string. */
  lemma {:induction false} StrTokNull(s: seq<char>, p: nat, delim: seq<char>)
    requires Terminated(s) && p < |s| && NUL !in delim
    ensures var r := StrTokFrom(s, p, delim);
      && (r.1.token.None? <==> forall k :: p <= k < p + StrLen(s, p) ==> s[k] in delim)
      && (r.1.token.None? ==> r.0 == s && r.1.save == p + StrLen(s, p))
  {
    var q := p + SpanOf(s, p, delim);
    var n := StrLen(s, p);
    SpanOfChars(s, p, delim);
    StrLenChars(s, p);
    if s[q] != NUL {
      assert p <= q < p + n && s[q] !in delim;
    } else {
      StrLenExact(s, p, q - p);
    }
  }

  /**
   * A token strtok_r returns is a non-empty run of non-delimiters, preceded
   * only by delimiters and followed by the end of the string or by a
   * delimiter, which alone is overwritten; scanning resumes just after it.
   */
  lemma {:induction false} StrTokToken(s: seq<char>, p: nat, delim: seq<char>)
    requires Terminated(s) && p < |s| && NUL !in delim
    requires StrTokFrom(s, p, delim).1.token.Some?
    ensures var r := StrTokFrom(s, p, delim);
      var q := r.1.token.value;
      var t := CStr(r.0, q);
      && (forall k :: p <= k < q ==> s[k] in delim)
      && |t| > 0 && (forall c :: c in t ==> c !in delim)
      && t == s[q..q + |t|]
      && (s[q + |t|] == NUL || s[q + |t|] in delim)
      && r.1.save == q + |t| + (if s[q + |t|] == NUL then 0 else 1)
      && (forall k {:trigger r.0[k]} :: 0 <= k < |s| && k != q + |t| ==> r.0[k] == s[k])
  {
    var r := StrTokFrom(s, p, delim);
    var q := p + SpanOf(s, p, delim);
    var e := q + CSpanOf(s, q, delim);
    SpanOfChars(s, p, delim);
    CSpanOfChars(s, q, delim);
    assert r.0[q..e] == s[q..e];
    CStrOfLayout(r.0, q, s[q..e]);
  }

  /**
   * strtok_r at a token that starts right at p and is len characters long,
   * ending at a delimiter: the delimiter becomes NUL and scanning resumes
   * after it.
   */
  lemma {:induction false} TokenAtDelimiter(s: seq<char>, p: nat, delim: seq<char>, len: nat)
    requires Terminated(s) && p + len < |s| && NUL !in delim && len > 0
    requires forall k :: p <= k < p + len ==> s[k] != NUL && s[k] !in delim
    requires s[p + len] in delim
    ensures StrTokFrom(s, p, delim) == (s[p + len := NUL], Tok(p + len + 1, Some(p)))
  {
    CSpanExact(s, p, delim, len);
  }

  /** strtok_r at a token that starts right at p and runs to the end of the string. */
  lemma {:induction false} TokenAtEnd(s: seq<char>, p: nat, delim: seq<char>, len: nat)
    requires Terminated(s) && p + len < |s| && NUL !in delim && len > 0
    requires forall k :: p <= k < p + len ==> s[k] != NUL && s[k] !in delim
    requires s[p + len] == NUL
    ensures StrTokFrom(s, p, delim) == (s, Tok(p + len, Some(p)))
  {
    CSpanExact(s, p, delim, len);
  }

  /** strtok_r at the end of the string returns NULL and changes nothing. */
  lemma {:induction false} TokenPastEnd(s: seq<char>, p: nat, delim: seq<char>)
    requires Terminated(s) && p < |s| && NUL !in delim && s[p] == NUL
    ensures StrTokFrom(s, p, delim) == (s, Tok(p, None))
  {
  }

  /** The scan of strspn: the first position at or after p that is not a delimiter. */
  method SkipDelimiters(buf: array<char>, p: nat, delim: seq<char>) returns (q: nat)
    requires Terminated(buf[..]) && NUL !in delim && p < buf.Length
    ensures q == p + SpanOf(buf[..], p, delim)
  {
    q := p;
    while buf[q] in delim
      invariant p <= q < buf.Length
      invariant q - p + SpanOf(buf[..], q, delim) == SpanOf(buf[..], p, delim)
      decreases buf.Length - q
    {
      q := q + 1;
    }
  }

  /** The scan of strcspn: the first position at or after q holding NUL or a delimiter. */
  method SkipToken(buf: array<char>, q: nat, delim: seq<char>) returns (e: nat)
    requires Terminated(buf[..]) && q < buf.Length
    ensures e == q + CSpanOf(buf[..], q, delim)
  {
    e := q;
    while buf[e] != NUL && buf[e] !in delim
      invariant q <= e < buf.Length
      invariant e - q + CSpanOf(buf[..], e, delim) == CSpanOf(buf[..], q, delim)
      decreases buf.Length - e
    {
      e := e + 1;
    }
  }

  /**
   * glibc's strtok_r on a buffer: `str` is the string argument (None for
   * NULL, which resumes at `save`); returns the token and the new saved
   * pointer.
   */
  method StrTokR(buf: array<char>, str: Option<nat>, delim: seq<char>, save: nat)
      returns (token: Option<nat>, save': nat)
    requires Terminated(buf[..]) && NUL !in delim
    requires (if str.Some? then str.value else save) < buf.Length
    modifies buf
    ensures var r := StrTokFrom(old(buf[..]), if str.Some? then str.value else save, delim);
      buf[..] == r.0 && save' == r.1.save && token == r.1.token
  {
    var p := if str.Some? then str.value else save;
    var q := SkipDelimiters(buf, p, delim);
    if buf[q] == NUL {
      return None, q;
    }
    var e := SkipToken(buf, q, delim);
    if buf[e] == NUL {
      return Some(q), e;
    }
    buf[e] := NUL;
    return Some(q), e + 1;
  }

  /** The characters of t sit in s from position p on. */
  predicate At(s: seq<char>, p: nat, t: string)
  {
    p + |t| <= |s| && forall i :: 0 <= i < |t| ==> s[p + i] == t[i]
  }

  lemma {:induction false} AtConcat(s: seq<char>, p: nat, a: string, b: string)
    ensures At(s, p, a + b) <==> At(s, p, a) && At(s, p + |a|, b)
  {
    if At(s, p, a + b) {
      forall i | 0 <= i < |a|
        ensures s[p + i] == a[i]
      {
        assert s[p + i] == (a + b)[i];
      }
      forall i | 0 <= i < |b|
        ensures s[p + |a| + i] == b[i]
      {
        assert s[p + (|a| + i)] == (a + b)[|a| + i];
      }
    }
    if At(s, p, a) && At(s, p + |a|, b) {
      forall i | 0 <= i < |a + b|
        ensures s[p + i] == (a + b)[i]
      {
        if i < |a| {
          assert s[p + i] == a[i];
        } else {
          assert s[p + |a| + (i - |a|)] == b[i - |a|];
        }
      }
    }
  }

  /** Text at p that is a + b: a at p, and b at q, right after it. */
  lemma AtSplit(s: seq<char>, p: nat, a: string, b: string, q: nat)
    requires At(s, p, a + b) && q == p + |a|
    ensures At(s, p, a) && At(s, q, b)
  {
    AtConcat(s, p, a, b);
  }

  /** The same place, however its position is written. */
  lemma AtMoved(s: seq<char>, p: nat, q: nat, t: string)
    requires At(s, p, t) && p == q
    ensures At(s, q, t)
  {
  }

  lemma {:induction false} AtChar(s: seq<char>, p: nat, c: char)
    ensures At(s, p, [c]) <==> p < |s| && s[p] == c
  {
    if At(s, p, [c]) {
      assert s[p + 0] == [c][0];
    }
  }

  /** A write outside the characters of t keeps them in place. */
  lemma {:induction false} AtFrame(s: seq<char>, s': seq<char>, p: nat, t: string)
    requires At(s, p, t) && |s'| == |s|
    requires forall k :: p <= k < p + |t| ==> s'[k] == s[k]
    ensures At(s', p, t)
  {
    forall i | 0 <= i < |t|
      ensures s'[p + i] == t[i]
    {
      assert s'[p + i] == s[p + i];
    }
  }

  /** Any slice of a placed string is placed at the matching offset. */
  lemma {:induction false} AtSlice(s: seq<char>, p: nat, u: string, a: nat, b: nat)
    requires At(s, p, u) && a <= b <= |u|
    ensures At(s, p + a, u[a..b])
  {
    forall i | 0 <= i < b - a
      ensures s[p + a + i] == u[a..b][i]
    {
      assert s[p + (a + i)] == u[a + i];
    }
  }

  /** A run of len non-NUL characters followed by NUL has exactly its length as strlen. */
  lemma {:induction false} StrLenExact(s: seq<char>, p: nat, len: nat)
    requires Terminated(s) && p + len < |s|
    requires forall k :: p <= k < p + len ==> s[k] != NUL
    requires s[p + len] == NUL
    ensures StrLen(s, p) == len
    decreases len
  {
    if len > 0 {
      StrLenExact(s, p + 1, len - 1);
    }
  }

  /** A string placed at p and followed by NUL is the C string at p. */
  lemma {:induction false} CStrAt(s: seq<char>, p: nat, t: string)
    requires Terminated(s) && At(s, p, t) && forall i :: 0 <= i < |t| ==> t[i] != NUL
    requires p + |t| < |s| && s[p + |t|] == NUL
    ensures CStr(s, p) == t
  {
    forall k | p <= k < p + |t|
      ensures s[k] != NUL
    {
      assert s[p + (k - p)] == t[k - p];
    }
    StrLenExact(s, p, |t|);
    var r := CStr(s, p);
    forall i | 0 <= i < |t|
      ensures r[i] == t[i]
    {
      assert s[p + i] == t[i];
    }
  }

  /** A placed string that holds no NUL ends before the terminator of the buffer. */
  lemma {:induction false} AtBeforeEnd(s: seq<char>, p: nat, u: string)
    requires Terminated(s) && At(s, p, u) && NUL !in u && |u| > 0
    ensures p + |u| < |s|
  {
    forall k | p <= k < p + |u|
      ensures s[k] != NUL
    {
      assert s[p + (k - p)] == u[k - p];
    }
  }

  /**
   * strtok_r at a token t that starts right at p and ends at a delimiter:
   * the delimiter becomes NUL and scanning resumes after it.
   */
  lemma {:induction false} TokenBeforeDelimiter(s: seq<char>, p: nat, delim: seq<char>, t: string)
    requires Terminated(s) && NUL !in delim && |t| > 0
    requires forall i :: 0 <= i < |t| ==> t[i] != NUL && t[i] !in delim
    requires At(s, p, t) && p + |t| < |s| && s[p + |t|] in delim
    ensures p + |t| + 1 < |s|
    ensures StrTokFrom(s, p, delim) == (s[p + |t| := NUL], Tok(p + |t| + 1, Some(p)))
  {
    forall k | p <= k < p + |t|
      ensures s[k] != NUL && s[k] !in delim
    {
      assert s[p + (k - p)] == t[k - p];
    }
    TokenAtDelimiter(s, p, delim, |t|);
  }

  /** strtok_r at a token t that starts right at p and runs to the end of the string. */
  lemma {:induction false} TokenBeforeEnd(s: seq<char>, p: nat, delim: seq<char>, t: string)
    requires Terminated(s) && NUL !in delim && |t| > 0
    requires forall i :: 0 <= i < |t| ==> t[i] != NUL && t[i] !in delim
    requires At(s, p, t) && p + |t| < |s| && s[p + |t|] == NUL
    ensures StrTokFrom(s, p, delim) == (s, Tok(p + |t|, Some(p)))
  {
    forall k | p <= k < p + |t|
      ensures s[k] != NUL && s[k] !in delim
    {
      assert s[p + (k - p)] == t[k - p];
    }
    TokenAtEnd(s, p, delim, |t|);
  }

  /**
   * strstr (and, with a one-character needle, strchr) on the C string at p:
   * the offset from p of the first place where `needle` starts, searching
   * no further than the terminator.
   */
  function StrStr(s: seq<char>, p: nat, needle: string): (r: Option<nat>)
    requires Terminated(s) && p < |s| && |needle| > 0 && NUL !in needle
    ensures r.Some? ==> p + r.value + |needle| < |s|
    decreases |s| - p
  {
    if s[p] == NUL then None
    else if At(s, p, needle) then
      assert s[p + (|needle| - 1)] == needle[|needle| - 1];
      Some(0)
    else
      var r := StrStr(s, p + 1, needle);
      if r.Some? then Some(r.value + 1) else None
  }

  /** What strstr returns is the first occurrence; when it finds none, the needle starts nowhere in the string. */
  lemma {:induction false} StrStrFirst(s: seq<char>, p: nat, needle: string)
    requires Terminated(s) && p < |s| && |needle| > 0 && NUL !in needle
    ensures var r := StrStr(s, p, needle);
      && (r.Some? ==> At(s, p + r.value, needle))
      && (r.Some? ==> (forall k :: p <= k < p + r.value ==> s[k] != NUL) && forall k :: p <= k < p + r.value ==> !At(s, k, needle))
      && (r.None? ==> forall k :: p <= k < p + StrLen(s, p) ==> !At(s, k, needle))
    decreases |s| - p
  {
    if s[p] != NUL && !At(s, p, needle) {
      StrStrFirst(s, p + 1, needle);
    }
  }

  /** strstr returns NULL when `needle` starts nowhere in the string. */
  lemma {:induction false} StrStrNone(s: seq<char>, p: nat, needle: string)
    requires Terminated(s) && p < |s| && |needle| > 0 && NUL !in needle
    requires forall k :: p <= k < p + StrLen(s, p) ==> !At(s, k, needle)
    ensures StrStr(s, p, needle).None?
    decreases |s| - p
  {
    if s[p] != NUL {
      StrStrNone(s, p + 1, needle);
    }
  }

  /** strstr finds `needle` at offset j when it sits there and nowhere in the string before it. */
  lemma {:induction false} StrStrAt(s: seq<char>, p: nat, needle: string, j: nat)
    requires Terminated(s) && p < |s| && |needle| > 0 && NUL !in needle
    requires At(s, p + j, needle)
    requires forall k :: p <= k < p + j ==> s[k] != NUL
    requires forall k :: p <= k < p + j ==> !At(s, k, needle)
    ensures StrStr(s, p, needle) == Some(j)
    decreases j
  {
    if j == 0 {
      assert s[p + 0] == needle[0];
    } else {
      assert s[p] != NUL && !At(s, p, needle);
      StrStrAt(s, p + 1, needle, j - 1);
    }
  }
}
