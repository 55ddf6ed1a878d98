/**
 * print_path_and_values: the path and the query pairs of a request's first
 * line, split with strtok_r.  The first token (the method) is skipped, the
 * path runs up to the first '?', and then each key runs up to '=' and each
 * value up to '&' or a space, until a value token is missing.  The pairs
 * are read when they are printed, from the buffer as it is then.
 */
module TodoApi1 {
  import opened Wrappers
  import opened CString
  import opened Seqs

  /** A key and its value, as the loop prints them. */
  datatype QueryPair = QueryPair(key: string, value: string)

  /** The path and the pairs the function prints, in order. */
  datatype Printed = Printed(path: Option<string>, pairs: seq<QueryPair>)

  /**
   * The loop from the saved position p, with the pairs printed so far:
   * stop when the value token is NULL; a NULL key cannot come with a value,
   * since strtok_r returns NULL only at the end of the string.
   */
  function QueryPairsFrom(s: seq<char>, p: nat, acc: seq<QueryPair>): (r: (seq<char>, seq<QueryPair>))
    requires Terminated(s) && p < |s|
    ensures |r.0| == |s| && Terminated(r.0) && |acc| <= |r.1|
    decreases |s| - p, 1
  {
    var key := StrTokFrom(s, p, "=");
    var value := StrTokFrom(key.0, key.1.save, "& ");
    ValueNeedsKey(s, p);
    QueryPairsStep(value.0, p, value.1.save, key.1.token, value.1.token, acc)
  }

  /**
   * The end of one pass, once both tokens are cut (key at `key`, value at
   * `value`, the next search from `save`): stop on a NULL value, else
   * print the pair and go on.
   */
  function QueryPairsStep(s: seq<char>, p: nat, save: nat, key: Option<nat>, value: Option<nat>, acc: seq<QueryPair>): (r: (seq<char>, seq<QueryPair>))
    requires Terminated(s) && p <= save < |s|
    requires value.Some? ==> key.Some? && key.value < |s| && p <= value.value < save
    ensures |r.0| == |s| && Terminated(r.0) && |acc| <= |r.1|
    decreases |s| - p, 0
  {
    if value.None? then (s, acc)
    else QueryPairsFrom(s, save, acc + [QueryPair(CStr(s, key.value), CStr(s, value.value))])
  }

  /** A value token comes only after a key token: strtok_r gives NULL only at the end of the string. */
  lemma {:induction false} ValueNeedsKey(s: seq<char>, p: nat)
    requires Terminated(s) && p < |s|
    ensures var key := StrTokFrom(s, p, "=");
      var value := StrTokFrom(key.0, key.1.save, "& ");
      value.1.token.Some? ==> key.1.token.Some?
  {
    var key := StrTokFrom(s, p, "=");
    StrTokNull(s, p, "=");
    if key.1.token.None? {
      assert s[key.1.save] == NUL;
      TokenPastEnd(key.0, key.1.save, "& ");
    }
  }

  /** print_path_and_values on the request held in s. */
  function PathAndValues(s: seq<char>): (r: (seq<char>, Printed))
    requires Terminated(s)
    ensures |r.0| == |s| && Terminated(r.0)
  {
    var first := StrTokFrom(s, 0, " \t\r\n");
    PathFrom(first.0, first.1.save)
  }

  /** The rest of print_path_and_values once the first token is cut and strtok_r resumes at p: the path, then the pairs. */
  function PathFrom(s: seq<char>, p: nat): (r: (seq<char>, Printed))
    requires Terminated(s) && p < |s|
    ensures |r.0| == |s| && Terminated(r.0)
  {
    var path := StrTokFrom(s, p, "?");
    var pairs := QueryPairsFrom(path.0, path.1.save, []);
    (pairs.0, Printed(if path.1.token.Some? then Some(CStr(path.0, path.1.token.value)) else None, pairs.1))
  }

  /** print_path_and_values, tokenising the request in buf. */
  method PrintPathAndValues(buf: array<char>) returns (out: Printed)
    requires Terminated(buf[..])
    modifies buf
    ensures (buf[..], out) == PathAndValues(old(buf[..]))
  {
    var first, save := StrTokR(buf, Some(0), " \t\r\n", 0);
    var path, save' := StrTokR(buf, None, "?", save);
    var shown := if path.Some? then Some(CStr(buf[..], path.value)) else None;
    var pairs: seq<QueryPair> := [];
    ghost var start := buf[..];
    ghost var from := save';
    while true
      invariant Terminated(buf[..]) && save' < buf.Length
      invariant QueryPairsFrom(buf[..], save', pairs) == QueryPairsFrom(start, from, [])
      decreases buf.Length - save'
    {
      ValueNeedsKey(buf[..], save');
      var key, s1 := StrTokR(buf, None, "=", save');
      var value, s2 := StrTokR(buf, None, "& ", s1);
      if value.None? {
        break;
      }
      pairs := pairs + [QueryPair(CStr(buf[..], key.value), CStr(buf[..], value.value))];
      save' := s2;
    }
    out := Printed(shown, pairs);
  }

  /** A pair the loop reads back: a non-empty key without '=' or NUL, a non-empty value without '&', space or NUL. */
  predicate PairOk(q: QueryPair)
  {
    && |q.key| > 0 && (forall i :: 0 <= i < |q.key| ==> q.key[i] != '=' && q.key[i] != NUL)
    && |q.value| > 0 && (forall i :: 0 <= i < |q.value| ==> q.value[i] != '&' && q.value[i] != ' ' && q.value[i] != NUL)
  }

  /** Text after the query from which no pair comes: no '=' and no NUL. */
  predicate RestOk(t: string)
  {
    forall i :: 0 <= i < |t| ==> t[i] != '=' && t[i] != NUL
  }

  /** A query as a request line carries it: key=value pairs joined by '&', the last followed by the space before the version. */
  function QueryText(ps: seq<QueryPair>): string
    decreases |ps|
  {
    if ps == [] then ""
    else ps[0].key + "=" + ps[0].value + (if |ps| == 1 then " " else "&" + QueryText(ps[1..]))
  }

  /** The pairs ps from p, each followed by '&' or a space, then `rest` and NUL. */
  predicate QueryAt(s: seq<char>, p: nat, ps: seq<QueryPair>, rest: string)
    decreases |ps|
  {
    if ps == [] then At(s, p, rest + [NUL])
    else
      var e := p + |ps[0].key| + 1 + |ps[0].value|;
      && PairOk(ps[0]) && At(s, p, ps[0].key + "=" + ps[0].value) && e < |s| && (s[e] == '&' || s[e] == ' ')
      && QueryAt(s, e + 1, ps[1..], rest)
  }

  /** The pairs stay where they are when only bytes before them change. */
  lemma {:induction false} QueryAtFrame(s: seq<char>, t: seq<char>, p: nat, ps: seq<QueryPair>, rest: string)
    requires QueryAt(s, p, ps, rest) && |t| == |s|
    requires forall k :: p <= k < |s| ==> t[k] == s[k]
    ensures QueryAt(t, p, ps, rest)
    decreases |ps|
  {
    if ps == [] {
      AtFrame(s, t, p, rest + [NUL]);
    } else {
      var e := p + |ps[0].key| + 1 + |ps[0].value|;
      AtFrame(s, t, p, ps[0].key + "=" + ps[0].value);
      QueryAtFrame(s, t, e + 1, ps[1..], rest);
    }
  }

  /** The layout of a pair placed in a buffer. */
  lemma {:induction false} PairLayout(s: seq<char>, p: nat, q: QueryPair)
    requires At(s, p, q.key + "=" + q.value)
    ensures At(s, p, q.key) && s[p + |q.key|] == '=' && At(s, p + |q.key| + 1, q.value)
  {
    AtConcat(s, p, q.key + "=", q.value);
    AtConcat(s, p, q.key, "=");
    assert s[p + |q.key| + 0] == "="[0];
  }

  /** The key and the value strtok_r cut for a pair followed by '&' or a space. */
  lemma {:induction false} PairCut(s: seq<char>, p: nat, q: QueryPair) returns (s1: seq<char>, v: nat)
    requires Terminated(s) && PairOk(q) && At(s, p, q.key + "=" + q.value)
    requires p + |q.key| + 1 + |q.value| < |s| && (s[p + |q.key| + 1 + |q.value|] == '&' || s[p + |q.key| + 1 + |q.value|] == ' ')
    ensures v == p + |q.key| + 1 && v + |q.value| + 1 < |s| && |s1| == |s| && Terminated(s1)
    ensures StrTokFrom(s, p, "=") == (s1, Tok(v, Some(p)))
    ensures StrTokFrom(s1, v, "& ") == (PairBuffer(s, p, q), Tok(v + |q.value| + 1, Some(v)))
  {
    s1, v := KeyCut(s, p, q);
    assert forall i :: 0 <= i < |q.value| ==> q.value[i] != NUL && q.value[i] !in "& ";
    TokenBeforeDelimiter(s1, v, "& ", q.value);
  }

  /** strtok_r cuts the key of a pair at its '=' and saves the start of the value. */
  lemma {:induction false} KeyCut(s: seq<char>, p: nat, q: QueryPair) returns (s1: seq<char>, v: nat)
    requires Terminated(s) && PairOk(q) && At(s, p, q.key + "=" + q.value)
    requires p + |q.key| + 1 + |q.value| < |s|
    ensures v == p + |q.key| + 1 && s1 == s[p + |q.key| := NUL]
    ensures StrTokFrom(s, p, "=") == (s1, Tok(v, Some(p)))
    ensures Terminated(s1) && At(s1, v, q.value) && v + |q.value| < |s1| && s1[v + |q.value|] == s[v + |q.value|]
  {
    PairLayout(s, p, q);
    var f := |q.key|;
    assert forall i :: 0 <= i < f ==> q.key[i] != NUL && q.key[i] !in "=";
    TokenBeforeDelimiter(s, p, "=", q.key);
    s1, v := s[p + f := NUL], p + f + 1;
    AtFrame(s, s1, v, q.value);
  }

  /** One pass of the loop over a pair followed by '&' or a space prints it and goes on after the separator. */
  lemma {:induction false} PairStep(s: seq<char>, p: nat, q: QueryPair, acc: seq<QueryPair>) returns (b: seq<char>, n: nat)
    requires Terminated(s) && PairOk(q) && At(s, p, q.key + "=" + q.value)
    requires p + |q.key| + 1 + |q.value| < |s| && (s[p + |q.key| + 1 + |q.value|] == '&' || s[p + |q.key| + 1 + |q.value|] == ' ')
    ensures b == PairBuffer(s, p, q) && n == p + |q.key| + 1 + |q.value| + 1
    ensures n < |s| && QueryPairsFrom(s, p, acc) == QueryPairsFrom(b, n, acc + [q])
  {
    var s1, v := PairCut(s, p, q);
    b, n := PairBuffer(s, p, q), v + |q.value| + 1;
    assert Terminated(b) && CStr(b, p) == q.key && CStr(b, v) == q.value by {
      PairPrinted(s, p, q);
    }
    QueryPass(s, p, acc, s1, v, b, n, q);
  }

  /** A pass of the loop that cuts the key at p and the value at v, leaving b and going on from save, prints them as q. */
  lemma {:induction false} QueryPass(s: seq<char>, p: nat, acc: seq<QueryPair>, s1: seq<char>, v: nat, b: seq<char>, save: nat, q: QueryPair)
    requires Terminated(s) && p < |s| && Terminated(s1) && v < |s1|
    requires StrTokFrom(s, p, "=") == (s1, Tok(v, Some(p))) && StrTokFrom(s1, v, "& ") == (b, Tok(save, Some(v)))
    requires p <= v < save < |b| && CStr(b, p) == q.key && CStr(b, v) == q.value
    ensures QueryPairsFrom(s, p, acc) == QueryPairsFrom(b, save, acc + [q])
  {
    QueryPairsUnfold(s, p, acc);
    StepPrints(b, p, save, p, v, acc);
  }

  /** A pass that found both tokens prints the pair and goes on from `save`. */
  lemma {:induction false} StepPrints(s: seq<char>, p: nat, save: nat, key: nat, value: nat, acc: seq<QueryPair>)
    requires Terminated(s) && p <= save < |s| && key < |s| && p <= value < save
    ensures QueryPairsStep(s, p, save, Some(key), Some(value), acc) == QueryPairsFrom(s, save, acc + [QueryPair(CStr(s, key), CStr(s, value))])
  {
  }

  /** One pass of QueryPairsFrom, as the two strtok_r calls leave it. */
  lemma {:induction false} QueryPairsUnfold(s: seq<char>, p: nat, acc: seq<QueryPair>)
    requires Terminated(s) && p < |s|
    ensures var key := StrTokFrom(s, p, "=");
      var value := StrTokFrom(key.0, key.1.save, "& ");
      && (value.1.token.Some? ==> key.1.token.Some? && key.1.token.value < |value.0| && p <= value.1.token.value < value.1.save)
      && QueryPairsFrom(s, p, acc) == QueryPairsStep(value.0, p, value.1.save, key.1.token, value.1.token, acc)
  {
    ValueNeedsKey(s, p);
  }

  /** The buffer once the pair at p is cut: NUL over its '=' and over the '&' or space after it. */
  function PairBuffer(s: seq<char>, p: nat, q: QueryPair): (b: seq<char>)
    requires p + |q.key| + 1 + |q.value| < |s|
    ensures |b| == |s|
  {
    s[p + |q.key| := NUL][p + |q.key| + 1 + |q.value| := NUL]
  }

  /** The key and the value read back once the pair is cut. */
  lemma {:induction false} PairPrinted(s: seq<char>, p: nat, q: QueryPair)
    requires Terminated(s) && PairOk(q) && At(s, p, q.key + "=" + q.value) && p + |q.key| + 1 + |q.value| < |s| - 1
    ensures var b := PairBuffer(s, p, q);
      Terminated(b) && CStr(b, p) == q.key && CStr(b, p + |q.key| + 1) == q.value
  {
    var b := PairBuffer(s, p, q);
    PairLayout(s, p, q);
    AtFrame(s, b, p, q.key);
    AtFrame(s, b, p + |q.key| + 1, q.value);
    CStrAt(b, p, q.key);
    CStrAt(b, p + |q.key| + 1, q.value);
  }

  /** Cutting the first pair leaves the rest of the query in place. */
  lemma {:induction false} RestAfterPair(s: seq<char>, p: nat, ps: seq<QueryPair>, rest: string, b: seq<char>, n: nat)
    requires Terminated(s) && ps != [] && QueryAt(s, p, ps, rest)
    requires b == PairBuffer(s, p, ps[0]) && n == p + |ps[0].key| + 1 + |ps[0].value| + 1
    ensures n < |b| && Terminated(b) && QueryAt(b, n, ps[1..], rest)
  {
    QueryAtFrame(s, b, n, ps[1..], rest);
  }

  /** At the text after the query the loop stops. */
  lemma {:induction false} QueryEnd(s: seq<char>, p: nat, rest: string, acc: seq<QueryPair>)
    requires Terminated(s) && RestOk(rest) && At(s, p, rest + [NUL])
    ensures p < |s| && QueryPairsFrom(s, p, acc).1 == acc
  {
    AtConcat(s, p, rest, [NUL]);
    AtChar(s, p + |rest|, NUL);
    if rest == [] {
      TokenPastEnd(s, p, "=");
      TokenPastEnd(s, p, "& ");
    } else {
      assert forall i :: 0 <= i < |rest| ==> rest[i] != NUL && rest[i] !in "=";
      TokenBeforeEnd(s, p, "=", rest);
      TokenPastEnd(s, p + |rest|, "& ");
    }
  }

  /** The loop prints the pairs laid out from p, in order, after those printed before. */
  lemma {:induction false} QueryPairsAt(s: seq<char>, p: nat, ps: seq<QueryPair>, rest: string, acc: seq<QueryPair>)
    requires Terminated(s) && RestOk(rest) && QueryAt(s, p, ps, rest)
    ensures p < |s| && QueryPairsFrom(s, p, acc).1 == acc + ps
    decreases |ps|
  {
    if ps == [] {
      QueryEnd(s, p, rest, acc);
    } else {
      var q := ps[0];
      var b, n := QueryCut(s, p, ps, rest, acc);
      QueryPairsAt(b, n, ps[1..], rest, acc + [q]);
      ShiftFirst(acc, ps);
    }
  }

  /**
   * One pass over the first pair: the loop prints it and goes on from n
   * in the buffer b, where the other pairs are still laid out.
   */
  lemma {:induction false} QueryCut(s: seq<char>, p: nat, ps: seq<QueryPair>, rest: string, acc: seq<QueryPair>) returns (b: seq<char>, n: nat)
    requires Terminated(s) && ps != [] && QueryAt(s, p, ps, rest)
    ensures p < n < |b| && |b| == |s| && Terminated(b) && QueryAt(b, n, ps[1..], rest)
    ensures QueryPairsFrom(s, p, acc) == QueryPairsFrom(b, n, acc + [ps[0]])
  {
    b, n := PairStep(s, p, ps[0], acc);
    RestAfterPair(s, p, ps, rest, b, n);
  }

  /** A pair's text, its separator and what follows, each where it belongs. */
  lemma PairSplit(s: seq<char>, p: nat, q: QueryPair, sep: char, after: string) returns (e: nat, n: nat)
    requires At(s, p, (q.key + "=" + q.value) + ([sep] + after))
    ensures e == p + |q.key| + 1 + |q.value| && n == e + 1
    ensures At(s, p, q.key + "=" + q.value) && e < |s| && s[e] == sep && At(s, n, after)
  {
    e := p + |q.key| + 1 + |q.value|;
    n := e + 1;
    AtConcat(s, p, q.key + "=" + q.value, [sep] + after);
    AtConcat(s, e, [sep], after);
    AtChar(s, e, sep);
  }

  /** The text of a query followed by `rest` and NUL lays out its pairs. */
  lemma {:induction false} QueryOfText(s: seq<char>, p: nat, ps: seq<QueryPair>, rest: string)
    requires (forall q :: q in ps ==> PairOk(q)) && At(s, p, QueryText(ps) + rest + [NUL])
    ensures QueryAt(s, p, ps, rest)
    decreases |ps|
  {
    if ps == [] {
      assert QueryText(ps) + rest + [NUL] == rest + [NUL];
    } else {
      var q := ps[0];
      assert q in ps;
      var sep := if |ps| == 1 then ' ' else '&';
      var after := if |ps| == 1 then rest + [NUL] else QueryText(ps[1..]) + rest + [NUL];
      assert QueryText(ps) + rest + [NUL] == (q.key + "=" + q.value) + ([sep] + after);
      var e, n := PairSplit(s, p, q, sep, after);
      if |ps| > 1 {
        assert forall q' :: q' in ps[1..] ==> q' in ps;
        QueryOfText(s, n, ps[1..], rest);
      } else {
        assert ps[1..] == [];
      }
    }
  }

  /** A method token without blanks or NUL. */
  predicate WordOk(t: string)
  {
    |t| > 0 && forall i :: 0 <= i < |t| ==> t[i] !in " \t\r\n" && t[i] != NUL
  }

  /** A path that strtok_r reads whole: non-empty, without '?' or NUL. */
  predicate PathOk(t: string)
  {
    |t| > 0 && forall i :: 0 <= i < |t| ==> t[i] != '?' && t[i] != NUL
  }

  /**
   * For a request line "method path?k=v&...&k=v version..." whose text
   * after the query holds no '=', the function prints the path and
   * exactly the query's pairs, in order.
   */
  lemma {:induction false} PathAndValuesRoundTrip(s: seq<char>, word: string, path: string, ps: seq<QueryPair>, rest: string)
    requires Terminated(s) && WordOk(word) && PathOk(path) && (forall q :: q in ps ==> PairOk(q)) && RestOk(rest)
    requires At(s, 0, word + " " + path + "?" + QueryText(ps) + rest + [NUL])
    ensures PathAndValues(s).1 == Printed(Some(path), ps)
  {
    var tail := QueryText(ps) + rest + [NUL];
    assert word + " " + path + "?" + QueryText(ps) + rest + [NUL] == word + " " + (path + "?" + tail);
    var s2, q := LineCut(s, word, path, tail);
    QueryOfText(s2, q, ps, rest);
    QueryPairsAt(s2, q, ps, rest, []);
    assert [] + ps == ps;
  }

  /** The first two strtok_r calls cut the method word and the path, and leave the query from q in place. */
  lemma {:induction false} LineCut(s: seq<char>, word: string, path: string, tail: string) returns (s2: seq<char>, q: nat)
    requires Terminated(s) && WordOk(word) && PathOk(path) && At(s, 0, word + " " + (path + "?" + tail))
    ensures |s2| == |s| && Terminated(s2) && q < |s| && At(s2, q, tail)
    ensures var pairs := QueryPairsFrom(s2, q, []);
      PathAndValues(s) == (pairs.0, Printed(Some(path), pairs.1))
  {
    var s1 := FirstCut(s, word, path + "?" + tail);
    s2, q := PathCut(s1, |word| + 1, path, tail);
    assert PathAndValues(s) == PathFrom(s1, |word| + 1);
  }

  /** The first strtok_r call cuts the method word at the space after it, and leaves the text after the space in place. */
  lemma {:induction false} FirstCut(s: seq<char>, word: string, tail: string) returns (s1: seq<char>)
    requires Terminated(s) && WordOk(word) && At(s, 0, word + " " + tail)
    ensures |s1| == |s| && Terminated(s1) && |word| + 1 < |s| && At(s1, |word| + 1, tail)
    ensures PathAndValues(s) == PathFrom(s1, |word| + 1)
  {
    var w := |word|;
    AtConcat(s, 0, word + " ", tail);
    AtConcat(s, 0, word, " ");
    AtChar(s, w, ' ');
    assert forall i :: 0 <= i < w ==> word[i] != NUL && word[i] !in " \t\r\n";
    TokenBeforeDelimiter(s, 0, " \t\r\n", word);
    s1 := s[w := NUL];
    AtFrame(s, s1, w + 1, tail);
  }

  /** The second strtok_r call cuts the path at its '?', and leaves the query after it in place. */
  lemma {:induction false} PathCut(s: seq<char>, p: nat, path: string, tail: string) returns (s2: seq<char>, q: nat)
    requires Terminated(s) && PathOk(path) && At(s, p, path + "?" + tail)
    ensures |s2| == |s| && Terminated(s2) && q < |s| && At(s2, q, tail)
    ensures var pairs := QueryPairsFrom(s2, q, []);
      PathFrom(s, p) == (pairs.0, Printed(Some(path), pairs.1))
  {
    s2, q := PathToken(s, p, path, tail);
  }

  /** The token strtok_r returns for the path, and the buffer it leaves. */
  lemma {:induction false} PathToken(s: seq<char>, p: nat, path: string, tail: string) returns (s2: seq<char>, q: nat)
    requires Terminated(s) && PathOk(path) && At(s, p, path + "?" + tail)
    ensures StrTokFrom(s, p, "?") == (s2, Tok(q, Some(p)))
    ensures |s2| == |s| && Terminated(s2) && p < q < |s| && At(s2, q, tail) && CStr(s2, p) == path
  {
    var n := |path|;
    AtConcat(s, p, path + "?", tail);
    AtConcat(s, p, path, "?");
    AtChar(s, p + n, '?');
    assert forall i :: 0 <= i < n ==> path[i] != NUL && path[i] !in "?";
    TokenBeforeDelimiter(s, p, "?", path);
    s2, q := s[p + n := NUL], p + n + 1;
    AtFrame(s, s2, p, path);
    AtFrame(s, s2, p + n + 1, tail);
    CStrAt(s2, p, path);
  }

  /**
   * Without a '?' anywhere after the method word, the path token runs to
   * the end of the request (version and headers included) and no pair is
   * printed.
   */
  lemma {:induction false} NoQueryPath(s: seq<char>, word: string, tail: string)
    requires Terminated(s) && WordOk(word) && PathOk(tail) && At(s, 0, word + " " + tail + [NUL])
    ensures PathAndValues(s).1 == Printed(Some(tail), [])
  {
    assert word + " " + tail + [NUL] == word + " " + (tail + [NUL]);
    var s1 := FirstCut(s, word, tail + [NUL]);
    PathToEnd(s1, |word| + 1, tail);
  }

  /** From p, text without '?' up to the terminator is all path, and nothing follows it. */
  lemma {:induction false} PathToEnd(s: seq<char>, p: nat, t: string)
    requires Terminated(s) && PathOk(t) && At(s, p, t + [NUL])
    ensures p < |s| && PathFrom(s, p).1 == Printed(Some(t), [])
  {
    AtConcat(s, p, t, [NUL]);
    AtChar(s, p + |t|, NUL);
    assert forall i :: 0 <= i < |t| ==> t[i] != NUL && t[i] !in "?";
    TokenBeforeEnd(s, p, "?", t);
    CStrAt(s, p, t);
    var none: string := [];
    assert none + [NUL] == [NUL];
    QueryEnd(s, p + |t|, none, []);
  }
}
