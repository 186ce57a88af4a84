/**
  The request line: `sscanf(buffer, "%s %s %s", method, path, version)` as a
  tokenizer. Each `%s` skips white space and then takes the longest run of
  non-white-space characters; a space in the format matches any amount of white
  space, including none. The scan succeeds only when all three conversions do.
*/
module Request {
  import opened CString

  datatype RequestLine = RequestLine(methodName: string, path: string, version: string)

  predicate AllSpace(s: string) {
    forall i :: 0 <= i < |s| ==> IsSpace(s[i])
  }

  predicate NoSpace(s: string) {
    forall i :: 0 <= i < |s| ==> !IsSpace(s[i])
  }

  /** Length of the white space `s` starts with. */
  function SpanSpace(s: string): (n: nat)
    ensures n <= |s|
    ensures AllSpace(s[..n])
    ensures n == |s| || !IsSpace(s[n])
    decreases |s|
  {
    if |s| > 0 && IsSpace(s[0]) then
      var k := SpanSpace(s[1..]);
      assert s[..k + 1] == [s[0]] + s[1..][..k];
      k + 1
    else 0
  }

  /** Length of the non-white-space run `s` starts with. */
  function SpanWord(s: string): (n: nat)
    ensures n <= |s|
    ensures NoSpace(s[..n])
    ensures n == |s| || IsSpace(s[n])
    decreases |s|
  {
    if |s| > 0 && !IsSpace(s[0]) then
      var k := SpanWord(s[1..]);
      assert s[..k + 1] == [s[0]] + s[1..][..k];
      k + 1
    else 0
  }

  /**
    One `%s` conversion: the word read and the text left after it, or None when
    only white space remains (the conversion fails).
  */
  function ScanWord(s: string): (r: Option<(string, string)>)
    ensures r.None? <==> AllSpace(s)
    ensures r.Some? ==>
      var w, rest := r.value.0, r.value.1;
      var lead := |s| - |w| - |rest|;
      && |w| > 0 && NoSpace(w)
      && (rest == [] || IsSpace(rest[0]))
      && 0 <= lead && AllSpace(s[..lead])
      && (IsSpace(s[0]) ==> lead > 0)
      && s == s[..lead] + w + rest
  {
    var lead := SpanSpace(s);
    if lead == |s| then
      assert s[..lead] == s;
      None
    else
      var t := s[lead..];
      var n := SpanWord(t);
      assert !AllSpace(s) by { assert !IsSpace(s[lead]); }
      assert s == s[..lead] + t[..n] + t[n..];
      Some((t[..n], t[n..]))
  }

  /** The three conversions of `sscanf(buffer, "%s %s %s", ...)`; None when fewer than three succeed. */
  function ParseRequestLine(s: string): (r: Option<RequestLine>)
    ensures r.Some? ==> |r.value.methodName| > 0 && NoSpace(r.value.methodName)
    ensures r.Some? ==> |r.value.path| > 0 && NoSpace(r.value.path)
    ensures r.Some? ==> |r.value.version| > 0 && NoSpace(r.value.version)
  {
    match ScanWord(s)
    case None => None
    case Some((m, rest1)) =>
      match ScanWord(rest1)
      case None => None
      case Some((p, rest2)) =>
        match ScanWord(rest2)
        case None => None
        case Some((v, _)) => Some(RequestLine(m, p, v))
  }

  /**
    Number of words in `s` counted independently of the scanner: one for every
    non-white-space character that does not continue a word (`inWord` says
    whether the character before `s` was part of one).
  */
  function CountWordsFrom(s: string, inWord: bool): nat
    decreases |s|
  {
    if |s| == 0 then 0
    else if IsSpace(s[0]) then CountWordsFrom(s[1..], false)
    else (if inWord then 0 else 1) + CountWordsFrom(s[1..], true)
  }

  function CountWords(s: string): nat {
    CountWordsFrom(s, false)
  }

  lemma {:induction false} CountAllSpace(s: string, inWord: bool)
    requires AllSpace(s)
    ensures CountWordsFrom(s, inWord) == 0
    decreases |s|
  {
    if |s| > 0 {
      CountAllSpace(s[1..], false);
    }
  }

  lemma {:induction false} CountAfterSpace(ws: string, t: string, inWord: bool)
    requires AllSpace(ws) && |ws| > 0
    ensures CountWordsFrom(ws + t, inWord) == CountWordsFrom(t, false)
    decreases |ws|
  {
    assert (ws + t)[1..] == ws[1..] + t;
    if |ws| > 1 {
      CountAfterSpace(ws[1..], t, false);
    }
  }

  lemma {:induction false} CountInsideWord(w: string, t: string)
    requires NoSpace(w)
    ensures CountWordsFrom(w + t, true) == CountWordsFrom(t, true)
    decreases |w|
  {
    if |w| > 0 {
      assert (w + t)[1..] == w[1..] + t;
      CountInsideWord(w[1..], t);
    } else {
      assert w + t == t;
    }
  }

  /** A word boundary: after a word ends, it no longer matters that one was open. */
  lemma CountAtBoundary(t: string)
    requires t == [] || IsSpace(t[0])
    ensures CountWordsFrom(t, true) == CountWordsFrom(t, false)
  {
  }

  /** A successful `%s` consumes exactly one word; a failed one leaves none behind. */
  lemma ScanWordCounts(s: string)
    ensures ScanWord(s).None? ==> CountWords(s) == 0
    ensures ScanWord(s).Some? ==> CountWords(s) == 1 + CountWords(ScanWord(s).value.1)
  {
    match ScanWord(s)
    case None =>
      CountAllSpace(s, false);
    case Some((w, rest)) =>
      var lead := |s| - |w| - |rest|;
      var ws := s[..lead];
      assert s == ws + (w + rest);
      if lead > 0 {
        CountAfterSpace(ws, w + rest, false);
      } else {
        assert s == w + rest;
      }
      assert (w + rest)[1..] == w[1..] + rest;
      CountInsideWord(w[1..], rest);
      CountAtBoundary(rest);
  }

  /** The request line is rejected exactly when the buffer holds fewer than three words. */
  lemma ParseFailsIffFewerThanThreeWords(s: string)
    ensures ParseRequestLine(s).None? <==> CountWords(s) < 3
  {
    ScanWordCounts(s);
    if ScanWord(s).Some? {
      var rest1 := ScanWord(s).value.1;
      ScanWordCounts(rest1);
      if ScanWord(rest1).Some? {
        ScanWordCounts(ScanWord(rest1).value.1);
      }
    }
  }

  /** The three fields are the first three words, in order, separated by white space. */
  lemma ParseSplitsWords(s: string) returns (w0: string, w1: string, w2: string, rest: string)
    requires ParseRequestLine(s).Some?
    ensures AllSpace(w0) && AllSpace(w1) && AllSpace(w2) && |w1| > 0 && |w2| > 0
    ensures rest == [] || IsSpace(rest[0])
    ensures var rl := ParseRequestLine(s).value;
      s == w0 + rl.methodName + w1 + rl.path + w2 + rl.version + rest
  {
    var m, r1 := ScanWord(s).value.0, ScanWord(s).value.1;
    var p, r2 := ScanWord(r1).value.0, ScanWord(r1).value.1;
    var v, r3 := ScanWord(r2).value.0, ScanWord(r2).value.1;
    w0 := s[..|s| - |m| - |r1|];
    w1 := r1[..|r1| - |p| - |r2|];
    w2 := r2[..|r2| - |v| - |r3|];
    rest := r3;
    assert IsSpace(r1[0]) && IsSpace(r2[0]);
    Join(s, w0, m, r1, w1, p, r2, w2, v, r3);
  }

  lemma Join(s: string, w0: string, m: string, r1: string, w1: string, p: string, r2: string,
             w2: string, v: string, r3: string)
    requires s == w0 + m + r1 && r1 == w1 + p + r2 && r2 == w2 + v + r3
    ensures s == w0 + m + w1 + p + w2 + v + r3
  {
  }
}
