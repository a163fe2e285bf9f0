/** `maybe_redirect`: recognises a soft-redirect page by a fixed marker on
    its seventh line (index 6) and extracts the URL it points to. */
module Redirects {
  import opened Text

  const Marker := "<p>Redirecting to <a href="

  /** What `maybe_redirect` makes of a document. `Malformed` is the case in
      which the source panics: the marker is there but the slice past it is
      out of range, or no closing '"' follows. */
  datatype RedirectScan = NotRedirect | RedirectTo(url: string) | Malformed

  /** The scan of the one line that is inspected. The character right after
      the marker (the opening quote, on a well-formed page) is skipped
      unexamined; the URL runs up to the next '"'. */
  function RedirectLine(line: string): RedirectScan {
    match Find(line, Marker)
    case None => NotRedirect
    case Some(i) =>
      var from := i + |Marker| + 1;
      if from > |line| then Malformed
      else match Find(line[from..], "\"")
        case None => Malformed
        case Some(q) => RedirectTo(line[from..from + q])
  }

  /** A URL is taken from right after the first marker and the character
      following it, up to (not including) the next '"'; a line without the
      marker is no redirect. */
  lemma RedirectLineShape(line: string)
    ensures RedirectLine(line).RedirectTo? ==> '"' !in RedirectLine(line).url
    ensures RedirectLine(line).RedirectTo? ==>
      Find(line, Marker).Some? &&
      MatchAt(line, RedirectLine(line).url + "\"", Find(line, Marker).value + |Marker| + 1)
    ensures RedirectLine(line).NotRedirect? <==> forall i: nat :: !MatchAt(line, Marker, i)
  {
    match Find(line, Marker)
    case None =>
    case Some(i) =>
      var from := i + |Marker| + 1;
      if from <= |line| && Find(line[from..], "\"").Some? {
        UpToQuote(line, from);
      }
  }

  /** The text from `from` up to the first '"' after it holds no '"', and the
      '"' follows it. */
  lemma UpToQuote(line: string, from: nat)
    requires from <= |line| && Find(line[from..], "\"").Some?
    ensures '"' !in line[from..from + Find(line[from..], "\"").value]
    ensures MatchAt(line, line[from..from + Find(line[from..], "\"").value] + "\"", from)
  {
    var q := Find(line[from..], "\"").value;
    var url := line[from..from + q];
    forall k | 0 <= k < q ensures url[k] != '"' {
      assert !MatchAt(line[from..], "\"", k);
    }
    assert line[from..from + q + 1] == url + "\"" by {
      assert line[from..][q..q + 1] == "\"";
    }
  }

  /** The source panics exactly when the first marker is there but the line
      ends before the character after it, or no '"' follows that point. */
  lemma RedirectLineMalformed(line: string)
    ensures RedirectLine(line).Malformed? <==>
      Find(line, Marker).Some? &&
      (Find(line, Marker).value + |Marker| + 1 > |line| ||
       '"' !in line[Find(line, Marker).value + |Marker| + 1..])
  {
    match Find(line, Marker)
    case None =>
    case Some(i) =>
      var from := i + |Marker| + 1;
      if from <= |line| {
        FirstAbsent(line[from..], '"');
      }
  }

  /** `maybe_redirect`: only line index 6 is looked at; a document with fewer
      than seven lines is never a redirect. */
  function MaybeRedirect(source: string): RedirectScan {
    var lines := Lines(source);
    if |lines| < 7 then NotRedirect else RedirectLine(lines[6])
  }

  /** Text with fewer than seven lines is never a redirect, and an extracted
      URL never holds a '"'. */
  lemma MaybeRedirectShape(source: string)
    ensures |Lines(source)| < 7 ==> MaybeRedirect(source) == NotRedirect
    ensures MaybeRedirect(source).RedirectTo? ==> '"' !in MaybeRedirect(source).url
  {
    if |Lines(source)| >= 7 {
      RedirectLineShape(Lines(source)[6]);
    }
  }

  /** Two documents that agree on line index 6 (and both have it) get the
      same verdict, whatever their other lines hold. */
  lemma OnlyLineSixMatters(a: string, b: string)
    requires |Lines(a)| >= 7 && |Lines(b)| >= 7
    requires Lines(a)[6] == Lines(b)[6]
    ensures MaybeRedirect(a) == MaybeRedirect(b)
  {
  }

  // ---------------------------------------------------------------------
  // Round trip.

  /** The lines of `ls`, each ended by '\n', followed by the unterminated `last`. */
  function JoinLines(ls: seq<string>, last: string): string
    decreases |ls|
  {
    if ls == [] then last else ls[0] + "\n" + JoinLines(ls[1..], last)
  }

  /** A line with no '\n' inside and no trailing '\r'. */
  predicate PlainLine(l: string) {
    '\n' !in l && (|l| == 0 || l[|l| - 1] != '\r')
  }

  lemma {:induction false} JoinLinesSplits(ls: seq<string>, last: string)
    requires forall k :: 0 <= k < |ls| ==> PlainLine(ls[k])
    requires PlainLine(last) && last != []
    ensures Lines(JoinLines(ls, last)) == ls + [last]
    decreases |ls|
  {
    if ls == [] {
      forall k: nat | k < |last| ensures !MatchAt(last, "\n", k) {
        assert last[k..k + 1] == [last[k]];
      }
    } else {
      JoinLinesSplits(ls[1..], last);
      LinesCons(ls[0], JoinLines(ls[1..], last));
    }
  }

  /** The page a documentation generator writes for a moved item: six lines
      of header, then the marker line pointing at `url`. */
  function RedirectPage(head: seq<string>, url: string, tail: string): string
  {
    JoinLines(head, Marker + "\"" + url + "\">" + tail)
  }

  /** Round trip: such a page is read back as a redirect to the URL it was
      written with. */
  lemma RedirectPageRoundTrip(head: seq<string>, url: string, tail: string)
    requires |head| == 6
    requires forall k :: 0 <= k < 6 ==> PlainLine(head[k])
    requires '"' !in url && '\n' !in url && PlainLine(tail)
    ensures MaybeRedirect(RedirectPage(head, url, tail)) == RedirectTo(url)
  {
    var line := Marker + "\"" + url + "\">" + tail;
    assert PlainLine(line) by {
      assert line[|line| - 1] == (if tail == [] then '>' else tail[|tail| - 1]);
    }
    JoinLinesSplits(head, line);
    MarkerLine(url, tail);
  }

  lemma MarkerLine(url: string, tail: string)
    requires '"' !in url
    ensures RedirectLine(Marker + "\"" + url + "\">" + tail) == RedirectTo(url)
  {
    var line := Marker + "\"" + url + "\">" + tail;
    assert line[..|Marker|] == Marker;
    assert MatchAt(line, Marker, 0);
    var from := |Marker| + 1;
    var rest := line[from..];
    assert rest == url + "\">" + tail;
    assert MatchAt(rest, "\"", |url|) by { assert rest[|url|..|url| + 1] == "\""; }
    forall k | 0 <= k < |url| ensures !MatchAt(rest, "\"", k) {
      assert rest[k] == url[k];
    }
    assert rest[..|url|] == url;
  }
}
