/** String primitives the link checker relies on: `str::find`, `str::lines`,
    `trim_left_matches` and prefix/suffix tests. Characters stand for the
    bytes of the (ASCII) documents, so every offset is a byte offset. */
module Text {

  datatype Option<T> = None | Some(value: T)

  predicate StartsWith(s: string, prefix: string) {
    |prefix| <= |s| && s[..|prefix|] == prefix
  }

  predicate EndsWith(s: string, suffix: string) {
    |suffix| <= |s| && s[|s| - |suffix|..] == suffix
  }

  /** `pat` occurs in `s` at offset `k`. */
  predicate MatchAt(s: string, pat: string, k: nat) {
    k + |pat| <= |s| && s[k..k + |pat|] == pat
  }

  /** The first offset at or after `from` where `pat` occurs. */
  function FindFrom(s: string, pat: string, from: nat): (r: Option<nat>)
    requires from <= |s|
    decreases |s| - from
    ensures r.Some? ==> from <= r.value && MatchAt(s, pat, r.value)
    ensures r.Some? ==> forall k :: from <= k < r.value ==> !MatchAt(s, pat, k)
    ensures r.None? ==> forall k :: from <= k ==> !MatchAt(s, pat, k)
  {
    if MatchAt(s, pat, from) then Some(from)
    else if from == |s| then None
    else FindFrom(s, pat, from + 1)
  }

  /** `str::find`: the offset of the first occurrence of `pat` in `s`. */
  function Find(s: string, pat: string): (r: Option<nat>)
    ensures r.Some? ==> MatchAt(s, pat, r.value)
    ensures forall k :: MatchAt(s, pat, k) ==> r.Some? && r.value <= k
  {
    FindFrom(s, pat, 0)
  }

  /** An occurrence in a suffix is an occurrence in the whole text, shifted. */
  lemma MatchAtShift(s: string, pat: string, p: nat, k: nat)
    requires p <= |s|
    ensures MatchAt(s[p..], pat, k) <==> MatchAt(s, pat, p + k)
  {
    if p + k + |pat| <= |s| {
      assert s[p..][k..k + |pat|] == s[p + k..p + k + |pat|];
    }
  }

  /** An occurrence with none before it is the one `Find` returns. */
  lemma FindAt(s: string, pat: string, k: nat)
    requires MatchAt(s, pat, k)
    requires forall i :: 0 <= i < k ==> !MatchAt(s, pat, i)
    ensures Find(s, pat) == Some(k)
  {
  }

  /** The first offset holding either quote character, as `find(&['"', '\''][..])`. */
  function FindQuote(s: string): (r: Option<nat>)
    ensures r.Some? ==> r.value < |s| && IsQuote(s[r.value])
    ensures r.Some? ==> forall k :: 0 <= k < r.value ==> !IsQuote(s[k])
    ensures r.None? ==> forall k :: 0 <= k < |s| ==> !IsQuote(s[k])
  {
    if s == [] then None
    else if IsQuote(s[0]) then Some(0)
    else match FindQuote(s[1..])
      case None => None
      case Some(k) => Some(k + 1)
  }

  predicate IsQuote(c: char) {
    c == '"' || c == '\''
  }

  /** `trim_left_matches(c)`: every leading `c` removed. */
  function TrimStart(s: string, c: char): string {
    if s != [] && s[0] == c then TrimStart(s[1..], c) else s
  }

  /** Trimming removes a leading run of `c` and nothing else, and leaves a
      text that does not start with `c`. */
  lemma {:induction false} TrimStartShape(s: string, c: char)
    ensures |TrimStart(s, c)| <= |s|
    ensures TrimStart(s, c) == s[|s| - |TrimStart(s, c)|..]
    ensures forall k :: 0 <= k < |s| - |TrimStart(s, c)| ==> s[k] == c
    ensures TrimStart(s, c) == [] || TrimStart(s, c)[0] != c
  {
    if s != [] && s[0] == c {
      TrimStartShape(s[1..], c);
      var r := TrimStart(s, c);
      assert r == TrimStart(s[1..], c);
      assert s[1..][|s| - 1 - |r|..] == s[|s| - |r|..];
      forall k | 0 <= k < |s| - |r| ensures s[k] == c {
        if k > 0 {
          assert s[k] == s[1..][k - 1];
        }
      }
    }
  }

  /** A run of `c` alone trims to nothing. */
  lemma {:induction false} TrimStartAll(s: string, c: char)
    requires forall k :: 0 <= k < |s| ==> s[k] == c
    ensures TrimStart(s, c) == []
    decreases |s|
  {
    if s != [] {
      TrimStartAll(s[1..], c);
    }
  }

  /** Drops one trailing carriage return, as `str::lines` does for "\r\n" endings. */
  function StripCR(line: string): (r: string)
    ensures |line| > 0 && line[|line| - 1] == '\r' ==> r + "\r" == line
    ensures !(|line| > 0 && line[|line| - 1] == '\r') ==> r == line
  {
    if |line| > 0 && line[|line| - 1] == '\r' then line[..|line| - 1] else line
  }

  /** `str::lines`: the text cut at every '\n', with a final line ending
      optional and a trailing '\r' dropped from each line. */
  function Lines(s: string): seq<string>
    decreases |s|
  {
    if s == [] then []
    else match Find(s, "\n")
      case None => [StripCR(s)]
      case Some(k) => [StripCR(s[..k])] + Lines(s[k + 1..])
  }

  /** A line with no '\n' followed by "\n" is the first line of the text,
      and what follows supplies the rest. */
  lemma LinesCons(line: string, rest: string)
    requires '\n' !in line
    ensures Lines(line + "\n" + rest) == [StripCR(line)] + Lines(rest)
  {
    var s := line + "\n" + rest;
    assert MatchAt(s, "\n", |line|) by { assert s[|line|..|line| + 1] == "\n"; }
    forall k | 0 <= k < |line| ensures !MatchAt(s, "\n", k) {
      assert s[k] == line[k];
    }
    var r := Find(s, "\n");
    assert r == Some(|line|);
    assert s[..|line|] == line;
    assert s[|line| + 1..] == rest;
  }

  /** Before the first occurrence of `c` (or in all of `s` when there is
      none) no `c` occurs. */
  lemma FirstAbsent(s: string, c: char)
    ensures Find(s, [c]).None? ==> c !in s
    ensures Find(s, [c]).Some? ==> Find(s, [c]).value < |s| && s[Find(s, [c]).value] == c && c !in s[..Find(s, [c]).value]
  {
    forall j | 0 <= j < |s| && s[j] == c ensures Find(s, [c]).Some? && Find(s, [c]).value <= j {
      assert s[j..j + 1] == [c];
      assert MatchAt(s, [c], j);
    }
    if Find(s, [c]).Some? {
      var k := Find(s, [c]).value;
      assert s[k..k + 1] == [c];
    }
  }

  /** `splitn(2, c)`: the text before the first `c` and, when there is one,
      the text after it. */
  function CutAt(s: string, c: char): (r: (string, Option<string>))
    ensures c !in r.0
    ensures r.1.None? ==> r.0 == s
    ensures r.1.Some? ==> s == r.0 + [c] + r.1.value
  {
    FirstAbsent(s, c);
    match Find(s, [c])
    case None => (s, None)
    case Some(k) =>
      assert s == s[..k] + [c] + s[k + 1..];
      (s[..k], Some(s[k + 1..]))
  }

  /** The cut is made at the first `c`: a text with no `c` before the
      first one is cut there. */
  lemma CutAtFirst(x: string, c: char, y: string)
    requires c !in x
    ensures CutAt(x + [c] + y, c) == (x, Some(y))
  {
    var s := x + [c] + y;
    var r := CutAt(s, c);
    assert s[|x|] == c;
    var h := r.0;
    assert |h| == |x| by {
      assert s[|x|] in h + [c];
    }
    assert s[..|x|] == x && s[|x| + 1..] == y;
    assert s[..|h|] == h && s[|h| + 1..] == r.1.value;
  }
}
