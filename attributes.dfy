/** `with_attrs_in_source`: the quote-aware scanner that finds every value of
    one attribute (" id" or " href") in a document, line by line, and hands
    each to a callback together with the 0-based line index and the `<base`
    value in force. The callback is modelled as the sequence of calls it
    receives, in order. */
module Attributes {
  import opened Text

  /** One value the scanner recognised: the text between a pair of equal
      quotes at column `col` of line `line`, and whether the attribute sat
      right after "<base". */
  datatype Hit = Hit(value: string, line: nat, col: nat, quote: char, isBase: bool)

  /** One call of the callback: the value, the 0-based line index and the
      base URL in force. */
  datatype Attr = Attr(value: string, line: nat, base: string)

  /** `h.value` stands in `line` between two copies of the quote `h.quote`
      and holds no copy of that quote. */
  ghost predicate QuotedIn(line: string, h: Hit) {
    && IsQuote(h.quote)
    && 1 <= h.col && h.col + |h.value| < |line|
    && line[h.col - 1] == h.quote
    && line[h.col..h.col + |h.value|] == h.value
    && line[h.col + |h.value|] == h.quote
    && h.quote !in h.value
  }

  /** The outcome of one turn of the inner loop begun at offset `p`: either
      no further occurrence of `attr`, or the offset just past the occurrence
      found, from which the next turn searches, with the value if the
      occurrence is well formed. */
  datatype Turn = Exhausted | Advance(resume: nat, hit: Option<Hit>)

  /** Where a quoted value lies: `line[start..end]`, closed by `quote`. */
  datatype Span = Span(start: nat, end: nat, quote: char)

  ghost predicate QuotedSpan(line: string, sp: Span) {
    && IsQuote(sp.quote)
    && 1 <= sp.start <= sp.end < |line|
    && line[sp.start - 1] == sp.quote
    && line[sp.end] == sp.quote
    && sp.quote !in line[sp.start..sp.end]
  }

  lemma FirstQuoteAbsent(s: string, quote: char, c: nat)
    requires c <= |s|
    requires forall k :: MatchAt(s, [quote], k) ==> c <= k
    ensures quote !in s[..c]
  {
    forall k | 0 <= k < c ensures s[k] != quote {
      if s[k] == quote {
        assert s[k..k + 1] == [quote];
        assert MatchAt(s, [quote], k);
      }
    }
  }

  /** From offset `v` (just past the '='): only spaces, then a quote, then the
      value up to the next copy of that same quote. */
  function QuotedFrom(line: string, v: nat): (r: Option<Span>)
    requires v <= |line|
    ensures r.Some? ==> v < r.value.start <= r.value.end < |line|
  {
    match FindQuote(line[v..])
    case None => None
    case Some(q) =>
      var quote := line[v + q];
      if TrimStart(line[v..v + q], ' ') != [] then None
      else
        var s := v + q + 1;
        match Find(line[s..], [quote])
        case None => None
        case Some(c) => Some(Span(s, s + c, quote))
  }

  /** From offset `rest` (just past the attribute name): only spaces up to the
      first '=', then a quoted value. */
  function ValueAfter(line: string, rest: nat): (r: Option<Span>)
    requires rest <= |line|
    ensures r.Some? ==> rest < r.value.start <= r.value.end < |line|
  {
    match Find(line[rest..], "=")
    case None => None
    case Some(e) =>
      if TrimStart(line[rest..rest + e], ' ') != [] then None
      else QuotedFrom(line, rest + e + 1)
  }

  function HitAt(line: string, sp: Span, lineNo: nat, isBase: bool): Hit
    requires sp.start <= sp.end <= |line|
  {
    Hit(line[sp.start..sp.end], lineNo, sp.start, sp.quote, isBase)
  }

  /** The turn that found an occurrence of the attribute name ending at
      offset `rest`. */
  function TurnAt(line: string, rest: nat, lineNo: nat, isBase: bool): Turn
    requires rest <= |line|
  {
    match ValueAfter(line, rest)
    case None => Advance(rest, None)
    case Some(sp) => Advance(rest, Some(HitAt(line, sp, lineNo, isBase)))
  }

  function ScanTurn(line: string, attr: string, p: nat, lineNo: nat): (t: Turn)
    requires p <= |line| && |attr| > 0
    ensures t.Advance? ==> p < t.resume <= |line|
  {
    match Find(line[p..], attr)
    case None => Exhausted
    case Some(j) =>
      TurnAt(line, p + j + |attr|, lineNo, EndsWith(line[p..p + j], "<base"))
  }

  /** Every value found in `line` from offset `p` on, in order. */
  function LineHits(line: string, attr: string, p: nat, lineNo: nat): seq<Hit>
    requires p <= |line| && |attr| > 0
    decreases |line| - p
  {
    match ScanTurn(line, attr, p, lineNo)
    case Exhausted => []
    case Advance(resume, hit) =>
      (if hit.Some? then [hit.value] else []) + LineHits(line, attr, resume, lineNo)
  }

  /** Every value found in lines `i` onwards, line after line. */
  function HitsFrom(lines: seq<string>, attr: string, i: nat): seq<Hit>
    requires |attr| > 0
    decreases |lines| - i
  {
    if i >= |lines| then [] else LineHits(lines[i], attr, 0, i) + HitsFrom(lines, attr, i + 1)
  }

  function Hits(contents: string, attr: string): seq<Hit>
    requires |attr| > 0
  {
    HitsFrom(Lines(contents), attr, 0)
  }

  /** Carries the running base through the hits: a `<base` hit replaces it
      and is not reported; any other hit is reported with the base in force. */
  function Thread(hits: seq<Hit>, base: string): seq<Attr>
  {
    if hits == [] then []
    else if hits[0].isBase then Thread(hits[1..], hits[0].value)
    else [Attr(hits[0].value, hits[0].line, base)] + Thread(hits[1..], base)
  }

  /** The calls `with_attrs_in_source(contents, attr, f)` makes of `f`; the
      base starts empty. */
  function Attrs(contents: string, attr: string): seq<Attr>
    requires |attr| > 0
  {
    Thread(Hits(contents, attr), "")
  }

  /** The checks of one turn that follow a found attribute name: the '='
      after only spaces, the opening quote after only spaces, the closing
      quote; `None` where the source's loop moves on with `continue`. */
  method QuotedValueAfter(line: string, rest: nat) returns (span: Option<Span>)
    requires rest <= |line|
    ensures span == ValueAfter(line, rest)
  {
    var eq := Find(line[rest..], "=");
    if eq.None? {
      return None;
    }
    if TrimStart(line[rest..rest + eq.value], ' ') != [] {
      return None;
    }
    span := QuotedValueFrom(line, rest + eq.value + 1);
  }

  /** From just past the '=': the opening quote after only spaces, then the
      closing quote. */
  method QuotedValueFrom(line: string, v: nat) returns (span: Option<Span>)
    requires v <= |line|
    ensures span == QuotedFrom(line, v)
  {
    var q := FindQuote(line[v..]);
    if q.None? {
      return None;
    }
    var quote := line[v + q.value];
    if TrimStart(line[v..v + q.value], ' ') != [] {
      return None;
    }
    var s := v + q.value + 1;
    var close := Find(line[s..], [quote]);
    if close.None? {
      return None;
    }
    span := Some(Span(s, s + close.value, quote));
  }

  /** The head of one turn: the next occurrence of `attr` from offset `p`
      (`more` is false when there is none), the offset just past it, whether
      "<base" ends right before it, and the quoted value that follows it. */
  method NextAttribute(line: string, attr: string, p: nat, lineNo: nat)
    returns (more: bool, rest: nat, isBase: bool, span: Option<Span>)
    requires p <= |line| && |attr| > 0
    ensures !more <==> ScanTurn(line, attr, p, lineNo).Exhausted?
    ensures more ==> span.Some? ==> span.value.start <= span.value.end <= |line|
    ensures more ==>
      ScanTurn(line, attr, p, lineNo) == Advance(rest, if span.None? then None else Some(HitAt(line, span.value, lineNo, isBase)))
  {
    var j := Find(line[p..], attr);
    if j.None? {
      return false, p, false, None;
    }
    more := true;
    rest := p + j.value + |attr|;
    isBase := EndsWith(line[p..p + j.value], "<base");
    assert ScanTurn(line, attr, p, lineNo) == TurnAt(line, rest, lineNo, isBase);
    span := QuotedValueAfter(line, rest);
  }

  /** `with_attrs_in_source`, with the calls of the callback returned in order. */
  method WithAttrsInSource(contents: string, attr: string) returns (found: seq<Attr>)
    requires |attr| > 0
    ensures found == Attrs(contents, attr)
  {
    ghost var total := Attrs(contents, attr);
    var lines := Lines(contents);
    var base := "";
    found := [];
    var i := 0;
    while i < |lines|
      invariant 0 <= i <= |lines|
      invariant found + Thread(HitsFrom(lines, attr, i), base) == total
    {
      ThreadAppend(found, LineHits(lines[i], attr, 0, i), HitsFrom(lines, attr, i + 1), base);
      var reported, base' := ScanLine(lines[i], attr, i, base);
      found, base := found + reported, base';
      i := i + 1;
    }
  }

  /** The calls for one line and then the rest, carrying the base across. */
  lemma ThreadAppend(found: seq<Attr>, here: seq<Hit>, later: seq<Hit>, base: string)
    ensures found + Thread(here + later, base) ==
      (found + Thread(here, base)) + Thread(later, BaseAfter(here, base))
  {
    ThreadConcat(here, later, base);
  }

  /** The inner loop of `with_attrs_in_source` over line `lineNo`: the calls
      it makes and the base in force afterwards. */
  method ScanLine(line: string, attr: string, lineNo: nat, base0: string) returns (reported: seq<Attr>, base: string)
    requires |attr| > 0
    ensures reported == Thread(LineHits(line, attr, 0, lineNo), base0)
    ensures base == BaseAfter(LineHits(line, attr, 0, lineNo), base0)
  {
    ghost var all := LineHits(line, attr, 0, lineNo);
    reported, base := [], base0;
    var p := 0;
    while true
      invariant 0 <= p <= |line|
      invariant reported + Thread(LineHits(line, attr, p, lineNo), base) == Thread(all, base0)
      invariant BaseAfter(LineHits(line, attr, p, lineNo), base) == BaseAfter(all, base0)
      decreases |line| - p
    {
      var more, rest, isBase, span := NextAttribute(line, attr, p, lineNo);
      if !more {
        break;
      }
      if span.None? {
        assert LineHits(line, attr, p, lineNo) == LineHits(line, attr, rest, lineNo);
        p := rest;
        continue;
      }
      var url := line[span.value.start..span.value.end];
      ThreadStep(reported, HitAt(line, span.value, lineNo, isBase), LineHits(line, attr, rest, lineNo), base);
      p := rest;
      if isBase {
        base := url;
        continue;
      }
      reported := reported + [Attr(url, lineNo, base)];
    }
  }

  /** One hit more: a `<base` hit replaces the base, any other is reported
      with the base in force. */
  lemma ThreadStep(reported: seq<Attr>, h: Hit, todo: seq<Hit>, base: string)
    ensures reported + Thread([h] + todo, base) ==
      (if h.isBase then reported else reported + [Attr(h.value, h.line, base)]) +
      Thread(todo, if h.isBase then h.value else base)
    ensures BaseAfter([h] + todo, base) == BaseAfter(todo, if h.isBase then h.value else base)
  {
    assert ([h] + todo)[1..] == todo;
  }

  /** Threading the base through two runs of hits, one after the other. */
  lemma {:induction false} ThreadConcat(a: seq<Hit>, b: seq<Hit>, base: string)
    ensures Thread(a + b, base) == Thread(a, base) + Thread(b, BaseAfter(a, base))
  {
    if a != [] {
      assert (a + b)[1..] == a[1..] + b;
      ThreadConcat(a[1..], b, if a[0].isBase then a[0].value else base);
    } else {
      assert a + b == b;
    }
  }

  lemma ThreadCons(h: Hit, hits: seq<Hit>, base: string)
    ensures Thread([h] + hits, base)
         == if h.isBase then Thread(hits, h.value) else [Attr(h.value, h.line, base)] + Thread(hits, base)
  {
    assert ([h] + hits)[1..] == hits;
  }

  // ---------------------------------------------------------------------
  // Every value found stands between two equal quotes in its own line.

  lemma QuotedFromIsQuoted(line: string, v: nat)
    requires v <= |line|
    ensures QuotedFrom(line, v).Some? ==> QuotedSpan(line, QuotedFrom(line, v).value)
  {
    var r := QuotedFrom(line, v);
    if r.Some? {
      var sp := r.value;
      var q := FindQuote(line[v..]).value;
      assert sp.quote == line[v + q] && sp.start == v + q + 1;
      var c := Find(line[sp.start..], [sp.quote]).value;
      assert sp.end == sp.start + c;
      assert line[sp.start..][c] == line[sp.end];
      FirstQuoteAbsent(line[sp.start..], sp.quote, c);
      assert line[sp.start..][..c] == line[sp.start..sp.end];
    }
  }

  lemma ValueAfterIsQuoted(line: string, rest: nat)
    requires rest <= |line|
    ensures ValueAfter(line, rest).Some? ==> QuotedSpan(line, ValueAfter(line, rest).value)
  {
    match Find(line[rest..], "=")
    case None =>
    case Some(e) =>
      QuotedFromIsQuoted(line, rest + e + 1);
  }

  lemma SpanIsQuoted(line: string, sp: Span, lineNo: nat, isBase: bool)
    requires QuotedSpan(line, sp)
    ensures QuotedIn(line, HitAt(line, sp, lineNo, isBase))
  {
  }

  lemma ScanTurnQuoted(line: string, attr: string, p: nat, lineNo: nat)
    requires p <= |line| && |attr| > 0
    ensures var t := ScanTurn(line, attr, p, lineNo);
      t.Advance? && t.hit.Some? ==> t.hit.value.line == lineNo && QuotedIn(line, t.hit.value)
  {
    var t := ScanTurn(line, attr, p, lineNo);
    if t.Advance? && t.hit.Some? {
      var rest := t.resume;
      var sp := ValueAfter(line, rest).value;
      var isBase := t.hit.value.isBase;
      assert t.hit.value == HitAt(line, sp, lineNo, isBase);
      ValueAfterIsQuoted(line, rest);
      SpanIsQuoted(line, sp, lineNo, isBase);
    }
  }

  lemma {:induction false} LineHitsQuoted(line: string, attr: string, p: nat, lineNo: nat)
    requires p <= |line| && |attr| > 0
    ensures forall h :: h in LineHits(line, attr, p, lineNo) ==> h.line == lineNo && QuotedIn(line, h)
    decreases |line| - p
  {
    ScanTurnQuoted(line, attr, p, lineNo);
    match ScanTurn(line, attr, p, lineNo)
    case Exhausted =>
    case Advance(resume, hit) =>
      LineHitsQuoted(line, attr, resume, lineNo);
  }

  /** Every hit names the 0-based index of the line it stands in, holds the
      text between two equal quotes of that line, and hits come line by line. */
  lemma {:induction false} HitsFromQuoted(lines: seq<string>, attr: string, i: nat)
    requires |attr| > 0
    ensures forall h :: h in HitsFrom(lines, attr, i) ==> i <= h.line < |lines| && QuotedIn(lines[h.line], h)
    ensures forall a, b :: 0 <= a < b < |HitsFrom(lines, attr, i)| ==>
      HitsFrom(lines, attr, i)[a].line <= HitsFrom(lines, attr, i)[b].line
    decreases |lines| - i
  {
    if i < |lines| {
      var here := LineHits(lines[i], attr, 0, i);
      var later := HitsFrom(lines, attr, i + 1);
      LineHitsQuoted(lines[i], attr, 0, i);
      HitsFromQuoted(lines, attr, i + 1);
      HitsInOrder(lines, i, here, later);
      assert HitsFrom(lines, attr, i) == here + later;
    }
  }

  /** The hits of line `i` followed by those of the later lines. */
  lemma HitsInOrder(lines: seq<string>, i: nat, here: seq<Hit>, later: seq<Hit>)
    requires i < |lines|
    requires forall h :: h in here ==> h.line == i && QuotedIn(lines[i], h)
    requires forall h :: h in later ==> i + 1 <= h.line < |lines| && QuotedIn(lines[h.line], h)
    requires forall a, b :: 0 <= a < b < |later| ==> later[a].line <= later[b].line
    ensures forall h :: h in here + later ==> i <= h.line < |lines| && QuotedIn(lines[h.line], h)
    ensures forall a, b :: 0 <= a < b < |here + later| ==> (here + later)[a].line <= (here + later)[b].line
  {
    var r := here + later;
    forall a | 0 <= a < |here| ensures r[a].line == i {
      assert r[a] in here;
    }
    forall b | |here| <= b < |r| ensures r[b] == later[b - |here|] && r[b].line > i {
      assert later[b - |here|] in later;
    }
  }

  // ---------------------------------------------------------------------
  // What the callback receives.

  /** The number of hits that are reported (those not in a `<base` tag). */
  function Reported(hits: seq<Hit>): nat
  {
    if hits == [] then 0 else (if hits[0].isBase then 0 else 1) + Reported(hits[1..])
  }

  /** The base in force after the hits: the value of the last `<base` hit
      among them, else `base`. */
  function BaseAfter(hits: seq<Hit>, base: string): string
  {
    if hits == [] then base else BaseAfter(hits[1..], if hits[0].isBase then hits[0].value else base)
  }

  /** Every hit outside a `<base` tag is reported, in order, with the base
      set by the last `<base` hit before it (or the initial base); the
      `<base` hits themselves are never reported. */
  lemma {:induction false} ThreadReportsEachHit(hits: seq<Hit>, base: string, j: nat)
    requires j < |hits| && !hits[j].isBase
    ensures |Thread(hits, base)| == Reported(hits)
    ensures Reported(hits[..j]) < |Thread(hits, base)|
    ensures Thread(hits, base)[Reported(hits[..j])]
         == Attr(hits[j].value, hits[j].line, BaseAfter(hits[..j], base))
  {
    var next := if hits[0].isBase then hits[0].value else base;
    if j == 0 {
      ThreadLength(hits, base);
    } else {
      assert hits[..j][1..] == hits[1..][..j - 1];
      ThreadReportsEachHit(hits[1..], next, j - 1);
    }
  }

  lemma {:induction false} ThreadLength(hits: seq<Hit>, base: string)
    ensures |Thread(hits, base)| == Reported(hits)
  {
    if hits != [] {
      ThreadLength(hits[1..], if hits[0].isBase then hits[0].value else base);
    }
  }

  /** Every call of the callback comes from a hit outside a `<base` tag,
      with the value and line of that hit and the base in force there. */
  lemma {:induction false} ThreadOrigin(hits: seq<Hit>, base: string, k: nat)
    requires k < |Thread(hits, base)|
    ensures exists j :: 0 <= j < |hits| && !hits[j].isBase &&
              Thread(hits, base)[k] == Attr(hits[j].value, hits[j].line, BaseAfter(hits[..j], base))
  {
    var next := if hits[0].isBase then hits[0].value else base;
    if !hits[0].isBase && k == 0 {
      assert hits[..0] == [];
    } else {
      var k' := if hits[0].isBase then k else k - 1;
      ThreadOrigin(hits[1..], next, k');
      var j :| 0 <= j < |hits[1..]| && !hits[1..][j].isBase
        && Thread(hits[1..], next)[k'] == Attr(hits[1..][j].value, hits[1..][j].line, BaseAfter(hits[1..][..j], next));
      assert hits[..j + 1][1..] == hits[1..][..j];
      assert hits[j + 1] == hits[1..][j];
    }
  }

  /** Before any `<base` hit, the base in force is the initial one, which
      for `Attrs` is empty; a `<base` hit sets it to its own value. */
  lemma {:induction false} BaseAfterHits(hits: seq<Hit>, base: string)
    ensures (forall j :: 0 <= j < |hits| ==> !hits[j].isBase) ==> BaseAfter(hits, base) == base
    ensures hits != [] && hits[|hits| - 1].isBase ==> BaseAfter(hits, base) == hits[|hits| - 1].value
  {
    if hits != [] {
      BaseAfterHits(hits[1..], if hits[0].isBase then hits[0].value else base);
      if |hits| > 1 {
        assert hits[1..][|hits[1..]| - 1] == hits[|hits| - 1];
      }
    }
  }

  /** Every call of the callback carries a value that stands in the line it
      names (a 0-based index) between two equal quotes, and holds no copy of
      that quote. */
  lemma AttrsAreQuotedValues(contents: string, attr: string, k: nat)
    requires |attr| > 0
    requires k < |Attrs(contents, attr)|
    ensures var a := Attrs(contents, attr)[k];
      && a.line < |Lines(contents)|
      && exists h: Hit :: h.value == a.value && h.line == a.line && !h.isBase && QuotedIn(Lines(contents)[a.line], h)
  {
    var hits := Hits(contents, attr);
    HitsFromQuoted(Lines(contents), attr, 0);
    ThreadOrigin(hits, "", k);
    var j :| 0 <= j < |hits| && !hits[j].isBase
      && Thread(hits, "")[k] == Attr(hits[j].value, hits[j].line, BaseAfter(hits[..j], ""));
    assert hits[j] in hits;
  }

  // ---------------------------------------------------------------------
  // Every well-formed attribute is found.

  /** From offset `at` (just past an attribute name), `line` holds spaces,
      the '=' at `eq`, spaces, the quote `q` at `open`, a value `v` with no
      copy of `q`, and `q` again: the shape `[ ]*=[ ]*"..."`, with either
      quote. */
  predicate QuotedAssignment(line: string, at: nat, eq: nat, open: nat, q: char, v: string) {
    && at <= eq < open && open + |v| + 2 <= |line|
    && (forall k :: at <= k < eq ==> line[k] == ' ')
    && line[eq] == '='
    && (forall k :: eq < k < open ==> line[k] == ' ')
    && IsQuote(q) && line[open] == q
    && line[open + 1..open + 1 + |v|] == v && q !in v
    && line[open + 1 + |v|] == q
  }

  /** After the '=' and only spaces up to the opening quote at `open`, the
      quote and the value are found. */
  lemma QuotedFromFinds(line: string, v0: nat, open: nat, q: char, v: string)
    requires v0 <= open && open + |v| + 2 <= |line|
    requires forall k :: v0 <= k < open ==> line[k] == ' '
    requires IsQuote(q) && line[open] == q
    requires line[open + 1..open + 1 + |v|] == v && q !in v
    requires line[open + 1 + |v|] == q
    ensures QuotedFrom(line, v0) == Some(Span(open + 1, open + 1 + |v|, q))
  {
    var rest := line[v0..];
    assert FindQuote(rest) == Some(open - v0) by {
      assert IsQuote(rest[open - v0]);
      forall k | 0 <= k < open - v0 ensures !IsQuote(rest[k]) {
        assert rest[k] == line[v0 + k];
      }
    }
    TrimStartAll(line[v0..open], ' ');
    ClosingQuote(line, open + 1, q, v);
  }

  /** The first `q` after the opening quote is the closing one. */
  lemma ClosingQuote(line: string, s: nat, q: char, v: string)
    requires s + |v| < |line|
    requires line[s..s + |v|] == v && q !in v
    requires line[s + |v|] == q
    ensures Find(line[s..], [q]) == Some(|v|)
  {
    var tail := line[s..];
    assert MatchAt(tail, [q], |v|) by {
      assert tail[|v|..|v| + 1] == [q];
    }
    forall i | 0 <= i < |v| ensures !MatchAt(tail, [q], i) {
      assert tail[i] == v[i];
    }
    FindAt(tail, [q], |v|);
  }

  /** A character `c` that is not a space at `eq`, after only spaces from
      `at`: it is the first `c` from `at`, and what lies before it trims
      away. */
  lemma AfterSpaces(line: string, at: nat, eq: nat, c: char)
    requires at <= eq < |line| && c != ' '
    requires forall k :: at <= k < eq ==> line[k] == ' '
    requires line[eq] == c
    ensures Find(line[at..], [c]) == Some(eq - at)
    ensures TrimStart(line[at..eq], ' ') == []
  {
    var rest := line[at..];
    assert MatchAt(rest, [c], eq - at) by {
      assert rest[eq - at..eq - at + 1] == [line[eq]];
    }
    forall i | 0 <= i < eq - at ensures !MatchAt(rest, [c], i) {
      assert rest[i..i + 1] == [line[at + i]];
    }
    FindAt(rest, [c], eq - at);
    TrimStartAll(line[at..eq], ' ');
  }

  /** With the first '=' at `eq` and only spaces before it, the value is
      looked for just past the '='. */
  lemma ValueAfterEquals(line: string, at: nat, eq: nat)
    requires at <= eq < |line|
    requires Find(line[at..], "=") == Some(eq - at)
    requires TrimStart(line[at..eq], ' ') == []
    ensures ValueAfter(line, at) == QuotedFrom(line, eq + 1)
  { }

  /** After an attribute name, a quoted assignment yields its value. */
  lemma ValueAfterFinds(line: string, at: nat, eq: nat, open: nat, q: char, v: string)
    requires QuotedAssignment(line, at, eq, open, q, v)
    ensures ValueAfter(line, at) == Some(Span(open + 1, open + 1 + |v|, q))
  {
    AfterSpaces(line, at, eq, '=');
    ValueAfterEquals(line, at, eq);
    QuotedFromFinds(line, eq + 1, open, q, v);
  }

  /** The first occurrence from `p` on, seen from the suffix at `p`. */
  lemma FindFrom(line: string, attr: string, p: nat, j: nat)
    requires p <= j
    requires MatchAt(line, attr, j)
    requires forall k :: p <= k < j ==> !MatchAt(line, attr, k)
    ensures Find(line[p..], attr) == Some(j - p)
  {
    forall i | 0 <= i < j - p ensures !MatchAt(line[p..], attr, i) {
      MatchAtShift(line, attr, p, i);
    }
    MatchAtShift(line, attr, p, j - p);
    FindAt(line[p..], attr, j - p);
  }

  /** The turn begun at `p` finds the attribute name at `j`. */
  lemma ScanTurnAt(line: string, attr: string, p: nat, lineNo: nat, j: nat)
    requires |attr| > 0 && p <= j
    requires MatchAt(line, attr, j)
    requires forall k :: p <= k < j ==> !MatchAt(line, attr, k)
    ensures j + |attr| <= |line|
    ensures ScanTurn(line, attr, p, lineNo) == TurnAt(line, j + |attr|, lineNo, EndsWith(line[p..j], "<base"))
  {
    FindFrom(line, attr, p, j);
  }

  /** A text as long as `pat` that differs from it in its first character
      holds no occurrence of it. */
  lemma NoMatchSameLength(s: string, pat: string)
    requires |s| == |pat| > 0 && s[0] != pat[0]
    ensures Find(s, pat) == None
  {
    forall k: nat ensures !MatchAt(s, pat, k) {
      if k == 0 {
        assert s[0..|pat|][0] == s[0];
      }
    }
  }

  /** The turn that found a name followed by a quoted assignment yields
      that assignment's value. */
  lemma TurnAtFinds(line: string, rest: nat, lineNo: nat, isBase: bool, eq: nat, open: nat, q: char, v: string)
    requires QuotedAssignment(line, rest, eq, open, q, v)
    ensures TurnAt(line, rest, lineNo, isBase) == Advance(rest, Some(Hit(v, lineNo, open + 1, q, isBase)))
  {
    ValueAfterFinds(line, rest, eq, open, q, v);
    assert HitAt(line, Span(open + 1, open + 1 + |v|, q), lineNo, isBase) == Hit(v, lineNo, open + 1, q, isBase);
  }

  /** Completeness of the inner loop: when the first occurrence of `attr`
      at or after `p` is at `j` and a quoted assignment follows it, the
      first value found is that assignment's value, at its column, with the
      `<base` test made on the text before the name. */
  lemma LineHitsFindsFirst(line: string, attr: string, p: nat, lineNo: nat, j: nat, eq: nat, open: nat, q: char, v: string)
    requires |attr| > 0 && p <= j
    requires MatchAt(line, attr, j)
    requires forall k :: p <= k < j ==> !MatchAt(line, attr, k)
    requires QuotedAssignment(line, j + |attr|, eq, open, q, v)
    ensures LineHits(line, attr, p, lineNo) != []
    ensures LineHits(line, attr, p, lineNo)[0] == Hit(v, lineNo, open + 1, q, EndsWith(line[p..j], "<base"))
  {
    ScanTurnAt(line, attr, p, lineNo, j);
    TurnAtFinds(line, j + |attr|, lineNo, EndsWith(line[p..j], "<base"), eq, open, q, v);
  }

  /** Lifted to the document: a first line whose first `attr` is outside a
      `<base` tag and is followed by a quoted assignment makes the first call
      of the callback, with that value, line index 0 and the empty base. */
  lemma AttrsFindsFirst(contents: string, attr: string, j: nat, eq: nat, open: nat, q: char, v: string)
    requires |attr| > 0 && |Lines(contents)| > 0
    requires MatchAt(Lines(contents)[0], attr, j)
    requires forall k :: 0 <= k < j ==> !MatchAt(Lines(contents)[0], attr, k)
    requires QuotedAssignment(Lines(contents)[0], j + |attr|, eq, open, q, v)
    requires !EndsWith(Lines(contents)[0][..j], "<base")
    ensures Attrs(contents, attr) != [] && Attrs(contents, attr)[0] == Attr(v, 0, "")
  {
    var lines := Lines(contents);
    LineHitsFindsFirst(lines[0], attr, 0, 0, j, eq, open, q, v);
    var here := LineHits(lines[0], attr, 0, 0);
    assert lines[0][0..j] == lines[0][..j];
    assert Hits(contents, attr) == here + HitsFrom(lines, attr, 1);
    assert (here + HitsFrom(lines, attr, 1))[0] == here[0];
  }

  /** The one-line document `<a href="u">`. */
  const OneLink := "<a href=\"u\">"

  lemma OneLinkLines()
    ensures Lines(OneLink) == [OneLink]
  {
    FirstAbsent(OneLink, '\n');
    assert '\n' !in OneLink;
  }

  lemma OneLinkAssignment()
    ensures QuotedAssignment(OneLink, 7, 7, 8, '"', "u")
  {
    assert OneLink[9..10] == "u";
  }

  lemma OneLinkName()
    ensures MatchAt(OneLink, " href", 2)
    ensures forall k :: 0 <= k < 2 ==> !MatchAt(OneLink, " href", k)
  {
    assert OneLink[2..7] == " href";
    forall k | 0 <= k < 2 ensures !MatchAt(OneLink, " href", k) {
      assert OneLink[k..k + 5][0] == OneLink[k] != ' ';
    }
  }

  lemma OneLinkFirstTurn()
    ensures ScanTurn(OneLink, " href", 0, 0) == Advance(7, Some(Hit("u", 0, 9, '"', false)))
  {
    OneLinkName();
    ScanTurnAt(OneLink, " href", 0, 0, 2);
    OneLinkAssignment();
    assert !EndsWith(OneLink[0..2], "<base");
    TurnAtFinds(OneLink, 7, 0, false, 7, 8, '"', "u");
  }

  lemma OneLinkLastTurn()
    ensures ScanTurn(OneLink, " href", 7, 0) == Exhausted
  {
    var tail := OneLink[7..];
    assert tail[0] == '=';
    NoMatchSameLength(tail, " href");
  }

  /** A one-line document with a single link: `<a href="u">` makes exactly
      one call, with "u", line index 0 and the empty base. */
  lemma OneLinkDocument()
    ensures Attrs(OneLink, " href") == [Attr("u", 0, "")]
  {
    OneLinkLines();
    OneLinkFirstTurn();
    OneLinkLastTurn();
    var h := Hit("u", 0, 9, '"', false);
    assert LineHits(OneLink, " href", 0, 0) == [h] + LineHits(OneLink, " href", 7, 0);
    assert Hits(OneLink, " href") == [h] + HitsFrom([OneLink], " href", 1);
  }
}
