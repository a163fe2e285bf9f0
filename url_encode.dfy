/** `small_url_encode`: the fixed chain of twelve character replacements the
    checker applies to every anchor id to register its encoded alias. Each
    replacement is the percent-encoding of section 2.1 of RFC 3986 for one
    character, so the chain encodes exactly those twelve characters. */
module UrlEncode {
  import opened Text

  /** `str::replace` with a one-character pattern: every `c` becomes `rep`. */
  function Replace(s: string, c: char, rep: string): (r: string)
    ensures c !in s ==> r == s
    ensures c !in rep ==> c !in r
    ensures forall d :: d in r ==> d in s || d in rep
  {
    if s == [] then []
    else (if s[0] == c then rep else [s[0]]) + Replace(s[1..], c, rep)
  }

  lemma {:induction false} ReplaceConcat(a: string, b: string, c: char, rep: string)
    ensures Replace(a + b, c, rep) == Replace(a, c, rep) + Replace(b, c, rep)
  {
    if a == [] {
      assert a + b == b;
    } else {
      assert (a + b)[1..] == a[1..] + b;
      ReplaceConcat(a[1..], b, c, rep);
    }
  }

  /** The replacements, in the order `small_url_encode` applies them. */
  const Escapes: seq<(char, string)> := [
    ('<', "%3C"), ('>', "%3E"), (' ', "%20"), ('?', "%3F"),
    ('\'', "%27"), ('&', "%26"), (',', "%2C"), (':', "%3A"),
    (';', "%3B"), ('[', "%5B"), (']', "%5D"), ('"', "%22")
  ]

  /** The characters `small_url_encode` rewrites. */
  const Escaped: set<char> := {'<', '>', ' ', '?', '\'', '&', ',', ':', ';', '[', ']', '"'}

  /** Applies the replacement steps one after another to the whole string. */
  function ReplaceAll(s: string, steps: seq<(char, string)>): string
    decreases |steps|
  {
    if steps == [] then s else ReplaceAll(Replace(s, steps[0].0, steps[0].1), steps[1..])
  }

  lemma ReplaceAllStep(s: string, steps: seq<(char, string)>, k: nat)
    requires k < |steps|
    ensures ReplaceAll(s, steps[k..]) == ReplaceAll(Replace(s, steps[k].0, steps[k].1), steps[k + 1..])
  {
    assert steps[k..][0] == steps[k] && steps[k..][1..] == steps[k + 1..];
  }

  /** The twelve nested `replace` calls of the source: applying the steps of
      `Escapes` one after another is the character-by-character encoding. */
  lemma SmallUrlEncodeIsChain(s: string)
    ensures SmallUrlEncode(s) == Replace(Replace(Replace(Replace(Replace(Replace(Replace(Replace(Replace(Replace(Replace(Replace(s,
      '<', "%3C"), '>', "%3E"), ' ', "%20"), '?', "%3F"), '\'', "%27"), '&', "%26"),
      ',', "%2C"), ':', "%3A"), ';', "%3B"), '[', "%5B"), ']', "%5D"), '"', "%22")
  {
    var t := s;
    var k := 0;
    assert Escapes[0..] == Escapes;
    while k < 12
      invariant 0 <= k <= 12
      invariant ReplaceAll(s, Escapes) == ReplaceAll(t, Escapes[k..])
      invariant t == ChainPrefix(s, k)
    {
      ReplaceAllStep(t, Escapes, k);
      t := Replace(t, Escapes[k].0, Escapes[k].1);
      k := k + 1;
    }
    assert Escapes[12..] == [];
    ReplaceAllEncodes(s);
  }

  /** The first `k` steps of `Escapes` applied in order. */
  function ChainPrefix(s: string, k: nat): string
    requires k <= 12
  {
    if k == 0 then s else Replace(ChainPrefix(s, k - 1), Escapes[k - 1].0, Escapes[k - 1].1)
  }

  // ---------------------------------------------------------------------
  // The reference definition: percent-encoding of the escaped characters.

  /** An upper-case hex digit. */
  function HexDigit(d: nat): (c: char)
    requires d < 16
    ensures '0' <= c <= '9' || 'A' <= c <= 'F'
  {
    if d < 10 then ('0' as int + d) as char else ('A' as int + d - 10) as char
  }

  /** '%' followed by the two upper-case hex digits of the character's code. */
  function PercentEncode(c: char): string
    requires c as int < 256
  {
    ['%', HexDigit(c as int / 16), HexDigit(c as int % 16)]
  }

  function EncodeChar(c: char): (r: string)
    ensures c in Escaped ==> |r| == 3 && r[0] == '%'
    ensures c !in Escaped ==> r == [c]
  {
    if c in Escaped then PercentEncode(c) else [c]
  }

  /** `small_url_encode`, character by character: each of the twelve
      escaped characters becomes its percent-encoding, every other character
      stays. */
  function SmallUrlEncode(s: string): string {
    if s == [] then [] else EncodeChar(s[0]) + SmallUrlEncode(s[1..])
  }

  /** The encoding of one character holds no escaped character: '%' and
      the hex digits are not escaped. */
  lemma EncodeCharClean(c: char)
    ensures forall i :: 0 <= i < |EncodeChar(c)| ==> EncodeChar(c)[i] !in Escaped
  {
    if c in Escaped {
      var r := PercentEncode(c);
      assert r[1] == HexDigit(c as int / 16) && r[2] == HexDigit(c as int % 16);
    }
  }

  /** No escaped character is left in the output, and text without them
      comes back unchanged. */
  lemma {:induction false} SmallUrlEncodeEscapes(s: string)
    ensures forall i :: 0 <= i < |SmallUrlEncode(s)| ==> SmallUrlEncode(s)[i] !in Escaped
    ensures (forall i :: 0 <= i < |s| ==> s[i] !in Escaped) ==> SmallUrlEncode(s) == s
    ensures |SmallUrlEncode(s)| >= |s|
  {
    if s != [] {
      SmallUrlEncodeEscapes(s[1..]);
      var head := EncodeChar(s[0]);
      EncodeCharClean(s[0]);
      var r := SmallUrlEncode(s);
      assert r == head + SmallUrlEncode(s[1..]);
      forall i | 0 <= i < |r| ensures r[i] !in Escaped {
        if i >= |head| {
          assert r[i] == SmallUrlEncode(s[1..])[i - |head|];
        }
      }
    }
  }

  // ---------------------------------------------------------------------
  // The chain of replacements agrees with the reference definition.

  /** The replacement of the first step whose pattern is `c`, else `c` itself. */
  function Lookup(c: char, steps: seq<(char, string)>): string
    decreases |steps|
  {
    if steps == [] then [c]
    else if steps[0].0 == c then steps[0].1
    else Lookup(c, steps[1..])
  }

  /** No replacement text contains a character that some step rewrites. */
  predicate NoReintroduction(steps: seq<(char, string)>) {
    forall i, j :: 0 <= i < |steps| && 0 <= j < |steps| ==> steps[j].0 !in steps[i].1
  }

  lemma {:induction false} ReplaceAllConcat(a: string, b: string, steps: seq<(char, string)>)
    ensures ReplaceAll(a + b, steps) == ReplaceAll(a, steps) + ReplaceAll(b, steps)
    decreases |steps|
  {
    if steps != [] {
      ReplaceConcat(a, b, steps[0].0, steps[0].1);
      ReplaceAllConcat(Replace(a, steps[0].0, steps[0].1), Replace(b, steps[0].0, steps[0].1), steps[1..]);
    }
  }

  lemma {:induction false} ReplaceAllUntouched(s: string, steps: seq<(char, string)>)
    requires forall j :: 0 <= j < |steps| ==> steps[j].0 !in s
    ensures ReplaceAll(s, steps) == s
    decreases |steps|
  {
    if steps != [] {
      ReplaceAllUntouched(s, steps[1..]);
    }
  }

  lemma {:induction false} ReplaceAllChar(c: char, steps: seq<(char, string)>)
    requires NoReintroduction(steps)
    ensures ReplaceAll([c], steps) == Lookup(c, steps)
    decreases |steps|
  {
    if steps != [] {
      var (p, rep) := steps[0];
      assert Replace([c], p, rep) == (if c == p then rep else [c]) + Replace([], p, rep);
      if c == p {
        assert Replace([c], p, rep) == rep;
        forall j | 0 <= j < |steps[1..]| ensures steps[1..][j].0 !in rep {
          assert steps[1..][j] == steps[j + 1];
          assert steps[j + 1].0 !in steps[0].1;
        }
        ReplaceAllUntouched(rep, steps[1..]);
      } else {
        assert NoReintroduction(steps[1..]) by {
          forall i, j | 0 <= i < |steps[1..]| && 0 <= j < |steps[1..]|
            ensures steps[1..][j].0 !in steps[1..][i].1
          {
            assert steps[1..][j] == steps[j + 1] && steps[1..][i] == steps[i + 1];
          }
        }
        ReplaceAllChar(c, steps[1..]);
      }
    }
  }

  lemma EscapesAreClean()
    ensures NoReintroduction(Escapes)
  {
    forall i | 0 <= i < |Escapes| ensures forall d :: d in Escapes[i].1 ==> d !in Escaped {
      assert Escapes[i].1[0] == '%';
    }
    forall j | 0 <= j < |Escapes| ensures Escapes[j].0 in Escaped {
    }
  }

  /** The characters some step rewrites. */
  function Patterns(steps: seq<(char, string)>): set<char> {
    set i | 0 <= i < |steps| :: steps[i].0
  }

  /** Every step rewrites an 8-bit character to its percent-encoding. */
  predicate PercentSteps(steps: seq<(char, string)>) {
    forall i :: 0 <= i < |steps| ==> steps[i].0 as int < 256 && steps[i].1 == PercentEncode(steps[i].0)
  }

  lemma {:induction false} LookupPercent(c: char, steps: seq<(char, string)>)
    requires PercentSteps(steps)
    ensures c in Patterns(steps) ==> c as int < 256 && Lookup(c, steps) == PercentEncode(c)
    ensures c !in Patterns(steps) ==> Lookup(c, steps) == [c]
    decreases |steps|
  {
    if steps != [] {
      assert PercentSteps(steps[1..]) by {
        forall i | 0 <= i < |steps[1..]| ensures steps[1..][i] == steps[i + 1] { }
      }
      assert Patterns(steps) == {steps[0].0} + Patterns(steps[1..]) by {
        forall d | d in Patterns(steps) ensures d in {steps[0].0} + Patterns(steps[1..]) {
          var i :| 0 <= i < |steps| && steps[i].0 == d;
          if i > 0 { assert steps[1..][i - 1] == steps[i]; }
        }
        forall d | d in Patterns(steps[1..]) ensures d in Patterns(steps) {
          var i :| 0 <= i < |steps[1..]| && steps[1..][i].0 == d;
          assert steps[i + 1].0 == d;
        }
      }
      LookupPercent(c, steps[1..]);
    }
  }

  /** Each of the twelve replacements writes the percent-encoding of its character. */
  lemma EscapesArePercentEncodings()
    ensures PercentSteps(Escapes)
  {
    assert PercentEncode('<') == "%3C";
    assert PercentEncode('>') == "%3E";
    assert PercentEncode(' ') == "%20";
    assert PercentEncode('?') == "%3F";
    assert PercentEncode('\'') == "%27";
    assert PercentEncode('&') == "%26";
    assert PercentEncode(',') == "%2C";
    assert PercentEncode(':') == "%3A";
    assert PercentEncode(';') == "%3B";
    assert PercentEncode('[') == "%5B";
    assert PercentEncode(']') == "%5D";
    assert PercentEncode('"') == "%22";
  }

  /** The replacements rewrite exactly the escaped characters. */
  lemma EscapesPatterns()
    ensures Patterns(Escapes) == Escaped
  {
    forall d | d in Escaped ensures d in Patterns(Escapes) {
      if d == '<' { assert Escapes[0].0 == d; }
      else if d == '>' { assert Escapes[1].0 == d; }
      else if d == ' ' { assert Escapes[2].0 == d; }
      else if d == '?' { assert Escapes[3].0 == d; }
      else if d == '\'' { assert Escapes[4].0 == d; }
      else if d == '&' { assert Escapes[5].0 == d; }
      else if d == ',' { assert Escapes[6].0 == d; }
      else if d == ':' { assert Escapes[7].0 == d; }
      else if d == ';' { assert Escapes[8].0 == d; }
      else if d == '[' { assert Escapes[9].0 == d; }
      else if d == ']' { assert Escapes[10].0 == d; }
      else { assert Escapes[11].0 == d; }
    }
  }

  lemma LookupEscapes(c: char)
    ensures Lookup(c, Escapes) == EncodeChar(c)
  {
    EscapesArePercentEncodings();
    EscapesPatterns();
    LookupPercent(c, Escapes);
  }

  /** A replacement chain that never reintroduces a pattern and rewrites each
      character as `EncodeChar` does is `SmallUrlEncode`. */
  lemma {:induction false} ReplaceAllPerChar(s: string, steps: seq<(char, string)>)
    requires NoReintroduction(steps)
    requires forall c :: Lookup(c, steps) == EncodeChar(c)
    ensures ReplaceAll(s, steps) == SmallUrlEncode(s)
  {
    if s != [] {
      assert s == [s[0]] + s[1..];
      ReplaceAllConcat([s[0]], s[1..], steps);
      ReplaceAllChar(s[0], steps);
      ReplaceAllPerChar(s[1..], steps);
    } else {
      ReplaceAllUntouched(s, steps);
    }
  }

  /** The chain of twelve replacements is the percent-encoding of exactly the
      escaped characters, applied to each character independently. */
  lemma ReplaceAllEncodes(s: string)
    ensures ReplaceAll(s, Escapes) == SmallUrlEncode(s)
  {
    EscapesAreClean();
    forall c ensures Lookup(c, Escapes) == EncodeChar(c) {
      LookupEscapes(c);
    }
    ReplaceAllPerChar(s, Escapes);
  }
}
