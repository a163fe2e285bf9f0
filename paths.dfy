/** Paths and the lexical part of link resolution in `check`: splitting an
    href into path, query and fragment, turning it into components, folding
    those onto the directory of the linking file, and the root-relative
    names the cache is keyed by. */
module Paths {
  import opened Text

  /** An absolute path: its components below the file-system root. */
  type Path = seq<string>

  /** `std::path::Component`, without the Windows-only `Prefix`. */
  datatype Component = RootDir | CurDir | ParentDir | Normal(name: string)

  /** The '/'-separated segments of `s`; empty segments (from "//" or a
      leading or trailing '/') are dropped, as `Path::components` drops them. */
  function Segments(s: string): (r: seq<string>)
    ensures forall k :: 0 <= k < |r| ==> r[k] != "" && '/' !in r[k]
    ensures '/' !in s ==> r == if s == "" then [] else [s]
    decreases |s|
  {
    var (first, rest) := CutAt(s, '/');
    match rest
    case None => if s == "" then [] else [s]
    case Some(r) => (if first == "" then [] else [first]) + Segments(r)
  }

  /** The segments on both sides of a '/' are those of each side, so any
      number of '/' between two names separates them exactly as one does. */
  lemma {:induction false} SegmentsConcat(a: string, b: string)
    ensures Segments(a + "/" + b) == Segments(a) + Segments(b)
    decreases |a|
  {
    var (first, rest) := CutAt(a, '/');
    if rest.None? {
      CutAtFirst(a, '/', b);
    } else {
      var tail := rest.value;
      assert a + "/" + b == first + ['/'] + (tail + "/" + b);
      CutAtFirst(first, '/', tail + "/" + b);
      SegmentsConcat(tail, b);
    }
  }

  function ComponentOf(segment: string): Component {
    if segment == "." then CurDir
    else if segment == ".." then ParentDir
    else Normal(segment)
  }

  function ComponentsOf(segments: seq<string>): (r: seq<Component>)
    ensures |r| == |segments|
    ensures forall k :: 0 <= k < |r| ==> r[k] == ComponentOf(segments[k])
  {
    if segments == [] then [] else [ComponentOf(segments[0])] + ComponentsOf(segments[1..])
  }

  /** `Path::components` of a '/'-separated path. Every "." segment becomes
      `CurDir` (the library keeps only a leading one); the fold below skips
      `CurDir`, so the difference never shows. */
  function Components(s: string): seq<Component> {
    (if StartsWith(s, "/") then [RootDir] else []) + ComponentsOf(Segments(s))
  }

  /** `Path::new(base).join(url).components()`: an absolute `url` replaces
      `base`; an empty `base` contributes nothing. */
  function Joined(base: string, url: string): seq<Component> {
    if base == "" || StartsWith(url, "/") then Components(url)
    else Components(base) + Components(url)
  }

  /** `PathBuf::pop`: drops the last component; the root stays the root. */
  function Pop(p: Path): (r: Path)
    ensures p == [] ==> r == []
    ensures p != [] ==> r + [p[|p| - 1]] == p
  {
    if p == [] then [] else p[..|p| - 1]
  }

  /** The loop of `check` that walks the components: `..` pops, a normal
      segment pushes, `.` does nothing, and the root is fatal (`None`). */
  function Fold(p: Path, cs: seq<Component>): Option<Path>
    decreases |cs|
  {
    if cs == [] then Some(p)
    else match cs[0]
      case RootDir => None
      case CurDir => Fold(p, cs[1..])
      case ParentDir => Fold(Pop(p), cs[1..])
      case Normal(n) => Fold(p + [n], cs[1..])
  }

  /** The target of a link with path part `url` under `base`, from `file`:
      the file itself when both are empty, otherwise the fold applied to the
      directory holding `file`. `None` is the panic on an absolute path. */
  function Resolve(file: Path, base: string, url: string): Option<Path> {
    if base == "" && url == "" then Some(file)
    else Fold(Pop(file), Joined(base, url))
  }

  /** The resolution loop of `check`, on a mutable path. */
  method ResolveTarget(file: Path, base: string, url: string) returns (target: Option<Path>)
    ensures target == Resolve(file, base, url)
  {
    var path := file;
    if base != "" || url != "" {
      path := Pop(path);
      var parts := Joined(base, url);
      var i := 0;
      while i < |parts|
        invariant 0 <= i <= |parts|
        invariant Fold(path, parts[i..]) == Resolve(file, base, url)
      {
        assert parts[i..][1..] == parts[i + 1..];
        match parts[i] {
          case RootDir =>
            return None;
          case CurDir =>
          case ParentDir =>
            path := Pop(path);
          case Normal(n) =>
            path := path + [n];
        }
        i := i + 1;
      }
    }
    return Some(path);
  }

  // ---------------------------------------------------------------------
  // Properties of the fold.

  /** Folding a concatenation folds the second part onto the result of the first. */
  lemma {:induction false} FoldAppend(p: Path, a: seq<Component>, b: seq<Component>)
    ensures Fold(p, a + b) == (match Fold(p, a) case None => None case Some(q) => Fold(q, b))
    decreases |a|
  {
    if a != [] {
      assert (a + b)[0] == a[0] && (a + b)[1..] == a[1..] + b;
      match a[0]
      case RootDir =>
      case CurDir => FoldAppend(p, a[1..], b);
      case ParentDir => FoldAppend(Pop(p), a[1..], b);
      case Normal(n) => FoldAppend(p + [n], a[1..], b);
    } else {
      assert a + b == b;
    }
  }

  /** The fold fails exactly when a root component occurs. */
  lemma {:induction false} FoldFailsOnRoot(p: Path, cs: seq<Component>)
    ensures Fold(p, cs).None? <==> RootDir in cs
    decreases |cs|
  {
    if cs != [] {
      assert cs == [cs[0]] + cs[1..];
      match cs[0]
      case RootDir =>
      case CurDir => FoldFailsOnRoot(p, cs[1..]);
      case ParentDir => FoldFailsOnRoot(Pop(p), cs[1..]);
      case Normal(n) => FoldFailsOnRoot(p + [n], cs[1..]);
    }
  }

  /** Without `..`, `.` and the root, the fold just appends the segments. */
  lemma {:induction false} FoldPushes(p: Path, segments: seq<string>)
    requires forall k :: 0 <= k < |segments| ==> segments[k] != "." && segments[k] != ".."
    ensures Fold(p, ComponentsOf(segments)) == Some(p + segments)
    decreases |segments|
  {
    if segments == [] {
      assert p + segments == p;
    } else {
      var cs := ComponentsOf(segments);
      assert cs == [Normal(segments[0])] + ComponentsOf(segments[1..]);
      assert cs[0] == Normal(segments[0]) && cs[1..] == ComponentsOf(segments[1..]);
      FoldPushes(p + [segments[0]], segments[1..]);
      assert p + [segments[0]] + segments[1..] == p + segments;
    }
  }

  /** `x/..` cancels: a pushed segment followed by `..` leaves the path as it was. */
  lemma PushThenPop(p: Path, n: string, cs: seq<Component>)
    ensures Fold(p, [Normal(n), ParentDir] + cs) == Fold(p, cs)
  {
    var s := [Normal(n), ParentDir] + cs;
    assert s[1..] == [ParentDir] + cs;
    assert s[1..][1..] == cs;
    assert Pop(p + [n]) == p;
  }

  /** A path of plain names: no empty, ".", ".." or '/'-holding component. */
  predicate PlainPath(p: Path) {
    forall k :: 0 <= k < |p| ==> p[k] != "" && p[k] != "." && p[k] != ".." && '/' !in p[k]
  }

  lemma {:induction false} FoldKeepsPlain(p: Path, segments: seq<string>)
    requires PlainPath(p)
    requires forall k :: 0 <= k < |segments| ==> segments[k] != "" && '/' !in segments[k]
    ensures Fold(p, ComponentsOf(segments)).Some?
    ensures PlainPath(Fold(p, ComponentsOf(segments)).value)
    decreases |segments|
  {
    if segments != [] {
      var cs := ComponentsOf(segments);
      assert cs[1..] == ComponentsOf(segments[1..]);
      var s := segments[0];
      if s == "." {
        FoldKeepsPlain(p, segments[1..]);
      } else if s == ".." {
        FoldKeepsPlain(Pop(p), segments[1..]);
      } else {
        FoldKeepsPlain(p + [s], segments[1..]);
      }
    }
  }

  // ---------------------------------------------------------------------
  // Properties of resolution.

  /** An href with empty path part under an empty base names the linking file. */
  lemma ResolveEmptyIsSelf(file: Path)
    ensures Resolve(file, "", "") == Some(file)
  {
  }

  lemma ComponentsRoot(s: string)
    ensures RootDir in Components(s) <==> StartsWith(s, "/")
  {
    if StartsWith(s, "/") {
      assert Components(s)[0] == RootDir;
    }
  }

  /** Resolution fails (the source panics) exactly when the joined path is
      absolute: when `url` starts with '/', or `base` does and is used. */
  lemma ResolveFailsOnAbsolute(file: Path, base: string, url: string)
    requires base != "" || url != ""
    ensures Resolve(file, base, url).None? <==>
      StartsWith(url, "/") || (base != "" && StartsWith(base, "/"))
  {
    FoldFailsOnRoot(Pop(file), Joined(base, url));
    ComponentsRoot(url);
    ComponentsRoot(base);
  }

  /** A relative href without "." or ".." segments names a file below the
      directory of the linking file: its segments appended to that directory. */
  lemma ResolveRelative(file: Path, url: string)
    requires url != "" && !StartsWith(url, "/")
    requires forall k :: 0 <= k < |Segments(url)| ==> Segments(url)[k] != "." && Segments(url)[k] != ".."
    ensures Resolve(file, "", url) == Some(Pop(file) + Segments(url))
  {
    assert Joined("", url) == ComponentsOf(Segments(url));
    FoldPushes(Pop(file), Segments(url));
  }

  /** A resolved target is a plain path: every "." and ".." has been consumed. */
  lemma ResolveIsPlain(file: Path, base: string, url: string)
    requires PlainPath(file)
    requires Resolve(file, base, url).Some?
    ensures PlainPath(Resolve(file, base, url).value)
  {
    if base != "" || url != "" {
      var cs := Joined(base, url);
      FoldFailsOnRoot(Pop(file), cs);
      ComponentsRoot(url);
      if base == "" || StartsWith(url, "/") {
        JoinedRelative(base, url);
        FoldKeepsPlain(Pop(file), Segments(url));
      } else {
        ComponentsRoot(base);
        assert RootDir !in Components(base);
        JoinedBoth(base, url);
        FoldKeepsPlain(Pop(file), Segments(base) + Segments(url));
      }
    }
  }

  lemma JoinedRelative(base: string, url: string)
    requires base == "" || StartsWith(url, "/")
    requires !StartsWith(url, "/")
    ensures Joined(base, url) == ComponentsOf(Segments(url))
  {
  }

  lemma JoinedBoth(base: string, url: string)
    requires base != "" && !StartsWith(url, "/") && !StartsWith(base, "/")
    ensures Joined(base, url) == ComponentsOf(Segments(base) + Segments(url))
  {
    assert Components(base) == ComponentsOf(Segments(base));
    assert Components(url) == ComponentsOf(Segments(url));
    ComponentsOfConcat(Segments(base), Segments(url));
  }

  lemma {:induction false} ComponentsOfConcat(a: seq<string>, b: seq<string>)
    ensures ComponentsOf(a + b) == ComponentsOf(a) + ComponentsOf(b)
    decreases |a|
  {
    if a == [] {
      assert a + b == b;
    } else {
      assert (a + b)[0] == a[0] && (a + b)[1..] == a[1..] + b;
      ComponentsOfConcat(a[1..], b);
    }
  }

  // ---------------------------------------------------------------------
  // Splitting an href.

  /** `url.splitn(2, "#")`, then `splitn(2, "?")` on the first part: the path
      part (before any '?' or '#') and the fragment after the first '#'. */
  function SplitHref(href: string): (r: (string, Option<string>))
    ensures '#' !in r.0 && '?' !in r.0
    ensures r.1.None? ==> '#' !in href
  {
    var (before, fragment) := CutAt(href, '#');
    var path := CutAt(before, '?').0;
    assert '#' !in path by {
      assert path == before || before == path + ['?'] + CutAt(before, '?').1.value;
    }
    (path, fragment)
  }

  /** Round trip: path part, query and fragment put back together give the
      href, so nothing but the query is dropped. */
  lemma SplitHrefRoundTrip(href: string)
    ensures exists query ::
      && href == SplitHref(href).0 + query + (if SplitHref(href).1.Some? then "#" + SplitHref(href).1.value else "")
      && (query == "" || query[0] == '?')
  {
    var (before, fragment) := CutAt(href, '#');
    var (path, q) := CutAt(before, '?');
    assert SplitHref(href) == (path, fragment);
    CutRejoins(href, '#');
    CutRejoins(before, '?');
    var query := Rejoined('?', q);
    assert href == path + query + Rejoined('#', fragment);
  }

  /** What follows the cut: the separator and the rest, when there was one. */
  function Rejoined(c: char, rest: Option<string>): (r: string)
    ensures rest.None? <==> r == ""
    ensures rest.Some? ==> r[0] == c
  {
    if rest.Some? then [c] + rest.value else ""
  }

  lemma CutRejoins(s: string, c: char)
    ensures s == CutAt(s, c).0 + Rejoined(c, CutAt(s, c).1)
  {
  }

  /** Appending a fragment to an href without one changes only the
      fragment part. */
  lemma SplitHrefFragment(u: string, f: string)
    requires '#' !in u
    ensures SplitHref(u + "#" + f) == (SplitHref(u).0, Some(f))
  {
    var s := u + "#" + f;
    assert s[|u|] == '#';
    var (before, fragment) := CutAt(s, '#');
    assert fragment.Some?;
    assert forall i :: 0 <= i < |u| ==> s[i] == u[i] && s[i] != '#';
    assert s[|before|] == '#';
    assert |before| <= |u| by {
      assert forall i :: 0 <= i < |before| ==> before[i] == s[i];
    }
    assert before == s[..|u|] == u;
    assert fragment.value == s[|u| + 1..] == f;
    assert CutAt(u, '#') == (u, None);
  }

  /** The schemes of links that are not checked. */
  predicate IsExternal(href: string) {
    || StartsWith(href, "http:") || StartsWith(href, "https:")
    || StartsWith(href, "javascript:") || StartsWith(href, "ftp:")
    || StartsWith(href, "irc:") || StartsWith(href, "data:")
  }

  lemma PrefixIgnoresFragment(u: string, f: string, scheme: string)
    requires '#' !in scheme
    ensures StartsWith(u + "#" + f, scheme) == StartsWith(u, scheme)
  {
    var s := u + "#" + f;
    if |scheme| <= |u| {
      assert s[..|scheme|] == u[..|scheme|];
    } else if |scheme| <= |s| {
      assert s[..|scheme|][|u|] == '#';
    }
  }

  /** Whether a link is external does not depend on a fragment appended to
      it, since no scheme holds a '#'. */
  lemma ExternalIgnoresFragment(u: string, f: string)
    ensures IsExternal(u + "#" + f) == IsExternal(u)
  {
    PrefixIgnoresFragment(u, f, "http:");
    PrefixIgnoresFragment(u, f, "https:");
    PrefixIgnoresFragment(u, f, "javascript:");
    PrefixIgnoresFragment(u, f, "ftp:");
    PrefixIgnoresFragment(u, f, "irc:");
    PrefixIgnoresFragment(u, f, "data:");
  }

  /** ASCII digits stand for `char::is_numeric`. */
  predicate IsDigit(c: char) {
    '0' <= c <= '9'
  }

  predicate AllDigits(s: string) {
    forall k :: 0 <= k < |s| ==> IsDigit(s[k])
  }

  /** `fragment.splitn(2, '-').all(|f| f.chars().all(is_numeric))`: a fragment
      that looks like a line number or a line range. */
  predicate IsLineFragment(f: string) {
    var (first, second) := CutAt(f, '-');
    AllDigits(first) && (second.None? || AllDigits(second.value))
  }

  predicate DigitsAndDashes(f: string) {
    forall k :: 0 <= k < |f| ==> IsDigit(f[k]) || f[k] == '-'
  }

  predicate AtMostOneDash(f: string) {
    forall i, j :: 0 <= i < |f| && 0 <= j < |f| && f[i] == '-' && f[j] == '-' ==> i == j
  }

  /** The fragments exempt from the anchor check are exactly those made of
      digits with at most one '-' among them (so "", "-" and "1-" qualify). */
  lemma LineFragmentShape(f: string)
    ensures IsLineFragment(f) <==> DigitsAndDashes(f) && AtMostOneDash(f)
  {
    var (first, second) := CutAt(f, '-');
    if second.Some? {
      var rest := second.value;
      var k := |first|;
      assert f[k] == '-';
      if IsLineFragment(f) {
        forall i | 0 <= i < |f| ensures IsDigit(f[i]) || f[i] == '-' {
          if i < k { assert f[i] == first[i]; }
          else if i > k { assert f[i] == rest[i - k - 1]; }
        }
      }
      if DigitsAndDashes(f) && AtMostOneDash(f) {
        forall i | 0 <= i < k ensures IsDigit(first[i]) {
          assert first[i] == f[i];
        }
        forall i | 0 <= i < |rest| ensures IsDigit(rest[i]) {
          assert rest[i] == f[k + 1 + i];
        }
      }
    } else {
      assert first == f;
    }
  }

  // ---------------------------------------------------------------------
  // File names.

  /** The index of the last `c` in `s`. */
  function FindLast(s: string, c: char): (r: Option<nat>)
    ensures r.Some? ==> r.value < |s| && s[r.value] == c && c !in s[r.value + 1..]
    ensures r.None? ==> c !in s
  {
    if s == [] then None
    else if s[|s| - 1] == c then Some(|s| - 1)
    else
      var r := FindLast(s[..|s| - 1], c);
      if r.Some? then assert s[r.value + 1..] == s[..|s| - 1][r.value + 1..] + [s[|s| - 1]]; r
      else assert s == s[..|s| - 1] + [s[|s| - 1]]; r
  }

  /** `OsStr` extension of a file name: the text after the last '.', unless
      there is no '.' or the only one starts the name. */
  function Extension(name: string): (r: Option<string>)
    ensures r.Some? ==> EndsWith(name, "." + r.value) && '.' !in r.value && |r.value| + 1 < |name|
    ensures r.None? <==> forall k :: 0 < k < |name| ==> name[k] != '.'
  {
    match FindLast(name, '.')
    case None => None
    case Some(k) =>
      if k == 0 then None
      else assert name[|name| - |name[k + 1..]| - 1..] == "." + name[k + 1..]; Some(name[k + 1..])
  }

  /** `Path::extension`: that of the last component; the root has none. */
  function PathExtension(p: Path): Option<string> {
    if p == [] then None else Extension(p[|p| - 1])
  }

  predicate IsHtml(p: Path) {
    PathExtension(p) == Some("html")
  }

  /** `Path::ends_with`: a component-wise suffix. */
  predicate PathEndsWith(p: Path, suffix: Path) {
    |suffix| <= |p| && p[|p| - |suffix|..] == suffix
  }

  /** The generated pages the checker skips because of known generator bugs. */
  const Allowlist: seq<string> := [
    "std/string/struct.String.html", "interpret/struct.ValTy.html",
    "symbol/struct.InternedString.html", "ast/struct.ThinVec.html",
    "util/struct.ThinVec.html", "util/struct.RcSlice.html",
    "layout/struct.TyLayout.html", "ty/struct.Slice.html",
    "ty/enum.Attributes.html", "ty/struct.SymbolName.html",
    "string/struct.String.html",
    "btree_set/struct.BTreeSet.html", "struct.BTreeSet.html",
    "btree_map/struct.BTreeMap.html", "hash_map/struct.HashMap.html",
    "hash_set/struct.HashSet.html", "sync/struct.Lrc.html",
    "sync/struct.RwLock.html",
    "deriving/generic/index.html", "deriving/generic/macro.vec.html",
    "deriving/custom/macro.panic.html", "proc_macro_impl/macro.panic.html"
  ]

  predicate Allowlisted(p: Path) {
    exists k :: 0 <= k < |Allowlist| && PathEndsWith(p, Segments(Allowlist[k]))
  }

  // ---------------------------------------------------------------------
  // Root-relative names.

  /** A cache key: `file.strip_prefix(root)` when `root` is a prefix of the
      path, the path itself otherwise. */
  datatype Key = Rel(rel: Path) | Abs(abs: Path)

  function PrettyPath(root: Path, p: Path): (k: Key)
    ensures k.Rel? <==> |root| <= |p| && p[..|root|] == root
  {
    if |root| <= |p| && p[..|root|] == root then Rel(p[|root|..]) else Abs(p)
  }

  /** The path a key stands for: undoes `strip_prefix(root)`. */
  function FullPath(root: Path, k: Key): (r: Path)
    ensures k.Rel? ==> |root| <= |r| && r[..|root|] == root && r[|root|..] == k.rel
    ensures k.Abs? ==> r == k.abs
  {
    match k
    case Rel(r) => root + r
    case Abs(a) => a
  }

  /** The pretty name loses nothing: the full path is recovered from it, so
      two different files never share a cache entry. */
  lemma PrettyPathRoundTrip(root: Path, p: Path)
    ensures FullPath(root, PrettyPath(root, p)) == p
  {
    if |root| <= |p| && p[..|root|] == root {
      assert root + p[|root|..] == p;
    }
  }

  lemma PrettyPathInjective(root: Path, p: Path, q: Path)
    requires PrettyPath(root, p) == PrettyPath(root, q)
    ensures p == q
  {
    PrettyPathRoundTrip(root, p);
    PrettyPathRoundTrip(root, q);
  }

  /** The path `file.parent().join(url)` names before the operating system
      resolves it: "." segments vanish, ".." segments stay. */
  function JoinRaw(dir: Path, url: string): Path {
    var segs := Unhidden(Segments(url));
    if StartsWith(url, "/") then segs else dir + segs
  }

  function Unhidden(segments: seq<string>): (r: seq<string>)
    ensures forall k :: 0 <= k < |r| ==> r[k] != "." && r[k] in segments
    ensures "." !in segments ==> r == segments
  {
    if segments == [] then []
    else (if segments[0] == "." then [] else [segments[0]]) + Unhidden(segments[1..])
  }

  /** The filter works segment by segment, so it keeps the others in their
      order: filtering a concatenation filters each part. */
  lemma {:induction false} UnhiddenConcat(a: seq<string>, b: seq<string>)
    ensures Unhidden(a + b) == Unhidden(a) + Unhidden(b)
    decreases |a|
  {
    if a == [] {
      assert a + b == b;
    } else {
      assert (a + b)[0] == a[0] && (a + b)[1..] == a[1..] + b;
      UnhiddenConcat(a[1..], b);
    }
  }

  /** What the operating system makes of a raw path: ".." steps up (staying
      at the root), "." stays where it is. */
  function Normalize(p: Path): Path {
    NormalizeTotal(p);
    Fold([], ComponentsOf(p)).value
  }

  lemma NormalizeTotal(p: Path)
    ensures Fold([], ComponentsOf(p)).Some?
  {
    FoldFailsOnRoot([], ComponentsOf(p));
  }

  /** A plain path is already normal. */
  lemma NormalizePlain(p: Path)
    requires PlainPath(p)
    ensures Normalize(p) == p
  {
    FoldPushes([], p);
    assert [] + p == p;
  }
}
