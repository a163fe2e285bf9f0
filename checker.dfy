/** The checker proper: `check` on one document, the links in it, and `walk`
    over the documentation tree. The run's mutable state (the cache, the
    reports and the `errors` flag) lives in a `LinkChecker` object whose
    methods are proved against the value-level functions of this module. */
module Checker {
  import opened Text
  import opened Paths
  import opened UrlEncode
  import opened Attributes
  import opened Documents

  /** A run goes on until a panic ends it. */
  datatype Status = Running | Aborted(why: Fatal)

  /** The state of a run: the cache, the reports so far, and whether a panic
      has ended it. */
  datatype Run = Run(cache: Cache, report: seq<Defect>, status: Status)

  /** The documentation tree as `read_dir` lists it, in listing order. */
  datatype Tree = FileAt(path: Path) | DirAt(children: seq<Tree>)

  /** `*errors = true` and one line printed. */
  function Report(run: Run, d: Defect): Run {
    run.(report := run.report + [d])
  }

  /** A report appends the defect after the earlier ones, so the report is
      then non-empty (`errors` is set); nothing else changes. */
  lemma ReportAppends(run: Run, d: Defect)
    ensures |Report(run, d).report| == |run.report| + 1 && Report(run, d).report[|run.report|] == d
    ensures Report(run, d).report[..|run.report|] == run.report
    ensures Report(run, d).cache == run.cache && Report(run, d).status == run.status
  {
    assert (run.report + [d])[..|run.report|] == run.report;
  }

  /** A link with a fragment: the ids of the target are parsed (once) and the
      fragment must be one of them. */
  function FragmentCheck(run: Run, key: Key, contents: string, fragment: string, pretty: Key, at: nat): Run
    requires key in run.cache
  {
    var (entry, dups) := ParseIds(run.cache[key], key, contents);
    var run := Run(run.cache[key := entry], run.report + dups, run.status);
    if fragment in entry.ids then run else Report(run, BrokenFragment(pretty, at, fragment, key))
  }

  /** One `href` of the document `file` (cached under `pretty`): external
      links are skipped; otherwise the link is resolved against the file and
      the base in force; a joined path with a root component is fatal. */
  function Follow(run: Run, fs: FileSystem, root: Path, fuel: nat, file: Path, pretty: Key, hit: Attr): Run {
    if run.status.Aborted? || IsExternal(hit.value) then run
    else
      var (url, fragment) := SplitHref(hit.value);
      match Resolve(file, hit.base, url)
      case None => run.(status := Aborted(AbsoluteLink))
      case Some(path) => FollowTo(run, fs, root, fuel, path, fragment, pretty, hit.line + 1)
  }

  /** A resolved link target must exist and must not be a directory; an HTML
      target (or one without extension) is loaded, following redirects.
      Reports carry the 1-based line `at` of the link. */
  function FollowTo(run: Run, fs: FileSystem, root: Path, fuel: nat, path: Path, fragment: Option<string>, pretty: Key, at: nat): Run {
    match fs(path)
    case Missing => Report(run, BrokenLink(pretty, at, PrettyPath(root, path)))
    case Directory => Report(run, DirectoryLink(pretty, at, PrettyPath(root, path)))
    case _ =>
      if PathExtension(path).Some? && PathExtension(path).value != "html" then run
      else
        var (res, cache) := Load(run.cache, fs, root, path, FromRedirect(false), fuel);
        Landed(run.(cache := cache), res, fragment, pretty, at)
  }

  /** What a loaded link target leads to: an unreadable target is fatal, a
      broken redirect is reported, and a fragment that is not a line number
      is looked up among the target's ids. */
  function Landed(run: Run, res: LoadResult, fragment: Option<string>, pretty: Key, at: nat): Run
    requires res.Loaded? ==> res.key in run.cache
  {
    match res
    case Failed(err) =>
      (match err
       case IOError => run.(status := Aborted(UnreadableTarget))
       case BrokenRedirect(target) => Report(run, BrokenRedirectLink(pretty, at, target))
       case IsRedirect => run.(status := Aborted(UnexpectedRedirect))
       case Panicked(why) => run.(status := Aborted(why)))
    case Loaded(key, contents) =>
      if fragment.None? || IsLineFragment(fragment.value) then run
      else FragmentCheck(run, key, contents, fragment.value, pretty, at)
  }

  /** The links of one document, in order. */
  function FollowAll(run: Run, fs: FileSystem, root: Path, fuel: nat, file: Path, pretty: Key, hits: seq<Attr>): Run
    decreases |hits|
  {
    if hits == [] then run
    else FollowAll(Follow(run, fs, root, fuel, file, pretty, hits[0]), fs, root, fuel, file, pretty, hits[1..])
  }

  /** `check`: documents that are not HTML, or are on the allowlist, or
      cannot be loaded without following a redirect, are skipped; otherwise
      the document's ids are parsed and its links followed. The key of a
      checked document is returned. */
  function CheckFile(run: Run, fs: FileSystem, root: Path, fuel: nat, file: Path): (Run, Option<Key>) {
    if !IsHtml(file) || Allowlisted(file) then (run, None)
    else
      var (res, cache) := Load(run.cache, fs, root, file, SkipRedirect, fuel);
      match res
      case Failed(err) => (if err.Panicked? then run.(status := Aborted(err.why)) else run, None)
      case Loaded(key, contents) =>
        var (entry, dups) := ParseIds(cache[key], key, contents);
        var run := Run(cache[key := entry], run.report + dups, run.status);
        (FollowAll(run, fs, root, fuel, file, key, Attrs(contents, " href")), Some(key))
  }

  /** One file of the walk: once it is checked its text is dropped from the
      cache, its ids kept. A panic ends the run. */
  function Visit(run: Run, fs: FileSystem, root: Path, fuel: nat, file: Path): Run {
    if run.status.Aborted? then run
    else
      var (after, key) := CheckFile(run, fs, root, fuel, file);
      if key.None? || after.status.Aborted? then after
      else
        CheckFileKeepsKey(run, fs, root, fuel, file);
        after.(cache := after.cache[key.value := after.cache[key.value].(source := "")])
  }

  /** `walk`: the files of the tree in listing order, directories entered
      where they are listed. */
  function Walked(run: Run, fs: FileSystem, root: Path, fuel: nat, t: Tree): Run
    decreases t
  {
    match t
    case FileAt(p) => Visit(run, fs, root, fuel, p)
    case DirAt(children) => WalkedAll(run, fs, root, fuel, children)
  }

  function WalkedAll(run: Run, fs: FileSystem, root: Path, fuel: nat, ts: seq<Tree>): Run
    decreases ts
  {
    if ts == [] then run
    else WalkedAll(Walked(run, fs, root, fuel, ts[0]), fs, root, fuel, ts[1..])
  }

  // ---------------------------------------------------------------------
  // What the cache keeps.

  /** The cache only grows, and ids once registered are never replaced. */
  predicate Grows(before: Cache, after: Cache) {
    forall k :: k in before ==> k in after && (before[k].ids != {} ==> after[k].ids == before[k].ids)
  }

  lemma ParseIdsGrows(entry: FileEntry, key: Key, contents: string)
    ensures var after := ParseIds(entry, key, contents).0;
      after.source == entry.source && (entry.ids != {} ==> after == entry)
  {
  }

  lemma FragmentCheckGrows(run: Run, fs: FileSystem, root: Path, key: Key, contents: string, fragment: string, pretty: Key, at: nat)
    requires key in run.cache
    ensures var after := FragmentCheck(run, key, contents, fragment, pretty, at);
      Grows(run.cache, after.cache) && (CacheValid(run.cache, fs, root) ==> CacheValid(after.cache, fs, root))
  {
    ParseIdsGrows(run.cache[key], key, contents);
  }

  lemma LandedGrows(run: Run, fs: FileSystem, root: Path, res: LoadResult, fragment: Option<string>, pretty: Key, at: nat)
    requires res.Loaded? ==> res.key in run.cache
    ensures var after := Landed(run, res, fragment, pretty, at);
      Grows(run.cache, after.cache) && (CacheValid(run.cache, fs, root) ==> CacheValid(after.cache, fs, root))
  {
    if res.Loaded? && fragment.Some? && !IsLineFragment(fragment.value) {
      FragmentCheckGrows(run, fs, root, res.key, res.contents, fragment.value, pretty, at);
    }
  }

  lemma GrowsTrans(a: Cache, b: Cache, c: Cache)
    requires Grows(a, b) && Grows(b, c)
    ensures Grows(a, c)
  {
  }

  lemma FollowToGrows(run: Run, fs: FileSystem, root: Path, fuel: nat, path: Path, fragment: Option<string>, pretty: Key, at: nat)
    ensures var after := FollowTo(run, fs, root, fuel, path, fragment, pretty, at);
      Grows(run.cache, after.cache) && (CacheValid(run.cache, fs, root) ==> CacheValid(after.cache, fs, root))
  {
    var after := FollowTo(run, fs, root, fuel, path, fragment, pretty, at);
    if fs(path).Missing? || fs(path).Directory? {
      assert after.cache == run.cache;
    } else if PathExtension(path).Some? && PathExtension(path).value != "html" {
      assert after == run;
    } else {
      LoadGrowsCache(run.cache, fs, root, path, FromRedirect(false), fuel);
      if CacheValid(run.cache, fs, root) {
        LoadKeepsCacheValid(run.cache, fs, root, path, FromRedirect(false), fuel);
      }
      var loaded := Load(run.cache, fs, root, path, FromRedirect(false), fuel);
      var mid := run.(cache := loaded.1);
      assert after == Landed(mid, loaded.0, fragment, pretty, at);
      LandedGrows(mid, fs, root, loaded.0, fragment, pretty, at);
      GrowsTrans(run.cache, mid.cache, after.cache);
    }
  }

  lemma FollowGrows(run: Run, fs: FileSystem, root: Path, fuel: nat, file: Path, pretty: Key, hit: Attr)
    ensures var after := Follow(run, fs, root, fuel, file, pretty, hit);
      Grows(run.cache, after.cache) && (CacheValid(run.cache, fs, root) ==> CacheValid(after.cache, fs, root))
  {
    var after := Follow(run, fs, root, fuel, file, pretty, hit);
    if run.status.Running? && !IsExternal(hit.value) {
      var split := SplitHref(hit.value);
      var target := Resolve(file, hit.base, split.0);
      if target.Some? {
        assert after == FollowTo(run, fs, root, fuel, target.value, split.1, pretty, hit.line + 1);
        FollowToGrows(run, fs, root, fuel, target.value, split.1, pretty, hit.line + 1);
      } else {
        assert after.cache == run.cache;
      }
    } else {
      assert after == run;
    }
  }

  lemma {:induction false} FollowAllGrows(run: Run, fs: FileSystem, root: Path, fuel: nat, file: Path, pretty: Key, hits: seq<Attr>)
    ensures var after := FollowAll(run, fs, root, fuel, file, pretty, hits);
      Grows(run.cache, after.cache) && (CacheValid(run.cache, fs, root) ==> CacheValid(after.cache, fs, root))
    decreases |hits|
  {
    if hits != [] {
      var next := Follow(run, fs, root, fuel, file, pretty, hits[0]);
      FollowGrows(run, fs, root, fuel, file, pretty, hits[0]);
      FollowAllGrows(next, fs, root, fuel, file, pretty, hits[1..]);
    }
  }

  /** `check` keeps the cache growing and faithful; a checked document is
      in the cache afterwards. */
  lemma CheckFileGrows(run: Run, fs: FileSystem, root: Path, fuel: nat, file: Path)
    ensures var (after, key) := CheckFile(run, fs, root, fuel, file);
      Grows(run.cache, after.cache) &&
      (CacheValid(run.cache, fs, root) ==> CacheValid(after.cache, fs, root)) &&
      (key.Some? ==> key.value in after.cache)
  {
    var out := CheckFile(run, fs, root, fuel, file);
    if !IsHtml(file) || Allowlisted(file) {
      assert out == (run, None);
    } else {
      LoadGrowsCache(run.cache, fs, root, file, SkipRedirect, fuel);
      if CacheValid(run.cache, fs, root) {
        LoadKeepsCacheValid(run.cache, fs, root, file, SkipRedirect, fuel);
      }
      var loaded := Load(run.cache, fs, root, file, SkipRedirect, fuel);
      if loaded.0.Failed? {
        assert out.0.cache == run.cache && out.1 == None;
      } else {
        var key, contents := loaded.0.key, loaded.0.contents;
        var parsed := ParseIds(loaded.1[key], key, contents);
        ParseIdsGrows(loaded.1[key], key, contents);
        var mid := Run(loaded.1[key := parsed.0], run.report + parsed.1, run.status);
        assert Grows(loaded.1, mid.cache);
        assert out == (FollowAll(mid, fs, root, fuel, file, key, Attrs(contents, " href")), Some(key));
        FollowAllGrows(mid, fs, root, fuel, file, key, Attrs(contents, " href"));
        GrowsTrans(run.cache, loaded.1, mid.cache);
        GrowsTrans(run.cache, mid.cache, out.0.cache);
      }
    }
  }

  lemma CheckFileKeepsKey(run: Run, fs: FileSystem, root: Path, fuel: nat, file: Path)
    ensures var (after, key) := CheckFile(run, fs, root, fuel, file);
      key.Some? ==> key.value in after.cache
  {
    CheckFileGrows(run, fs, root, fuel, file);
  }

  // ---------------------------------------------------------------------
  // What a link leads to.

  /** A link that is followed is cut at its '#' and resolved against the
      document and the base in force; a resolved target is checked at the
      link's 1-based line. */
  lemma FollowTargets(run: Run, fs: FileSystem, root: Path, fuel: nat, file: Path, pretty: Key, hit: Attr)
    requires run.status.Running? && !IsExternal(hit.value)
    requires Resolve(file, hit.base, SplitHref(hit.value).0).Some?
    ensures Follow(run, fs, root, fuel, file, pretty, hit) ==
      FollowTo(run, fs, root, fuel, Resolve(file, hit.base, SplitHref(hit.value).0).value, SplitHref(hit.value).1, pretty, hit.line + 1)
  {
  }

  /** A link whose joined path has a root component ends the run. */
  lemma FollowAbsolute(run: Run, fs: FileSystem, root: Path, fuel: nat, file: Path, pretty: Key, hit: Attr)
    requires run.status.Running? && !IsExternal(hit.value)
    requires Resolve(file, hit.base, SplitHref(hit.value).0).None?
    ensures Follow(run, fs, root, fuel, file, pretty, hit) == run.(status := Aborted(AbsoluteLink))
  {
  }

  /** A missing target is reported as a broken link and a directory as a
      directory link, both at line `at` and naming the target relative to
      the root; a target with another extension than "html" is not looked
      into. */
  lemma FollowToTargets(run: Run, fs: FileSystem, root: Path, fuel: nat, path: Path, fragment: Option<string>, pretty: Key, at: nat)
    ensures var after := FollowTo(run, fs, root, fuel, path, fragment, pretty, at);
      (fs(path) == Missing ==> after == Report(run, BrokenLink(pretty, at, PrettyPath(root, path)))) &&
      (fs(path) == Directory ==> after == Report(run, DirectoryLink(pretty, at, PrettyPath(root, path)))) &&
      (!fs(path).Missing? && !fs(path).Directory? && PathExtension(path).Some? && PathExtension(path).value != "html" ==>
         after == run)
  {
  }

  /** External links change nothing. */
  lemma FollowExternal(run: Run, fs: FileSystem, root: Path, fuel: nat, file: Path, pretty: Key, hit: Attr)
    requires IsExternal(hit.value)
    ensures Follow(run, fs, root, fuel, file, pretty, hit) == run
  {
  }

  lemma FollowToLineFragment(run: Run, fs: FileSystem, root: Path, fuel: nat, path: Path, f: string, pretty: Key, at: nat)
    requires IsLineFragment(f)
    ensures FollowTo(run, fs, root, fuel, path, Some(f), pretty, at) == FollowTo(run, fs, root, fuel, path, None, pretty, at)
  {
    if fs(path) != Missing && fs(path) != Directory && !(PathExtension(path).Some? && PathExtension(path).value != "html") {
      LoadGrowsCache(run.cache, fs, root, path, FromRedirect(false), fuel);
      var (res, cache) := Load(run.cache, fs, root, path, FromRedirect(false), fuel);
      assert Landed(run.(cache := cache), res, Some(f), pretty, at) == Landed(run.(cache := cache), res, None, pretty, at);
    }
  }

  /** A fragment that looks like a line number (`#12`, `#3-7`) is never
      checked: the link is followed as its target without a fragment. */
  lemma FollowLineFragment(run: Run, fs: FileSystem, root: Path, fuel: nat, file: Path, pretty: Key, hit: Attr, f: string)
    requires '#' !in hit.value && IsLineFragment(f)
    requires run.status.Running? && !IsExternal(hit.value)
    requires Resolve(file, hit.base, SplitHref(hit.value).0).Some?
    ensures Follow(run, fs, root, fuel, file, pretty, hit.(value := hit.value + "#" + f)) ==
            FollowTo(run, fs, root, fuel, Resolve(file, hit.base, SplitHref(hit.value).0).value, None, pretty, hit.line + 1)
  {
    var tagged := hit.(value := hit.value + "#" + f);
    ExternalIgnoresFragment(hit.value, f);
    SplitHrefFragment(hit.value, f);
    FollowTargets(run, fs, root, fuel, file, pretty, tagged);
    FollowToLineFragment(run, fs, root, fuel, Resolve(file, hit.base, SplitHref(hit.value).0).value, f, pretty, hit.line + 1);
  }

  lemma FollowToNoUnexpectedRedirect(run: Run, fs: FileSystem, root: Path, fuel: nat, path: Path, fragment: Option<string>, pretty: Key, at: nat)
    requires run.status == Running
    ensures FollowTo(run, fs, root, fuel, path, fragment, pretty, at).status != Aborted(UnexpectedRedirect)
  {
    LoadErrorModes(run.cache, fs, root, path, FromRedirect(false), fuel);
  }

  /** A link target is loaded following redirects, so the checker never
      meets the `unreachable!()` case of a target refused as a redirect. */
  lemma FollowNoUnexpectedRedirect(run: Run, fs: FileSystem, root: Path, fuel: nat, file: Path, pretty: Key, hit: Attr)
    requires run.status != Aborted(UnexpectedRedirect)
    ensures Follow(run, fs, root, fuel, file, pretty, hit).status != Aborted(UnexpectedRedirect)
  {
    if run.status.Running? && !IsExternal(hit.value) {
      var split := SplitHref(hit.value);
      var target := Resolve(file, hit.base, split.0);
      if target.Some? {
        FollowTargets(run, fs, root, fuel, file, pretty, hit);
        FollowToNoUnexpectedRedirect(run, fs, root, fuel, target.value, split.1, pretty, hit.line + 1);
      } else {
        FollowAbsolute(run, fs, root, fuel, file, pretty, hit);
      }
    }
  }

  /** A loaded target and a fragment that is not a line number: the
      target's ids are parsed (its repeated ids reported) and the link is
      reported broken, once, exactly when the fragment is not among them. */
  lemma LandedFragment(run: Run, key: Key, contents: string, f: string, pretty: Key, at: nat)
    requires key in run.cache && !IsLineFragment(f)
    ensures Landed(run, Loaded(key, contents), Some(f), pretty, at).cache ==
      run.cache[key := ParseIds(run.cache[key], key, contents).0]
    ensures Landed(run, Loaded(key, contents), Some(f), pretty, at).status == run.status
    ensures Landed(run, Loaded(key, contents), Some(f), pretty, at).report ==
      run.report + ParseIds(run.cache[key], key, contents).1 +
      (if f in ParseIds(run.cache[key], key, contents).0.ids then [] else [BrokenFragment(pretty, at, f, key)])
  {
  }

  /** On a target whose ids are not parsed yet, a fragment is reported broken
      exactly when no `id` attribute of the target has it as its fragment or
      as that fragment's encoded alias. */
  lemma LandedOnFreshTarget(run: Run, key: Key, contents: string, f: string, pretty: Key, at: nat)
    requires key in run.cache && run.cache[key].ids == {} && !IsLineFragment(f)
    ensures Landed(run, Loaded(key, contents), Some(f), pretty, at).report ==
      run.report + Duplicates(key, Attrs(contents, " id"), SmallUrlEncode) +
      (if exists k :: 0 <= k < |Attrs(contents, " id")| &&
            (f == Frag(Attrs(contents, " id")[k].value) || f == SmallUrlEncode(Frag(Attrs(contents, " id")[k].value)))
       then [] else [BrokenFragment(pretty, at, f, key)])
  {
    LandedFragment(run, key, contents, f, pretty, at);
    ParseIdsRegisters(run.cache[key], key, contents, f);
  }

  /** A link to a redirect page whose target is missing is reported as a
      broken redirect naming that target, not as a broken link, and changes
      nothing else. */
  lemma FollowToBrokenRedirect(run: Run, fs: FileSystem, root: Path, fuel: nat, path: Path, target: Path, fragment: Option<string>, pretty: Key, at: nat)
    requires CacheValid(run.cache, fs, root)
    requires fs(path) == Redirect(Some(target)) && fs(target) == Missing && fuel > 0
    requires PathExtension(path).None? || PathExtension(path).value == "html"
    ensures FollowTo(run, fs, root, fuel, path, fragment, pretty, at) == Report(run, BrokenRedirectLink(pretty, at, target))
  {
    LoadBrokenRedirect(run.cache, fs, root, path, target, FromRedirect(false), fuel);
  }

  // ---------------------------------------------------------------------
  // What a link reports.

  /** Reports are only appended, and each one appended is about the link at
      hand (its document, its 1-based line) or is a repeated id found while
      parsing the target's ids. */
  predicate AddsOnly(before: Run, after: Run, pretty: Key, at: nat) {
    before.report <= after.report &&
    forall d :: d in after.report[|before.report|..] ==> d.IdNotUnique? || (d.file == pretty && d.line == at)
  }

  lemma DuplicatesAreIds(key: Key, entry: FileEntry, contents: string)
    ensures forall d :: d in ParseIds(entry, key, contents).1 ==> d.IdNotUnique?
  {
    if entry.ids == {} {
      DuplicatesSound(key, Attrs(contents, " id"), SmallUrlEncode);
    }
  }

  /** Reports about duplicate ids, then reports about the link itself. */
  lemma AppendAddsOnly(before: Run, after: Run, dups: seq<Defect>, own: seq<Defect>, pretty: Key, at: nat)
    requires after.report == before.report + dups + own
    requires forall d :: d in dups ==> d.IdNotUnique?
    requires forall d :: d in own ==> d.file == pretty && d.line == at
    ensures AddsOnly(before, after, pretty, at)
  {
    assert after.report[|before.report|..] == dups + own;
  }

  lemma FragmentCheckAddsOnly(run: Run, key: Key, contents: string, fragment: string, pretty: Key, at: nat)
    requires key in run.cache
    ensures AddsOnly(run, FragmentCheck(run, key, contents, fragment, pretty, at), pretty, at)
  {
    var parsed := ParseIds(run.cache[key], key, contents);
    DuplicatesAreIds(key, run.cache[key], contents);
    var after := FragmentCheck(run, key, contents, fragment, pretty, at);
    var mid := Run(run.cache[key := parsed.0], run.report + parsed.1, run.status);
    if fragment in parsed.0.ids {
      assert after == mid;
      AppendAddsOnly(run, after, parsed.1, [], pretty, at);
    } else {
      var d := BrokenFragment(pretty, at, fragment, key);
      assert after == Report(mid, d);
      AppendAddsOnly(run, after, parsed.1, [d], pretty, at);
    }
  }

  lemma LandedAddsOnly(run: Run, res: LoadResult, fragment: Option<string>, pretty: Key, at: nat)
    requires res.Loaded? ==> res.key in run.cache
    ensures AddsOnly(run, Landed(run, res, fragment, pretty, at), pretty, at)
  {
    var after := Landed(run, res, fragment, pretty, at);
    if res.Loaded? && fragment.Some? && !IsLineFragment(fragment.value) {
      FragmentCheckAddsOnly(run, res.key, res.contents, fragment.value, pretty, at);
    } else if res.Failed? && res.err.BrokenRedirect? {
      AppendAddsOnly(run, after, [], [BrokenRedirectLink(pretty, at, res.err.target)], pretty, at);
    } else {
      assert after.report == run.report;
    }
  }

  lemma FollowToAddsOnly(run: Run, fs: FileSystem, root: Path, fuel: nat, path: Path, fragment: Option<string>, pretty: Key, at: nat)
    ensures AddsOnly(run, FollowTo(run, fs, root, fuel, path, fragment, pretty, at), pretty, at)
  {
    var after := FollowTo(run, fs, root, fuel, path, fragment, pretty, at);
    if fs(path).Missing? {
      AppendAddsOnly(run, after, [], [BrokenLink(pretty, at, PrettyPath(root, path))], pretty, at);
    } else if fs(path).Directory? {
      AppendAddsOnly(run, after, [], [DirectoryLink(pretty, at, PrettyPath(root, path))], pretty, at);
    } else if PathExtension(path).Some? && PathExtension(path).value != "html" {
      assert after == run;
    } else {
      LoadGrowsCache(run.cache, fs, root, path, FromRedirect(false), fuel);
      var loaded := Load(run.cache, fs, root, path, FromRedirect(false), fuel);
      var mid := run.(cache := loaded.1);
      assert after == Landed(mid, loaded.0, fragment, pretty, at);
      LandedAddsOnly(mid, loaded.0, fragment, pretty, at);
    }
  }

  lemma FollowAddsOnly(run: Run, fs: FileSystem, root: Path, fuel: nat, file: Path, pretty: Key, hit: Attr)
    ensures AddsOnly(run, Follow(run, fs, root, fuel, file, pretty, hit), pretty, hit.line + 1)
  {
    if run.status.Running? && !IsExternal(hit.value) {
      var split := SplitHref(hit.value);
      var target := Resolve(file, hit.base, split.0);
      if target.Some? {
        FollowTargets(run, fs, root, fuel, file, pretty, hit);
        FollowToAddsOnly(run, fs, root, fuel, target.value, split.1, pretty, hit.line + 1);
      } else {
        FollowAbsolute(run, fs, root, fuel, file, pretty, hit);
      }
    }
  }

  /** Once a panic has ended the run, no link changes anything. */
  lemma {:induction false} FollowAllAborted(run: Run, fs: FileSystem, root: Path, fuel: nat, file: Path, pretty: Key, hits: seq<Attr>)
    requires run.status.Aborted?
    ensures FollowAll(run, fs, root, fuel, file, pretty, hits) == run
    decreases |hits|
  {
    if hits != [] {
      FollowAllAborted(run, fs, root, fuel, file, pretty, hits[1..]);
    }
  }

  // ---------------------------------------------------------------------
  // Documents and the walk.

  /** Documents that are not HTML and documents on the allowlist are not
      checked. */
  lemma CheckFileSkips(run: Run, fs: FileSystem, root: Path, fuel: nat, file: Path)
    requires !IsHtml(file) || Allowlisted(file)
    ensures CheckFile(run, fs, root, fuel, file) == (run, None)
  {
  }

  /** A redirect page is not checked itself (its target is checked where it
      lies), and nothing is cached for it. */
  lemma CheckFileSkipsRedirect(run: Run, fs: FileSystem, root: Path, fuel: nat, file: Path)
    requires PrettyPath(root, file) !in run.cache && fs(file).Redirect?
    ensures CheckFile(run, fs, root, fuel, file) == (run, None)
  {
    LoadRefusesRedirect(run.cache, fs, root, file, fuel);
  }

  /** After a document is checked its text is dropped from the cache and
      its ids are kept. */
  lemma VisitDropsText(run: Run, fs: FileSystem, root: Path, fuel: nat, file: Path)
    requires run.status == Running
    ensures var (checked, key) := CheckFile(run, fs, root, fuel, file);
      var after := Visit(run, fs, root, fuel, file);
      key.Some? && checked.status == Running ==>
        key.value in checked.cache && key.value in after.cache &&
        after.cache[key.value] == checked.cache[key.value].(source := "")
  {
    CheckFileKeepsKey(run, fs, root, fuel, file);
  }

  /** The walk only adds to the cache and to the reports, never replaces ids
      once registered, and keeps every cached entry faithful to the file
      system. */
  lemma {:induction false} WalkedGrows(run: Run, fs: FileSystem, root: Path, fuel: nat, t: Tree)
    ensures var after := Walked(run, fs, root, fuel, t);
      Grows(run.cache, after.cache) && run.report <= after.report &&
      (CacheValid(run.cache, fs, root) ==> CacheValid(after.cache, fs, root))
    decreases t
  {
    match t
    case FileAt(p) => VisitGrows(run, fs, root, fuel, p);
    case DirAt(children) => WalkedAllGrows(run, fs, root, fuel, children);
  }

  lemma {:induction false} WalkedAllGrows(run: Run, fs: FileSystem, root: Path, fuel: nat, ts: seq<Tree>)
    ensures var after := WalkedAll(run, fs, root, fuel, ts);
      Grows(run.cache, after.cache) && run.report <= after.report &&
      (CacheValid(run.cache, fs, root) ==> CacheValid(after.cache, fs, root))
    decreases ts
  {
    if ts != [] {
      WalkedGrows(run, fs, root, fuel, ts[0]);
      WalkedAllGrows(Walked(run, fs, root, fuel, ts[0]), fs, root, fuel, ts[1..]);
    }
  }

  lemma VisitGrows(run: Run, fs: FileSystem, root: Path, fuel: nat, file: Path)
    ensures var after := Visit(run, fs, root, fuel, file);
      Grows(run.cache, after.cache) && run.report <= after.report &&
      (CacheValid(run.cache, fs, root) ==> CacheValid(after.cache, fs, root))
  {
    if run.status.Running? {
      CheckFileGrows(run, fs, root, fuel, file);
      CheckFileReports(run, fs, root, fuel, file);
    }
  }

  lemma CheckFileReports(run: Run, fs: FileSystem, root: Path, fuel: nat, file: Path)
    ensures run.report <= CheckFile(run, fs, root, fuel, file).0.report
  {
    if IsHtml(file) && !Allowlisted(file) {
      LoadGrowsCache(run.cache, fs, root, file, SkipRedirect, fuel);
      var (res, cache) := Load(run.cache, fs, root, file, SkipRedirect, fuel);
      if res.Loaded? {
        var key := res.key;
        var (entry, dups) := ParseIds(cache[key], key, res.contents);
        var mid := Run(cache[key := entry], run.report + dups, run.status);
        FollowAllReports(mid, fs, root, fuel, file, key, Attrs(res.contents, " href"));
      }
    }
  }

  lemma {:induction false} FollowAllReports(run: Run, fs: FileSystem, root: Path, fuel: nat, file: Path, pretty: Key, hits: seq<Attr>)
    ensures run.report <= FollowAll(run, fs, root, fuel, file, pretty, hits).report
    decreases |hits|
  {
    if hits != [] {
      FollowAddsOnly(run, fs, root, fuel, file, pretty, hits[0]);
      FollowAllReports(Follow(run, fs, root, fuel, file, pretty, hits[0]), fs, root, fuel, file, pretty, hits[1..]);
    }
  }

  /** The callback `parse_ids` hands to `with_attrs_in_source`, over all
      the `id` attributes: each registers its fragment (a repeat is reported
      at its 1-based line) and then the fragment's alias under
      `encode` (`SmallUrlEncode` in the checker). */
  method RegisterIds(key: Key, attrs: seq<Attr>, encode: string -> string) returns (ids: set<string>, dups: seq<Defect>)
    ensures ids == IdSet(attrs, encode)
    ensures dups == Duplicates(key, attrs, encode)
  {
    ids, dups := {}, [];
    ghost var done: seq<Attr> := [];
    for i := 0 to |attrs|
      invariant done == attrs[..i]
      invariant ids == IdSet(done, encode)
      invariant dups == Duplicates(key, done, encode)
    {
      var a := attrs[i];
      var frag := Frag(a.value);
      RegisterOne(key, done, a, encode);
      if frag in ids {
        dups := dups + [IdNotUnique(key, a.line + 1, a.value)];
      }
      ids := ids + {frag, encode(frag)};
      done := done + [a];
    }
    assert done == attrs;
  }

  // ---------------------------------------------------------------------
  // The run, in place.

  /** The state `walk` threads through its calls: the cache, the `errors`
      flag, and the reports (which the program prints as it goes). */
  class LinkChecker {
    const fs: FileSystem
    const root: Path
    /** How many redirects in a row are followed before the run gives up. */
    const fuel: nat
    var cache: Cache
    var report: seq<Defect>
    var errors: bool
    var status: Status

    /** `errors` is set exactly when something has been reported, and the
        cache is faithful to the file system. */
    ghost predicate Valid()
      reads this
    {
      (errors <==> report != []) && CacheValid(cache, fs, root)
    }

    function Snapshot(): Run
      reads this
    {
      Run(cache, report, status)
    }

    constructor (fs: FileSystem, root: Path, fuel: nat)
      ensures Valid()
      ensures this.fs == fs && this.root == root && this.fuel == fuel
      ensures Snapshot() == Run(map[], [], Running) && !errors
    {
      this.fs := fs;
      this.root := root;
      this.fuel := fuel;
      cache := map[];
      report := [];
      errors := false;
      status := Running;
    }

    /** `load_file`. */
    method LoadFile(file: Path, mode: Mode, depth: nat) returns (res: LoadResult)
      requires Valid()
      modifies this
      ensures Valid()
      ensures (res, cache) == Load(old(cache), fs, root, file, mode, depth)
      ensures report == old(report) && errors == old(errors) && status == old(status)
      decreases depth
    {
      LoadKeepsCacheValid(cache, fs, root, file, mode, depth);
      var key := PrettyPath(root, file);
      if key in cache {
        return Loaded(key, cache[key].source);
      }
      match fs(file) {
        case Missing =>
          res := Failed(if mode == FromRedirect(true) then BrokenRedirect(file) else IOError);
        case Directory =>
          res := Failed(IOError);
        case Document(c) =>
          cache := cache[key := FileEntry(c, {})];
          res := Loaded(key, c);
        case BadRedirect =>
          res := Failed(Panicked(MalformedRedirect));
        case Redirect(target) =>
          if mode == SkipRedirect {
            res := Failed(IsRedirect);
          } else if target.None? {
            res := Failed(Panicked(RootRedirect));
          } else if depth == 0 {
            res := Failed(Panicked(RedirectLimit));
          } else {
            res := LoadFile(target.value, FromRedirect(true), depth - 1);
          }
      }
    }

    /** `FileEntry::parse_ids` on the entry of `key`: when it has no ids yet,
        each `id` attribute registers its fragment and the fragment's encoded
        form, and a fragment already registered is reported. */
    method ParseIdsOf(key: Key, contents: string)
      requires Valid() && key in cache
      modifies this
      ensures Valid()
      ensures var (entry, dups) := ParseIds(old(cache)[key], key, contents);
        cache == old(cache)[key := entry] && report == old(report) + dups
      ensures status == old(status)
    {
      ParseIdsGrows(cache[key], key, contents);
      var entry := cache[key];
      if entry.ids != {} {
        return;
      }
      var attrs := WithAttrsInSource(contents, " id");
      var ids, dups := RegisterIds(key, attrs, SmallUrlEncode);
      if dups != [] {
        errors := true;
      }
      report := report + dups;
      cache := cache[key := entry.(ids := ids)];
    }

    /** The closure `check` runs for each `href` of `file`. */
    method CheckLink(file: Path, pretty: Key, hit: Attr)
      requires Valid()
      modifies this
      ensures Valid()
      ensures Snapshot() == Follow(old(Snapshot()), fs, root, fuel, file, pretty, hit)
    {
      FollowGrows(Snapshot(), fs, root, fuel, file, pretty, hit);
      FollowAddsOnly(Snapshot(), fs, root, fuel, file, pretty, hit);
      if status.Aborted? || IsExternal(hit.value) {
        return;
      }
      var (url, fragment) := SplitHref(hit.value);
      var target := ResolveTarget(file, hit.base, url);
      if target.None? {
        status := Aborted(AbsoluteLink);
        return;
      }
      CheckTarget(target.value, fragment, pretty, hit.line + 1);
    }

    /** What `check` does with a resolved link target. */
    method CheckTarget(path: Path, fragment: Option<string>, pretty: Key, at: nat)
      requires Valid()
      modifies this
      ensures Valid()
      ensures Snapshot() == FollowTo(old(Snapshot()), fs, root, fuel, path, fragment, pretty, at)
    {
      FollowToGrows(Snapshot(), fs, root, fuel, path, fragment, pretty, at);
      FollowToAddsOnly(Snapshot(), fs, root, fuel, path, fragment, pretty, at);
      match fs(path) {
        case Missing =>
          errors := true;
          report := report + [BrokenLink(pretty, at, PrettyPath(root, path))];
          return;
        case Directory =>
          errors := true;
          report := report + [DirectoryLink(pretty, at, PrettyPath(root, path))];
          return;
        case _ =>
      }
      var ext := PathExtension(path);
      if ext.Some? && ext.value != "html" {
        return;
      }
      LoadGrowsCache(cache, fs, root, path, FromRedirect(false), fuel);
      var res := LoadFile(path, FromRedirect(false), fuel);
      LandOn(res, fragment, pretty, at);
    }

    /** What `check` does with a loaded (or failed) link target. */
    method LandOn(res: LoadResult, fragment: Option<string>, pretty: Key, at: nat)
      requires Valid() && (res.Loaded? ==> res.key in cache)
      modifies this
      ensures Valid()
      ensures Snapshot() == Landed(old(Snapshot()), res, fragment, pretty, at)
    {
      match res {
        case Failed(err) =>
          match err {
            case IOError => status := Aborted(UnreadableTarget);
            case BrokenRedirect(t) =>
              errors := true;
              report := report + [BrokenRedirectLink(pretty, at, t)];
            case IsRedirect => status := Aborted(UnexpectedRedirect);
            case Panicked(why) => status := Aborted(why);
          }
        case Loaded(key, contents) =>
          if fragment.Some? && !IsLineFragment(fragment.value) {
            ParseIdsOf(key, contents);
            if fragment.value !in cache[key].ids {
              errors := true;
              report := report + [BrokenFragment(pretty, at, fragment.value, key)];
            }
          }
      }
    }

    /** `check`: returns the key of a checked document. */
    method Check(file: Path) returns (pretty: Option<Key>)
      requires Valid()
      modifies this
      ensures Valid()
      ensures (Snapshot(), pretty) == CheckFile(old(Snapshot()), fs, root, fuel, file)
    {
      if !IsHtml(file) || Allowlisted(file) {
        return None;
      }
      LoadGrowsCache(cache, fs, root, file, SkipRedirect, fuel);
      var res := LoadFile(file, SkipRedirect, fuel);
      if res.Failed? {
        if res.err.Panicked? {
          status := Aborted(res.err.why);
        }
        return None;
      }
      var key, contents := res.key, res.contents;
      ParseIdsOf(key, contents);
      var links := WithAttrsInSource(contents, " href");
      CheckLinks(file, key, links);
      pretty := Some(key);
    }

    /** The links of one document, in order, until a panic ends the run. */
    method CheckLinks(file: Path, pretty: Key, links: seq<Attr>)
      requires Valid()
      modifies this
      ensures Valid()
      ensures Snapshot() == FollowAll(old(Snapshot()), fs, root, fuel, file, pretty, links)
    {
      var i := 0;
      while i < |links| && status.Running?
        invariant 0 <= i <= |links|
        invariant Valid()
        invariant FollowAll(Snapshot(), fs, root, fuel, file, pretty, links[i..]) == FollowAll(old(Snapshot()), fs, root, fuel, file, pretty, links)
      {
        assert links[i..][0] == links[i] && links[i..][1..] == links[i + 1..];
        CheckLink(file, pretty, links[i]);
        i := i + 1;
      }
      if i < |links| {
        FollowAllAborted(Snapshot(), fs, root, fuel, file, pretty, links[i..]);
      }
    }

    /** One file of `walk`: checked, then its text dropped from the cache. */
    method VisitFile(file: Path)
      requires Valid()
      modifies this
      ensures Valid()
      ensures Snapshot() == Visit(old(Snapshot()), fs, root, fuel, file)
    {
      if status.Aborted? {
        return;
      }
      CheckFileKeepsKey(Snapshot(), fs, root, fuel, file);
      var pretty := Check(file);
      if pretty.Some? && status.Running? {
        cache := cache[pretty.value := cache[pretty.value].(source := "")];
      }
    }

    /** `walk`: every file of the tree in listing order. */
    method Walk(t: Tree)
      requires Valid()
      modifies this
      ensures Valid()
      ensures Snapshot() == Walked(old(Snapshot()), fs, root, fuel, t)
      decreases t
    {
      match t {
        case FileAt(p) =>
          VisitFile(p);
        case DirAt(children) =>
          var start := Snapshot();
          var i := 0;
          while i < |children|
            invariant 0 <= i <= |children|
            invariant Valid()
            invariant WalkedAll(Snapshot(), fs, root, fuel, children[i..]) == WalkedAll(start, fs, root, fuel, children)
          {
            Walk(children[i]);
            i := i + 1;
          }
      }
    }
  }
}
