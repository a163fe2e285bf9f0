/** The documents the checker reads and remembers: the file store that stands
    for the file system, the `Cache` of `FileEntry` values keyed by
    root-relative path, `load_file` with its redirect handling, and the anchor
    ids `parse_ids` registers. */
module Documents {
  import opened Text
  import opened Paths
  import opened Redirects
  import opened UrlEncode
  import opened Attributes

  /** `FileEntry`: a document's text (emptied once the document has been
      checked) and its anchor ids (filled at most once). */
  datatype FileEntry = FileEntry(source: string, ids: set<string>)

  /** `Cache`: entries by root-relative path. */
  type Cache = map<Key, FileEntry>

  /** The file tree: documents by normal path, and directories. */
  datatype Store = Store(files: map<Path, string>, dirs: set<Path>)

  /** What opening a path finds: nothing, a directory, a document that is
      not a redirect page, a redirect page with the path it points to (none
      for a page at the root, which has no parent directory), or a redirect
      line `maybe_redirect` cannot take apart. */
  datatype Page =
    | Missing
    | Directory
    | Document(contents: string)
    | Redirect(target: Option<Path>)
    | BadRedirect

  /** The file system as the checker sees it. */
  type FileSystem = Path -> Page

  /** Opening `p` in `store`: the operating system resolves ".." first; a
      redirect is resolved against the directory of `p`, as
      `file.parent().unwrap().join(url)` does. */
  function Read(store: Store, p: Path): Page {
    var n := Normalize(p);
    if n in store.files then
      var c := store.files[n];
      match MaybeRedirect(c)
      case NotRedirect => Document(c)
      case Malformed => BadRedirect
      case RedirectTo(url) => Redirect(if p == [] then None else Some(JoinRaw(Pop(p), url)))
    else if n in store.dirs then Directory
    else Missing
  }

  function View(store: Store): FileSystem {
    p => Read(store, p)
  }

  /** `Redirect`: whether redirect pages are refused (`SkipRedirect`) or
      followed, and whether the path at hand was reached through one. */
  datatype Mode = SkipRedirect | FromRedirect(followed: bool)

  /** The panics of the checker, each of which ends the whole run. */
  datatype Fatal =
    | AbsoluteLink       // a link whose joined path has a root component
    | UnreadableTarget   // a link target that exists but cannot be read
    | MalformedRedirect  // a redirect line without a closing quote
    | RootRedirect       // a redirect page at the root, which has no parent
    | RedirectLimit      // more nested redirects than the model follows
    | UnexpectedRedirect // a link target refused as a redirect page

  datatype LoadError = IOError | BrokenRedirect(target: Path) | IsRedirect | Panicked(why: Fatal)

  datatype LoadResult = Loaded(key: Key, contents: string) | Failed(err: LoadError)

  /** `load_file`: the cached text on a hit; otherwise the document is read,
      cached when it is not a redirect page, and a redirect is followed from
      the directory of the page. `fuel` bounds the number of redirects. */
  function Load(cache: Cache, fs: FileSystem, root: Path, file: Path, mode: Mode, fuel: nat): (r: (LoadResult, Cache))
    ensures r.0.Loaded? ==> r.0.key in r.1
    decreases fuel
  {
    var key := PrettyPath(root, file);
    if key in cache then (Loaded(key, cache[key].source), cache)
    else match fs(file)
      case Missing => (Failed(if mode == FromRedirect(true) then BrokenRedirect(file) else IOError), cache)
      case Directory => (Failed(IOError), cache)
      case Document(c) => (Loaded(key, c), cache[key := FileEntry(c, {})])
      case BadRedirect => (Failed(Panicked(MalformedRedirect)), cache)
      case Redirect(target) =>
        if mode == SkipRedirect then (Failed(IsRedirect), cache)
        else if target.None? then (Failed(Panicked(RootRedirect)), cache)
        else if fuel == 0 then (Failed(Panicked(RedirectLimit)), cache)
        else Load(cache, fs, root, target.value, FromRedirect(true), fuel - 1)
  }

  /** Every cached entry holds a document that is not a redirect page, with
      its text or, once checked, no text. */
  predicate CacheValid(cache: Cache, fs: FileSystem, root: Path) {
    forall k :: k in cache ==>
      var d := fs(FullPath(root, k));
      d.Document? && (cache[k].source == d.contents || cache[k].source == "")
  }

  // ---------------------------------------------------------------------
  // What `load_file` does to the cache.

  /** A hit does not look at the file system at all. */
  lemma LoadHitReadsNothing(cache: Cache, fs1: FileSystem, fs2: FileSystem, root: Path, file: Path, mode: Mode, fuel: nat)
    requires PrettyPath(root, file) in cache
    ensures Load(cache, fs1, root, file, mode, fuel) == Load(cache, fs2, root, file, mode, fuel)
    ensures Load(cache, fs1, root, file, mode, fuel).0 == Loaded(PrettyPath(root, file), cache[PrettyPath(root, file)].source)
  {
  }

  /** Entries are never changed or dropped; the only entry added is the one
      for the document returned, a non-redirect page with no ids yet. */
  lemma {:induction false} LoadGrowsCache(cache: Cache, fs: FileSystem, root: Path, file: Path, mode: Mode, fuel: nat)
    ensures var (res, after) := Load(cache, fs, root, file, mode, fuel);
      (forall k :: k in cache ==> k in after && after[k] == cache[k]) &&
      (forall k :: k in after && k !in cache ==>
         res.Loaded? && k == res.key && after[k] == FileEntry(res.contents, {}) &&
         fs(FullPath(root, k)) == Document(res.contents)) &&
      (res.Loaded? ==> res.key in after && after[res.key].source == res.contents) &&
      (res.Failed? ==> after == cache)
    decreases fuel
  {
    var key := PrettyPath(root, file);
    PrettyPathRoundTrip(root, file);
    if key !in cache && fs(file).Redirect? && mode != SkipRedirect && fs(file).target.Some? && fuel > 0 {
      LoadGrowsCache(cache, fs, root, fs(file).target.value, FromRedirect(true), fuel - 1);
    }
  }

  /** `load_file` keeps the cache faithful to the file system. */
  lemma LoadKeepsCacheValid(cache: Cache, fs: FileSystem, root: Path, file: Path, mode: Mode, fuel: nat)
    requires CacheValid(cache, fs, root)
    ensures CacheValid(Load(cache, fs, root, file, mode, fuel).1, fs, root)
  {
    LoadGrowsCache(cache, fs, root, file, mode, fuel);
  }

  /** A missing file is a broken redirect only when it was reached through a
      redirect; otherwise it is a plain I/O error. */
  lemma LoadMissing(cache: Cache, fs: FileSystem, root: Path, file: Path, mode: Mode, fuel: nat)
    requires PrettyPath(root, file) !in cache && fs(file) == Missing
    ensures Load(cache, fs, root, file, mode, fuel) ==
      (Failed(if mode == FromRedirect(true) then BrokenRedirect(file) else IOError), cache)
  {
  }

  /** A redirect page met in `SkipRedirect` mode is refused and not cached. */
  lemma LoadRefusesRedirect(cache: Cache, fs: FileSystem, root: Path, file: Path, fuel: nat)
    requires PrettyPath(root, file) !in cache
    requires fs(file).Redirect?
    ensures Load(cache, fs, root, file, SkipRedirect, fuel) == (Failed(IsRedirect), cache)
  {
  }

  /** The error kinds and the modes they come from: `IsRedirect` only when
      redirects are refused, and a broken redirect only when they are
      followed, naming a target that is missing; the only panics come from
      redirect pages. */
  lemma {:induction false} LoadErrorModes(cache: Cache, fs: FileSystem, root: Path, file: Path, mode: Mode, fuel: nat)
    ensures var res := Load(cache, fs, root, file, mode, fuel).0;
      (res == Failed(IsRedirect) ==> mode == SkipRedirect) &&
      (res.Failed? && res.err.BrokenRedirect? ==> mode != SkipRedirect && fs(res.err.target) == Missing) &&
      (res.Failed? && res.err.Panicked? ==>
         res.err.why == MalformedRedirect || res.err.why == RootRedirect || res.err.why == RedirectLimit)
    decreases fuel
  {
    var key := PrettyPath(root, file);
    if key !in cache && fs(file).Redirect? && mode != SkipRedirect && fs(file).target.Some? && fuel > 0 {
      LoadErrorModes(cache, fs, root, fs(file).target.value, FromRedirect(true), fuel - 1);
    }
  }

  /** The bound on redirects only cuts chains short: a result reached with
      some fuel is the result with any more fuel. */
  lemma {:induction false} LoadFuelMonotone(cache: Cache, fs: FileSystem, root: Path, file: Path, mode: Mode, fuel: nat, more: nat)
    requires fuel <= more
    requires Load(cache, fs, root, file, mode, fuel).0 != Failed(Panicked(RedirectLimit))
    ensures Load(cache, fs, root, file, mode, more) == Load(cache, fs, root, file, mode, fuel)
    decreases fuel
  {
    var key := PrettyPath(root, file);
    if key !in cache && fs(file).Redirect? && mode != SkipRedirect && fs(file).target.Some? {
      LoadFuelMonotone(cache, fs, root, fs(file).target.value, FromRedirect(true), fuel - 1, more - 1);
    }
  }

  /** Entries that still hold their text change nothing but speed: with them
      the answer is the one an empty cache would give. */
  predicate CacheUnreleased(cache: Cache, fs: FileSystem, root: Path) {
    forall k :: k in cache ==>
      var d := fs(FullPath(root, k));
      d.Document? && cache[k].source == d.contents
  }

  lemma {:induction false} LoadCacheTransparent(cache: Cache, fs: FileSystem, root: Path, file: Path, mode: Mode, fuel: nat)
    requires CacheUnreleased(cache, fs, root)
    ensures Load(cache, fs, root, file, mode, fuel).0 == Load(map[], fs, root, file, mode, fuel).0
    decreases fuel
  {
    var key := PrettyPath(root, file);
    PrettyPathRoundTrip(root, file);
    if key !in cache && fs(file).Redirect? && mode != SkipRedirect && fs(file).target.Some? && fuel > 0 {
      LoadCacheTransparent(cache, fs, root, fs(file).target.value, FromRedirect(true), fuel - 1);
    }
  }

  /** A redirect page is never in a valid cache, so, when redirects are
      followed, loading it is loading its target with one redirect less. */
  lemma LoadFollows(cache: Cache, fs: FileSystem, root: Path, file: Path, target: Path, mode: Mode, fuel: nat)
    requires CacheValid(cache, fs, root)
    requires fs(file) == Redirect(Some(target)) && mode != SkipRedirect && fuel > 0
    ensures Load(cache, fs, root, file, mode, fuel) == Load(cache, fs, root, target, FromRedirect(true), fuel - 1)
  {
    PrettyPathRoundTrip(root, file);
  }

  /** A redirect to a path that does not exist is a broken redirect naming
      that path, and the cache is left as it was. */
  lemma LoadBrokenRedirect(cache: Cache, fs: FileSystem, root: Path, file: Path, target: Path, mode: Mode, fuel: nat)
    requires CacheValid(cache, fs, root)
    requires fs(file) == Redirect(Some(target)) && fs(target) == Missing
    requires mode != SkipRedirect && fuel > 0
    ensures Load(cache, fs, root, file, mode, fuel) == (Failed(BrokenRedirect(target)), cache)
  {
    LoadFollows(cache, fs, root, file, target, mode, fuel);
    PrettyPathRoundTrip(root, target);
  }

  /** Two redirects in a row that end at a document load that document,
      under its own name: the cached text when it is cached, else its text. */
  lemma LoadChain(cache: Cache, fs: FileSystem, root: Path, a: Path, b: Path, c: Path, mode: Mode, fuel: nat)
    requires CacheValid(cache, fs, root)
    requires fs(a) == Redirect(Some(b)) && fs(b) == Redirect(Some(c)) && fs(c).Document?
    requires mode != SkipRedirect && fuel >= 2
    ensures Load(cache, fs, root, a, mode, fuel).0 ==
      Loaded(PrettyPath(root, c),
             if PrettyPath(root, c) in cache then cache[PrettyPath(root, c)].source else fs(c).contents)
  {
    LoadFollows(cache, fs, root, a, b, mode, fuel);
    LoadFollows(cache, fs, root, b, c, FromRedirect(true), fuel - 1);
  }

  // ---------------------------------------------------------------------
  // Anchor ids.

  /** An id value with its leading '#' characters removed. */
  function Frag(value: string): string {
    TrimStart(value, '#')
  }

  /** The fragment is what follows the leading run of '#' in the value, and
      it does not itself start with '#'. */
  lemma FragShape(value: string)
    ensures |Frag(value)| <= |value| && Frag(value) == value[|value| - |Frag(value)|..]
    ensures forall k :: 0 <= k < |value| - |Frag(value)| ==> value[k] == '#'
    ensures Frag(value) == [] || Frag(value)[0] != '#'
  {
    TrimStartShape(value, '#');
  }

  /** The ids registered for a run of `id` attributes: each fragment and its
      alias under `encode` (`parse_ids` registers `SmallUrlEncode` aliases;
      what is proved here holds for any alias). */
  function IdSet(attrs: seq<Attr>, encode: string -> string): set<string>
    decreases |attrs|
  {
    if attrs == [] then {}
    else
      var f := Frag(attrs[|attrs| - 1].value);
      IdSet(attrs[..|attrs| - 1], encode) + {f, encode(f)}
  }

  /** An id is registered exactly when some attribute has it as its fragment
      or as that fragment's alias. */
  lemma {:induction false} IdSetMembers(attrs: seq<Attr>, encode: string -> string, x: string)
    ensures x in IdSet(attrs, encode) <==>
      exists k :: 0 <= k < |attrs| && (x == Frag(attrs[k].value) || x == encode(Frag(attrs[k].value)))
    decreases |attrs|
  {
    if attrs != [] {
      var n := |attrs| - 1;
      var init := attrs[..n];
      IdSetMembers(init, encode, x);
      if x in IdSet(init, encode) {
        var k :| 0 <= k < n && (x == Frag(init[k].value) || x == encode(Frag(init[k].value)));
        assert init[k] == attrs[k];
      }
      if exists k :: 0 <= k < |attrs| && (x == Frag(attrs[k].value) || x == encode(Frag(attrs[k].value))) {
        var k :| 0 <= k < |attrs| && (x == Frag(attrs[k].value) || x == encode(Frag(attrs[k].value)));
        if k < n {
          assert init[k] == attrs[k];
        }
      }
    }
  }

  /** A defect the checker reports, with the root-relative path of the
      document it is in and its 1-based line number. */
  datatype Defect =
    | IdNotUnique(file: Key, line: nat, id: string)
    | DirectoryLink(file: Key, line: nat, target: Key)
    | BrokenRedirectLink(file: Key, line: nat, redirect: Path)
    | BrokenFragment(file: Key, line: nat, fragment: string, target: Key)
    | BrokenLink(file: Key, line: nat, target: Key)

  /** One report for every id whose fragment was already registered by an
      earlier attribute (as itself or as an encoded alias). */
  function Duplicates(file: Key, attrs: seq<Attr>, encode: string -> string): seq<Defect>
    decreases |attrs|
  {
    if attrs == [] then []
    else
      var init, a := attrs[..|attrs| - 1], attrs[|attrs| - 1];
      Duplicates(file, init, encode) + (if Frag(a.value) in IdSet(init, encode) then [IdNotUnique(file, a.line + 1, a.value)] else [])
  }

  /** One more attribute adds its fragment and alias to the ids, and a
      report when its fragment was already registered. */
  lemma RegisterOne(file: Key, attrs: seq<Attr>, a: Attr, encode: string -> string)
    ensures var f := Frag(a.value);
      IdSet(attrs + [a], encode) == IdSet(attrs, encode) + {f, encode(f)} &&
      Duplicates(file, attrs + [a], encode) == Duplicates(file, attrs, encode) +
        (if f in IdSet(attrs, encode) then [IdNotUnique(file, a.line + 1, a.value)] else [])
  {
    assert (attrs + [a])[..|attrs|] == attrs;
  }

  /** `parse_ids`: only an entry without ids is filled, from the `id`
      attributes of `contents`; the new entry and the reports. */
  function ParseIds(entry: FileEntry, file: Key, contents: string): (FileEntry, seq<Defect>) {
    if entry.ids != {} then (entry, [])
    else
      var attrs := Attrs(contents, " id");
      (entry.(ids := IdSet(attrs, SmallUrlEncode)), Duplicates(file, attrs, SmallUrlEncode))
  }

  /** Every report is for an id already registered earlier, at its line. */
  lemma {:induction false} DuplicatesSound(file: Key, attrs: seq<Attr>, encode: string -> string)
    ensures forall d :: d in Duplicates(file, attrs, encode) ==>
      exists k :: 0 <= k < |attrs| && Frag(attrs[k].value) in IdSet(attrs[..k], encode) &&
        d == IdNotUnique(file, attrs[k].line + 1, attrs[k].value)
    decreases |attrs|
  {
    if attrs != [] {
      var n := |attrs| - 1;
      var init, a := attrs[..n], attrs[n];
      DuplicatesSound(file, init, encode);
      var earlier := Duplicates(file, init, encode);
      var last := if Frag(a.value) in IdSet(init, encode) then [IdNotUnique(file, a.line + 1, a.value)] else [];
      assert Duplicates(file, attrs, encode) == earlier + last;
      forall d | d in earlier + last
        ensures exists k ::
          0 <= k < |attrs| && Frag(attrs[k].value) in IdSet(attrs[..k], encode) &&
          d == IdNotUnique(file, attrs[k].line + 1, attrs[k].value)
      {
        if d in earlier {
          var k :| 0 <= k < n && Frag(init[k].value) in IdSet(init[..k], encode) &&
            d == IdNotUnique(file, init[k].line + 1, init[k].value);
          assert attrs[k] == init[k] && attrs[..k] == init[..k];
        } else {
          assert attrs[..n] == init;
        }
      }
    }
  }

  /** The reports for the first `n` attributes are the first reports. */
  lemma {:induction false} DuplicatesPrefix(file: Key, attrs: seq<Attr>, encode: string -> string, n: nat)
    requires n <= |attrs|
    ensures Duplicates(file, attrs[..n], encode) <= Duplicates(file, attrs, encode)
    decreases |attrs|
  {
    if n == |attrs| {
      assert attrs[..n] == attrs;
    } else {
      var m := |attrs| - 1;
      assert attrs[..m][..n] == attrs[..n];
      DuplicatesPrefix(file, attrs[..m], encode, n);
    }
  }

  /** An id already registered before position `k` is reported at its line. */
  lemma DuplicateReported(file: Key, attrs: seq<Attr>, encode: string -> string, k: nat)
    requires k < |attrs| && Frag(attrs[k].value) in IdSet(attrs[..k], encode)
    ensures IdNotUnique(file, attrs[k].line + 1, attrs[k].value) in Duplicates(file, attrs, encode)
  {
    var upTo := attrs[..k + 1];
    assert upTo[..k] == attrs[..k] && upTo[k] == attrs[k];
    DuplicatesLast(file, upTo, encode);
    DuplicatesPrefix(file, attrs, encode, k + 1);
  }

  /** The last attribute, when its fragment is already registered, is
      reported last. */
  lemma DuplicatesLast(file: Key, attrs: seq<Attr>, encode: string -> string)
    requires |attrs| > 0
    requires Frag(attrs[|attrs| - 1].value) in IdSet(attrs[..|attrs| - 1], encode)
    ensures var a := attrs[|attrs| - 1];
      IdNotUnique(file, a.line + 1, a.value) in Duplicates(file, attrs, encode)
  {
  }

  /** Every id already registered earlier is reported, at its line. */
  lemma DuplicatesComplete(file: Key, attrs: seq<Attr>, encode: string -> string)
    ensures forall k :: 0 <= k < |attrs| && Frag(attrs[k].value) in IdSet(attrs[..k], encode) ==>
      IdNotUnique(file, attrs[k].line + 1, attrs[k].value) in Duplicates(file, attrs, encode)
  {
    forall k | 0 <= k < |attrs| && Frag(attrs[k].value) in IdSet(attrs[..k], encode)
      ensures IdNotUnique(file, attrs[k].line + 1, attrs[k].value) in Duplicates(file, attrs, encode)
    {
      DuplicateReported(file, attrs, encode, k);
    }
  }

  /** `parse_ids` reports nothing exactly when no id repeats an earlier one. */
  lemma NoDuplicatesNoReports(file: Key, attrs: seq<Attr>, encode: string -> string)
    ensures Duplicates(file, attrs, encode) == [] <==>
      forall k :: 0 <= k < |attrs| ==> Frag(attrs[k].value) !in IdSet(attrs[..k], encode)
  {
    DuplicatesSound(file, attrs, encode);
    DuplicatesComplete(file, attrs, encode);
    if Duplicates(file, attrs, encode) != [] {
      assert Duplicates(file, attrs, encode)[0] in Duplicates(file, attrs, encode);
    }
  }

  /** After `parse_ids` on an entry without ids, the ids are exactly the
      fragments of the `id` attributes and their encoded aliases; the text is
      untouched. */
  lemma ParseIdsRegisters(entry: FileEntry, file: Key, contents: string, x: string)
    requires entry.ids == {}
    ensures ParseIds(entry, file, contents).0.source == entry.source
    ensures var attrs := Attrs(contents, " id");
      x in ParseIds(entry, file, contents).0.ids <==>
      exists k :: 0 <= k < |attrs| && (x == Frag(attrs[k].value) || x == SmallUrlEncode(Frag(attrs[k].value)))
  {
    IdSetMembers(Attrs(contents, " id"), SmallUrlEncode, x);
  }

  /** `parse_ids` is idempotent: a second call on the same text changes
      nothing and reports nothing. */
  lemma ParseIdsIdempotent(entry: FileEntry, file: Key, contents: string)
    ensures var (once, _) := ParseIds(entry, file, contents);
      ParseIds(once, file, contents) == (once, [])
  {
    var attrs := Attrs(contents, " id");
    if entry.ids == {} && attrs != [] {
      assert Frag(attrs[|attrs| - 1].value) in IdSet(attrs, SmallUrlEncode);
    }
  }

  // ---------------------------------------------------------------------
  // The line number of a repeated id.

  /** The reports as the program prints them: the line of a repeated id is
      the 0-based index of its line, where every other report counts lines
      from 1. */
  function DuplicatesAsWritten(file: Key, attrs: seq<Attr>, encode: string -> string): seq<Defect>
    decreases |attrs|
  {
    if attrs == [] then []
    else
      var init, a := attrs[..|attrs| - 1], attrs[|attrs| - 1];
      DuplicatesAsWritten(file, init, encode) + (if Frag(a.value) in IdSet(init, encode) then [IdNotUnique(file, a.line, a.value)] else [])
  }

  /** An id repeated on the first line of a document is reported at line 0,
      a line number no other report of the checker can carry. */
  lemma IdOnFirstLineReportedAtZero(file: Key, v: string, encode: string -> string)
    ensures DuplicatesAsWritten(file, [Attr(v, 0, ""), Attr(v, 0, "")], encode) == [IdNotUnique(file, 0, v)]
    ensures Duplicates(file, [Attr(v, 0, ""), Attr(v, 0, "")], encode) == [IdNotUnique(file, 1, v)]
  {
    var first := Attr(v, 0, "");
    var attrs := [first, first];
    assert attrs[..1] == [first] && attrs[..1][..0] == [];
    assert IdSet(attrs[..1], encode) == {Frag(v), encode(Frag(v))};
    assert Duplicates(file, attrs[..1], encode) == [];
    assert DuplicatesAsWritten(file, attrs[..1], encode) == [];
  }

  /** The corrected reports carry the 1-based number of the id's line. */
  lemma {:induction false} DuplicateLinesOneBased(file: Key, attrs: seq<Attr>, encode: string -> string)
    ensures forall d :: d in Duplicates(file, attrs, encode) ==>
      d.line >= 1 && exists k :: 0 <= k < |attrs| && d.line == attrs[k].line + 1
    decreases |attrs|
  {
    if attrs != [] {
      var init := attrs[..|attrs| - 1];
      DuplicateLinesOneBased(file, init, encode);
      forall k | 0 <= k < |init| ensures init[k] == attrs[k] { }
    }
  }
}
