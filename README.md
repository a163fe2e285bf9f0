# linkchecker, modelled in Dafny

A model of the link checker that runs over the generated HTML documentation
of the Rust project (`src/tools/linkchecker/main.rs`). The checker walks the
documentation tree. For every HTML document it:

- registers the anchor ids (`id` attributes) of the document, together with
  a percent-encoded alias of each id, and reports ids that repeat;
- finds every `href` value with a small quote-aware scanner, taking
  `<base href=...>` into account;
- skips external links (`http:`, `https:`, `javascript:`, `ftp:`, `irc:`,
  `data:`);
- resolves every other link against the document's directory;
- reports missing targets, links to directories, broken soft redirects and
  fragments that name no anchor of the target.

Documents are cached by root-relative path. A cached document's text is
dropped once it has been checked; its ids are kept. Soft-redirect pages
(a fixed marker on line index 6) are followed when they are link targets.
They are never checked themselves.

The modules, one per file:

| module | file | models |
|---|---|---|
| `Text` | `text.dfy` | `str::find`, `str::lines`, `trim_left_matches`, `splitn(2, c)` |
| `UrlEncode` | `url_encode.dfy` | `small_url_encode`, and a percent-encoding reference definition it is proved equal to |
| `Attributes` | `attributes.dfy` | `with_attrs_in_source`, both as value-level functions and as the imperative scanning loops |
| `Redirects` | `redirects.dfy` | `maybe_redirect` |
| `Paths` | `paths.dfy` | href splitting, path components, the resolution loop of `check`, extensions, the allowlist and root-relative cache keys |
| `Documents` | `documents.dfy` | `FileEntry`, `Cache`, the file system as seen by the checker, `load_file` and `parse_ids` as functions |
| `Checker` | `checker.dfy` | `check` and `walk` as functions over a run state, and the `LinkChecker` class that performs them in place |

The class `Checker.LinkChecker` holds what the program threads through
`walk`: the cache, the `errors` flag and the reports. The reports are what
the program prints. Every method of the class states its new state as a
value-level function of its old state (`Snapshot() == Follow(old(Snapshot()), ...)`),
and keeps the invariant `Valid()`. That invariant says two things:

- `errors` is set exactly when something has been reported;
- every cache entry holds a document of the file system that is not a
  redirect page, with its text or, once checked, no text.

The facts about those functions are proved as lemmas. Among them: the cache
only grows, ids are never replaced once registered, and each link only
appends reports about itself or about repeated ids.

## Model

| member | source | states |
|---|---|---|
| Text.FindFrom | src/tools/linkchecker/main.rs:340 | the result is an offset at or after the start where the pattern occurs, with no occurrence before it; `None` only when there is none at all |
| Text.Find | src/tools/linkchecker/main.rs:340-341 | `str::find`: the pattern occurs at the result, and every occurrence lies at or after it |
| Text.FindQuote | src/tools/linkchecker/main.rs:356-360 | the first offset holding `"` or `'`; no quote before it; `None` exactly when the text holds no quote |
| Text.TrimStart | src/tools/linkchecker/main.rs:91 | `trim_left_matches(c)`: every leading `c` removed (definition) |
| Text.TrimStartShape | src/tools/linkchecker/main.rs:91 | `trim_left_matches` removes a leading run of the character and nothing else, and what remains does not start with it |
| Text.TrimStartAll | src/tools/linkchecker/main.rs:350 | a text made only of the trimmed character trims to nothing, so spaces alone pass the "only spaces before" tests |
| Text.MatchAtShift | src/tools/linkchecker/main.rs:340 | an occurrence in the rest of the line (`line[pos..]`) is an occurrence in the whole line, shifted by the offset |
| Text.FindAt | src/tools/linkchecker/main.rs:340 | an occurrence with none before it is the offset `find` returns |
| Text.StripCR | src/tools/linkchecker/main.rs:339 | a line ending in a carriage return is its result followed by that one carriage return; any other line is kept whole |
| Text.Lines | src/tools/linkchecker/main.rs:339 | `str::lines`: the text cut at every '\n', a final line ending optional, one trailing '\r' dropped from each line (definition) |
| Text.LinesCons | src/tools/linkchecker/main.rs:339 | `str::lines` of a line followed by "\n" and more text is that line, then the lines of the rest |
| Text.FirstAbsent | src/tools/linkchecker/main.rs:188-192 | the found offset holds the character and none occurs before it; `None` means it does not occur |
| Text.CutAt | src/tools/linkchecker/main.rs:188-192 | `splitn(2, c)`: the head holds no `c`, and head, `c` and tail put back together give the input |
| Text.CutAtFirst | src/tools/linkchecker/main.rs:188-192 | the cut is made at the first `c`: a text with no `c` before it is cut there |
| UrlEncode.SmallUrlEncode | src/tools/linkchecker/main.rs:72-85 | the reference encoding: each of the twelve escaped characters becomes its percent-encoding, every other character stays (definition) |
| UrlEncode.ReplaceAll | src/tools/linkchecker/main.rs:72-85 | the chain of `replace` calls, applied one after another to the whole text (definition) |
| UrlEncode.Replace | src/tools/linkchecker/main.rs:73 | `str::replace` with a one-character pattern: text without the character is unchanged, the character never survives when the replacement lacks it, and no character is invented |
| UrlEncode.ReplaceConcat | src/tools/linkchecker/main.rs:73 | replacing in a concatenation replaces in each part |
| UrlEncode.SmallUrlEncodeIsChain | src/tools/linkchecker/main.rs:72-85 | the twelve nested `replace` calls, in the source's order, equal the character-by-character percent-encoding `SmallUrlEncode` |
| UrlEncode.ReplaceAllEncodes | src/tools/linkchecker/main.rs:72-85 | the chain of replacements is the reference encoding for every input |
| UrlEncode.HexDigit | src/tools/linkchecker/main.rs:73-84 | each digit of the replacement texts is an upper-case hex digit |
| UrlEncode.EncodeChar | src/tools/linkchecker/main.rs:73-84 | an escaped character becomes three characters starting with '%'; every other character is kept as it is |
| UrlEncode.EncodeCharClean | src/tools/linkchecker/main.rs:73-84 | the encoding of a character holds no escaped character |
| UrlEncode.SmallUrlEncodeEscapes | src/tools/linkchecker/main.rs:72-85 | the output holds none of the twelve characters; text without them comes back unchanged; the output is never shorter |
| UrlEncode.ReplaceAllConcat | src/tools/linkchecker/main.rs:72-85 | the chain acts on each part of a concatenation independently |
| UrlEncode.ReplaceAllUntouched | src/tools/linkchecker/main.rs:72-85 | text holding none of the patterns goes through the chain unchanged |
| UrlEncode.ReplaceAllChar | src/tools/linkchecker/main.rs:72-85 | a single character goes through the chain to the replacement of the first step matching it, because no replacement reintroduces a pattern |
| UrlEncode.EscapesAreClean | src/tools/linkchecker/main.rs:73-84 | no replacement text contains a character some step replaces (so the order of the steps does not matter) |
| UrlEncode.LookupPercent | src/tools/linkchecker/main.rs:73-84 | with percent-encoding steps, a character some step replaces becomes its percent-encoding and any other stays |
| UrlEncode.EscapesArePercentEncodings | src/tools/linkchecker/main.rs:73-84 | each of the twelve replacement texts is the percent-encoding (section 2.1 of RFC 3986) of its character |
| UrlEncode.EscapesPatterns | src/tools/linkchecker/main.rs:73-84 | the twelve steps replace exactly the escaped characters |
| UrlEncode.LookupEscapes | src/tools/linkchecker/main.rs:73-84 | each character goes through the twelve steps to its reference encoding |
| UrlEncode.ReplaceAllPerChar | src/tools/linkchecker/main.rs:72-85 | a chain that rewrites each character as the reference encoding does, and reintroduces nothing, is the reference encoding |
| Attributes.LineHits | src/tools/linkchecker/main.rs:340-375 | the values the inner loop finds in one line from an offset on, in order (definition) |
| Attributes.Hits | src/tools/linkchecker/main.rs:339-376 | the values found in every line, line after line (definition) |
| Attributes.Thread | src/tools/linkchecker/main.rs:370-374 | a `<base` value replaces the base and is not passed on; any other is passed on with the base in force (definition) |
| Attributes.Attrs | src/tools/linkchecker/main.rs:337-377 | the calls `with_attrs_in_source` makes of its callback, the base starting empty (definition) |
| Attributes.QuotedFrom | src/tools/linkchecker/main.rs:354-369 | a value found after '=' starts past the '=' and ends before the end of the line |
| Attributes.ValueAfter | src/tools/linkchecker/main.rs:346-369 | a value found after the attribute name starts past the name and ends inside the line |
| Attributes.ScanTurn | src/tools/linkchecker/main.rs:340-345 | each turn of the inner loop resumes strictly past where it started (the loop terminates) |
| Attributes.QuotedValueAfter | src/tools/linkchecker/main.rs:346-369 | the '=' check, the opening-quote check and the closing-quote search of one turn compute `ValueAfter`; `None` where the loop does `continue` |
| Attributes.QuotedValueFrom | src/tools/linkchecker/main.rs:354-369 | the opening quote after only spaces, then the next copy of the same quote, as `QuotedFrom` |
| Attributes.NextAttribute | src/tools/linkchecker/main.rs:340-369 | the head of one turn: no further occurrence exactly when the turn is exhausted, otherwise the resume offset, the `<base` test and the value of `ScanTurn` |
| Attributes.ScanLine | src/tools/linkchecker/main.rs:340-375 | the inner loop over one line makes exactly the callback calls of `Thread` over that line's hits and leaves the base that `BaseAfter` gives |
| Attributes.ThreadStep | src/tools/linkchecker/main.rs:370-374 | one more value: a `<base` value replaces the base, any other is reported with the base in force, and the base left afterwards follows |
| Attributes.WithAttrsInSource | src/tools/linkchecker/main.rs:337-377 | the whole scan makes exactly the calls `Attrs(contents, attr)`, in order |
| Attributes.ThreadAppend | src/tools/linkchecker/main.rs:338-374 | the calls for one line and then for the following lines, the base carried across |
| Attributes.ThreadConcat | src/tools/linkchecker/main.rs:338-374 | the base carries over from one line to the next: threading two runs of hits is threading the first, then the second from the base it left |
| Attributes.ThreadCons | src/tools/linkchecker/main.rs:370-374 | a `<base` hit sets the base and is not reported; any other hit is reported with the base in force |
| Attributes.QuotedFromIsQuoted | src/tools/linkchecker/main.rs:354-369 | a found value stands between two equal quotes and holds no copy of that quote |
| Attributes.ValueAfterIsQuoted | src/tools/linkchecker/main.rs:346-369 | the same for the value after an attribute name |
| Attributes.ScanTurnQuoted | src/tools/linkchecker/main.rs:340-369 | a value found in a turn carries the line's index and stands quoted in that line |
| Attributes.LineHitsQuoted | src/tools/linkchecker/main.rs:340-375 | every value found in a line carries that line's index and stands quoted in it |
| Attributes.HitsFromQuoted | src/tools/linkchecker/main.rs:339-376 | every value found names the 0-based index of its own line and stands quoted there, and values come line by line in order |
| Attributes.ThreadReportsEachHit | src/tools/linkchecker/main.rs:338-374 | there is one call per hit outside a `<base` tag, and each such hit is reported, in order, with the base set by the last `<base` hit before it |
| Attributes.ThreadLength | src/tools/linkchecker/main.rs:370-374 | the number of calls is the number of hits outside `<base` tags |
| Attributes.ThreadOrigin | src/tools/linkchecker/main.rs:370-374 | every call comes from a hit outside a `<base` tag, with its value, its line and the base in force there |
| Attributes.BaseAfterHits | src/tools/linkchecker/main.rs:338-372 | without a `<base` hit the base stays the initial one (empty); after one it is that hit's value |
| Attributes.AttrsAreQuotedValues | src/tools/linkchecker/main.rs:337-377 | every call carries a line index of the document and a value that stands between two equal quotes on that line |
| Attributes.ClosingQuote | src/tools/linkchecker/main.rs:365-369 | the closing-quote search stops at the first copy of the opening quote, just after a value that holds none |
| Attributes.QuotedFromFinds | src/tools/linkchecker/main.rs:354-369 | after only spaces, an opening quote, a value without that quote and the quote again: exactly that value is found, at its offset |
| Attributes.AfterSpaces | src/tools/linkchecker/main.rs:346-352 | a character after only spaces is the first one found, and what precedes it trims away |
| Attributes.ValueAfterEquals | src/tools/linkchecker/main.rs:346-354 | with the first '=' after only spaces, the value is looked for just past the '=' |
| Attributes.ValueAfterFinds | src/tools/linkchecker/main.rs:346-369 | after an attribute name, spaces, '=', spaces and a quoted value: that value, between its quotes, is found |
| Attributes.FindFrom | src/tools/linkchecker/main.rs:340 | the first occurrence at or after the resume offset is what `line[pos..].find(attr)` returns, relative to the offset |
| Attributes.ScanTurnAt | src/tools/linkchecker/main.rs:340-345 | a turn finds the first name at or after its start, resumes just past it and makes the `<base` test on the text before it |
| Attributes.NoMatchSameLength | src/tools/linkchecker/main.rs:340-343 | a text as long as the name that starts differently holds no occurrence of it, so the loop ends |
| Attributes.TurnAtFinds | src/tools/linkchecker/main.rs:346-374 | a name followed by a quoted assignment yields a hit with that value, the line index, the column after the opening quote and the `<base` test |
| Attributes.LineHitsFindsFirst | src/tools/linkchecker/main.rs:340-375 | completeness of the inner loop: the first well-formed assignment after the first occurrence of the name is the first value found, with its value, line, column, quote and `<base` test |
| Attributes.AttrsFindsFirst | src/tools/linkchecker/main.rs:337-377 | lifted to the document: such an assignment on the first line, outside a `<base` tag, is the first callback call, with line index 0 and the empty base |
| Attributes.OneLinkLines | src/tools/linkchecker/main.rs:339 | the text `<a href="u">` is one line |
| Attributes.OneLinkFirstTurn | src/tools/linkchecker/main.rs:340-369 | in `<a href="u">` the first turn finds " href" at offset 2 and the value "u" at column 9 |
| Attributes.OneLinkLastTurn | src/tools/linkchecker/main.rs:340-343 | after it no further " href" is found, so the line is done |
| Attributes.OneLinkDocument | src/tools/linkchecker/main.rs:337-377 | the document `<a href="u">` makes exactly one callback call, with "u", line index 0 and the empty base |
| Redirects.RedirectLine | src/tools/linkchecker/main.rs:330-334 | the one line inspected: no marker is no redirect; otherwise the URL runs from one character past the first marker to the next '"', and the panics become `Malformed` (definition) |
| Redirects.MaybeRedirect | src/tools/linkchecker/main.rs:321-335 | only the line at index 6 is inspected; fewer lines is no redirect (definition) |
| Redirects.RedirectLineShape | src/tools/linkchecker/main.rs:330-334 | a line is no redirect exactly when it lacks the marker; an extracted URL holds no '"' and stands right after the first marker and one more character, closed by '"' |
| Redirects.UpToQuote | src/tools/linkchecker/main.rs:331-333 | the text from an offset up to the first '"' after it holds no '"', and the '"' follows it |
| Redirects.RedirectLineMalformed | src/tools/linkchecker/main.rs:330-334 | the scan panics exactly when the first marker is present and the line ends before the character after it, or no '"' follows that point |
| Redirects.MaybeRedirectShape | src/tools/linkchecker/main.rs:324-328 | text with fewer than seven lines is never a redirect; an extracted URL holds no '"' |
| Redirects.OnlyLineSixMatters | src/tools/linkchecker/main.rs:324-334 | two documents with the same line at index 6 get the same verdict |
| Redirects.JoinLinesSplits | src/tools/linkchecker/main.rs:324 | lines joined with '\n' are split back into the same lines |
| Redirects.MarkerLine | src/tools/linkchecker/main.rs:330-334 | a marker line written with a quoted URL is read back as a redirect to that URL |
| Redirects.RedirectPageRoundTrip | src/tools/linkchecker/main.rs:321-335 | round trip: a page with six header lines and then the marker line pointing at a URL is recognised as a redirect to exactly that URL |
| Paths.Segments | src/tools/linkchecker/main.rs:199 | the parts of a path are non-empty and hold no '/'; a text without '/' is its own single part (none when empty) |
| Paths.SegmentsConcat | src/tools/linkchecker/main.rs:199 | the parts on the two sides of a '/' are the parts of each side, so repeated '/' separate like one |
| Paths.Components | src/tools/linkchecker/main.rs:199 | `Path::components` of a '/'-separated path: the root component for a leading '/', then one component per part (definition) |
| Paths.Joined | src/tools/linkchecker/main.rs:199 | `Path::new(base).join(url).components()`: an absolute link replaces the base, an empty base adds nothing (definition) |
| Paths.Fold | src/tools/linkchecker/main.rs:199-207 | the loop over the components: `..` pops, a normal part pushes, `.` does nothing, the root is the panic (definition) |
| Paths.Resolve | src/tools/linkchecker/main.rs:196-208 | the file itself when base and link are empty, otherwise the fold onto the file's directory (definition) |
| Paths.ComponentsOf | src/tools/linkchecker/main.rs:199 | one component per segment, in order |
| Paths.Pop | src/tools/linkchecker/main.rs:198 | `PathBuf::pop` drops the last component, and the root stays the root |
| Paths.ResolveTarget | src/tools/linkchecker/main.rs:196-208 | the resolution loop over the joined components computes `Resolve`: the file itself for an empty link, otherwise the fold onto the file's directory; `None` is the panic on a root component |
| Paths.FoldAppend | src/tools/linkchecker/main.rs:199-207 | folding a concatenation folds the second part onto the result of the first |
| Paths.FoldFailsOnRoot | src/tools/linkchecker/main.rs:201-202 | the loop panics exactly when a root component occurs |
| Paths.FoldPushes | src/tools/linkchecker/main.rs:205 | without `.` and `..` the loop just appends the segments |
| Paths.PushThenPop | src/tools/linkchecker/main.rs:204-205 | `x/..` cancels out |
| Paths.FoldKeepsPlain | src/tools/linkchecker/main.rs:199-207 | folding onto a plain path yields a plain path (no `.`, `..` or empty component) |
| Paths.ResolveEmptyIsSelf | src/tools/linkchecker/main.rs:196-197 | a link such as `#frag` under an empty base names the linking file |
| Paths.ComponentsRoot | src/tools/linkchecker/main.rs:199-202 | a root component occurs exactly for a path starting with '/' |
| Paths.ResolveFailsOnAbsolute | src/tools/linkchecker/main.rs:197-202 | resolution panics exactly when the link or the base in use is absolute |
| Paths.ResolveRelative | src/tools/linkchecker/main.rs:196-208 | a relative link without `.` and `..` names its segments below the directory of the linking file |
| Paths.ResolveIsPlain | src/tools/linkchecker/main.rs:196-208 | a resolved target is a plain path |
| Paths.JoinedRelative | src/tools/linkchecker/main.rs:199 | with no base, the joined components are those of the link |
| Paths.JoinedBoth | src/tools/linkchecker/main.rs:199 | with a relative base and link, the joined components are the base's then the link's |
| Paths.ComponentsOfConcat | src/tools/linkchecker/main.rs:199 | the components of a concatenation are those of each part |
| Paths.IsExternal | src/tools/linkchecker/main.rs:183-186 | the six schemes of links that are not checked (definition) |
| Paths.SplitHref | src/tools/linkchecker/main.rs:188-192 | the path part holds no '#' and no '?'; there is no fragment only when the href holds no '#' |
| Paths.SplitHrefRoundTrip | src/tools/linkchecker/main.rs:188-192 | path part, query (empty or starting with '?') and '#'-fragment put back together give the href |
| Paths.SplitHrefFragment | src/tools/linkchecker/main.rs:188-190 | appending a fragment to a link without one changes only the fragment part |
| Paths.PrefixIgnoresFragment | src/tools/linkchecker/main.rs:183-186 | a prefix without '#' is unaffected by an appended fragment |
| Paths.ExternalIgnoresFragment | src/tools/linkchecker/main.rs:183-186 | whether a link is external does not depend on its fragment |
| Paths.IsLineFragment | src/tools/linkchecker/main.rs:250-251 | the parts around the first '-' are made of digits only (definition) |
| Paths.LineFragmentShape | src/tools/linkchecker/main.rs:250-251 | the fragments exempt from the anchor check are exactly those made of digits with at most one '-' |
| Paths.FindLast | src/tools/linkchecker/main.rs:224 | the last occurrence of a character, with none after it; `None` when absent |
| Paths.Extension | src/tools/linkchecker/main.rs:224 | an extension is what follows the last '.' of the name, holds no '.', and the name is longer than it plus its dot; there is none exactly when no '.' stands after the first character |
| Paths.PathExtension | src/tools/linkchecker/main.rs:224 | the extension of the last component; the root has none (definition) |
| Paths.IsHtml | src/tools/linkchecker/main.rs:128 | a document is HTML exactly when its extension is "html" (definition) |
| Paths.Allowlisted | src/tools/linkchecker/main.rs:135-167 | the path ends, component by component, with one of the 22 listed pages (definition) |
| Paths.PathEndsWith | src/tools/linkchecker/main.rs:135-165 | `Path::ends_with`: the path ends with the suffix compared component by component, never in the middle of a name (definition) |
| Paths.PrettyPath | src/tools/linkchecker/main.rs:282 | the key is root-relative exactly when the root is a prefix of the path |
| Paths.PrettyPathRoundTrip | src/tools/linkchecker/main.rs:282 | the full path is recovered from its key |
| Paths.PrettyPathInjective | src/tools/linkchecker/main.rs:282-284 | two different files never share a cache entry |
| Paths.FullPath | src/tools/linkchecker/main.rs:282 | the inverse of `strip_prefix(root)`: a relative key gives the root followed by the key's components, an absolute one the path itself |
| Paths.JoinRaw | src/tools/linkchecker/main.rs:313 | `file.parent().join(url)`: an absolute URL replaces the directory; `.` segments vanish and `..` stay (definition) |
| Paths.Unhidden | src/tools/linkchecker/main.rs:313 | joining keeps only segments of the input other than `.`, and a path without `.` segments whole |
| Paths.UnhiddenConcat | src/tools/linkchecker/main.rs:313 | the filter works segment by segment: on a concatenation it filters each part, keeping the order |
| Paths.NormalizeTotal | src/tools/linkchecker/main.rs:290 | every raw path, with `..` in it or not, names some path once resolved |
| Paths.Normalize | src/tools/linkchecker/main.rs:290 | what the operating system makes of a raw path: `..` steps up, staying at the root (definition) |
| Paths.NormalizePlain | src/tools/linkchecker/main.rs:290 | a plain path resolves to itself |
| Documents.Read | src/tools/linkchecker/main.rs:290-299 | opening a path: a missing file, a directory, a document, or a redirect resolved against the page's directory (definition) |
| Documents.CacheValid | src/tools/linkchecker/main.rs:65-70 | every cache entry holds a document of the file system that is not a redirect page, with its text or, once checked, no text (definition) |
| Documents.Load | src/tools/linkchecker/main.rs:276-319 | a loaded document is in the cache afterwards |
| Documents.LoadHitReadsNothing | src/tools/linkchecker/main.rs:284-288 | a cache hit returns the cached text and does not look at the file system |
| Documents.LoadGrowsCache | src/tools/linkchecker/main.rs:284-312 | entries are never changed or dropped; the only new entry is the returned document's (not a redirect page, no ids yet); a failure leaves the cache as it was |
| Documents.LoadKeepsCacheValid | src/tools/linkchecker/main.rs:276-319 | loading keeps every entry faithful to the file system |
| Documents.LoadMissing | src/tools/linkchecker/main.rs:290-296 | a missing file is a broken redirect only when reached through a redirect, otherwise an I/O error |
| Documents.LoadRefusesRedirect | src/tools/linkchecker/main.rs:299-303 | in `SkipRedirect` mode a redirect page is refused and nothing is cached |
| Documents.LoadErrorModes | src/tools/linkchecker/main.rs:276-319 | `IsRedirect` comes only from `SkipRedirect`; a broken redirect only from following, naming a missing target; panics only from redirect pages |
| Documents.LoadFuelMonotone | src/tools/linkchecker/main.rs:313-316 | the redirect bound only cuts chains short: any result other than hitting it is the same with more fuel |
| Documents.LoadCacheTransparent | src/tools/linkchecker/main.rs:284-288 | with every entry still holding its text, the answer is the one an empty cache gives |
| Documents.LoadFollows | src/tools/linkchecker/main.rs:313-316 | a redirect page is never cached, so a load that follows redirects goes on at its target with one redirect less |
| Documents.LoadBrokenRedirect | src/tools/linkchecker/main.rs:290-296 | a redirect to a missing path fails as a broken redirect naming that path, and the cache is unchanged |
| Documents.LoadChain | src/tools/linkchecker/main.rs:313-317 | two redirects in a row that end at a document load that document under its own name |
| Documents.IdSet | src/tools/linkchecker/main.rs:90-98 | the ids registered for a run of `id` attributes: each '#'-trimmed fragment and its alias (definition) |
| Documents.Duplicates | src/tools/linkchecker/main.rs:93-96 | one report per attribute whose fragment was already registered, at its 1-based line (definition, corrected line) |
| Documents.ParseIds | src/tools/linkchecker/main.rs:88-101 | only an entry without ids is filled, from the `id` attributes of the text (definition) |
| Documents.Frag | src/tools/linkchecker/main.rs:91 | `trim_left_matches("#")` on an id value (definition) |
| Documents.FragShape | src/tools/linkchecker/main.rs:91 | the fragment is what follows the leading run of '#' in the id value, and does not itself start with '#' |
| Documents.IdSetMembers | src/tools/linkchecker/main.rs:90-98 | an id is registered exactly when some `id` attribute has it as its '#'-trimmed fragment or as that fragment's alias |
| Documents.RegisterOne | src/tools/linkchecker/main.rs:90-98 | one more attribute adds its fragment and alias, and one report exactly when its fragment was already registered |
| Documents.DuplicatesSound | src/tools/linkchecker/main.rs:93-96 | every report is for an attribute whose fragment was registered earlier, at that attribute's line |
| Documents.DuplicatesPrefix | src/tools/linkchecker/main.rs:93-96 | the reports for the first attributes are the first reports |
| Documents.DuplicatesLast | src/tools/linkchecker/main.rs:93-96 | the last attribute, when its fragment is already registered, is reported |
| Documents.DuplicateReported | src/tools/linkchecker/main.rs:93-96 | an attribute whose fragment was registered earlier is reported |
| Documents.DuplicatesComplete | src/tools/linkchecker/main.rs:93-96 | every such attribute is reported, at its 1-based line |
| Documents.NoDuplicatesNoReports | src/tools/linkchecker/main.rs:88-101 | `parse_ids` reports nothing exactly when no fragment repeats an earlier id or alias |
| Documents.ParseIdsRegisters | src/tools/linkchecker/main.rs:88-101 | on an entry without ids, the new ids are exactly the fragments and their encoded aliases, and the text is untouched |
| Documents.ParseIdsIdempotent | src/tools/linkchecker/main.rs:89 | a second `parse_ids` on the same text changes nothing and reports nothing |
| Documents.DuplicatesAsWritten | src/tools/linkchecker/main.rs:95 | the reports as the program prints them, with the 0-based line index (definition) |
| Documents.IdOnFirstLineReportedAtZero | src/tools/linkchecker/main.rs:95 | as written, an id repeated on the first line is reported at line 0; the corrected report says line 1 |
| Documents.DuplicateLinesOneBased | src/tools/linkchecker/main.rs:95 | every corrected report carries a line number of at least 1, the 1-based number of an attribute's line |
| Checker.FragmentCheck | src/tools/linkchecker/main.rs:247-264 | the target's ids are parsed once, and a fragment none of them names is reported (definition) |
| Checker.Report | src/tools/linkchecker/main.rs:216-221 | `*errors = true` and a printed line: one defect added to the report (definition) |
| Checker.ReportAppends | src/tools/linkchecker/main.rs:216-221 | the defect is appended after the earlier reports, so the report is non-empty (`errors` set); the cache and status are unchanged |
| Checker.Landed | src/tools/linkchecker/main.rs:230-265 | what a loaded target leads to: panics for unreadable targets, a report for a broken redirect, the fragment check otherwise (definition) |
| Checker.FollowTo | src/tools/linkchecker/main.rs:210-271 | a missing target or a directory is reported; an HTML target or one without extension is loaded, following redirects (definition) |
| Checker.Follow | src/tools/linkchecker/main.rs:181-208 | one `href`: external links are skipped, others cut at '#' and '?' and resolved against the file and base (definition) |
| Checker.FollowAll | src/tools/linkchecker/main.rs:181 | the links of a document, in order (definition) |
| Checker.CheckFile | src/tools/linkchecker/main.rs:122-178 | `check`: skipped documents, the document's ids, then its links (definition) |
| Checker.Visit | src/tools/linkchecker/main.rs:110-117 | one file of the walk; its text is dropped once checked (definition) |
| Checker.Walked | src/tools/linkchecker/main.rs:104-120 | `walk` over a tree in listing order (definition) |
| Checker.WalkedAll | src/tools/linkchecker/main.rs:105-119 | the entries of one directory in listing order (definition) |
| Checker.ParseIdsGrows | src/tools/linkchecker/main.rs:89 | `parse_ids` keeps the text and never replaces ids already registered |
| Checker.FragmentCheckGrows | src/tools/linkchecker/main.rs:255-258 | checking a fragment keeps the cache growing and faithful |
| Checker.LandedGrows | src/tools/linkchecker/main.rs:230-265 | so does everything that follows loading a link target |
| Checker.GrowsTrans | src/tools/linkchecker/main.rs:104-120 | growth of the cache composes across steps |
| Checker.FollowToGrows | src/tools/linkchecker/main.rs:210-271 | checking a resolved target keeps the cache growing and faithful |
| Checker.FollowGrows | src/tools/linkchecker/main.rs:181-272 | so does checking one link |
| Checker.FollowAllGrows | src/tools/linkchecker/main.rs:181-272 | so do all the links of a document |
| Checker.CheckFileGrows | src/tools/linkchecker/main.rs:122-274 | `check` keeps the cache growing and faithful, and a checked document is in the cache afterwards |
| Checker.CheckFileKeepsKey | src/tools/linkchecker/main.rs:111-113 | the `unwrap` in `walk` on the returned key always succeeds |
| Checker.FollowTargets | src/tools/linkchecker/main.rs:188-212 | a followed link is cut at '#', resolved against the file and base, and its target checked at the link's 1-based line |
| Checker.FollowAbsolute | src/tools/linkchecker/main.rs:199-202 | a link whose joined path has a root component ends the run |
| Checker.FollowToTargets | src/tools/linkchecker/main.rs:212-229 | a missing target is reported as a broken link and a directory as a directory link, at the link's line with the root-relative target; a non-HTML extension is ignored |
| Checker.FollowExternal | src/tools/linkchecker/main.rs:182-187 | an external link changes nothing |
| Checker.FollowToLineFragment | src/tools/linkchecker/main.rs:247-253 | a line-number fragment is treated as no fragment |
| Checker.FollowLineFragment | src/tools/linkchecker/main.rs:188-253 | a link with a line-number fragment is followed exactly as its target without a fragment |
| Checker.FollowToNoUnexpectedRedirect | src/tools/linkchecker/main.rs:230-244 | a link target never fails as a refused redirect |
| Checker.FollowNoUnexpectedRedirect | src/tools/linkchecker/main.rs:244 | the `unreachable!()` arm is never reached |
| Checker.LandedFragment | src/tools/linkchecker/main.rs:247-264 | on a loaded target with a fragment that is not a line number, the ids are parsed, its repeated ids reported, and the link reported broken exactly when the fragment is not among the ids |
| Checker.LandedOnFreshTarget | src/tools/linkchecker/main.rs:247-264 | on a target whose ids are not parsed yet, the link is reported broken exactly when no `id` attribute has the fragment as its fragment or encoded alias |
| Checker.FollowToBrokenRedirect | src/tools/linkchecker/main.rs:230-243 | a link to a redirect page whose target is missing is reported as a broken redirect naming that target, not as a broken link |
| Checker.DuplicatesAreIds | src/tools/linkchecker/main.rs:256 | every report of `parse_ids` is about a repeated id |
| Checker.AppendAddsOnly | src/tools/linkchecker/main.rs:210-271 | repeated-id reports, then reports about the link itself, are the only additions |
| Checker.FragmentCheckAddsOnly | src/tools/linkchecker/main.rs:255-264 | a fragment check appends repeated-id reports and at most a broken-fragment report for the link |
| Checker.LandedAddsOnly | src/tools/linkchecker/main.rs:230-265 | a loaded target adds only reports about the link or repeated ids |
| Checker.FollowToAddsOnly | src/tools/linkchecker/main.rs:210-271 | a resolved target adds only reports about the link (its document, its line) or repeated ids |
| Checker.FollowAddsOnly | src/tools/linkchecker/main.rs:181-272 | one link only appends reports, all about that link or repeated ids |
| Checker.FollowAllAborted | src/tools/linkchecker/main.rs:202 | after a panic, no later link changes anything |
| Checker.CheckFileSkips | src/tools/linkchecker/main.rs:127-167 | non-HTML and allowlisted documents are not checked and change nothing |
| Checker.CheckFileSkipsRedirect | src/tools/linkchecker/main.rs:169-173 | a redirect page is not checked and nothing is cached for it |
| Checker.VisitDropsText | src/tools/linkchecker/main.rs:111-117 | once a document is checked, its text is dropped from the cache and its ids kept |
| Checker.WalkedGrows | src/tools/linkchecker/main.rs:104-120 | the walk only adds to the cache and to the reports, never replaces registered ids, and keeps the cache faithful |
| Checker.WalkedAllGrows | src/tools/linkchecker/main.rs:105-119 | the same over the entries of a directory |
| Checker.VisitGrows | src/tools/linkchecker/main.rs:108-118 | the same for one file |
| Checker.CheckFileReports | src/tools/linkchecker/main.rs:122-274 | `check` only appends reports |
| Checker.FollowAllReports | src/tools/linkchecker/main.rs:181-272 | the links of a document only append reports |
| Checker.RegisterIds | src/tools/linkchecker/main.rs:90-99 | the callback of `parse_ids`, run over all `id` attributes, registers exactly the ids of `IdSet` and makes exactly the reports of `Duplicates` |
| Checker.LinkChecker.constructor | src/tools/linkchecker/main.rs:46-47 | a run starts with an empty cache, no reports and `errors` unset |
| Checker.LinkChecker.LoadFile | src/tools/linkchecker/main.rs:276-319 | `load_file` in place: result and new cache are those of `Load`, reports and status untouched |
| Checker.LinkChecker.ParseIdsOf | src/tools/linkchecker/main.rs:88-101 | `parse_ids` in place: the entry and the reports are those of `ParseIds` (with the corrected 1-based line), and `errors` is set with the reports |
| Checker.LinkChecker.CheckLink | src/tools/linkchecker/main.rs:181-272 | the closure for one `href`: the new state is `Follow` of the old |
| Checker.LinkChecker.CheckTarget | src/tools/linkchecker/main.rs:210-271 | a resolved target: the new state is `FollowTo` of the old |
| Checker.LinkChecker.LandOn | src/tools/linkchecker/main.rs:230-265 | a loaded target: the new state is `Landed` of the old |
| Checker.LinkChecker.Check | src/tools/linkchecker/main.rs:122-274 | `check`: new state and returned key are those of `CheckFile` |
| Checker.LinkChecker.CheckLinks | src/tools/linkchecker/main.rs:181-272 | the links of a document, in order: the new state is `FollowAll` of the old |
| Checker.LinkChecker.VisitFile | src/tools/linkchecker/main.rs:110-117 | one file of the walk: the new state is `Visit` of the old |
| Checker.LinkChecker.Walk | src/tools/linkchecker/main.rs:104-120 | `walk`: the new state is `Walked` of the old, and `Valid()` holds throughout |

Where the code and its written description differ, the model follows the
code:

- Line-number fragments. The code exempts any fragment whose parts around
  the first '-' are all digits, so "", "-", "1-" and "-2" are exempt too.
  This is wider than "digits, optionally a dash and digits"
  (`Paths.LineFragmentShape`).
- The redirect marker. The code searches for `<p>Redirecting to <a href=`.
  It then skips one character, whatever it is, and takes the URL up to the
  next '"'.
- Repeated ids. A fragment counts as repeated when it was registered before
  in either form, as a fragment or as an encoded alias. The check is made
  after the leading '#' characters are trimmed.

The one place where the model departs from the code on purpose is the line
number of a repeated id: the code prints the 0-based line index there, and
the model reports the 1-based line, as every other report does (see
"Findings"; the reports as written are `Documents.DuplicatesAsWritten`).

## Left out

- The file system is a function from paths to what opening them finds
  (`Documents.FileSystem`). `Documents.Store` and `Documents.Read` build one
  from a map of documents. Symbolic links, permissions and read errors of
  existing files are not modelled.
- `Documents.Read`: `..` in a joined redirect path is resolved lexically
  (`Paths.Normalize`), not by the operating system.
- `main`: command-line arguments, the current directory, and the final
  panic when `errors` is set. `Checker.LinkChecker.Valid` states that
  `errors` is set exactly when something was reported.
- Output: each `println!` becomes a `Documents.Defect` record appended to
  the run's reports. The message text is not modelled.
- Panics become `Checker.Status.Aborted` with a `Documents.Fatal` reason.
  The run then stops changing. This covers:
  - an absolute link;
  - an unreadable link target;
  - a malformed redirect line;
  - a redirect page at the root;
  - the `unreachable!()` arm.
- `Documents.Load`: the recursion over redirects is bounded by `fuel`.
  Running out is the fatal `RedirectLimit`, where the program would recurse
  without end on a redirect cycle. `Documents.LoadFuelMonotone` shows that
  the bound only cuts chains short.
- `walk`: the order of `read_dir` is the order of a given `Checker.Tree`.
  The `t!` panics on directory-listing errors are not modelled.
- Characters stand for bytes. Slicing inside a multi-byte UTF-8 character
  (a panic in Rust) is not modelled.
- `Paths.IsDigit`: checks ASCII digits only. `char::is_numeric` also
  accepts other Unicode numerals.
- `Path::components`: the Windows `Prefix` component is not modelled.
  A "." segment anywhere becomes `CurDir`; the library keeps only a leading
  one. The resolution loop skips `CurDir`, so the difference never shows.
- `Checker.RegisterIds`: the alias function is a parameter; the checker
  passes `UrlEncode.SmallUrlEncode`.
- Documents.Duplicates: reports a repeated id at its 1-based line, where
  `src/tools/linkchecker/main.rs:95` prints the 0-based index (see "Findings").
- Documents.ParseIds: the same corrected line number, through
  `Documents.Duplicates`.
- Checker.RegisterIds: the same corrected line number.
- Checker.LinkChecker.ParseIdsOf: the same corrected line number.
- The callback of `with_attrs_in_source` is modelled as the returned
  sequence of the calls it receives (`Attributes.Attr`). The closures of
  `parse_ids` and `check` run over that sequence afterwards. Since neither
  closure affects the scan, the order of effects is the same.

## Findings

| source | as written | input that shows it | evidently intended | confidence | as-written member | corrected member |
|---|---|---|---|---|---|---|
| src/tools/linkchecker/main.rs:95 | the "id is not unique" report prints the 0-based line index `i`; every other report prints `i + 1` | a document whose first line holds `id="a"` twice is reported at line 0 | the 1-based line number, as in the other reports | high (not executed) | Documents.IdOnFirstLineReportedAtZero | Documents.DuplicateLinesOneBased |
