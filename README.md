# subhistory, modelled in Dafny

`subhistory` is a one-file Rust tool (`src/main.rs`). It answers one question: for each
time the host repository (Rust) bumped its `src/tools/rls` submodule, which was the most
recent release of the host tagged before the bump, and which dependent-project (RLS)
commits in the bumped range are no longer on the dependent project's `upstream/master`.

It works in four steps:

1. It reads git's submodule log as pairs of lines: a host commit hash, then a status line
   `Submodule src/tools/rls <old>...<new>:`. From each pair it parses a *bump*: the host
   commit and the dependent range.
2. It reads the host's tags as `date|name` lines.
3. For each bump it takes the first word of the host commit's details (its date). It finds
   the release by binary search over the tag dates.
4. It groups the bumps by release in a `BTreeMap` keyed by release name. It prints the map
   as a summary in descending byte order of release name, not by age: with names such as
   `1.9.0` and `1.10.0`, `1.9.0` comes first, and `"None"` (the bumps dated at or before
   the first tag) comes before both. It then prints the map again, reduced to the releases that
   contain an orphaned dependent commit.

The model keeps the logic between the external commands. The commands themselves become
inputs.

- `wrappers.dfy`: `Option`, `Result`, and `Collect.MapAll`, an all-or-nothing `map` that
  stops at the first error. This is how `unwrap` inside an iterator chain behaves.
- `text.dfy`: the Rust string operations the tool relies on.
  - Strings are sequences of Unicode scalar values, with byte offsets computed from their
    UTF-8 widths.
  - It covers `trim` (Unicode White_Space), slicing at a byte offset, `find`, first and
    last occurrence, `ends_with`, and the first word of `split_whitespace`.
  - It defines byte-wise `Ord` on `str` (`Cmp`, `LexLess`). It proves this order equal to
    a first-difference definition, and proves it a strict total order.
- `bumps.dfy`: the record parser inside `read_from_stdin`'s `from_fn` closure.
  - The parser is `Bumps.ParseRecord`.
  - `Bumps.BumpReader` is the state of the reader the closure shares. `Next` consumes two
    lines per call.
- `releases.dfy`: tag-line parsing, Rust's `binary_search_by_key` as a loop, and the
  `idx - 1` release lookup.
- `report.dfy`: the `BTreeMap` and `entry().or_default().push()`, the reduced filter,
  `ancestor_char` and `Summary::fmt`.
  - The map is its in-order contents: a sequence of `(release, entries)` groups with
    strictly ascending keys.
- `pipeline.dfy`: `main`.
  - `Pipeline.Output` is the reference definition of what it prints, or the panic that
    stops it.
  - `Pipeline.Run` is the imperative driver, proved equal to it. It uses the reader, the
    binary search and the line-by-line renderer.

Every panic in the modelled code becomes an error value: `ParseError`, `TagError`,
`Failure` and `Overflow`.

## Model

| member | source | states |
|---|---|---|
| `Collect.MapAllEach` | src/main.rs:45-70 | collecting an iterator of results succeeds iff every element does, with one value per element in order; otherwise the error is that of the first failing element |
| `Text.SkipWhitespace` | src/main.rs:51-52 | scanning forward skips only whitespace and stops at the first non-whitespace character or the end |
| `Text.SkipWhitespaceBack` | src/main.rs:51-52 | scanning backward skips only whitespace and stops just after the last non-whitespace character or at the lower bound |
| `Text.Trim` | src/main.rs:51-52 | the trimmed text is no longer than the input and starts and ends with non-whitespace, or is empty |
| `Text.TrimIsSlice` | src/main.rs:51-52 | `trim` returns the substring left after removing whitespace from both ends: what lies before and after it is all whitespace, and it is empty iff the input is all whitespace |
| `Text.TrimPadded` | src/main.rs:51-52 | trimming text with whitespace at both ends returns exactly the text between them |
| `Text.TrimLine` | src/main.rs:51 | a line read with its terminator trims back to the line |
| `Text.Utf8Width` | src/main.rs:52 | a character's UTF-8 encoding takes 1 to 4 bytes, and 1 exactly for ASCII |
| `Text.DropBytes` | src/main.rs:52 | a successful slice from byte `n` yields the suffix that follows exactly `n` bytes |
| `Text.DropBytesFails` | src/main.rs:52 | slicing from byte `n` panics iff no prefix of the text is `n` bytes long: `n` is past the end or inside a character |
| `Text.NoPrefixOfLength` | src/main.rs:52 | where slicing from byte `n` panics, no prefix of the text is `n` bytes long |
| `Text.DropAsciiPrefix` | src/main.rs:52 | cutting the byte length of an ASCII prefix leaves exactly the text after the prefix |
| `Text.IndexOf` | src/main.rs:63-66 | the first occurrence of a character: it is there and does not occur earlier; none iff it does not occur |
| `Text.LastIndexOf` | src/main.rs:63-66 | the last occurrence of a character: it is there and does not occur later; none iff it does not occur |
| `Text.Cmp` | src/main.rs:200 | comparing two strings gives `Equal` iff they are equal |
| `Text.LexLessIsFirstDifference` | src/main.rs:200 | `str` less-than holds iff `a` is a proper prefix of `b` or `a` is smaller at the first differing position |
| `Text.CmpAntisymmetric` | src/main.rs:200 | `Cmp(a, b)` is `Less` iff `Cmp(b, a)` is `Greater` |
| `Text.LexLessTransitive` | src/main.rs:200 | byte order on strings is transitive |
| `Text.LexLessTotal` | src/main.rs:200 | any two different strings are ordered one way or the other |
| `Text.FirstToken` | src/main.rs:199 | `split_whitespace().nth(0)` is none iff the text is all whitespace; otherwise it is a non-empty word without whitespace |
| `Text.FirstTokenOf` | src/main.rs:199 | after leading whitespace, the first word is the word that precedes the next whitespace |
| `Bumps.PrefixBytesIsByteLength` | src/main.rs:52 | the prefix `"Submodule src/tools/rls "` is ASCII and 24 bytes long |
| `Bumps.StripAnnotation` | src/main.rs:52-61 | at most one trailing annotation is removed, and only `:`, ` (new submodule)` or ` (commits not present)`; text ending in none of them is unchanged |
| `Bumps.StripOneAnnotation` | src/main.rs:53-60 | each annotation is removed exactly once from any text that ends with it |
| `Bumps.NoAnnotation` | src/main.rs:52-61 | text ending in neither `:` nor `)` is unchanged |
| `Bumps.SplitRange` | src/main.rs:63-68 | fewer than two dots is an error, and so is a leading dot. The split succeeds exactly when there are two dots, no leading dot, and a one-byte character before the first dot; otherwise the cut before that dot panics. On success, the start id is the text before the first dot minus the character just before it, the end id is the text after the last dot, and neither contains a dot |
| `Bumps.SplitRangeOrdinary` | src/main.rs:63-68 | ids need not be hexadecimal: `v1.x...w2` splits into `v` and `w2` |
| `Bumps.SplitRangeEmptyEnd` | src/main.rs:63-68 | an empty end id is accepted: `ab...` splits into `a` and the empty id |
| `Bumps.SplitRangeExample` | src/main.rs:63-68 | `abc...def` splits into `ab` and `def` |
| `Bumps.ParseRecord` | src/main.rs:51-69 | the host is the trimmed first line. The record fails with `PrefixCut` iff 24 bytes cannot be cut from the trimmed second line. Parsed ids contain no dot |
| `Bumps.ShortStatusLine` | src/main.rs:52 | an ASCII status line shorter than 24 bytes is refused |
| `Bumps.ParseRecordRoundTrip` | src/main.rs:51-69 | the two lines git prints for a bump parse back to the host hash and the end id exactly, and to the start id without its last character. This holds for `..` and `...`, for each annotation and for none, and for any 24 ASCII prefix characters, the first not whitespace |
| `Bumps.Pairs` | src/main.rs:45-49 | records are lines `2k` and `2k + 1`; there are ⌊n/2⌋ of them, and an unpaired last line forms none |
| `Bumps.ParseLogCount` | src/main.rs:45-70 | the log parses iff every record does, and then yields ⌊n/2⌋ bumps, bump `k` parsed from lines `2k` and `2k + 1` |
| `Bumps.ParseLog` | src/main.rs:45-70 | the bumps the iterator yields over the whole log, all or nothing (stated by `Bumps.ParseLogCount` and `Bumps.ParseLogStep`) |
| `Bumps.ParseLogStep` | src/main.rs:45-70 | the log parses iff its first record and the remaining log both parse |
| `Bumps.BumpReader.ReadLine` | src/main.rs:111-116 | `read_line` yields the next line and advances by one, or yields none at the end without moving |
| `Bumps.BumpReader.Next` | src/main.rs:45-49 | with two lines left, a call consumes exactly those two and yields their parsed record. Otherwise it consumes the rest and ends the iteration |
| `Releases.ParseTagLine` | src/main.rs:176-181 | a line with a pipe character parses, and a line without one is `MissingPipe`. The date has no pipe, and the date, a pipe and the name rebuild the line |
| `Releases.ParseTagsEach` | src/main.rs:160-182 | the tag list parses iff every line has a pipe, one tag per line in order; otherwise the error names the first input line without a pipe |
| `Releases.ParseTags` | src/main.rs:176-182 | the tag list as `map(..).collect()` builds it, stopping at the first line without a pipe (stated by `Releases.ParseTagsEach`) |
| `Releases.StrictlyAscendingIsAscending` | src/main.rs:166 | distinct ascending dates are ascending |
| `Releases.CountBelowSplit` | src/main.rs:200-204 | when the tags dated before the key are exactly the first `i`, the insertion point is `i` |
| `Releases.BinarySearch` | src/main.rs:200-204 | `Found(i)` means tag `i` has the key's date. `NotFound(i)` means `i` is where the key belongs among its neighbours, and over ascending dates it is the count of earlier dates. Over distinct ascending dates either answer is that count |
| `Releases.InsertionPoint` | src/main.rs:200-204 | over ascending dates, the index between a smaller and a larger neighbour is the count of earlier dates |
| `Releases.ExactPoint` | src/main.rs:200-204 | over distinct ascending dates, an exact match at `i` has exactly `i` earlier dates |
| `Releases.ReleaseAtCountBelow` | src/main.rs:205-208 | `tags[idx - 1].name`, or `"None"`, at the insertion point names the last tag dated strictly before the key |
| `Releases.DebugBuildPanicsBeforeFirstTag` | src/main.rs:205-208 | with distinct ascending tag dates and no tag dated before the key, the search index is 0: the debug build panics and the release build prints `"None"` |
| `Releases.ReleaseAt` | src/main.rs:205-208 | `get(idx - 1)` then `unwrap_or("None")` as a release build runs it, where 0 wraps and `get` misses (stated by `Releases.ReleaseAtCountBelow`) |
| `Releases.ReleaseAtDebug` | src/main.rs:205-206 | the same lookup as a debug build runs it, where `0 - 1` is an overflow panic (stated by `Releases.DebugBuildPanicsBeforeFirstTag`) |
| `Releases.ResolveRelease` | src/main.rs:199-208 | over distinct ascending dates, or ascending dates none equal to the key, the resolved release is the last tag dated strictly before the key, or `"None"` |
| `Releases.ExactDateResolvesToPreviousTag` | src/main.rs:199-208 | a commit dated exactly at a tag resolves to the tag before it, or `"None"` for the first |
| `Report.ValidSorted` | src/main.rs:184 | the map's keys are strictly ascending pair by pair, and no release has an empty list |
| `Report.LookupAbsent` | src/main.rs:184 | a release that is not a key has no entries |
| `Report.Insert` | src/main.rs:255-261 | `entry(release).or_default().push(entry)` on the sorted map (stated by `Report.InsertKeys`, `Report.InsertValid`, `Report.InsertLookup` and `Report.InsertTotal`) |
| `Report.InsertKeys` | src/main.rs:255 | a push adds its release to the keys and no other key |
| `Report.InsertValid` | src/main.rs:255-261 | a push keeps the keys ordered and no list empty |
| `Report.InsertLookup` | src/main.rs:255-261 | a push appends the entry at the end of its release's list; every other release's list is unchanged |
| `Report.InsertTotal` | src/main.rs:255-261 | a push adds exactly one entry to the map |
| `Report.HasOrphanExists` | src/main.rs:266-271 | the filter predicate holds iff some child of some entry is not an ancestor |
| `Report.AnyOrphanExists` | src/main.rs:270 | `any(!is_ancestor)` holds iff some child is not an ancestor |
| `Report.Reduced` | src/main.rs:266-271 | the filter keeps at most the original groups, each unchanged and each holding an orphaned child |
| `Report.ReducedKeys` | src/main.rs:266-271 | the reduced map's keys are among the original's |
| `Report.ReducedValid` | src/main.rs:266-271 | the reduced map stays ordered with no empty list |
| `Report.ReducedLookup` | src/main.rs:266-271 | a release is kept iff it holds an orphaned child, and a kept release keeps all its entries unchanged |
| `Report.AncestorChar` | src/main.rs:20-26 | ✓ for an ancestor, ❌ otherwise (stated by `Report.ChildLineMarker`) |
| `Report.ChildLineMarker` | src/main.rs:20-26 | a child line (src/main.rs:138-143) is `  (`, then ✓ exactly when the child is an ancestor and ❌ otherwise, then `) ` and the child's details |
| `Report.ChildLinesEach` | src/main.rs:138-144 | one line per child, in stored order |
| `Report.WriteChildren` | src/main.rs:138-144 | the innermost writing loop appends exactly the children's lines |
| `Report.WriteEntries` | src/main.rs:135-145 | the middle writing loop appends each entry's line followed by its children's lines, in stored order |
| `Report.Summary` | src/main.rs:132-149 | the lines `Summary::fmt` writes, from the greatest key down (stated by `Report.SummaryLineCount`, `Report.SummaryDescending` and `Report.Render`) |
| `Report.SummaryLineCount` | src/main.rs:132-149 | the summary has one line per entry plus one per child |
| `Report.EntryLinesCount` | src/main.rs:135-145 | one release's lines number its entries plus their children |
| `Report.SummaryDescending` | src/main.rs:134 | the releases later in the map are rendered first: the rendering of `lower + upper` is that of `upper`, then that of `lower` |
| `Report.Render` | src/main.rs:132-149 | the outer writing loop produces exactly `Summary`: releases from the greatest key down, each entry's line followed by its children's lines |
| `Pipeline.Visit` | src/main.rs:189-261 | one iteration of the loop: the release of the host commit's first word of details, and the entry with its children, or the panic on blank details (stated through `Pipeline.Run`) |
| `Pipeline.Process` | src/main.rs:188-262 | the loop over the records, pushing each entry into the map, stopping at the first panic (stated by `Pipeline.ProcessTotal`, `Pipeline.ProcessValid` and `Pipeline.ProcessParsesLog`) |
| `Pipeline.Output` | src/main.rs:160-271 | what `main` prints, or the first panic: tags first, then the records, then both summaries (stated by `Pipeline.OutputLayout` and `Pipeline.Run`) |
| `Pipeline.ProcessTotal` | src/main.rs:188-262 | a run that finishes holds exactly one entry per record of the log |
| `Pipeline.ProcessValid` | src/main.rs:188-262 | the map built by the loop stays ordered with no empty list |
| `Pipeline.ProcessParsesLog` | src/main.rs:188-262 | a run that finishes has parsed every record of the log |
| `Pipeline.OutputLayout` | src/main.rs:184-271 | a successful run prints the summary of an ordered map with one entry per record, a blank line, `>>> Reduced`, the reduced summary and a blank line |
| `Pipeline.Run` | src/main.rs:150-272 | reading the records with the reader, resolving each release by binary search and rendering line by line gives exactly `Output`: the printed lines, or the first panic |

## Left out

- The `git` and `rg` invocations (src/main.rs:29-41, 161-174, 189-197, 211-243) are external processes. Their answers are the `Pipeline.Queries` functions and the `logLines` and `tagLines` inputs. So are `String::from_utf8(..).unwrap()` and the `unwrap` on spawning.
- A `git log` over an unknown range is not modelled as an error. Its exit status is never checked, so the program sees empty standard output and lists no children; the model covers this case as a `rangeLog` that returns `[]`.
- `read_from_repository` and the `Single` helper (src/main.rs:8-18, 75-109) are not part of this model. They depend on the `git2` library and are unused.
- Environment variables and `println!` (src/main.rs:151-155, 264-265) are left out. Output is the sequence of printed lines.
- `BufReader` is left out: the reader's input is a sequence of lines, each with its terminator.
- A status line's range is meant to be `<old>...<new>`, with both ids non-empty commit
  hashes and the line compared against `Submodule src/tools/rls `. The code checks less,
  and the model follows the code in four places:
  - the start id loses the character just before the first dot;
  - the 24 bytes cut from the status line are never compared with `Submodule src/tools/rls `;
  - a two-dot range such as `aaaa111..bbbb222:` parses like a three-dot one, because only
    the first and the last dot are looked for (`Bumps.ParseRecordRoundTrip` covers both);
  - an empty id is accepted: `<start>...` gives an empty end id and `a...def` an empty
    start id (`Bumps.SplitRangeEmptyEnd`).
- `Pipeline.Run` requires distinct tag dates, ascending in byte order, because `Output` states the release as "the last tag dated strictly before".
  - With equal dates, which equal date the binary search lands on is not part of the contract.
  - `--sort=creatordate` sorts by time, which agrees with byte order only when the dates share one UTC offset.
- `Releases.BinarySearch` follows one version of Rust's `binary_search_by` loop. Other versions may return a different index among equal dates, though the contract above holds for all of them.
- `Releases.ReleaseAt` models `release_idx - 1` at 0 as a release build does: `usize` wraps and `get` misses. The debug-build panic is `Releases.ReleaseAtDebug`, and `Releases.DebugBuildPanicsBeforeFirstTag` shows when it happens (see "## Findings").
- The `BTreeMap` is its sorted contents, updated by value in `Run`'s loop. The borrowed `&str` keys and the map's tree shape are not modelled.

## Findings

| source | as written | input that shows it | evidently intended | confidence | as-written member | corrected member |
|---|---|---|---|---|---|---|
| src/main.rs:205-206 | `rust_tags.get(release_idx - 1)` subtracts from a `usize` that is 0 when no tag is dated before the commit | with distinct tag dates, a host commit dated at or before the first tag, or an empty tag list: the binary search returns index 0 and a debug build panics with "attempt to subtract with overflow" | such a commit is reported under `"None"`, as the `unwrap_or("None")` fallback shows | high, not executed | `Releases.DebugBuildPanicsBeforeFirstTag` | `Releases.ReleaseAtCountBelow` |
