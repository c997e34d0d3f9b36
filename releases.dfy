/**
 * The host project's tag table and the release a host commit belongs to
 * (src/main.rs:160-182, 199-208).
 */
module Releases {
  import opened Wrappers
  import opened Text
  import opened Collect

  /** One line of `git tag --format=%(creatordate:iso-strict)|%(refname:short)`. */
  datatype Tag = Tag(date: string, name: string)

  /** `line.find('|').unwrap()` panics on a line without `|`. */
  datatype TagError = MissingPipe(line: string)

  /** The release name used when no tag precedes a commit. */
  const NoRelease: string := "None"

  /** Splits a tag line at its first `|` into the date before it and the name after it. */
  function ParseTagLine(line: string): (r: Result<Tag, TagError>)
    ensures r.Ok? <==> '|' in line
    ensures r.Ok? ==> r.value.date + "|" + r.value.name == line && '|' !in r.value.date
    ensures r.Err? ==> r.error == MissingPipe(line)
  {
    match IndexOf(line, '|')
    case None => Err(MissingPipe(line))
    case Some(pipe) =>
      assert line == line[..pipe] + "|" + line[pipe + 1..];
      Ok(Tag(line[..pipe], line[pipe + 1..]))
  }

  /** The whole tag table, or the first line that has no `|`. */
  function ParseTags(lines: seq<string>): Result<seq<Tag>, TagError> {
    MapAll(lines, ParseTagLine)
  }

  /** The table has one tag per line and each line is its tag's date, `|` and name. */
  lemma ParseTagsEach(lines: seq<string>)
    ensures ParseTags(lines).Ok? <==> forall k :: 0 <= k < |lines| ==> '|' in lines[k]
    ensures ParseTags(lines).Ok? ==>
      var tags := ParseTags(lines).value;
      |tags| == |lines| &&
      forall k :: 0 <= k < |lines| ==> tags[k].date + "|" + tags[k].name == lines[k] && '|' !in tags[k].date
    ensures ParseTags(lines).Err? ==> '|' !in ParseTags(lines).error.line
    ensures ParseTags(lines).Err? ==>
      exists k :: (0 <= k < |lines| && ParseTags(lines).error == MissingPipe(lines[k])
        && forall j :: 0 <= j < k ==> '|' in lines[j])
  {
    MapAllEach(lines, ParseTagLine);
    if ParseTags(lines).Err? {
      var k :| 0 <= k < |lines| && ParseTagLine(lines[k]) == Err(ParseTags(lines).error)
        && forall j :: 0 <= j < k ==> ParseTagLine(lines[j]).Ok?;
      assert ParseTags(lines).error == MissingPipe(lines[k]);
    }
  }

  // ---------------------------------------------------------------------------
  // Ordering of the table

  /** Dates never decrease along the table. */
  predicate Ascending(tags: seq<Tag>) {
    forall i, j :: 0 <= i < j < |tags| ==> !LexLess(tags[j].date, tags[i].date)
  }

  /** Dates strictly increase along the table: no two tags share a date. */
  predicate StrictlyAscending(tags: seq<Tag>) {
    forall i, j :: 0 <= i < j < |tags| ==> LexLess(tags[i].date, tags[j].date)
  }

  lemma StrictlyAscendingIsAscending(tags: seq<Tag>)
    requires StrictlyAscending(tags)
    ensures Ascending(tags)
  {
    forall i, j | 0 <= i < j < |tags| ensures !LexLess(tags[j].date, tags[i].date) {
      LexLessAsymmetric(tags[i].date, tags[j].date);
    }
  }

  /** How many tags are dated strictly before `key`. */
  function CountBelow(tags: seq<Tag>, key: string): (n: nat)
    ensures n <= |tags|
  {
    if tags == [] then 0
    else CountBelow(tags[..|tags| - 1], key) + (if LexLess(tags[|tags| - 1].date, key) then 1 else 0)
  }

  /** In a table split into tags before `key` and tags not before it, the count is the split point. */
  lemma {:induction false} CountBelowSplit(tags: seq<Tag>, key: string, i: nat)
    requires i <= |tags|
    requires forall j :: 0 <= j < i ==> LexLess(tags[j].date, key)
    requires forall j :: i <= j < |tags| ==> !LexLess(tags[j].date, key)
    ensures CountBelow(tags, key) == i
  {
    if tags != [] {
      var init := tags[..|tags| - 1];
      if i == |tags| {
        CountBelowSplit(init, key, i - 1);
      } else {
        CountBelowSplit(init, key, i);
      }
    }
  }

  /**
   * The reference meaning of the lookup: the name of the last tag dated
   * strictly before `key`, or "None" if there is none.
   */
  function LatestBefore(tags: seq<Tag>, key: string): string {
    if tags == [] then NoRelease
    else if LexLess(tags[|tags| - 1].date, key) then tags[|tags| - 1].name
    else LatestBefore(tags[..|tags| - 1], key)
  }

  // ---------------------------------------------------------------------------
  // The lookup as the tool performs it

  /** `Result<usize, usize>` of `binary_search_by_key`. */
  datatype Search = Found(index: nat) | NotFound(index: nat)

  /**
   * `slice::binary_search_by_key(&key, |(date, _)| date)`, in the form of
   * Rust's standard library. `Found` names a tag with the date `key`;
   * `NotFound` names the insertion point: the tag before it is dated before
   * `key` and the tag at it after `key`. In an ascending table these make the
   * index the number of tags dated before `key` (when the date is not found,
   * or when no two dates are equal).
   */
  method BinarySearch(tags: seq<Tag>, key: string) returns (r: Search)
    ensures r.index <= |tags|
    ensures r.Found? ==> r.index < |tags| && tags[r.index].date == key
    ensures r.NotFound? ==>
      && (r.index == 0 || LexLess(tags[r.index - 1].date, key))
      && (r.index == |tags| || LexLess(key, tags[r.index].date))
    ensures r.NotFound? && Ascending(tags) ==> r.index == CountBelow(tags, key)
    ensures StrictlyAscending(tags) ==> r.index == CountBelow(tags, key)
  {
    var size := |tags|;
    var left, right := 0, size;
    while left < right
      invariant 0 <= left <= right <= |tags| && size == right - left
      invariant left == 0 || LexLess(tags[left - 1].date, key)
      invariant right == |tags| || LexLess(key, tags[right].date)
      decreases size
    {
      var mid := left + size / 2;
      var cmp := Cmp(tags[mid].date, key);
      CmpAntisymmetric(tags[mid].date, key);
      left := if cmp == Less then mid + 1 else left;
      right := if cmp == Greater then mid else right;
      if cmp == Equal {
        if StrictlyAscending(tags) {
          ExactPoint(tags, key, mid);
        }
        return Found(mid);
      }
      size := right - left;
    }
    if Ascending(tags) {
      InsertionPoint(tags, key, left);
    }
    if StrictlyAscending(tags) {
      StrictlyAscendingIsAscending(tags);
      InsertionPoint(tags, key, left);
    }
    return NotFound(left);
  }

  /** In an ascending table, an insertion point is the number of tags dated before `key`. */
  lemma InsertionPoint(tags: seq<Tag>, key: string, i: nat)
    requires Ascending(tags) && i <= |tags|
    requires i == 0 || LexLess(tags[i - 1].date, key)
    requires i == |tags| || LexLess(key, tags[i].date)
    ensures CountBelow(tags, key) == i
  {
    forall j | 0 <= j < i ensures LexLess(tags[j].date, key) {
      if j < i - 1 {
        LexLessTotal(tags[j].date, tags[i - 1].date);
        if tags[j].date != tags[i - 1].date {
          LexLessTransitive(tags[j].date, tags[i - 1].date, key);
        }
      }
    }
    forall j | i <= j < |tags| ensures !LexLess(tags[j].date, key) {
      if j > i {
        LexLessTotal(tags[i].date, tags[j].date);
        if tags[i].date != tags[j].date {
          LexLessTransitive(key, tags[i].date, tags[j].date);
        }
      }
      LexLessAsymmetric(key, tags[j].date);
    }
    CountBelowSplit(tags, key, i);
  }

  /** In a strictly ascending table, the tag dated exactly `key` has that many tags before it. */
  lemma ExactPoint(tags: seq<Tag>, key: string, i: nat)
    requires StrictlyAscending(tags) && i < |tags| && tags[i].date == key
    ensures CountBelow(tags, key) == i
  {
    forall j | i <= j < |tags| ensures !LexLess(tags[j].date, key) {
      if j == i {
        LexLessTotal(key, key);
        CmpAntisymmetric(key, key);
      } else {
        LexLessAsymmetric(key, tags[j].date);
      }
    }
    CountBelowSplit(tags, key, i);
  }

  /**
   * `rust_tags.get(release_idx - 1).map(|(_, b)| b).unwrap_or("None")` as a
   * release build runs it: at index 0 the subtraction wraps to `usize::MAX`,
   * which `get` misses, giving "None".
   */
  function ReleaseAt(tags: seq<Tag>, idx: nat): string {
    if 0 < idx <= |tags| then tags[idx - 1].name else NoRelease
  }

  /** The debug build's "attempt to subtract with overflow" panic. */
  datatype Overflow = SubtractWithOverflow

  /** The same expression as a debug build runs it: `0 - 1` panics with an overflow. */
  function ReleaseAtDebug(tags: seq<Tag>, idx: nat): Result<string, Overflow> {
    if idx == 0 then Err(SubtractWithOverflow) else Ok(ReleaseAt(tags, idx))
  }

  /**
   * With distinct tag dates, a commit dated at or before the first tag makes
   * the search index 0 (`BinarySearch` returns `CountBelow` on such a table):
   * the debug build panics there, where the intended answer, and the release
   * build's, is "None".
   */
  lemma DebugBuildPanicsBeforeFirstTag(tags: seq<Tag>, key: string)
    requires StrictlyAscending(tags)
    requires tags == [] || !LexLess(tags[0].date, key)
    ensures CountBelow(tags, key) == 0
    ensures ReleaseAtDebug(tags, CountBelow(tags, key)).Err?
    ensures ReleaseAt(tags, CountBelow(tags, key)) == LatestBefore(tags, key) == NoRelease
  {
    StrictlyAscendingIsAscending(tags);
    forall j | 0 <= j < |tags| ensures !LexLess(tags[j].date, key) {
      if j > 0 {
        LexLessTotal(tags[0].date, tags[j].date);
        if tags[0].date != tags[j].date && LexLess(tags[j].date, key) {
          LexLessTransitive(tags[0].date, tags[j].date, key);
        }
      }
    }
    CountBelowSplit(tags, key, 0);
    ReleaseAtCountBelow(tags, key);
  }

  /** In an ascending table, the tag just before the insertion point is the last one dated before `key`. */
  lemma {:induction false} ReleaseAtCountBelow(tags: seq<Tag>, key: string)
    requires Ascending(tags)
    ensures ReleaseAt(tags, CountBelow(tags, key)) == LatestBefore(tags, key)
  {
    if tags != [] {
      var n := |tags|;
      var init := tags[..n - 1];
      assert Ascending(init);
      if LexLess(tags[n - 1].date, key) {
        forall j | 0 <= j < n - 1 ensures LexLess(init[j].date, key) {
          LexLessTotal(tags[j].date, tags[n - 1].date);
          if tags[j].date != tags[n - 1].date {
            LexLessTransitive(tags[j].date, tags[n - 1].date, key);
          }
        }
        CountBelowSplit(init, key, n - 1);
      } else {
        ReleaseAtCountBelow(init, key);
      }
    }
  }

  /**
   * The release of a host commit dated `key`: the tag before the search
   * index, "None" at index 0. In a strictly ascending table, or an ascending
   * one without a tag dated `key`, that is the last tag dated strictly before
   * `key`.
   */
  method ResolveRelease(tags: seq<Tag>, key: string) returns (release: string)
    ensures StrictlyAscending(tags) ==> release == LatestBefore(tags, key)
    ensures Ascending(tags) && (forall i :: 0 <= i < |tags| ==> tags[i].date != key) ==>
      release == LatestBefore(tags, key)
  {
    var r := BinarySearch(tags, key);
    var idx := match r case Found(i) => i case NotFound(i) => i;
    release := ReleaseAt(tags, idx);
    if StrictlyAscending(tags) {
      StrictlyAscendingIsAscending(tags);
      ReleaseAtCountBelow(tags, key);
    } else if Ascending(tags) {
      ReleaseAtCountBelow(tags, key);
    }
  }

  /**
   * A host commit dated exactly like a tag belongs to the tag before it: the
   * search finds the tag itself and the lookup steps back one.
   */
  lemma ExactDateResolvesToPreviousTag(tags: seq<Tag>, i: nat)
    requires StrictlyAscending(tags) && i < |tags|
    ensures LatestBefore(tags, tags[i].date) == if i == 0 then NoRelease else tags[i - 1].name
  {
    ExactPoint(tags, tags[i].date, i);
    StrictlyAscendingIsAscending(tags);
    ReleaseAtCountBelow(tags, tags[i].date);
  }
}
