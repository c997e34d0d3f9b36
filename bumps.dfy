/**
 * The submodule-bump extractor of `read_from_stdin` (src/main.rs:28-72).
 * The log excerpt arrives as lines, two per record: the host commit hash,
 * then git's status line `Submodule src/tools/rls <old>...<new>:`.
 */
module Bumps {
  import opened Wrappers
  import opened Text
  import opened Collect

  /** The status-line prefix whose byte length is cut off; its text is never compared. */
  const StatusPrefix: string := "Submodule src/tools/rls "
  /** `"Submodule src/tools/rls ".len()`, the prefix's length in bytes. */
  const PrefixBytes: nat := 24
  const NewSubmodule: string := " (new submodule)"
  const CommitsNotPresent: string := " (commits not present)"

  /** One bump: the host commit and the dependent project's range `start..end`. */
  datatype Bump = Bump(host: string, start: string, end: string)

  /** The panics of the record parser. */
  datatype ParseError =
    | PrefixCut   // `&line[24..]`: the trimmed status line is shorter than 24 bytes, or byte 24 is inside a character
    | TooFewDots  // `dots.nth(0).unwrap()` or `dots.last().unwrap()`: fewer than two dots
    | LeadingDot  // `first - 1` underflows: the range text starts with a dot
    | StartCut    // `[..first - 1]` falls inside the multi-byte character before the first dot

  /** The prefix is ASCII, so its byte length is its character count. */
  lemma PrefixBytesIsByteLength()
    ensures IsAscii(StatusPrefix) && |StatusPrefix| == PrefixBytes
  {
    forall i | 0 <= i < |StatusPrefix| ensures (StatusPrefix[i] as int) < 0x80 {
      assert StatusPrefix[i] in "Submodule src/tools/rls ";
    }
  }

  /**
   * Removes one trailing annotation, testing `:`, then ` (new submodule)`,
   * then ` (commits not present)`; any other text is left as it is.
   */
  function StripAnnotation(s: string): (r: string)
    ensures |r| <= |s| && r == s[..|r|]
    ensures r == s <==> !(EndsWith(s, ":") || EndsWith(s, NewSubmodule) || EndsWith(s, CommitsNotPresent))
    ensures r != s ==> s[|r|..] in {":", NewSubmodule, CommitsNotPresent}
  {
    if EndsWith(s, ":") then s[..|s| - 1]
    else if EndsWith(s, NewSubmodule) then s[..|s| - |NewSubmodule|]
    else if EndsWith(s, CommitsNotPresent) then s[..|s| - |CommitsNotPresent|]
    else s
  }

  /** Exactly one annotation comes off, whatever text precedes it. */
  lemma StripOneAnnotation(x: string, annotation: string)
    requires annotation in {":", NewSubmodule, CommitsNotPresent}
    ensures StripAnnotation(x + annotation) == x
  {
    var s := x + annotation;
    assert s[..|x|] == x;
    if annotation != ":" {
      assert s[|s| - 1] == ')';
    }
    if annotation == CommitsNotPresent {
      assert s[|s| - 2] == 't' && NewSubmodule[|NewSubmodule| - 2] == 'e';
      assert s[|s| - |NewSubmodule|..][|NewSubmodule| - 2] == 't';
    }
  }

  /** Text that ends in neither `:` nor `)` carries no annotation. */
  lemma NoAnnotation(s: string)
    requires s != [] && s[|s| - 1] != ':' && s[|s| - 1] != ')'
    ensures StripAnnotation(s) == s
  {
  }

  /** The text has two dots at different positions. */
  predicate TwoDots(s: string) {
    exists i, j :: 0 <= i < j < |s| && s[i] == '.' && s[j] == '.'
  }

  /**
   * Splits `<start>...<end>` at the first and the last dot. As written, the
   * start id stops one character short of the first dot (`[..first - 1]`),
   * and the end id is everything after the last dot.
   */
  function SplitRange(s: string): (r: Result<(string, string), ParseError>)
    ensures r == Err(TooFewDots) <==> !TwoDots(s)
    ensures r == Err(LeadingDot) <==> TwoDots(s) && s[0] == '.'
    ensures r == Err(StartCut) <==>
      TwoDots(s) && s[0] != '.' && Utf8Width(s[IndexOf(s, '.').value - 1]) != 1
    ensures r.Ok? <==>
      TwoDots(s) && s[0] != '.' && Utf8Width(s[IndexOf(s, '.').value - 1]) == 1
    ensures r != Err(PrefixCut)
    ensures r.Ok? ==>
      var start, end := r.value.0, r.value.1;
      && |start| + 2 < |s| - |end|
      && s[..|start|] == start && '.' !in start
      && s[|start|] != '.' && Utf8Width(s[|start|]) == 1 && s[|start| + 1] == '.'
      && s[|s| - |end|..] == end && '.' !in end && s[|s| - |end| - 1] == '.'
  {
    match IndexOf(s, '.')
    case None => Err(TooFewDots)
    case Some(first) =>
      var last := LastIndexOf(s, '.').value;
      assert forall i :: 0 <= i < first ==> s[..first][i] == s[i];
      assert forall j :: last < j < |s| ==> s[last + 1..][j - last - 1] == s[j];
      if last == first then Err(TooFewDots)
      else if first == 0 then Err(LeadingDot)
      else if Utf8Width(s[first - 1]) != 1 then Err(StartCut)
      else
        assert s[..first - 1] == s[..first][..first - 1];
        Ok((s[..first - 1], s[last + 1..]))
  }

  /**
   * Any id before the first dot ends in a one-byte character and so splits,
   * hex or not: `v1.x...w2` gives `v` and `w2`.
   */
  lemma SplitRangeOrdinary()
    ensures SplitRange("v1.x...w2") == Ok(("v", "w2"))
  {
    var s := "v1.x...w2";
    assert s[2] == '.' && s[6] == '.' && '.' !in s[..2];
    assert IndexOf(s, '.') == Some(2);
    assert '.' !in s[7..];
    assert LastIndexOf(s, '.') == Some(6);
    assert s[..1] == "v" && s[7..] == "w2";
  }

  /** Nothing requires an id to be non-empty: `ab...` gives `a` and an empty end id. */
  lemma SplitRangeEmptyEnd()
    ensures SplitRange("ab...") == Ok(("a", ""))
  {
    var s := "ab...";
    assert s[2] == '.' && s[4] == '.' && '.' !in s[..2];
    assert IndexOf(s, '.') == Some(2);
    assert LastIndexOf(s, '.') == Some(4);
    assert s[..1] == "a" && s[5..] == "";
  }

  /** The worked example of the split: `abc...def` gives `ab` and `def`. */
  lemma SplitRangeExample()
    ensures SplitRange("abc...def") == Ok(("ab", "def"))
  {
    ExampleIdsAreHashes();
    SplitHashRange("abc", "...", "def");
    assert "abc" + "..." + "def" == "abc...def";
    assert "abc"[..2] == "ab";
  }

  lemma ExampleIdsAreHashes()
    ensures IsHash("abc") && IsHash("def")
  {
    forall i | 0 <= i < 3 ensures IsHexDigit("abc"[i]) && IsHexDigit("def"[i]) {
      assert "abc"[i] in "abc" && "def"[i] in "def";
    }
  }

  /**
   * One record: the host hash is the trimmed first line; the range is the
   * trimmed second line after its first 24 bytes, with one annotation
   * stripped, split at its dots.
   */
  function ParseRecord(first: string, second: string): (r: Result<Bump, ParseError>)
    ensures r.Ok? ==> r.value.host == Trim(first) && '.' !in r.value.start && '.' !in r.value.end
    ensures r == Err(PrefixCut) <==> DropBytes(Trim(second), PrefixBytes).None?
  {
    match DropBytes(Trim(second), PrefixBytes)
    case None => Err(PrefixCut)
    case Some(rest) =>
      match SplitRange(StripAnnotation(rest))
      case Err(e) => Err(e)
      case Ok(ids) => Ok(Bump(Trim(first), ids.0, ids.1))
  }

  /** A status line whose trimmed text is ASCII and shorter than the prefix is refused. */
  lemma ShortStatusLine(first: string, second: string)
    requires IsAscii(Trim(second)) && |Trim(second)| < PrefixBytes
    ensures ParseRecord(first, second) == Err(PrefixCut)
  {
    DropBytesShortAscii(Trim(second), PrefixBytes);
  }

  predicate IsHexDigit(c: char) {
    '0' <= c <= '9' || 'a' <= c <= 'f'
  }

  /** A (possibly abbreviated) commit id as git prints it. */
  predicate IsHash(s: string) {
    s != [] && forall i :: 0 <= i < |s| ==> IsHexDigit(s[i])
  }

  /**
   * The record git prints for a bump parses back to its ids, for each of the
   * three annotations and none, for `..` and `...` alike: the host hash and
   * end id exactly, the start id without its last character. The prefix is
   * any 24 ASCII characters; its text is not checked.
   */
  lemma {:induction false} ParseRecordRoundTrip(
    host: string, prefix: string, start: string, sep: string, end: string, annotation: string)
    requires IsHash(host) && IsHash(start) && IsHash(end)
    requires IsAscii(prefix) && |prefix| == PrefixBytes && !IsWhitespace(prefix[0])
    requires sep in {"..", "..."}
    requires annotation in {":", NewSubmodule, CommitsNotPresent, ""}
    ensures ParseRecord(host + "\n", prefix + start + sep + end + annotation + "\n")
         == Ok(Bump(host, start[..|start| - 1], end))
  {
    var range := start + sep + end;
    var body := range + annotation;
    var line := prefix + body;
    StatusLineShape(prefix, start, sep, end, annotation);
    TrimLine(host, "\n");
    StatusLineTrims(prefix, range, annotation);
    DropAsciiPrefix(prefix, body);
    StripAnnotationOf(range, annotation);
    SplitHashRange(start, sep, end);
    ParseRecordOf(host + "\n", line + "\n", body, (start[..|start| - 1], end));
  }

  /** The status line, regrouped as prefix, then range, then annotation. */
  lemma StatusLineShape(prefix: string, start: string, sep: string, end: string, annotation: string)
    requires end != []
    ensures prefix + start + sep + end + annotation + "\n" == prefix + ((start + sep + end) + annotation) + "\n"
    ensures (start + sep + end)[|start + sep + end| - 1] == end[|end| - 1]
  {
  }

  /** `ParseRecord` in terms of its three stages. */
  lemma ParseRecordOf(first: string, second: string, rest: string, ids: (string, string))
    requires DropBytes(Trim(second), PrefixBytes) == Some(rest)
    requires SplitRange(StripAnnotation(rest)) == Ok(ids)
    ensures ParseRecord(first, second) == Ok(Bump(Trim(first), ids.0, ids.1))
  {
  }

  lemma StatusLineTrims(prefix: string, range: string, annotation: string)
    requires prefix != [] && !IsWhitespace(prefix[0])
    requires range != [] && !IsWhitespace(range[|range| - 1])
    requires annotation in {":", NewSubmodule, CommitsNotPresent, ""}
    ensures Trim(prefix + (range + annotation) + "\n") == prefix + (range + annotation)
  {
    var line := prefix + (range + annotation);
    assert line[0] == prefix[0];
    assert !IsWhitespace(line[|line| - 1]) by {
      if annotation == "" {
        assert line[|line| - 1] == range[|range| - 1];
      } else {
        assert line[|line| - 1] == annotation[|annotation| - 1];
      }
    }
    TrimLine(line, "\n");
  }

  lemma StripAnnotationOf(range: string, annotation: string)
    requires range != [] && range[|range| - 1] != ':' && range[|range| - 1] != ')'
    requires annotation in {":", NewSubmodule, CommitsNotPresent, ""}
    ensures StripAnnotation(range + annotation) == range
  {
    if annotation == "" {
      assert range + annotation == range;
      NoAnnotation(range);
    } else {
      StripOneAnnotation(range, annotation);
    }
  }

  lemma SplitHashRange(start: string, sep: string, end: string)
    requires IsHash(start) && IsHash(end) && sep in {"..", "..."}
    ensures SplitRange(start + sep + end) == Ok((start[..|start| - 1], end))
  {
    var s := start + sep + end;
    var first, last := |start|, |start| + |sep| - 1;
    assert s[..first] == start;
    assert s[last + 1..] == end;
    assert s[first] == '.' && s[last] == '.';
    assert '.' !in start;
    assert '.' !in end;
    assert IndexOf(s, '.') == Some(first) by {
      IndexOfIsFirst(s, '.', first);
    }
    assert LastIndexOf(s, '.') == Some(last) by {
      LastIndexOfIsLast(s, '.', last);
    }
    assert s[..first - 1] == start[..|start| - 1];
  }

  /**
   * The line pairs the `from_fn` closure reads: lines `2k` and `2k + 1` form
   * record `k`, and a trailing unpaired line forms none.
   */
  function Pairs<T>(lines: seq<T>): (r: seq<(T, T)>)
    ensures |r| == |lines| / 2
    ensures forall k :: 0 <= k < |r| ==> r[k] == (lines[2 * k], lines[2 * k + 1])
  {
    if |lines| < 2 then []
    else
      var rest := Pairs(lines[2..]);
      assert forall k :: 0 <= k < |rest| ==> rest[k] == (lines[2 * k + 2], lines[2 * k + 3]);
      [(lines[0], lines[1])] + rest
  }

  /**
   * The bumps the iterator yields over the whole log, all or nothing: the
   * first record that fails aborts the run.
   */
  function ParseLog(lines: seq<string>): Result<seq<Bump>, ParseError> {
    MapAll(Pairs(lines), (record: (string, string)) => ParseRecord(record.0, record.1))
  }

  /**
   * Counting the iterator's output: a log that parses yields one bump per
   * pair of lines, bump `k` parsed from lines `2k` and `2k + 1`.
   */
  lemma ParseLogCount(lines: seq<string>)
    ensures ParseLog(lines).Ok? <==>
      forall k :: 0 <= k < |lines| / 2 ==> ParseRecord(lines[2 * k], lines[2 * k + 1]).Ok?
    ensures ParseLog(lines).Ok? ==> |ParseLog(lines).value| == |lines| / 2
    ensures ParseLog(lines).Ok? ==> forall k :: 0 <= k < |lines| / 2 ==>
      ParseRecord(lines[2 * k], lines[2 * k + 1]) == Ok(ParseLog(lines).value[k])
  {
    MapAllEach(Pairs(lines), (record: (string, string)) => ParseRecord(record.0, record.1));
  }

  /** One step of the iterator: the log parses iff its first record does and the rest of it does. */
  lemma ParseLogStep(lines: seq<string>)
    requires |lines| >= 2
    ensures ParseLog(lines).Ok? <==> ParseRecord(lines[0], lines[1]).Ok? && ParseLog(lines[2..]).Ok?
  {
    assert Pairs(lines)[0] == (lines[0], lines[1]);
    assert Pairs(lines)[1..] == Pairs(lines[2..]);
  }

  /**
   * The state `read_from_stdin`'s closure works on: the piped log output and
   * how far `read_line` has consumed it.
   */
  class BumpReader {
    const lines: seq<string>
    var pos: nat

    ghost predicate Valid()
      reads this
    {
      pos <= |lines|
    }

    constructor (lines: seq<string>)
      ensures Valid() && this.lines == lines && pos == 0
    {
      this.lines := lines;
      pos := 0;
    }

    /** `read_line`: the next line, or `None` at the end of the input. */
    method ReadLine() returns (line: Option<string>)
      requires Valid()
      modifies this
      ensures Valid()
      ensures old(pos) < |lines| ==> line == Some(lines[old(pos)]) && pos == old(pos) + 1
      ensures old(pos) == |lines| ==> line == None && pos == old(pos)
    {
      if pos == |lines| {
        return None;
      }
      line := Some(lines[pos]);
      pos := pos + 1;
    }

    /**
     * One call of the `from_fn` closure: reads two lines and parses them, or
     * ends the iteration when fewer than two are left (having consumed the
     * last one, if any).
     */
    method Next() returns (bump: Option<Result<Bump, ParseError>>)
      requires Valid()
      modifies this
      ensures Valid()
      ensures old(pos) + 2 <= |lines| ==>
        pos == old(pos) + 2 && bump == Some(ParseRecord(lines[old(pos)], lines[old(pos) + 1]))
      ensures old(pos) + 2 > |lines| ==> pos == |lines| && bump == None
    {
      ghost var start := pos;
      var first := ReadLine();
      var second := ReadLine();
      if first.None? || second.None? {
        return None;
      }
      assert first.value == lines[start] && second.value == lines[start + 1];
      bump := Some(ParseRecord(first.value, second.value));
    }
  }
}
