/**
 * The `main` driver (src/main.rs:150-272): parse the release tags, walk the
 * host-bump records, ask the repositories about each one, group the entries
 * by release and print both summaries. The `git` invocations are the
 * functions of a `Queries` value.
 */
module Pipeline {
  import opened Wrappers
  import opened Text
  import opened Collect
  import opened Bumps
  import opened Releases
  import opened Report

  /** What the `git` invocations answer, as functions of their argument. */
  datatype Queries = Queries(
    /** Standard output of `git log -n 1 --pretty=%cI%x09%H <host commit>` in the host repository. */
    hostDetails: string -> string,
    /** The output lines of `git log --pretty=%H <range> --left-right` in the dependent repository. */
    rangeLog: string -> seq<string>,
    /** Standard output of `git log -n 1 --pretty=%ci%x09%H%x09%s <commit>` in the dependent repository. */
    childDetails: string -> string,
    /** Whether `git merge-base --is-ancestor <commit> upstream/master` succeeds. */
    isAncestor: string -> bool)

  /** The panics of `main` that the model keeps. */
  datatype Failure =
    | BadTagLine(tagError: TagError)
    | BadRecord(parseError: ParseError)
    | MissingDate(details: string)  // `split_whitespace().nth(0).unwrap()` on blank output

  /** The `ChildCommit` built for one line of the range's log. */
  function Child(q: Queries, commit: string): ChildCommit {
    ChildCommit(CommitWithDetails(commit, Trim(q.childDetails(commit))), q.isAncestor(commit))
  }

  /** `children_details.lines().map(..).collect()`. */
  function Children(q: Queries, commits: seq<string>): seq<ChildCommit> {
    seq(|commits|, k requires 0 <= k < |commits| => Child(q, commits[k]))
  }

  /** The symmetric-difference range handed to `git log`: `start...end`. */
  function RangeArgument(bump: Bump): string {
    bump.start + "..." + bump.end
  }

  /**
   * The body of the loop for one bump: the release key and the entry pushed
   * under it, or the panic on a host commit whose details have no first word.
   */
  function Visit(q: Queries, tags: seq<Tag>, bump: Bump): Result<(string, Entry), Failure> {
    var details := q.hostDetails(bump.host);
    match FirstToken(details)
    case None => Err(MissingDate(details))
    case Some(date) =>
      Ok((LatestBefore(tags, date),
          Entry(CommitWithDetails(bump.host, Trim(details)), Children(q, q.rangeLog(RangeArgument(bump))))))
  }

  /** The loop over the records of `lines`, starting from the map `groups`. */
  function Process(lines: seq<string>, tags: seq<Tag>, q: Queries, groups: seq<Group>): Result<seq<Group>, Failure>
    decreases |lines|
  {
    if |lines| < 2 then Ok(groups)
    else
      match ParseRecord(lines[0], lines[1])
      case Err(e) => Err(BadRecord(e))
      case Ok(bump) =>
        match Visit(q, tags, bump)
        case Err(f) => Err(f)
        case Ok(v) => Process(lines[2..], tags, q, Insert(groups, v.0, v.1))
  }

  /** The printed lines: the summary, a blank line, the marker, the reduced summary, a blank line. */
  function Printed(groups: seq<Group>): seq<string> {
    Summary(groups) + ["", ">>> Reduced"] + Summary(Reduced(groups)) + [""]
  }

  /** What `main` prints, given the log output and the tag list, or the panic that stops it. */
  function Output(logLines: seq<string>, tagLines: seq<string>, q: Queries): Result<seq<string>, Failure> {
    match ParseTags(tagLines)
    case Err(e) => Err(BadTagLine(e))
    case Ok(tags) =>
      match Process(logLines, tags, q, [])
      case Err(f) => Err(f)
      case Ok(groups) => Ok(Printed(groups))
  }

  /** Every record of the log adds exactly one entry to the map. */
  lemma {:induction false} ProcessTotal(lines: seq<string>, tags: seq<Tag>, q: Queries, groups: seq<Group>)
    requires Process(lines, tags, q, groups).Ok?
    ensures TotalEntries(Process(lines, tags, q, groups).value) == TotalEntries(groups) + |lines| / 2
    decreases |lines|
  {
    if |lines| >= 2 {
      var bump := ParseRecord(lines[0], lines[1]).value;
      var v := Visit(q, tags, bump).value;
      InsertTotal(groups, v.0, v.1);
      ProcessTotal(lines[2..], tags, q, Insert(groups, v.0, v.1));
    }
  }

  /** The map stays ordered, with no empty list. */
  lemma {:induction false} ProcessValid(lines: seq<string>, tags: seq<Tag>, q: Queries, groups: seq<Group>)
    requires Valid(groups) && Process(lines, tags, q, groups).Ok?
    ensures Valid(Process(lines, tags, q, groups).value)
    decreases |lines|
  {
    if |lines| >= 2 {
      var bump := ParseRecord(lines[0], lines[1]).value;
      var v := Visit(q, tags, bump).value;
      InsertValid(groups, v.0, v.1);
      ProcessValid(lines[2..], tags, q, Insert(groups, v.0, v.1));
    }
  }

  /** A run that finishes has parsed every record of the log. */
  lemma {:induction false} ProcessParsesLog(lines: seq<string>, tags: seq<Tag>, q: Queries, groups: seq<Group>)
    requires Process(lines, tags, q, groups).Ok?
    ensures ParseLog(lines).Ok?
    decreases |lines|
  {
    if |lines| >= 2 {
      var bump := ParseRecord(lines[0], lines[1]).value;
      var v := Visit(q, tags, bump).value;
      ProcessParsesLog(lines[2..], tags, q, Insert(groups, v.0, v.1));
      ParseLogStep(lines);
    }
  }

  /**
   * A successful run prints an ordered map that holds one entry per record:
   * its summary, then the marker, then the summary of its reduced copy.
   */
  lemma OutputLayout(logLines: seq<string>, tagLines: seq<string>, q: Queries)
    requires Output(logLines, tagLines, q).Ok?
    ensures ParseLog(logLines).Ok?
    ensures exists groups ::
      && Valid(groups)
      && TotalEntries(groups) == |logLines| / 2
      && Output(logLines, tagLines, q).value == Printed(groups)
  {
    var tags := ParseTags(tagLines).value;
    var groups := Process(logLines, tags, q, []).value;
    ProcessTotal(logLines, tags, q, []);
    ProcessValid(logLines, tags, q, []);
    ProcessParsesLog(logLines, tags, q, []);
  }

  /**
   * `main`: reads the tags, then bumps from the reader one at a time,
   * resolves each one's release by binary search and pushes its entry, and
   * finally renders both summaries.
   */
  method Run(logLines: seq<string>, tagLines: seq<string>, q: Queries) returns (out: Result<seq<string>, Failure>)
    requires ParseTags(tagLines).Ok? ==> StrictlyAscending(ParseTags(tagLines).value)
    ensures out == Output(logLines, tagLines, q)
  {
    var parsed := ParseTags(tagLines);
    if parsed.Err? {
      return Err(BadTagLine(parsed.error));
    }
    var tags := parsed.value;
    var reader := new BumpReader(logLines);
    var groups: seq<Group> := [];
    while true
      invariant reader.Valid() && reader.lines == logLines
      invariant Process(logLines, tags, q, []) == Process(logLines[reader.pos..], tags, q, groups)
      decreases |logLines| - reader.pos
    {
      ghost var rest := logLines[reader.pos..];
      var next := reader.Next();
      if next.None? {
        assert |rest| < 2;
        break;
      }
      assert rest[0] == logLines[reader.pos - 2] && rest[1] == logLines[reader.pos - 1];
      assert rest[2..] == logLines[reader.pos..];
      if next.value.Err? {
        return Err(BadRecord(next.value.error));
      }
      var bump := next.value.value;
      var details := q.hostDetails(bump.host);
      var date := FirstToken(details);
      if date.None? {
        return Err(MissingDate(details));
      }
      var release := ResolveRelease(tags, date.value);
      var children := Children(q, q.rangeLog(RangeArgument(bump)));
      groups := Insert(groups, release, Entry(CommitWithDetails(bump.host, Trim(details)), children));
    }
    var summary := Render(groups);
    var reduced := Render(Reduced(groups));
    out := Ok(summary + ["", ">>> Reduced"] + reduced + [""]);
  }
}
