/**
 * The report (src/main.rs:20-26, 118-149, 184, 255-271): host bumps grouped
 * by release in a `BTreeMap`, the reduced copy keeping only releases with an
 * orphaned dependent commit, and the `Summary` rendering.
 */
module Report {
  import opened Text

  datatype CommitWithDetails = CommitWithDetails(commit: string, details: string)

  /** A dependent-project commit in a bump's range, and whether upstream's mainline still contains it. */
  datatype ChildCommit = ChildCommit(detailed: CommitWithDetails, isAncestor: bool)

  /** One host bump: the host commit and the dependent commits of its range, in query order. */
  datatype Entry = Entry(parent: CommitWithDetails, children: seq<ChildCommit>)

  /** One key of the map with its list. */
  datatype Group = Group(release: string, entries: seq<Entry>)

  /** The keys of the map. */
  function Keys(groups: seq<Group>): set<string> {
    if groups == [] then {} else {groups[0].release} + Keys(groups[1..])
  }

  /** Every key of `groups` sorts after `key`. */
  predicate Below(key: string, groups: seq<Group>) {
    forall k :: k in Keys(groups) ==> LexLess(key, k)
  }

  /**
   * A `BTreeMap<&str, Vec<Entry>>` as its in-order contents: each key sorts
   * before all later ones in byte order, and no list is empty, since
   * `or_default` is always followed by a push.
   */
  predicate Valid(groups: seq<Group>) {
    groups == [] ||
    (groups[0].entries != [] && Below(groups[0].release, groups[1..]) && Valid(groups[1..]))
  }

  /** Valid maps hold their keys strictly ascending, pair by pair, and no empty list. */
  lemma {:induction false} ValidSorted(groups: seq<Group>)
    requires Valid(groups)
    ensures forall i, j :: 0 <= i < j < |groups| ==> LexLess(groups[i].release, groups[j].release)
    ensures forall i :: 0 <= i < |groups| ==> groups[i].entries != []
  {
    if groups != [] {
      ValidSorted(groups[1..]);
      forall j | 0 < j < |groups| ensures LexLess(groups[0].release, groups[j].release) {
        KeysHas(groups[1..], j - 1);
      }
      forall i, j | 0 <= i < j < |groups| ensures LexLess(groups[i].release, groups[j].release) {
        if i > 0 {
          assert groups[1..][i - 1] == groups[i] && groups[1..][j - 1] == groups[j];
        }
      }
    }
  }

  lemma {:induction false} KeysHas(groups: seq<Group>, i: nat)
    requires i < |groups|
    ensures groups[i].release in Keys(groups)
  {
    if i > 0 {
      KeysHas(groups[1..], i - 1);
    }
  }

  /** The list stored under `release`, empty when the key is absent. */
  function Lookup(groups: seq<Group>, release: string): seq<Entry> {
    if groups == [] then []
    else if groups[0].release == release then groups[0].entries
    else Lookup(groups[1..], release)
  }

  function TotalEntries(groups: seq<Group>): nat {
    if groups == [] then 0 else |groups[0].entries| + TotalEntries(groups[1..])
  }

  /** A key that is not in the map has an empty list. */
  lemma {:induction false} LookupAbsent(groups: seq<Group>, release: string)
    requires release !in Keys(groups)
    ensures Lookup(groups, release) == []
  {
    if groups != [] {
      LookupAbsent(groups[1..], release);
    }
  }

  /** A key below every key of the map is not one of them. */
  lemma BelowAbsent(key: string, groups: seq<Group>)
    requires Below(key, groups)
    ensures key !in Keys(groups) && Lookup(groups, key) == []
  {
    assert !LexLess(key, key);
    LookupAbsent(groups, key);
  }

  /** `commits.entry(release).or_default().push(entry)`. */
  function Insert(groups: seq<Group>, release: string, entry: Entry): seq<Group> {
    if groups == [] then [Group(release, [entry])]
    else if groups[0].release == release then [Group(release, groups[0].entries + [entry])] + groups[1..]
    else if LexLess(release, groups[0].release) then [Group(release, [entry])] + groups
    else [groups[0]] + Insert(groups[1..], release, entry)
  }

  /** A push adds its release to the keys, and no other. */
  lemma {:induction false} InsertKeys(groups: seq<Group>, release: string, entry: Entry)
    ensures Keys(Insert(groups, release, entry)) == Keys(groups) + {release}
  {
    if groups != [] && groups[0].release != release && !LexLess(release, groups[0].release) {
      InsertKeys(groups[1..], release, entry);
      assert Insert(groups, release, entry)[1..] == Insert(groups[1..], release, entry);
    } else if groups != [] {
      assert Insert(groups, release, entry)[1..] == (if groups[0].release == release then groups[1..] else groups);
    }
  }

  /** A push keeps the map ordered, with no empty list. */
  lemma {:induction false} InsertValid(groups: seq<Group>, release: string, entry: Entry)
    requires Valid(groups)
    ensures Valid(Insert(groups, release, entry))
  {
    var r := Insert(groups, release, entry);
    if groups == [] {
      assert r[1..] == [];
    } else if groups[0].release == release {
      assert r[1..] == groups[1..];
    } else if LexLess(release, groups[0].release) {
      assert r[1..] == groups;
      forall k | k in Keys(groups) ensures LexLess(release, k) {
        if k != groups[0].release {
          LexLessTransitive(release, groups[0].release, k);
        }
      }
    } else {
      InsertValid(groups[1..], release, entry);
      InsertKeys(groups[1..], release, entry);
      LexLessTotal(release, groups[0].release);
      assert r[1..] == Insert(groups[1..], release, entry);
    }
  }

  /** A push appends the entry at the end of its release's list and leaves every other release's list as it was. */
  lemma {:induction false} InsertLookup(groups: seq<Group>, release: string, entry: Entry, key: string)
    requires Valid(groups)
    ensures Lookup(Insert(groups, release, entry), key) ==
            if key == release then Lookup(groups, key) + [entry] else Lookup(groups, key)
  {
    var r := Insert(groups, release, entry);
    if groups == [] {
      assert r[1..] == [];
    } else if groups[0].release == release {
      assert r[1..] == groups[1..];
    } else if LexLess(release, groups[0].release) {
      assert r[1..] == groups;
      if key == release {
        forall k | k in Keys(groups) ensures LexLess(release, k) {
          if k != groups[0].release {
            LexLessTransitive(release, groups[0].release, k);
          }
        }
        BelowAbsent(release, groups);
      }
    } else {
      InsertLookup(groups[1..], release, entry, key);
      assert r[1..] == Insert(groups[1..], release, entry);
    }
  }

  /** A push adds exactly one entry to the map. */
  lemma {:induction false} InsertTotal(groups: seq<Group>, release: string, entry: Entry)
    ensures TotalEntries(Insert(groups, release, entry)) == TotalEntries(groups) + 1
  {
    var r := Insert(groups, release, entry);
    if groups == [] {
      assert r[1..] == [];
    } else if groups[0].release == release {
      assert r[1..] == groups[1..];
    } else if LexLess(release, groups[0].release) {
      assert r[1..] == groups;
    } else {
      InsertTotal(groups[1..], release, entry);
      assert r[1..] == Insert(groups[1..], release, entry);
    }
  }

  // ---------------------------------------------------------------------------
  // The reduced view

  /** `children.iter().any(|child| !child.is_ancestor)`. */
  function AnyOrphan(children: seq<ChildCommit>): bool {
    if children == [] then false
    else !children[0].isAncestor || AnyOrphan(children[1..])
  }

  /** `entries.iter().flat_map(|(_, children)| children).any(|child| !child.is_ancestor)`. */
  function HasOrphan(entries: seq<Entry>): bool {
    if entries == [] then false
    else AnyOrphan(entries[0].children) || HasOrphan(entries[1..])
  }

  /** The loop over entries and children finds an orphan iff some child of some entry is not an ancestor. */
  lemma {:induction false} HasOrphanExists(entries: seq<Entry>)
    ensures HasOrphan(entries) <==>
      exists i, j :: 0 <= i < |entries| && 0 <= j < |entries[i].children| && !entries[i].children[j].isAncestor
  {
    if entries != [] {
      HasOrphanExists(entries[1..]);
      AnyOrphanExists(entries[0].children);
      if HasOrphan(entries[1..]) {
        var i, j :| 0 <= i < |entries[1..]| && 0 <= j < |entries[1..][i].children|
          && !entries[1..][i].children[j].isAncestor;
        assert entries[i + 1] == entries[1..][i];
      }
      if exists i, j :: 0 <= i < |entries| && 0 <= j < |entries[i].children| && !entries[i].children[j].isAncestor {
        var i, j :| 0 <= i < |entries| && 0 <= j < |entries[i].children| && !entries[i].children[j].isAncestor;
        if i > 0 {
          assert entries[1..][i - 1] == entries[i];
        }
      }
    }
  }

  lemma {:induction false} AnyOrphanExists(children: seq<ChildCommit>)
    ensures AnyOrphan(children) <==> exists j :: 0 <= j < |children| && !children[j].isAncestor
  {
    if children != [] {
      AnyOrphanExists(children[1..]);
      if exists j :: 0 <= j < |children| && !children[j].isAncestor {
        var j :| 0 <= j < |children| && !children[j].isAncestor;
        if j > 0 {
          assert children[1..][j - 1] == children[j];
        }
      }
    }
  }

  /** `BTreeMap::from_iter(commits.into_iter().filter(..))`: the releases with an orphan, in order. */
  function Reduced(groups: seq<Group>): (r: seq<Group>)
    ensures |r| <= |groups|
    ensures forall g :: g in r ==> g in groups && HasOrphan(g.entries)
  {
    if groups == [] then []
    else (if HasOrphan(groups[0].entries) then [groups[0]] else []) + Reduced(groups[1..])
  }

  /** The reduced map's keys are among the original's. */
  lemma {:induction false} ReducedKeys(groups: seq<Group>)
    ensures Keys(Reduced(groups)) <= Keys(groups)
  {
    if groups != [] {
      ReducedKeys(groups[1..]);
      var r := Reduced(groups);
      if HasOrphan(groups[0].entries) {
        assert r == [groups[0]] + Reduced(groups[1..]);
        assert r[1..] == Reduced(groups[1..]);
      } else {
        assert r == [] + Reduced(groups[1..]) == Reduced(groups[1..]);
      }
    }
  }

  /** The reduced map is still ordered, with no empty list. */
  lemma {:induction false} ReducedValid(groups: seq<Group>)
    requires Valid(groups)
    ensures Valid(Reduced(groups))
  {
    if groups != [] {
      ReducedValid(groups[1..]);
      ReducedKeys(groups[1..]);
      var r := Reduced(groups);
      if HasOrphan(groups[0].entries) {
        assert r == [groups[0]] + Reduced(groups[1..]);
        assert r[1..] == Reduced(groups[1..]);
      } else {
        assert r == [] + Reduced(groups[1..]) == Reduced(groups[1..]);
      }
    }
  }

  /**
   * The reduced map keeps a release iff one of its entries has a child that
   * is not an ancestor, and a kept release keeps all its entries.
   */
  lemma {:induction false} ReducedLookup(groups: seq<Group>, key: string)
    requires Valid(groups)
    ensures Lookup(Reduced(groups), key) == if HasOrphan(Lookup(groups, key)) then Lookup(groups, key) else []
  {
    if groups != [] {
      var rest := groups[1..];
      var r := Reduced(groups);
      ReducedLookup(rest, key);
      if key == groups[0].release {
        BelowAbsent(key, rest);
        ReducedKeys(rest);
        LookupAbsent(Reduced(rest), key);
      }
      if HasOrphan(groups[0].entries) {
        assert r == [groups[0]] + Reduced(rest);
        assert r[1..] == Reduced(rest);
      } else {
        assert r == [] + Reduced(rest) == Reduced(rest);
      }
    }
  }

  // ---------------------------------------------------------------------------
  // Rendering

  /** `ancestor_char`. */
  function AncestorChar(isAncestor: bool): char {
    if isAncestor then '✓' else '❌'
  }

  /** `writeln!(f, "({}) {}", release, parent.details)`. */
  function ParentLine(release: string, entry: Entry): string {
    "(" + release + ") " + entry.parent.details
  }

  /** `writeln!(f, "  ({}) {}", ancestor_char(child.is_ancestor), child.detailed.details)`. */
  function ChildLine(child: ChildCommit): string {
    "  (" + [AncestorChar(child.isAncestor)] + ") " + child.detailed.details
  }

  /** A child's line shows ✓ exactly when the child is an ancestor, ❌ otherwise, then its details. */
  lemma ChildLineMarker(child: ChildCommit)
    ensures ChildLine(child)[..3] == "  (" && ChildLine(child)[4..6] == ") "
    ensures ChildLine(child)[3] == '✓' <==> child.isAncestor
    ensures ChildLine(child)[3] == '❌' <==> !child.isAncestor
    ensures ChildLine(child)[6..] == child.detailed.details
  {
  }

  /** The child lines of one entry. */
  function ChildLines(children: seq<ChildCommit>): seq<string> {
    if children == [] then []
    else ChildLines(children[..|children| - 1]) + [ChildLine(children[|children| - 1])]
  }

  /** One line per child, in stored order. */
  lemma {:induction false} ChildLinesEach(children: seq<ChildCommit>)
    ensures |ChildLines(children)| == |children|
    ensures forall k :: 0 <= k < |children| ==> ChildLines(children)[k] == ChildLine(children[k])
  {
    if children != [] {
      var init := children[..|children| - 1];
      ChildLinesEach(init);
      forall k | 0 <= k < |children| - 1 ensures ChildLines(children)[k] == ChildLine(children[k]) {
        assert init[k] == children[k];
      }
    }
  }

  /** The lines of a release's entries, in stored order: each parent line followed by its children's. */
  function EntryLines(release: string, entries: seq<Entry>): seq<string> {
    if entries == [] then []
    else
      var last := entries[|entries| - 1];
      EntryLines(release, entries[..|entries| - 1]) + [ParentLine(release, last)] + ChildLines(last.children)
  }

  /** `Summary::fmt`: the releases from the greatest key down. */
  function Summary(groups: seq<Group>): seq<string> {
    if groups == [] then []
    else Summary(groups[1..]) + EntryLines(groups[0].release, groups[0].entries)
  }

  function TotalChildren(groups: seq<Group>): nat {
    if groups == [] then 0 else EntryChildren(groups[0].entries) + TotalChildren(groups[1..])
  }

  function EntryChildren(entries: seq<Entry>): nat {
    if entries == [] then 0 else EntryChildren(entries[..|entries| - 1]) + |entries[|entries| - 1].children|
  }

  /** The summary has one line per entry plus one per child. */
  lemma {:induction false} SummaryLineCount(groups: seq<Group>)
    ensures |Summary(groups)| == TotalEntries(groups) + TotalChildren(groups)
  {
    if groups != [] {
      SummaryLineCount(groups[1..]);
      EntryLinesCount(groups[0].release, groups[0].entries);
    }
  }

  lemma {:induction false} EntryLinesCount(release: string, entries: seq<Entry>)
    ensures |EntryLines(release, entries)| == |entries| + EntryChildren(entries)
  {
    if entries != [] {
      EntryLinesCount(release, entries[..|entries| - 1]);
      ChildLinesEach(entries[|entries| - 1].children);
    }
  }

  /**
   * Rendering goes in descending key order: the releases later in the map
   * come first.
   */
  lemma {:induction false} SummaryDescending(lower: seq<Group>, upper: seq<Group>)
    ensures Summary(lower + upper) == Summary(upper) + Summary(lower)
  {
    if lower == [] {
      assert lower + upper == upper;
    } else {
      assert (lower + upper)[1..] == lower[1..] + upper;
      SummaryDescending(lower[1..], upper);
    }
  }

  lemma ChildLinesSnoc(children: seq<ChildCommit>, c: nat)
    requires c < |children|
    ensures ChildLines(children[..c + 1]) == ChildLines(children[..c]) + [ChildLine(children[c])]
  {
    assert children[..c + 1][..c] == children[..c];
  }

  lemma EntryLinesSnoc(release: string, entries: seq<Entry>, e: nat)
    requires e < |entries|
    ensures EntryLines(release, entries[..e + 1])
         == EntryLines(release, entries[..e]) + [ParentLine(release, entries[e])] + ChildLines(entries[e].children)
  {
    assert entries[..e + 1][..e] == entries[..e];
  }

  lemma SummaryStep(groups: seq<Group>, i: nat)
    requires i < |groups|
    ensures Summary(groups[i..]) == Summary(groups[i + 1..]) + EntryLines(groups[i].release, groups[i].entries)
  {
    assert groups[i..][1..] == groups[i + 1..];
  }

  /** The innermost loop of `Summary::fmt`: one line per child, appended to `lines`. */
  method WriteChildren(lines: seq<string>, children: seq<ChildCommit>) returns (out: seq<string>)
    ensures out == lines + ChildLines(children)
  {
    out := lines;
    for c := 0 to |children|
      invariant out == lines + ChildLines(children[..c])
    {
      ChildLinesSnoc(children, c);
      out := out + [ChildLine(children[c])];
    }
    assert children[..|children|] == children;
  }

  /** The middle loop of `Summary::fmt`: each entry of one release, then its children. */
  method WriteEntries(lines: seq<string>, release: string, entries: seq<Entry>) returns (out: seq<string>)
    ensures out == lines + EntryLines(release, entries)
  {
    out := lines;
    for e := 0 to |entries|
      invariant out == lines + EntryLines(release, entries[..e])
    {
      EntryLinesSnoc(release, entries, e);
      out := WriteChildren(out + [ParentLine(release, entries[e])], entries[e].children);
    }
    assert entries[..|entries|] == entries;
  }

  /** `format!("{}", Summary(&commits))`, split into its lines: the outer loop over the releases, greatest first. */
  method Render(groups: seq<Group>) returns (lines: seq<string>)
    ensures lines == Summary(groups)
  {
    lines := [];
    var i := |groups|;
    while i > 0
      invariant 0 <= i <= |groups|
      invariant lines == Summary(groups[i..])
    {
      i := i - 1;
      SummaryStep(groups, i);
      lines := WriteEntries(lines, groups[i].release, groups[i].entries);
    }
  }
}
