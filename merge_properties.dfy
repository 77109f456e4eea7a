/** What the merge decision guarantees, stated over the specification
    functions of module Merge. */
module MergeProperties {
  import opened Outcomes
  import opened Library
  import opened FileCrawl
  import opened Merge

  // ---------------------------------------------------------------------------
  // The acceptance rule

  lemma {:induction false} AcceptedMembers(target: seq<Entry>, cands: seq<Entry>,
                                           dup: (Entry, Entry) -> bool, c: Entry)
    ensures c in Accepted(target, cands, dup) <==> c in cands && Admissible(c, target, dup)
    decreases |cands|
  {
    if cands != [] {
      var cands' := cands[..|cands| - 1];
      AcceptedMembers(target, cands', dup, c);
      assert cands == cands' + [cands[|cands| - 1]];
    }
  }

  lemma CandidatesSnoc(files: seq<seq<Entry>>, f: seq<Entry>)
    ensures Candidates(files + [f]) == Candidates(files) + Elements(f)
  {
    var all := files + [f];
    forall c | c in Candidates(all)
      ensures c in Candidates(files) + Elements(f)
    {
      var i, j :| 0 <= i < |all| && 0 <= j < |all[i]| && all[i][j] == c;
      if i < |files| {
        assert files[i][j] == c;
      }
    }
    forall c | c in Candidates(files) + Elements(f)
      ensures c in Candidates(all)
    {
      if c in Candidates(files) {
        var i, j :| 0 <= i < |files| && 0 <= j < |files[i]| && files[i][j] == c;
        assert all[i][j] == c;
      } else {
        var j :| 0 <= j < |f| && f[j] == c;
        assert all[|files|][j] == c;
      }
    }
  }

  /** A loaded entry ends up in `toAdd` exactly when, for every entry of the
      target, it is not equal to it, does not share its citation key and is
      not a duplicate of it. The early exits only shorten the scan. */
  lemma {:induction false} ToAddMembers(target: seq<Entry>, files: seq<seq<Entry>>,
                                        dup: (Entry, Entry) -> bool, c: Entry)
    ensures c in ToAdd(target, files, dup) <==> c in Candidates(files) && Admissible(c, target, dup)
    decreases |files|
  {
    if files == [] {
      assert Candidates(files) == {};
    } else {
      var files', f := files[..|files| - 1], files[|files| - 1];
      ToAddMembers(target, files', dup, c);
      AcceptedMembers(target, f, dup, c);
      CandidatesSnoc(files', f);
      assert files == files' + [f];
    }
  }

  /** Any one of the three rules against any target entry keeps a candidate
      out: equality, the same citation key, or the duplicate checker. */
  lemma ClashRejects(target: seq<Entry>, files: seq<seq<Entry>>, dup: (Entry, Entry) -> bool,
                     c: Entry, t: Entry)
    requires t in target && Clashes(c, t, dup)
    ensures c !in ToAdd(target, files, dup)
  {
    ToAddMembers(target, files, dup, c);
  }

  /** Keys are compared as optional values: a candidate without a citation key
      is rejected as soon as the target holds any entry without one, whatever
      their fields. */
  lemma KeylessCandidateRejected(target: seq<Entry>, files: seq<seq<Entry>>,
                                 dup: (Entry, Entry) -> bool, c: Entry, t: Entry)
    requires t in target && t.key == None && c.key == None
    ensures c !in ToAdd(target, files, dup)
  {
    ClashRejects(target, files, dup, c, t);
  }

  /** Into an empty library every loaded entry is added; equal entries,
      from one file or from several, collapse into one set member. */
  lemma EmptyTargetAcceptsAll(files: seq<seq<Entry>>, dup: (Entry, Entry) -> bool)
    ensures ToAdd([], files, dup) == Candidates(files)
  {
    forall c ensures c in ToAdd([], files, dup) <==> c in Candidates(files) {
      ToAddMembers([], files, dup, c);
    }
  }

  /** The same new entry loaded from two files is inserted once: it lands at
      exactly one position after the target's original entries. */
  lemma CrossFileCollapse(target: seq<Entry>, files: seq<seq<Entry>>, dup: (Entry, Entry) -> bool,
                          c: Entry, i: nat, j: nat, after: seq<Entry>)
    requires i < j < |files| && c in files[i] && c in files[j]
    requires Admissible(c, target, dup)
    requires AppendsExactly(target, after, ToAdd(target, files, dup))
    ensures c !in target
    ensures c in after[|target|..]
    ensures forall m, n :: |target| <= m < n < |after| && after[m] == c ==> after[n] != c
  {
    assert forall k :: 0 <= k < |target| ==> target[k] != c;
    var k :| 0 <= k < |files[i]| && files[i][k] == c;
    assert c in Candidates(files);
    ToAddMembers(target, files, dup, c);
    var added := after[|target|..];
    assert c in Elements(added);
    forall m, n | |target| <= m < n < |after|
      ensures after[m] != after[n]
    {
      assert added[m - |target|] != added[n - |target|];
    }
  }

  /** Worked case: one entry loaded from two files into an empty library. */
  lemma CrossFileCollapseExample(c: Entry, dup: (Entry, Entry) -> bool, after: seq<Entry>)
    requires AppendsExactly([], after, ToAdd([], [[c], [c]], dup))
    ensures after == [c]
  {
    EmptyTargetAcceptsAll([[c], [c]], dup);
    assert [[c], [c]][0][0] == c;
    assert Candidates([[c], [c]]) == {c};
    assert after[0..] == after;
    assert c in after;
    NoDupCard(after);
  }

  // ---------------------------------------------------------------------------
  // Acceptance depends only on the original target

  /** Files are judged independently of one another: the set for a list of
      files is the union of the sets for its parts. */
  lemma ToAddSplit(target: seq<Entry>, f1: seq<seq<Entry>>, f2: seq<seq<Entry>>,
                   dup: (Entry, Entry) -> bool)
    ensures ToAdd(target, f1 + f2, dup) == ToAdd(target, f1, dup) + ToAdd(target, f2, dup)
  {
    forall c ensures c in ToAdd(target, f1 + f2, dup) <==> c in ToAdd(target, f1, dup) + ToAdd(target, f2, dup) {
      ToAddMembers(target, f1 + f2, dup, c);
      ToAddMembers(target, f1, dup, c);
      ToAddMembers(target, f2, dup, c);
      CandidatesAppend(f1, f2, c);
    }
  }

  lemma CandidatesAppend(f1: seq<seq<Entry>>, f2: seq<seq<Entry>>, c: Entry)
    ensures c in Candidates(f1 + f2) <==> c in Candidates(f1) || c in Candidates(f2)
  {
    var all := f1 + f2;
    if c in Candidates(all) {
      var i, j :| 0 <= i < |all| && 0 <= j < |all[i]| && all[i][j] == c;
      if i < |f1| {
        assert f1[i][j] == c;
      } else {
        assert f2[i - |f1|][j] == c;
      }
    }
    if c in Candidates(f1) {
      var i, j :| 0 <= i < |f1| && 0 <= j < |f1[i]| && f1[i][j] == c;
      assert all[i][j] == c;
    }
    if c in Candidates(f2) {
      var i, j :| 0 <= i < |f2| && 0 <= j < |f2[i]| && f2[i][j] == c;
      assert all[|f1| + i][j] == c;
    }
  }

  /** Candidates are never compared with each other: two entries each
      admissible against the target are both added, even when they share a
      citation key or the duplicate checker calls them duplicates. */
  lemma CandidatesNotComparedWithEachOther(target: seq<Entry>, a: Entry, b: Entry,
                                           dup: (Entry, Entry) -> bool)
    requires Admissible(a, target, dup) && Admissible(b, target, dup)
    ensures ToAdd(target, [[a], [b]], dup) == {a, b}
  {
    forall c ensures c in ToAdd(target, [[a], [b]], dup) <==> c in {a, b} {
      ToAddMembers(target, [[a], [b]], dup, c);
      assert [[a], [b]][0][0] == a && [[a], [b]][1][0] == b;
    }
  }

  /** The outcome depends on the loaded entries only as a set: the order of the
      files and of the entries in them does not change it. */
  lemma ToAddDependsOnlyOnCandidateSet(target: seq<Entry>, f1: seq<seq<Entry>>, f2: seq<seq<Entry>>,
                                       dup: (Entry, Entry) -> bool)
    requires Candidates(f1) == Candidates(f2)
    ensures ToAdd(target, f1, dup) == ToAdd(target, f2, dup)
  {
    forall c ensures c in ToAdd(target, f1, dup) <==> c in ToAdd(target, f2, dup) {
      ToAddMembers(target, f1, dup, c);
      ToAddMembers(target, f2, dup, c);
    }
  }

  /** A target holding more entries admits no more candidates. */
  lemma LargerTargetAdmitsLess(t1: seq<Entry>, t2: seq<Entry>, files: seq<seq<Entry>>,
                               dup: (Entry, Entry) -> bool)
    requires Elements(t1) <= Elements(t2)
    ensures ToAdd(t2, files, dup) <= ToAdd(t1, files, dup)
  {
    forall c | c in ToAdd(t2, files, dup) ensures c in ToAdd(t1, files, dup) {
      ToAddMembers(t2, files, dup, c);
      ToAddMembers(t1, files, dup, c);
      forall k | 0 <= k < |t1| ensures !Clashes(c, t1[k], dup) {
        assert t1[k] in Elements(t2);
        var m :| 0 <= m < |t2| && t2[m] == t1[k];
      }
    }
  }

  // ---------------------------------------------------------------------------
  // Idempotence

  /** After the merge every loaded entry is rejected: either some original
      entry already rejected it, or it is now itself in the target. */
  lemma ToAddAfterMergeIsEmpty(target: seq<Entry>, after: seq<Entry>, files: seq<seq<Entry>>,
                               dup: (Entry, Entry) -> bool)
    requires AppendsExactly(target, after, ToAdd(target, files, dup))
    ensures ToAdd(after, files, dup) == {}
  {
    forall c | c in Candidates(files) ensures !Admissible(c, after, dup) {
      ToAddMembers(target, files, dup, c);
      if Admissible(c, target, dup) {
        assert c in Elements(after[|target|..]);
        var m :| 0 <= m < |after[|target|..]| && after[|target|..][m] == c;
        assert Clashes(c, after[|target| + m], dup);
      } else {
        var k :| 0 <= k < |target| && Clashes(c, target[k], dup);
        assert after[k] == target[k];
      }
    }
    forall c ensures c !in ToAdd(after, files, dup) {
      ToAddMembers(after, files, dup, c);
    }
  }

  /** Inserting an empty set leaves the entries as they were. */
  lemma AppendsNothing(before: seq<Entry>, after: seq<Entry>)
    requires AppendsExactly(before, after, {})
    ensures after == before
  {
    var tail := after[|before|..];
    NoDupCard(tail);
    assert after == after[..|before|] + tail;
  }

  /** Merging the same directory again into the merged library adds nothing. */
  lemma MergeIdempotent(root: Node, load: string -> LoadOutcome, dup: (Entry, Entry) -> bool,
                        target: seq<Entry>, after: seq<Entry>)
    requires MergeOutcome(root, load, dup, target).Ok?
    requires AppendsExactly(target, after, MergeOutcome(root, load, dup, target).value)
    ensures MergeOutcome(root, load, dup, after) == Ok({})
  {
    var files := LoadAll(AllFiles(root).value, load).value;
    ToAddAfterMergeIsEmpty(target, after, files, dup);
  }

  // ---------------------------------------------------------------------------
  // Failure

  /** Loading fails exactly when some file's load throws; otherwise the i-th
      entry list is what the i-th file loaded. */
  lemma {:induction false} LoadAllSpec(paths: seq<string>, load: string -> LoadOutcome)
    ensures LoadAll(paths, load).Err? <==> exists k :: 0 <= k < |paths| && load(paths[k]).Fatal?
    ensures LoadAll(paths, load).Ok? ==>
      |LoadAll(paths, load).value| == |paths| &&
      forall k :: 0 <= k < |paths| ==> Loaded(LoadAll(paths, load).value[k]) == load(paths[k])
    decreases |paths|
  {
    if paths != [] {
      var paths' := paths[..|paths| - 1];
      LoadAllSpec(paths', load);
      assert forall k :: 0 <= k < |paths'| ==> paths'[k] == paths[k];
    }
  }

  /** A merge throws exactly when the crawl fails or some crawled file fails to
      load; the target plays no part in that. */
  lemma MergeFailsIff(root: Node, load: string -> LoadOutcome, dup: (Entry, Entry) -> bool,
                      target: seq<Entry>)
    ensures MergeOutcome(root, load, dup, target).Err? <==>
      !Crawlable(root) ||
      (AllFiles(root).Ok? && exists p :: p in AllFiles(root).value && load(p).Fatal?)
  {
    AllFilesSucceeds(root);
    if AllFiles(root).Ok? {
      var paths := AllFiles(root).value;
      LoadAllSpec(paths, load);
      if exists p :: p in paths && load(p).Fatal? {
        var p :| p in paths && load(p).Fatal?;
        var k :| 0 <= k < |paths| && paths[k] == p;
      }
    }
  }

  // ---------------------------------------------------------------------------
  // A worked scenario

  /** The library holds one entry keyed "smith2020"; one file brings another
      entry with that key and different fields, another file an entry keyed
      "doe2021". Only the latter is added. */
  lemma KeyCollisionScenario(dup: (Entry, Entry) -> bool)
    requires !dup(Entry("article", map["title" := "C"], Some("doe2021")),
                  Entry("article", map["title" := "A"], Some("smith2020")))
    ensures ToAdd([Entry("article", map["title" := "A"], Some("smith2020"))],
                  [[Entry("article", map["title" := "B"], Some("smith2020"))],
                   [Entry("article", map["title" := "C"], Some("doe2021"))]], dup)
            == {Entry("article", map["title" := "C"], Some("doe2021"))}
  {
    var a := Entry("article", map["title" := "A"], Some("smith2020"));
    var b := Entry("article", map["title" := "B"], Some("smith2020"));
    var c := Entry("article", map["title" := "C"], Some("doe2021"));
    assert [a][0] == a;
    assert Clashes(b, a, dup) && !Admissible(b, [a], dup);
    assert "doe2021" != "smith2020";
    assert !Clashes(c, a, dup) && Admissible(c, [a], dup);
    forall x ensures x in ToAdd([a], [[b], [c]], dup) <==> x == c {
      ToAddMembers([a], [[b], [c]], dup, x);
      assert [[b], [c]][0][0] == b && [[b], [c]][1][0] == c;
      if x in Candidates([[b], [c]]) {
        var i, j :| 0 <= i < 2 && 0 <= j < |[[b], [c]][i]| && [[b], [c]][i][j] == x;
      }
    }
  }
}
