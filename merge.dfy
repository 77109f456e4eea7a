/** The merge decision of `MergeCommand.doMerge`: every entry loaded from the
    `.bib` files below a directory is tested against every entry of the target
    library, and the entries no rule rejects are inserted into the target once,
    after all files have been read. */
module Merge {
  import opened Outcomes
  import opened Library
  import opened FileCrawl

  /** What loading one file hands back: its entries, or an exception that
      escapes the loader. A file the parser cannot read yields an empty
      entry list, not an exception. */
  datatype LoadOutcome = Loaded(entries: seq<Entry>) | Fatal

  /** Why `doMerge` throws instead of merging. */
  datatype MergeError = CrawlFailed(cause: CrawlError) | LoadFailed(path: string)

  datatype Status = Merged | Failed(error: MergeError)

  /** The three rejection rules, in their order: the candidate equals the target
      entry, has the same (optional) citation key, or the duplicate checker
      `dup` calls the two duplicates. */
  predicate Clashes(c: Entry, t: Entry, dup: (Entry, Entry) -> bool)
  {
    c == t || c.key == t.key || dup(c, t)
  }

  /** No entry of the target rejects the candidate. */
  predicate Admissible(c: Entry, target: seq<Entry>, dup: (Entry, Entry) -> bool)
  {
    forall k :: 0 <= k < |target| ==> !Clashes(c, target[k], dup)
  }

  /** The candidates of one file that are admitted, collected as a set. */
  function Accepted(target: seq<Entry>, cands: seq<Entry>, dup: (Entry, Entry) -> bool): set<Entry>
  {
    if cands == [] then {}
    else
      var c := cands[|cands| - 1];
      Accepted(target, cands[..|cands| - 1], dup) + (if Admissible(c, target, dup) then {c} else {})
  }

  /** The set `toAdd` after the given files have been processed, in order. */
  function ToAdd(target: seq<Entry>, files: seq<seq<Entry>>, dup: (Entry, Entry) -> bool): set<Entry>
  {
    if files == [] then {}
    else ToAdd(target, files[..|files| - 1], dup) + Accepted(target, files[|files| - 1], dup)
  }

  /** Every entry loaded from any of the files. */
  function Candidates(files: seq<seq<Entry>>): set<Entry>
  {
    set i, j | 0 <= i < |files| && 0 <= j < |files[i]| :: files[i][j]
  }

  /** Loads the files in order; the first file whose loading throws aborts. */
  function LoadAll(paths: seq<string>, load: string -> LoadOutcome): Result<seq<seq<Entry>>, MergeError>
  {
    if paths == [] then Ok([])
    else
      match LoadAll(paths[..|paths| - 1], load)
      case Err(e) => Err(e)
      case Ok(files) =>
        var p := paths[|paths| - 1];
        match load(p)
        case Fatal => Err(LoadFailed(p))
        case Loaded(es) => Ok(files + [es])
  }

  /** What a merge of the directory `root` into a library holding `target`
      does: throws, or inserts exactly the returned set. */
  function MergeOutcome(root: Node, load: string -> LoadOutcome, dup: (Entry, Entry) -> bool,
                        target: seq<Entry>): Result<set<Entry>, MergeError>
  {
    match AllFiles(root)
    case Err(e) => Err(CrawlFailed(e))
    case Ok(paths) =>
      match LoadAll(paths, load)
      case Err(e) => Err(e)
      case Ok(files) => Ok(ToAdd(target, files, dup))
  }

  lemma {:induction false} LoadAllErrSticks(paths: seq<string>, load: string -> LoadOutcome, k: nat)
    requires k <= |paths| && LoadAll(paths[..k], load).Err?
    ensures LoadAll(paths, load) == LoadAll(paths[..k], load)
    decreases |paths| - k
  {
    if k < |paths| {
      assert paths[..k + 1][..k] == paths[..k];
      LoadAllErrSticks(paths, load, k + 1);
    } else {
      assert paths[..k] == paths;
    }
  }

  /** The scan of one candidate over the target's entries, leaving the loop at
      the first rule that fires. */
  method Admit(entry: Entry, target: seq<Entry>, dup: (Entry, Entry) -> bool) returns (addFlag: bool)
    ensures addFlag <==> Admissible(entry, target, dup)
  {
    addFlag := true;
    var k := 0;
    while k < |target|
      invariant 0 <= k <= |target|
      invariant addFlag
      invariant forall m :: 0 <= m < k ==> !Clashes(entry, target[m], dup)
    {
      var dbEntry := target[k];
      if entry == dbEntry {
        addFlag := false;
        break;
      }
      if entry.key == dbEntry.key {
        addFlag := false;
        break;
      }
      if dup(entry, dbEntry) {
        addFlag := false;
        break;
      }
      k := k + 1;
    }
  }

  /** `doMerge`: crawl `root`, load each file, keep the admissible candidates in
      `toAdd`, then insert `toAdd` into the target in one step. */
  method DoMerge(root: Node, load: string -> LoadOutcome, dup: (Entry, Entry) -> bool,
                 database: BibDatabase) returns (status: Status)
    modifies database
    ensures match MergeOutcome(root, load, dup, old(database.entries))
      case Err(e) => status == Failed(e) && database.entries == old(database.entries)
      case Ok(added) => status == Merged && AppendsExactly(old(database.entries), database.entries, added)
  {
    var toAdd: set<Entry> := {};
    var listing := GetAllFiles(root);
    if listing.Err? {
      return Failed(CrawlFailed(listing.error));
    }
    var paths := listing.value;
    ghost var loaded: seq<seq<Entry>> := [];
    var i := 0;
    while i < |paths|
      invariant 0 <= i <= |paths|
      invariant database.entries == old(database.entries)
      invariant LoadAll(paths[..i], load) == Ok(loaded)
      invariant toAdd == ToAdd(database.entries, loaded, dup)
    {
      assert paths[..i + 1][..i] == paths[..i];
      var result := load(paths[i]);
      if result.Fatal? {
        LoadAllErrSticks(paths, load, i + 1);
        return Failed(LoadFailed(paths[i]));
      }
      var candidates := result.entries;
      var j := 0;
      while j < |candidates|
        invariant 0 <= j <= |candidates|
        invariant database.entries == old(database.entries)
        invariant toAdd == ToAdd(database.entries, loaded, dup) + Accepted(database.entries, candidates[..j], dup)
      {
        var entry := candidates[j];
        assert candidates[..j + 1][..j] == candidates[..j];
        var addFlag := Admit(entry, database.entries, dup);
        if addFlag {
          toAdd := toAdd + {entry};
        }
        j := j + 1;
      }
      assert candidates[..j] == candidates;
      assert (loaded + [candidates])[..|loaded|] == loaded;
      loaded := loaded + [candidates];
      i := i + 1;
    }
    assert paths[..i] == paths;
    var list := ListOf(toAdd);
    ghost var before := database.entries;
    database.InsertEntries(list);
    assert database.entries[..|before|] == before;
    assert database.entries[|before|..] == list;
    status := Merged;
  }
}
