/** The recursive crawl that collects the `.bib` files below a directory
    (`MergeCommand.getAllFiles`), over a finite directory tree. */
module FileCrawl {
  import opened Outcomes

  /** A directory tree as the crawl sees it. The order of `children` is the
      order in which the directory stream yields them. `Unreadable` is a
      directory whose listing fails with an I/O error. */
  datatype Node =
    | File(path: string)
    | Dir(path: string, children: seq<Node>)
    | Unreadable(path: string)

  /** The I/O errors the crawl raises: opening a directory stream on something
      that is not a directory, or on a directory that cannot be listed. */
  datatype CrawlError = NotADirectory(path: string) | ListingFailed(path: string)

  const BibSuffix: string := ".bib"

  predicate EndsWith(s: string, suffix: string)
  {
    |suffix| <= |s| && s[|s| - |suffix|..] == suffix
  }

  /** The case-sensitive test on the path string of a non-directory entry. */
  predicate IsBibFile(p: string)
  {
    EndsWith(p, BibSuffix)
  }

  /** What `getAllFiles(n)` returns or throws. */
  function AllFiles(n: Node): Result<seq<string>, CrawlError>
    decreases n
  {
    match n
    case File(p) => Err(NotADirectory(p))
    case Unreadable(p) => Err(ListingFailed(p))
    case Dir(_, cs) => ListChildren(cs)
  }

  /** The crawl of the entries `cs` of one directory, in order: a file is kept
      when it is a `.bib` file, a subdirectory's own list is spliced in, and the
      first failing subdirectory aborts the crawl. */
  function ListChildren(cs: seq<Node>): Result<seq<string>, CrawlError>
    decreases cs
  {
    if cs == [] then Ok([])
    else
      match ListChildren(cs[..|cs| - 1])
      case Err(e) => Err(e)
      case Ok(before) =>
        var c := cs[|cs| - 1];
        if c.File? then Ok(if IsBibFile(c.path) then before + [c.path] else before)
        else
          match AllFiles(c)
          case Err(e) => Err(e)
          case Ok(sub) => Ok(before + sub)
  }

  // ---------------------------------------------------------------------------
  // Reference definitions, independent of the crawl

  /** Every non-directory path in the tree, depth-first, in directory order. */
  function Leaves(n: Node): seq<string>
    decreases n
  {
    match n
    case File(p) => [p]
    case Unreadable(_) => []
    case Dir(_, cs) => LeavesOf(cs)
  }

  function LeavesOf(cs: seq<Node>): seq<string>
    decreases cs
  {
    if cs == [] then [] else LeavesOf(cs[..|cs| - 1]) + Leaves(cs[|cs| - 1])
  }

  /** The paths of `ps` that end with ".bib", in their order. */
  function BibOnly(ps: seq<string>): seq<string>
  {
    if ps == [] then []
    else BibOnly(ps[..|ps| - 1]) + (if IsBibFile(ps[|ps| - 1]) then [ps[|ps| - 1]] else [])
  }

  /** A directory every subdirectory of which, at any depth, can be listed. */
  predicate Crawlable(n: Node)
    decreases n
  {
    n.Dir? && forall c :: c in n.children ==> c.File? || Crawlable(c)
  }

  // ---------------------------------------------------------------------------
  // Properties of the crawl

  lemma {:induction false} BibOnlyAppend(a: seq<string>, b: seq<string>)
    ensures BibOnly(a + b) == BibOnly(a) + BibOnly(b)
    decreases |b|
  {
    if b == [] {
      assert a + b == a;
    } else {
      var b' := b[..|b| - 1];
      assert (a + b)[..|a + b| - 1] == a + b';
      BibOnlyAppend(a, b');
    }
  }

  lemma {:induction false} BibOnlyMembers(ps: seq<string>, p: string)
    ensures p in BibOnly(ps) <==> p in ps && IsBibFile(p)
    decreases |ps|
  {
    if ps != [] {
      var ps' := ps[..|ps| - 1];
      BibOnlyMembers(ps', p);
      assert ps == ps' + [ps[|ps| - 1]];
    }
  }

  /** The crawl fails exactly when the root is not a directory or some
      directory below it cannot be listed. */
  lemma {:induction false} AllFilesSucceeds(n: Node)
    ensures AllFiles(n).Ok? <==> Crawlable(n)
    decreases n
  {
    match n
    case File(_) =>
    case Unreadable(_) =>
    case Dir(_, cs) => ListChildrenSucceeds(cs);
  }

  lemma {:induction false} ListChildrenSucceeds(cs: seq<Node>)
    ensures ListChildren(cs).Ok? <==> forall c :: c in cs ==> c.File? || Crawlable(c)
    decreases cs
  {
    if cs != [] {
      var cs', c := cs[..|cs| - 1], cs[|cs| - 1];
      ListChildrenSucceeds(cs');
      AllFilesSucceeds(c);
      assert cs == cs' + [c];
    }
  }

  /** On success the crawl returns exactly the `.bib` files of the tree, at any
      depth, in depth-first directory order. */
  lemma {:induction false} AllFilesAreBibLeaves(n: Node)
    requires AllFiles(n).Ok?
    ensures AllFiles(n).value == BibOnly(Leaves(n))
    decreases n
  {
    ListChildrenAreBibLeaves(n.children);
  }

  lemma {:induction false} ListChildrenAreBibLeaves(cs: seq<Node>)
    requires ListChildren(cs).Ok?
    ensures ListChildren(cs).value == BibOnly(LeavesOf(cs))
    decreases cs
  {
    if cs != [] {
      var cs', c := cs[..|cs| - 1], cs[|cs| - 1];
      ListChildrenAreBibLeaves(cs');
      BibOnlyAppend(LeavesOf(cs'), Leaves(c));
      if c.File? {
        assert BibOnly([c.path]) == BibOnly([]) + (if IsBibFile(c.path) then [c.path] else []);
      } else {
        AllFilesAreBibLeaves(c);
      }
    }
  }

  /** Membership form: a returned path is a non-directory path of the tree that
      ends with ".bib", and every such path is returned. */
  lemma AllFilesMembers(n: Node, p: string)
    requires AllFiles(n).Ok?
    ensures p in AllFiles(n).value <==> p in Leaves(n) && IsBibFile(p)
  {
    AllFilesAreBibLeaves(n);
    BibOnlyMembers(Leaves(n), p);
  }

  /** Once a prefix of a directory's entries fails, the whole crawl of that
      directory fails with the same error. */
  lemma {:induction false} ListChildrenErrSticks(cs: seq<Node>, k: nat)
    requires k <= |cs| && ListChildren(cs[..k]).Err?
    ensures ListChildren(cs) == ListChildren(cs[..k])
    decreases |cs| - k
  {
    if k < |cs| {
      var cs1 := cs[..k + 1];
      assert cs1[..k] == cs[..k];
      ListChildrenErrSticks(cs, k + 1);
    } else {
      assert cs[..k] == cs;
    }
  }

  // ---------------------------------------------------------------------------
  // `getAllFiles` as a loop with recursion

  /** `getAllFiles`: a loop over the directory's entries that grows `paths`,
      recursing into each subdirectory. */
  method GetAllFiles(n: Node) returns (r: Result<seq<string>, CrawlError>)
    ensures r == AllFiles(n)
    decreases n
  {
    match n
    case File(p) =>
      r := Err(NotADirectory(p));
    case Unreadable(p) =>
      r := Err(ListingFailed(p));
    case Dir(_, cs) =>
      var paths: seq<string> := [];
      var i := 0;
      while i < |cs|
        invariant 0 <= i <= |cs|
        invariant ListChildren(cs[..i]) == Ok(paths)
      {
        var entry := cs[i];
        assert cs[..i + 1][..i] == cs[..i];
        if entry.File? {
          if IsBibFile(entry.path) {
            paths := paths + [entry.path];
          }
        } else {
          var sub := GetAllFiles(entry);
          if sub.Err? {
            ListChildrenErrSticks(cs, i + 1);
            return Err(sub.error);
          }
          paths := paths + sub.value;
        }
        i := i + 1;
      }
      assert cs[..i] == cs;
      r := Ok(paths);
  }
}
