# Merging a directory of BibTeX libraries into the open library

This project models the merge command of JabRef's "merge libraries" action
(`MergeCommand`). The command crawls a directory for `.bib` files. It loads
each file and tests every loaded entry against every entry of the target
library with three rules: equality, the same citation key, and the duplicate
checker. Entries that no rule rejects are gathered in a set. After the last
file, that set is inserted into the target in one call.

Modules:

- `Outcomes` (outcomes.dfy): `Option` and `Result`.
- `Library` (library.dfy): `Entry`, a value with a kind, a field map and an
  optional citation key; `BibDatabase`, a class holding the target's entry
  list; `ListOf`, which turns the `toAdd` set into a list.
- `FileCrawl` (crawl.dfy): `getAllFiles` over a finite directory tree. `AllFiles`
  is the function and `GetAllFiles` the loop-and-recursion method proved
  equal to it. `Leaves` and `BibOnly` give an independent reference.
- `Merge` (merge.dfy): the specification functions (`Clashes`, `Admissible`,
  `Accepted`, `ToAdd`, `LoadAll`, `MergeOutcome`). Also the methods `Admit`
  (the inner scan with its early `break`s) and `DoMerge` (the nested loops, then
  one insertion into the target).
- `MergeProperties` (merge_properties.dfy): the acceptance rule and what follows
  from it.

Collaborators the model cannot see are parameters. `dup: (Entry, Entry) -> bool`
is `DuplicateCheck.isDuplicate` in BibTeX mode, an arbitrary deterministic
relation. `load: string -> LoadOutcome` is `loadDatabase`. It yields the file's
entries, or `Fatal` when an exception escapes the loader.

Behaviour of the code that the model keeps:

- Citation keys are compared as whole `Optional` values (line 114), so two
  entries that both lack a key collide.
- A file that cannot be read is skipped: `loadDatabase` catches the
  `IOException`, logs it (line 183) and goes on with the empty database of an
  error result (lines 181-184), so the file adds nothing. No diagnostic reaches
  the caller. Only an exception that escapes `loadDatabase` aborts the whole
  merge (lines 88-92), and then the target stays unchanged.
- Candidates are checked only against the original target (line 106), never
  against each other. Two added entries can therefore share a citation key
  (`CandidatesNotComparedWithEachOther`). Nothing keeps "no two entries share a
  key", and nothing checks it on insertion.
- The added entries go in `HashSet` order (lines 82, 129), not file order.
  `DoMerge` promises each member of the set exactly once, in some order.
- A rejected entry is simply not added; no reason for the rejection is
  recorded.

## Model

| member | source | states |
|---|---|---|
| `Library.BibDatabase.InsertEntries` | src/main/java/org/jabref/gui/mergeLibraries/MergeCommand.java:129 | the target's entries become the old entries followed by the inserted list, in order |
| `Library.ListOf` | src/main/java/org/jabref/gui/mergeLibraries/MergeCommand.java:129 | `toAdd.stream().toList()`: the list holds every member of the set exactly once and nothing else; its order is not fixed |
| `FileCrawl.GetAllFiles` | src/main/java/org/jabref/gui/mergeLibraries/MergeCommand.java:142-157 | the loop over the directory stream, with the recursive `addAll`, returns or throws exactly what `AllFiles` specifies |
| `FileCrawl.AllFilesSucceeds` | src/main/java/org/jabref/gui/mergeLibraries/MergeCommand.java:145-148 | the crawl throws exactly when the root is not a directory or some directory below it cannot be listed |
| `FileCrawl.AllFilesAreBibLeaves` | src/main/java/org/jabref/gui/mergeLibraries/MergeCommand.java:146-153 | on success the result is the non-directory paths of the whole tree, depth first in directory order, restricted to those ending in ".bib"; each subdirectory's list sits at that subdirectory's position |
| `FileCrawl.AllFilesMembers` | src/main/java/org/jabref/gui/mergeLibraries/MergeCommand.java:147-152 | a path is returned iff it is a non-directory path of the tree ending in ".bib" (case-sensitive) |
| `FileCrawl.ListChildrenErrSticks` | src/main/java/org/jabref/gui/mergeLibraries/MergeCommand.java:145-148 | once one entry of a directory fails to crawl, the crawl of the whole directory fails with that error |
| `Merge.Admit` | src/main/java/org/jabref/gui/mergeLibraries/MergeCommand.java:105-123 | the scan with early exits sets `addFlag` iff no target entry equals the candidate, shares its key, or is a duplicate of it |
| `Merge.LoadAllErrSticks` | src/main/java/org/jabref/gui/mergeLibraries/MergeCommand.java:83-92 | once one file fails to load, loading the whole list fails with that file's error |
| `Merge.DoMerge` | src/main/java/org/jabref/gui/mergeLibraries/MergeCommand.java:79-133 | on a crawl or load failure the target is unchanged and the error is reported; otherwise the target keeps its entries in order and gains exactly the members of `toAdd`, each once |
| `MergeProperties.ToAddMembers` | src/main/java/org/jabref/gui/mergeLibraries/MergeCommand.java:104-126 | an entry is in `toAdd` iff some file loaded it and, for every target entry, it is not equal to it, its key differs, and it is not a duplicate of it |
| `MergeProperties.AcceptedMembers` | src/main/java/org/jabref/gui/mergeLibraries/MergeCommand.java:104-126 | within one file, an entry is kept iff it occurs in the file and no target entry rejects it |
| `MergeProperties.ClashRejects` | src/main/java/org/jabref/gui/mergeLibraries/MergeCommand.java:109-122 | equality, a shared key, or the duplicate checker against any one target entry keeps the candidate out |
| `MergeProperties.KeylessCandidateRejected` | src/main/java/org/jabref/gui/mergeLibraries/MergeCommand.java:114-117 | a candidate without a key is rejected when any target entry also lacks one, whatever the fields |
| `MergeProperties.KeyCollisionScenario` | src/main/java/org/jabref/gui/mergeLibraries/MergeCommand.java:114-117 | target `smith2020`/"A"; files with `smith2020`/"B" and `doe2021`/"C": only the `doe2021` entry is added |
| `MergeProperties.EmptyTargetAcceptsAll` | src/main/java/org/jabref/gui/mergeLibraries/MergeCommand.java:82-126 | with an empty target `toAdd` is exactly the set of all loaded entries |
| `MergeProperties.CrossFileCollapse` | src/main/java/org/jabref/gui/mergeLibraries/MergeCommand.java:124-129 | for any target and any files, an entry that two files both load and that no target entry rejects is not among the target's original entries, occurs after them, and occurs there at no two positions |
| `MergeProperties.CrossFileCollapseExample` | src/main/java/org/jabref/gui/mergeLibraries/MergeCommand.java:124-129 | worked case: one entry loaded from two files into an empty library gives the library `[c]` |
| `MergeProperties.ToAddSplit` | src/main/java/org/jabref/gui/mergeLibraries/MergeCommand.java:83-127 | the set for a list of files is the union of the sets for its parts |
| `MergeProperties.CandidatesNotComparedWithEachOther` | src/main/java/org/jabref/gui/mergeLibraries/MergeCommand.java:106 | two candidates that each pass against the target are both added, even if they share a key or are duplicates of each other |
| `MergeProperties.ToAddDependsOnlyOnCandidateSet` | src/main/java/org/jabref/gui/mergeLibraries/MergeCommand.java:82-127 | files whose loaded entries form the same set give the same `toAdd`, whatever the file and entry order |
| `MergeProperties.LargerTargetAdmitsLess` | src/main/java/org/jabref/gui/mergeLibraries/MergeCommand.java:106-123 | a target containing more entries yields a subset of `toAdd` |
| `MergeProperties.ToAddAfterMergeIsEmpty` | src/main/java/org/jabref/gui/mergeLibraries/MergeCommand.java:109-112 | against the merged target the same files yield an empty `toAdd` |
| `MergeProperties.AppendsNothing` | src/main/java/org/jabref/gui/mergeLibraries/MergeCommand.java:129 | inserting an empty `toAdd` leaves the target's entries as they were |
| `MergeProperties.MergeIdempotent` | src/main/java/org/jabref/gui/mergeLibraries/MergeCommand.java:79-133 | merging the same directory again into the merged library succeeds and adds nothing |
| `MergeProperties.LoadAllSpec` | src/main/java/org/jabref/gui/mergeLibraries/MergeCommand.java:83-92 | loading fails iff some file's load throws; otherwise the i-th entry list is the i-th file's |
| `MergeProperties.MergeFailsIff` | src/main/java/org/jabref/gui/mergeLibraries/MergeCommand.java:83-92 | the merge throws iff the crawl fails or some crawled file fails to load, whatever the target |

## Left out

- `execute` (the directory dialog, the active-library lookup, wrapping `IOException` in `RuntimeException`): user interface, not merge logic.
- `loadDatabase` internals: file I/O, the backup-restore dialog, the warning dialog on the JavaFX thread and the shared-database connection. Only the outcome is modelled, as the `load` parameter. It must give the same result for the same path, and its other side effects (the working-directory preference) are not modelled.
- `DuplicateCheck.isDuplicate` internals, `BibEntryTypesManager` and the BibTeX mode argument: a fuzzy heuristic whose code is not part of this model. The model uses an arbitrary deterministic relation `dup`.
- `BibEntry.equals`, `getCitationKey` and `hashCode`: datatype equality and an optional key field stand for them.
- `BibDatabase.insertEntries` internals (change events, entry ownership): sequence append.
- The importer lookup (line 80) and the debug print (line 108): they do not affect the result.
- The real filesystem: symbolic links, link cycles, `Files.isDirectory` following links, and how `Path.toString` renders a path. A finite tree stands for the filesystem, and path strings are given in its nodes.
- `DoMerge` reports failure as a `Status` value, not an exception, and does not return the database object (the caller already holds it).
