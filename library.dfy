/** The bibliographic records and the target library that the merge command
    works on (JabRef's `BibEntry` and `BibDatabase`, foreign classes here). */
module Library {
  import opened Outcomes

  /** A bibliographic entry. There is no identity marker: datatype equality
      compares kind, fields and citation key, which stands for `BibEntry.equals`
      (the citation key is one of the entry's fields in JabRef). */
  datatype Entry = Entry(kind: string, fields: map<string, string>, key: Option<string>)

  /** No element occurs twice in `s`. */
  predicate NoDup<T(==)>(s: seq<T>)
  {
    forall i, j :: 0 <= i < j < |s| ==> s[i] != s[j]
  }

  /** The elements of `s` as a set. */
  function Elements<T>(s: seq<T>): set<T>
  {
    set x | x in s
  }

  /** A sequence without repetitions has as many elements as its set. */
  lemma {:induction false} NoDupCard<T>(s: seq<T>)
    requires NoDup(s)
    ensures |Elements(s)| == |s|
    decreases |s|
  {
    if s != [] {
      var s', x := s[..|s| - 1], s[|s| - 1];
      NoDupCard(s');
      assert Elements(s) == Elements(s') + {x};
      assert x !in Elements(s');
    }
  }

  /** `after` is `before` followed by every element of `added`, each exactly once,
      in some order: the shape of `insertEntries(toAdd.stream().toList())`. */
  predicate AppendsExactly(before: seq<Entry>, after: seq<Entry>, added: set<Entry>)
  {
    |before| <= |after| && after[..|before|] == before
    && Elements(after[|before|..]) == added && NoDup(after[|before|..])
  }

  /** The target library, whose entry list the merge extends in place. */
  class BibDatabase {
    var entries: seq<Entry>

    constructor (initial: seq<Entry>)
      ensures entries == initial
    {
      entries := initial;
    }

    /** Appends `added` after the existing entries, keeping them in order. */
    method InsertEntries(added: seq<Entry>)
      modifies this
      ensures entries == old(entries) + added
    {
      entries := entries + added;
    }
  }

  /** Lists the elements of a set once each, in an order the caller cannot rely
      on: the iteration order of a `HashSet`. */
  method ListOf(s: set<Entry>) returns (xs: seq<Entry>)
    ensures Elements(xs) == s && NoDup(xs)
  {
    xs := [];
    var rest := s;
    while rest != {}
      invariant rest <= s
      invariant Elements(xs) == s - rest
      invariant NoDup(xs)
      decreases rest
    {
      var x :| x in rest;
      assert Elements(xs + [x]) == Elements(xs) + {x};
      xs := xs + [x];
      rest := rest - {x};
    }
  }
}
