/**
 * The class-name index (`classNames`) and the completion of internal names
 * (`internalName`) that filters it.
 */
module ClassNameIndex {
  import opened Wrappers
  import opened Strings
  import opened Streams
  import opened Environment

  /**
   * The index built when a workspace is open: the workspace's names followed by
   * the system's, with duplicates removed and in natural order. It holds every
   * name of either list exactly once, in strictly ascending order.
   */
  function MergeNames(inputClasses: seq<string>, systemClassNames: seq<string>): (r: seq<string>)
    ensures StrictlySorted(r)
    ensures forall n :: n in r <==> n in inputClasses || n in systemClassNames
  {
    SortDistinctStrictlySorted(inputClasses + systemClassNames);
    SameElements(Sort(Distinct(inputClasses + systemClassNames)), Distinct(inputClasses + systemClassNames));
    Sort(Distinct(inputClasses + systemClassNames))
  }

  /**
   * What `classNames` returns: with a workspace, the strictly ascending union of
   * its names and the system's; without one, the system list exactly as given.
   */
  ghost predicate IsClassIndex(names: seq<string>, systemClassNames: seq<string>, workspace: Option<Workspace>)
  {
    match workspace
    case None => names == systemClassNames
    case Some(w) => StrictlySorted(names) && forall n :: n in names <==> n in w.classNames || n in systemClassNames
  }

  /**
   * The index is fully determined by its sources: in particular it does not depend
   * on the order in which the workspace's set of names is enumerated.
   */
  lemma ClassIndexDeterministic(a: seq<string>, b: seq<string>, systemClassNames: seq<string>, workspace: Option<Workspace>)
    requires IsClassIndex(a, systemClassNames, workspace)
    requires IsClassIndex(b, systemClassNames, workspace)
    ensures a == b
  {
    if workspace.Some? {
      StrictlySortedUnique(a, b);
    }
  }

  /** Merging the workspace name `a/B` into the system names `a/B`, `c/D` keeps one `a/B`. */
  lemma MergeExample()
    ensures MergeNames(["a/B"], ["a/B", "c/D"]) == ["a/B", "c/D"]
  {
    var r := MergeNames(["a/B"], ["a/B", "c/D"]);
    assert Less("a/B", "c/D");
    StrictlySortedUnique(r, ["a/B", "c/D"]);
  }

  /**
   * `set.stream()`: the elements of a set, each once, in an order the set does
   * not determine.
   */
  method ElementsOf(names: set<string>) returns (r: seq<string>)
    ensures NoDuplicates(r)
    ensures forall n :: n in r <==> n in names
  {
    r := [];
    var rest := names;
    while rest != {}
      invariant rest <= names
      invariant forall n :: n in r <==> n in names && n !in rest
      invariant NoDuplicates(r)
      decreases rest
    {
      var n :| n in rest;
      r := r + [n];
      rest := rest - {n};
    }
  }

  /**
   * `internalName` over a given index: nothing for an empty `part`; otherwise
   * every index name that starts with the trimmed `part` and is not equal to it,
   * as often as in the index and in index order.
   */
  function InternalNameCompletions(part: string, index: seq<string>): (r: seq<string>)
    ensures forall n ::
              multiset(r)[n] == if part != [] && StartsWith(n, Trim(part)) && n != Trim(part) then multiset(index)[n] else 0
    ensures forall n :: n in r ==> StartsWith(n, Trim(part)) && n != Trim(part)
    ensures IsSubsequence(r, index)
    ensures StrictlySorted(index) ==> StrictlySorted(r)
  {
    var key := Trim(part);
    if part == [] then []
    else
      FilterStrictlySorted(index, n => StartsWith(n, key) && n != key);
      Filter(index, n => StartsWith(n, key) && n != key)
  }

  /**
   * The emptiness test is on the untrimmed `part`: a blank, non-empty `part`
   * trims to the empty key and completes to every non-empty index name.
   */
  lemma BlankPartCompletesEverything(part: string, index: seq<string>)
    requires part != []
    requires forall i :: 0 <= i < |part| ==> IsTrimmed(part[i])
    ensures forall n :: n in InternalNameCompletions(part, index) <==> n in index && n != []
  {
    var r := InternalNameCompletions(part, index);
    forall n
      ensures n in r <==> n in index && n != []
    {
      assert n in r <==> multiset(r)[n] > 0;
      assert n in index <==> multiset(index)[n] > 0;
    }
  }
}
