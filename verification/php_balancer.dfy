/** `ParallelTestRunner::splitTestClasses` of the PHP runner. The php/ and
    php-test-parallelization/ copies have the same code and share this model.

    When there are no more suites than groups, every suite is a group of its
    own. Otherwise the suites are sorted by descending case count, and each is
    added to an entry taken out of an `SplMinHeap` of `[load, suites]` arrays.
    The groups are then read by iterating the heap, which empties it in
    ascending order. */
module PhpBalancer {
  import opened Units
  import opened StableSort
  import opened Greedy

  /** The choices an `SplMinHeap` of `[load, suites]` arrays may make.
      `fill` lists the extractions of the greedy loop and `drain` the
      extractions of the final iteration. Past load and member count, PHP
      compares the suite objects themselves, so any least entry is allowed.
      Outside the greedy regime with a non-empty heap, nothing is asked. */
  predicate HeapChoices(suites: seq<Suite>, k: int, fill: seq<nat>, drain: seq<nat>)
  {
    || k <= 0
    || |suites| <= k
    || (&& Follows(PhpArray, Fresh(k), SortDescending(suites), 0, fill)
        && DrainFollows(PhpArray, Fill(Fresh(k), SortDescending(suites), 0, fill), drain))
  }

  /** The heap can always choose: for every input some choices are valid. */
  lemma ChoicesExist(suites: seq<Suite>, k: int)
    ensures exists fill, drain :: HeapChoices(suites, k, fill, drain)
  {
    if 0 < k < |suites| {
      var ss := SortDescending(suites);
      var fill := LeastPicks(PhpArray, Fresh(k), ss, 0);
      var drain := LeastFirst(PhpArray, Fill(Fresh(k), ss, 0, fill));
      assert HeapChoices(suites, k, fill, drain);
    } else {
      assert HeapChoices(suites, k, [], []);
    }
  }

  /** The groups, or `EmptyHeap` where `SplMinHeap::extract` throws because
      a suite remains and the group count is below one. */
  function SplitTestClasses(suites: seq<Suite>, k: int, fill: seq<nat>, drain: seq<nat>): (r: Result<seq<TestGroup>, Failure>)
    requires HeapChoices(suites, k, fill, drain)
    ensures r.Err? <==> 0 < |suites| && k <= 0
    ensures r.Err? ==> r.error == EmptyHeap
    ensures |suites| <= k ==> r.Ok? && |r.value| == |suites|
    ensures |suites| <= k ==> forall i :: 0 <= i < |suites| ==> r.value[i] == TestGroup(1, suites[i].cases, [suites[i]])
    ensures 0 < k < |suites| ==> r.Ok? && |r.value| == k
    ensures k <= 0 && |suites| == 0 ==> r == Ok([])
  {
    if |suites| <= k then Ok(Singletons(suites))
    else if k <= 0 then
      if |suites| == 0 then Ok([]) else Err(EmptyHeap)
    else
      var heap := Fill(Fresh(k), SortDescending(suites), 0, fill);
      var out := Drain(PhpArray, heap, drain);
      assert |out| == |multiset(out)| == |heap|;
      Ok(ToGroups(out))
  }

  /** The facts of the greedy regime, stated for the input order. */
  lemma GreedyRegime(suites: seq<Suite>, k: int, fill: seq<nat>, drain: seq<nat>)
    requires HeapChoices(suites, k, fill, drain)
    requires 0 < k < |suites|
    ensures var gs := SplitTestClasses(suites, k, fill, drain).value;
      && multiset(AllClasses(gs)) == multiset(suites)
      && (forall i :: 0 <= i < |gs| ==> Consistent(gs[i]))
      && TotalCases(gs) == CaseCount(suites)
      && CasesWithin(gs, MaxCases(suites))
  {
    var ss := SortDescending(suites);
    var heap := Fill(Fresh(k), ss, 0, fill);
    GroupsFacts(PhpArray, k, ss, fill, Drain(PhpArray, heap, drain));
    SortKeepsCaseCount(suites);
    MaxCasesPermutation(ss, suites);
  }

  /** No suite is lost and none is duplicated. */
  lemma SplitKeepsEverySuite(suites: seq<Suite>, k: int, fill: seq<nat>, drain: seq<nat>)
    requires HeapChoices(suites, k, fill, drain)
    ensures var r := SplitTestClasses(suites, k, fill, drain);
      r.Ok? ==> multiset(AllClasses(r.value)) == multiset(suites)
  {
    if |suites| <= k {
      SingletonsKeepSuites(suites);
    } else if k > 0 {
      GreedyRegime(suites, k, fill, drain);
    }
  }

  /** Every group's counters agree with its suites, and the groups hold as
      many cases in total as the suites. */
  lemma SplitCountsCases(suites: seq<Suite>, k: int, fill: seq<nat>, drain: seq<nat>)
    requires HeapChoices(suites, k, fill, drain)
    ensures var r := SplitTestClasses(suites, k, fill, drain);
      r.Ok? ==>
        && (forall i :: 0 <= i < |r.value| ==> Consistent(r.value[i]))
        && TotalCases(r.value) == CaseCount(suites)
  {
    if |suites| <= k {
      SingletonsKeepSuites(suites);
    } else if k > 0 {
      GreedyRegime(suites, k, fill, drain);
    }
  }

  /** No group has more test cases than another plus the largest suite. */
  lemma SplitIsBalanced(suites: seq<Suite>, k: int, fill: seq<nat>, drain: seq<nat>)
    requires HeapChoices(suites, k, fill, drain)
    ensures var r := SplitTestClasses(suites, k, fill, drain);
      r.Ok? ==> CasesWithin(r.value, MaxCases(suites))
  {
    if |suites| <= k {
      SingletonsKeepSuites(suites);
    } else if k > 0 {
      GreedyRegime(suites, k, fill, drain);
    }
  }

  /** Iterating the heap reports the greedy groups by non-decreasing number of
      test cases, and among equal counts by non-decreasing number of suites. */
  lemma GreedyGroupsAscend(suites: seq<Suite>, k: int, fill: seq<nat>, drain: seq<nat>)
    requires HeapChoices(suites, k, fill, drain)
    requires 0 < k < |suites|
    ensures var gs := SplitTestClasses(suites, k, fill, drain).value;
      forall i, j :: 0 <= i < j < |gs| ==>
        || gs[i].numCases < gs[j].numCases
        || (gs[i].numCases == gs[j].numCases && gs[i].numClasses <= gs[j].numClasses)
  {
    var heap := Fill(Fresh(k), SortDescending(suites), 0, fill);
    var out := Drain(PhpArray, heap, drain);
    var gs := ToGroups(out);
    forall i, j | 0 <= i < j < |gs|
      ensures || gs[i].numCases < gs[j].numCases
              || (gs[i].numCases == gs[j].numCases && gs[i].numClasses <= gs[j].numClasses)
    {
      assert Precedes(PhpArray, out[i], out[j]);
    }
  }
}
