/** `split_test_classes` of the two Python runners. Both sort the suites by
    descending case count. Each suite is then added to an entry popped from a
    `heapq` list of `(load, n, suites)` tuples, where `n` is the position of
    the suite added last. The root parallel_test_run.py always does this.
    python/parallel_test_run.py first makes one group per suite when there
    are no more suites than groups. */
module PyBalancer {
  import opened Units
  import opened StableSort
  import opened Greedy
  import opened HeapQ

  /** How the tags of Python's heap entries stay apart. An entry with suites
      has a tag below `n`, which is the position of the next suite. No other
      entry with suites has the same tag. An entry without suites is a fresh
      `(0, 0, [])`. */
  predicate TagsApart(bs: seq<Bucket>, n: nat)
  {
    && (forall i :: 0 <= i < |bs| && bs[i].members == [] ==> bs[i] == Bucket(0, 0, []))
    && (forall i :: 0 <= i < |bs| && bs[i].members != [] ==> bs[i].tag < n)
    && (forall i, j :: 0 <= i < |bs| && 0 <= j < |bs| && i != j && bs[i].members != [] && bs[j].members != [] ==>
          bs[i].tag != bs[j].tag)
  }

  lemma FreshTagsApart(k: nat)
    ensures TagsApart(Fresh(k), 0)
  {
  }

  /** Pushing back the entry of suite `n` keeps the tags apart. */
  lemma PlaceKeepsTagsApart(bs: seq<Bucket>, p: nat, s: Suite, n: nat)
    requires p < |bs| && TagsApart(bs, n)
    ensures TagsApart(Place(bs, p, s, n), n + 1)
  {
    var next := Place(bs, p, s, n);
    forall i | 0 <= i < |next| && next[i].members == []
      ensures next[i] == Bucket(0, 0, [])
    {
      assert i != p;
    }
  }

  lemma {:induction false} FillKeepsTagsApart(bs: seq<Bucket>, ss: seq<Suite>, n: nat, picks: seq<nat>)
    requires InRange(bs, ss, picks) && TagsApart(bs, n)
    ensures TagsApart(Fill(bs, ss, n, picks), n + |ss|)
    decreases |ss|
  {
    if |ss| > 0 {
      PlaceKeepsTagsApart(bs, picks[0], ss[0], n);
      FillKeepsTagsApart(Place(bs, picks[0], ss[0], n), ss[1..], n + 1, picks[1..]);
    }
  }

  /** Two entries with the same load and tag never both hold suites. The
      tuple comparison therefore reaches the lists only when one of them is
      empty. It never compares two suites, which Python cannot order. */
  lemma TiesInvolveAnEmptyList(bs: seq<Bucket>, n: nat, i: nat, j: nat)
    requires TagsApart(bs, n)
    requires i < |bs| && j < |bs| && i != j
    requires bs[i].load == bs[j].load && bs[i].tag == bs[j].tag
    ensures bs[i].members == [] || bs[j].members == []
  {
  }

  /** Rearranging the entries keeps their tags apart. */
  lemma TagsApartPermutation(a: seq<Bucket>, b: seq<Bucket>, n: nat)
    requires multiset(a) == multiset(b) && TagsApart(a, n)
    ensures TagsApart(b, n)
  {
    forall i | 0 <= i < |b|
      ensures b[i].members == [] ==> b[i] == Bucket(0, 0, [])
      ensures b[i].members != [] ==> b[i].tag < n
    {
      assert b[i] in multiset(a);
    }
    forall i, j | 0 <= i < |b| && 0 <= j < |b| && i != j && b[i].members != [] && b[j].members != []
      ensures b[i].tag != b[j].tag
    {
      if b[i] == b[j] {
        if i < j {
          TwoPositions(b, i, j);
        } else {
          TwoPositions(b, j, i);
        }
        var x, y := FindTwo(a, b[i]);
      } else {
        assert b[i] in multiset(a) && b[j] in multiset(a);
        var x :| 0 <= x < |a| && a[x] == b[i];
        var y :| 0 <= y < |a| && a[y] == b[j];
        assert a[x].tag != a[y].tag;
      }
    }
  }

  /** The same holds of the `heapq` list at every step of the loop, since it
      holds the reference fill's entries (`PyFillIsGreedy`): `heapq`'s
      comparisons never reach two non-empty lists. */
  lemma HeapTiesInvolveAnEmptyList(h: seq<Bucket>, bs: seq<Bucket>, n: nat, i: nat, j: nat)
    requires multiset(h) == multiset(bs) && TagsApart(bs, n)
    requires i < |h| && j < |h| && i != j
    requires h[i].load == h[j].load && h[i].tag == h[j].tag
    ensures h[i].members == [] || h[j].members == []
  {
    TagsApartPermutation(bs, h, n);
    TiesInvolveAnEmptyList(h, n, i, j);
  }

  /** Any two entries the heap may pop are equal, so it does not matter
      which position holding one is popped. */
  lemma LeastEntryIsUnique(bs: seq<Bucket>, n: nat, i: nat, j: nat)
    requires TagsApart(bs, n)
    requires IsMinimal(PythonTuple, bs, i) && IsMinimal(PythonTuple, bs, j)
    ensures bs[i] == bs[j]
  {
    assert Precedes(PythonTuple, bs[i], bs[j]) && Precedes(PythonTuple, bs[j], bs[i]);
    if i != j {
      TiesInvolveAnEmptyList(bs, n, i, j);
    }
  }

  /** The loop of both Python files over the `heapq` list: pop the least
      tuple, append the `n`-th suite to its list and push
      `(load + cases, n, list)`. */
  function PyFill(h: seq<Bucket>, ss: seq<Suite>, n: nat): (r: seq<Bucket>)
    requires |h| > 0 || |ss| == 0
    ensures |r| == |h|
    decreases |ss|
  {
    if |ss| == 0 then h
    else
      var popped := HeapPop(h);
      PyFill(HeapPush(popped.rest, Grow(popped.item, ss[0], n)), ss[1..], n + 1)
  }

  /** The `heapq` list after the loop over `ss`, starting from `k` fresh
      tuples. */
  function Heap(k: nat, ss: seq<Suite>): (bs: seq<Bucket>)
    requires k > 0 || |ss| == 0
    ensures |bs| == k
  {
    PyFill(Fresh(k), ss, 0)
  }

  /** `heappop` takes the entry that the greedy fill over the same entries
      takes: the least tuple is unique. */
  lemma PopTakesGreedyEntry(h: seq<Bucket>, bs: seq<Bucket>, n: nat)
    requires IsHeap(h) && |h| > 0 && multiset(h) == multiset(bs) && TagsApart(bs, n)
    ensures |bs| > 0 && HeapPop(h).item == bs[FirstMinimal(PythonTuple, bs)]
  {
    assert |multiset(h)| == |multiset(bs)|;
    var e := HeapPop(h).item;
    PopKeepsHeap(h);
    assert e in multiset(h) by {
      assert multiset(h) == multiset(HeapPop(h).rest) + multiset{e};
    }
    var q :| 0 <= q < |bs| && bs[q] == e;
    forall j | 0 <= j < |bs|
      ensures Precedes(PythonTuple, bs[q], bs[j])
    {
      assert bs[j] in multiset(h);
      var i :| 0 <= i < |h| && h[i] == bs[j];
      LessIsTupleOrder(e, h[i]);
    }
    LeastEntryIsUnique(bs, n, FirstMinimal(PythonTuple, bs), q);
  }

  /** One round of the `heapq` loop keeps a heap and does to the entries
      what one round of the greedy fill does. */
  lemma StepIsGreedy(h: seq<Bucket>, bs: seq<Bucket>, s: Suite, n: nat)
    requires IsHeap(h) && |h| > 0 && multiset(h) == multiset(bs) && TagsApart(bs, n)
    ensures |bs| > 0
    ensures var popped := HeapPop(h);
      var pushed := HeapPush(popped.rest, Grow(popped.item, s, n));
      && IsHeap(pushed)
      && multiset(pushed) == multiset(Place(bs, FirstMinimal(PythonTuple, bs), s, n))
  {
    PopTakesGreedyEntry(h, bs, n);
    var popped := HeapPop(h);
    var e := popped.item;
    var g := Grow(e, s, n);
    PopKeepsHeap(h);
    PushKeepsHeap(popped.rest, g);
    var p := FirstMinimal(PythonTuple, bs);
    ReplaceOne(bs, p, multiset(popped.rest), g);
  }

  /** The two loops hold the same entries at every step, only laid out
      differently, and the `heapq` list stays a heap. */
  lemma {:induction false} PyFillIsGreedy(h: seq<Bucket>, bs: seq<Bucket>, ss: seq<Suite>, n: nat)
    requires IsHeap(h) && multiset(h) == multiset(bs) && TagsApart(bs, n)
    requires |bs| > 0 || |ss| == 0
    ensures |h| == |bs|
    ensures IsHeap(PyFill(h, ss, n))
    ensures multiset(PyFill(h, ss, n)) == multiset(Fill(bs, ss, n, LeastPicks(PythonTuple, bs, ss, n)))
    decreases |ss|
  {
    assert |multiset(h)| == |multiset(bs)|;
    if |ss| > 0 {
      var popped := HeapPop(h);
      var pushed := HeapPush(popped.rest, Grow(popped.item, ss[0], n));
      var p := FirstMinimal(PythonTuple, bs);
      var next := Place(bs, p, ss[0], n);
      StepIsGreedy(h, bs, ss[0], n);
      PlaceKeepsTagsApart(bs, p, ss[0], n);
      PyFillIsGreedy(pushed, next, ss[1..], n + 1);
      var picks := LeastPicks(PythonTuple, bs, ss, n);
      assert picks[0] == p && picks[1..] == LeastPicks(PythonTuple, next, ss[1..], n + 1);
      assert PyFill(h, ss, n) == PyFill(pushed, ss[1..], n + 1);
    }
  }

  /** The `heapq` list ends as a heap and as a rearrangement of the greedy
      fill's entries. */
  lemma HeapIsGreedy(k: nat, ss: seq<Suite>)
    requires k > 0 || |ss| == 0
    ensures IsHeap(Heap(k, ss))
    ensures multiset(Heap(k, ss)) == multiset(Fill(Fresh(k), ss, 0, LeastPicks(PythonTuple, Fresh(k), ss, 0)))
  {
    FreshIsHeap(k);
    FreshTagsApart(k);
    PyFillIsGreedy(Fresh(k), Fresh(k), ss, 0);
  }

  /** `split_test_classes` of parallel_test_run.py. `range(k)` is empty when
      `k` is below one, and `heappop` then raises (`EmptyHeap`) if any suite
      is left. */
  function SplitGreedy(suites: seq<Suite>, k: int): (r: Result<seq<TestGroup>, Failure>)
    ensures r.Err? <==> 0 < |suites| && k <= 0
    ensures r.Err? ==> r.error == EmptyHeap
    ensures r.Ok? ==> |r.value| == if k > 0 then k else 0
  {
    if k <= 0 then
      if |suites| == 0 then Ok([]) else Err(EmptyHeap)
    else
      Ok(ToGroups(Heap(k, SortDescending(suites))))
  }

  /** `split_test_classes` of python/parallel_test_run.py: one group per suite
      while there are no more suites than groups, the greedy split otherwise. */
  function SplitTestClasses(suites: seq<Suite>, k: int): (r: Result<seq<TestGroup>, Failure>)
    ensures r.Err? <==> 0 < |suites| && k <= 0
    ensures r.Err? ==> r.error == EmptyHeap
    ensures |suites| <= k ==> r.Ok? && |r.value| == |suites|
    ensures |suites| <= k ==> forall i :: 0 <= i < |suites| ==> r.value[i] == TestGroup(1, suites[i].cases, [suites[i]])
    ensures 0 < k < |suites| ==> r.Ok? && |r.value| == k
    ensures k <= 0 && |suites| == 0 ==> r == Ok([])
  {
    if |suites| <= k then Ok(Singletons(suites)) else SplitGreedy(suites, k)
  }

  /** The facts of a successful greedy split, stated for the input order. */
  lemma GreedyRegime(suites: seq<Suite>, k: int)
    requires SplitGreedy(suites, k).Ok?
    ensures var gs := SplitGreedy(suites, k).value;
      && multiset(AllClasses(gs)) == multiset(suites)
      && (forall i :: 0 <= i < |gs| ==> Consistent(gs[i]))
      && TotalCases(gs) == CaseCount(suites)
      && CasesWithin(gs, MaxCases(suites))
  {
    if k > 0 {
      var ss := SortDescending(suites);
      var picks := LeastPicks(PythonTuple, Fresh(k), ss, 0);
      HeapIsGreedy(k, ss);
      GroupsFacts(PythonTuple, k, ss, picks, Heap(k, ss));
      SortKeepsCaseCount(suites);
      MaxCasesPermutation(ss, suites);
    }
  }

  /** parallel_test_run.py returns the `heapq` list as it stands: the first
      group has the fewest test cases, and group `i` has no fewer than group
      `(i - 1) // 2`. */
  lemma GreedyGroupsInHeapOrder(suites: seq<Suite>, k: int)
    requires SplitGreedy(suites, k).Ok?
    ensures var gs := SplitGreedy(suites, k).value;
      && (forall i :: 0 < i < |gs| ==> gs[Parent(i)].numCases <= gs[i].numCases)
      && (forall i :: 0 <= i < |gs| ==> gs[0].numCases <= gs[i].numCases)
  {
    if k > 0 {
      var out := Heap(k, SortDescending(suites));
      HeapIsGreedy(k, SortDescending(suites));
      forall i | 0 <= i < |out|
        ensures out[0].load <= out[i].load
      {
        RootIsLeast(out, i);
      }
    }
  }

  /** parallel_test_run.py: no suite is lost and none is duplicated. */
  lemma GreedyKeepsEverySuite(suites: seq<Suite>, k: int)
    ensures var r := SplitGreedy(suites, k);
      r.Ok? ==> multiset(AllClasses(r.value)) == multiset(suites)
  {
    if SplitGreedy(suites, k).Ok? {
      GreedyRegime(suites, k);
    }
  }

  /** parallel_test_run.py: every group's counters agree with its suites, and
      the case total is kept. */
  lemma GreedyCountsCases(suites: seq<Suite>, k: int)
    ensures var r := SplitGreedy(suites, k);
      r.Ok? ==>
        && (forall i :: 0 <= i < |r.value| ==> Consistent(r.value[i]))
        && TotalCases(r.value) == CaseCount(suites)
  {
    if SplitGreedy(suites, k).Ok? {
      GreedyRegime(suites, k);
    }
  }

  /** parallel_test_run.py: no group has more test cases than another plus
      the largest suite. */
  lemma GreedyIsBalanced(suites: seq<Suite>, k: int)
    ensures var r := SplitGreedy(suites, k);
      r.Ok? ==> CasesWithin(r.value, MaxCases(suites))
  {
    if SplitGreedy(suites, k).Ok? {
      GreedyRegime(suites, k);
    }
  }

  /** python/parallel_test_run.py: no suite is lost and none is duplicated. */
  lemma SplitKeepsEverySuite(suites: seq<Suite>, k: int)
    ensures var r := SplitTestClasses(suites, k);
      r.Ok? ==> multiset(AllClasses(r.value)) == multiset(suites)
  {
    if |suites| <= k {
      SingletonsKeepSuites(suites);
    } else {
      GreedyKeepsEverySuite(suites, k);
    }
  }

  /** python/parallel_test_run.py: every group's counters agree with its
      suites, and the case total is kept. */
  lemma SplitCountsCases(suites: seq<Suite>, k: int)
    ensures var r := SplitTestClasses(suites, k);
      r.Ok? ==>
        && (forall i :: 0 <= i < |r.value| ==> Consistent(r.value[i]))
        && TotalCases(r.value) == CaseCount(suites)
  {
    if |suites| <= k {
      SingletonsKeepSuites(suites);
    } else {
      GreedyCountsCases(suites, k);
    }
  }

  /** python/parallel_test_run.py: no group has more test cases than another
      plus the largest suite. */
  lemma SplitIsBalanced(suites: seq<Suite>, k: int)
    ensures var r := SplitTestClasses(suites, k);
      r.Ok? ==> CasesWithin(r.value, MaxCases(suites))
  {
    if |suites| <= k {
      SingletonsKeepSuites(suites);
    } else {
      GreedyIsBalanced(suites, k);
    }
  }

  /** Some entry holds no suite. */
  lemma {:induction false} SomeEntryEmpty(bs: seq<Bucket>) returns (j: nat)
    requires EmptyEntries(bs) > 0
    ensures j < |bs| && bs[j].members == []
  {
    if bs[0].members == [] {
      j := 0;
    } else {
      var k := SomeEntryEmpty(bs[1..]);
      j := k + 1;
    }
  }

  /** While some entry is still fresh, Python pops a fresh entry. */
  lemma PopsFreshFirst(bs: seq<Bucket>, n: nat, p: nat)
    requires TagsApart(bs, n) && IsMinimal(PythonTuple, bs, p)
    requires EmptyEntries(bs) > 0
    ensures bs[p].members == []
  {
    var j := SomeEntryEmpty(bs);
    assert Precedes(PythonTuple, bs[p], bs[j]);
  }

  /** With at least as many fresh entries as suites, every suite lands in a
      fresh entry: no entry ends up with two suites. */
  lemma {:induction false} FillSpreads(bs: seq<Bucket>, ss: seq<Suite>, n: nat, picks: seq<nat>)
    requires Follows(PythonTuple, bs, ss, n, picks) && TagsApart(bs, n)
    requires |ss| <= EmptyEntries(bs)
    requires forall i :: 0 <= i < |bs| ==> |bs[i].members| <= 1
    ensures var r := Fill(bs, ss, n, picks);
      && (forall i :: 0 <= i < |r| ==> |r[i].members| <= 1)
      && EmptyEntries(r) == EmptyEntries(bs) - |ss|
    decreases |ss|
  {
    if |ss| > 0 {
      var p := picks[0];
      var next := Place(bs, p, ss[0], n);
      PopsFreshFirst(bs, n, p);
      EmptyEntriesUpdate(bs, p, next[p]);
      PlaceKeepsTagsApart(bs, p, ss[0], n);
      FillSpreads(next, ss[1..], n + 1, picks[1..]);
    }
  }

  /** parallel_test_run.py with no more suites than groups: every suite gets
      a group of its own, and the other groups stay empty. */
  lemma FewSuitesSpreadOut(suites: seq<Suite>, k: int)
    requires 0 < k && |suites| <= k
    ensures var gs := SplitGreedy(suites, k).value;
      && (forall i :: 0 <= i < |gs| ==> gs[i].numClasses <= 1)
      && EmptyGroups(gs) == k - |suites|
  {
    var ss := SortDescending(suites);
    var picks := LeastPicks(PythonTuple, Fresh(k), ss, 0);
    FreshTagsApart(k);
    FreshAllEmpty(k);
    assert |ss| == |multiset(ss)| == |suites|;
    FillSpreads(Fresh(k), ss, 0, picks);
    HeapIsGreedy(k, ss);
    SpreadKeptByLayout(Heap(k, ss), Fill(Fresh(k), ss, 0, picks));
    ToGroupsKeepsEmpty(Heap(k, ss));
  }

  /** Entries with at most one suite each stay so in any layout, and so does
      the number of empty ones. */
  lemma SpreadKeptByLayout(out: seq<Bucket>, spread: seq<Bucket>)
    requires multiset(out) == multiset(spread)
    requires forall i :: 0 <= i < |spread| ==> |spread[i].members| <= 1
    ensures forall i :: 0 <= i < |out| ==> |out[i].members| <= 1
    ensures EmptyEntries(out) == EmptyEntries(spread)
  {
    forall i | 0 <= i < |out|
      ensures |out[i].members| <= 1
    {
      assert out[i] in multiset(spread);
    }
    EmptyEntriesPermutation(out, spread);
  }

  lemma {:induction false} FreshAllEmpty(k: nat)
    ensures EmptyEntries(Fresh(k)) == k
  {
    if k > 0 {
      assert Fresh(k)[1..] == Fresh(k - 1);
      FreshAllEmpty(k - 1);
    }
  }
}
