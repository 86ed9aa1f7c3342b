/** The heap-driven greedy fill shared by every balancer: `k` empty heap
    entries, and for each suite in processing order, pop the least entry,
    append the suite to it and push it back with its load increased.

    The heap is a sequence of entries; popping is "choose a position holding
    a least entry", which a sequence of chosen positions (`picks`) records.
    Which positions count as least depends on how the language compares heap
    entries (`HeapOrder`). */
module Greedy {
  import opened Units

  /** A heap entry: running number of test cases, the tie-break component `n`
      of Python's entries (the processing position of the suite added last,
      0 for a fresh entry; PHP's `[load, suites]` entries have no such
      component and the PHP order never reads it), and the suites so far. */
  datatype Bucket = Bucket(load: nat, tag: nat, members: seq<Suite>)

  /** `k` fresh heap entries: `[0, []]` in PHP, `(0, 0, [])` in Python. */
  function Fresh(k: nat): (bs: seq<Bucket>)
    ensures |bs| == k
    ensures forall i :: 0 <= i < k ==> bs[i] == Bucket(0, 0, [])
  {
    seq(k, _ => Bucket(0, 0, []))
  }

  /** How a heap compares its entries. */
  datatype HeapOrder =
    | LoadOnly     // only the load matters: any least-loaded entry may come out
    | PhpArray     // PHP compares `[load, suites]`: load, then the shorter array
    | PythonTuple  // Python compares `(load, n, suites)`: load, then n, then the shorter list

  /** `a` may come out of the heap before `b`. */
  predicate Precedes(o: HeapOrder, a: Bucket, b: Bucket)
  {
    match o
    case LoadOnly => a.load <= b.load
    case PhpArray =>
      a.load < b.load || (a.load == b.load && |a.members| <= |b.members|)
    case PythonTuple =>
      a.load < b.load
      || (a.load == b.load && (a.tag < b.tag || (a.tag == b.tag && |a.members| <= |b.members|)))
  }

  /** Position `i` holds an entry the heap may pop. */
  predicate IsMinimal(o: HeapOrder, bs: seq<Bucket>, i: nat)
  {
    i < |bs| && forall j :: 0 <= j < |bs| ==> Precedes(o, bs[i], bs[j])
  }

  /** Whatever the order, a popped entry has the least load. */
  lemma MinimalHasLeastLoad(o: HeapOrder, bs: seq<Bucket>, i: nat)
    requires IsMinimal(o, bs, i)
    ensures IsMinimal(LoadOnly, bs, i)
    ensures forall j :: 0 <= j < |bs| ==> bs[i].load <= bs[j].load
  {
    forall j | 0 <= j < |bs|
      ensures bs[i].load <= bs[j].load
    {
      assert Precedes(o, bs[i], bs[j]);
    }
  }

  /** The first position holding a least entry. */
  function FirstMinimal(o: HeapOrder, bs: seq<Bucket>): (i: nat)
    requires |bs| > 0
    ensures IsMinimal(o, bs, i)
    ensures forall j :: 0 <= j < i ==> !Precedes(o, bs[j], bs[i])
  {
    if |bs| == 1 then 0
    else
      var m := FirstMinimal(o, bs[..|bs| - 1]);
      if Precedes(o, bs[m], bs[|bs| - 1]) then m else |bs| - 1
  }

  /** Entry `e` after suite `s`, the `n`-th in processing order, joins it. */
  function Grow(e: Bucket, s: Suite, n: nat): Bucket
  {
    Bucket(e.load + s.cases, n, e.members + [s])
  }

  /** Pop the entry at `i`, append suite `s` (the `n`-th in processing order)
      and push the entry back with its load increased by `s`'s cases. */
  function Place(bs: seq<Bucket>, i: nat, s: Suite, n: nat): (r: seq<Bucket>)
    requires i < |bs|
    ensures |r| == |bs|
  {
    bs[i := Grow(bs[i], s, n)]
  }

  /** One position per suite, each a position of the heap. */
  predicate InRange(bs: seq<Bucket>, ss: seq<Suite>, picks: seq<nat>)
  {
    |picks| == |ss| && forall j :: 0 <= j < |picks| ==> picks[j] < |bs|
  }

  /** Place suites `ss` (the first being the `n`-th in processing order) at
      the positions `picks`. */
  function Fill(bs: seq<Bucket>, ss: seq<Suite>, n: nat, picks: seq<nat>): (r: seq<Bucket>)
    requires InRange(bs, ss, picks)
    ensures |r| == |bs|
    decreases |ss|
  {
    if |ss| == 0 then bs
    else Fill(Place(bs, picks[0], ss[0], n), ss[1..], n + 1, picks[1..])
  }

  /** Every position in `picks` holds, when it is used, an entry the heap
      ordered by `o` may pop. */
  predicate Follows(o: HeapOrder, bs: seq<Bucket>, ss: seq<Suite>, n: nat, picks: seq<nat>)
    decreases |ss|
  {
    && InRange(bs, ss, picks)
    && (|ss| > 0 ==>
          && IsMinimal(o, bs, picks[0])
          && Follows(o, Place(bs, picks[0], ss[0], n), ss[1..], n + 1, picks[1..]))
  }

  /** At every step the first position holding a least entry: a valid
      sequence of choices exists whenever the heap is not empty. */
  function LeastPicks(o: HeapOrder, bs: seq<Bucket>, ss: seq<Suite>, n: nat): (picks: seq<nat>)
    requires |bs| > 0 || |ss| == 0
    ensures Follows(o, bs, ss, n, picks)
    decreases |ss|
  {
    if |ss| == 0 then []
    else
      var p := FirstMinimal(o, bs);
      var rest := LeastPicks(o, Place(bs, p, ss[0], n), ss[1..], n + 1);
      assert ([p] + rest)[1..] == rest;
      [p] + rest
  }

  /** Picks that a finer order allows are allowed by the load alone. */
  lemma {:induction false} FollowsLoadOnly(o: HeapOrder, bs: seq<Bucket>, ss: seq<Suite>, n: nat, picks: seq<nat>)
    requires Follows(o, bs, ss, n, picks)
    ensures Follows(LoadOnly, bs, ss, n, picks)
    decreases |ss|
  {
    if |ss| > 0 {
      MinimalHasLeastLoad(o, bs, picks[0]);
      FollowsLoadOnly(o, Place(bs, picks[0], ss[0], n), ss[1..], n + 1, picks[1..]);
    }
  }

  /** All suites of all entries, entry after entry. */
  function Members(bs: seq<Bucket>): seq<Suite>
  {
    if |bs| == 0 then [] else bs[0].members + Members(bs[1..])
  }

  /** Every entry's load is the number of cases of its suites. */
  predicate Tallied(bs: seq<Bucket>)
  {
    forall i :: 0 <= i < |bs| ==> bs[i].load == CaseCount(bs[i].members)
  }

  /** No entry's load exceeds another's by more than `m`. */
  predicate LoadsWithin(bs: seq<Bucket>, m: nat)
  {
    forall i, j :: 0 <= i < |bs| && 0 <= j < |bs| ==> bs[i].load <= bs[j].load + m
  }

  /** The suites of the entries before `i`, of entry `i`, and of those after. */
  lemma MembersAround(bs: seq<Bucket>, i: nat)
    requires i < |bs|
    ensures Members(bs) == Members(bs[..i]) + bs[i].members + Members(bs[i + 1..])
  {
    var before, from := bs[..i], bs[i..];
    assert from[1..] == bs[i + 1..];
    assert bs == before + from;
    MembersAppend(before, from);
  }

  /** Placing a suite adds exactly that suite. */
  lemma PlaceAddsMember(bs: seq<Bucket>, p: nat, s: Suite, n: nat)
    requires p < |bs|
    ensures multiset(Members(Place(bs, p, s, n))) == multiset(Members(bs)) + multiset{s}
  {
    var next := Place(bs, p, s, n);
    MembersAround(bs, p);
    MembersAround(next, p);
    assert next[..p] == bs[..p] && next[p + 1..] == bs[p + 1..];
  }

  lemma SplitFirst(ss: seq<Suite>)
    requires |ss| > 0
    ensures multiset(ss) == multiset{ss[0]} + multiset(ss[1..])
  {
    assert ss == [ss[0]] + ss[1..];
  }

  /** Filling adds exactly the placed suites: none is lost, none duplicated. */
  lemma {:induction false} FillKeepsMembers(bs: seq<Bucket>, ss: seq<Suite>, n: nat, picks: seq<nat>)
    requires InRange(bs, ss, picks)
    ensures multiset(Members(Fill(bs, ss, n, picks))) == multiset(Members(bs)) + multiset(ss)
    decreases |ss|
  {
    if |ss| > 0 {
      var next := Place(bs, picks[0], ss[0], n);
      PlaceAddsMember(bs, picks[0], ss[0], n);
      FillKeepsMembers(next, ss[1..], n + 1, picks[1..]);
      assert Fill(bs, ss, n, picks) == Fill(next, ss[1..], n + 1, picks[1..]);
      SplitFirst(ss);
    }
  }

  /** Every entry's load stays the case count of its suites. */
  lemma {:induction false} FillKeepsTally(bs: seq<Bucket>, ss: seq<Suite>, n: nat, picks: seq<nat>)
    requires InRange(bs, ss, picks)
    requires Tallied(bs)
    ensures Tallied(Fill(bs, ss, n, picks))
    decreases |ss|
  {
    if |ss| > 0 {
      var p := picks[0];
      CaseCountAppend(bs[p].members, [ss[0]]);
      assert [ss[0]][1..] == [];
      FillKeepsTally(Place(bs, p, ss[0], n), ss[1..], n + 1, picks[1..]);
    }
  }

  /** Adding at most `m` cases to a least-loaded entry keeps every pair of
      loads within `m` of each other. */
  lemma PlaceStaysWithin(bs: seq<Bucket>, p: nat, s: Suite, n: nat, m: nat)
    requires IsMinimal(LoadOnly, bs, p)
    requires LoadsWithin(bs, m)
    requires s.cases <= m
    ensures LoadsWithin(Place(bs, p, s, n), m)
  {
    var next := Place(bs, p, s, n);
    forall i, j | 0 <= i < |next| && 0 <= j < |next|
      ensures next[i].load <= next[j].load + m
    {
      assert Precedes(LoadOnly, bs[p], bs[j]);
    }
  }

  /** Greedy filling by least load keeps every pair of loads within the
      largest suite's cases of each other. */
  lemma {:induction false} FillStaysWithin(bs: seq<Bucket>, ss: seq<Suite>, n: nat, picks: seq<nat>, m: nat)
    requires Follows(LoadOnly, bs, ss, n, picks)
    requires LoadsWithin(bs, m)
    requires forall i :: 0 <= i < |ss| ==> ss[i].cases <= m
    ensures LoadsWithin(Fill(bs, ss, n, picks), m)
    decreases |ss|
  {
    if |ss| > 0 {
      PlaceStaysWithin(bs, picks[0], ss[0], n, m);
      FillStaysWithin(Place(bs, picks[0], ss[0], n), ss[1..], n + 1, picks[1..], m);
    }
  }

  /** What a greedy fill of `k` fresh entries guarantees, whichever least
      entry the heap pops at each step: exactly `k` entries, every suite in
      exactly one of them, loads equal to case counts, and no two loads further apart than the largest suite. */
  lemma GreedyFacts(o: HeapOrder, k: nat, ss: seq<Suite>, picks: seq<nat>)
    requires Follows(o, Fresh(k), ss, 0, picks)
    ensures var bs := Fill(Fresh(k), ss, 0, picks);
      && |bs| == k
      && multiset(Members(bs)) == multiset(ss)
      && Tallied(bs)
      && LoadsWithin(bs, MaxCases(ss))
  {
    var start := Fresh(k);
    FreshIsEmpty(k);
    FillKeepsMembers(start, ss, 0, picks);
    FillKeepsTally(start, ss, 0, picks);
    FollowsLoadOnly(o, start, ss, 0, picks);
    FillStaysWithin(start, ss, 0, picks, MaxCases(ss));
  }

  lemma {:induction false} FreshIsEmpty(k: nat)
    ensures Members(Fresh(k)) == []
  {
    if k > 0 {
      assert Fresh(k)[1..] == Fresh(k - 1);
      FreshIsEmpty(k - 1);
    }
  }

  /** The heap without the entry at `p`. */
  function Remove(bs: seq<Bucket>, p: nat): (r: seq<Bucket>)
    requires p < |bs|
    ensures multiset(r) + multiset{bs[p]} == multiset(bs)
  {
    assert bs == bs[..p] + [bs[p]] + bs[p + 1..];
    bs[..p] + bs[p + 1..]
  }

  /** Every position in `picks` holds, when it is used, an entry the heap
      ordered by `o` may extract next. */
  predicate DrainFollows(o: HeapOrder, bs: seq<Bucket>, picks: seq<nat>)
    decreases |bs|
  {
    && |picks| == |bs|
    && (|bs| > 0 ==>
          && IsMinimal(o, bs, picks[0])
          && DrainFollows(o, Remove(bs, picks[0]), picks[1..]))
  }

  /** Extracting the first least entry each time: a valid sequence of
      extractions always exists. */
  function LeastFirst(o: HeapOrder, bs: seq<Bucket>): (picks: seq<nat>)
    ensures DrainFollows(o, bs, picks)
    decreases |bs|
  {
    if |bs| == 0 then []
    else
      var p := FirstMinimal(o, bs);
      var rest := LeastFirst(o, Remove(bs, p));
      assert ([p] + rest)[1..] == rest;
      [p] + rest
  }

  /** Iterating a min-heap: extract entries one by one until it is empty.
      The entries come out in the heap's order, each exactly once. */
  function Drain(o: HeapOrder, bs: seq<Bucket>, picks: seq<nat>): (r: seq<Bucket>)
    requires DrainFollows(o, bs, picks)
    ensures multiset(r) == multiset(bs)
    ensures forall i, j :: 0 <= i < j < |r| ==> Precedes(o, r[i], r[j])
    decreases |bs|
  {
    if |bs| == 0 then []
    else
      var p := picks[0];
      var rest := Drain(o, Remove(bs, p), picks[1..]);
      HeadPrecedesRest(o, bs, p, rest);
      ConsKeepsOrder(o, bs[p], rest);
      assert multiset([bs[p]] + rest) == multiset{bs[p]} + multiset(rest);
      [bs[p]] + rest
  }

  lemma ConsKeepsOrder(o: HeapOrder, h: Bucket, rest: seq<Bucket>)
    requires forall i :: 0 <= i < |rest| ==> Precedes(o, h, rest[i])
    requires forall i, j :: 0 <= i < j < |rest| ==> Precedes(o, rest[i], rest[j])
    ensures forall i, j :: 0 <= i < j < |[h] + rest| ==> Precedes(o, ([h] + rest)[i], ([h] + rest)[j])
  {
    var r := [h] + rest;
    forall i, j | 0 <= i < j < |r|
      ensures Precedes(o, r[i], r[j])
    {
      assert r[j] == rest[j - 1];
      if i > 0 {
        assert r[i] == rest[i - 1];
      }
    }
  }

  /** An extracted least entry precedes every entry still in the heap. */
  lemma HeadPrecedesRest(o: HeapOrder, bs: seq<Bucket>, p: nat, rest: seq<Bucket>)
    requires IsMinimal(o, bs, p)
    requires multiset(rest) == multiset(Remove(bs, p))
    ensures forall i :: 0 <= i < |rest| ==> Precedes(o, bs[p], rest[i])
  {
    forall i | 0 <= i < |rest|
      ensures Precedes(o, bs[p], rest[i])
    {
      assert rest[i] in multiset(Remove(bs, p));
      assert rest[i] in multiset(bs);
      var j :| 0 <= j < |bs| && bs[j] == rest[i];
    }
  }

  lemma {:induction false} MembersAppend(a: seq<Bucket>, b: seq<Bucket>)
    ensures Members(a + b) == Members(a) + Members(b)
  {
    if |a| == 0 {
      assert a + b == b;
    } else {
      assert (a + b)[1..] == a[1..] + b;
      MembersAppend(a[1..], b);
    }
  }

  /** Rearranging the entries keeps the same suites. */
  lemma {:induction false} PermutationKeepsMembers(a: seq<Bucket>, b: seq<Bucket>)
    requires multiset(a) == multiset(b)
    ensures multiset(Members(a)) == multiset(Members(b))
    decreases |a|
  {
    if |a| == 0 {
      assert b == [];
    } else {
      assert a[0] in multiset(b);
      var k :| 0 <= k < |b| && b[k] == a[0];
      var others := b[..k] + b[k + 1..];
      DropMatching(a, b, k);
      PermutationKeepsMembers(a[1..], others);
      MembersAround(b, k);
      MembersAppend(b[..k], b[k + 1..]);
    }
  }

  /** Rearranging the entries keeps them tallied and within `m` of each other. */
  lemma PermutationKeepsBounds(a: seq<Bucket>, b: seq<Bucket>, m: nat)
    requires multiset(a) == multiset(b)
    ensures Tallied(b) ==> Tallied(a)
    ensures LoadsWithin(b, m) ==> LoadsWithin(a, m)
  {
    forall i | 0 <= i < |a|
      ensures exists j :: 0 <= j < |b| && b[j] == a[i]
    {
      assert a[i] in multiset(b);
    }
  }

  /** The group a heap entry becomes. */
  function ToGroup(b: Bucket): TestGroup
  {
    TestGroup(|b.members|, b.load, b.members)
  }

  function ToGroups(bs: seq<Bucket>): (gs: seq<TestGroup>)
    ensures |gs| == |bs|
    ensures forall i :: 0 <= i < |bs| ==> gs[i] == ToGroup(bs[i])
  {
    seq(|bs|, i requires 0 <= i < |bs| => ToGroup(bs[i]))
  }

  /** The groups hold the entries' suites and loads; tallied entries give
      consistent groups; loads within `m` give case counts within `m`. */
  lemma {:induction false} ToGroupsFacts(bs: seq<Bucket>, m: nat)
    ensures AllClasses(ToGroups(bs)) == Members(bs)
    ensures Tallied(bs) ==> forall i :: 0 <= i < |bs| ==> Consistent(ToGroups(bs)[i])
    ensures LoadsWithin(bs, m) ==> CasesWithin(ToGroups(bs), m)
  {
    if |bs| > 0 {
      assert ToGroups(bs)[1..] == ToGroups(bs[1..]);
      ToGroupsFacts(bs[1..], m);
    }
  }

  /** The groups reported for any arrangement `out` of the filled heap:
      exactly `k` of them, every suite in exactly one, each consistent with
      its suites, the case total kept, and no two groups further apart than
      the largest suite. */
  lemma GroupsFacts(o: HeapOrder, k: nat, ss: seq<Suite>, picks: seq<nat>, out: seq<Bucket>)
    requires Follows(o, Fresh(k), ss, 0, picks)
    requires multiset(out) == multiset(Fill(Fresh(k), ss, 0, picks))
    ensures var gs := ToGroups(out);
      && |gs| == k
      && multiset(AllClasses(gs)) == multiset(ss)
      && (forall i :: 0 <= i < |gs| ==> Consistent(gs[i]))
      && TotalCases(gs) == CaseCount(ss)
      && CasesWithin(gs, MaxCases(ss))
  {
    var heap := Fill(Fresh(k), ss, 0, picks);
    var gs := ToGroups(out);
    GreedyFacts(o, k, ss, picks);
    assert |out| == |multiset(out)| == |heap|;
    PermutationKeepsMembers(out, heap);
    PermutationKeepsBounds(out, heap, MaxCases(ss));
    ToGroupsFacts(out, MaxCases(ss));
    TotalCasesOfConsistent(gs);
    CaseCountPermutation(AllClasses(gs), ss);
  }

  /** Number of entries without suites. */
  function EmptyEntries(bs: seq<Bucket>): nat
  {
    if |bs| == 0 then 0 else (if bs[0].members == [] then 1 else 0) + EmptyEntries(bs[1..])
  }

  /** Filling an entry without suites leaves one fewer such entry. */
  lemma {:induction false} EmptyEntriesUpdate(bs: seq<Bucket>, i: nat, b: Bucket)
    requires i < |bs| && bs[i].members == [] && b.members != []
    ensures EmptyEntries(bs[i := b]) + 1 == EmptyEntries(bs)
  {
    if i == 0 {
      assert bs[i := b][1..] == bs[1..];
    } else {
      assert bs[i := b][1..] == bs[1..][i - 1 := b];
      EmptyEntriesUpdate(bs[1..], i - 1, b);
    }
  }

  lemma {:induction false} EmptyEntriesAppend(a: seq<Bucket>, b: seq<Bucket>)
    ensures EmptyEntries(a + b) == EmptyEntries(a) + EmptyEntries(b)
    decreases |a|
  {
    if |a| == 0 {
      assert a + b == b;
    } else {
      assert (a + b)[1..] == a[1..] + b;
      EmptyEntriesAppend(a[1..], b);
    }
  }

  /** Reordering entries does not change how many of them hold no suite. */
  lemma {:induction false} EmptyEntriesPermutation(a: seq<Bucket>, b: seq<Bucket>)
    requires multiset(a) == multiset(b)
    ensures EmptyEntries(a) == EmptyEntries(b)
    decreases |a|
  {
    if |a| == 0 {
      assert b == [];
    } else {
      assert a[0] in multiset(b);
      var k :| 0 <= k < |b| && b[k] == a[0];
      var before, from := b[..k], b[k..];
      DropMatching(a, b, k);
      EmptyEntriesPermutation(a[1..], before + b[k + 1..]);
      EmptyEntriesAppend(before, b[k + 1..]);
      assert from[1..] == b[k + 1..];
      assert b == before + from;
      EmptyEntriesAppend(before, from);
    }
  }

  /** Entries without suites become groups without suites. */
  lemma {:induction false} ToGroupsKeepsEmpty(bs: seq<Bucket>)
    ensures EmptyGroups(ToGroups(bs)) == EmptyEntries(bs)
  {
    if |bs| > 0 {
      assert ToGroups(bs)[1..] == ToGroups(bs[1..]);
      ToGroupsKeepsEmpty(bs[1..]);
    }
  }
}
