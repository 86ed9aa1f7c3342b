/** Shared vocabulary of the test-parallelization runners: test suites as the
    balancer sees them, the groups it produces, and the error-carrying result
    type used where the source raises instead of returning. */
module Units {

  datatype Option<+T> = None | Some(value: T)

  datatype Result<+T, +E> = Ok(value: T) | Err(error: E)

  /** Why an operation raises instead of returning a value. */
  datatype Failure =
    | EmptyHeap        // a suite is still to be placed but the heap holds no entry (group count below one)
    | IndexOutOfRange  // a negative group index reaches below the first group

  /** A test suite (one test class). The balancer never looks inside it: it only
      uses its number of test cases (`count()` / `countTestCases()`), and `id`
      stands for the suite object's identity. */
  datatype Suite = Suite(id: nat, cases: nat)

  /** A group of suites run together in one child process. */
  datatype TestGroup = TestGroup(numClasses: nat, numCases: nat, classes: seq<Suite>)

  /** Total number of test cases of a sequence of suites. */
  function CaseCount(ss: seq<Suite>): nat
  {
    if |ss| == 0 then 0 else ss[0].cases + CaseCount(ss[1..])
  }

  lemma {:induction false} CaseCountAppend(a: seq<Suite>, b: seq<Suite>)
    ensures CaseCount(a + b) == CaseCount(a) + CaseCount(b)
  {
    if |a| == 0 {
      assert a + b == b;
    } else {
      assert (a + b)[1..] == a[1..] + b;
      CaseCountAppend(a[1..], b);
    }
  }

  /** Splits the total at position `k`. */
  lemma CaseCountAround(b: seq<Suite>, k: nat)
    requires k < |b|
    ensures CaseCount(b) == CaseCount(b[..k]) + b[k].cases + CaseCount(b[k + 1..])
  {
    var before, from := b[..k], b[k..];
    assert from[1..] == b[k + 1..];
    assert b == before + from;
    CaseCountAppend(before, from);
  }

  /** Taking the same element out of two permutations of each other leaves
      permutations of each other. */
  lemma DropMatching<T>(a: seq<T>, b: seq<T>, k: nat)
    requires multiset(a) == multiset(b)
    requires 0 < |a| && k < |b| && b[k] == a[0]
    ensures multiset(a[1..]) == multiset(b[..k] + b[k + 1..])
  {
    var before, after := b[..k], b[k + 1..];
    assert a == [a[0]] + a[1..];
    assert b == before + [b[k]] + after;
    assert multiset(b) == multiset(before) + multiset{a[0]} + multiset(after);
    assert multiset(before + after) == multiset(before) + multiset(after);
    assert multiset(a) == multiset{a[0]} + multiset(a[1..]);
    forall x
      ensures multiset(a[1..])[x] == multiset(before + after)[x]
    {
      assert multiset(a)[x] == multiset(b)[x];
    }
  }

  /** Replacing the element at `p` by `g` trades one occurrence of the old
      element for one of `g`. */
  lemma ReplaceOne<T>(bs: seq<T>, p: nat, rest: multiset<T>, g: T)
    requires p < |bs| && rest + multiset{bs[p]} == multiset(bs)
    ensures multiset(bs[p := g]) == rest + multiset{g}
  {
    var before, after := bs[..p], bs[p + 1..];
    assert bs == before + [bs[p]] + after;
    assert bs[p := g] == before + [g] + after;
    forall x
      ensures multiset(bs[p := g])[x] == (rest + multiset{g})[x]
    {
      assert multiset(bs)[x] == multiset(before)[x] + multiset{bs[p]}[x] + multiset(after)[x];
    }
  }

  /** An element at two positions occurs at least twice. */
  lemma TwoPositions<T>(s: seq<T>, i: nat, j: nat)
    requires i < j < |s| && s[i] == s[j]
    ensures multiset(s)[s[i]] >= 2
  {
    assert s == s[..j] + [s[j]] + s[j + 1..];
    assert s[..j][i] == s[i];
  }

  /** An element occurring at least twice sits at two positions. */
  lemma FindTwo<T>(s: seq<T>, v: T) returns (i: nat, j: nat)
    requires multiset(s)[v] >= 2
    ensures i < j < |s| && s[i] == v && s[j] == v
  {
    assert v in multiset(s);
    var p :| 0 <= p < |s| && s[p] == v;
    var before, after := s[..p], s[p + 1..];
    assert s == before + [v] + after;
    assert v in multiset(before + after);
    var q :| 0 <= q < |before + after| && (before + after)[q] == v;
    if q < p {
      i, j := q, p;
    } else {
      assert s[q + 1] == after[q - p];
      i, j := p, q + 1;
    }
  }

  /** Reordering suites does not change their total number of cases. */
  lemma {:induction false} CaseCountPermutation(a: seq<Suite>, b: seq<Suite>)
    requires multiset(a) == multiset(b)
    ensures CaseCount(a) == CaseCount(b)
    decreases |a|
  {
    if |a| == 0 {
      assert b == [];
    } else {
      assert a[0] in multiset(b);
      var k :| 0 <= k < |b| && b[k] == a[0];
      var rest := b[..k] + b[k + 1..];
      DropMatching(a, b, k);
      CaseCountPermutation(a[1..], rest);
      CaseCountAppend(b[..k], b[k + 1..]);
      CaseCountAround(b, k);
    }
  }

  /** The largest number of test cases of any one suite, 0 when there is none. */
  function MaxCases(ss: seq<Suite>): (m: nat)
    ensures forall i :: 0 <= i < |ss| ==> ss[i].cases <= m
    ensures |ss| == 0 ==> m == 0
    ensures |ss| > 0 ==> exists i :: 0 <= i < |ss| && ss[i].cases == m
  {
    if |ss| == 0 then 0
    else
      var rest := MaxCases(ss[1..]);
      if ss[0].cases >= rest then ss[0].cases else rest
  }

  /** Reordering suites does not change the largest one. */
  lemma MaxCasesPermutation(a: seq<Suite>, b: seq<Suite>)
    requires multiset(a) == multiset(b)
    ensures MaxCases(a) == MaxCases(b)
  {
    if |a| > 0 {
      var i :| 0 <= i < |a| && a[i].cases == MaxCases(a);
      var j :| 0 <= j < |b| && b[j].cases == MaxCases(b);
      assert a[i] in multiset(b);
      assert b[j] in multiset(a);
    } else {
      assert |b| == |multiset(b)|;
    }
  }

  /** A group whose counters agree with its members. */
  predicate Consistent(g: TestGroup)
  {
    g.numClasses == |g.classes| && g.numCases == CaseCount(g.classes)
  }

  /** Every suite of every group, group after group. */
  function AllClasses(gs: seq<TestGroup>): seq<Suite>
  {
    if |gs| == 0 then [] else gs[0].classes + AllClasses(gs[1..])
  }

  /** Consistent groups hold as many cases in total as their suites. */
  lemma {:induction false} TotalCasesOfConsistent(gs: seq<TestGroup>)
    requires forall i :: 0 <= i < |gs| ==> Consistent(gs[i])
    ensures TotalCases(gs) == CaseCount(AllClasses(gs))
  {
    if |gs| > 0 {
      TotalCasesOfConsistent(gs[1..]);
      CaseCountAppend(gs[0].classes, AllClasses(gs[1..]));
    }
  }

  /** Sum of the groups' `numCases`. */
  function TotalCases(gs: seq<TestGroup>): nat
  {
    if |gs| == 0 then 0 else gs[0].numCases + TotalCases(gs[1..])
  }

  /** No group holds more than `slack` test cases beyond any other group. */
  predicate CasesWithin(gs: seq<TestGroup>, slack: nat)
  {
    forall i, j :: 0 <= i < |gs| && 0 <= j < |gs| ==> gs[i].numCases <= gs[j].numCases + slack
  }

  /** The group a suite forms on its own when there are no more suites than groups. */
  function Singleton(s: Suite): TestGroup
  {
    TestGroup(1, s.cases, [s])
  }

  function Singletons(ss: seq<Suite>): (gs: seq<TestGroup>)
    ensures |gs| == |ss|
    ensures forall i :: 0 <= i < |ss| ==> gs[i] == Singleton(ss[i])
  {
    seq(|ss|, i requires 0 <= i < |ss| => Singleton(ss[i]))
  }

  /** One singleton group per suite: every suite is kept, each group is
      consistent, and the case total is unchanged. */
  lemma {:induction false} SingletonsKeepSuites(ss: seq<Suite>)
    ensures AllClasses(Singletons(ss)) == ss
    ensures TotalCases(Singletons(ss)) == CaseCount(ss)
    ensures forall i :: 0 <= i < |ss| ==> Consistent(Singletons(ss)[i])
    ensures CasesWithin(Singletons(ss), MaxCases(ss))
  {
    forall i | 0 <= i < |ss|
      ensures Consistent(Singletons(ss)[i])
    {
      assert [ss[i]][1..] == [];
    }
    if |ss| > 0 {
      assert Singletons(ss)[1..] == Singletons(ss[1..]);
      SingletonsKeepSuites(ss[1..]);
    }
  }

  /** Number of groups without any suite. */
  function EmptyGroups(gs: seq<TestGroup>): nat
  {
    if |gs| == 0 then 0 else (if gs[0].classes == [] then 1 else 0) + EmptyGroups(gs[1..])
  }
}
