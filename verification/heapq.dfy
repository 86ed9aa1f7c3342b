/** Python's `heapq` on a list of `(load, n, suites)` tuples, as the two Python
    runners use it: `heappush` and `heappop`, with CPython's `_siftdown` and
    `_siftup`. Both helpers work on a "hole": the position whose entry is
    about to be overwritten. The item that belongs there is carried
    separately. */
module HeapQ {
  import opened Units
  import opened Greedy

  /** Python's `<` on `(load, n, suites)` tuples: load, then `n`, then the
      lists. Lists are compared by length here. That is Python's list order
      whenever one of the two lists is empty, and the runners never compare
      two entries with equal load and `n` that both hold suites. */
  predicate Less(a: Bucket, b: Bucket)
  {
    || a.load < b.load
    || (a.load == b.load && (a.tag < b.tag || (a.tag == b.tag && |a.members| < |b.members|)))
  }

  /** `a` is not above `b`: exactly `Greedy.Precedes(PythonTuple, a, b)`. */
  lemma LessIsTupleOrder(a: Bucket, b: Bucket)
    ensures !Less(b, a) <==> Precedes(PythonTuple, a, b)
  {
  }

  function Parent(i: nat): nat
    requires i > 0
  {
    (i - 1) / 2
  }

  /** `heap[(i - 1) // 2] <= heap[i]` for every position but the root. */
  predicate IsHeap(h: seq<Bucket>)
  {
    forall i :: 0 < i < |h| ==> !Less(h[i], h[Parent(i)])
  }

  /** Every parent-child pair is ordered, except those that involve the
      hole `pos`. */
  predicate OrderedAround(h: seq<Bucket>, pos: nat)
  {
    forall i :: 0 < i < |h| && i != pos && Parent(i) != pos ==> !Less(h[i], h[Parent(i)])
  }

  /** The parent of the hole is not above the hole's children. */
  predicate GrandparentOrdered(h: seq<Bucket>, pos: nat)
    requires pos < |h|
  {
    pos > 0 ==> forall c :: 0 < c < |h| && Parent(c) == pos ==> !Less(h[c], h[Parent(pos)])
  }

  /** The item to place is not above the hole's children. */
  predicate ItemOverChildren(h: seq<Bucket>, pos: nat, item: Bucket)
  {
    forall c :: 0 < c < |h| && Parent(c) == pos ==> !Less(h[c], item)
  }

  /** The loop of `_siftdown(heap, 0, pos)`. While `item` is less than the
      entry above the hole, that entry moves down into the hole. Then `item`
      fills the hole. */
  function SiftDownFrom(h: seq<Bucket>, pos: nat, item: Bucket): (r: seq<Bucket>)
    requires pos < |h|
    ensures |r| == |h|
    decreases pos
  {
    if pos > 0 && Less(item, h[Parent(pos)]) then
      SiftDownFrom(h[pos := h[Parent(pos)]], Parent(pos), item)
    else
      h[pos := item]
  }

  /** The loop of `_siftup(heap, pos)`. The smaller child (the right one
      unless the left is strictly less) moves up into the hole until the
      hole is a leaf. Then `item` goes there and is sifted back up. */
  function SiftUpFrom(h: seq<Bucket>, pos: nat, item: Bucket): (r: seq<Bucket>)
    requires pos < |h|
    ensures |r| == |h|
    decreases |h| - pos
  {
    var child := 2 * pos + 1;
    if child < |h| then
      var c := if child + 1 < |h| && !Less(h[child], h[child + 1]) then child + 1 else child;
      SiftUpFrom(h[pos := h[c]], c, item)
    else
      SiftDownFrom(h, pos, item)
  }

  /** `heappush(heap, item)`. */
  function HeapPush(h: seq<Bucket>, item: Bucket): (r: seq<Bucket>)
    ensures |r| == |h| + 1
  {
    SiftDownFrom(h + [item], |h|, item)
  }

  datatype Popped = Popped(item: Bucket, rest: seq<Bucket>)

  /** `heappop(heap)`: the last entry fills the root's place and is sifted. */
  function HeapPop(h: seq<Bucket>): (r: Popped)
    requires |h| > 0
    ensures |r.rest| == |h| - 1
  {
    var last := h[|h| - 1];
    var shorter := h[..|h| - 1];
    if |shorter| > 0 then Popped(shorter[0], SiftUpFrom(shorter, 0, last))
    else Popped(last, shorter)
  }

  /** Moving the entry above the hole down into it. */
  lemma SiftDownStep(h: seq<Bucket>, pos: nat, item: Bucket)
    requires 0 < pos < |h| && Less(item, h[Parent(pos)])
    requires OrderedAround(h, pos) && GrandparentOrdered(h, pos) && ItemOverChildren(h, pos, item)
    ensures var h2 := h[pos := h[Parent(pos)]];
      && OrderedAround(h2, Parent(pos))
      && GrandparentOrdered(h2, Parent(pos))
      && ItemOverChildren(h2, Parent(pos), item)
  {
    var pp := Parent(pos);
    var h2 := h[pos := h[pp]];
    forall i | 0 < i < |h2| && i != pp && Parent(i) != pp
      ensures !Less(h2[i], h2[Parent(i)])
    {
      if Parent(i) == pos {
        assert h2[Parent(i)] == h[pp];
      }
    }
    forall c | 0 < c < |h2| && Parent(c) == pp
      ensures !Less(h2[c], item)
    {
      if c != pos {
        assert !Less(h[c], h[pp]);
      }
    }
    if pp > 0 {
      forall c | 0 < c < |h2| && Parent(c) == pp
        ensures !Less(h2[c], h2[Parent(pp)])
      {
        assert !Less(h[pp], h[Parent(pp)]);
        if c != pos {
          assert !Less(h[c], h[pp]);
        }
      }
    }
  }

  /** `_siftdown` ends with a heap holding the entries around the hole and
      `item`. */
  lemma {:induction false} SiftDownMakesHeap(h: seq<Bucket>, pos: nat, item: Bucket)
    requires pos < |h|
    requires OrderedAround(h, pos) && GrandparentOrdered(h, pos) && ItemOverChildren(h, pos, item)
    ensures IsHeap(SiftDownFrom(h, pos, item))
    ensures multiset(SiftDownFrom(h, pos, item)) == multiset(h[pos := item])
    decreases pos
  {
    if pos > 0 && Less(item, h[Parent(pos)]) {
      var pp := Parent(pos);
      var h2 := h[pos := h[pp]];
      SiftDownStep(h, pos, item);
      SiftDownMakesHeap(h2, pp, item);
      SwapKeepsMultiset(h, pos, pp, item);
    } else {
      var r := h[pos := item];
      forall i | 0 < i < |r|
        ensures !Less(r[i], r[Parent(i)])
      {
        if i == pos {
          assert r[Parent(i)] == h[Parent(pos)];
        }
      }
    }
  }

  /** Moving the hole from `pos` to `c` by copying `h[c]` up keeps the entries. */
  lemma SwapKeepsMultiset(h: seq<Bucket>, pos: nat, c: nat, item: Bucket)
    requires pos < |h| && c < |h| && pos != c
    ensures multiset(h[pos := h[c]][c := item]) == multiset(h[pos := item])
  {
    var a := h[pos := item];
    var b := h[pos := h[c]][c := item];
    assert b == a[pos := a[c]][c := a[pos]];
  }

  /** Moving the smaller child up into the hole. */
  lemma SiftUpStep(h: seq<Bucket>, pos: nat, c: nat)
    requires pos < |h| && 2 * pos + 1 < |h|
    requires c == if 2 * pos + 2 < |h| && !Less(h[2 * pos + 1], h[2 * pos + 2]) then 2 * pos + 2 else 2 * pos + 1
    requires OrderedAround(h, pos) && GrandparentOrdered(h, pos)
    ensures var h2 := h[pos := h[c]];
      OrderedAround(h2, c) && GrandparentOrdered(h2, c)
  {
    var h2 := h[pos := h[c]];
    assert Parent(c) == pos;
    forall i | 0 < i < |h2| && i != c && Parent(i) != c
      ensures !Less(h2[i], h2[Parent(i)])
    {
      if i == pos {
        assert h2[Parent(i)] == h[Parent(pos)];
      } else if Parent(i) == pos {
        assert i == 2 * pos + 1 || i == 2 * pos + 2;
      }
    }
    forall cc | 0 < cc < |h2| && Parent(cc) == c
      ensures !Less(h2[cc], h2[Parent(c)])
    {
      assert cc != pos && cc != c;
    }
  }

  /** A position whose first child would lie past the end has no children. */
  lemma LeafHasNoChildren(h: seq<Bucket>, pos: nat)
    requires pos < |h| <= 2 * pos + 1
    ensures forall c :: 0 < c < |h| ==> Parent(c) != pos
  {
  }

  /** `_siftup` ends with a heap holding the entries around the hole and
      `item`. */
  lemma {:induction false} SiftUpMakesHeap(h: seq<Bucket>, pos: nat, item: Bucket)
    requires pos < |h|
    requires OrderedAround(h, pos) && GrandparentOrdered(h, pos)
    ensures IsHeap(SiftUpFrom(h, pos, item))
    ensures multiset(SiftUpFrom(h, pos, item)) == multiset(h[pos := item])
    decreases |h| - pos
  {
    var child := 2 * pos + 1;
    if child < |h| {
      var c := if child + 1 < |h| && !Less(h[child], h[child + 1]) then child + 1 else child;
      SiftUpStep(h, pos, c);
      SiftUpMakesHeap(h[pos := h[c]], c, item);
      SwapKeepsMultiset(h, pos, c, item);
    } else {
      LeafHasNoChildren(h, pos);
      SiftDownMakesHeap(h, pos, item);
    }
  }

  /** `heappush` keeps a heap and adds exactly `item`. */
  lemma PushKeepsHeap(h: seq<Bucket>, item: Bucket)
    requires IsHeap(h)
    ensures IsHeap(HeapPush(h, item))
    ensures multiset(HeapPush(h, item)) == multiset(h) + multiset{item}
  {
    var h1 := h + [item];
    var n := |h|;
    LeafHasNoChildren(h1, n);
    assert OrderedAround(h1, n);
    SiftDownMakesHeap(h1, n, item);
    assert h1[n := item] == h1;
  }

  /** The root of a heap is not above any entry. */
  lemma {:induction false} RootIsLeast(h: seq<Bucket>, i: nat)
    requires IsHeap(h) && i < |h|
    ensures !Less(h[i], h[0])
    decreases i
  {
    if i > 0 {
      RootIsLeast(h, Parent(i));
    }
  }

  /** `heappop` returns an entry that no other entry is below, keeps a heap,
      and removes exactly that entry. */
  lemma PopKeepsHeap(h: seq<Bucket>)
    requires IsHeap(h) && |h| > 0
    ensures forall j :: 0 <= j < |h| ==> !Less(h[j], HeapPop(h).item)
    ensures IsHeap(HeapPop(h).rest)
    ensures multiset(HeapPop(h).rest) + multiset{HeapPop(h).item} == multiset(h)
  {
    forall j | 0 <= j < |h|
      ensures !Less(h[j], h[0])
    {
      RootIsLeast(h, j);
    }
    var last := h[|h| - 1];
    var shorter := h[..|h| - 1];
    assert h == shorter + [last];
    if |shorter| > 0 {
      assert OrderedAround(shorter, 0);
      SiftUpMakesHeap(shorter, 0, last);
      assert multiset(shorter[0 := last]) + multiset{shorter[0]} == multiset(shorter) + multiset{last};
    }
  }

  /** A list of equal entries is a heap. */
  lemma FreshIsHeap(k: nat)
    ensures IsHeap(Fresh(k))
  {
  }
}
