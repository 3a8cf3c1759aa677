// The d-ary heap as a value: order, sifting as repeated swaps, and the index every element was
// last told.
module HeapOrder {
  import opened Order

  datatype Elem = Elem(key: int, context: nat)

  // The stored elements, and for every context the index of its last notification.
  datatype Heap = Heap(s: seq<Elem>, place: map<nat, nat>)

  function Parent(d: nat, i: nat): (p: nat)
    requires d >= 1 && i >= 1
    ensures p < i
  {
    ParentBound(d, i);
    (i - 1) / d
  }

  lemma ParentBound(d: nat, i: nat)
    requires d >= 1 && i >= 1
    ensures 0 <= (i - 1) / d < i
  {
    Quotient(i - 1, d);
  }

  lemma Quotient(n: nat, d: nat)
    requires d >= 1
    ensures 0 <= n / d <= n
  {
    var q := n / d;
    assert n == q * d + n % d;
    Grows(q, d);
  }

  lemma Grows(q: nat, d: nat)
    requires d >= 1
    ensures q <= q * d
  {
    assert q * d == q * (d - 1) + q && q * (d - 1) >= 0;
  }

  // The children of p are the d positions from p * d + 1 on.
  lemma Children(d: nat, p: nat, j: nat)
    requires d >= 1 && j >= 1
    ensures Parent(d, j) == p <==> p * d + 1 <= j <= p * d + d
  {
    var q := (j - 1) / d;
    assert j - 1 == q * d + (j - 1) % d;
    if q < p {
      assert (q + 1) * d <= p * d;
    } else if q > p {
      assert (p + 1) * d <= q * d;
    }
  }

  ghost predicate Edge(cmp: Compare, d: nat, s: seq<Elem>, j: nat)
    requires d >= 1 && 1 <= j < |s|
  {
    cmp(s[Parent(d, j)].key, s[j].key) <= 0
  }

  ghost predicate Ordered(cmp: Compare, d: nat, s: seq<Elem>)
    requires d >= 1
  {
    forall j | 1 <= j < |s| :: Edge(cmp, d, s, j)
  }

  // Element i may be less than its parent; its children are no less than that parent.
  ghost predicate OrderedUp(cmp: Compare, d: nat, s: seq<Elem>, i: nat)
    requires d >= 1
  {
    && (forall j | 1 <= j < |s| && j != i :: Edge(cmp, d, s, j))
    && (forall j | 1 <= j < |s| && 1 <= i < |s| && Parent(d, j) == i :: cmp(s[Parent(d, i)].key, s[j].key) <= 0)
  }

  // Element i may be greater than its children; those are no less than its parent.
  ghost predicate OrderedDown(cmp: Compare, d: nat, s: seq<Elem>, i: nat)
    requires d >= 1
  {
    && (forall j | 1 <= j < |s| && Parent(d, j) != i :: Edge(cmp, d, s, j))
    && (forall j | 1 <= j < |s| && 1 <= i < |s| && Parent(d, j) == i :: cmp(s[Parent(d, i)].key, s[j].key) <= 0)
  }

  function Swap(s: seq<Elem>, a: nat, b: nat): (t: seq<Elem>)
    requires a < |s| && b < |s|
    ensures |t| == |s|
  {
    s[a := s[b]][b := s[a]]
  }

  lemma SwapMultiset(s: seq<Elem>, a: nat, b: nat)
    requires a < |s| && b < |s|
    ensures multiset(Swap(s, a, b)) == multiset(s)
  {
  }

  // ---------- sifting up ----------

  // heap_up.  An element that is passed is told its new index at once, the one that moves only
  // where it comes to rest, and only if it moved.
  function Up(cmp: Compare, d: nat, h: Heap, i: nat, moved: bool): (r: Heap)
    requires d >= 1 && i < |h.s|
    ensures |r.s| == |h.s|
    decreases i
  {
    if i > 0 && cmp(h.s[i].key, h.s[Parent(d, i)].key) < 0 then
      var p := Parent(d, i);
      Up(cmp, d, Heap(Swap(h.s, i, p), h.place[h.s[p].context := i]), p, true)
    else if moved then h.(place := h.place[h.s[i].context := i])
    else h
  }

  lemma UpStep(cmp: Compare, d: nat, s: seq<Elem>, i: nat)
    requires TotalPreorder(cmp) && d >= 1 && 1 <= i < |s| && OrderedUp(cmp, d, s, i)
    requires cmp(s[i].key, s[Parent(d, i)].key) < 0
    ensures OrderedUp(cmp, d, Swap(s, i, Parent(d, i)), Parent(d, i))
  {
    var p := Parent(d, i);
    var t := Swap(s, i, p);
    forall j | 1 <= j < |t| && j != p
      ensures Edge(cmp, d, t, j)
    {
      if j != i {
        assert Edge(cmp, d, s, j);
        if Parent(d, j) == p {
          Chain(cmp, s[i].key, s[p].key, s[j].key);
        }
      }
    }
    forall j | 1 <= j < |t| && 1 <= p && Parent(d, j) == p
      ensures cmp(t[Parent(d, p)].key, t[j].key) <= 0
    {
      assert Edge(cmp, d, s, p);
      if j != i {
        assert Edge(cmp, d, s, j);
        Chain(cmp, s[Parent(d, p)].key, s[p].key, s[j].key);
      }
    }
  }

  lemma {:induction false} UpOrdered(cmp: Compare, d: nat, h: Heap, i: nat, moved: bool)
    requires TotalPreorder(cmp) && d >= 1 && i < |h.s| && OrderedUp(cmp, d, h.s, i)
    ensures Ordered(cmp, d, Up(cmp, d, h, i, moved).s)
    ensures multiset(Up(cmp, d, h, i, moved).s) == multiset(h.s)
    decreases i
  {
    if i > 0 {
      var p := Parent(d, i);
      if cmp(h.s[i].key, h.s[p].key) < 0 {
        UpStep(cmp, d, h.s, i);
        SwapMultiset(h.s, i, p);
        UpOrdered(cmp, d, Heap(Swap(h.s, i, p), h.place[h.s[p].context := i]), p, true);
      } else {
        Flip(cmp, h.s[i].key, h.s[p].key);
        Flip(cmp, h.s[p].key, h.s[i].key);
        assert Edge(cmp, d, h.s, i);
      }
    }
  }

  // ---------- sifting down ----------

  // The inner loop of heap_down: the last of the least children among best and child..
  function Best(cmp: Compare, d: nat, s: seq<Elem>, first: nat, child: nat, best: nat): (b: nat)
    requires best < |s| && best < child
    ensures b < |s|
    decreases first + d - child
  {
    if child < first + d && child < |s| then
      Best(cmp, d, s, first, child + 1, if cmp(s[child].key, s[best].key) <= 0 then child else best)
    else best
  }

  function MinChild(cmp: Compare, d: nat, s: seq<Elem>, p: nat): (b: nat)
    requires d >= 1 && p * d + 1 < |s|
    ensures b < |s|
  {
    Best(cmp, d, s, p * d + 1, p * d + 2, p * d + 1)
  }

  lemma {:induction false} BestLeast(cmp: Compare, d: nat, s: seq<Elem>, first: nat, child: nat, best: nat)
    requires TotalPreorder(cmp) && first <= best < |s| && best < child <= first + d
    requires forall j | first <= j < child && j < |s| :: cmp(s[best].key, s[j].key) <= 0
    ensures first <= Best(cmp, d, s, first, child, best) < first + d
    ensures forall j | first <= j < first + d && j < |s| ::
      cmp(s[Best(cmp, d, s, first, child, best)].key, s[j].key) <= 0
    decreases first + d - child
  {
    if child < first + d && child < |s| {
      var b := if cmp(s[child].key, s[best].key) <= 0 then child else best;
      Flip(cmp, s[best].key, s[child].key);
      Flip(cmp, s[child].key, s[best].key);
      Flip(cmp, s[child].key, s[child].key);
      forall j | first <= j < child + 1 && j < |s|
        ensures cmp(s[b].key, s[j].key) <= 0
      {
        if j < child && b == child {
          Chain(cmp, s[child].key, s[best].key, s[j].key);
        }
      }
      BestLeast(cmp, d, s, first, child + 1, b);
    }
  }

  lemma MinChildLeast(cmp: Compare, d: nat, s: seq<Elem>, p: nat)
    requires TotalPreorder(cmp) && d >= 1 && p * d + 1 < |s|
    ensures p < MinChild(cmp, d, s, p) && Parent(d, MinChild(cmp, d, s, p)) == p
    ensures forall j | 1 <= j < |s| && Parent(d, j) == p :: cmp(s[MinChild(cmp, d, s, p)].key, s[j].key) <= 0
  {
    var first := p * d + 1;
    Flip(cmp, s[first].key, s[first].key);
    BestLeast(cmp, d, s, first, first + 1, first);
    var b := MinChild(cmp, d, s, p);
    Children(d, p, b);
    forall j | 1 <= j < |s| && Parent(d, j) == p
      ensures cmp(s[b].key, s[j].key) <= 0
    {
      Children(d, p, j);
    }
  }

  // heap_down
  function Down(cmp: Compare, d: nat, h: Heap, i: nat, moved: bool): (r: Heap)
    requires d >= 1 && TotalPreorder(cmp) && (moved ==> i < |h.s|)
    ensures |r.s| == |h.s|
    decreases |h.s| - i
  {
    if i * d + 1 < |h.s| then
      var c := MinChild(cmp, d, h.s, i);
      MinChildLeast(cmp, d, h.s, i);
      if cmp(h.s[i].key, h.s[c].key) > 0 then
        Down(cmp, d, Heap(Swap(h.s, i, c), h.place[h.s[c].context := i]), c, true)
      else if moved then h.(place := h.place[h.s[i].context := i])
      else h
    else if moved then h.(place := h.place[h.s[i].context := i])
    else h
  }

  lemma DownStep(cmp: Compare, d: nat, s: seq<Elem>, i: nat)
    requires TotalPreorder(cmp) && d >= 1 && i * d + 1 < |s| && OrderedDown(cmp, d, s, i)
    requires i < |s| && cmp(s[i].key, s[MinChild(cmp, d, s, i)].key) > 0
    ensures OrderedDown(cmp, d, Swap(s, i, MinChild(cmp, d, s, i)), MinChild(cmp, d, s, i))
  {
    var c := MinChild(cmp, d, s, i);
    MinChildLeast(cmp, d, s, i);
    hide MinChild, TotalPreorder;
    var t := Swap(s, i, c);
    Flip(cmp, s[i].key, s[c].key);
    Flip(cmp, s[c].key, s[i].key);
    forall j | 1 <= j < |t| && Parent(d, j) != c
      ensures Edge(cmp, d, t, j)
    {
      if Parent(d, j) != i {
        assert Edge(cmp, d, s, j);
      }
    }
    forall j | 1 <= j < |t| && 1 <= c && Parent(d, j) == c
      ensures cmp(t[Parent(d, c)].key, t[j].key) <= 0
    {
      assert Edge(cmp, d, s, j);
    }
  }

  // The element at i is greater than its least child.
  ghost predicate Sinks(cmp: Compare, d: nat, s: seq<Elem>, i: nat)
    requires d >= 1
  {
    i * d + 1 < |s| && i < |s| && cmp(s[i].key, s[MinChild(cmp, d, s, i)].key) > 0
  }

  lemma DownUnfold(cmp: Compare, d: nat, h: Heap, i: nat, moved: bool)
    requires TotalPreorder(cmp) && d >= 1 && (moved ==> i < |h.s|)
    ensures Sinks(cmp, d, h.s, i) ==>
      var c := MinChild(cmp, d, h.s, i);
      i < c && Down(cmp, d, h, i, moved) == Down(cmp, d, Heap(Swap(h.s, i, c), h.place[h.s[c].context := i]), c, true)
    ensures !Sinks(cmp, d, h.s, i) ==> Down(cmp, d, h, i, moved).s == h.s
  {
    hide TotalPreorder, MinChild, Swap;
    if i * d + 1 < |h.s| {
      MinChildLeast(cmp, d, h.s, i);
    }
  }

  lemma {:induction false} DownOrdered(cmp: Compare, d: nat, h: Heap, i: nat, moved: bool)
    requires TotalPreorder(cmp) && d >= 1 && (moved ==> i < |h.s|) && OrderedDown(cmp, d, h.s, i)
    ensures Ordered(cmp, d, Down(cmp, d, h, i, moved).s)
    ensures multiset(Down(cmp, d, h, i, moved).s) == multiset(h.s)
    decreases |h.s| - i
  {
    hide OrderedDown, Ordered, TotalPreorder, Swap, MinChild, Down;
    DownUnfold(cmp, d, h, i, moved);
    if Sinks(cmp, d, h.s, i) {
      var c := MinChild(cmp, d, h.s, i);
      DownStep(cmp, d, h.s, i);
      SwapMultiset(h.s, i, c);
      DownOrdered(cmp, d, Heap(Swap(h.s, i, c), h.place[h.s[c].context := i]), c, true);
    } else {
      DownDone(cmp, d, h.s, i);
    }
  }

  lemma DownDone(cmp: Compare, d: nat, s: seq<Elem>, i: nat)
    requires TotalPreorder(cmp) && d >= 1 && OrderedDown(cmp, d, s, i)
    requires i * d + 1 < |s| ==> i < |s| && cmp(s[i].key, s[MinChild(cmp, d, s, i)].key) <= 0
    ensures Ordered(cmp, d, s)
  {
    hide TotalPreorder, MinChild;
    forall j | 1 <= j < |s|
      ensures Edge(cmp, d, s, j)
    {
      if Parent(d, j) == i {
        Children(d, i, j);
        NotGreater(cmp, d, s, i, j);
      }
    }
  }

  lemma NotGreater(cmp: Compare, d: nat, s: seq<Elem>, i: nat, j: nat)
    requires TotalPreorder(cmp) && d >= 1 && i * d + 1 < |s| && i < |s|
    requires 1 <= j < |s| && Parent(d, j) == i
    requires cmp(s[i].key, s[MinChild(cmp, d, s, i)].key) <= 0
    ensures Edge(cmp, d, s, j)
  {
    MinChildLeast(cmp, d, s, i);
    Chain(cmp, s[i].key, s[MinChild(cmp, d, s, i)].key, s[j].key);
  }

  // The choice among the children does not look at the parent.
  lemma {:induction false} BestSame(cmp: Compare, d: nat, s: seq<Elem>, hole: nat, e: Elem, first: nat, child: nat,
    best: nat)
    requires hole < best < |s| && best < child
    ensures Best(cmp, d, s[hole := e], first, child, best) == Best(cmp, d, s, first, child, best)
    decreases first + d - child
  {
    if child < first + d && child < |s| {
      BestSame(cmp, d, s, hole, e, first, child + 1, if cmp(s[child].key, s[best].key) <= 0 then child else best);
    }
  }

  lemma MinChildSame(cmp: Compare, d: nat, s: seq<Elem>, p: nat, e: Elem)
    requires d >= 1 && p * d + 1 < |s|
    ensures p < |s| && MinChild(cmp, d, s[p := e], p) == MinChild(cmp, d, s, p)
  {
    Grows(p, d);
    BestSame(cmp, d, s, p, e, p * d + 1, p * d + 2, p * d + 1);
  }
}
