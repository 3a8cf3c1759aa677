// The operations of the d-ary heap as functions of its value, and what they keep.
module HeapOps {
  import opened Order
  import opened HeapOrder

  // ---------- where the elements were told they are ----------

  ghost predicate Distinct(s: seq<Elem>)
  {
    forall i, j :: 0 <= i < j < |s| ==> s[i].context != s[j].context
  }

  ghost predicate Told(h: Heap, k: nat)
    requires k < |h.s|
  {
    h.s[k].context in h.place && h.place[h.s[k].context] == k
  }

  // Every stored element was last told the index where it is.
  ghost predicate Tracked(h: Heap)
  {
    Distinct(h.s) && forall k | 0 <= k < |h.s| :: Told(h, k)
  }

  ghost predicate TrackedBut(h: Heap, i: nat)
  {
    Distinct(h.s) && forall k | 0 <= k < |h.s| && k != i :: Told(h, k)
  }

  ghost predicate Stores(s: seq<Elem>, context: nat)
  {
    exists k :: 0 <= k < |s| && s[k].context == context
  }

  // Nobody but stored elements is told anything.
  ghost predicate OthersSame(h: Heap, r: Heap)
  {
    forall x :: !Stores(h.s, x) ==> (x in r.place <==> x in h.place) && (x in h.place ==> r.place[x] == h.place[x])
  }

  lemma PassOne(h: Heap, i: nat, p: nat, moved: bool)
    requires i < |h.s| && p < |h.s| && i != p && Distinct(h.s)
    requires if moved then TrackedBut(h, i) else Tracked(h)
    ensures (var r := Heap(Swap(h.s, i, p), h.place[h.s[p].context := i]);
      TrackedBut(r, p) && OthersSame(h, r) && forall x :: Stores(r.s, x) <==> Stores(h.s, x))
  {
    var r := Heap(Swap(h.s, i, p), h.place[h.s[p].context := i]);
    forall k | 0 <= k < |r.s| && k != p
      ensures Told(r, k)
    {
      if k != i {
        assert Told(h, k) && r.s[k] == h.s[k];
      }
    }
    forall x
      ensures Stores(r.s, x) <==> Stores(h.s, x)
    {
      assert forall k :: 0 <= k < |h.s| ==> h.s[k] == r.s[if k == i then p else if k == p then i else k];
    }
  }

  lemma RestHere(h: Heap, i: nat)
    requires i < |h.s| && TrackedBut(h, i)
    ensures (var r := h.(place := h.place[h.s[i].context := i]); Tracked(r) && OthersSame(h, r))
  {
    var r := h.(place := h.place[h.s[i].context := i]);
    assert Stores(h.s, h.s[i].context);
    forall k | 0 <= k < |r.s|
      ensures Told(r, k)
    {
      assert k != i ==> Told(h, k);
    }
  }

  lemma {:induction false} UpTracked(cmp: Compare, d: nat, h: Heap, i: nat, moved: bool)
    requires d >= 1 && i < |h.s| && if moved then TrackedBut(h, i) else Tracked(h)
    ensures Tracked(Up(cmp, d, h, i, moved)) && OthersSame(h, Up(cmp, d, h, i, moved))
    ensures forall x :: Stores(Up(cmp, d, h, i, moved).s, x) <==> Stores(h.s, x)
    decreases i
  {
    hide Swap;
    if i > 0 && cmp(h.s[i].key, h.s[Parent(d, i)].key) < 0 {
      PassOne(h, i, Parent(d, i), moved);
      UpTracked(cmp, d, Heap(Swap(h.s, i, Parent(d, i)), h.place[h.s[Parent(d, i)].context := i]), Parent(d, i), true);
    } else if moved {
      RestHere(h, i);
    }
  }

  lemma {:induction false} DownTracked(cmp: Compare, d: nat, h: Heap, i: nat, moved: bool)
    requires d >= 1 && TotalPreorder(cmp) && (moved ==> i < |h.s|) && if moved then TrackedBut(h, i) else Tracked(h)
    ensures Tracked(Down(cmp, d, h, i, moved)) && OthersSame(h, Down(cmp, d, h, i, moved))
    ensures forall x :: Stores(Down(cmp, d, h, i, moved).s, x) <==> Stores(h.s, x)
    decreases |h.s| - i
  {
    hide Swap, TotalPreorder;
    if i * d + 1 < |h.s| && cmp(h.s[i].key, h.s[MinChild(cmp, d, h.s, i)].key) > 0 {
      var c := MinChild(cmp, d, h.s, i);
      MinChildLeast(cmp, d, h.s, i);
      PassOne(h, i, c, moved);
      DownTracked(cmp, d, Heap(Swap(h.s, i, c), h.place[h.s[c].context := i]), c, true);
    } else if moved {
      RestHere(h, i);
    }
  }

  // ---------- the operations ----------

  // cl_heap_modify_key
  function Modified(cmp: Compare, d: nat, h: Heap, key: int, i: nat): Heap
    requires d >= 1 && TotalPreorder(cmp) && i < |h.s|
  {
    var t := h.(s := h.s[i := Elem(key, h.s[i].context)]);
    var c := cmp(key, h.s[i].key);
    if c < 0 then Up(cmp, d, t, i, false) else if c > 0 then Down(cmp, d, t, i, false) else t
  }

  // cl_heap_insert, with room
  function Inserted(cmp: Compare, d: nat, h: Heap, e: Elem): Heap
    requires d >= 1
  {
    Up(cmp, d, Heap(h.s + [e], h.place[e.context := |h.s|]), |h.s|, false)
  }

  // The last element takes the place of element i, which is told an index outside the heap.
  function Unlinked(h: Heap, i: nat): Heap
    requires i < |h.s| && |h.s| > 1
  {
    var n := |h.s| - 1;
    Heap(if i < n then h.s[..n][i := h.s[n]] else h.s[..n], h.place[h.s[i].context := n][h.s[n].context := i])
  }

  // cl_heap_delete.  When the last element is the one removed, its parent is never greater
  // (UnlinkedOrdered), so sifting up always starts inside the heap.
  function Deleted(cmp: Compare, d: nat, h: Heap, i: nat): Heap
    requires d >= 1 && TotalPreorder(cmp) && i < |h.s|
  {
    if |h.s| == 1 then Heap([], h.place)
    else
      var u := Unlinked(h, i);
      if i == 0 then Down(cmp, d, u, 0, false)
      else
        var c := cmp(u.s[Parent(d, i)].key, h.s[|h.s| - 1].key);
        if c < 0 then Down(cmp, d, u, i, false)
        else if c > 0 && i < |u.s| then Up(cmp, d, u, i, false)
        else u
  }

  // ---------- order and contents ----------

  lemma ModifiedOrdered(cmp: Compare, d: nat, h: Heap, key: int, i: nat)
    requires d >= 1 && TotalPreorder(cmp) && i < |h.s| && Ordered(cmp, d, h.s)
    ensures Ordered(cmp, d, Modified(cmp, d, h, key, i).s)
    ensures multiset(Modified(cmp, d, h, key, i).s) == multiset(h.s[i := Elem(key, h.s[i].context)])
  {
    var t := h.(s := h.s[i := Elem(key, h.s[i].context)]);
    var was := h.s[i].key;
    var c := cmp(key, was);
    Flip(cmp, key, was);
    Flip(cmp, was, key);
    forall j | 1 <= j < |t.s|
      ensures j != i && c <= 0 ==> Edge(cmp, d, t.s, j)
      ensures Parent(d, j) != i && c >= 0 ==> Edge(cmp, d, t.s, j)
      ensures i >= 1 && Parent(d, j) == i ==> cmp(t.s[Parent(d, i)].key, t.s[j].key) <= 0
      ensures j == i && c == 0 ==> Edge(cmp, d, t.s, j)
    {
      assert Edge(cmp, d, h.s, j);
      if j == i && c >= 0 {
        Chain(cmp, h.s[Parent(d, j)].key, was, key);
      }
      if Parent(d, j) == i {
        if c <= 0 {
          Chain(cmp, key, was, h.s[j].key);
        }
        if i >= 1 {
          assert Edge(cmp, d, h.s, i);
          Chain(cmp, h.s[Parent(d, i)].key, was, h.s[j].key);
        }
      }
    }
    hide TotalPreorder;
    if c < 0 {
      UpOrdered(cmp, d, t, i, false);
    } else if c > 0 {
      DownOrdered(cmp, d, t, i, false);
    }
  }

  lemma InsertedOrdered(cmp: Compare, d: nat, h: Heap, e: Elem)
    requires d >= 1 && TotalPreorder(cmp) && Ordered(cmp, d, h.s)
    ensures Ordered(cmp, d, Inserted(cmp, d, h, e).s)
    ensures multiset(Inserted(cmp, d, h, e).s) == multiset(h.s) + multiset{e}
  {
    hide TotalPreorder;
    var t := Heap(h.s + [e], h.place[e.context := |h.s|]);
    forall j | 1 <= j < |h.s|
      ensures Edge(cmp, d, t.s, j)
    {
      assert Edge(cmp, d, h.s, j);
    }
    UpOrdered(cmp, d, t, |h.s|, false);
  }

  lemma UnlinkedMultiset(h: Heap, i: nat)
    requires i < |h.s| && |h.s| > 1
    ensures multiset(Unlinked(h, i).s) + multiset{h.s[i]} == multiset(h.s)
  {
    var n := |h.s| - 1;
    assert h.s == h.s[..n] + [h.s[n]];
    if i < n {
      Replaced(h.s[..n], i, h.s[n]);
    }
  }

  lemma Replaced(t: seq<Elem>, i: nat, e: Elem)
    requires i < |t|
    ensures multiset(t[i := e]) + multiset{t[i]} == multiset(t) + multiset{e}
  {
    assert t == t[..i] + [t[i]] + t[i + 1..];
    assert t[i := e] == t[..i] + [e] + t[i + 1..];
  }

  // With the last element in place i, only the edges around i may be wrong: up or down, as the
  // comparison with the parent says.
  lemma UnlinkedOrdered(cmp: Compare, d: nat, h: Heap, i: nat)
    requires d >= 1 && TotalPreorder(cmp) && i < |h.s| && |h.s| > 1 && Ordered(cmp, d, h.s)
    ensures (var u, n := Unlinked(h, i).s, |h.s| - 1;
      && (i == 0 || cmp(u[Parent(d, i)].key, h.s[n].key) <= 0 ==> OrderedDown(cmp, d, u, i))
      && (i > 0 && cmp(u[Parent(d, i)].key, h.s[n].key) >= 0 ==> OrderedUp(cmp, d, u, i))
      && (i > 0 && cmp(u[Parent(d, i)].key, h.s[n].key) > 0 ==> i < n))
  {
    hide TotalPreorder;
    var u, n := Unlinked(h, i).s, |h.s| - 1;
    if i > 0 {
      assert Edge(cmp, d, h.s, i);
    }
    forall j | 1 <= j < n
      ensures Parent(d, j) != i && j != i ==> Edge(cmp, d, u, j)
      ensures i >= 1 && Parent(d, j) == i ==> cmp(u[Parent(d, i)].key, u[j].key) <= 0
      ensures i >= 1 && Parent(d, j) == i && cmp(u[Parent(d, i)].key, h.s[n].key) >= 0 ==> Edge(cmp, d, u, j)
    {
      assert Edge(cmp, d, h.s, j);
      if i >= 1 && Parent(d, j) == i {
        Chain(cmp, h.s[Parent(d, i)].key, h.s[i].key, h.s[j].key);
        if cmp(u[Parent(d, i)].key, h.s[n].key) >= 0 {
          Flip(cmp, u[Parent(d, i)].key, h.s[n].key);
          Flip(cmp, h.s[n].key, u[Parent(d, i)].key);
          Chain(cmp, h.s[n].key, u[Parent(d, i)].key, h.s[j].key);
        }
      }
    }
  }

  lemma DeletedOrdered(cmp: Compare, d: nat, h: Heap, i: nat)
    requires d >= 1 && TotalPreorder(cmp) && i < |h.s| && Ordered(cmp, d, h.s)
    ensures Ordered(cmp, d, Deleted(cmp, d, h, i).s)
    ensures multiset(Deleted(cmp, d, h, i).s) + multiset{h.s[i]} == multiset(h.s)
    ensures |Deleted(cmp, d, h, i).s| == |h.s| - 1
  {
    hide TotalPreorder, OrderedDown, OrderedUp;
    if |h.s| == 1 {
      assert h.s == [h.s[0]];
    } else {
      var u := Unlinked(h, i);
      UnlinkedMultiset(h, i);
      UnlinkedOrdered(cmp, d, h, i);
      if i == 0 {
        DownOrdered(cmp, d, u, 0, false);
      } else {
        var c := cmp(u.s[Parent(d, i)].key, h.s[|h.s| - 1].key);
        if c < 0 {
          DownOrdered(cmp, d, u, i, false);
        } else if c > 0 {
          UpOrdered(cmp, d, u, i, false);
        } else {
          BothWays(cmp, d, u.s, i);
        }
      }
    }
  }

  lemma BothWays(cmp: Compare, d: nat, s: seq<Elem>, i: nat)
    requires d >= 1 && OrderedUp(cmp, d, s, i) && OrderedDown(cmp, d, s, i)
    ensures Ordered(cmp, d, s)
  {
    forall j | 1 <= j < |s|
      ensures Edge(cmp, d, s, j)
    {
      assert j == i ==> Parent(d, j) != i;
    }
  }

  // ---------- notifications ----------

  lemma ModifiedTracked(cmp: Compare, d: nat, h: Heap, key: int, i: nat)
    requires d >= 1 && TotalPreorder(cmp) && i < |h.s| && Tracked(h)
    ensures Tracked(Modified(cmp, d, h, key, i))
  {
    hide TotalPreorder;
    var t := h.(s := h.s[i := Elem(key, h.s[i].context)]);
    forall k | 0 <= k < |t.s|
      ensures Told(t, k)
    {
      assert Told(h, k);
    }
    UpTracked(cmp, d, t, i, false);
    DownTracked(cmp, d, t, i, false);
  }

  lemma InsertedTracked(cmp: Compare, d: nat, h: Heap, e: Elem)
    requires d >= 1 && Tracked(h) && !Stores(h.s, e.context)
    ensures Tracked(Inserted(cmp, d, h, e))
  {
    var t := Heap(h.s + [e], h.place[e.context := |h.s|]);
    forall k | 0 <= k < |t.s|
      ensures Told(t, k)
    {
      assert k < |h.s| ==> Told(h, k) && t.s[k] == h.s[k];
    }
    UpTracked(cmp, d, t, |h.s|, false);
  }

  // After a delete the rest is tracked, and the removed context was last told an index at which
  // it is not stored.
  lemma DeletedTracked(cmp: Compare, d: nat, h: Heap, i: nat)
    requires d >= 1 && TotalPreorder(cmp) && i < |h.s| && Tracked(h)
    ensures (var r, x := Deleted(cmp, d, h, i), h.s[i].context;
      && Tracked(r) && !Stores(r.s, x)
      && x in r.place && r.place[x] == |r.s|)
  {
    hide TotalPreorder, Tracked, Unlinked, Stores;
    if |h.s| == 1 {
      OnlyOne(h);
    } else {
      var u := Unlinked(h, i);
      UnlinkedTracked(h, i);
      DownTracked(cmp, d, u, i, false);
      if i < |u.s| {
        UpTracked(cmp, d, u, i, false);
      }
    }
  }

  lemma OnlyOne(h: Heap)
    requires |h.s| == 1 && Tracked(h)
    ensures Tracked(Heap([], h.place)) && !Stores([], h.s[0].context)
    ensures h.s[0].context in h.place && h.place[h.s[0].context] == 0
  {
    assert Told(h, 0);
  }

  lemma UnlinkedTracked(h: Heap, i: nat)
    requires i < |h.s| && |h.s| > 1 && Tracked(h)
    ensures (var u, x := Unlinked(h, i), h.s[i].context;
      |u.s| == |h.s| - 1 && Tracked(u) && !Stores(u.s, x) && x in u.place && u.place[x] == |u.s|)
  {
    var u, n, x := Unlinked(h, i), |h.s| - 1, h.s[i].context;
    forall k | 0 <= k < n
      ensures Told(u, k) && u.s[k].context != x
    {
      assert Told(h, k) && (k != i ==> u.s[k] == h.s[k]);
    }
  }

  // ---------- the root, and taking it out again and again ----------

  lemma {:induction false} RootLeast(cmp: Compare, d: nat, s: seq<Elem>, j: nat)
    requires d >= 1 && TotalPreorder(cmp) && Ordered(cmp, d, s) && j < |s|
    ensures cmp(s[0].key, s[j].key) <= 0
    decreases j
  {
    if j == 0 {
      Flip(cmp, s[0].key, s[0].key);
    } else {
      RootLeast(cmp, d, s, Parent(d, j));
      assert Edge(cmp, d, s, j);
      Chain(cmp, s[0].key, s[Parent(d, j)].key, s[j].key);
    }
  }

  // The elements in the order in which extracting the root yields them.
  ghost function Drained(cmp: Compare, d: nat, h: Heap): (out: seq<Elem>)
    requires d >= 1 && TotalPreorder(cmp) && Ordered(cmp, d, h.s)
    decreases |h.s|
  {
    if h.s == [] then [] else
      DeletedOrdered(cmp, d, h, 0);
      [h.s[0]] + Drained(cmp, d, Deleted(cmp, d, h, 0))
  }

  ghost predicate SortedBy(cmp: Compare, s: seq<Elem>)
  {
    forall i, j :: 0 <= i < j < |s| ==> cmp(s[i].key, s[j].key) <= 0
  }

  lemma RootBefore(cmp: Compare, d: nat, s: seq<Elem>, t: seq<Elem>)
    requires d >= 1 && TotalPreorder(cmp) && Ordered(cmp, d, s)
    requires s != [] && forall e | e in t :: e in s
    ensures forall j | 0 <= j < |t| :: cmp(s[0].key, t[j].key) <= 0
  {
    hide TotalPreorder, Ordered;
    forall j | 0 <= j < |t|
      ensures cmp(s[0].key, t[j].key) <= 0
    {
      assert t[j] in t;
      var k :| 0 <= k < |s| && s[k] == t[j];
      RootLeast(cmp, d, s, k);
    }
  }

  // Repeated extraction yields a sorted permutation of what was stored.
  lemma {:induction false} DrainedSorted(cmp: Compare, d: nat, h: Heap)
    requires d >= 1 && TotalPreorder(cmp) && Ordered(cmp, d, h.s)
    ensures SortedBy(cmp, Drained(cmp, d, h)) && multiset(Drained(cmp, d, h)) == multiset(h.s)
    decreases |h.s|
  {
    hide TotalPreorder, Ordered, Deleted;
    if h.s != [] {
      DeletedOrdered(cmp, d, h, 0);
      var r := Deleted(cmp, d, h, 0);
      DrainedSorted(cmp, d, r);
      var t := Drained(cmp, d, r);
      forall e | e in t
        ensures e in h.s
      {
        assert e in multiset(t);
        assert e in multiset(h.s);
      }
      RootBefore(cmp, d, h.s, t);
      assert multiset([h.s[0]] + t) == multiset{h.s[0]} + multiset(t);
    }
  }
}
