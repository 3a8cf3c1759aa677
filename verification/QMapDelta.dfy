// cl_qmap_delta: splitting two maps into what only one of them has and what both have.
module QMapDelta {
  import opened MapItems
  import opened Order
  import opened RbTree
  import opened ThreadList
  import opened QMaps
  import opened QMapBulk

  // __cl_qmap_delta_move: the item leaves src for the end of dest; the next one is returned.
  method DeltaMove(dest: QMap, src: QMap, p: MapItem, ghost k: seq<MapItem>, ghost t: seq<MapItem>)
    returns (next: MapItem)
    requires Apart(dest, src) && src.Walk() == k + [p] + t
    requires Ascending(dest.cmp, KeysOf(dest.Walk() + [p]))
    modifies dest, src, dest.nodes, src.nodes
    ensures Apart(dest, src) && src.Walk() == k + t && dest.Walk() == old(dest.Walk()) + [p]
    ensures dest.nodes + src.nodes == old(dest.nodes) + old(src.nodes)
    ensures next == At(src.nil, k + [p] + t, |k| + 1)
    ensures (forall y | y in old(dest.nodes) :: y.key == old(y.key)) &&
      (forall y | y in old(src.nodes) :: y.key == old(y.key))
  {
    hide QMap.Valid, Sorted, TotalPreorder, Ascending, NoDup;
    src.Iterate(|k|);
    next := p.next;
    ghost var w, s := dest.Walk(), dest.Walk() + [p];
    ghost var ks := KeysOf(s);
    dest.WalkFacts();
    MoveOut(src, p, k, t);
    assert dest.Valid() && p !in dest.nodes && KeysOf(s) == ks;
    MoveIn(dest, p);
    assert src.Valid() && src.Walk() == k + t;
  }

  // Item p, whose key follows all others, joins at the end.
  method MoveIn(dest: QMap, p: MapItem)
    requires dest.Valid() && p !in dest.nodes && Ascending(dest.cmp, KeysOf(dest.Walk() + [p]))
    modifies dest, dest.nodes, p
    ensures dest.Valid() && dest.Walk() == old(dest.Walk()) + [p] && dest.nodes == old(dest.nodes) + {p}
    ensures p.key == old(p.key) && forall y | y in old(dest.nodes) :: y.key == old(y.key)
  {
    hide QMap.Valid, Ascending, KeysOf;
    ghost var w := dest.Walk();
    assert w + [p] == w + [p] + [] && w == w + [];
    MoveBack(dest, p, w, []);
  }

  // ---------- which way the keys go ----------

  // Everything visited in one map comes before everything still to come in the other.
  ghost predicate Frontier(cmp: Compare, k1: seq<int>, k2: seq<int>, i: nat, j: nat)
  {
    && i <= |k1| && j <= |k2|
    && (forall a, b :: 0 <= a < i && j <= b < |k2| ==> cmp(k1[a], k2[b]) < 0)
    && (forall a, b :: i <= a < |k1| && 0 <= b < j ==> cmp(k2[b], k1[a]) < 0)
  }

  // The smaller head has no partner in the other map.
  lemma FrontierLess(cmp: Compare, k1: seq<int>, k2: seq<int>, i: nat, j: nat)
    requires TotalPreorder(cmp) && Ascending(cmp, k2) && Frontier(cmp, k1, k2, i, j) && i < |k1|
    requires j < |k2| ==> cmp(k1[i], k2[j]) < 0
    ensures !Clashes(cmp, k1[i], k2) && Frontier(cmp, k1, k2, i + 1, j)
  {
    hide TotalPreorder;
    forall b | 0 <= b < |k2|
      ensures cmp(k1[i], k2[b]) != 0 && (b >= j ==> cmp(k1[i], k2[b]) < 0)
    {
      if b < j {
        Flip(cmp, k2[b], k1[i]);
      } else {
        if b > j {
          Chain(cmp, k1[i], k2[j], k2[b]);
        }
      }
    }
  }

  lemma FrontierSwap(cmp: Compare, k1: seq<int>, k2: seq<int>, i: nat, j: nat)
    requires Frontier(cmp, k1, k2, i, j)
    ensures Frontier(cmp, k2, k1, j, i)
  {
  }

  // Equal heads are partners.
  lemma FrontierEqual(cmp: Compare, k1: seq<int>, k2: seq<int>, i: nat, j: nat)
    requires TotalPreorder(cmp) && Ascending(cmp, k1) && Ascending(cmp, k2)
    requires Frontier(cmp, k1, k2, i, j) && i < |k1| && j < |k2| && cmp(k1[i], k2[j]) == 0
    ensures Clashes(cmp, k1[i], k2) && Clashes(cmp, k2[j], k1) && Frontier(cmp, k1, k2, i + 1, j + 1)
  {
    hide TotalPreorder;
    Flip(cmp, k1[i], k2[j]);
    forall b | j < b < |k2|
      ensures cmp(k1[i], k2[b]) < 0
    {
      Chain(cmp, k1[i], k2[j], k2[b]);
    }
    forall a | i < a < |k1|
      ensures cmp(k2[j], k1[a]) < 0
    {
      Chain(cmp, k2[j], k1[i], k1[a]);
    }
  }

  // ---------- one source map and where its unmatched items go ----------

  // After i items of s, src keeps the matched ones and dest holds the others, both in order.
  ghost predicate Splitting(dest: QMap, src: QMap, s: seq<MapItem>, sk: seq<int>, dk: seq<int>, i: nat)
    reads dest, src, dest.nodes, src.nodes, s`key
  {
    && Apart(dest, src) && i <= |s| == |sk| && KeysOf(s) == sk && Ascending(dest.cmp, sk)
    && src.nil !in s && (forall x | x in s :: x in dest.nodes + src.nodes)
    && src.Walk() == Pick(dest.cmp, s, sk, dk, true, i) + s[i..]
    && dest.Walk() == Pick(dest.cmp, s, sk, dk, false, i)
  }

  // The key sequence of picked items is part of the ascending one.
  lemma {:induction false} PickAscending(cmp: Compare, s: seq<MapItem>, sk: seq<int>, dk: seq<int>, i: nat)
    requires i < |s| == |sk| && KeysOf(s) == sk && Ascending(cmp, sk)
    ensures Ascending(cmp, KeysOf(Pick(cmp, s, sk, dk, false, i) + [s[i]]))
  {
    var p := Pick(cmp, s, sk, dk, false, i);
    PickSorted(cmp, s, sk, dk, i);
    PickIn(cmp, s, sk, dk, false, i);
    SortedKeys(cmp, p);
    var q := p + [s[i]];
    forall a, b | 0 <= a < b < |q|
      ensures cmp(KeysOf(q)[a], KeysOf(q)[b]) < 0
    {
      assert q[a] == p[a];
      if b < |p| {
        assert q[b] == p[b];
      } else {
        assert p[a] in s[..i];
        var c :| 0 <= c < i && s[c] == p[a];
        assert cmp(sk[c], sk[i]) < 0;
      }
    }
  }

  lemma {:induction false} PickSorted(cmp: Compare, s: seq<MapItem>, sk: seq<int>, dk: seq<int>, i: nat)
    requires i <= |s| == |sk| && KeysOf(s) == sk && Ascending(cmp, sk)
    ensures Sorted(cmp, Pick(cmp, s, sk, dk, false, i))
    decreases i, 0
  {
    if i > 0 {
      PickSorted(cmp, s, sk, dk, i - 1);
      var p := Pick(cmp, s, sk, dk, false, i - 1);
      PickIn(cmp, s, sk, dk, false, i - 1);
      forall a | 0 <= a < |p|
        ensures cmp(p[a].key, s[i - 1].key) < 0
      {
        assert p[a] in s[..i - 1];
        var c :| 0 <= c < i - 1 && s[c] == p[a];
        assert cmp(sk[c], sk[i - 1]) < 0;
      }
    }
  }

  // The head of what is left has no partner: it moves.
  method SplitMove(dest: QMap, src: QMap, p: MapItem, ghost s: seq<MapItem>, ghost sk: seq<int>,
    ghost dk: seq<int>, ghost i: nat)
    returns (next: MapItem)
    requires Splitting(dest, src, s, sk, dk, i) && i < |s| && p == s[i] && !Clashes(dest.cmp, sk[i], dk)
    modifies dest, src, dest.nodes, src.nodes
    ensures Splitting(dest, src, s, sk, dk, i + 1) && next == At(src.nil, s, i + 1)
    ensures dest.nodes + src.nodes == old(dest.nodes) + old(src.nodes)
    ensures (forall y | y in old(dest.nodes) :: y.key == old(y.key)) &&
      (forall y | y in old(src.nodes) :: y.key == old(y.key))
  {
    hide QMap.Valid, Sorted, TotalPreorder, Ascending, NoDup, KeysOf, Clashes;
    ghost var k, t := Pick(dest.cmp, s, sk, dk, true, i), s[i + 1..];
    assert src.Walk() == k + [p] + t;
    PickAscending(dest.cmp, s, sk, dk, i);
    next := DeltaMove(dest, src, p, k, t);
    assert KeysOf(s) == sk;
    assert s[i + 1..] == t;
  }

  // The head of what is left has a partner: it stays.
  lemma SplitStay(dest: QMap, src: QMap, s: seq<MapItem>, sk: seq<int>, dk: seq<int>, i: nat)
    requires Splitting(dest, src, s, sk, dk, i) && i < |s| && Clashes(dest.cmp, sk[i], dk)
    ensures Splitting(dest, src, s, sk, dk, i + 1)
    ensures s[i].next == At(src.nil, s, i + 1) && s[i].key == sk[i]
  {
    hide QMap.Valid, Sorted, TotalPreorder, Ascending, NoDup, Clashes;
    var k := Pick(dest.cmp, s, sk, dk, true, i);
    assert src.Walk() == k + [s[i]] + s[i + 1..];
    src.Iterate(|k|);
  }

  // ---------- cl_qmap_delta ----------

  // Both sources with their destinations, which share nothing.
  ghost predicate DeltaState(m1: QMap, m2: QMap, nw: QMap, ol: QMap, s1: seq<MapItem>, s2: seq<MapItem>,
                             k1: seq<int>, k2: seq<int>, i: nat, j: nat)
    reads m1, m2, nw, ol, m1.nodes, m2.nodes, nw.nodes, ol.nodes, s1`key, s2`key
  {
    && Splitting(ol, m1, s1, k1, k2, i) && Splitting(nw, m2, s2, k2, k1, j)
    && m1 != m2 && m1 != nw && ol != m2 && ol != nw && m1.cmp == m2.cmp
    && (ol.nodes + m1.nodes) !! (nw.nodes + m2.nodes)
    && Frontier(m1.cmp, k1, k2, i, j)
  }

  // The head of map 1 moves to the old items.
  method MoveOld(m1: QMap, m2: QMap, nw: QMap, ol: QMap, p: MapItem, ghost s1: seq<MapItem>, ghost s2: seq<MapItem>,
                 ghost k1: seq<int>, ghost k2: seq<int>, ghost i: nat, ghost j: nat) returns (next: MapItem)
    requires DeltaState(m1, m2, nw, ol, s1, s2, k1, k2, i, j) && i < |s1| && p == s1[i]
    requires j < |k2| ==> m1.cmp(k1[i], k2[j]) < 0
    modifies m1, ol, m1.nodes, ol.nodes
    ensures DeltaState(m1, m2, nw, ol, s1, s2, k1, k2, i + 1, j) && next == At(m1.nil, s1, i + 1)
    ensures ol.nodes + m1.nodes == old(ol.nodes) + old(m1.nodes)
    ensures (forall y | y in old(ol.nodes) :: y.key == old(y.key)) &&
      (forall y | y in old(m1.nodes) :: y.key == old(y.key))
  {
    hide Splitting, Frontier, Ascending, TotalPreorder, QMap.Valid, Apart, KeysOf, Pick;
    SplitFacts(ol, m1, s1, k1, k2, i);
    SplitFacts(nw, m2, s2, k2, k1, j);
    FrontierLess(m1.cmp, k1, k2, i, j);
    next := SplitMove(ol, m1, p, s1, k1, k2, i);
    assert Splitting(nw, m2, s2, k2, k1, j);
  }

  // The head of map 2 moves to the new items.
  method MoveNew(m1: QMap, m2: QMap, nw: QMap, ol: QMap, p: MapItem, ghost s1: seq<MapItem>, ghost s2: seq<MapItem>,
                 ghost k1: seq<int>, ghost k2: seq<int>, ghost i: nat, ghost j: nat) returns (next: MapItem)
    requires DeltaState(m1, m2, nw, ol, s1, s2, k1, k2, i, j) && j < |s2| && p == s2[j]
    requires i < |k1| ==> m1.cmp(k1[i], k2[j]) > 0
    modifies m2, nw, m2.nodes, nw.nodes
    ensures DeltaState(m1, m2, nw, ol, s1, s2, k1, k2, i, j + 1) && next == At(m2.nil, s2, j + 1)
    ensures nw.nodes + m2.nodes == old(nw.nodes) + old(m2.nodes)
    ensures (forall y | y in old(nw.nodes) :: y.key == old(y.key)) &&
      (forall y | y in old(m2.nodes) :: y.key == old(y.key))
  {
    hide Splitting, Frontier, Ascending, TotalPreorder, QMap.Valid, Apart, KeysOf, Pick, Clashes;
    SplitFacts(ol, m1, s1, k1, k2, i);
    SplitFacts(nw, m2, s2, k2, k1, j);
    FrontierSwap(m1.cmp, k1, k2, i, j);
    if i < |k1| {
      Flip(m1.cmp, k2[j], k1[i]);
    }
    FrontierLess(m1.cmp, k2, k1, j, i);
    FrontierSwap(m1.cmp, k2, k1, j + 1, i);
    next := SplitMove(nw, m2, p, s2, k2, k1, j);
    assert Splitting(ol, m1, s1, k1, k2, i);
  }

  lemma SplitFacts(dest: QMap, src: QMap, s: seq<MapItem>, sk: seq<int>, dk: seq<int>, i: nat)
    requires Splitting(dest, src, s, sk, dk, i)
    ensures TotalPreorder(dest.cmp) && dest.cmp == src.cmp && Ascending(dest.cmp, sk) && i <= |s| == |sk|
    ensures forall x | x in s :: x in dest.nodes + src.nodes
    ensures At(src.nil, s, i) == src.nil <==> i == |s|
    ensures i < |s| ==> s[i].key == sk[i]
    ensures Apart(dest, src)
    ensures i == |s| ==>
      src.Walk() == Pick(dest.cmp, s, sk, dk, true, |s|) && dest.Walk() == Pick(dest.cmp, s, sk, dk, false, |s|)
  {
    hide QMap.Valid, Pick, Ascending;
    src.WalkFacts();
    assert i < |s| ==> s[i] in s;
  }

  // The loop body of the delta, and the two loops that follow it when one map runs out.
  method DeltaRound(m1: QMap, m2: QMap, nw: QMap, ol: QMap, p1: MapItem, p2: MapItem,
                    ghost s1: seq<MapItem>, ghost s2: seq<MapItem>, ghost k1: seq<int>, ghost k2: seq<int>,
                    ghost i: nat, ghost j: nat)
    returns (q1: MapItem, q2: MapItem, ghost i': nat, ghost j': nat)
    requires DeltaState(m1, m2, nw, ol, s1, s2, k1, k2, i, j)
    requires p1 == At(m1.nil, s1, i) && p2 == At(m2.nil, s2, j) && p1 != m1.nil && p2 != m2.nil
    modifies m1, m2, nw, ol, m1.nodes, m2.nodes, nw.nodes, ol.nodes
    ensures DeltaState(m1, m2, nw, ol, s1, s2, k1, k2, i', j') && i <= i' && j <= j' && i + j < i' + j'
    ensures i' <= |s1| && j' <= |s2|
    ensures q1 == At(m1.nil, s1, i') && q2 == At(m2.nil, s2, j')
    ensures ol.nodes + m1.nodes == old(ol.nodes) + old(m1.nodes) && nw.nodes + m2.nodes == old(nw.nodes) + old(m2.nodes)
    ensures (forall y | y in old(ol.nodes) :: y.key == old(y.key)) &&
      (forall y | y in old(m1.nodes) :: y.key == old(y.key))
    ensures (forall y | y in old(nw.nodes) :: y.key == old(y.key)) &&
      (forall y | y in old(m2.nodes) :: y.key == old(y.key))
  {
    hide Splitting, Frontier, Ascending, TotalPreorder, QMap.Valid, Apart, KeysOf, Pick, Clashes;
    SplitFacts(ol, m1, s1, k1, k2, i);
    SplitFacts(nw, m2, s2, k2, k1, j);
    q1, q2, i', j' := p1, p2, i, j;
    if m1.cmp(p1.key, p2.key) < 0 {
      q1 := MoveOld(m1, m2, nw, ol, p1, s1, s2, k1, k2, i, j);
      i' := i + 1;
    } else if m1.cmp(p1.key, p2.key) > 0 {
      q2 := MoveNew(m1, m2, nw, ol, p2, s1, s2, k1, k2, i, j);
      j' := j + 1;
    } else {
      FrontierEqual(m1.cmp, k1, k2, i, j);
      SplitStay(ol, m1, s1, k1, k2, i);
      SplitStay(nw, m2, s2, k2, k1, j);
      q1, q2, i', j' := p1.next, p2.next, i + 1, j + 1;
    }
  }

  // Afterwards both maps keep exactly the items whose key the other one had, the old items are
  // the rest of map 1 and the new ones the rest of map 2, all in order.
  method Delta(m1: QMap, m2: QMap, nw: QMap, ol: QMap)
    requires Apart(ol, m1) && Apart(nw, m2) && m1.cmp == m2.cmp
    requires m1 != m2 && m1 != nw && ol != m2 && ol != nw && (ol.nodes + m1.nodes) !! (nw.nodes + m2.nodes)
    requires nw.Walk() == [] && ol.Walk() == []
    modifies m1, m2, nw, ol, m1.nodes, m2.nodes, nw.nodes, ol.nodes
    ensures Apart(ol, m1) && Apart(nw, m2)
    ensures ol.nodes + m1.nodes == old(ol.nodes) + old(m1.nodes) && nw.nodes + m2.nodes == old(nw.nodes) + old(m2.nodes)
    ensures (forall y | y in old(ol.nodes) :: y.key == old(y.key)) &&
      (forall y | y in old(m1.nodes) :: y.key == old(y.key))
    ensures (forall y | y in old(nw.nodes) :: y.key == old(y.key)) &&
      (forall y | y in old(m2.nodes) :: y.key == old(y.key))
    ensures var s1, k1, k2 := old(m1.Walk()), old(KeysOf(m1.Walk())), old(KeysOf(m2.Walk()));
      m1.Walk() == Pick(m1.cmp, s1, k1, k2, true, |s1|) && ol.Walk() == Pick(m1.cmp, s1, k1, k2, false, |s1|)
    ensures var s2, k1, k2 := old(m2.Walk()), old(KeysOf(m1.Walk())), old(KeysOf(m2.Walk()));
      m2.Walk() == Pick(m1.cmp, s2, k2, k1, true, |s2|) && nw.Walk() == Pick(m1.cmp, s2, k2, k1, false, |s2|)
    // an item stays exactly when the other map had one with an equal key, and else has moved out
    ensures forall x :: x in m1.Walk() <==>
      x in old(m1.Walk()) && exists y :: y in old(m2.Walk()) && m1.cmp(x.key, y.key) == 0
    ensures forall x :: x in ol.Walk() <==>
      x in old(m1.Walk()) && !exists y :: y in old(m2.Walk()) && m1.cmp(x.key, y.key) == 0
    ensures forall x :: x in m2.Walk() <==>
      x in old(m2.Walk()) && exists y :: y in old(m1.Walk()) && m1.cmp(x.key, y.key) == 0
    ensures forall x :: x in nw.Walk() <==>
      x in old(m2.Walk()) && !exists y :: y in old(m1.Walk()) && m1.cmp(x.key, y.key) == 0
  {
    hide Splitting, Frontier, Ascending, KeysOf, Pick, QMap.Valid, NoDup;
    m1.WalkFacts();
    m2.WalkFacts();
    ghost var s1, s2 := m1.Walk(), m2.Walk();
    ghost var k1, k2 := KeysOf(s1), KeysOf(s2);
    ghost var i, j := 0, 0;
    SplitStart(ol, m1, k2);
    SplitStart(nw, m2, k1);
    FrontierStart(m1.cmp, k1, k2);
    SplitFacts(ol, m1, s1, k1, k2, i);
    SplitFacts(nw, m2, s2, k2, k1, j);
    var p1, p2 := m1.nil.next, m2.nil.next;
    while p1 != m1.nil && p2 != m2.nil
      invariant DeltaState(m1, m2, nw, ol, s1, s2, k1, k2, i, j) && i <= |s1| && j <= |s2|
      invariant p1 == At(m1.nil, s1, i) && p2 == At(m2.nil, s2, j)
      invariant ol.nodes + m1.nodes == old(ol.nodes) + old(m1.nodes) &&
        nw.nodes + m2.nodes == old(nw.nodes) + old(m2.nodes)
      invariant (forall y | y in old(ol.nodes) :: y.key == old(y.key)) &&
        (forall y | y in old(m1.nodes) :: y.key == old(y.key))
      invariant (forall y | y in old(nw.nodes) :: y.key == old(y.key)) &&
        (forall y | y in old(m2.nodes) :: y.key == old(y.key))
      decreases |s1| - i + |s2| - j
    {
      p1, p2, i, j := DeltaRound(m1, m2, nw, ol, p1, p2, s1, s2, k1, k2, i, j);
    }
    DeltaRest(m1, m2, nw, ol, p1, p2, s1, s2, k1, k2, i, j);
    Partners(m1, m2, nw, ol, s1, s2, k1, k2);
  }

  // What the state after both walks says of the items.
  lemma Partners(m1: QMap, m2: QMap, nw: QMap, ol: QMap, s1: seq<MapItem>, s2: seq<MapItem>, k1: seq<int>, k2: seq<int>)
    requires DeltaState(m1, m2, nw, ol, s1, s2, k1, k2, |s1|, |s2|) && NoDup(s1) && NoDup(s2)
    ensures forall x :: x in m1.Walk() <==> x in s1 && exists y :: y in s2 && m1.cmp(x.key, y.key) == 0
    ensures forall x :: x in ol.Walk() <==> x in s1 && !exists y :: y in s2 && m1.cmp(x.key, y.key) == 0
    ensures forall x :: x in m2.Walk() <==> x in s2 && exists y :: y in s1 && m1.cmp(x.key, y.key) == 0
    ensures forall x :: x in nw.Walk() <==> x in s2 && !exists y :: y in s1 && m1.cmp(x.key, y.key) == 0
  {
    hide Frontier, Ascending, KeysOf, Pick, QMap.Valid, NoDup, TotalPreorder;
    PickPartners(m1.cmp, s1, s2, true);
    PickPartners(m1.cmp, s1, s2, false);
    PickPartners(m1.cmp, s2, s1, true);
    PickPartners(m1.cmp, s2, s1, false);
    assert s1[|s1|..] == [] && s2[|s2|..] == [];
  }

  lemma SplitStart(dest: QMap, src: QMap, dk: seq<int>)
    requires Apart(dest, src) && dest.Walk() == []
    ensures Splitting(dest, src, src.Walk(), KeysOf(src.Walk()), dk, 0)
    ensures src.nil.next == At(src.nil, src.Walk(), 0)
  {
    hide QMap.Valid, Sorted, TotalPreorder, KeysOf, Ascending, NoDup;
    src.WalkFacts();
    SortedKeys(src.cmp, src.Walk());
    src.Iterate(-1);
    assert src.Walk()[0..] == src.Walk();
  }

  lemma FrontierStart(cmp: Compare, k1: seq<int>, k2: seq<int>)
    ensures Frontier(cmp, k1, k2, 0, 0)
  {
  }

  // What remains of either map when the other one has been walked to its end.
  method DeltaRest(m1: QMap, m2: QMap, nw: QMap, ol: QMap, q1: MapItem, q2: MapItem,
                   ghost s1: seq<MapItem>, ghost s2: seq<MapItem>, ghost k1: seq<int>, ghost k2: seq<int>,
                   ghost i0: nat, ghost j0: nat)
    requires DeltaState(m1, m2, nw, ol, s1, s2, k1, k2, i0, j0)
    requires q1 == At(m1.nil, s1, i0) && q2 == At(m2.nil, s2, j0) && (q1 == m1.nil || q2 == m2.nil)
    modifies m1, m2, nw, ol, m1.nodes, m2.nodes, nw.nodes, ol.nodes
    ensures DeltaState(m1, m2, nw, ol, s1, s2, k1, k2, |s1|, |s2|) && Apart(ol, m1) && Apart(nw, m2)
    ensures ol.nodes + m1.nodes == old(ol.nodes) + old(m1.nodes) && nw.nodes + m2.nodes == old(nw.nodes) + old(m2.nodes)
    ensures (forall y | y in old(ol.nodes) :: y.key == old(y.key)) &&
      (forall y | y in old(m1.nodes) :: y.key == old(y.key))
    ensures (forall y | y in old(nw.nodes) :: y.key == old(y.key)) &&
      (forall y | y in old(m2.nodes) :: y.key == old(y.key))
    ensures m1.Walk() == Pick(m1.cmp, s1, k1, k2, true, |s1|) && ol.Walk() == Pick(m1.cmp, s1, k1, k2, false, |s1|)
    ensures m2.Walk() == Pick(m1.cmp, s2, k2, k1, true, |s2|) && nw.Walk() == Pick(m1.cmp, s2, k2, k1, false, |s2|)
  {
    hide Splitting, Frontier, Ascending, KeysOf, Pick, QMap.Valid, TotalPreorder;
    var p1, p2 := q1, q2;
    ghost var i, j := i0, j0;
    SplitFacts(ol, m1, s1, k1, k2, i);
    SplitFacts(nw, m2, s2, k2, k1, j);
    while p2 != m2.nil
      invariant DeltaState(m1, m2, nw, ol, s1, s2, k1, k2, i, j) && i <= |s1| && j <= |s2| == |k2|
      invariant p2 == At(m2.nil, s2, j) && (p2 == m2.nil <==> j == |s2|) && (p2 == m2.nil || i == |s1| == |k1|)
      invariant ol.nodes + m1.nodes == old(ol.nodes) + old(m1.nodes) &&
        nw.nodes + m2.nodes == old(nw.nodes) + old(m2.nodes)
      invariant (forall y | y in old(ol.nodes) :: y.key == old(y.key)) &&
        (forall y | y in old(m1.nodes) :: y.key == old(y.key))
      invariant (forall y | y in old(nw.nodes) :: y.key == old(y.key)) &&
        (forall y | y in old(m2.nodes) :: y.key == old(y.key))
      decreases |s2| - j
    {
      p2 := MoveNew(m1, m2, nw, ol, p2, s1, s2, k1, k2, i, j);
      j := j + 1;
      SplitFacts(nw, m2, s2, k2, k1, j);
    }
    SplitFacts(ol, m1, s1, k1, k2, i);
    SplitFacts(nw, m2, s2, k2, k1, j);
    while p1 != m1.nil
      invariant DeltaState(m1, m2, nw, ol, s1, s2, k1, k2, i, j) && i <= |s1| == |k1| && j == |s2| == |k2|
      invariant p1 == At(m1.nil, s1, i) && (p1 == m1.nil <==> i == |s1|)
      invariant ol.nodes + m1.nodes == old(ol.nodes) + old(m1.nodes) &&
        nw.nodes + m2.nodes == old(nw.nodes) + old(m2.nodes)
      invariant (forall y | y in old(ol.nodes) :: y.key == old(y.key)) &&
        (forall y | y in old(m1.nodes) :: y.key == old(y.key))
      invariant (forall y | y in old(nw.nodes) :: y.key == old(y.key)) &&
        (forall y | y in old(m2.nodes) :: y.key == old(y.key))
      decreases |s1| - i
    {
      p1 := MoveOld(m1, m2, nw, ol, p1, s1, s2, k1, k2, i, j);
      i := i + 1;
      SplitFacts(ol, m1, s1, k1, k2, i);
    }
    SplitFacts(ol, m1, s1, k1, k2, i);
    SplitFacts(nw, m2, s2, k2, k1, j);
  }
}
