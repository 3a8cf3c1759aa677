// Moving items between maps while iterating: cl_qmap_merge and cl_qmap_delta.
module QMapBulk {
  import opened MapItems
  import opened Order
  import opened RbTree
  import opened ThreadList
  import opened QMaps

  // Two maps that may exchange items.
  ghost predicate Apart(a: QMap, b: QMap)
    reads a, b, a.nodes, b.nodes
  {
    a.Valid() && b.Valid() && a != b && a.nodes !! b.nodes && a.cmp == b.cmp
  }

  // In a sorted walk two different items have different keys.
  lemma DistinctKeys(cmp: Compare, s: seq<MapItem>, x: MapItem, y: MapItem)
    requires TotalPreorder(cmp) && Sorted(cmp, s) && x in s && y in s && x != y
    ensures cmp(x.key, y.key) != 0
  {
    var i :| 0 <= i < |s| && s[i] == x;
    var j :| 0 <= j < |s| && s[j] == y;
    Flip(cmp, s[i].key, s[j].key);
  }

  // A sorted walk has one place for a key.
  lemma PlaceUnique(cmp: Compare, k: seq<MapItem>, x: MapItem, t: seq<MapItem>, w: seq<MapItem>, pos: nat)
    requires TotalPreorder(cmp) && Sorted(cmp, k + [x] + t)
    requires w == k + t && pos <= |w| && Sorted(cmp, w[..pos] + [x] + w[pos..])
    ensures w[..pos] + [x] + w[pos..] == k + [x] + t
  {
    if pos != |k| {
      PlaceWrong(cmp, k, x, t, w, pos);
    }
  }

  lemma PlaceWrong(cmp: Compare, k: seq<MapItem>, x: MapItem, t: seq<MapItem>, w: seq<MapItem>, pos: nat)
    requires TotalPreorder(cmp) && Sorted(cmp, k + [x] + t) && w == k + t && pos <= |w| && pos != |k|
    ensures !Sorted(cmp, w[..pos] + [x] + w[pos..])
  {
    var s, s' := k + [x] + t, w[..pos] + [x] + w[pos..];
    assert s[|k|] == x == s'[pos];
    if pos < |k| {
      assert s'[pos + 1] == k[pos] == s[pos];
      Flip(cmp, k[pos].key, x.key);
    } else {
      assert s'[|k|] == t[0] == s[|k| + 1];
      Flip(cmp, t[0].key, x.key);
    }
  }

  lemma ItemPlace<T>(k: seq<T>, x: T, t: seq<T>, w: seq<T>, pos: nat)
    requires w == k + [x] + t && NoDup(w) && pos < |w| && w[pos] == x
    ensures pos == |k| && w[..pos] + w[pos + 1..] == k + t
  {
    assert w[|k|] == x;
  }

  // ---------- cl_qmap_merge ----------

  // Item p leaves its map.
  method MoveOut(src: QMap, p: MapItem, ghost k: seq<MapItem>, ghost t: seq<MapItem>)
    requires src.Valid() && src.Walk() == k + [p] + t
    modifies src, src.nodes
    ensures src.Valid() && src.Walk() == k + t && src.nodes == old(src.nodes) - {p}
    ensures p in old(src.nodes)
    ensures forall y | y in old(src.nodes) :: y.key == old(y.key)
  {
    hide QMap.Valid;
    src.WalkFacts();
    assert p in src.Walk();
    ghost var at := src.RemoveItem(p);
    ItemPlace(k, p, t, old(src.Walk()), at);
  }

  // Item p, whose key fits between k and t, returns to its place.
  method MoveBack(src: QMap, p: MapItem, ghost k: seq<MapItem>, ghost t: seq<MapItem>)
    requires src.Valid() && src.Walk() == k + t && p !in src.nodes && Ascending(src.cmp, KeysOf(k + [p] + t))
    modifies src, src.nodes, p
    ensures src.Valid() && src.Walk() == k + [p] + t && src.nodes == old(src.nodes) + {p}
    ensures p.key == old(p.key) && forall y | y in old(src.nodes) :: y.key == old(y.key)
  {
    hide QMap.Valid, Sorted, TotalPreorder, NoDup, Ascending;
    src.WalkFacts();
    ghost var s := k + [p] + t;
    ghost var ks := KeysOf(s);
    var r, at := src.Insert(p.key, p);
    assert KeysOf(s) == ks;
    SortedKeys(src.cmp, s);
    src.WalkFacts();
    if r != p {
      assert r in s;
      DistinctKeys(src.cmp, s, p, r);
    } else {
      PlaceUnique(src.cmp, k, p, t, k + t, at);
    }
  }

  // The loop body of the merge: item p either moves or, on a clash, ends up where it was.
  method MergeStep(dest: QMap, src: QMap, p: MapItem, ghost k: seq<MapItem>, ghost t: seq<MapItem>)
    returns (r: MapItem, ghost pos: nat)
    requires Apart(dest, src) && src.Walk() == k + [p] + t
    modifies dest, src, dest.nodes, src.nodes
    ensures Apart(dest, src) && dest.nodes + src.nodes == old(dest.nodes + src.nodes)
    ensures (forall y | y in old(dest.nodes) :: y.key == old(y.key)) &&
      (forall y | y in old(src.nodes) :: y.key == old(y.key))
    ensures r != p ==>
      && src.Walk() == k + [p] + t && dest.Walk() == old(dest.Walk())
      && r in dest.Walk() && dest.cmp(p.key, r.key) == 0
    ensures r == p ==>
      && src.Walk() == k + t && pos <= |old(dest.Walk())|
      && dest.Walk() == old(dest.Walk())[..pos] + [p] + old(dest.Walk())[pos..]
  {
    hide QMap.Valid, Sorted, TotalPreorder, Ascending, NoDup, KeysOf;
    src.WalkFacts();
    ghost var s := k + [p] + t;
    ghost var ks := KeysOf(s);
    SortedKeys(src.cmp, s);
    MoveOut(src, p, k, t);
    assert dest.Valid() && p !in dest.nodes;
    r, pos := dest.Insert(p.key, p);
    assert src.Valid() && src.Walk() == k + t;
    if r != p {
      assert KeysOf(s) == ks;
      assert src.nodes + {p} == old(src.nodes) && dest.nodes == old(dest.nodes);
      MoveBack(src, p, k, t);
      assert dest.Valid() && dest.Walk() == old(dest.Walk()) && dest.cmp(p.key, r.key) == 0;
      assert dest.nodes == old(dest.nodes) && src.nodes == old(src.nodes);
    }
  }

  ghost predicate Clashes(cmp: Compare, key: int, ks: seq<int>)
  {
    exists j :: 0 <= j < |ks| && cmp(key, ks[j]) == 0
  }

  // The first i items of s whose keys clash (or do not clash) with one of dk, in order.
  ghost function Pick(cmp: Compare, s: seq<MapItem>, sk: seq<int>, dk: seq<int>, clash: bool, i: nat): seq<MapItem>
    requires i <= |s| == |sk|
  {
    if i == 0 then []
    else
      var rest := Pick(cmp, s, sk, dk, clash, i - 1);
      if Clashes(cmp, sk[i - 1], dk) == clash then rest + [s[i - 1]] else rest
  }

  lemma {:induction false} PickIn(cmp: Compare, s: seq<MapItem>, sk: seq<int>, dk: seq<int>, clash: bool, i: nat)
    requires i <= |s| == |sk|
    ensures forall x | x in Pick(cmp, s, sk, dk, clash, i) :: x in s[..i]
  {
    if i > 0 {
      PickIn(cmp, s, sk, dk, clash, i - 1);
      assert s[..i] == s[..i - 1] + [s[i - 1]];
    }
  }

  // Of the first i items exactly those are picked whose key clashes, or does not, with one of dk.
  lemma {:induction false} PickExactly(cmp: Compare, s: seq<MapItem>, sk: seq<int>, dk: seq<int>, clash: bool, i: nat)
    requires i <= |s| == |sk| && NoDup(s)
    ensures forall j | 0 <= j < |s| ::
      s[j] in Pick(cmp, s, sk, dk, clash, i) <==>
        j < i && ((exists k :: 0 <= k < |dk| && cmp(sk[j], dk[k]) == 0) <==> clash)
  {
    if i > 0 {
      PickExactly(cmp, s, sk, dk, clash, i - 1);
      forall j | 0 <= j < |s|
        ensures s[j] in Pick(cmp, s, sk, dk, clash, i) <==> j < i && (Clashes(cmp, sk[j], dk) <==> clash)
      {
        assert s[j] == s[i - 1] ==> j == i - 1;
      }
    }
  }

  // The same for the items of a sorted walk and the keys of another walk.
  lemma PickPartners(cmp: Compare, s: seq<MapItem>, w: seq<MapItem>, clash: bool)
    requires NoDup(s)
    ensures |KeysOf(s)| == |s|
    ensures forall x :: x in Pick(cmp, s, KeysOf(s), KeysOf(w), clash, |s|) <==>
      x in s && ((exists y :: y in w && cmp(x.key, y.key) == 0) <==> clash)
  {
    var sk, dk, p := KeysOf(s), KeysOf(w), Pick(cmp, s, KeysOf(s), KeysOf(w), clash, |s|);
    PickExactly(cmp, s, sk, dk, clash, |s|);
    PickIn(cmp, s, sk, dk, clash, |s|);
    assert s[..|s|] == s;
    hide Pick, KeysOf, NoDup;
    forall j | 0 <= j < |s|
      ensures (exists k :: 0 <= k < |dk| && cmp(sk[j], dk[k]) == 0) <==>
        (exists y :: y in w && cmp(s[j].key, y.key) == 0)
    {
      if y :| y in w && cmp(s[j].key, y.key) == 0 {
        var k :| 0 <= k < |w| && w[k] == y;
        assert cmp(sk[j], dk[k]) == 0;
      }
    }
  }

  lemma PickNext(cmp: Compare, s: seq<MapItem>, sk: seq<int>, dk: seq<int>, i: nat)
    requires i < |s| == |sk|
    ensures forall clash ::
      Pick(cmp, s, sk, dk, clash, i + 1) ==
        Pick(cmp, s, sk, dk, clash, i) + if Clashes(cmp, sk[i], dk) == clash then [s[i]] else []
  {
  }

  ghost function ToSet(s: seq<MapItem>): set<MapItem>
  {
    set x | x in s
  }

  // Whether p moved tells whether its key clashes with one of the original destination keys.
  lemma MergeDecision(cmp: Compare, s: seq<MapItem>, d: seq<MapItem>, moved: seq<MapItem>, i: nat,
                      walk: seq<MapItem>, r: MapItem)
    requires TotalPreorder(cmp) && Sorted(cmp, s) && Sorted(cmp, walk) && i < |s|
    requires forall x | x in moved :: x in s[..i]
    requires forall x | x in d :: x in walk && x != s[i]
    requires if r == s[i] then r in walk else (r in d || r in moved) && cmp(s[i].key, r.key) == 0
    ensures r == s[i] <==> !Clashes(cmp, s[i].key, KeysOf(d))
  {
    hide TotalPreorder;
    if r == s[i] {
      forall j | 0 <= j < |d|
        ensures cmp(s[i].key, KeysOf(d)[j]) != 0
      {
        DistinctKeys(cmp, walk, s[i], d[j]);
      }
    } else {
      if r in moved {
        var j :| 0 <= j < i && s[j] == r;
        Flip(cmp, s[j].key, s[i].key);
      }
      var j :| 0 <= j < |d| && d[j] == r;
      assert cmp(s[i].key, KeysOf(d)[j]) == 0;
    }
  }

  // State of a merge after i items of the source walk s.
  ghost predicate Merging(dest: QMap, src: QMap, s: seq<MapItem>, d: seq<MapItem>, sk: seq<int>, dk: seq<int>, i: nat)
    reads dest, src, dest.nodes, src.nodes, s`key, d`key
  {
    && Apart(dest, src) && i <= |s| == |sk|
    && KeysOf(s) == sk && KeysOf(d) == dk && Ascending(dest.cmp, sk)
    && src.nil !in s && (forall x | x in s :: x in dest.nodes + src.nodes) &&
       (forall x | x in d :: x in dest.nodes && x !in s)
    && src.Walk() == Pick(dest.cmp, s, sk, dk, true, i) + s[i..]
    && ToSet(dest.Walk()) == ToSet(d) + ToSet(Pick(dest.cmp, s, sk, dk, false, i))
  }

  lemma InsertIn(w: seq<MapItem>, pos: nat, p: MapItem)
    requires pos <= |w|
    ensures forall x | x in w :: x in w[..pos] + [p] + w[pos..]
  {
    assert w == w[..pos] + w[pos..];
  }

  lemma SameItems(w: seq<MapItem>, d: seq<MapItem>, moved: seq<MapItem>)
    requires ToSet(w) == ToSet(d) + ToSet(moved)
    ensures forall x :: x in w <==> x in d || x in moved
  {
    assert forall x :: x in w <==> x in ToSet(w);
  }

  // The walks after the round, in terms of what is picked.
  lemma NextWalks(cmp: Compare, s: seq<MapItem>, d: seq<MapItem>, sk: seq<int>, dk: seq<int>, i: nat, moves: bool,
                  w0: seq<MapItem>, pos: nat, w: seq<MapItem>, v: seq<MapItem>)
    requires i < |s| == |sk| && (moves <==> !Clashes(cmp, sk[i], dk))
    requires ToSet(w0) == ToSet(d) + ToSet(Pick(cmp, s, sk, dk, false, i))
    requires moves ==> pos <= |w0| && w == w0[..pos] + [s[i]] + w0[pos..]
    requires moves ==> v == Pick(cmp, s, sk, dk, true, i) + s[i + 1..]
    requires !moves ==> w == w0 && v == Pick(cmp, s, sk, dk, true, i) + [s[i]] + s[i + 1..]
    ensures v == Pick(cmp, s, sk, dk, true, i + 1) + s[i + 1..]
    ensures ToSet(w) == ToSet(d) + ToSet(Pick(cmp, s, sk, dk, false, i + 1))
  {
    PickNext(cmp, s, sk, dk, i);
    hide Pick, Clashes;
    if moves {
      assert w0 == w0[..pos] + w0[pos..];
      assert ToSet(w) == ToSet(w0) + {s[i]};
      assert ToSet(Pick(cmp, s, sk, dk, false, i) + [s[i]]) == ToSet(Pick(cmp, s, sk, dk, false, i)) + {s[i]};
    }
  }

  method MergeRound(dest: QMap, src: QMap, p: MapItem, ghost s: seq<MapItem>, ghost d: seq<MapItem>,
                    ghost sk: seq<int>, ghost dk: seq<int>, ghost i: nat) returns (next: MapItem)
    requires Merging(dest, src, s, d, sk, dk, i) && i < |s| && p == s[i]
    modifies dest, src, dest.nodes, src.nodes
    ensures Merging(dest, src, s, d, sk, dk, i + 1) && next == At(src.nil, s, i + 1)
    ensures dest.nodes + src.nodes == old(dest.nodes + src.nodes)
    ensures (forall y | y in old(dest.nodes) :: y.key == old(y.key)) &&
      (forall y | y in old(src.nodes) :: y.key == old(y.key))
  {
    hide QMap.Valid, Sorted, TotalPreorder, Ascending, NoDup, KeysOf, Pick, Clashes, ToSet;
    ghost var k := Pick(dest.cmp, s, sk, dk, true, i);
    ghost var moved := Pick(dest.cmp, s, sk, dk, false, i);
    assert src.Walk() == k + [p] + s[i + 1..];
    src.Iterate(|k|);
    next := p.next;
    var r;
    ghost var pos, w0 := 0, dest.Walk();
    r, pos := MergeStep(dest, src, p, k, s[i + 1..]);
    SameItems(w0, d, moved);
    if r == p {
      InsertIn(w0, pos, p);
    }
    assert KeysOf(s) == sk && KeysOf(d) == dk && p.key == sk[i];
    PickIn(dest.cmp, s, sk, dk, false, i);
    dest.WalkFacts();
    SortedKeys(dest.cmp, s);
    MergeDecision(dest.cmp, s, d, moved, i, dest.Walk(), r);
    NextWalks(dest.cmp, s, d, sk, dk, i, r == p, w0, pos, dest.Walk(), src.Walk());
  }

  // After the merge the source keeps exactly the items whose key was in the destination.
  method Merge(dest: QMap, src: QMap)
    requires Apart(dest, src)
    modifies dest, src, dest.nodes, src.nodes
    ensures Apart(dest, src) && dest.nodes + src.nodes == old(dest.nodes + src.nodes)
    ensures (forall y | y in old(dest.nodes) :: y.key == old(y.key)) &&
      (forall y | y in old(src.nodes) :: y.key == old(y.key))
    ensures var s, sk, dk := old(src.Walk()), old(KeysOf(src.Walk())), old(KeysOf(dest.Walk()));
      && src.Walk() == Pick(dest.cmp, s, sk, dk, true, |s|)
      && ToSet(dest.Walk()) == old(ToSet(dest.Walk())) + ToSet(Pick(dest.cmp, s, sk, dk, false, |s|))
    // an item stays exactly when the destination had one with an equal key, and else has moved
    ensures forall x :: x in src.Walk() <==>
      x in old(src.Walk()) && exists y :: y in old(dest.Walk()) && dest.cmp(x.key, y.key) == 0
    ensures forall x :: x in dest.Walk() <==>
      x in old(dest.Walk()) ||
        (x in old(src.Walk()) && !exists y :: y in old(dest.Walk()) && dest.cmp(x.key, y.key) == 0)
  {
    hide QMap.Valid, Merging, KeysOf, Pick, NoDup;
    src.WalkFacts();
    ghost var s, d := src.Walk(), dest.Walk();
    ghost var sk, dk := KeysOf(s), KeysOf(d);
    ghost var i := 0;
    MergeStart(dest, src);
    var p := src.nil.next;
    while p != src.nil
      invariant Merging(dest, src, s, d, sk, dk, i) && p == At(src.nil, s, i) && i <= |s|
      invariant dest.nodes + src.nodes == old(dest.nodes + src.nodes)
      invariant (forall y | y in old(dest.nodes) :: y.key == old(y.key)) &&
        (forall y | y in old(src.nodes) :: y.key == old(y.key))
      decreases |s| - i
    {
      MergeMore(dest, src, s, d, sk, dk, i);
      p := MergeRound(dest, src, p, s, d, sk, dk, i);
      i := i + 1;
    }
    MergeMore(dest, src, s, d, sk, dk, i);
    PickPartners(dest.cmp, s, d, true);
    PickPartners(dest.cmp, s, d, false);
    SameItems(dest.Walk(), d, Pick(dest.cmp, s, sk, dk, false, |s|));
  }

  lemma MergeStart(dest: QMap, src: QMap)
    requires Apart(dest, src)
    ensures Merging(dest, src, src.Walk(), dest.Walk(), KeysOf(src.Walk()), KeysOf(dest.Walk()), 0)
    ensures src.nil.next == At(src.nil, src.Walk(), 0)
  {
    hide QMap.Valid, Sorted, TotalPreorder, KeysOf, Ascending, NoDup;
    src.WalkFacts();
    dest.WalkFacts();
    SortedKeys(src.cmp, src.Walk());
    src.Iterate(-1);
    assert src.Walk()[0..] == src.Walk();
  }

  // The iterator is at the end exactly when all items have been visited.
  lemma MergeMore(dest: QMap, src: QMap, s: seq<MapItem>, d: seq<MapItem>, sk: seq<int>, dk: seq<int>, i: nat)
    requires Merging(dest, src, s, d, sk, dk, i)
    ensures i <= |s| == |sk| && (At(src.nil, s, i) == src.nil <==> i == |s|) && Apart(dest, src)
    ensures KeysOf(s) == sk && KeysOf(d) == dk
    ensures i == |s| ==>
      && src.Walk() == Pick(dest.cmp, s, sk, dk, true, |s|)
      && ToSet(dest.Walk()) == ToSet(d) + ToSet(Pick(dest.cmp, s, sk, dk, false, |s|))
  {
    hide QMap.Valid, Pick, KeysOf, Ascending;
    assert i < |s| ==> s[i] in s;
  }
}
