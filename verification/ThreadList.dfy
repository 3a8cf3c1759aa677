// The doubly linked ring through the items of a map, with nil as its end marker.
module ThreadList {
  import opened MapItems
  import opened RbTree

  // Position i of the ring nil, s[0], ..., s[|s|-1], nil.
  ghost function At(nil: MapItem, s: seq<MapItem>, i: int): MapItem
  {
    if 0 <= i < |s| then s[i] else nil
  }

  ghost predicate Joined(k: Links, a: MapItem, b: MapItem)
  {
    a in k && b in k && k[a].next == b && k[b].prev == a
  }

  ghost predicate Threaded(k: Links, nil: MapItem, s: seq<MapItem>)
  {
    && nil !in s && NoDup(s)
    && forall i {:trigger At(nil, s, i)} :: 0 <= i <= |s| ==> Joined(k, At(nil, s, i - 1), At(nil, s, i))
  }

  // Inserting x in front of q.
  ghost function InsertBefore(k: Links, q: MapItem, x: MapItem): Links
    requires q in k && k[q].prev in k && q != x
  {
    var k1 := k[x := Link(q, k[q].prev)];
    var k2 := k1[q := k1[q].(prev := x)];
    var p := k2[x].prev;
    k2[p := k2[p].(next := x)]
  }

  ghost function Unlink(k: Links, x: MapItem): Links
    requires x in k && k[x].next in k && k[x].prev in k
  {
    var n := k[x].next;
    var k1 := k[n := k[n].(prev := k[x].prev)];
    var p := k1[x].prev;
    k1[p := k1[p].(next := k1[x].next)]
  }

  lemma InsertThreaded(k: Links, nil: MapItem, s: seq<MapItem>, i: nat, x: MapItem)
    requires Threaded(k, nil, s) && i <= |s| && x != nil && x !in s
    ensures var q := At(nil, s, i); q in k && k[q].prev in k && q != x
    ensures Threaded(InsertBefore(k, At(nil, s, i), x), nil, s[..i] + [x] + s[i..])
  {
    var q := At(nil, s, i);
    assert Joined(k, At(nil, s, i - 1), q);
    var k' := InsertBefore(k, q, x);
    var s' := s[..i] + [x] + s[i..];
    assert s == s[..i] + s[i..];
    InsertDistinct(s[..i], x, s[i..], nil);
    hide InsertBefore, Joined, NoDup;
    forall j {:trigger At(nil, s', j)} | 0 <= j <= |s'|
      ensures Joined(k', At(nil, s', j - 1), At(nil, s', j))
    {
      InsertJoined(k, nil, s, i, x, j);
    }
  }

  lemma InsertDistinct(a: seq<MapItem>, x: MapItem, b: seq<MapItem>, nil: MapItem)
    requires NoDup(a + b) && x !in a + b && nil !in a + b && nil != x
    ensures NoDup(a + [x] + b) && nil !in a + [x] + b
  {
    var s, t := a + b, a + [x] + b;
    assert forall i {:trigger t[i]} | 0 <= i < |t| ::
        t[i] == if i < |a| then s[i] else if i == |a| then x else s[i - 1];
  }

  lemma InsertJoined(k: Links, nil: MapItem, s: seq<MapItem>, i: nat, x: MapItem, j: nat)
    requires Threaded(k, nil, s) && i <= |s| && x != nil && x !in s && j <= |s| + 1
    requires var q := At(nil, s, i); q in k && k[q].prev in k && q != x
    ensures var s' := s[..i] + [x] + s[i..];
      Joined(InsertBefore(k, At(nil, s, i), x), At(nil, s', j - 1), At(nil, s', j))
  {
    var s', q := s[..i] + [x] + s[i..], At(nil, s, i);
    assert Joined(k, At(nil, s, i - 1), q);
    assert At(nil, s, i - 1) != x;
    if j == i {
      assert At(nil, s', i - 1) == At(nil, s, i - 1) && At(nil, s', i) == x;
    } else if j == i + 1 {
      assert At(nil, s', i) == x && At(nil, s', i + 1) == q;
    } else {
      var b := if j < i then j else j - 1;
      assert At(nil, s', j - 1) == At(nil, s, b - 1) && At(nil, s', j) == At(nil, s, b);
      assert Joined(k, At(nil, s, b - 1), At(nil, s, b));
      assert At(nil, s, b) != q && At(nil, s, b - 1) != At(nil, s, i - 1);
      InsertAside(k, q, x, At(nil, s, b - 1), At(nil, s, b));
    }
    hide Threaded, At;
  }

  // Neighbours elsewhere are left alone.
  lemma InsertAside(k: Links, q: MapItem, x: MapItem, a: MapItem, b: MapItem)
    requires q in k && k[q].prev in k && q != x && Joined(k, k[q].prev, q) && Joined(k, a, b)
    requires b != q && a != k[q].prev && a != x && b != x
    ensures Joined(InsertBefore(k, q, x), a, b)
  {
  }

  lemma UnlinkThreaded(k: Links, nil: MapItem, s: seq<MapItem>, i: nat)
    requires Threaded(k, nil, s) && i < |s|
    ensures var x := s[i]; x in k && k[x].next in k && k[x].prev in k
    ensures Threaded(Unlink(k, s[i]), nil, s[..i] + s[i + 1..])
    ensures k[s[i]].next == At(nil, s, i + 1)
  {
    hide Unlink;
    assert Joined(k, At(nil, s, i - 1), At(nil, s, i));
    assert Joined(k, At(nil, s, i), At(nil, s, i + 1));
    var s' := s[..i] + s[i + 1..];
    forall j | 0 <= j <= |s'|
      ensures Joined(Unlink(k, s[i]), At(nil, s', j - 1), At(nil, s', j))
    {
      UnlinkJoined(k, nil, s, i, j);
    }
  }

  lemma UnlinkJoined(k: Links, nil: MapItem, s: seq<MapItem>, i: nat, j: nat)
    requires Threaded(k, nil, s) && i < |s| && j < |s|
    ensures var x := s[i]; x in k && k[x].next in k && k[x].prev in k
    ensures var s' := s[..i] + s[i + 1..]; Joined(Unlink(k, s[i]), At(nil, s', j - 1), At(nil, s', j))
  {
    assert Joined(k, At(nil, s, i - 1), At(nil, s, i));
    assert Joined(k, At(nil, s, i), At(nil, s, i + 1));
    if j == i {
      BridgeJoined(k, nil, s, i);
    } else {
      AsideJoined(k, nil, s, i, j);
    }
  }

  // The neighbours of the item that leaves now point at each other.
  lemma BridgeJoined(k: Links, nil: MapItem, s: seq<MapItem>, i: nat)
    requires Threaded(k, nil, s) && i < |s|
    requires var x := s[i]; x in k && k[x].next in k && k[x].prev in k
    ensures var s' := s[..i] + s[i + 1..]; Joined(Unlink(k, s[i]), At(nil, s', i - 1), At(nil, s', i))
  {
    assert Joined(k, At(nil, s, i - 1), At(nil, s, i));
    assert Joined(k, At(nil, s, i), At(nil, s, i + 1));
    assert At(nil, s[..i] + s[i + 1..], i - 1) == At(nil, s, i - 1) &&
      At(nil, s[..i] + s[i + 1..], i) == At(nil, s, i + 1);
    hide At, Threaded;
  }

  // Any other two neighbours are left alone.
  lemma AsideJoined(k: Links, nil: MapItem, s: seq<MapItem>, i: nat, j: nat)
    requires Threaded(k, nil, s) && i < |s| && j < |s| && j != i
    requires var x := s[i]; x in k && k[x].next in k && k[x].prev in k
    ensures var s' := s[..i] + s[i + 1..]; Joined(Unlink(k, s[i]), At(nil, s', j - 1), At(nil, s', j))
  {
    var b := if j < i then j else j + 1;
    assert At(nil, s[..i] + s[i + 1..], j - 1) == At(nil, s, b - 1) && At(nil, s[..i] + s[i + 1..], j) == At(nil, s, b);
    assert Joined(k, At(nil, s, b - 1), At(nil, s, b));
    assert Joined(k, At(nil, s, i - 1), At(nil, s, i)) && Joined(k, At(nil, s, i), At(nil, s, i + 1));
    assert At(nil, s, b - 1) != s[i] && At(nil, s, b) != s[i];
    PairKept(k, s[i], At(nil, s, b - 1), At(nil, s, b));
    hide Threaded, At, Joined, Unlink;
  }

  lemma PairKept(k: Links, x: MapItem, a: MapItem, b: MapItem)
    requires x in k && Joined(k, k[x].prev, x) && Joined(k, x, k[x].next)
    requires Joined(k, a, b) && a != x && b != x
    ensures Joined(Unlink(k, x), a, b)
  {
  }

  lemma ThreadedFrame(k: Links, k': Links, nil: MapItem, s: seq<MapItem>)
    requires Threaded(k, nil, s)
    requires forall x | x in k && (x == nil || x in s) :: x in k' && k'[x] == k[x]
    ensures Threaded(k', nil, s)
  {
    forall j | 0 <= j <= |s|
      ensures Joined(k', At(nil, s, j - 1), At(nil, s, j))
    {
      assert Joined(k, At(nil, s, j - 1), At(nil, s, j));
    }
  }
}
