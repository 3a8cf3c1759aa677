// cl_map_delta and how it undoes itself when an item cannot be allocated.
module ObjMapDelta {
  import opened Options
  import opened Pools
  import opened ObjMaps
  import opened ObjMapBulk

  // Of the first i pairs, those whose key the other map has, or those it does not have.
  ghost function Part(s: seq<Kv>, other: seq<Kv>, both: bool, i: nat): (t: seq<Kv>)
    requires i <= |s|
    ensures |t| <= i
  {
    if i == 0 then [] else
      Part(s, other, both, i - 1) + if HasKey(other, s[i - 1].key) == both then [s[i - 1]] else []
  }

  lemma {:induction false} PartIn(s: seq<Kv>, other: seq<Kv>, both: bool, i: nat)
    requires i <= |s|
    ensures forall e | e in Part(s, other, both, i) :: HasKey(other, e.key) == both && exists j ::
      0 <= j < i && s[j] == e
    ensures forall j | 0 <= j < i && HasKey(other, s[j].key) == both :: s[j] in Part(s, other, both, i)
  {
    if i > 0 {
      PartIn(s, other, both, i - 1);
      forall e | e in Part(s, other, both, i)
        ensures HasKey(other, e.key) == both && exists j :: 0 <= j < i && s[j] == e
      {
        if e in Part(s, other, both, i - 1) {
          var j :| 0 <= j < i - 1 && s[j] == e;
        } else {
          assert s[i - 1] == e;
        }
      }
    }
  }

  lemma {:induction false} PartAscending(s: seq<Kv>, other: seq<Kv>, both: bool, i: nat)
    requires i <= |s| && Ascending(s)
    ensures Ascending(Part(s, other, both, i))
    ensures i < |s| ==> forall e | e in Part(s, other, both, i) :: e.key < s[i].key
  {
    PartIn(s, other, both, i);
    if i > 0 {
      PartAscending(s, other, both, i - 1);
    }
  }

  // A pair without a partner goes to the other part.
  lemma PartNext(s: seq<Kv>, other: seq<Kv>, i: nat)
    requires i < |s| && !HasKey(other, s[i].key)
    ensures Part(s, other, true, i + 1) == Part(s, other, true, i)
    ensures Part(s, other, false, i + 1) == Part(s, other, false, i) + [s[i]]
  {
  }

  // The two parts are as long as what they were made of.
  lemma {:induction false} PartLength(s: seq<Kv>, other: seq<Kv>, i: nat)
    requires i <= |s|
    ensures |Part(s, other, true, i)| + |Part(s, other, false, i)| == i
  {
    if i > 0 {
      PartLength(s, other, i - 1);
    }
  }

  // ---------- one source map and where its unmatched pairs go ----------

  // After i pairs of s the source keeps the matched ones and the destination has the others, none
  // of them with a NULL object.
  ghost predicate Splitting(dest: ObjMap, src: ObjMap, s: seq<Kv>, other: seq<Kv>, i: nat)
    reads dest, src, dest.pool, src.pool
  {
    && Apart(dest, src) && Ascending(s) && i <= |s| <= src.pool.numObjects
    && src.Pairs() == Part(s, other, true, i) + s[i..]
    && dest.Pairs() == Part(s, other, false, i)
    && (forall e | e in Part(s, other, false, i) :: e.obj != 0)
  }

  // The same when the i-th pair could not be moved: a NULL object is then in both maps.
  ghost predicate Stuck(dest: ObjMap, src: ObjMap, s: seq<Kv>, other: seq<Kv>, i: nat)
    reads dest, src, dest.pool, src.pool
  {
    && Apart(dest, src) && Ascending(s) && i < |s| <= src.pool.numObjects
    && src.Pairs() == Part(s, other, true, i) + s[i..]
    && (dest.Pairs() == Part(s, other, false, i) ||
       (dest.Pairs() == Part(s, other, false, i) + [s[i]] && s[i].obj == 0))
    && (forall e | e in Part(s, other, false, i) :: e.obj != 0)
    && !HasKey(other, s[i].key)
  }

  ghost function At(src: ObjMap, s: seq<Kv>, other: seq<Kv>, i: nat): Option<nat>
    requires i <= |s|
    reads src
  {
    ItemAt(src.entries, |Part(s, other, true, i)|)
  }

  // __cl_map_delta_move
  method DeltaMove(dest: ObjMap, src: ObjMap, itor: nat, ghost s: seq<Kv>, ghost other: seq<Kv>, ghost i: nat)
    returns (ok: bool, next: Option<nat>, ghost got: bool)
    requires Splitting(dest, src, s, other, i) && i < |s| && !HasKey(other, s[i].key)
    requires At(src, s, other, i) == Some(itor)
    modifies dest, src, dest.pool, src.pool
    ensures old(dest.pool.numObjects) <= dest.pool.numObjects && old(src.pool.numObjects) <= src.pool.numObjects
    ensures ok <==> got && s[i].obj != 0
    ensures !got ==> |Part(s, other, false, i)| >= old(dest.pool.numObjects)
    ensures ok ==> Splitting(dest, src, s, other, i + 1) && next == At(src, s, other, i + 1)
    ensures !ok ==> Stuck(dest, src, s, other, i)
  {
    hide AsMap, Pool.Valid, Ascending, Linked, Part;
    PartNext(s, other, i);
    ghost var before, k, w := src.entries, Part(s, other, true, i), dest.Pairs();
    dest.Spare();
    assert src.Pairs() == k + [s[i]] + s[i + 1..] && src.Pairs()[|k|] == s[i];
    PartAscending(s, other, false, i);
    var key, obj, r;
    ghost var at;
    next, key, obj, r, got, at := Shift(dest, src, itor, |k|);
    assert Kv(key, obj) == s[i] && src.Pairs() == k + s[i + 1..];
    LastPlace(w, s[i], at);
    ok := r != 0;
    if !ok {
      var back := PutBack(src, key, obj, before, |k|);
    }
  }

  // A key above all others goes to the end.
  lemma LastPlace(w: seq<Kv>, e: Kv, p: nat)
    requires Ascending(w) && forall x | x in w :: x.key < e.key
    ensures !HasKey(w, e.key) && e.key !in AsMap(w)
    ensures Place(w, e.key, p) ==> p == |w| && w[..p] + [e] + w[p..] == w + [e]
  {
    AsMapHolds(w);
    if p < |w| {
      assert w[p] in w;
    }
  }

  // ---------- __cl_map_revert ----------

  // What one source map and its destination hold between them, in a delta that stops.
  ghost predicate Halted(dest: ObjMap, src: ObjMap, s: seq<Kv>, other: seq<Kv>, i: nat)
    reads dest, src, dest.pool, src.pool
  {
    Splitting(dest, src, s, other, i) || Stuck(dest, src, s, other, i)
  }

  ghost predicate Leftover(t: seq<Kv>, s: seq<Kv>, other: seq<Kv>, i: nat)
    requires i <= |s|
  {
    && (t == Part(s, other, false, i)
        || (i < |s| && t == Part(s, other, false, i) + [s[i]] && s[i].obj == 0 && !HasKey(other, s[i].key)))
    && forall e | e in Part(s, other, false, i) :: e.obj != 0
  }

  // A pair that has moved away left no key behind.
  lemma MovedGone(s: seq<Kv>, other: seq<Kv>, i: nat, e: Kv)
    requires i <= |s| && Ascending(s) && e in Part(s, other, false, i)
    ensures !HasKey(Part(s, other, true, i) + s[i..], e.key)
  {
    var k := Part(s, other, true, i);
    var w := k + s[i..];
    PartAscending(s, other, false, i);
    PartIn(s, other, false, i);
    PartIn(s, other, true, i);
    forall j | 0 <= j < |w|
      ensures w[j].key != e.key
    {
      if j < |k| {
        assert w[j] in k;
      } else {
        assert w[j] == s[i + j - |k|];
      }
    }
  }

  lemma LeftoverFacts(t: seq<Kv>, s: seq<Kv>, other: seq<Kv>, i: nat, d: map<int, int>)
    requires i <= |s| && Ascending(s) && Leftover(t, s, other, i)
    requires Holds(d, Part(s, other, true, i) + s[i..])
    ensures Ascending(t)
    ensures forall j | 0 <= j < |t| && t[j].obj != 0 :: j < |Part(s, other, false, i)| && t[j].key !in d
    ensures forall j | 0 <= j < |t| && t[j].obj == 0 :: t[j].key in d && d[t[j].key] == 0
  {
    var p, k := Part(s, other, false, i), Part(s, other, true, i);
    PartAscending(s, other, false, i);
    var w := k + s[i..];
    if i < |s| {
      assert w[|k|] == s[i];
    }
    forall j | 0 <= j < |p|
      ensures p[j].obj != 0 && p[j].key !in d
    {
      MovedGone(s, other, i, p[j]);
      assert p[j] in p;
    }
    hide Part, Holds;
    assert forall j :: 0 <= j < |p| ==> t[j] == p[j];
  }

  lemma EmptyOrNot(s: seq<Kv>)
    ensures s == [] || exists e :: e in s
  {
    if s != [] {
      assert s[0] in s;
    }
  }

  // Merging the leftovers back: every step is served or finds its own NULL object, so the merge
  // runs to the end and keeps nothing.
  lemma RevertKeeps(d: map<int, int>, t: seq<Kv>, n: nat, got: seq<bool>, room: nat)
    requires Ascending(t) && Served(t, got, room) && n <= room
    requires forall j | 0 <= j < |t| && t[j].obj != 0 :: j < n && t[j].key !in d
    requires forall j | 0 <= j < |t| && t[j].obj == 0 :: t[j].key in d && d[t[j].key] == 0
    ensures MergeTo(d, t, got, |got|).kept == []
    ensures |got| < |t| && t[|got|].obj != 0 ==> |got| < room && t[|got|].key !in MergeTo(d, t, got, |got|).dest
    ensures forall key :: key in MergeTo(d, t, got, |got|).dest <==> key in d || HasKey(t[..|got|], key)
    ensures forall e | e in t[..|got|] ::
      e.key in MergeTo(d, t, got, |got|).dest && MergeTo(d, t, got, |got|).dest[e.key] == e.obj
    ensures forall key | key in d :: MergeTo(d, t, got, |got|).dest[key] == d[key]
  {
    var m := MergeTo(d, t, got, |got|);
    MergeContent(d, t, got, |got|);
    MergeKeeps(d, t, got, |got|);
    EmptyOrNot(m.kept);
    assert forall j :: 0 <= j < |got| ==> Answer(d, t[j], got[j]) == t[j].obj;
    hide MergeTo, MergeStep;
    forall key | HasKey(t[..|got|], key)
      ensures key in m.dest
    {
      var j :| 0 <= j < |got| && t[..|got|][j].key == key;
      assert t[j].key == key;
    }
    forall key | key in m.dest && key !in d
      ensures HasKey(t[..|got|], key)
    {
      var j :| 0 <= j < |got| && got[j] && t[j].key == key;
      assert t[..|got|][j].key == key;
    }
  }

  // Every pair of the original is in the map or among the leftovers, and nothing else is.
  lemma Covered(s: seq<Kv>, other: seq<Kv>, i: nat, e: Kv)
    requires i <= |s| && e in s
    ensures e in Part(s, other, true, i) + s[i..] || e in Part(s, other, false, i)
  {
    var j :| 0 <= j < |s| && s[j] == e;
    PartIn(s, other, HasKey(other, e.key), i);
    if j >= i {
      assert s[i..][j - i] == e;
    }
  }

  lemma NothingElse(s: seq<Kv>, other: seq<Kv>, i: nat, e: Kv)
    requires i <= |s| && (e in Part(s, other, true, i) + s[i..] || e in Part(s, other, false, i))
    ensures e in s
  {
    PartIn(s, other, true, i);
    PartIn(s, other, false, i);
  }

  // The map that has its own pairs and the leftovers is the original one.
  lemma Reunited(s: seq<Kv>, other: seq<Kv>, i: nat, t: seq<Kv>, d: map<int, int>, m: map<int, int>, now: seq<Kv>)
    requires i <= |s| && Ascending(s) && Leftover(t, s, other, i) && Ascending(now) && Holds(m, now)
    requires Holds(d, Part(s, other, true, i) + s[i..])
    requires forall key :: key in m <==> key in d || HasKey(t, key)
    requires forall e | e in t :: e.key in m && m[e.key] == e.obj
    requires forall key | key in d :: m[key] == d[key]
    ensures now == s
  {
    hide Part, Ascending;
    var k, p := Part(s, other, true, i), Part(s, other, false, i);
    var w := k + s[i..];
    assert forall e | e in p :: e in t by {
      assert forall j :: 0 <= j < |p| ==> t[j] == p[j];
    }
    forall j | 0 <= j < |s|
      ensures s[j].key in m && m[s[j].key] == s[j].obj
    {
      Covered(s, other, i, s[j]);
    }
    forall key | key in m
      ensures HasKey(s, key)
    {
      if key in d {
        var j :| 0 <= j < |w| && w[j].key == key;
        NothingElse(s, other, i, w[j]);
      } else {
        var j :| 0 <= j < |t| && t[j].key == key;
        assert j < |p| ==> p[j] == t[j];
        if t[j] in p {
          NothingElse(s, other, i, t[j]);
        }
      }
    }
    assert Holds(m, s);
    HoldsInjective(m, now, s);
  }

  lemma HaltedFacts(dest: ObjMap, src: ObjMap, s: seq<Kv>, other: seq<Kv>, i: nat)
    requires Halted(dest, src, s, other, i)
    ensures Apart(dest, src) && i <= |s| && Ascending(s) && Leftover(dest.Pairs(), s, other, i)
    ensures Holds(AsMap(src.Pairs()), Part(s, other, true, i) + s[i..])
    ensures |src.pool.free| >= |Part(s, other, false, i)|
  {
    hide AsMap, Part, Holds, Pool.Valid;
    AsMapHolds(src.Pairs());
    src.Spare();
    PartLength(s, other, i);
  }

  // Merging the destination back into its source restores the source and empties the destination:
  // the items freed by the moves cover the inserts, whatever the allocator does.
  method Restore(src: ObjMap, dest: ObjMap, ghost s: seq<Kv>, ghost other: seq<Kv>, ghost i: nat)
    requires Halted(dest, src, s, other, i)
    modifies dest, src, dest.pool, src.pool
    ensures Apart(dest, src) && src.Pairs() == s && dest.Pairs() == []
  {
    hide AsMap, Part, Holds, Pool.Valid, ObjMap.Valid, MergeTo, Served, Leftover, Halted;
    ghost var t, d := dest.Pairs(), AsMap(src.Pairs());
    HaltedFacts(dest, src, s, other, i);
    LeftoverFacts(t, s, other, i, d);
    ghost var room := |src.pool.free|;
    var status;
    ghost var got;
    status, got := Merge(src, dest);
    RevertKeeps(d, t, |Part(s, other, false, i)|, got, room);
    assert |got| == |t| && status == Success;
    assert t[..|got|] == t;
    MapAscends(src);
    AsMapHolds(src.Pairs());
    Reunited(s, other, i, t, d, AsMap(src.Pairs()), src.Pairs());
  }

  lemma MapAscends(a: ObjMap)
    requires a.Valid()
    ensures Ascending(a.Pairs())
  {
  }

  // ---------- cl_map_delta ----------

  // Everything visited in one map comes before everything still to come in the other.
  ghost predicate Frontier(s1: seq<Kv>, s2: seq<Kv>, i: nat, j: nat)
  {
    && i <= |s1| && j <= |s2| && Ascending(s1) && Ascending(s2)
    && (forall a, b :: 0 <= a < i && j <= b < |s2| ==> s1[a].key < s2[b].key)
    && (forall a, b :: i <= a < |s1| && 0 <= b < j ==> s2[b].key < s1[a].key)
  }

  lemma FrontierLess(s1: seq<Kv>, s2: seq<Kv>, i: nat, j: nat)
    requires Frontier(s1, s2, i, j) && i < |s1| && (j < |s2| ==> s1[i].key < s2[j].key)
    ensures !HasKey(s2, s1[i].key) && Frontier(s1, s2, i + 1, j) && Frontier(s2, s1, j, i + 1)
  {
    forall b | j <= b < |s2|
      ensures s1[i].key < s2[b].key
    {
      assert s2[j].key <= s2[b].key;
    }
  }

  lemma FrontierEqual(s1: seq<Kv>, s2: seq<Kv>, i: nat, j: nat)
    requires Frontier(s1, s2, i, j) && i < |s1| && j < |s2| && s1[i].key == s2[j].key
    ensures HasKey(s2, s1[i].key) && HasKey(s1, s2[j].key) && Frontier(s1, s2, i + 1, j + 1)
  {
  }

  // The head of what is left has a partner: it stays.
  lemma SplitStay(dest: ObjMap, src: ObjMap, s: seq<Kv>, other: seq<Kv>, i: nat)
    requires Splitting(dest, src, s, other, i) && i < |s| && HasKey(other, s[i].key)
    ensures Splitting(dest, src, s, other, i + 1)
    ensures At(src, s, other, i + 1) == ItemAt(src.entries, |Part(s, other, true, i)| + 1)
  {
    hide Pool.Valid, Ascending;
    assert src.Pairs() == Part(s, other, true, i) + [s[i]] + s[i + 1..];
  }

  // Four maps with four pools.
  ghost predicate Separate(m1: ObjMap, m2: ObjMap, nw: ObjMap, ol: ObjMap)
  {
    && m1 != m2 && m1 != nw && ol != m2 && ol != nw
    && m1.pool != m2.pool && m1.pool != nw.pool && ol.pool != m2.pool && ol.pool != nw.pool
  }

  // Why a split cannot succeed: a pair that must move has a NULL object, or there are more of
  // them than the destination has objects and the allocator may refuse.
  ghost predicate Blocked(s: seq<Kv>, other: seq<Kv>, room: nat)
  {
    |Part(s, other, false, |s|)| > room || exists e :: e in Part(s, other, false, |s|) && e.obj == 0
  }

  lemma {:induction false} PartPrefix(s: seq<Kv>, other: seq<Kv>, both: bool, i: nat, n: nat)
    requires i <= n <= |s|
    ensures |Part(s, other, both, i)| <= |Part(s, other, both, n)|
    ensures forall e | e in Part(s, other, both, i) :: e in Part(s, other, both, n)
    decreases n
  {
    if i < n {
      PartPrefix(s, other, both, i, n - 1);
    }
  }

  lemma BlockedBy(s: seq<Kv>, other: seq<Kv>, i: nat, room: nat)
    requires i < |s| && !HasKey(other, s[i].key)
    requires s[i].obj == 0 || |Part(s, other, false, i)| >= room
    ensures Blocked(s, other, room)
  {
    PartPrefix(s, other, false, i + 1, |s|);
    assert s[i] in Part(s, other, false, i + 1);
  }

  ghost predicate DeltaState(m1: ObjMap, m2: ObjMap, nw: ObjMap, ol: ObjMap, s1: seq<Kv>, s2: seq<Kv>,
                             i: nat, j: nat, room1: nat, room2: nat)
    reads m1, m2, nw, ol, m1.pool, m2.pool, nw.pool, ol.pool
  {
    && Splitting(ol, m1, s1, s2, i) && Splitting(nw, m2, s2, s1, j)
    && Separate(m1, m2, nw, ol) && Frontier(s1, s2, i, j)
    && room1 <= ol.pool.numObjects && room2 <= nw.pool.numObjects
  }

  // The delta has been undone.
  ghost predicate Undone(m1: ObjMap, m2: ObjMap, nw: ObjMap, ol: ObjMap, s1: seq<Kv>, s2: seq<Kv>)
    reads m1, m2, nw, ol, m1.pool, m2.pool, nw.pool, ol.pool
  {
    && Apart(ol, m1) && Apart(nw, m2)
    && m1.Pairs() == s1 && m2.Pairs() == s2 && nw.Pairs() == [] && ol.Pairs() == []
  }

  // __cl_map_revert
  method Revert(m1: ObjMap, m2: ObjMap, nw: ObjMap, ol: ObjMap,
                ghost s1: seq<Kv>, ghost s2: seq<Kv>, ghost i: nat, ghost j: nat)
    requires Halted(ol, m1, s1, s2, i) && Halted(nw, m2, s2, s1, j) && Separate(m1, m2, nw, ol)
    modifies m1, m2, nw, ol, m1.pool, m2.pool, nw.pool, ol.pool
    ensures Undone(m1, m2, nw, ol, s1, s2)
  {
    hide Halted, Apart, Part, Pool.Valid, ObjMap.Valid, ObjMap.Pairs;
    HaltedDistinct(ol, m1, s1, s2, i);
    HaltedDistinct(nw, m2, s2, s1, j);
    Restore(m1, ol, s1, s2, i);
    assert Halted(nw, m2, s2, s1, j);
    Restore(m2, nw, s2, s1, j);
  }

  lemma HaltedDistinct(dest: ObjMap, src: ObjMap, s: seq<Kv>, other: seq<Kv>, i: nat)
    requires Halted(dest, src, s, other, i)
    ensures dest != src && dest.pool != src.pool
  {
  }

  lemma SplitFacts(dest: ObjMap, src: ObjMap, s: seq<Kv>, other: seq<Kv>, i: nat)
    requires Splitting(dest, src, s, other, i)
    ensures i <= |s| && Apart(dest, src)
    ensures (At(src, s, other, i).None? <==> i == |s|)
    ensures i < |s| && At(src, s, other, i).Some? ==>
      exists p :: 0 <= p < |src.entries| && src.entries[p].item == At(src, s, other, i).value
    ensures i < |s| && At(src, s, other, i).Some? ==>
      src.entries[Index(src.entries, At(src, s, other, i).value)].key == s[i].key
    ensures i < |s| && At(src, s, other, i).Some? ==>
      Index(src.entries, At(src, s, other, i).value) == |Part(s, other, true, i)|
    ensures i == |s| ==> src.Pairs() == Part(s, other, true, |s|) && dest.Pairs() == Part(s, other, false, |s|)
  {
    hide Pool.Valid, Ascending, Part;
    if i < |s| {
      var p := |Part(s, other, true, i)|;
      assert src.Pairs()[p] == s[i];
      assert src.entries[p].item == At(src, s, other, i).value;
    }
  }

  // The head of map 1 moves to the old pairs, or everything is undone.
  method MoveOld(m1: ObjMap, m2: ObjMap, nw: ObjMap, ol: ObjMap, itor: nat, ghost s1: seq<Kv>, ghost s2: seq<Kv>,
                 ghost i: nat, ghost j: nat, ghost room1: nat, ghost room2: nat)
    returns (ok: bool, next: Option<nat>)
    requires DeltaState(m1, m2, nw, ol, s1, s2, i, j, room1, room2) && i < |s1| && At(m1, s1, s2, i) == Some(itor)
    requires j < |s2| ==> s1[i].key < s2[j].key
    modifies m1, m2, nw, ol, m1.pool, m2.pool, nw.pool, ol.pool
    ensures ok ==> DeltaState(m1, m2, nw, ol, s1, s2, i + 1, j, room1, room2) && next == At(m1, s1, s2, i + 1)
    ensures ok ==> m2.entries == old(m2.entries)
    ensures !ok ==> Undone(m1, m2, nw, ol, s1, s2) && Blocked(s1, s2, room1)
  {
    hide Splitting, Stuck, Frontier, Part, Blocked, Pool.Valid, ObjMap.Valid, HasKey;
    FrontierLess(s1, s2, i, j);
    ghost var got;
    ok, next, got := DeltaMove(ol, m1, itor, s1, s2, i);
    assert Splitting(nw, m2, s2, s1, j);
    if !ok {
      BlockedBy(s1, s2, i, room1);
      Revert(m1, m2, nw, ol, s1, s2, i, j);
    }
  }

  // The head of map 2 moves to the new pairs, or everything is undone.
  method MoveNew(m1: ObjMap, m2: ObjMap, nw: ObjMap, ol: ObjMap, itor: nat, ghost s1: seq<Kv>, ghost s2: seq<Kv>,
                 ghost i: nat, ghost j: nat, ghost room1: nat, ghost room2: nat)
    returns (ok: bool, next: Option<nat>)
    requires DeltaState(m1, m2, nw, ol, s1, s2, i, j, room1, room2) && j < |s2| && At(m2, s2, s1, j) == Some(itor)
    requires i < |s1| ==> s1[i].key > s2[j].key
    modifies m1, m2, nw, ol, m1.pool, m2.pool, nw.pool, ol.pool
    ensures ok ==> DeltaState(m1, m2, nw, ol, s1, s2, i, j + 1, room1, room2) && next == At(m2, s2, s1, j + 1)
    ensures ok ==> m1.entries == old(m1.entries)
    ensures !ok ==> Undone(m1, m2, nw, ol, s1, s2) && Blocked(s2, s1, room2)
  {
    hide Splitting, Stuck, Part, Blocked, Pool.Valid, ObjMap.Valid, HasKey;
    assert Frontier(s2, s1, j, i);
    hide Frontier;
    FrontierLess(s2, s1, j, i);
    ghost var got;
    ok, next, got := DeltaMove(nw, m2, itor, s2, s1, j);
    assert Splitting(ol, m1, s1, s2, i);
    if !ok {
      BlockedBy(s2, s1, j, room2);
      Revert(m1, m2, nw, ol, s1, s2, i, j);
    }
  }

  // The loop body of the delta while both maps have something left.
  method DeltaRound(m1: ObjMap, m2: ObjMap, nw: ObjMap, ol: ObjMap, p1: nat, p2: nat,
                    ghost s1: seq<Kv>, ghost s2: seq<Kv>,
                    ghost i: nat, ghost j: nat, ghost room1: nat, ghost room2: nat)
    returns (ok: bool, q1: Option<nat>, q2: Option<nat>, ghost i': nat, ghost j': nat)
    requires DeltaState(m1, m2, nw, ol, s1, s2, i, j, room1, room2)
    requires At(m1, s1, s2, i) == Some(p1) && At(m2, s2, s1, j) == Some(p2)
    modifies m1, m2, nw, ol, m1.pool, m2.pool, nw.pool, ol.pool
    ensures ok ==> DeltaState(m1, m2, nw, ol, s1, s2, i', j', room1, room2) && i <= i' && j <= j' && i + j < i' + j'
    ensures ok ==> q1 == At(m1, s1, s2, i') && q2 == At(m2, s2, s1, j')
    ensures !ok ==> Undone(m1, m2, nw, ol, s1, s2) && (Blocked(s1, s2, room1) || Blocked(s2, s1, room2))
  {
    hide Splitting, Frontier, Part, Blocked, Pool.Valid, ObjMap.Valid, HasKey, Undone, Apart;
    SplitFacts(ol, m1, s1, s2, i);
    SplitFacts(nw, m2, s2, s1, j);
    ok, q1, q2, i', j' := true, Some(p1), Some(p2), i, j;
    var x1, x2 := Index(m1.entries, p1), Index(m2.entries, p2);
    if m1.entries[x1].key < m2.entries[x2].key {
      ok, q1 := MoveOld(m1, m2, nw, ol, p1, s1, s2, i, j, room1, room2);
      i' := i + 1;
    } else if m1.entries[x1].key > m2.entries[x2].key {
      ok, q2 := MoveNew(m1, m2, nw, ol, p2, s1, s2, i, j, room1, room2);
      j' := j + 1;
    } else {
      FrontierEqual(s1, s2, i, j);
      SplitStay(ol, m1, s1, s2, i);
      SplitStay(nw, m2, s2, s1, j);
      q1, q2, i', j' := ItemAt(m1.entries, x1 + 1), ItemAt(m2.entries, x2 + 1), i + 1, j + 1;
    }
  }

  // What remains of map 2 once map 1 has been walked to its end, then the other way round.
  method DeltaRest(m1: ObjMap, m2: ObjMap, nw: ObjMap, ol: ObjMap, q1: Option<nat>, q2: Option<nat>,
                   ghost s1: seq<Kv>, ghost s2: seq<Kv>,
                   ghost i0: nat, ghost j0: nat, ghost room1: nat, ghost room2: nat)
    returns (ok: bool)
    requires DeltaState(m1, m2, nw, ol, s1, s2, i0, j0, room1, room2)
    requires At(m1, s1, s2, i0) == q1 && At(m2, s2, s1, j0) == q2 && (q1.None? || q2.None?)
    modifies m1, m2, nw, ol, m1.pool, m2.pool, nw.pool, ol.pool
    ensures ok ==> DeltaState(m1, m2, nw, ol, s1, s2, |s1|, |s2|, room1, room2)
    ensures !ok ==> Undone(m1, m2, nw, ol, s1, s2) && (Blocked(s1, s2, room1) || Blocked(s2, s1, room2))
  {
    hide Splitting, Frontier, Part, Blocked, Pool.Valid, ObjMap.Valid, HasKey, Undone, Apart;
    var p1, p2 := q1, q2;
    ghost var i, j := i0, j0;
    SplitFacts(ol, m1, s1, s2, i);
    SplitFacts(nw, m2, s2, s1, j);
    ok := true;
    while p2.Some?
      invariant DeltaState(m1, m2, nw, ol, s1, s2, i, j, room1, room2) && i <= |s1| && j <= |s2|
      invariant p1 == At(m1, s1, s2, i) && p2 == At(m2, s2, s1, j) && (p2.None? || i == |s1|) &&
        (p2.None? <==> j == |s2|)
      decreases |s2| - j
    {
      ok, p2 := MoveNew(m1, m2, nw, ol, p2.value, s1, s2, i, j, room1, room2);
      if !ok {
        return;
      }
      j := j + 1;
      SplitFacts(nw, m2, s2, s1, j);
    }
    SplitFacts(ol, m1, s1, s2, i);
    while p1.Some?
      invariant DeltaState(m1, m2, nw, ol, s1, s2, i, j, room1, room2) && i <= |s1| && j == |s2| && ok
      invariant p1 == At(m1, s1, s2, i) && (p1.None? <==> i == |s1|)
      decreases |s1| - i
    {
      ok, p1 := MoveOld(m1, m2, nw, ol, p1.value, s1, s2, i, j, room1, room2);
      if !ok {
        return;
      }
      i := i + 1;
      SplitFacts(ol, m1, s1, s2, i);
    }
  }

  // Success leaves in both maps exactly the common keys, the rest of map 1 in old and the rest of
  // map 2 in new.  Failure restores all four maps, and happens only when the split is blocked.
  method Delta(m1: ObjMap, m2: ObjMap, nw: ObjMap, ol: ObjMap) returns (status: Status)
    requires Apart(ol, m1) && Apart(nw, m2) && Separate(m1, m2, nw, ol)
    requires nw.Pairs() == [] && ol.Pairs() == []
    modifies m1, m2, nw, ol, m1.pool, m2.pool, nw.pool, ol.pool
    ensures Apart(ol, m1) && Apart(nw, m2)
    ensures status == Success || status == InsufficientMemory
    ensures status == Success ==> (var s1, s2 := old(m1.Pairs()), old(m2.Pairs());
      && m1.Pairs() == Part(s1, s2, true, |s1|) && ol.Pairs() == Part(s1, s2, false, |s1|)
      && m2.Pairs() == Part(s2, s1, true, |s2|) && nw.Pairs() == Part(s2, s1, false, |s2|)
      && (forall e | e in ol.Pairs() :: e.obj != 0) && (forall e | e in nw.Pairs() :: e.obj != 0))
    ensures status == InsufficientMemory ==>
      && m1.Pairs() == old(m1.Pairs()) && m2.Pairs() == old(m2.Pairs()) && nw.Pairs() == [] && ol.Pairs() == []
      && (Blocked(old(m1.Pairs()), old(m2.Pairs()), |old(ol.pool.free)|)
          || Blocked(old(m2.Pairs()), old(m1.Pairs()), |old(nw.pool.free)|))
  {
    hide Splitting, Frontier, Part, Blocked, Pool.Valid, ObjMap.Valid, HasKey, Apart;
    ghost var s1, s2 := m1.Pairs(), m2.Pairs();
    ghost var room1, room2 := |ol.pool.free|, |nw.pool.free|;
    ghost var i: nat, j: nat := 0, 0;
    DeltaStart(m1, m2, nw, ol);
    var p1, p2 := ItemAt(m1.entries, 0), ItemAt(m2.entries, 0);
    var ok := true;
    while p1.Some? && p2.Some?
      invariant DeltaState(m1, m2, nw, ol, s1, s2, i, j, room1, room2) && i <= |s1| && j <= |s2|
      invariant p1 == At(m1, s1, s2, i) && p2 == At(m2, s2, s1, j)
      decreases |s1| - i + |s2| - j
    {
      ok, p1, p2, i, j := DeltaRound(m1, m2, nw, ol, p1.value, p2.value, s1, s2, i, j, room1, room2);
      if !ok {
        return InsufficientMemory;
      }
      DeltaBounds(m1, m2, nw, ol, s1, s2, i, j, room1, room2);
    }
    ok := DeltaRest(m1, m2, nw, ol, p1, p2, s1, s2, i, j, room1, room2);
    if !ok {
      return InsufficientMemory;
    }
    SplitEnd(ol, m1, s1, s2);
    SplitEnd(nw, m2, s2, s1);
    return Success;
  }

  lemma DeltaStart(m1: ObjMap, m2: ObjMap, nw: ObjMap, ol: ObjMap)
    requires Apart(ol, m1) && Apart(nw, m2) && Separate(m1, m2, nw, ol)
    requires nw.Pairs() == [] && ol.Pairs() == []
    ensures DeltaState(m1, m2, nw, ol, m1.Pairs(), m2.Pairs(), 0, 0, |ol.pool.free|, |nw.pool.free|)
    ensures ItemAt(m1.entries, 0) == At(m1, m1.Pairs(), m2.Pairs(), 0)
    ensures ItemAt(m2.entries, 0) == At(m2, m2.Pairs(), m1.Pairs(), 0)
  {
    hide Pool.Valid;
    m1.Spare();
    m2.Spare();
    nw.Spare();
    ol.Spare();
  }

  lemma DeltaBounds(m1: ObjMap, m2: ObjMap, nw: ObjMap, ol: ObjMap, s1: seq<Kv>, s2: seq<Kv>,
                    i: nat, j: nat, room1: nat, room2: nat)
    requires DeltaState(m1, m2, nw, ol, s1, s2, i, j, room1, room2)
    ensures i <= |s1| && j <= |s2|
  {
  }

  lemma SplitEnd(dest: ObjMap, src: ObjMap, s: seq<Kv>, other: seq<Kv>)
    requires Splitting(dest, src, s, other, |s|)
    ensures Apart(dest, src)
    ensures src.Pairs() == Part(s, other, true, |s|) && dest.Pairs() == Part(s, other, false, |s|)
    ensures forall e | e in dest.Pairs() :: e.obj != 0
  {
  }
}
