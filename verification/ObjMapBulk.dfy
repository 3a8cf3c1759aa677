// cl_map_merge: moving pairs between two maps whose items come from different pools.
module ObjMapBulk {
  import opened Options
  import opened Pools
  import opened ObjMaps

  // ---------- a map's content as a value ----------

  ghost function AsMap(s: seq<Kv>): map<int, int>
  {
    if s == [] then map[] else AsMap(s[..|s| - 1])[s[|s| - 1].key := s[|s| - 1].obj]
  }

  lemma {:induction false} AsMapAt(s: seq<Kv>)
    requires Ascending(s)
    ensures forall key :: key in AsMap(s) <==> HasKey(s, key)
    ensures forall i :: 0 <= i < |s| ==> s[i].key in AsMap(s) && AsMap(s)[s[i].key] == s[i].obj
  {
    if s != [] {
      var t := s[..|s| - 1];
      AsMapAt(t);
      forall key
        ensures key in AsMap(s) <==> HasKey(s, key)
      {
        if HasKey(t, key) {
          var i :| 0 <= i < |t| && t[i].key == key;
          assert s[i].key == key;
        }
        if HasKey(s, key) && key != s[|s| - 1].key {
          var i :| 0 <= i < |s| && s[i].key == key;
          assert t[i].key == key;
        }
      }
      assert forall i :: 0 <= i < |t| ==> s[i] == t[i] && s[i].key < s[|s| - 1].key;
    }
  }

  // What the content says about an ascending sequence, and no more.
  ghost predicate Holds(m: map<int, int>, s: seq<Kv>)
  {
    && (forall i :: 0 <= i < |s| ==> s[i].key in m && m[s[i].key] == s[i].obj)
    && (forall key | key in m :: HasKey(s, key))
  }

  lemma HoldsUnique(m: map<int, int>, n: map<int, int>, s: seq<Kv>)
    requires Holds(m, s) && Holds(n, s)
    ensures m == n
  {
    forall key | key in m || key in n
      ensures key in m && key in n && m[key] == n[key]
    {
      var i :| 0 <= i < |s| && s[i].key == key;
    }
  }

  lemma AsMapHolds(s: seq<Kv>)
    requires Ascending(s)
    ensures Holds(AsMap(s), s)
  {
    hide AsMap;
    AsMapAt(s);
  }

  // Only one ascending sequence holds given pairs.
  lemma {:induction false} HoldsInjective(m: map<int, int>, s: seq<Kv>, t: seq<Kv>)
    requires Ascending(s) && Ascending(t) && Holds(m, s) && Holds(m, t)
    ensures s == t
  {
    if s == [] || t == [] {
      assert t != [] ==> HasKey(s, t[0].key);
      assert s != [] ==> HasKey(t, s[0].key);
    } else {
      var a, b := s[|s| - 1], t[|t| - 1];
      assert HasKey(t, a.key) && HasKey(s, b.key);
      assert a.key == b.key && a.obj == b.obj;
      Without(m, s);
      Without(m, t);
      HoldsInjective(m - {a.key}, s[..|s| - 1], t[..|t| - 1]);
      assert s == s[..|s| - 1] + [a] && t == t[..|t| - 1] + [b];
    }
  }

  lemma Without(m: map<int, int>, s: seq<Kv>)
    requires Ascending(s) && s != [] && Holds(m, s)
    ensures Ascending(s[..|s| - 1]) && Holds(m - {s[|s| - 1].key}, s[..|s| - 1])
  {
    var t := s[..|s| - 1];
    assert forall i :: 0 <= i < |t| ==> t[i] == s[i] && t[i].key < s[|s| - 1].key;
    forall key | key in m && key != s[|s| - 1].key
      ensures HasKey(t, key)
    {
      var i :| 0 <= i < |s| && s[i].key == key;
      assert t[i].key == key;
    }
  }

  lemma HoldsKey(m: map<int, int>, s: seq<Kv>, key: int)
    requires Holds(m, s)
    ensures key in m <==> HasKey(s, key)
    ensures forall i :: 0 <= i < |s| ==> s[i].key in m && m[s[i].key] == s[i].obj
  {
  }

  // Linking a pair at its place adds just that pair.
  lemma HoldsInsert(m: map<int, int>, s: seq<Kv>, p: nat, e: Kv)
    requires Holds(m, s) && p <= |s| && !HasKey(s, e.key)
    ensures Holds(m[e.key := e.obj], s[..p] + [e] + s[p..])
  {
    var t := s[..p] + [e] + s[p..];
    forall i | 0 <= i < |t| && i != p
      ensures t[i].key in m && m[t[i].key] == t[i].obj && t[i].key != e.key
    {
      var j := if i < p then i else i - 1;
      assert t[i] == s[j];
    }
    assert t[p] == e;
    forall key | key in m
      ensures HasKey(t, key)
    {
      var i :| 0 <= i < |s| && s[i].key == key;
      assert t[if i < p then i else i + 1].key == key;
    }
  }

  // Where a pair stood is where it belongs once it has been taken out.
  lemma PlaceBack(k: seq<Kv>, e: Kv, t: seq<Kv>)
    requires Ascending(k + [e] + t)
    ensures Place(k + t, e.key, |k|) && !HasKey(k + t, e.key) && Ascending(k + t)
  {
    var s := k + [e] + t;
    assert s[|k|] == e;
    assert forall i :: 0 <= i < |k| ==> (k + t)[i] == s[i];
    assert forall i :: |k| <= i < |k + t| ==> (k + t)[i] == s[i + 1];
  }

  // ---------- one move ----------

  // What cl_map_insert answers: NULL for want of an item, else the object now at the key.
  ghost function Answer(d: map<int, int>, e: Kv, got: bool): int
  {
    if !got then 0 else if e.key in d then d[e.key] else e.obj
  }

  ghost function Inserted(d: map<int, int>, e: Kv, got: bool): map<int, int>
  {
    if got && e.key !in d then d[e.key := e.obj] else d
  }

  method Accept(dest: ObjMap, key: int, obj: int) returns (r: int, ghost got: bool, ghost p: nat)
    requires dest.Valid()
    modifies dest, dest.pool
    ensures dest.Valid() && old(dest.pool.numObjects) <= dest.pool.numObjects
    ensures r == Answer(AsMap(old(dest.Pairs())), Kv(key, obj), got)
    ensures AsMap(dest.Pairs()) == Inserted(AsMap(old(dest.Pairs())), Kv(key, obj), got)
    ensures old(dest.pool.free) != [] ==> got
    ensures |dest.entries| <= |old(dest.entries)| + 1
    ensures dest.Pairs() == old(dest.Pairs()) || (
        && Place(old(dest.Pairs()), key, p) && !HasKey(old(dest.Pairs()), key)
        && dest.Pairs() == old(dest.Pairs())[..p] + [Kv(key, obj)] + old(dest.Pairs())[p..])
    ensures dest.Pairs() == old(dest.Pairs()) <==> !got || key in AsMap(old(dest.Pairs()))
  {
    hide AsMap, Holds, Pool.Valid, Linked;
    ghost var s := dest.Pairs();
    ghost var m := AsMap(s);
    AsMapHolds(s);
    HoldsKey(m, s, key);
    var memory := *;
    r, got, p := dest.Insert(key, obj, memory);
    if got && key !in m {
      assert dest.Pairs() == s[..p] + [Kv(key, obj)] + s[p..];
      HoldsInsert(m, s, p, Kv(key, obj));
      AsMapHolds(dest.Pairs());
      HoldsUnique(m[key := obj], AsMap(dest.Pairs()), dest.Pairs());
    } else {
      assert key in m ==> s[p].key == key && m[key] == s[p].obj;
    }
  }

  // An item that was just taken out goes back to its place, on the same item: it must succeed.
  method PutBack(src: ObjMap, key: int, obj: int, ghost before: seq<Entry>, ghost p: nat) returns (r: int)
    requires src.Valid() && p < |before| && src.entries == before[..p] + before[p + 1..] && Ascending(Kvs(before))
    requires src.pool.free != [] && before[p] == Entry(src.pool.free[0], key, obj)
    modifies src, src.pool
    ensures src.Valid() && src.entries == before && r == obj
    ensures old(src.pool.numObjects) <= src.pool.numObjects
  {
    hide AsMap, Pool.Valid;
    ghost var s := Kvs(before);
    ghost var w := src.Pairs();
    assert s == s[..p] + [Kv(key, obj)] + s[p + 1..];
    assert w == s[..p] + s[p + 1..];
    PlaceBack(s[..p], Kv(key, obj), s[p + 1..]);
    ghost var got, q;
    var memory := *;
    r, got, q := src.Insert(key, obj, memory);
    PlaceUnique(w, key, p, q);
    assert src.entries == before;
  }

  // ---------- cl_map_merge ----------

  // The destination's content and what the source keeps after i moves; got says which of them
  // obtained an item.
  datatype Merged = Merged(dest: map<int, int>, kept: seq<Kv>)

  ghost function MergeStep(m: Merged, e: Kv, got: bool): Merged
  {
    Merged(Inserted(m.dest, e, got), if Answer(m.dest, e, got) == e.obj then m.kept else m.kept + [e])
  }

  ghost function MergeTo(d: map<int, int>, s: seq<Kv>, got: seq<bool>, i: nat): Merged
    requires i <= |s| && i <= |got|
  {
    if i == 0 then Merged(d, []) else MergeStep(MergeTo(d, s, got, i - 1), s[i - 1], got[i - 1])
  }

  // The longer oracle says the same about the earlier moves.
  lemma {:induction false} MergeToMore(d: map<int, int>, s: seq<Kv>, got: seq<bool>, g: bool, i: nat)
    requires i <= |s| && i <= |got|
    ensures MergeTo(d, s, got + [g], i) == MergeTo(d, s, got, i)
  {
    hide MergeStep;
    if i > 0 {
      assert (got + [g])[i - 1] == got[i - 1];
      MergeToMore(d, s, got, g, i - 1);
    }
  }

  // Two maps with their own pools.
  ghost predicate Apart(a: ObjMap, b: ObjMap)
    reads a, b, a.pool, b.pool
  {
    a.Valid() && b.Valid() && a != b && a.pool != b.pool
  }

  // A pair leaves the source for the destination, which answers r.
  method Shift(dest: ObjMap, src: ObjMap, itor: nat, ghost p: nat)
    returns (next: Option<nat>, key: int, obj: int, r: int, ghost got: bool, ghost at: nat)
    requires Apart(dest, src) && p < |src.entries| && src.entries[p].item == itor
    modifies dest, src, dest.pool, src.pool
    ensures Apart(dest, src)
    ensures old(dest.pool.numObjects) <= dest.pool.numObjects && old(src.pool.numObjects) <= src.pool.numObjects
    ensures next == ItemAt(old(src.entries), p + 1)
    ensures src.entries == old(src.entries)[..p] + old(src.entries)[p + 1..]
    ensures src.pool.free != [] && old(src.entries)[p] == Entry(src.pool.free[0], key, obj)
    ensures old(dest.pool.free) != [] ==> got
    ensures |dest.entries| <= |old(dest.entries)| + 1
    ensures r == Answer(old(AsMap(dest.Pairs())), Kv(key, obj), got)
    ensures AsMap(dest.Pairs()) == Inserted(old(AsMap(dest.Pairs())), Kv(key, obj), got)
    ensures dest.Pairs() == old(dest.Pairs()) || (
        && Place(old(dest.Pairs()), key, at) && !HasKey(old(dest.Pairs()), key)
        && dest.Pairs() == old(dest.Pairs())[..at] + [Kv(key, obj)] + old(dest.Pairs())[at..])
    ensures dest.Pairs() == old(dest.Pairs()) <==> !got || key in AsMap(old(dest.Pairs()))
  {
    hide AsMap, Pool.Valid, Ascending;
    var i := Index(src.entries, itor);
    assert i == p;
    next := ItemAt(src.entries, i + 1);
    key, obj := src.entries[i].key, src.entries[i].obj;
    src.RemoveItem(itor);
    r, got, at := Accept(dest, key, obj);
  }

  // The loop body of the merge: a pair that the destination refuses goes back.
  method MergeMove(dest: ObjMap, src: ObjMap, itor: nat, ghost p: nat)
    returns (next: Option<nat>, ghost got: bool, stay: bool, stop: bool)
    requires Apart(dest, src) && p < |src.entries| && src.entries[p].item == itor
    modifies dest, src, dest.pool, src.pool
    ensures Apart(dest, src)
    ensures old(dest.pool.numObjects) <= dest.pool.numObjects && old(src.pool.numObjects) <= src.pool.numObjects
    ensures old(dest.pool.free) != [] ==> got
    ensures |dest.entries| <= |old(dest.entries)| + 1
    ensures var d, e := old(AsMap(dest.Pairs())), old(src.Pairs())[p];
      AsMap(dest.Pairs()) == Inserted(d, e, got)
      && (stay <==> Answer(d, e, got) != e.obj) && (stop <==> stay && Answer(d, e, got) == 0)
    ensures src.entries == if stay then old(src.entries) else old(src.entries)[..p] + old(src.entries)[p + 1..]
    ensures next == ItemAt(old(src.entries), p + 1)
  {
    hide AsMap, Pool.Valid, Ascending, Linked;
    ghost var before := src.entries;
    var key, obj, r;
    ghost var at;
    next, key, obj, r, got, at := Shift(dest, src, itor, p);
    stay, stop := r != obj, r != obj && r == 0;
    if stay {
      var back := PutBack(src, key, obj, before, p);
    }
  }

  // What i moves have left, item by item.
  ghost predicate Merging(dest: ObjMap, src: ObjMap, d: map<int, int>, es: seq<Entry>, kept: seq<Entry>, got: seq<bool>)
    reads dest, src, dest.pool, src.pool
  {
    && Apart(dest, src) && |got| <= |es|
    && src.entries == kept + es[|got|..]
    && MergeTo(d, Kvs(es), got, |got|) == Merged(AsMap(dest.Pairs()), Kvs(kept))
  }

  lemma KeptNext(es: seq<Entry>, kept: seq<Entry>, i: nat, before: seq<Entry>)
    requires i < |es| && before == kept + es[i..]
    ensures before == kept + [es[i]] + es[i + 1..] && before[|kept|] == es[i]
    ensures before[..|kept|] == kept && before[|kept| + 1..] == es[i + 1..]
    ensures Kvs(kept + [es[i]]) == Kvs(kept) + [Kv(es[i].key, es[i].obj)]
  {
  }

  method MergeRound(dest: ObjMap, src: ObjMap, itor: nat,
                    ghost d: map<int, int>, ghost es: seq<Entry>, ghost kept: seq<Entry>, ghost got: seq<bool>)
    returns (next: Option<nat>, stop: bool, ghost g: bool, ghost kept': seq<Entry>)
    requires Merging(dest, src, d, es, kept, got) && |got| < |es| && es[|got|].item == itor
    modifies dest, src, dest.pool, src.pool
    ensures Apart(dest, src)
    ensures old(dest.pool.numObjects) <= dest.pool.numObjects && old(src.pool.numObjects) <= src.pool.numObjects
    ensures |dest.entries| <= |old(dest.entries)| + 1
    ensures old(dest.pool.free) != [] ==> g
    ensures next == ItemAt(es, |got| + 1)
    ensures !stop ==> Merging(dest, src, d, es, kept', got + [g]) && (g || es[|got|].obj == 0)
    ensures stop ==> Merging(dest, src, d, es, kept, got) && es[|got|].obj != 0
    ensures stop && g ==> es[|got|].key in AsMap(dest.Pairs()) && AsMap(dest.Pairs())[es[|got|].key] == 0
  {
    hide AsMap, Pool.Valid, Ascending, MergeTo, ObjMap.Valid, Answer, Inserted;
    ghost var i, k, e := |got|, |kept|, es[|got|];
    ghost var before := src.entries;
    ghost var m := AsMap(dest.Pairs());
    KeptNext(es, kept, i, before);
    assert src.Pairs()[k] == Kvs(es)[i];
    var stay;
    next, g, stay, stop := MergeMove(dest, src, itor, k);
    AnswerStop(m, Kvs(es)[i], g);
    MergedNext(d, es, got, kept, m, g, stay);
    kept' := if stay then kept + [e] else kept;
    assert |got + [g]| == i + 1;
  }

  // A move that stops the merge changes nothing, and what it tells.
  lemma AnswerStop(m: map<int, int>, e: Kv, g: bool)
    ensures Answer(m, e, g) != e.obj && Answer(m, e, g) == 0 ==>
      Inserted(m, e, g) == m && e.obj != 0 && (g ==> e.key in m && m[e.key] == 0)
    ensures Answer(m, e, g) == e.obj || Answer(m, e, g) != 0 ==> g || e.obj == 0
  {
  }

  lemma MergedNext(d: map<int, int>, es: seq<Entry>, got: seq<bool>, kept: seq<Entry>, m: map<int, int>, g: bool,
    stay: bool)
    requires |got| < |es| && MergeTo(d, Kvs(es), got, |got|) == Merged(m, Kvs(kept))
    requires stay <==> Answer(m, Kvs(es)[|got|], g) != Kvs(es)[|got|].obj
    ensures MergeTo(d, Kvs(es), got + [g], |got| + 1) ==
      Merged(Inserted(m, Kvs(es)[|got|], g), Kvs(if stay then kept + [es[|got|]] else kept))
  {
    MergeToNext(d, Kvs(es), got, g);
    hide MergeTo, Answer, Inserted;
    assert Kvs(kept + [es[|got|]]) == Kvs(kept) + [Kvs(es)[|got|]];
  }

  lemma MergeToNext(d: map<int, int>, s: seq<Kv>, got: seq<bool>, g: bool)
    requires |got| < |s|
    ensures MergeTo(d, s, got + [g], |got| + 1) == MergeStep(MergeTo(d, s, got, |got|), s[|got|], g)
  {
    hide MergeStep;
    MergeToMore(d, s, got, g, |got|);
  }

  // The moves that obtained an item: the first ones from the free list, and all of those whose
  // object is not NULL.
  ghost predicate Served(s: seq<Kv>, got: seq<bool>, room: nat)
  {
    && |got| <= |s|
    && (forall j :: 0 <= j < |got| && j < room ==> got[j])
    && (forall j :: 0 <= j < |got| ==> got[j] || s[j].obj == 0)
  }

  lemma ServedNone(s: seq<Kv>, room: nat)
    ensures Served(s, [], room)
  {
  }

  lemma ServedNext(es: seq<Entry>, got: seq<bool>, g: bool, room: nat)
    requires Served(Kvs(es), got, room) && |got| < |es|
    requires (|got| < room ==> g) && (g || es[|got|].obj == 0)
    ensures Served(Kvs(es), got + [g], room)
  {
  }

  // Pairs move in key order until the source's end or until one can be stored nowhere.
  method Merge(dest: ObjMap, src: ObjMap) returns (status: Status, ghost got: seq<bool>)
    requires Apart(dest, src)
    modifies dest, src, dest.pool, src.pool
    ensures Apart(dest, src)
    ensures old(dest.pool.numObjects) <= dest.pool.numObjects && old(src.pool.numObjects) <= src.pool.numObjects
    ensures |got| <= |old(src.Pairs())|
    ensures Served(old(src.Pairs()), got, |old(dest.pool.free)|)
    ensures var s, m := old(src.Pairs()), MergeTo(old(AsMap(dest.Pairs())), old(src.Pairs()), got, |got|);
      && AsMap(dest.Pairs()) == m.dest && src.Pairs() == m.kept + s[|got|..]
      && (if |got| == |s| then status == Success else
          && status == InsufficientMemory && s[|got|].obj != 0
          && (|got| >= |old(dest.pool.free)| || (s[|got|].key in m.dest && m.dest[s[|got|].key] == 0)))
  {
    hide AsMap, Pool.Valid, ObjMap.Valid, MergeTo, Merging, Apart, Kvs, Served;
    ghost var d, es := AsMap(dest.Pairs()), src.entries;
    ghost var room, kept := |dest.pool.free|, [];
    ApartSpare(dest, src);
    got := [];
    MergingStart(dest, src);
    ServedNone(Kvs(es), room);
    var itor := ItemAt(src.entries, 0);
    while itor.Some?
      invariant Apart(dest, src) && Merging(dest, src, d, es, kept, got) && |got| <= |es|
      invariant old(dest.pool.numObjects) <= dest.pool.numObjects && old(src.pool.numObjects) <= src.pool.numObjects
      invariant |dest.entries| <= |old(dest.entries)| + |got|
      invariant Served(Kvs(es), got, room)
      invariant itor == ItemAt(es, |got|)
      decreases |es| - |got|
    {
      ApartSpare(dest, src);
      var next, stop;
      ghost var g, more;
      next, stop, g, more := MergeRound(dest, src, itor.value, d, es, kept, got);
      if stop {
        MergingFacts(dest, src, d, es, kept, got);
        return InsufficientMemory, got;
      }
      assert Served(Kvs(es), got + [g], room) by {
        ServedNext(es, got, g, room);
      }
      got, kept, itor := got + [g], more, next;
    }
    MergingFacts(dest, src, d, es, kept, got);
    return Success, got;
  }

  lemma ApartSpare(dest: ObjMap, src: ObjMap)
    requires Apart(dest, src)
    ensures |dest.pool.free| + |dest.entries| == dest.pool.numObjects &&
      |src.pool.free| + |src.entries| == src.pool.numObjects
    ensures dest != src && dest.pool != src.pool
  {
    dest.Spare();
    src.Spare();
  }

  lemma MergingStart(dest: ObjMap, src: ObjMap)
    requires Apart(dest, src)
    ensures Merging(dest, src, AsMap(dest.Pairs()), src.entries, [], [])
  {
    assert Kvs([]) == [];
  }

  lemma MergingFacts(dest: ObjMap, src: ObjMap, d: map<int, int>, es: seq<Entry>, kept: seq<Entry>, got: seq<bool>)
    requires Merging(dest, src, d, es, kept, got)
    ensures |got| <= |es| && src.Pairs() == Kvs(kept) + Kvs(es)[|got|..]
    ensures MergeTo(d, Kvs(es), got, |got|) == Merged(AsMap(dest.Pairs()), Kvs(kept))
  {
  }

  // ---------- what a merge means ----------

  // After i moves the destination has its own pairs and those that obtained an item for a new key.
  lemma {:induction false} MergeContent(d: map<int, int>, s: seq<Kv>, got: seq<bool>, i: nat)
    requires Ascending(s) && i <= |s| && i <= |got|
    ensures var m := MergeTo(d, s, got, i).dest;
      && (forall key | key in d :: key in m && m[key] == d[key])
      && (forall j :: 0 <= j < i && got[j] ==> s[j].key in m)
      && (forall j :: 0 <= j < i && got[j] && s[j].key !in d ==> m[s[j].key] == s[j].obj)
      && (forall key | key in m && key !in d :: exists j :: 0 <= j < i && got[j] && s[j].key == key)
  {
    if i > 0 {
      MergeContent(d, s, got, i - 1);
      assert forall j :: 0 <= j < i - 1 ==> s[j].key < s[i - 1].key;
      hide Ascending;
      forall key | key in MergeTo(d, s, got, i).dest && key !in d
        ensures exists j :: 0 <= j < i && got[j] && s[j].key == key
      {
        if key in MergeTo(d, s, got, i - 1).dest {
          var j :| 0 <= j < i - 1 && got[j] && s[j].key == key;
        } else {
          assert got[i - 1] && s[i - 1].key == key;
        }
      }
    }
  }

  // The pairs the source keeps: those for which the destination gave another object back.
  lemma {:induction false} MergeKeeps(d: map<int, int>, s: seq<Kv>, got: seq<bool>, i: nat)
    requires Ascending(s) && i <= |s| && i <= |got|
    ensures forall j :: 0 <= j < i ==>
      (s[j] in MergeTo(d, s, got, i).kept <==> Answer(d, s[j], got[j]) != s[j].obj)
    ensures forall e | e in MergeTo(d, s, got, i).kept :: exists j :: 0 <= j < i && s[j] == e
  {
    if i > 0 {
      var a, e := MergeTo(d, s, got, i - 1), s[i - 1];
      MergeKeeps(d, s, got, i - 1);
      MergeContent(d, s, got, i - 1);
      assert forall j :: 0 <= j < i - 1 ==> s[j].key < e.key;
      assert e.key in a.dest <==> e.key in d;
      assert e !in a.kept;
      forall x | x in MergeTo(d, s, got, i).kept
        ensures exists j :: 0 <= j < i && s[j] == x
      {
        if x in a.kept {
          var j :| 0 <= j < i - 1 && s[j] == x;
        } else {
          assert s[i - 1] == x;
        }
      }
    }
  }

  // After i moves pair j is in neither map.
  ghost predicate Lost(d: map<int, int>, s: seq<Kv>, got: seq<bool>, i: nat, j: nat)
    requires j < i <= |s| && i <= |got|
  {
    var m := MergeTo(d, s, got, i);
    s[j] !in m.kept && !(s[j].key in m.dest && m.dest[s[j].key] == s[j].obj)
  }

  // A pair disappears from both maps exactly when its object is NULL, no item could be had for
  // it and the destination has no NULL of its own at that key.
  lemma MergeLoses(d: map<int, int>, s: seq<Kv>, got: seq<bool>, i: nat, j: nat)
    requires Ascending(s) && j < i <= |s| && i <= |got|
    ensures Lost(d, s, got, i, j) <==> s[j].obj == 0 && !got[j] && !(s[j].key in d && d[s[j].key] == 0)
  {
    MergeKeeps(d, s, got, i);
    MergeContent(d, s, got, i);
    var m := MergeTo(d, s, got, i).dest;
    if s[j].key in m && s[j].key !in d {
      var k :| 0 <= k < i && got[k] && s[k].key == s[j].key;
      assert k == j;
    }
  }

  // Some answers of the allocator, in a merge that starts with room free items, lose pair j.
  ghost predicate Losing(d: map<int, int>, s: seq<Kv>, room: nat, j: nat, got: seq<bool>)
    requires j < |s|
  {
    |got| <= |s| && Served(s, got, room) && j < |got| && Lost(d, s, got, |got|, j)
  }

  // What a caller can tell beforehand: a pair can be lost exactly when its object is NULL, the
  // free items may be used up before it, and the destination has no NULL at its key.
  lemma MergeMayLose(d: map<int, int>, s: seq<Kv>, room: nat, j: nat)
    requires Ascending(s) && j < |s|
    ensures (exists got :: Losing(d, s, room, j, got)) <==>
      s[j].obj == 0 && j >= room && !(s[j].key in d && d[s[j].key] == 0)
  {
    hide Lost, Ascending;
    var unlucky := seq(|s|, i => i != j);
    MergeLoses(d, s, unlucky, |s|, j);
    if s[j].obj == 0 && j >= room && !(s[j].key in d && d[s[j].key] == 0) {
      assert Losing(d, s, room, j, unlucky);
    }
    forall got | Losing(d, s, room, j, got)
      ensures s[j].obj == 0 && j >= room && !(s[j].key in d && d[s[j].key] == 0)
    {
      MergeLoses(d, s, got, |got|, j);
    }
  }

  // With an item for every pair, the source keeps exactly the pairs whose key the destination
  // had with another object.
  lemma MergeAll(d: map<int, int>, s: seq<Kv>, got: seq<bool>)
    requires Ascending(s) && |got| == |s| && forall j :: 0 <= j < |got| ==> got[j]
    ensures forall e | e in s :: e in MergeTo(d, s, got, |s|).kept <==> e.key in d && d[e.key] != e.obj
    ensures forall e | e in s && e.key !in d ::
      e.key in MergeTo(d, s, got, |s|).dest && MergeTo(d, s, got, |s|).dest[e.key] == e.obj
    ensures forall key :: key in MergeTo(d, s, got, |s|).dest <==> key in d || HasKey(s, key)
  {
    MergeKeeps(d, s, got, |s|);
    MergeContent(d, s, got, |s|);
    forall key | HasKey(s, key)
      ensures key in MergeTo(d, s, got, |s|).dest
    {
      var j :| 0 <= j < |s| && s[j].key == key;
      assert got[j];
    }
  }

  // A NULL object is lost when the destination has no memory for it: the return value cannot
  // tell that failure from success.
  lemma MergeLosesNull()
    ensures MergeTo(map[], [Kv(7, 0)], [false], 1) == Merged(map[], [])
  {
    assert MergeTo(map[], [Kv(7, 0)], [false], 0) == Merged(map[], []);
  }
}
