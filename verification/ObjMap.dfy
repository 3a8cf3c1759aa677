// cl_map: an ordered map from keys to object pointers whose items come from a pool.  The ordered
// map under it (module QMaps) appears here by its contract: items in ascending key order, each
// keeping its identity while it is linked.
module ObjMaps {
  import opened Options
  import opened Pools

  // A linked cl_map_obj_t: the pool's item, its key and the object pointer, 0 being NULL.
  datatype Entry = Entry(item: nat, key: int, obj: int)

  datatype Kv = Kv(key: int, obj: int)

  // ---------- ascending sequences ----------

  ghost predicate Ascending(s: seq<Kv>)
  {
    forall i, j :: 0 <= i < j < |s| ==> s[i].key < s[j].key
  }

  ghost predicate HasKey(s: seq<Kv>, key: int)
  {
    exists i :: 0 <= i < |s| && s[i].key == key
  }

  // Where a key stands or would stand.
  ghost predicate Place(s: seq<Kv>, key: int, p: nat)
  {
    && p <= |s|
    && (forall i :: 0 <= i < p ==> s[i].key < key)
    && (forall i :: p <= i < |s| ==> s[i].key >= key)
  }

  lemma PlaceUnique(s: seq<Kv>, key: int, p: nat, q: nat)
    requires Place(s, key, p) && Place(s, key, q)
    ensures p == q
  {
    var m := if p < q then p else q;
    assert m < |s| ==> s[m].key < key || s[m].key >= key;
  }

  ghost function Kvs(entries: seq<Entry>): (s: seq<Kv>)
    ensures |s| == |entries|
    ensures forall i :: 0 <= i < |s| ==> s[i] == Kv(entries[i].key, entries[i].obj)
  {
    seq(|entries|, i requires 0 <= i < |entries| => Kv(entries[i].key, entries[i].obj))
  }

  // An iterator: the item at position i, or none for cl_map_end.
  function ItemAt(entries: seq<Entry>, i: nat): Option<nat>
  {
    if i < |entries| then Some(entries[i].item) else None
  }

  ghost predicate Linked(entries: seq<Entry>, out: set<nat>)
  {
    && (forall i, j :: 0 <= i < j < |entries| ==> entries[i].item != entries[j].item)
    && (forall i :: 0 <= i < |entries| ==> entries[i].item in out)
    && |out| == |entries|
  }

  lemma LinkAscends(entries: seq<Entry>, p: nat, e: Entry)
    requires Ascending(Kvs(entries)) && Place(Kvs(entries), e.key, p) && !HasKey(Kvs(entries), e.key)
    ensures Ascending(Kvs(entries[..p] + [e] + entries[p..]))
  {
    var s, t := Kvs(entries), Kvs(entries[..p] + [e] + entries[p..]);
    assert forall i :: p <= i < |s| ==> s[i].key > e.key;
    assert forall i {:trigger t[i]} :: 0 <= i < |t| ==>
      t[i] == if i < p then s[i] else if i == p then Kv(e.key, e.obj) else s[i - 1];
  }

  lemma LinkLinks(entries: seq<Entry>, p: nat, e: Entry, out: set<nat>)
    requires Linked(entries, out - {e.item}) && e.item in out && p <= |entries|
    ensures Linked(entries[..p] + [e] + entries[p..], out)
  {
    var t := entries[..p] + [e] + entries[p..];
    assert forall i {:trigger t[i]} :: 0 <= i < |t| ==>
      t[i] == if i < p then entries[i] else if i == p then e else entries[i - 1];
  }

  function LinkedItems(entries: seq<Entry>): (items: set<nat>)
    ensures forall x :: x in items <==> exists i :: 0 <= i < |entries| && entries[i].item == x
  {
    set i | 0 <= i < |entries| :: entries[i].item
  }

  lemma {:induction false} LinkedCount(entries: seq<Entry>)
    requires forall i, j :: 0 <= i < j < |entries| ==> entries[i].item != entries[j].item
    ensures |LinkedItems(entries)| == |entries|
  {
    if entries != [] {
      var n := |entries| - 1;
      LinkedCount(entries[..n]);
      assert LinkedItems(entries) == LinkedItems(entries[..n]) + {entries[n].item};
    }
  }

  lemma SameSet(a: set<nat>, b: set<nat>)
    requires a <= b && |a| == |b|
    ensures a == b
  {
    assert b == a + (b - a);
  }

  // The position of a linked item.
  function Index(entries: seq<Entry>, item: nat): (i: nat)
    requires exists j :: 0 <= j < |entries| && entries[j].item == item
    ensures i < |entries| && entries[i].item == item
  {
    if entries[0].item == item then 0
    else
      assert exists j :: 0 <= j < |entries| - 1 && entries[1..][j].item == item by {
        var k :| 0 <= k < |entries| && entries[k].item == item;
        assert entries[1..][k - 1].item == item;
      }
      1 + Index(entries[1..], item)
  }

  class ObjMap {
    const pool: Pool
    var entries: seq<Entry>

    // Every item the pool has handed out is linked in the map: this is what lets an item that
    // has just been removed be inserted again without new memory.
    ghost predicate Valid()
      reads this, pool
    {
      && pool.Valid() && pool.growSize > 0
      && Ascending(Kvs(entries)) && Linked(entries, pool.out)
    }

    ghost function Pairs(): seq<Kv>
      reads this
    {
      Kvs(entries)
    }

    constructor (pool: Pool)
      requires pool.Valid() && pool.growSize > 0 && pool.out == {}
      ensures Valid() && Pairs() == [] && this.pool == pool
    {
      this.pool := pool;
      entries := [];
    }

    // The map's own search, as a scan of its order.
    method Find(key: int) returns (p: nat, found: bool)
      requires Valid()
      ensures Place(Pairs(), key, p)
      ensures found <==> p < |entries| && entries[p].key == key
      ensures found <==> HasKey(Pairs(), key)
    {
      p := 0;
      while p < |entries| && entries[p].key < key
        invariant p <= |entries| && forall i :: 0 <= i < p ==> Pairs()[i].key < key
      {
        p := p + 1;
      }
      found := p < |entries| && entries[p].key == key;
      assert p < |entries| ==> Pairs()[p].key == entries[p].key;
    }

    // No item is lost: each is either linked or free, never both.
    lemma Spare()
      requires Valid()
      ensures |pool.free| + |entries| == pool.numObjects
      ensures forall x: nat | x < pool.numObjects :: x in pool.free <==> x !in LinkedItems(entries)
    {
      LinkedCount(entries);
      SameSet(LinkedItems(entries), pool.out);
    }

    // The item from the pool takes the key's place.
    method Link(p: nat, item: nat, key: int, obj: int)
      requires pool.Valid() && pool.growSize > 0 && Ascending(Pairs()) && Linked(entries, pool.out - {item})
      requires item in pool.out && Place(Pairs(), key, p) && !HasKey(Pairs(), key)
      modifies this
      ensures Valid() && entries == old(entries)[..p] + [Entry(item, key, obj)] + old(entries)[p..]
    {
      LinkAscends(entries, p, Entry(item, key, obj));
      LinkLinks(entries, p, Entry(item, key, obj), pool.out);
      hide Pool.Valid, Ascending, Linked, Kvs;
      entries := entries[..p] + [Entry(item, key, obj)] + entries[p..];
    }

    // cl_map_insert: NULL when no item can be had, the object already at the key, or obj.
    method Insert(key: int, obj: int, memory: bool) returns (r: int, ghost got: bool, ghost p: nat)
      requires Valid()
      modifies this, pool
      ensures Valid() && old(pool.numObjects) <= pool.numObjects
      ensures Place(old(Pairs()), key, p)
      ensures got <==> old(pool.free) != [] || (memory && old(pool.numObjects) < pool.maxObjects)
      ensures !got ==> r == 0 && entries == old(entries)
      ensures got && HasKey(old(Pairs()), key) ==>
        p < |old(entries)| && old(entries)[p].key == key && r == old(entries)[p].obj && entries == old(entries)
      ensures got && !HasKey(old(Pairs()), key) ==>
        && r == obj && p < |entries|
        && entries == old(entries)[..p] + [Entry(entries[p].item, key, obj)] + old(entries)[p..]
      ensures got && !HasKey(old(Pairs()), key) && old(pool.free) != [] ==> entries[p].item == old(pool.free)[0]
    {
      hide Pool.Valid;
      var q, found := Find(key);
      p := q;
      var item := pool.Get(false, memory, 0);
      got := item.Some?;
      if item.None? {
        return 0, got, p;
      }
      if found {
        r := entries[q].obj;
        pool.Put(item.value);
      } else {
        r := obj;
        Link(q, item.value, key, obj);
      }
    }

    // cl_map_remove_item: the item goes back to the pool, which will hand it out next.
    method RemoveItem(item: nat)
      requires Valid() && exists j :: 0 <= j < |entries| && entries[j].item == item
      modifies this, pool
      ensures Valid() && pool.free == [item] + old(pool.free) && pool.numObjects == old(pool.numObjects)
      ensures var p := Index(old(entries), item);
        entries == old(entries)[..p] + old(entries)[p + 1..]
    {
      hide Pool.Valid;
      ghost var s := Pairs();
      var p := Index(entries, item);
      entries := entries[..p] + entries[p + 1..];
      assert Pairs() == s[..p] + s[p + 1..];
      pool.Put(item);
    }
  }
}
