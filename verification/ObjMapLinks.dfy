// The object map's ordered sequence and the linked map it stands for: what module QMaps promises
// of a linked insertion or removal is what ObjMap does to its sequence.
module ObjMapLinks {
  import opened Order
  import opened MapItems
  import QMaps
  import opened ObjMaps

  // The linked map walks the same items in the same order; link says which of them a pool's item
  // is, ks are the keys along the walk.
  ghost predicate Mirrors(entries: seq<Entry>, link: map<nat, MapItem>, walk: seq<MapItem>, ks: seq<int>)
  {
    && |entries| == |walk| == |ks|
    && forall i :: 0 <= i < |entries| ==>
         entries[i].item in link && walk[i] == link[entries[i].item] && ks[i] == entries[i].key
  }

  ghost predicate Inserted<T>(s: seq<T>, s': seq<T>, pos: nat, x: T)
  {
    pos <= |s| && s' == s[..pos] + [x] + s[pos..]
  }

  // An insertion after which the walk ascends was made at the key's one place.
  lemma InsertedPlace(entries: seq<Entry>, ks: seq<int>, ks': seq<int>, pos: nat, key: int)
    requires |ks| == |entries| && forall i :: 0 <= i < |entries| ==> ks[i] == entries[i].key
    requires Inserted(ks, ks', pos, key) && QMaps.Ascending(CompareInt, ks')
    ensures Place(Kvs(entries), key, pos) && !HasKey(Kvs(entries), key)
  {
    assert ks'[pos] == key;
    assert forall i :: 0 <= i < pos ==> ks'[i] == ks[i] && CompareInt(ks'[i], ks'[pos]) < 0;
    forall i | pos <= i < |entries|
      ensures key < entries[i].key
    {
      assert ks'[i + 1] == ks[i] && CompareInt(ks'[pos], ks'[i + 1]) < 0;
    }
  }

  // cl_qmap_insert has linked item x: cl_map_insert's sequence mirrors the new walk.
  lemma InsertMirrors(entries: seq<Entry>, link: map<nat, MapItem>, walk: seq<MapItem>, ks: seq<int>,
                      walk': seq<MapItem>, ks': seq<int>, pos: nat, x: MapItem, e: Entry, p: nat)
    requires Mirrors(entries, link, walk, ks) && QMaps.Ascending(CompareInt, ks')
    requires Inserted(walk, walk', pos, x) && Inserted(ks, ks', pos, e.key)
    requires Place(Kvs(entries), e.key, p) && forall i :: 0 <= i < |entries| ==> entries[i].item != e.item
    ensures pos == p && !HasKey(Kvs(entries), e.key)
    ensures Mirrors(entries[..p] + [e] + entries[p..], link[e.item := x], walk', ks')
  {
    InsertedPlace(entries, ks, ks', pos, e.key);
    PlaceUnique(Kvs(entries), e.key, pos, p);
  }

  // cl_qmap_insert has found an item r at the key: it is the one cl_map_insert answers for.
  lemma HitMirrors(entries: seq<Entry>, link: map<nat, MapItem>, walk: seq<MapItem>, ks: seq<int>, i: nat,
    key: int, p: nat)
    requires Mirrors(entries, link, walk, ks) && QMaps.Ascending(CompareInt, ks)
    requires i < |walk| && CompareInt(key, ks[i]) == 0 && Place(Kvs(entries), key, p)
    ensures i == p && HasKey(Kvs(entries), key) && walk[p] == link[entries[p].item]
  {
    assert Kvs(entries)[i].key == key;
    forall j | 0 <= j < |entries|
      ensures j < i ==> Kvs(entries)[j].key < key
      ensures i < j ==> Kvs(entries)[j].key > key
    {
      assert j < i ==> CompareInt(ks[j], ks[i]) < 0;
      assert i < j ==> CompareInt(ks[i], ks[j]) < 0;
    }
    PlaceUnique(Kvs(entries), key, i, p);
  }

  // cl_qmap_remove_item has unlinked the item at pos: cl_map's sequence mirrors the new walk.
  lemma RemoveMirrors(entries: seq<Entry>, link: map<nat, MapItem>, walk: seq<MapItem>, ks: seq<int>, item: nat,
    pos: nat)
    requires Mirrors(entries, link, walk, ks) && exists j :: 0 <= j < |entries| && entries[j].item == item
    requires forall i, j :: 0 <= i < j < |walk| ==> walk[i] != walk[j]
    requires pos < |walk| && walk[pos] == link[item]
    ensures (var p := Index(entries, item);
      pos == p && Mirrors(entries[..p] + entries[p + 1..], link, walk[..pos] + walk[pos + 1..],
        ks[..pos] + ks[pos + 1..]))
  {
    var p := Index(entries, item);
    assert walk[p] == link[item];
  }
}
