// Growing pools: a free list that hands out objects, grows in blocks and may stop half way.
module Pools {
  import opened Options

  datatype Status = Success | InvalidSetting | InsufficientMemory | InitializerFailed

  const UNLIMITED: nat := 0xFFFF_FFFF_FFFF_FFFF

  ghost predicate Distinct(s: seq<nat>)
  {
    forall i, j :: 0 <= i < j < |s| ==> s[i] != s[j]
  }

  // Objects n, n + 1, ..., each inserted at the head of the free list as it is initialised.
  function Created(n: nat, k: nat): (s: seq<nat>)
    ensures |s| == k
  {
    if k == 0 then [] else [n + k - 1] + Created(n, k - 1)
  }

  lemma {:induction false} CreatedAt(n: nat, k: nat, i: nat)
    requires i < k
    ensures Created(n, k)[i] == n + k - 1 - i
  {
    if i > 0 {
      CreatedAt(n, k - 1, i - 1);
    }
  }

  lemma CreatedNext(n: nat, k: nat)
    ensures Created(n, k + 1) == [n + k] + Created(n, k)
  {
  }

  lemma CreatedNone(n: nat)
    ensures Created(n, 0) == []
  {
  }

  function Min(a: nat, b: nat): nat
  {
    if a <= b then a else b
  }

  // cl_qcpool_t.  An object is named by the order of its creation.
  class Pool {
    var ready: bool
    var numObjects: nat
    var maxObjects: nat
    var growSize: nat
    var free: seq<nat>
    ghost var out: set<nat>

    // Every object ever created is in the free list, once, or with a user: none is lost.
    ghost predicate Valid()
      reads this
    {
      && ready && numObjects <= maxObjects
      && Distinct(free)
      && (forall x | x in free :: x < numObjects && x !in out)
      && (forall x | x in out :: x < numObjects)
      && (forall x: nat | x < numObjects :: x in free || x in out)
      && |free| + |out| == numObjects
    }

    constructor ()
      ensures !ready
    {
      ready, numObjects, maxObjects, growSize, free, out := false, 0, 0, 0, [], {};
    }

    // Either a ready pool with at least minSize free objects, or an unusable one.  sizes and memory
    // say whether there is memory for the pool and for its first objects, good how many of these
    // the caller's initializer accepts.
    method Init(minSize: nat, maxSize: nat, growSize: nat, components: nat, initializer: bool,
                sizes: bool, memory: bool, good: nat) returns (status: Status)
      requires components > 0 && minSize <= UNLIMITED
      modifies this
      ensures ready <==> status == Success
      ensures ready ==> Valid() && out == {} && |free| == minSize && this.growSize == growSize
      ensures ready ==> maxObjects == if maxSize == 0 then UNLIMITED else maxSize
      ensures status == InvalidSetting <==> (components > 1 && !initializer) || 0 < maxSize < minSize
      ensures status == InitializerFailed <==>
        status != InvalidSetting && sizes && memory && initializer && good < minSize
      ensures status == InsufficientMemory <==> status != InvalidSetting && (!sizes || (minSize > 0 && !memory))
    {
      ready, numObjects, free, out := false, 0, [], {};
      if components > 1 && !initializer {
        return InvalidSetting;
      }
      if maxSize != 0 && maxSize < minSize {
        return InvalidSetting;
      }
      if !sizes {
        return InsufficientMemory;
      }
      this.maxObjects := if maxSize != 0 then maxSize else UNLIMITED;
      this.growSize := growSize;
      ready := true;
      if minSize == 0 {
        return Success;
      }
      status := Grow(minSize, initializer, memory, good);
      if status != Success {
        ready, free := false, [];
      }
    }

    // One initialised object joins the free list at its head.
    method Add()
      requires Valid() && numObjects < maxObjects
      modifies this`numObjects, this`free
      ensures Valid() && numObjects == old(numObjects) + 1 && free == [old(numObjects)] + old(free)
    {
      ghost var f := free;
      free := [numObjects] + free;
      numObjects := numObjects + 1;
      assert forall j :: 0 < j < |free| ==> free[j] == f[j - 1] && f[j - 1] in f;
      forall x: nat | x < numObjects
        ensures x in free || x in out
      {
        assert free[0] == numObjects - 1 && free[1..] == f;
        assert x in f ==> x in free;
      }
    }

    // Adds up to count objects.  Memory may run out at once, and the caller's initializer may fail
    // after good objects, which stay.
    method Grow(count: nat, initializer: bool, memory: bool, good: nat) returns (status: Status)
      requires Valid() && count > 0
      modifies this`numObjects, this`free
      ensures Valid() && old(numObjects) <= numObjects
      ensures free == Created(old(numObjects), numObjects - old(numObjects)) + old(free)
      ensures (var todo := Min(count, maxObjects - old(numObjects));
        if !memory || todo == 0 then status == InsufficientMemory && numObjects == old(numObjects)
        else if initializer && good < todo then status == InitializerFailed && numObjects == old(numObjects) + good
        else status == Success && numObjects == old(numObjects) + todo)
    {
      if numObjects == maxObjects {
        return InsufficientMemory;
      }
      if !memory {
        return InsufficientMemory;
      }
      status := InitAll(Min(count, maxObjects - numObjects), initializer, good);
    }

    // The loop over the objects of a new block.
    method InitAll(toCreate: nat, initializer: bool, good: nat) returns (status: Status)
      requires Valid() && 0 < toCreate && numObjects + toCreate <= maxObjects
      modifies this`numObjects, this`free
      ensures Valid() && old(numObjects) <= numObjects
      ensures free == Created(old(numObjects), numObjects - old(numObjects)) + old(free)
      ensures status == if initializer && good < toCreate then InitializerFailed else Success
      ensures numObjects == old(numObjects) + if initializer then Min(good, toCreate) else toCreate
    {
      hide Valid, Created;
      var todo := toCreate;
      ghost var n, goal := numObjects, numObjects + todo;
      CreatedNone(n);
      while todo > 0
        invariant Valid() && numObjects + todo == goal <= maxObjects && n <= numObjects
        invariant free == Created(n, numObjects - n) + old(free)
        invariant initializer ==> numObjects - n <= good
      {
        if initializer && toCreate - todo == good {
          return InitializerFailed;
        }
        Add();
        todo := todo - 1;
        CreatedNext(n, numObjects - 1 - n);
      }
      return Success;
    }

    // Takes an object, growing the pool only when it has none.
    method Get(initializer: bool, memory: bool, good: nat) returns (item: Option<nat>)
      requires Valid()
      modifies this`numObjects, this`free, this`out
      ensures Valid() && old(numObjects) <= numObjects
      ensures old(free) != [] ==>
        item == Some(old(free)[0]) && free == old(free)[1..] && numObjects == old(numObjects)
      ensures item.None? ==> out == old(out) && free == [] && numObjects == old(numObjects)
      ensures item.None? <==>
        old(free) == [] && (growSize == 0 || old(numObjects) == maxObjects || !memory || (initializer && good == 0))
      // an empty pool with memory grows by as much as it may
      ensures old(free) == [] && item.Some? ==>
        var todo := Min(growSize, maxObjects - old(numObjects));
        numObjects == old(numObjects) + if initializer then Min(good, todo) else todo
      ensures item.Some? ==> item.value !in old(out) && out == old(out) + {item.value}
    {
      hide Created, Valid, Distinct;
      if free == [] {
        if growSize == 0 {
          return None;
        }
        var status := Grow(growSize, initializer, memory, good);
        if free == [] {
          return None;
        }
      }
      var head := TakeHead();
      item := Some(head);
    }

    method TakeHead() returns (item: nat)
      requires Valid() && free != []
      modifies this`free, this`out
      ensures Valid() && [item] + free == old(free) && item !in old(out) && out == old(out) + {item}
    {
      item := free[0];
      ghost var f := free;
      free := free[1..];
      out := out + {item};
      assert f == [item] + free;
      assert forall i | 0 <= i < |free| :: free[i] == f[i + 1];
    }

    // Gives an object back: it is the next one to be handed out.
    method Put(item: nat)
      requires Valid() && item in out
      modifies this`free, this`out
      ensures Valid() && free == [item] + old(free) && out == old(out) - {item}
    {
      free := [item] + free;
      out := out - {item};
    }
  }
}
