// cl_heap: a d-ary heap in an array, sifting with a hole, and telling every context where it is.
module DaryHeap {
  import opened Order
  import opened HeapOrder
  import opened HeapOps

  datatype Status = Success | InvalidParameter | InsufficientResources | InsufficientMemory

  const NO_CONTEXT: nat := 0

  class DHeap {
    const d: nat
    const cmp: Compare
    const elements: array<Elem>
    var size: nat
    // what the index-update callback has recorded
    var place: map<nat, nat>

    // cl_heap_init, once its parameters are accepted and its memory is there
    constructor (capacity: nat, d: nat, cmp: Compare)
      requires capacity > 0 && d > 0 && TotalPreorder(cmp)
      ensures Valid() && View() == Heap([], map[]) && elements.Length == capacity && this.d == d && this.cmp == cmp
    {
      this.d, this.cmp, size, place := d, cmp, 0, map[];
      elements := new Elem[capacity](_ => Elem(0, NO_CONTEXT));
    }

    ghost predicate Fit()
      reads this
    {
      d >= 1 && TotalPreorder(cmp) && size <= elements.Length
    }

    ghost function View(): Heap
      requires Fit()
      reads this, elements
    {
      Heap(elements[..size], place)
    }

    ghost predicate Valid()
      reads this, elements
    {
      Fit() && Ordered(cmp, d, View().s)
    }

    // The heap as it will be when the hole is filled with the element being moved.
    ghost function Filled(hole: nat, tmp: Elem): Heap
      requires Fit() && hole < size
      reads this, elements
    {
      Heap(elements[..size][hole := tmp], place)
    }

    method Notify(context: nat, index: nat)
      modifies this`place
      ensures place == old(place)[context := index]
    {
      place := place[context := index];
    }

    // The element at from moves into the hole, which moves to from.
    method Shift(hole: nat, from: nat, ghost tmp: Elem)
      requires Fit() && hole < size && from < size && hole != from
      modifies this`place, elements
      ensures Filled(from, tmp) ==
        Heap(Swap(old(Filled(hole, tmp).s), hole, from), old(place)[old(elements[from]).context := hole])
      ensures elements[size..] == old(elements[size..])
    {
      elements[hole] := elements[from];
      Notify(elements[hole].context, hole);
      assert elements[..size][from := tmp] == Swap(old(Filled(hole, tmp).s), hole, from);
    }

    // The moved element comes to rest.
    method Rest(hole: nat, tmp: Elem)
      requires Fit() && hole < size
      modifies this`place, elements
      ensures View() == old(Filled(hole, tmp)).(place := old(place)[tmp.context := hole])
      ensures elements[size..] == old(elements[size..])
    {
      elements[hole] := tmp;
      Notify(elements[hole].context, hole);
    }

    method HeapUp(index: nat)
      requires Fit() && index < size
      modifies this`place, elements
      ensures View() == Up(cmp, d, old(View()), index, false)
      ensures elements[size..] == old(elements[size..])
    {
      hide TotalPreorder, Swap;
      if index == 0 {
        return;
      }
      var tmp := elements[index];
      var parent, swapChild, swapped := index, index, false;
      var more := true;
      assert Filled(index, tmp) == View();
      while more
        invariant swapChild < size && (swapped || swapChild == index) && (more ==> parent == swapChild > 0)
        invariant elements[size..] == old(elements[size..])
        invariant Up(cmp, d, old(View()), index, false) == Up(cmp, d, Filled(swapChild, tmp), swapChild, swapped)
        invariant !swapped ==> View() == old(View()) == Filled(swapChild, tmp)
        invariant !more && swapChild > 0 ==>
          cmp(tmp.key, Filled(swapChild, tmp).s[Parent(d, swapChild)].key) >= 0
        decreases swapChild, more
      {
        var child := parent;
        parent := Parent(d, child);
        if cmp(tmp.key, elements[parent].key) < 0 {
          Shift(child, parent, tmp);
          swapChild, swapped := parent, true;
          more := parent > 0;
        } else {
          more := false;
        }
      }
      if swapped {
        Rest(swapChild, tmp);
      }
    }

    // The inner loop of heap_down: the last of the least children of parent.
    method LeastChild(parent: nat) returns (swapChild: nat)
      requires Fit() && parent * d + 1 < size
      ensures swapChild == MinChild(cmp, d, elements[..size], parent)
    {
      hide TotalPreorder;
      var firstChild := parent * d + 1;
      swapChild := firstChild;
      var child := firstChild + 1;
      ghost var s := elements[..size];
      while child < firstChild + d && child < size
        invariant firstChild <= swapChild < size && swapChild < child
        invariant MinChild(cmp, d, s, parent) == Best(cmp, d, s, firstChild, child, swapChild)
      {
        if cmp(elements[child].key, elements[swapChild].key) <= 0 {
          swapChild := child;
        }
        child := child + 1;
      }
    }

    method HeapDown(index: nat)
      requires Fit() && index <= size && index < elements.Length
      modifies this`place, elements
      ensures View() == Down(cmp, d, old(View()), index, false)
      ensures elements[size..] == old(elements[size..])
    {
      hide TotalPreorder, Swap, MinChild;
      var tmp := elements[index];
      var parent, swapped := index, false;
      if index == size {
        Grows(index, d);
        return;
      }
      assert Filled(index, tmp) == View();
      var more := true;
      while more && parent * d + 1 < size
        invariant parent < size && (swapped || parent == index)
        invariant elements[size..] == old(elements[size..])
        invariant Down(cmp, d, old(View()), index, false) == Down(cmp, d, Filled(parent, tmp), parent, swapped)
        invariant !swapped ==> View() == old(View()) == Filled(parent, tmp)
        invariant !more ==> parent * d + 1 < size
        invariant !more ==>
          cmp(tmp.key, Filled(parent, tmp).s[MinChild(cmp, d, Filled(parent, tmp).s, parent)].key) <= 0
        decreases size - parent, more
      {
        var swapChild := LeastChild(parent);
        MinChildSame(cmp, d, elements[..size], parent, tmp);
        MinChildLeast(cmp, d, Filled(parent, tmp).s, parent);
        if cmp(tmp.key, elements[swapChild].key) > 0 {
          Shift(parent, swapChild, tmp);
          parent, swapped := swapChild, true;
        } else {
          more := false;
        }
      }
      if swapped {
        Rest(parent, tmp);
      }
    }

    // ---------- the interface ----------

    method ModifyKey(key: int, index: nat) returns (status: Status)
      requires Valid()
      modifies this`place, elements
      ensures Valid()
      ensures status == if index < size then Success else InvalidParameter
      ensures View() == if index < size then Modified(cmp, d, old(View()), key, index) else old(View())
    {
      if index >= size {
        return InvalidParameter;
      }
      ModifiedOrdered(cmp, d, View(), key, index);
      hide Ordered, TotalPreorder, Up, Down;
      var oldKey := elements[index].key;
      elements[index] := Elem(key, elements[index].context);
      assert View().s == old(View()).s[index := Elem(key, old(View()).s[index].context)];
      var c := cmp(key, oldKey);
      if c < 0 {
        HeapUp(index);
      } else if c > 0 {
        HeapDown(index);
      }
      return Success;
    }

    method Insert(key: int, context: nat) returns (status: Status)
      requires Valid()
      modifies this`place, this`size, elements
      ensures Valid()
      ensures status == if context == NO_CONTEXT then InvalidParameter
        else if old(size) == elements.Length then InsufficientResources else Success
      ensures View() == if status == Success then HeapOps.Inserted(cmp, d, old(View()), Elem(key, context))
        else old(View())
    {
      if context == NO_CONTEXT {
        return InvalidParameter;
      }
      if size == elements.Length {
        return InsufficientResources;
      }
      InsertedOrdered(cmp, d, View(), Elem(key, context));
      hide Ordered, TotalPreorder, Up;
      elements[size] := Elem(key, context);
      Notify(context, size);
      size := size + 1;
      assert View().s == old(View()).s + [Elem(key, context)];
      HeapUp(size - 1);
      return Success;
    }

    // NO_CONTEXT for a position that is not in the heap
    method Delete(index: nat) returns (context: nat)
      requires Valid()
      modifies this`place, this`size, elements
      ensures Valid()
      ensures index >= old(size) ==> context == NO_CONTEXT && View() == old(View())
      ensures index < old(size) ==>
        context == old(elements[index]).context && View() == HeapOps.Deleted(cmp, d, old(View()), index)
    {
      if size == 0 || index >= size {
        return NO_CONTEXT;
      }
      hide Ordered, TotalPreorder, Up, Down;
      DeletedOrdered(cmp, d, View(), index);
      if size == 1 {
        size := size - 1;
        return elements[size].context;
      }
      context := DeleteAt(index);
    }

    // With at least two elements: the last one fills the gap.
    method DeleteAt(index: nat) returns (context: nat)
      requires Valid() && index < size && size > 1
      modifies this`place, this`size, elements
      ensures size == old(size) - 1 && context == old(elements[index]).context
      ensures View() == HeapOps.Deleted(cmp, d, old(View()), index)
    {
      hide Ordered, TotalPreorder, Up, Down, OrderedUp, OrderedDown, HeapOps.Deleted;
      ghost var h := View();
      UnlinkedOrdered(cmp, d, h, index);
      TakeOut(index);
      Repair(index, h);
      assert elements[size] == elements[size..][0];
      return elements[size].context;
    }

    // The element that has taken the removed one's place moves down, up, or stays.
    method Repair(index: nat, ghost h: Heap)
      requires Fit() && index < |h.s| == size + 1 <= elements.Length && size > 0 && View() == Unlinked(h, index)
      requires elements[index] == h.s[size]
      requires index > 0 && cmp(View().s[Parent(d, index)].key, h.s[size].key) > 0 ==> index < size
      modifies this`place, elements
      ensures View() == HeapOps.Deleted(cmp, d, h, index)
      ensures elements[size..] == old(elements[size..])
    {
      hide Ordered, TotalPreorder, Up, Down, Unlinked;
      if index == 0 {
        HeapDown(index);
      } else {
        var parent := Parent(d, index);
        var c := cmp(elements[parent].key, elements[index].key);
        if c < 0 {
          HeapDown(index);
        } else if c > 0 {
          HeapUp(index);
        }
      }
    }

    // The last element replaces the one at index, which goes just outside the heap.
    method TakeOut(index: nat)
      requires Fit() && 1 < size && index < size
      modifies this`place, this`size, elements
      ensures size == old(size) - 1 && View() == Unlinked(old(View()), index)
      ensures elements[size..][0] == (if index < size then old(elements[index]) else old(elements[size - 1]))
      ensures elements[index] == old(elements[size - 1])
    {
      size := size - 1;
      var tmp := elements[size];
      elements[size] := elements[index];
      Notify(elements[size].context, size);
      elements[index] := tmp;
      Notify(elements[index].context, index);
    }

    method ExtractRoot() returns (context: nat)
      requires Valid()
      modifies this`place, this`size, elements
      ensures Valid()
      ensures old(size) == 0 ==> context == NO_CONTEXT && View() == old(View())
      ensures old(size) > 0 ==>
        context == old(elements[0]).context && View() == HeapOps.Deleted(cmp, d, old(View()), 0)
    {
      context := Delete(0);
    }

    method IsStored(context: nat, index: nat) returns (stored: bool)
      requires Valid()
      ensures stored <==> index < size && elements[index].context == context
    {
      stored := !(index >= size || elements[index].context != context);
    }

    // cl_verify_heap_property decides the heap order
    method VerifyHeapProperty() returns (ok: bool)
      requires Fit()
      ensures ok <==> Ordered(cmp, d, View().s)
    {
      ghost var s := View().s;
      var parent := 0;
      while parent < size
        invariant forall j | 1 <= j < size && Parent(d, j) < parent :: Edge(cmp, d, s, j)
      {
        var firstChild := parent * d + 1;
        var child := firstChild;
        while child < firstChild + d && child < size
          invariant child >= firstChild
          invariant forall j | firstChild <= j < child && j < size :: Edge(cmp, d, s, j)
        {
          Children(d, parent, child);
          if cmp(elements[parent].key, elements[child].key) > 0 {
            assert !Edge(cmp, d, s, child);
            return false;
          }
          child := child + 1;
        }
        forall j | 1 <= j < size && Parent(d, j) == parent
          ensures Edge(cmp, d, s, j)
        {
          Children(d, parent, j);
        }
        parent := parent + 1;
      }
      return true;
    }
  }

  // cl_heap_init; no comparison function means the default one.
  method Init(capacity: nat, d: nat, callback: bool, compare: Compare, given: bool, memory: bool)
    returns (status: Status, heap: DHeap?)
    requires given ==> TotalPreorder(compare)
    ensures status == InvalidParameter <==> capacity == 0 || d == 0 || !callback
    ensures status == InsufficientMemory <==> status != InvalidParameter && !memory
    ensures status == InvalidParameter || status == InsufficientMemory || status == Success
    ensures status != Success ==> heap == null
    ensures status == Success ==>
      && fresh(heap) && heap.Valid() && heap.View() == Heap([], map[]) && heap.elements.Length == capacity
      && heap.d == d && heap.cmp == if given then compare else CompareInt
  {
    if capacity == 0 || d == 0 || !callback {
      return InvalidParameter, null;
    }
    if !memory {
      return InsufficientMemory, null;
    }
    CompareIntOrder();
    heap := new DHeap(capacity, d, if given then compare else CompareInt);
    return Success, heap;
  }
}
