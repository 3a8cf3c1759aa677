module QMaps {
  import opened MapItems
  import opened Order
  import opened RbTree
  import opened RbLinks
  import opened RbSteps
  import opened RbBalance
  import opened RbEdit
  import opened ThreadList

  // Keys strictly ascending along a walk.
  ghost predicate Sorted(cmp: Compare, s: seq<MapItem>)
    reads s`key
  {
    forall i, j :: 0 <= i < j < |s| ==> cmp(s[i].key, s[j].key) < 0
  }

  // A key comes before every item of s.
  ghost predicate Before(cmp: Compare, key: int, s: seq<MapItem>)
    reads s`key
  {
    forall i :: 0 <= i < |s| ==> cmp(key, s[i].key) < 0
  }

  // A key comes after every item of s, or with eq ties with it.
  ghost predicate After(cmp: Compare, key: int, s: seq<MapItem>, eq: bool)
    reads s`key
  {
    forall i :: 0 <= i < |s| ==> cmp(key, s[i].key) > 0 || (eq && cmp(key, s[i].key) == 0)
  }

  // Where a key lies relative to the two sides of an item of a sorted walk.
  lemma SortedSides(cmp: Compare, a: seq<MapItem>, x: MapItem, b: seq<MapItem>, key: int, eq: bool)
    requires TotalPreorder(cmp) && Sorted(cmp, a + [x] + b)
    ensures cmp(key, x.key) < 0 ==> Before(cmp, key, [x] + b)
    ensures cmp(key, x.key) > 0 || (eq && cmp(key, x.key) == 0) ==> After(cmp, key, a + [x], eq)
  {
    var s := a + [x] + b;
    forall j | 0 <= j < |b| && cmp(key, x.key) < 0
      ensures cmp(key, b[j].key) < 0
    {
      assert s[|a|] == x && s[|a| + 1 + j] == b[j];
      Chain(cmp, key, x.key, b[j].key);
    }
    forall j | 0 <= j < |a| && cmp(key, x.key) >= 0
      ensures cmp(key, a[j].key) > 0
    {
      assert s[j] == a[j] && s[|a|] == x;
      Flip(cmp, key, x.key);
      Chain(cmp, a[j].key, x.key, key);
      Flip(cmp, a[j].key, key);
    }
  }

  lemma SortedInsert(cmp: Compare, a: seq<MapItem>, x: MapItem, b: seq<MapItem>)
    requires TotalPreorder(cmp) && Sorted(cmp, a + b)
    requires After(cmp, x.key, a, false) && Before(cmp, x.key, b)
    ensures Sorted(cmp, a + [x] + b)
  {
    var s, s' := a + b, a + [x] + b;
    forall i, j | 0 <= i < j < |s'|
      ensures cmp(s'[i].key, s'[j].key) < 0
    {
      assert i < |a| ==> s'[i] == s[i] == a[i];
      assert i > |a| ==> s'[i] == s[i - 1];
      assert j < |a| ==> s'[j] == s[j];
      assert j > |a| ==> s'[j] == s[j - 1] == b[j - |a| - 1];
      if i < |a| && j == |a| {
        Flip(cmp, x.key, a[i].key);
      }
    }
  }

  lemma SortedRemove(cmp: Compare, a: seq<MapItem>, x: MapItem, b: seq<MapItem>)
    requires Sorted(cmp, a + [x] + b)
    ensures Sorted(cmp, a + b)
  {
    var s, s' := a + [x] + b, a + b;
    forall i, j | 0 <= i < j < |s'|
      ensures cmp(s'[i].key, s'[j].key) < 0
    {
      assert s'[i] == s[if i < |a| then i else i + 1];
      assert s'[j] == s[if j < |a| then j else j + 1];
    }
  }

  ghost function Items(t: Tree): set<MapItem>
  {
    set x | x in InOrder(t)
  }

  lemma EmptyValid(m: Mem, k: Links, root: MapItem, nil: MapItem)
    requires root in m && nil in m && root != nil && nil in k
    requires m[root].up == root && m[root].left == nil && m[root].color == Black && m[nil].color == Black
    requires k[nil] == Link(nil, nil)
    ensures Rep(m, root, nil, Leaf) && Threaded(k, nil, []) && Items(Leaf) == {}
  {
    assert Joined(k, nil, nil);
  }

  ghost function KeysOf(s: seq<MapItem>): (ks: seq<int>)
    reads s`key
    ensures |ks| == |s| && forall i | 0 <= i < |s| :: ks[i] == s[i].key
  {
    if s == [] then [] else [s[0].key] + KeysOf(s[1..])
  }

  ghost predicate Ascending(cmp: Compare, ks: seq<int>)
  {
    forall i, j :: 0 <= i < j < |ks| ==> cmp(ks[i], ks[j]) < 0
  }

  // Sortedness depends on the keys alone, which relinking does not touch.
  lemma SortedKeys(cmp: Compare, s: seq<MapItem>)
    ensures Sorted(cmp, s) <==> Ascending(cmp, KeysOf(s))
  {
  }

  lemma ItemsInsert(t: Tree, t': Tree, a: seq<MapItem>, x: MapItem, b: seq<MapItem>)
    requires InOrder(t) == a + b && InOrder(t') == a + [x] + b
    ensures Items(t') == Items(t) + {x}
  {
  }

  lemma ItemsRemove(t: Tree, t': Tree, a: seq<MapItem>, x: MapItem, b: seq<MapItem>)
    requires InOrder(t) == a + [x] + b && InOrder(t') == a + b && x !in a + b
    ensures Items(t') == Items(t) - {x}
  {
  }

  // What follows a key in an ascending walk.
  lemma FirstAfter(cmp: Compare, a: seq<MapItem>, b: seq<MapItem>, key: int)
    requires Sorted(cmp, a + b) && After(cmp, key, a, true) && Before(cmp, key, b)
    ensures forall y | y in a :: cmp(key, y.key) >= 0
    ensures b != [] ==> cmp(key, b[0].key) < 0
    ensures b != [] ==> forall y | y in a + b :: cmp(key, y.key) < 0 ==> y == b[0] || cmp(b[0].key, y.key) < 0
  {
    var w := a + b;
    assert forall i | 0 <= i < |a| :: w[i] == a[i] && cmp(key, w[i].key) >= 0;
    if b != [] {
      assert w[|a|] == b[0];
      forall y | y in w && cmp(key, y.key) < 0
        ensures y == b[0] || cmp(b[0].key, y.key) < 0
      {
        var j :| 0 <= j < |w| && w[j] == y;
        assert j >= |a|;
      }
    }
  }

  // cl_qmap_t.  A cl_fmap_t is the same structure with a caller's comparator.
  class QMap {
    const root: MapItem
    const nil: MapItem
    const cmp: Compare
    var count: nat
    ghost var tree: Tree
    ghost var nodes: set<MapItem>

    // The items in key order.
    ghost function Walk(): seq<MapItem>
      reads this
    {
      InOrder(tree)
    }

    ghost predicate Valid()
      reads this, nodes
    {
      && TotalPreorder(cmp)
      && nodes == {root, nil} + Items(tree)
      && Rep(Snap(nodes), root, nil, tree) && RedBlack(tree)
      && Threaded(SnapLinks(nodes), nil, Walk())
      && Sorted(cmp, Walk())
      && count == |Walk()|
    }

    constructor (cmp: Compare)
      requires TotalPreorder(cmp)
      ensures Valid() && fresh(nodes) && Walk() == [] && this.cmp == cmp
    {
      hide TotalPreorder, NoDup;
      root := new MapItem();
      nil := new MapItem();
      this.cmp := cmp;
      count := 0;
      tree := Leaf;
      new;
      root.left := nil;
      root.right := nil;
      nodes := {root, nil};
      EmptyValid(Snap(nodes), SnapLinks(nodes), root, nil);
      assert tree == Leaf && RedBlack(Leaf) && Walk() == [] && Sorted(cmp, []);
      assert nodes == {root, nil} + Items(Leaf);
    }

    // ---------- single link writes ----------

    method PutUp(x: MapItem, v: MapItem)
      requires x in nodes
      modifies x`up
      ensures Snap(nodes) == SetUp(old(Snap(nodes)), x, v)
    {
      x.up := v;
    }

    method PutLeft(x: MapItem, v: MapItem)
      requires x in nodes
      modifies x`left
      ensures Snap(nodes) == SetLeft(old(Snap(nodes)), x, v)
    {
      x.left := v;
    }

    method PutRight(x: MapItem, v: MapItem)
      requires x in nodes
      modifies x`right
      ensures Snap(nodes) == SetRight(old(Snap(nodes)), x, v)
    {
      x.right := v;
    }

    method PutColor(x: MapItem, k: Color)
      requires x in nodes
      modifies x`color
      ensures Snap(nodes) == SetColor(old(Snap(nodes)), x, k)
    {
      x.color := k;
    }

    // Writing through __cl_map_get_parent_ptr_to_item.
    method PutChild(x: MapItem, v: MapItem)
      requires x in nodes && x.up in nodes
      modifies x.up`left, x.up`right
      ensures Snap(nodes) == SetChild(old(Snap(nodes)), x, v)
    {
      if x.up.left == x {
        PutLeft(x.up, v);
      } else {
        PutRight(x.up, v);
      }
    }

    // __cl_map_rot_left
    method RotateLeft(p: MapItem)
      requires p in nodes && p.up in nodes && p.right in nodes && p.right.left in nodes
      modifies nodes`left, nodes`right, nodes`up
      ensures Snap(nodes) == RotLeft(old(Snap(nodes)), nil, p)
    {
      var c := p.right;
      PutChild(p, c);
      PutUp(c, p.up);
      PutRight(p, c.left);
      if c.left != nil {
        PutUp(c.left, p);
      }
      PutLeft(c, p);
      PutUp(p, c);
    }

    // __cl_map_rot_right
    method RotateRight(p: MapItem)
      requires p in nodes && p.up in nodes && p.left in nodes && p.left.right in nodes
      modifies nodes`left, nodes`right, nodes`up
      ensures Snap(nodes) == RotRight(old(Snap(nodes)), nil, p)
    {
      var a := p.left;
      PutChild(p, a);
      PutUp(a, p.up);
      PutLeft(p, a.right);
      if a.right != nil {
        PutUp(a.right, p);
      }
      PutRight(a, p);
      PutUp(p, a);
    }

    // ---------- rebalancing after an insertion ----------

    // Red uncle: recolour parent, uncle and grandparent; the conflict is now at the latter.
    method InsRecolor(p: MapItem, uncle: MapItem) returns (g: MapItem)
      requires p in nodes && p.up in nodes && p.up.up in nodes && uncle in nodes
      modifies nodes`color
      ensures g == p.up.up
      ensures Snap(nodes) ==
        SetColor(SetColor(SetColor(old(Snap(nodes)), uncle, Black), p.up, Black), p.up.up, Red)
    {
      PutColor(uncle, Black);
      PutColor(p.up, Black);
      PutColor(p.up.up, Red);
      g := p.up.up;
    }

    // Black uncle: recolour parent and grandparent, then rotate the latter down.
    method InsLiftRight(p: MapItem)
      requires p in nodes && p.up in nodes && p.up.up in nodes
      requires var g := p.up.up; g.up in nodes && g.left in nodes && g.left.right in nodes
      modifies nodes`left, nodes`right, nodes`up, nodes`color
      ensures Snap(nodes) ==
        RotRight(SetColor(SetColor(old(Snap(nodes)), old(p.up), Black), old(p.up.up), Red), nil, old(p.up.up))
    {
      hide RotRight;
      PutColor(p.up, Black);
      PutColor(p.up.up, Red);
      RotateRight(p.up.up);
    }

    method InsLiftLeft(p: MapItem)
      requires p in nodes && p.up in nodes && p.up.up in nodes
      requires var g := p.up.up; g.up in nodes && g.right in nodes && g.right.left in nodes
      modifies nodes`left, nodes`right, nodes`up, nodes`color
      ensures Snap(nodes) ==
        RotLeft(SetColor(SetColor(old(Snap(nodes)), old(p.up), Black), old(p.up.up), Red), nil, old(p.up.up))
    {
      hide RotLeft;
      PutColor(p.up, Black);
      PutColor(p.up.up, Red);
      RotateLeft(p.up.up);
    }

    // One round of the insertion loop below a red parent that is a left child.
    method InsBalLeft(p0: MapItem, ghost c0: Ctx, ghost f0: Tree)
      returns (p: MapItem, ghost c: Ctx, ghost f: Tree)
      requires RepAt(Snap(nodes), root, nil, c0, f0) && InsInv(c0, f0) && IsRed(f0) && f0.item == p0
      requires !c0.Top? && c0.color == Red && c0.up.InL?
      modifies nodes`left, nodes`right, nodes`up, nodes`color
      ensures RepAt(Snap(nodes), root, nil, c, f) && InsInv(c, f) && IsRed(f) && f.item == p
      ensures Depth(c) < Depth(c0) && SameWalk(c0, f0, c, f)
    {
      hide RepAt, InsInv, RotLeft, RotRight;
      p, c, f := p0, c0, f0;
      InsGrand(c, f);
      Around(Snap(nodes), root, nil, c, f);
      var uncle := p.up.up.right;
      if uncle.color == Red {
        InsUncleRep(Snap(nodes), root, nil, c, f);
        InsUncleInv(c, f);
        p := InsRecolor(p, uncle);
        f := Fill(UncleCtx(c), Fill(WithColor(c, Black), f));
        c := c.up.up;
        return;
      }
      if p.up.left != p {
        ghost var g, l, q := c.up, c.left, c.item;
        InsInnerLeft(Snap(nodes), root, nil, g, l, q, f);
        InsInnerLeftInv(g, l, q, f);
        p := p.up;
        RotateLeft(p);
        c, f := InL(g, f.item, Red, f.right), Node(l, q, Red, f.left);
        Around(Snap(nodes), root, nil, c, f);
      }
      InsOuterLeftRep(Snap(nodes), root, nil, c.up, f, c.item, c.right);
      InsOuterLeftInv(c.up, f, c.item, c.right);
      InsLiftRight(p);
      c := InL(c.up.up, c.item, Black, Node(c.right, c.up.item, Red, c.up.right));
    }

    // One round of the insertion loop below a red parent that is a right child.
    method InsBalRight(p0: MapItem, ghost c0: Ctx, ghost f0: Tree)
      returns (p: MapItem, ghost c: Ctx, ghost f: Tree)
      requires RepAt(Snap(nodes), root, nil, c0, f0) && InsInv(c0, f0) && IsRed(f0) && f0.item == p0
      requires !c0.Top? && c0.color == Red && c0.up.InR?
      modifies nodes`left, nodes`right, nodes`up, nodes`color
      ensures RepAt(Snap(nodes), root, nil, c, f) && InsInv(c, f) && IsRed(f) && f.item == p
      ensures Depth(c) < Depth(c0) && SameWalk(c0, f0, c, f)
    {
      hide RepAt, InsInv, RotLeft, RotRight;
      p, c, f := p0, c0, f0;
      InsGrand(c, f);
      Around(Snap(nodes), root, nil, c, f);
      var uncle := p.up.up.left;
      if uncle.color == Red {
        InsUncleRep(Snap(nodes), root, nil, c, f);
        InsUncleInv(c, f);
        p := InsRecolor(p, uncle);
        f := Fill(UncleCtx(c), Fill(WithColor(c, Black), f));
        c := c.up.up;
        return;
      }
      if p.up.left == p {
        ghost var g, q, r := c.up, c.item, c.right;
        InsInnerRight(Snap(nodes), root, nil, g, f, q, r);
        InsInnerRightInv(g, f, q, r);
        p := p.up;
        RotateRight(p);
        c, f := InR(g, f.left, f.item, Red), Node(f.right, q, Red, r);
        Around(Snap(nodes), root, nil, c, f);
      }
      InsOuterRightRep(Snap(nodes), root, nil, c.up, f, c.item, c.left);
      InsOuterRightInv(c.up, f, c.item, c.left);
      InsLiftLeft(p);
      c := InR(c.up.up, Node(c.up.left, c.up.item, Red, c.left), c.item, Black);
    }

    // The loop body: which side the parent is on decides the direction of the rotations.
    method InsBalRound(p0: MapItem, ghost c0: Ctx, ghost f0: Tree)
      returns (p: MapItem, ghost c: Ctx, ghost f: Tree)
      requires RepAt(Snap(nodes), root, nil, c0, f0) && InsInv(c0, f0) && IsRed(f0) && f0.item == p0
      requires !c0.Top? && c0.color == Red
      modifies nodes`left, nodes`right, nodes`up, nodes`color
      ensures RepAt(Snap(nodes), root, nil, c, f) && InsInv(c, f) && IsRed(f) && f.item == p
      ensures Depth(c) < Depth(c0) && SameWalk(c0, f0, c, f)
    {
      hide RepAt, InsInv;
      InsGrand(c0, f0);
      Around(Snap(nodes), root, nil, c0, f0);
      if p0.up.up.left == p0.up {
        p, c, f := InsBalLeft(p0, c0, f0);
      } else {
        p, c, f := InsBalRight(p0, c0, f0);
      }
    }

    // __cl_map_ins_bal
    method InsBal(p0: MapItem, ghost c0: Ctx, ghost f0: Tree) returns (ghost t: Tree)
      requires RepAt(Snap(nodes), root, nil, c0, f0) && InsInv(c0, f0) && IsRed(f0) && f0.item == p0
      modifies nodes`left, nodes`right, nodes`up, nodes`color
      ensures Rep(Snap(nodes), root, nil, t)
      ensures InOrder(t) == InOrder(Plug(c0, f0)) && RedBlack(Blacken(t))
    {
      hide RepAt, InsInv;
      var p := p0;
      ghost var c, f := c0, f0;
      ParentColor(Snap(nodes), root, nil, c, f);
      while p.up.color == Red
        invariant RepAt(Snap(nodes), root, nil, c, f) && InsInv(c, f) && IsRed(f) && f.item == p
        invariant SameWalk(c0, f0, c, f)
        invariant p in nodes && p.up in nodes && (p.up.color == Red <==> !c.Top? && c.color == Red)
        decreases Depth(c)
      {
        p, c, f := InsBalRound(p, c, f);
        ParentColor(Snap(nodes), root, nil, c, f);
      }
      t := Plug(c, f);
      RepPlug(Snap(nodes), root, nil, c, f);
      InsDone(c, f);
    }

    // ---------- rebalancing after a deletion ----------

    // The deletion loop's invariant: one black node is missing above p, and p, even if it is
    // nil, points up to its parent.
    ghost predicate DelAt(c: Ctx, f: Tree, p: MapItem)
      reads this, nodes
    {
      && p in nodes && RepAt(Snap(nodes), root, nil, c, f) && DelInv(c, f)
      && p == Ptr(nil, f) && p.up == Par(root, c)
    }

    // Red sibling: it takes the parent's place above both.
    method DelLowerLeft(p: MapItem, uncle: MapItem)
      requires p in nodes && p.up in nodes && uncle == p.up.right && uncle in nodes
      requires p.up.up in nodes && uncle.left in nodes
      modifies nodes`left, nodes`right, nodes`up, nodes`color
      ensures Snap(nodes) ==
        RotLeft(SetColor(SetColor(old(Snap(nodes)), uncle, Black), old(p.up), Red), nil, old(p.up))
    {
      hide RotLeft;
      PutColor(uncle, Black);
      PutColor(p.up, Red);
      RotateLeft(p.up);
    }

    // Red inner nephew: it takes the sibling's place.
    method DelInnerLeftTurn(uncle: MapItem)
      requires uncle in nodes && uncle.up in nodes && uncle.left in nodes && uncle.left.right in nodes
      modifies nodes`left, nodes`right, nodes`up, nodes`color
      ensures Snap(nodes) ==
        RotRight(SetColor(SetColor(old(Snap(nodes)), old(uncle.left), Black), uncle, Red), nil, uncle)
    {
      hide RotRight;
      PutColor(uncle.left, Black);
      PutColor(uncle, Red);
      RotateRight(uncle);
    }

    // Red outer nephew: the sibling takes the parent's place and colour.
    method DelOuterLeftTurn(p: MapItem, uncle: MapItem)
      requires p in nodes && p.up in nodes && uncle == p.up.right && uncle in nodes
      requires p.up.up in nodes && uncle.left in nodes && uncle.right in nodes
      modifies nodes`left, nodes`right, nodes`up, nodes`color
      ensures Snap(nodes) ==
        RotLeft(SetColor(SetColor(SetColor(old(Snap(nodes)), uncle, old(p.up.color)), old(p.up), Black),
                         old(uncle.right), Black), nil, old(p.up))
    {
      hide RotLeft;
      PutColor(uncle, p.up.color);
      PutColor(p.up, Black);
      PutColor(uncle.right, Black);
      RotateLeft(p.up);
    }

    // First part of a round with p a left child: afterwards the sibling is not red.
    method DelSinkLeft(p: MapItem, ghost c0: Ctx, ghost f: Tree) returns (uncle: MapItem, ghost c: Ctx)
      requires DelAt(c0, f, p) && !IsRed(f) && c0.InL?
      modifies nodes`left, nodes`right, nodes`up, nodes`color
      ensures DelAt(c, f, p) && c.InL? && SameWalk(c0, f, c, f)
      ensures Sibling(c).Node? && !IsRed(Sibling(c)) && uncle == Sibling(c).item
      ensures c == c0 || c.color == Red
    {
      hide RepAt, DelInv, RotLeft;
      c := c0;
      DelSibling(c0, f);
      Family(Snap(nodes), root, nil, c0, f);
      uncle := p.up.right;
      if uncle.color == Red {
        DelRedLeft(Snap(nodes), root, nil, c0, f);
        DelRedLeftInv(c0, f);
        DelLowerLeft(p, uncle);
        c := InL(InL(c0.up, uncle, Black, c0.right.right), c0.item, Red, c0.right.left);
        FocusUp(Snap(nodes), root, nil, c, f);
        Family(Snap(nodes), root, nil, c, f);
        uncle := p.up.right;
      }
    }

    // Second part, when only the inner nephew is red: afterwards the outer one is.
    method DelTurnLeft(p: MapItem, uncle0: MapItem, ghost c0: Ctx, ghost f: Tree) returns (uncle: MapItem, ghost c: Ctx)
      requires DelAt(c0, f, p) && !IsRed(f) && c0.InL?
      requires var s := Sibling(c0); s.Node? && !IsRed(s) && uncle0 == s.item && IsRed(s.left) && !IsRed(s.right)
      modifies nodes`left, nodes`right, nodes`up, nodes`color
      ensures DelAt(c, f, p) && c.InL? && SameWalk(c0, f, c, f)
      ensures var s := Sibling(c); s.Node? && !IsRed(s) && uncle == s.item && IsRed(s.right)
    {
      hide RepAt, DelInv, RotLeft;
      Family(Snap(nodes), root, nil, c0, f);
      DelInnerLeft(Snap(nodes), root, nil, c0, f);
      DelInnerLeftInv(c0, f);
      DelInnerLeftTurn(uncle0);
      ghost var s := c0.right;
      c := WithSibling(c0, Node(s.left.left, s.left.item, Black, Node(s.left.right, s.item, Red, s.right)));
      FocusUp(Snap(nodes), root, nil, c, f);
      Family(Snap(nodes), root, nil, c, f);
      uncle := p.up.right;
    }

    // No red nephew: the sibling turns red and the round ends one level up.
    method DelPush(p0: MapItem, uncle: MapItem, ghost c: Ctx, ghost f0: Tree) returns (p: MapItem, ghost f: Tree)
      requires DelAt(c, f0, p0) && !IsRed(f0) && !c.Top?
      requires var s := Sibling(c);
        s.Node? && !IsRed(s) && uncle == s.item && !IsRed(s.left) && !IsRed(s.right)
      modifies nodes`color
      ensures DelAt(c.up, f, p) && SameWalk(c, f0, c.up, f) && (IsRed(f) <==> c.color == Red)
    {
      hide RepAt, DelInv;
      Family(Snap(nodes), root, nil, c, f0);
      DelPushUp(Snap(nodes), root, nil, c, f0);
      DelPushUpInv(c, f0);
      PutColor(uncle, Red);
      p := p0.up;
      f := Fill(WithSibling(c, Sibling(c).(color := Red)), f0);
      FocusUp(Snap(nodes), root, nil, c.up, f);
    }

    // One round with p a left child: either the missing black node moves up, or the last
    // rotation repays it (done).
    method DelBalLeft(p0: MapItem, ghost c0: Ctx, ghost f0: Tree)
      returns (p: MapItem, done: bool, ghost c: Ctx, ghost f: Tree)
      requires DelAt(c0, f0, p0) && !IsRed(f0) && c0.InL?
      modifies nodes`left, nodes`right, nodes`up, nodes`color
      ensures SameWalk(c0, f0, c, f)
      ensures done ==> RepAt(Snap(nodes), root, nil, c, f) && RedBlack(Plug(c, f)) && !IsRed(f) && p == Ptr(nil, f)
      ensures !done ==> DelAt(c, f, p) && DelMeasure(c, f) < DelMeasure(c0, f0)
    {
      hide RepAt, DelInv, RotLeft;
      p, done, f := p0, false, f0;
      var uncle;
      uncle, c := DelSinkLeft(p, c0, f);
      Family(Snap(nodes), root, nil, c, f);
      if uncle.right.color != Red {
        if uncle.left.color != Red {
          p, f := DelPush(p, uncle, c, f);
          c := c.up;
          return;
        }
        uncle, c := DelTurnLeft(p, uncle, c, f);
        Family(Snap(nodes), root, nil, c, f);
      }
      DelOuterLeft(Snap(nodes), root, nil, c, f);
      DelOuterLeftInv(c, f);
      DelOuterLeftTurn(p, uncle);
      done := true;
      ghost var s := c.right;
      c := InL(InL(c.up, s.item, c.color, s.right.(color := Black)), c.item, Black, s.left);
    }

    // Red sibling: it takes the parent's place above both.
    method DelLowerRight(p: MapItem, uncle: MapItem)
      requires p in nodes && p.up in nodes && uncle == p.up.left && uncle in nodes
      requires p.up.up in nodes && uncle.right in nodes
      modifies nodes`left, nodes`right, nodes`up, nodes`color
      ensures Snap(nodes) ==
        RotRight(SetColor(SetColor(old(Snap(nodes)), uncle, Black), old(p.up), Red), nil, old(p.up))
    {
      hide RotRight;
      PutColor(uncle, Black);
      PutColor(p.up, Red);
      RotateRight(p.up);
    }

    // Red inner nephew: it takes the sibling's place.
    method DelInnerRightTurn(uncle: MapItem)
      requires uncle in nodes && uncle.up in nodes && uncle.right in nodes && uncle.right.left in nodes
      modifies nodes`left, nodes`right, nodes`up, nodes`color
      ensures Snap(nodes) ==
        RotLeft(SetColor(SetColor(old(Snap(nodes)), old(uncle.right), Black), uncle, Red), nil, uncle)
    {
      hide RotLeft;
      PutColor(uncle.right, Black);
      PutColor(uncle, Red);
      RotateLeft(uncle);
    }

    // Red outer nephew: the sibling takes the parent's place and colour.
    method DelOuterRightTurn(p: MapItem, uncle: MapItem)
      requires p in nodes && p.up in nodes && uncle == p.up.left && uncle in nodes
      requires p.up.up in nodes && uncle.right in nodes && uncle.left in nodes
      modifies nodes`left, nodes`right, nodes`up, nodes`color
      ensures Snap(nodes) ==
        RotRight(SetColor(SetColor(SetColor(old(Snap(nodes)), uncle, old(p.up.color)), old(p.up), Black),
                         old(uncle.left), Black), nil, old(p.up))
    {
      hide RotRight;
      PutColor(uncle, p.up.color);
      PutColor(p.up, Black);
      PutColor(uncle.left, Black);
      RotateRight(p.up);
    }

    // First part of a round with p a right child: afterwards the sibling is not red.
    method DelSinkRight(p: MapItem, ghost c0: Ctx, ghost f: Tree) returns (uncle: MapItem, ghost c: Ctx)
      requires DelAt(c0, f, p) && !IsRed(f) && c0.InR?
      modifies nodes`left, nodes`right, nodes`up, nodes`color
      ensures DelAt(c, f, p) && c.InR? && SameWalk(c0, f, c, f)
      ensures Sibling(c).Node? && !IsRed(Sibling(c)) && uncle == Sibling(c).item
      ensures c == c0 || c.color == Red
    {
      hide RepAt, DelInv, RotRight;
      c := c0;
      DelSibling(c0, f);
      Family(Snap(nodes), root, nil, c0, f);
      uncle := p.up.left;
      if uncle.color == Red {
        DelRedRight(Snap(nodes), root, nil, c0, f);
        DelRedRightInv(c0, f);
        DelLowerRight(p, uncle);
        c := InR(InR(c0.up, c0.left.left, uncle, Black), c0.left.right, c0.item, Red);
        FocusUp(Snap(nodes), root, nil, c, f);
        Family(Snap(nodes), root, nil, c, f);
        uncle := p.up.left;
      }
    }

    // Second part, when only the inner nephew is red: afterwards the outer one is.
    method DelTurnRight(p: MapItem, uncle0: MapItem, ghost c0: Ctx, ghost f: Tree)
      returns (uncle: MapItem, ghost c: Ctx)
      requires DelAt(c0, f, p) && !IsRed(f) && c0.InR?
      requires var s := Sibling(c0); s.Node? && !IsRed(s) && uncle0 == s.item && IsRed(s.right) && !IsRed(s.left)
      modifies nodes`left, nodes`right, nodes`up, nodes`color
      ensures DelAt(c, f, p) && c.InR? && SameWalk(c0, f, c, f)
      ensures var s := Sibling(c); s.Node? && !IsRed(s) && uncle == s.item && IsRed(s.left)
    {
      hide RepAt, DelInv, RotRight;
      Family(Snap(nodes), root, nil, c0, f);
      DelInnerRight(Snap(nodes), root, nil, c0, f);
      DelInnerRightInv(c0, f);
      DelInnerRightTurn(uncle0);
      ghost var s := c0.left;
      c := WithSibling(c0, Node(Node(s.left, s.item, Red, s.right.left), s.right.item, Black, s.right.right));
      FocusUp(Snap(nodes), root, nil, c, f);
      Family(Snap(nodes), root, nil, c, f);
      uncle := p.up.left;
    }

    // One round with p a right child: either the missing black node moves up, or the last
    // rotation repays it (done).
    method DelBalRight(p0: MapItem, ghost c0: Ctx, ghost f0: Tree)
      returns (p: MapItem, done: bool, ghost c: Ctx, ghost f: Tree)
      requires DelAt(c0, f0, p0) && !IsRed(f0) && c0.InR?
      modifies nodes`left, nodes`right, nodes`up, nodes`color
      ensures SameWalk(c0, f0, c, f)
      ensures done ==> RepAt(Snap(nodes), root, nil, c, f) && RedBlack(Plug(c, f)) && !IsRed(f) && p == Ptr(nil, f)
      ensures !done ==> DelAt(c, f, p) && DelMeasure(c, f) < DelMeasure(c0, f0)
    {
      hide RepAt, DelInv, RotRight;
      p, done, f := p0, false, f0;
      var uncle;
      uncle, c := DelSinkRight(p, c0, f);
      Family(Snap(nodes), root, nil, c, f);
      if uncle.left.color != Red {
        if uncle.right.color != Red {
          p, f := DelPush(p, uncle, c, f);
          c := c.up;
          return;
        }
        uncle, c := DelTurnRight(p, uncle, c, f);
        Family(Snap(nodes), root, nil, c, f);
      }
      DelOuterRight(Snap(nodes), root, nil, c, f);
      DelOuterRightInv(c, f);
      DelOuterRightTurn(p, uncle);
      done := true;
      ghost var s := c.left;
      c := InR(InR(c.up, s.left.(color := Black), s.item, c.color), s.right, c.item, Black);
    }

    // The loop body: which side p is on decides the direction of the rotations.
    method DelBalRound(p0: MapItem, ghost c0: Ctx, ghost f0: Tree)
      returns (p: MapItem, done: bool, ghost c: Ctx, ghost f: Tree)
      requires DelAt(c0, f0, p0) && !IsRed(f0) && !c0.Top?
      modifies nodes`left, nodes`right, nodes`up, nodes`color
      ensures SameWalk(c0, f0, c, f)
      ensures done ==> RepAt(Snap(nodes), root, nil, c, f) && RedBlack(Plug(c, f)) && !IsRed(f) && p == Ptr(nil, f)
      ensures !done ==> DelAt(c, f, p) && DelMeasure(c, f) < DelMeasure(c0, f0)
    {
      hide RepAt, DelInv;
      DelSibling(c0, f0);
      Family(Snap(nodes), root, nil, c0, f0);
      if p0.up.left == p0 {
        p, done, c, f := DelBalLeft(p0, c0, f0);
      } else {
        p, done, c, f := DelBalRight(p0, c0, f0);
      }
    }

    // __cl_map_del_bal
    method DelBal(p0: MapItem, ghost c0: Ctx, ghost f0: Tree) returns (ghost t: Tree)
      requires DelAt(c0, f0, p0)
      modifies nodes`left, nodes`right, nodes`up, nodes`color
      ensures Rep(Snap(nodes), root, nil, t)
      ensures InOrder(t) == InOrder(Plug(c0, f0)) && RedBlack(t)
    {
      hide RepAt, DelInv;
      var p := p0;
      var done := false;
      ghost var c, f := c0, f0;
      DelGuard(Snap(nodes), root, nil, c, f);
      while !done && p.color != Red && p.up != root
        invariant SameWalk(c0, f0, c, f)
        invariant done ==> RepAt(Snap(nodes), root, nil, c, f) && RedBlack(Plug(c, f)) && !IsRed(f) && p == Ptr(nil, f)
        invariant !done ==> DelAt(c, f, p) && (p.color == Red <==> IsRed(f)) && (p.up == root <==> c.Top?)
        decreases if done then 0 else 1, DelMeasure(c, f)
      {
        p, done, c, f := DelBalRound(p, c, f);
        DelGuard(Snap(nodes), root, nil, c, f);
      }
      if !done {
        DelDone(c, f);
      }
      Blackening(Snap(nodes), root, nil, c, f);
      PutColor(p, Black);
      t := Plug(c, Blacken(f));
    }

    // ---------- searching ----------

    // A search for key has narrowed the tree down to focus f.  A search that keeps right on a
    // match (eq) leaves equivalent keys on the left.
    ghost predicate Searching(c: Ctx, f: Tree, key: int, eq: bool)
      reads this, nodes, Pre(c)`key, Post(c)`key
    {
      && RepAt(Snap(nodes), root, nil, c, f) && Plug(c, f) == tree
      && Pre(c) + InOrder(f) + Post(c) == Walk()
      && After(cmp, key, Pre(c), eq) && Before(cmp, key, Post(c))
    }

    lemma SearchStart(key: int, eq: bool)
      requires Valid()
      ensures Searching(Top, tree, key, eq) && root.left == Ptr(nil, tree)
    {
      RepPlug(Snap(nodes), root, nil, Top, tree);
      assert Pre(Top) + InOrder(tree) + Post(Top) == Walk();
    }

    lemma SearchLeft(c: Ctx, f: Tree, key: int, eq: bool)
      requires Searching(c, f, key, eq) && f.Node? && cmp(key, f.item.key) < 0
      requires TotalPreorder(cmp) && Sorted(cmp, Walk())
      ensures Searching(InL(c, f.item, f.color, f.right), f.left, key, eq)
    {
      hide RepAt, Before, After, Sorted, TotalPreorder;
      Refocus(Snap(nodes), root, nil, c, f, InL(c, f.item, f.color, f.right), f.left);
      AssocLeft(Pre(c), InOrder(f.left), f.item, InOrder(f.right), Post(c));
      AssocMiddle(Pre(c), InOrder(f.left), f.item, InOrder(f.right), Post(c));
      SortedSides(cmp, Pre(c) + InOrder(f.left), f.item, InOrder(f.right) + Post(c), key, eq);
    }

    lemma SearchRight(c: Ctx, f: Tree, key: int, eq: bool)
      requires Searching(c, f, key, eq) && f.Node?
      requires cmp(key, f.item.key) > 0 || (eq && cmp(key, f.item.key) == 0)
      requires TotalPreorder(cmp) && Sorted(cmp, Walk())
      ensures Searching(InR(c, f.left, f.item, f.color), f.right, key, eq)
    {
      hide RepAt, Before, After, Sorted, TotalPreorder;
      Refocus(Snap(nodes), root, nil, c, f, InR(c, f.left, f.item, f.color), f.right);
      AssocRight(Pre(c), InOrder(f.left), f.item, InOrder(f.right), Post(c));
      AssocMiddle(Pre(c), InOrder(f.left), f.item, InOrder(f.right), Post(c));
      SortedSides(cmp, Pre(c) + InOrder(f.left), f.item, InOrder(f.right) + Post(c), key, eq);
    }

    // What the search reads.
    lemma SearchCell(c: Ctx, f: Tree, key: int, eq: bool)
      requires Searching(c, f, key, eq)
      ensures Ptr(nil, f) in nodes
      ensures f.Node? ==>
        && f.item != nil && f.item in Walk() && Ptr(nil, f) == f.item
        && f.item.left == Ptr(nil, f.left) && f.item.right == Ptr(nil, f.right) && f.item.up == Par(root, c)
    {
      SubtreeCell(Snap(nodes), root, nil, c, f);
      if f.Node? {
        assert f.item in InOrder(f);
        assert f.item in Pre(c) + InOrder(f) + Post(c);
        assert Snap(nodes)[f.item] == Cell(f.item.left, f.item.right, f.item.up, f.item.color);
      }
    }

    // An empty focus means that the key lies between the two sides of its context.
    lemma SearchMiss(c: Ctx, key: int)
      requires Searching(c, Leaf, key, false)
      ensures forall y | y in Walk() :: cmp(key, y.key) != 0
    {
      assert Walk() == Pre(c) + Post(c);
    }

    // cl_qmap_get.  The item with that key, or nil; the path is at most 2 * log2(count + 1).
    method Get(key: int) returns (p: MapItem, ghost steps: nat)
      requires Valid()
      ensures p == nil ==> forall y | y in Walk() :: cmp(key, y.key) != 0
      ensures p != nil ==> p in Walk() && cmp(key, p.key) == 0
      ensures Pow2((steps + 1) / 2) <= count + 1
    {
      hide Searching, Rep, RedBlack, Threaded, Sorted, TotalPreorder;
      ghost var c, f := Top, tree;
      SearchStart(key, false);
      SearchCell(c, f, key, false);
      p, steps := root.left, 0;
      while p != nil
        invariant Searching(c, f, key, false) && p == Ptr(nil, f) && Sorted(cmp, Walk())
        invariant steps + Height(f) <= Height(tree)
        decreases f
      {
        steps := steps + 1;
        SearchCell(c, f, key, false);
        if cmp(key, p.key) == 0 {
          break;
        }
        if cmp(key, p.key) < 0 {
          SearchLeft(c, f, key, false);
          c, f := InL(c, f.item, f.color, f.right), f.left;
          p := p.left;
        } else {
          SearchRight(c, f, key, false);
          c, f := InR(c, f.left, f.item, f.color), f.right;
          p := p.right;
        }
      }
      SearchCell(c, f, key, false);
      if p == nil {
        SearchMiss(c, key);
      }
      HeightBound(tree);
      Pow2Monotone((steps + 1) / 2, (Height(tree) + 1) / 2);
    }

    // cl_qmap_get_next.  The first item whose key comes after the given one, or nil.
    method GetNext(key: int) returns (found: MapItem)
      requires Valid()
      ensures found == nil ==> forall y | y in Walk() :: cmp(key, y.key) >= 0
      ensures found != nil ==>
        && found in Walk() && cmp(key, found.key) < 0
        && forall y | y in Walk() :: cmp(key, y.key) < 0 ==> y == found || cmp(found.key, y.key) < 0
    {
      hide Searching, Rep, RedBlack, Threaded, Sorted, TotalPreorder;
      ghost var c, f := Top, tree;
      SearchStart(key, true);
      SearchCell(c, f, key, true);
      var p := root.left;
      found := nil;
      while p != nil
        invariant Searching(c, f, key, true) && p == Ptr(nil, f) && Sorted(cmp, Walk())
        invariant found == At(nil, Post(c), 0)
        decreases f
      {
        SearchCell(c, f, key, true);
        if cmp(key, p.key) < 0 {
          SearchLeft(c, f, key, true);
          c, f := InL(c, f.item, f.color, f.right), f.left;
          found := p;
          p := p.left;
        } else {
          SearchRight(c, f, key, true);
          c, f := InR(c, f.left, f.item, f.color), f.right;
          p := p.right;
        }
      }
      SearchCell(c, f, key, true);
      NextFound(c, key);
    }

    lemma NextFound(c: Ctx, key: int)
      requires Searching(c, Leaf, key, true) && Sorted(cmp, Walk())
      ensures var found := At(nil, Post(c), 0);
        if found == nil then forall y | y in Walk() :: cmp(key, y.key) >= 0
        else
          && found in Walk() && cmp(key, found.key) < 0
          && forall y | y in Walk() :: cmp(key, y.key) < 0 ==> y == found || cmp(found.key, y.key) < 0
    {
      hide Rep, RepAt, Sorted, NoDup;
      var a, b := Pre(c), Post(c);
      assert Walk() == a + b by {
        assert InOrder(Leaf) == [];
      }
      assert After(cmp, key, a, true) && Before(cmp, key, b);
      FirstAfter(cmp, a, b, key);
      if b != [] {
        RepItems(Snap(nodes), root, nil, c, Leaf);
        assert b[0] in Pre(c) + InOrder(Leaf) + Post(c);
      }
    }

    // ---------- cl_qmap_insert ----------

    // Its search: an item with an equivalent key, or the empty slot where one belongs.
    method FindSlot(key: int) returns (at: MapItem, hit: bool, ghost c: Ctx, ghost f: Tree)
      requires Valid()
      ensures Searching(c, f, key, false)
      ensures hit ==> f.Node? && at == f.item && at in Walk() && at in nodes && cmp(key, at.key) == 0
      ensures !hit ==> f.Leaf? && at == Par(root, c)
      ensures !hit && !c.Top? ==> (cmp(key, at.key) < 0 <==> c.InL?)
    {
      hide Searching, Rep, RedBlack, Threaded, Sorted, TotalPreorder;
      c, f := Top, tree;
      SearchStart(key, false);
      SearchCell(c, f, key, false);
      var p := root.left;
      at, hit := root, false;
      while p != nil
        invariant Searching(c, f, key, false) && p == Ptr(nil, f) && Sorted(cmp, Walk())
        invariant at == Par(root, c) && (!c.Top? ==> (cmp(key, at.key) < 0 <==> c.InL?))
        decreases f
      {
        SearchCell(c, f, key, false);
        at := p;
        if cmp(key, at.key) == 0 {
          hit := true;
          return;
        }
        if cmp(key, at.key) < 0 {
          SearchLeft(c, f, key, false);
          c, f := InL(c, f.item, f.color, f.right), f.left;
          p := at.left;
        } else {
          SearchRight(c, f, key, false);
          c, f := InR(c, f.left, f.item, f.color), f.right;
          p := at.right;
        }
      }
      SearchCell(c, f, key, false);
    }

    // __cl_primitive_insert: x goes in front of q.
    method LinkBefore(q: MapItem, x: MapItem)
      requires q in nodes && q.prev in nodes && x !in nodes
      modifies x`next, x`prev, q`prev, q.prev`next
      ensures SnapLinks(nodes + {x}) == InsertBefore(old(SnapLinks(nodes)), q, x)
    {
      x.next := q;
      x.prev := q.prev;
      q.prev := x;
      x.prev.next := x;
    }

    // The tree links of the new leaf.
    method Hang(x: MapItem, at: MapItem, right: bool, ghost c: Ctx)
      requires at in nodes && x !in nodes && at == Par(root, c) && right == c.InR?
      requires x.left == x.right == nil && x.color == Red
      modifies x`up, at`left, at`right
      ensures Snap(nodes + {x}) == Attach(old(Snap(nodes)), root, nil, c, x)
    {
      if right {
        at.right := x;
      } else {
        at.left := x;
      }
      x.up := at;
    }

    // The new leaf's links, in the tree and in the thread.
    method Place(key: int, x: MapItem, at: MapItem, ghost c: Ctx, ghost q: MapItem)
      requires x !in nodes && x.left == x.right == nil && x.color == Red
      requires at in nodes && at == Par(root, c) && (at == root <==> c.Top?)
      requires !c.Top? ==> (cmp(key, at.key) < 0 <==> c.InL?)
      requires q in nodes && q.prev in nodes
      requires q == match c case Top => nil case InL(_, y, _, _) => y case InR(_, _, y, _) => y.next
      modifies at`left, at`right, q`prev, q.prev`next, x`up, x`next, x`prev
      ensures Snap(nodes + {x}) == Attach(old(Snap(nodes)), root, nil, c, x)
      ensures SnapLinks(nodes + {x}) == InsertBefore(old(SnapLinks(nodes)), q, x)
    {
      hide Attach, InsertBefore, Snap, SnapLinks;
      if at == root {
        Hang(x, at, false, c);
        LinkBefore(nil, x);
      } else if cmp(key, at.key) < 0 {
        Hang(x, at, false, c);
        LinkBefore(at, x);
      } else {
        Hang(x, at, true, c);
        LinkBefore(at.next, x);
      }
    }

    // __cl_map_ins_bal, then the root turns black.
    method Rebalance(x: MapItem, ghost c: Ctx, ghost f: Tree) returns (ghost t: Tree)
      requires RepAt(Snap(nodes), root, nil, c, f) && InsInv(c, f) && IsRed(f) && f.item == x
      modifies nodes`left, nodes`right, nodes`up, nodes`color
      ensures Rep(Snap(nodes), root, nil, t)
      ensures InOrder(t) == InOrder(Plug(c, f)) && RedBlack(t)
    {
      hide RepAt, InsInv, RedBlack, NoDup;
      t := InsBal(x, c, f);
      RepPlug(Snap(nodes), root, nil, Top, t);
      Blackening(Snap(nodes), root, nil, Top, t);
      PutColor(root.left, Black);
      t := Blacken(t);
    }

    // With the new leaf in place, rebalancing restores the map.
    method FinishInsert(x: MapItem, ghost c: Ctx)
      requires TotalPreorder(cmp) && nodes == {root, nil} + Items(tree) + {x}
      requires InOrder(tree) == Pre(c) + Post(c)
      requires var f := Node(Leaf, x, Red, Leaf);
        RepAt(Snap(nodes), root, nil, c, f) && InsInv(c, f) && InOrder(Plug(c, f)) == Pre(c) + [x] + Post(c)
      requires Threaded(SnapLinks(nodes), nil, Pre(c) + [x] + Post(c))
      requires Sorted(cmp, Pre(c) + [x] + Post(c)) && count == |Pre(c) + [x] + Post(c)|
      modifies `tree, nodes`left, nodes`right, nodes`up, nodes`color
      ensures Valid() && Walk() == Pre(c) + [x] + Post(c)
    {
      hide Valid, RepAt, Rep, RedBlack, Threaded, Sorted, TotalPreorder, Items, InsInv, Snap, SnapLinks, Ascending,
        KeysOf;
      ghost var s := Pre(c) + [x] + Post(c);
      ghost var ks := KeysOf(s);
      SortedKeys(cmp, s);
      ghost var t := Rebalance(x, c, Node(Leaf, x, Red, Leaf));
      ItemsInsert(tree, t, Pre(c), x, Post(c));
      tree := t;
      assert KeysOf(s) == ks;
      SortedKeys(cmp, s);
      ValidIntro();
    }

    // The second half of the insertion: the slot is known to be free.
    method InsertAt(key: int, x: MapItem, at: MapItem, ghost c: Ctx)
      requires Valid() && x !in nodes && x.key == key && x.left == x.right == nil && x.color == Red
      requires Searching(c, Leaf, key, false) && at == Par(root, c)
      requires !c.Top? ==> (cmp(key, at.key) < 0 <==> c.InL?)
      modifies this, nodes`left, nodes`right, nodes`up, nodes`color, nodes`next, nodes`prev, x`up, x`next, x`prev
      modifies x`left, x`right, x`color
      ensures Valid() && nodes == old(nodes) + {x}
      ensures Walk() == Pre(c) + [x] + Post(c)
    {
      hide Valid, RepAt, Rep, RedBlack, Threaded, Searching, Sorted, TotalPreorder, Attach, InsertBefore, Items, InsInv;
      hide Snap, SnapLinks, Ascending, KeysOf;
      ValidElim();
      SlotLinks(c, key);
      SlotValues(c, key, x);
      ghost var q := At(nil, Walk(), |Pre(c)|);
      ghost var s := Pre(c) + [x] + Post(c);
      ghost var ks := KeysOf(s);
      SortedKeys(cmp, s);
      Place(key, x, at, c, q);
      count := count + 1;
      nodes := nodes + {x};
      assert KeysOf(s) == ks;
      SortedKeys(cmp, s);
      FinishInsert(x, c);
    }

    lemma ValidElim()
      requires Valid()
      ensures TotalPreorder(cmp) && nodes == {root, nil} + Items(tree)
      ensures Rep(Snap(nodes), root, nil, tree) && RedBlack(tree) && Threaded(SnapLinks(nodes), nil, Walk())
      ensures Sorted(cmp, Walk()) && count == |Walk()|
    {
    }

    lemma Outside(x: MapItem)
      requires nodes == {root, nil} + Items(tree) && x !in nodes
      ensures x != nil && x !in Walk()
    {
    }

    lemma ValidIntro()
      requires TotalPreorder(cmp) && nodes == {root, nil} + Items(tree)
      requires Rep(Snap(nodes), root, nil, tree) && RedBlack(tree) && Threaded(SnapLinks(nodes), nil, Walk())
      requires Sorted(cmp, Walk()) && count == |Walk()|
      ensures Valid()
    {
    }

    // What the links of the new leaf will spell out.
    lemma SlotValues(c: Ctx, key: int, x: MapItem)
      requires Valid() && Searching(c, Leaf, key, false) && x !in nodes && x.key == key
      ensures TotalPreorder(cmp) && nodes == {root, nil} + Items(tree) && count == |Walk()|
      ensures RepAt(Attach(Snap(nodes), root, nil, c, x), root, nil, c, Node(Leaf, x, Red, Leaf))
      ensures InsInv(c, Node(Leaf, x, Red, Leaf))
      ensures InOrder(Plug(c, Node(Leaf, x, Red, Leaf))) == Pre(c) + [x] + Post(c)
      ensures Walk() == Pre(c) + Post(c) && Sorted(cmp, Pre(c) + [x] + Post(c))
      ensures var q := At(nil, Walk(), |Pre(c)|);
        && q in nodes && q.prev in nodes
        && Threaded(InsertBefore(SnapLinks(nodes), q, x), nil, Pre(c) + [x] + Post(c))
    {
      hide Valid, RepAt, Rep, RedBlack, Attach, InsertBefore, Joined, Threaded, Sorted, TotalPreorder, NoDup, Items;
      hide Snap, SnapLinks;
      ValidElim();
      Outside(x);
      SlotLinks(c, key);
      AttachRep(Snap(nodes), root, nil, c, x);
      InsStart(c, x);
      InOrderPlug(c, Node(Leaf, x, Red, Leaf));
      assert Walk()[..|Pre(c)|] == Pre(c) && Walk()[|Pre(c)|..] == Post(c);
      InsertThreaded(SnapLinks(nodes), nil, Walk(), |Pre(c)|, x);
      SortedInsert(cmp, Pre(c), x, Post(c));
    }

    // The item in front of which a new leaf of context c is threaded in.
    lemma SlotLinks(c: Ctx, key: int)
      requires Threaded(SnapLinks(nodes), nil, Walk()) && Searching(c, Leaf, key, false)
      ensures Par(root, c) in nodes && (Par(root, c) == root <==> c.Top?)
      ensures Walk() == Pre(c) + Post(c) && nil in nodes
      ensures var q := At(nil, Walk(), |Pre(c)|);
        && q in nodes && q.prev in nodes
        && q == (match c case Top => nil case InL(_, y, _, _) => y case InR(_, _, y, _) => y.next)
    {
      hide RepAt, Rep, RedBlack;
      FocusUp(Snap(nodes), root, nil, c, Leaf);
      DelGuard(Snap(nodes), root, nil, c, Leaf);
      assert Walk() == Pre(c) + Post(c);
      var i := |Pre(c)|;
      assert Joined(SnapLinks(nodes), At(nil, Walk(), i - 1), At(nil, Walk(), i));
    }

    // Inserting x under a key: x joins the walk at its place, unless an item with an equivalent
    // key is there, which is then returned and the map left alone.
    method Insert(key: int, x: MapItem) returns (r: MapItem, ghost pos: nat)
      requires Valid() && x !in nodes
      modifies this, nodes, x
      ensures Valid() && x.key == key
      ensures forall y | y in old(nodes) :: y.key == old(y.key)
      ensures r != x ==>
        r in Walk() && cmp(key, r.key) == 0 && Walk() == old(Walk()) && nodes == old(nodes)
      ensures r == x ==>
        && nodes == old(nodes) + {x} && pos <= |old(Walk())|
        && Walk() == old(Walk())[..pos] + [x] + old(Walk())[pos..]
    {
      hide Valid, Searching;
      x.left := nil;
      x.right := nil;
      x.key := key;
      x.color := Red;
      var at, hit;
      ghost var c, f;
      at, hit, c, f := FindSlot(key);
      pos := |Pre(c)|;
      if hit {
        return at, pos;
      }
      SlotWalk(c, key);
      InsertAt(key, x, at, c);
      r := x;
    }

    lemma SlotWalk(c: Ctx, key: int)
      requires Searching(c, Leaf, key, false)
      ensures |Pre(c)| <= |Walk()| && Walk()[..|Pre(c)|] == Pre(c) && Walk()[|Pre(c)|..] == Post(c)
    {
      assert Walk() == Pre(c) + Post(c);
    }

    // ---------- cl_qmap_remove_item ----------

    // __cl_primitive_remove
    method Unthread(x: MapItem)
      requires x in nodes && x.next in nodes && x.prev in nodes
      modifies nodes`next, nodes`prev
      ensures SnapLinks(nodes) == Unlink(old(SnapLinks(nodes)), x)
    {
      x.next.prev := x.prev;
      x.prev.next := x.next;
    }

    // The child of d takes d's place.
    method Bypass(d: MapItem, p: MapItem)
      requires d in nodes && p in nodes && d.up in nodes && p != d
      modifies nodes`left, nodes`right, nodes`up
      ensures Snap(nodes) == RbEdit.Splice(old(Snap(nodes)), d, p)
    {
      PutUp(p, d.up);
      PutChild(d, p);
    }

    method Copy(x: MapItem, d: MapItem)
      requires x in nodes && d in nodes && d != x
      modifies d`left, d`right, d`up
      ensures Snap(nodes) == CopyLinks(old(Snap(nodes)), x, d)
    {
      PutUp(d, x.up);
      PutLeft(d, x.left);
      PutRight(d, x.right);
    }

    // Item d, already out of the tree, takes the place of x.
    method Substitute(x: MapItem, d: MapItem)
      requires x in nodes && d in nodes && d != x
      requires x.up in nodes && x.left in nodes && x.right in nodes
      modifies nodes`left, nodes`right, nodes`up, nodes`color
      ensures Snap(nodes) == Replace(old(Snap(nodes)), x, d)
    {
      Copy(x, d);
      PutChild(x, d);
      PutUp(x.right, d);
      PutUp(x.left, d);
      PutColor(d, x.color);
    }

    // Taking an item with at most one child out of the tree, with rebalancing.
    method TakeOut(d: MapItem, ghost c: Ctx, ghost f: Tree) returns (ghost t: Tree)
      requires RepAt(Snap(nodes), root, nil, c, f) && RedBlack(Plug(c, f))
      requires f.Node? && f.item == d && (f.left.Leaf? || f.right.Leaf?)
      modifies nodes`left, nodes`right, nodes`up, nodes`color
      ensures Rep(Snap(nodes), root, nil, t) && RedBlack(t)
      ensures InOrder(t) == Pre(c) + InOrder(OnlyChild(f.left, f.right)) + Post(c)
    {
      hide RepAt, RedBlack, DelInv, NoDup, RbEdit.Splice;
      ghost var ch := OnlyChild(f.left, f.right);
      SpliceRep(Snap(nodes), root, nil, c, f.left, d, f.color, f.right);
      SubtreeCell(Snap(nodes), root, nil, c, f);
      LinkCell(d);
      var child := if d.left != nil then d.left else d.right;
      Bypass(d, child);
      InOrderPlug(c, ch);
      if d.color != Red {
        DelStart(c, f.left, d, f.right);
        t := DelBal(child, c, ch);
      } else {
        DelRed(c, f.left, d, f.right);
        RepPlug(Snap(nodes), root, nil, c, ch);
        t := Plug(c, ch);
      }
    }

    lemma LinkCell(x: MapItem)
      requires x in nodes
      ensures Snap(nodes)[x] == Cell(x.left, x.right, x.up, x.color)
    {
    }

    // Removing an item with at most one child: afterwards tree t spells the walk without it.
    method RemoveSimple(x: MapItem, ghost c: Ctx, ghost f: Tree)
      returns (ghost t: Tree, ghost a: seq<MapItem>, ghost b: seq<MapItem>)
      requires RepAt(Snap(nodes), root, nil, c, f) && RedBlack(Plug(c, f))
      requires f.Node? && f.item == x && (f.left.Leaf? || f.right.Leaf?)
      modifies nodes`left, nodes`right, nodes`up, nodes`color
      ensures Rep(Snap(nodes), root, nil, t) && RedBlack(t)
      ensures InOrder(Plug(c, f)) == a + [x] + b && InOrder(t) == a + b
    {
      hide RepAt, Rep, RedBlack, NoDup, Snap;
      a, b := Pre(c) + InOrder(f.left), InOrder(f.right) + Post(c);
      InOrderPlug(c, f);
      Regroup(Pre(c), InOrder(f.left), x, InOrder(f.right), Post(c));
      RegroupChild(c, f);
      t := TakeOut(x, c, f);
    }

    lemma RegroupChild(c: Ctx, f: Tree)
      requires f.Node? && (f.left.Leaf? || f.right.Leaf?)
      ensures Pre(c) + InOrder(OnlyChild(f.left, f.right)) + Post(c)
        == (Pre(c) + InOrder(f.left)) + (InOrder(f.right) + Post(c))
    {
    }

    // The item taken out, d, replaces x in the balanced tree.
    method PutInPlace(x: MapItem, d: MapItem, ghost t1: Tree, ghost a: seq<MapItem>, ghost b: seq<MapItem>)
      returns (ghost t: Tree)
      requires Rep(Snap(nodes), root, nil, t1) && RedBlack(t1) && InOrder(t1) == a + [x] + b
      requires d in nodes && d != root && d != nil && d !in InOrder(t1)
      modifies nodes`left, nodes`right, nodes`up, nodes`color
      ensures Rep(Snap(nodes), root, nil, t) && RedBlack(t) && InOrder(t) == a + [d] + b
    {
      hide RepAt, RedBlack, Replace;
      assert x in InOrder(t1);
      ghost var c, f := Path(t1, x, Top), Sub(t1, x);
      PathPlug(t1, x, Top);
      RepPlug(Snap(nodes), root, nil, c, f);
      InOrderPlug(c, f);
      ReplaceRep(Snap(nodes), root, nil, c, f.left, x, f.color, f.right, d);
      LinkCell(x);
      Substitute(x, d);
      ghost var f' := Node(f.left, d, f.color, f.right);
      t := Plug(c, f');
      RepPlug(Snap(nodes), root, nil, c, f');
      RenameRedBlack(c, f.left, x, f.color, f.right, d);
      InOrderPlug(c, f');
      Regroup(Pre(c), InOrder(f.left), x, InOrder(f.right), Post(c));
      Regroup(Pre(c), InOrder(f.left), d, InOrder(f.right), Post(c));
      OnePlace(Pre(c) + InOrder(f.left), x, InOrder(f.right) + Post(c), a, b);
    }

    // Removing an item with two children: its successor is taken out and put in its place.
    method RemoveInner(x: MapItem, d: MapItem, ghost c: Ctx, ghost f: Tree)
      returns (ghost t: Tree, ghost a: seq<MapItem>, ghost b: seq<MapItem>)
      requires RepAt(Snap(nodes), root, nil, c, f) && RedBlack(Plug(c, f))
      requires f.Node? && f.item == x && f.left.Node? && f.right.Node? && d == InOrder(f.right)[0]
      modifies nodes`left, nodes`right, nodes`up, nodes`color
      ensures Rep(Snap(nodes), root, nil, t) && RedBlack(t)
      ensures InOrder(Plug(c, f)) == a + [x] + b && InOrder(t) == a + b
    {
      hide RepAt, Rep, RedBlack, NoDup, Snap, Path, Sub;
      ghost var cd, fd := Path(f.right, d, InR(c, f.left, x, f.color)), Sub(f.right, d);
      PathPlug(f.right, d, InR(c, f.left, x, f.color));
      ghost var b1 := InOrder(fd.right) + Post(cd);
      a, b := Pre(c) + InOrder(f.left), [d] + b1;
      Successor(c, f, cd, fd, a, b1);
      ghost var t1 := TakeOut(d, cd, fd);
      t := PutInPlace(x, d, t1, a, b1);
    }

    // How the successor lies in tree and walk.
    lemma Successor(c: Ctx, f: Tree, cd: Ctx, fd: Tree, a: seq<MapItem>, b: seq<MapItem>)
      requires RepAt(Snap(nodes), root, nil, c, f) && f.Node? && f.right.Node?
      requires var d := InOrder(f.right)[0];
        cd == Path(f.right, d, InR(c, f.left, f.item, f.color)) && fd == Sub(f.right, d)
      requires fd.Node? && a == Pre(c) + InOrder(f.left) && b == InOrder(fd.right) + Post(cd)
      ensures var d, x := InOrder(f.right)[0], f.item;
        && Plug(cd, fd) == Plug(c, f) && RepAt(Snap(nodes), root, nil, cd, fd)
        && fd.item == d && fd.left.Leaf?
        && InOrder(Plug(c, f)) == a + [x] + ([d] + b)
        && Pre(cd) + InOrder(OnlyChild(fd.left, fd.right)) + Post(cd) == a + [x] + b
        && d in nodes && d != root && d != nil && d !in a + [x] + b
    {
      hide RepAt, Rep, Snap, NoDup;
      var d, x := InOrder(f.right)[0], f.item;
      RepPlug(Snap(nodes), root, nil, c, f);
      InOrderPlug(c, f);
      RepNoDup(Snap(nodes), root, nil, c, f);
      SuccessorContext(c, f.left, x, f.color, f.right);
      Refocus(Snap(nodes), root, nil, c, f, cd, fd);
      InOrderPlug(cd, fd);
      SuccessorWalk(Pre(c), InOrder(f.left), x, d, InOrder(fd.right), Post(cd));
      RepNoDup(Snap(nodes), root, nil, cd, fd);
      NoDupApart(a + [x], d, b);
      RepItems(Snap(nodes), root, nil, cd, fd);
    }

    lemma SuccessorWalk(p: seq<MapItem>, l: seq<MapItem>, x: MapItem, d: MapItem, r: seq<MapItem>, q: seq<MapItem>)
      ensures (p + (l + [x])) + ([] + [d] + r) + q == ((p + l) + [x]) + [d] + (r + q)
      ensures ((p + l) + [x]) + [d] + (r + q) == (p + l) + [x] + ([d] + (r + q))
      ensures (p + (l + [x])) + r + q == (p + l) + [x] + (r + q)
    {
    }

    // Where an item sits, in the tree and in the thread.
    lemma Locate(x: MapItem)
      requires Valid() && x in Walk()
      ensures var c, f := Path(tree, x, Top), Sub(tree, x);
        && Plug(c, f) == tree && f.Node? && f.item == x && RepAt(Snap(nodes), root, nil, c, f)
        && x in nodes && x != nil && x.next in nodes && x.prev in nodes
        && (x.left == nil <==> f.left.Leaf?) && (x.right == nil <==> f.right.Leaf?)
        && (f.right.Node? ==> x.next == InOrder(f.right)[0])
        && Walk() == (Pre(c) + InOrder(f.left)) + [x] + (InOrder(f.right) + Post(c))
    {
      hide Valid, RepAt, Rep, RedBlack, NoDup, Snap, SnapLinks, Path, Sub, Joined;
      ValidElim();
      PathPlug(tree, x, Top);
      var c, f := Path(tree, x, Top), Sub(tree, x);
      RepPlug(Snap(nodes), root, nil, c, f);
      InOrderPlug(c, f);
      SubtreeCell(Snap(nodes), root, nil, c, f);
      ChildCells(c, f);
      var i := |Pre(c) + InOrder(f.left)|;
      Regroup(Pre(c), InOrder(f.left), x, InOrder(f.right), Post(c));
      assert Walk()[i] == x;
      Neighbours(i);
    }

    lemma ChildCells(c: Ctx, f: Tree)
      requires RepAt(Snap(nodes), root, nil, c, f) && f.Node?
      ensures f.item in nodes && f.item.left == Ptr(nil, f.left) && f.item.right == Ptr(nil, f.right)
      ensures f.left.Node? ==> f.left.item != nil
      ensures f.right.Node? ==> f.right.item != nil
    {
      RepItems(Snap(nodes), root, nil, c, f);
      LinkCell(f.item);
      assert f.left.Node? ==> f.left.item in Pre(c) + InOrder(f) + Post(c);
      assert f.right.Node? ==> f.right.item in Pre(c) + InOrder(f) + Post(c);
    }

    lemma Neighbours(i: nat)
      requires Threaded(SnapLinks(nodes), nil, Walk()) && i < |Walk()|
      ensures var x := Walk()[i]; x in nodes && x.next in nodes && x.prev in nodes && x.next == At(nil, Walk(), i + 1)
    {
      UnlinkThreaded(SnapLinks(nodes), nil, Walk(), i);
      assert Walk()[i] in SnapLinks(nodes);
    }

    // What remains when x leaves: the walk in two parts, and the thread that joins them.
    lemma Leaving(x: MapItem, a: seq<MapItem>, b: seq<MapItem>)
      requires Valid() && Walk() == a + [x] + b
      ensures x in SnapLinks(nodes) && x.next in nodes && x.prev in nodes
      ensures SnapLinks(nodes)[x] == Link(x.next, x.prev)
      ensures Threaded(Unlink(SnapLinks(nodes), x), nil, a + b)
      ensures count == |a + b| + 1 && x != nil && x != root && x !in a + b
      ensures Walk()[|a|] == x && Walk()[..|a|] == a && Walk()[|a| + 1..] == b
    {
      hide Valid, RepAt, Rep, RedBlack, NoDup, Threaded, Sorted, TotalPreorder, Items, Unlink;
      ValidElim();
      CutWalk(Walk(), a, x, b);
      Neighbours(|a|);
      UnlinkThreaded(SnapLinks(nodes), nil, Walk(), |a|);
      assert x in Walk();
      RepItem(Snap(nodes), root, nil, tree, x);
      NoDupApart(a, x, b);
    }

    // cl_qmap_remove_item: exactly x leaves the walk; the end marker is ignored.
    method RemoveItem(x: MapItem) returns (ghost pos: nat)
      requires Valid() && (x == nil || x in Walk())
      modifies this, nodes
      ensures Valid()
      ensures forall y | y in old(nodes) :: y.key == old(y.key)
      ensures x == nil ==> Walk() == old(Walk()) && nodes == old(nodes)
      ensures x != nil ==>
        && pos < |old(Walk())| && old(Walk())[pos] == x
        && Walk() == old(Walk())[..pos] + old(Walk())[pos + 1..] && nodes == old(nodes) - {x}
    {
      hide Valid, RepAt, Rep, RedBlack, NoDup, Snap, SnapLinks, Path, Sub, Threaded, Sorted, TotalPreorder, Unlink;
      hide Items, InOrder, Plug, Pre, Post, Ascending, KeysOf;
      pos := 0;
      if x == nil {
        return;
      }
      Locate(x);
      ValidElim();
      ghost var c, f := Path(tree, x, Top), Sub(tree, x);
      ghost var a, b := Pre(c) + InOrder(f.left), InOrder(f.right) + Post(c);
      Leaving(x, a, b);
      var d := if x.right == nil || x.left == nil then x else x.next;
      ghost var s := Walk();
      ghost var ks := KeysOf(s);
      SortedKeys(cmp, s);
      Unthread(x);
      count := count - 1;
      ghost var t := Remove(x, d, c, f);
      pos := |a|;
      assert KeysOf(s) == ks;
      SortedKeys(cmp, s);
      Forget(x, t, a, b);
    }

    // The tree part of the removal; d is x itself or, if x has two children, its successor.
    method Remove(x: MapItem, d: MapItem, ghost c: Ctx, ghost f: Tree) returns (ghost t: Tree)
      requires RepAt(Snap(nodes), root, nil, c, f) && RedBlack(Plug(c, f)) && f.Node? && f.item == x
      requires d == if f.left.Leaf? || f.right.Leaf? then x else InOrder(f.right)[0]
      modifies nodes`left, nodes`right, nodes`up, nodes`color
      ensures Rep(Snap(nodes), root, nil, t) && RedBlack(t)
      ensures InOrder(t) == (Pre(c) + InOrder(f.left)) + (InOrder(f.right) + Post(c))
    {
      hide RepAt, Rep, RedBlack, Snap, NoDup;
      SuccessorNot(c, f);
      InOrderPlug(c, f);
      Regroup(Pre(c), InOrder(f.left), x, InOrder(f.right), Post(c));
      ghost var a, b;
      if d == x {
        t, a, b := RemoveSimple(x, c, f);
      } else {
        t, a, b := RemoveInner(x, d, c, f);
      }
      OnePlace(Pre(c) + InOrder(f.left), x, InOrder(f.right) + Post(c), a, b);
    }

    lemma SuccessorNot(c: Ctx, f: Tree)
      requires RepAt(Snap(nodes), root, nil, c, f) && f.Node?
      ensures f.right.Node? ==> InOrder(f.right)[0] != f.item
      ensures NoDup(Pre(c) + InOrder(f) + Post(c))
    {
      FocusApart(c, f);
      NoDupApart(InOrder(f.left), f.item, InOrder(f.right));
      assert f.right.Node? ==> InOrder(f.right)[0] in InOrder(f.right);
    }

    lemma SnapWithout(x: MapItem, t: Tree, s: seq<MapItem>)
      requires Rep(Snap(nodes), root, nil, t) && Threaded(SnapLinks(nodes), nil, s)
      requires InOrder(t) == s && x !in s && x != nil && x != root
      ensures Rep(Snap(nodes - {x}), root, nil, t) && Threaded(SnapLinks(nodes - {x}), nil, s)
    {
      hide NoDup;
      RepFrame(Snap(nodes), Snap(nodes - {x}), root, nil, t);
      assert Joined(SnapLinks(nodes), At(nil, s, -1), At(nil, s, 0));
      ThreadedFrame(SnapLinks(nodes), SnapLinks(nodes - {x}), nil, s);
    }

    lemma CutWalk(s: seq<MapItem>, a: seq<MapItem>, x: MapItem, b: seq<MapItem>)
      requires s == a + [x] + b
      ensures |a| < |s| && s[|a|] == x && s[..|a|] == a && s[|a| + 1..] == b && |s| == |a + b| + 1
    {
    }

    // Ghost bookkeeping: x is no longer one of the map's items.
    ghost method Forget(x: MapItem, t: Tree, a: seq<MapItem>, b: seq<MapItem>)
      requires TotalPreorder(cmp) && nodes == {root, nil} + Items(tree)
      requires Walk() == a + [x] + b && Sorted(cmp, Walk()) && count == |a + b|
      requires Rep(Snap(nodes), root, nil, t) && RedBlack(t) && InOrder(t) == a + b
      requires Threaded(SnapLinks(nodes), nil, a + b) && x != nil && x != root && x !in a + b
      modifies `tree, `nodes
      ensures Valid() && Walk() == a + b && nodes == old(nodes) - {x}
    {
      hide Valid, RedBlack, TotalPreorder, Rep, Threaded, Sorted, NoDup, Snap, SnapLinks, Items;
      SortedRemove(cmp, a, x, b);
      SnapWithout(x, t, a + b);
      ItemsRemove(tree, t, a, x, b);
      nodes := nodes - {x};
      tree := t;
      ValidIntro();
    }

    // cl_qmap_remove
    method RemoveKey(key: int) returns (p: MapItem, ghost pos: nat)
      requires Valid()
      modifies this, nodes
      ensures Valid()
      ensures forall y | y in old(nodes) :: y.key == old(y.key)
      ensures p == nil ==> Walk() == old(Walk()) && forall y | y in Walk() :: cmp(key, y.key) != 0
      ensures p != nil ==>
        && pos < |old(Walk())| && old(Walk())[pos] == p && cmp(key, p.key) == 0
        && Walk() == old(Walk())[..pos] + old(Walk())[pos + 1..] && nodes == old(nodes) - {p}
    {
      hide Valid;
      WalkFacts();
      ghost var steps;
      p, steps := Get(key);
      if p == nil {
        assert forall y | y in Walk() :: y in nodes && cmp(key, y.key) != 0;
        pos := RemoveItem(p);
        assert forall y | y in Walk() :: y in old(nodes) && cmp(key, old(y.key)) != 0;
      } else {
        pos := RemoveItem(p);
      }
    }

    // cl_qmap_head and cl_qmap_next walk the thread.
    lemma Iterate(i: int)
      requires Valid() && -1 <= i < |Walk()|
      ensures At(nil, Walk(), i).next == At(nil, Walk(), i + 1)
    {
      hide Valid, Rep, RedBlack, Sorted, TotalPreorder;
      ValidElim();
      assert Joined(SnapLinks(nodes), At(nil, Walk(), i), At(nil, Walk(), i + 1));
    }

    // What a client of the map may rely on.
    lemma WalkFacts()
      requires Valid()
      ensures TotalPreorder(cmp) && Sorted(cmp, Walk()) && NoDup(Walk()) && nil !in Walk() && nil in nodes
      ensures forall x | x in Walk() :: x in nodes && x != root && x != nil
      ensures forall x | x in nodes :: x == root || x == nil || x in Walk()
    {
    }
  }
}
