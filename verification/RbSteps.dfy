// One round of each rebalancing loop: what its link and colour changes do to the tree, and
// that the loop invariant survives.  Every lemma comes in a left and a right version, as the
// source's loops do.
module RbSteps {
  import opened MapItems
  import opened RbTree
  import opened RbLinks

  // The node that a context builds around its focus.
  ghost function Fill(c: Ctx, f: Tree): Tree
    requires !c.Top?
  {
    match c
    case InL(_, x, k, r) => Node(f, x, k, r)
    case InR(_, l, x, k) => Node(l, x, k, f)
  }

  // The other child of the focus's parent.
  ghost function Sibling(c: Ctx): Tree
    requires !c.Top?
  {
    if c.InL? then c.right else c.left
  }

  ghost function WithSibling(c: Ctx, s: Tree): Ctx
    requires !c.Top?
  {
    match c
    case InL(up, x, k, _) => InL(up, x, k, s)
    case InR(up, _, x, k) => InR(up, s, x, k)
  }

  ghost function WithColor(c: Ctx, k: Color): Ctx
  {
    match c
    case Top => Top
    case InL(up, x, _, r) => InL(up, x, k, r)
    case InR(up, l, x, _) => InR(up, l, x, k)
  }

  // The context of the sibling.
  ghost function Across(c: Ctx, f: Tree): Ctx
    requires !c.Top?
  {
    match c
    case InL(up, x, k, _) => InR(up, f, x, k)
    case InR(up, _, x, k) => InL(up, x, k, f)
  }

  lemma Refocus(m: Mem, root: MapItem, nil: MapItem, c: Ctx, f: Tree, c': Ctx, f': Tree)
    requires RepAt(m, root, nil, c, f) && Plug(c, f) == Plug(c', f')
    ensures RepAt(m, root, nil, c', f')
  {
    RepPlug(m, root, nil, c, f);
    RepPlug(m, root, nil, c', f');
  }

  // The test of __cl_map_is_left_child tells the sides apart, for an item and, as long as its
  // sibling is one, for nil.
  lemma LeftChildTest(m: Mem, root: MapItem, nil: MapItem, c: Ctx, f: Tree)
    requires RepAt(m, root, nil, c, f) && !c.Top?
    requires f.Node? || Sibling(c).Node?
    ensures c.item in m && c.item != nil && m[c.item].up == Par(root, c.up) && m[c.item].color == c.color
    ensures c.InL? <==> m[c.item].left == Ptr(nil, f)
    ensures c.InL? ==> m[c.item].right == Ptr(nil, c.right)
    ensures c.InR? ==> m[c.item].right == Ptr(nil, f) && m[c.item].left == Ptr(nil, c.left)
  {
    if c.InR? {
      FocusApart(c, f);
      ParIn(m, root, nil, c, f);
      if c.left.Node? {
        assert c.left.item in InOrder(c.left);
        assert c.left.item in InOrder(c.left) + [c.item];
        assert c.left.item in Pre(c) + Post(c);
        SpellsItems(m, nil, c.left, c.item);
      }
    }
  }

  // What a pointer to a subtree shows: its colour, nil counting as black.
  lemma SubtreeCell(m: Mem, root: MapItem, nil: MapItem, c: Ctx, f: Tree)
    requires RepAt(m, root, nil, c, f)
    ensures Ptr(nil, f) in m && (m[Ptr(nil, f)].color == Red <==> IsRed(f))
    ensures f.Node? ==> f.item != nil && m[f.item] == Cell(Ptr(nil, f.left), Ptr(nil, f.right), Par(root, c), f.color)
  {
  }

  // The colour the loops test: the root sentinel counts as black.
  lemma ParentColor(m: Mem, root: MapItem, nil: MapItem, c: Ctx, f: Tree)
    requires RepAt(m, root, nil, c, f) && f.Node?
    ensures f.item in m && m[f.item].up == Par(root, c) && Par(root, c) in m
    ensures m[Par(root, c)].color == Red <==> !c.Top? && c.color == Red
  {
  }

  // The links between a focus, its parent and its grandparent.
  lemma Around(m: Mem, root: MapItem, nil: MapItem, c: Ctx, f: Tree)
    requires RepAt(m, root, nil, c, f) && f.Node? && !c.Top?
    ensures f.item in m && m[f.item].up == c.item && c.item in m && m[f.item].color == f.color
    ensures m[c.item].up == Par(root, c.up) && m[c.item].up in m && m[c.item].color == c.color
    ensures m[c.item].left == f.item <==> c.InL?
    ensures !c.up.Top? ==> (m[c.up.item].left == c.item <==> c.up.InL?)
    ensures !c.up.Top? ==>
      && Ptr(nil, Sibling(c.up)) in m
      && (if c.up.InL? then m[c.up.item].right else m[c.up.item].left) == Ptr(nil, Sibling(c.up))
      && (m[Ptr(nil, Sibling(c.up))].color == Red <==> IsRed(Sibling(c.up)))
  {
    LeftChildTest(m, root, nil, c, f);
    ParIn(m, root, nil, c.up, Fill(c, f)) by {
      Refocus(m, root, nil, c, f, c.up, Fill(c, f));
    }
    if !c.up.Top? {
      var p := Fill(c, f);
      Refocus(m, root, nil, c, f, c.up, p);
      LeftChildTest(m, root, nil, c.up, p);
      Refocus(m, root, nil, c.up, p, Across(c.up, p), Sibling(c.up));
      SubtreeCell(m, root, nil, Across(c.up, p), Sibling(c.up));
    }
  }

  // Colouring the sibling of the focus, which must be an item.
  lemma SetSiblingColor(m: Mem, root: MapItem, nil: MapItem, c: Ctx, f: Tree, k: Color)
    requires RepAt(m, root, nil, c, f) && !c.Top? && Sibling(c).Node?
    ensures (var s := Sibling(c);
      && s.item in m && s.item != nil
      && RepAt(SetColor(m, s.item, k), root, nil, WithSibling(c, s.(color := k)), f))
  {
    var s := Sibling(c);
    Refocus(m, root, nil, c, f, Across(c, f), s);
    SetColorRep(m, root, nil, Across(c, f), s.left, s.item, s.color, s.right, k);
    var m' := SetColor(m, s.item, k);
    Refocus(m', root, nil, Across(c, f), s.(color := k), WithSibling(c, s.(color := k)), f);
  }

  // Colouring the parent of the focus.
  lemma SetParentColor(m: Mem, root: MapItem, nil: MapItem, c: Ctx, f: Tree, k: Color)
    requires RepAt(m, root, nil, c, f) && !c.Top?
    ensures c.item in m && c.item != nil
      && RepAt(SetColor(m, c.item, k), root, nil, WithColor(c, k), f)
  {
    var p := Fill(c, f);
    Refocus(m, root, nil, c, f, c.up, p);
    SetColorRep(m, root, nil, c.up, p.left, p.item, p.color, p.right, k);
    Refocus(SetColor(m, c.item, k), root, nil, c.up, p.(color := k), WithColor(c, k), f);
  }

  // ---------- insertion ----------

  // Red uncle: the conflict moves two levels up.
  ghost function UncleCtx(c: Ctx): Ctx
    requires !c.Top? && !c.up.Top? && Sibling(c.up).Node?
  {
    WithColor(WithSibling(c.up, Sibling(c.up).(color := Black)), Red)
  }

  lemma InsUncleRep(m: Mem, root: MapItem, nil: MapItem, c: Ctx, f: Tree)
    requires RepAt(m, root, nil, c, f) && !c.Top? && !c.up.Top? && Sibling(c.up).Node?
    ensures (var u := Sibling(c.up).item;
      && u in m && c.item in m && c.up.item in m
      && RepAt(SetColor(SetColor(SetColor(m, u, Black), c.item, Black), c.up.item, Red), root, nil,
               c.up.up, Fill(UncleCtx(c), Fill(WithColor(c, Black), f))))
  {
    var u := Sibling(c.up);
    var p := Fill(c, f);
    var p' := Fill(WithColor(c, Black), f);
    Refocus(m, root, nil, c, f, c.up, p);
    SetSiblingColor(m, root, nil, c.up, p, Black);
    var m1 := SetColor(m, u.item, Black);
    var c1 := WithSibling(c.up, u.(color := Black));
    SetColorRep(m1, root, nil, c1, p.left, p.item, p.color, p.right, Black);
    var m2 := SetColor(m1, c.item, Black);
    SetParentColor(m2, root, nil, c1, p', Red);
    var m3 := SetColor(m2, c.up.item, Red);
    Refocus(m3, root, nil, UncleCtx(c), p', c.up.up, Fill(UncleCtx(c), p'));
  }

  // Black uncle, outer grandchild: recolour and rotate the grandparent.
  lemma InsOuterLeftRep(m: Mem, root: MapItem, nil: MapItem, g: Ctx, f: Tree, p: MapItem, s: Tree)
    requires g.InL? && RepAt(m, root, nil, InL(g, p, Red, s), f)
    ensures p in m && g.item in m
    ensures m[g.item].up in m && m[g.item].left in m && m[m[g.item].left].right in m
    ensures (var m2 := SetColor(SetColor(m, p, Black), g.item, Red);
      && m2[g.item].up in m2 && m2[g.item].left in m2 && m2[m2[g.item].left].right in m2
      && RepAt(RotRight(m2, nil, g.item), root, nil, InL(g.up, p, Black, Node(s, g.item, Red, g.right)), f))
  {
    var c := InL(g, p, Red, s);
    SetParentColor(m, root, nil, c, f, Black);
    var m1 := SetColor(m, p, Black);
    var pp := Node(f, p, Black, s);
    Refocus(m1, root, nil, WithColor(c, Black), f, g, pp);
    SetParentColor(m1, root, nil, g, pp, Red);
    var m2 := SetColor(m1, g.item, Red);
    Refocus(m2, root, nil, WithColor(g, Red), pp, g.up, Node(pp, g.item, Red, g.right));
    RotRightRep(m2, root, nil, g.up, f, p, Black, s, g.item, Red, g.right);
    Refocus(RotRight(m2, nil, g.item), root, nil, g.up, Node(f, p, Black, Node(s, g.item, Red, g.right)),
            InL(g.up, p, Black, Node(s, g.item, Red, g.right)), f);
  }

  lemma InsOuterRightRep(m: Mem, root: MapItem, nil: MapItem, g: Ctx, f: Tree, p: MapItem, s: Tree)
    requires g.InR? && RepAt(m, root, nil, InR(g, s, p, Red), f)
    ensures p in m && g.item in m
    ensures m[g.item].up in m && m[g.item].right in m && m[m[g.item].right].left in m
    ensures (var m2 := SetColor(SetColor(m, p, Black), g.item, Red);
      && m2[g.item].up in m2 && m2[g.item].right in m2 && m2[m2[g.item].right].left in m2
      && RepAt(RotLeft(m2, nil, g.item), root, nil, InR(g.up, Node(g.left, g.item, Red, s), p, Black), f))
  {
    var c := InR(g, s, p, Red);
    SetParentColor(m, root, nil, c, f, Black);
    var m1 := SetColor(m, p, Black);
    var pp := Node(s, p, Black, f);
    Refocus(m1, root, nil, WithColor(c, Black), f, g, pp);
    SetParentColor(m1, root, nil, g, pp, Red);
    var m2 := SetColor(m1, g.item, Red);
    Refocus(m2, root, nil, WithColor(g, Red), pp, g.up, Node(g.left, g.item, Red, pp));
    RotLeftRep(m2, root, nil, g.up, g.left, g.item, Red, s, p, Black, f);
    Refocus(RotLeft(m2, nil, g.item), root, nil, g.up, Node(Node(g.left, g.item, Red, s), p, Black, f),
            InR(g.up, Node(g.left, g.item, Red, s), p, Black), f);
  }

  // Inner grandchild: a first rotation at the parent turns it into an outer one, with the
  // parent as the new focus.
  lemma InsInnerLeft(m: Mem, root: MapItem, nil: MapItem, g: Ctx, l: Tree, p: MapItem, f: Tree)
    requires g.InL? && IsRed(f) && RepAt(m, root, nil, InR(g, l, p, Red), f)
    ensures p in m && m[p].up in m && m[p].right in m && m[m[p].right].left in m
    ensures (var c' := InL(g, f.item, Red, f.right);
      var f' := Node(l, p, Red, f.left);
      && RepAt(RotLeft(m, nil, p), root, nil, c', f'))
  {
    var c' := InL(g, f.item, Red, f.right);
    var f' := Node(l, p, Red, f.left);
    var up := Node(Node(l, p, Red, f.left), f.item, Red, f.right);
    Refocus(m, root, nil, InR(g, l, p, Red), f, g, Node(l, p, Red, f));
    RotLeftRep(m, root, nil, g, l, p, Red, f.left, f.item, Red, f.right);
    Refocus(RotLeft(m, nil, p), root, nil, g, up, c', f');
  }

  lemma InsInnerRight(m: Mem, root: MapItem, nil: MapItem, g: Ctx, f: Tree, p: MapItem, r: Tree)
    requires g.InR? && IsRed(f) && RepAt(m, root, nil, InL(g, p, Red, r), f)
    ensures p in m && m[p].up in m && m[p].left in m && m[m[p].left].right in m
    ensures (var c' := InR(g, f.left, f.item, Red);
      var f' := Node(f.right, p, Red, r);
      && RepAt(RotRight(m, nil, p), root, nil, c', f'))
  {
    var c' := InR(g, f.left, f.item, Red);
    var f' := Node(f.right, p, Red, r);
    var up := Node(f.left, f.item, Red, Node(f.right, p, Red, r));
    Refocus(m, root, nil, InL(g, p, Red, r), f, g, Node(f, p, Red, r));
    RotRightRep(m, root, nil, g, f.left, f.item, Red, f.right, p, Red, r);
    Refocus(RotRight(m, nil, p), root, nil, g, up, c', f');
  }

  // ---------- deletion ----------

  // Everything a deletion round reads: the parent, the sibling and the nephews.
  lemma Family(m: Mem, root: MapItem, nil: MapItem, c: Ctx, f: Tree)
    requires RepAt(m, root, nil, c, f) && !c.Top? && Sibling(c).Node?
    ensures var s := Sibling(c);
      && c.item in m && c.item != nil && m[c.item].up in m && m[c.item].color == c.color
      && (m[c.item].left == Ptr(nil, f) <==> c.InL?)
      && (if c.InL? then m[c.item].right else m[c.item].left) == s.item
      && s.item in m && s.item != nil
      && m[s.item] == Cell(Ptr(nil, s.left), Ptr(nil, s.right), c.item, s.color)
      && Ptr(nil, s.left) in m && (m[Ptr(nil, s.left)].color == Red <==> IsRed(s.left))
      && Ptr(nil, s.right) in m && (m[Ptr(nil, s.right)].color == Red <==> IsRed(s.right))
      && (s.left.Node? ==> s.left.item != nil && m[s.left.item].right in m)
      && (s.right.Node? ==> s.right.item != nil && m[s.right.item].left in m)
  {
    var s := Sibling(c);
    LeftChildTest(m, root, nil, c, f);
    ParIn(m, root, nil, c.up, Fill(c, f)) by {
      Refocus(m, root, nil, c, f, c.up, Fill(c, f));
    }
    Refocus(m, root, nil, c, f, Across(c, f), s);
    SubtreeCell(m, root, nil, Across(c, f), s);
    Refocus(m, root, nil, Across(c, f), s, InL(Across(c, f), s.item, s.color, s.right), s.left);
    SubtreeCell(m, root, nil, InL(Across(c, f), s.item, s.color, s.right), s.left);
    Refocus(m, root, nil, Across(c, f), s, InR(Across(c, f), s.left, s.item, s.color), s.right);
    SubtreeCell(m, root, nil, InR(Across(c, f), s.left, s.item, s.color), s.right);
    NephewChildren(m, nil, s.left, s.item);
    NephewChildren(m, nil, s.right, s.item);
  }

  lemma NephewChildren(m: Mem, nil: MapItem, n: Tree, up: MapItem)
    requires Spells(m, nil, n, up) && nil in m
    ensures n.Node? ==> n.item in m && m[n.item].left in m && m[n.item].right in m
  {
    if n.Node? {
      assert Spells(m, nil, n.left, n.item) && Spells(m, nil, n.right, n.item);
    }
  }

  // Red sibling, left: recolour, rotate the parent; the focus sinks one level, its parent is
  // red and its new sibling is not.
  lemma DelRedLeft(m: Mem, root: MapItem, nil: MapItem, c: Ctx, f: Tree)
    requires RepAt(m, root, nil, c, f) && c.InL? && IsRed(c.right)
    ensures (var u := c.right.item;
      && u in m && c.item in m
      && var m2 := SetColor(SetColor(m, u, Black), c.item, Red);
      && m2[c.item].up in m2 && m2[c.item].right in m2 && m2[m2[c.item].right].left in m2
      && var m3 := RotLeft(m2, nil, c.item);
         var c' := InL(InL(c.up, u, Black, c.right.right), c.item, Red, c.right.left);
      && m3[nil] == m[nil] && RepAt(m3, root, nil, c', f))
  {
    var s := c.right;
    var c' := InL(InL(c.up, s.item, Black, s.right), c.item, Red, s.left);
    SetSiblingColor(m, root, nil, c, f, Black);
    var m1 := SetColor(m, s.item, Black);
    var c1 := WithSibling(c, s.(color := Black));
    SetParentColor(m1, root, nil, c1, f, Red);
    var m2 := SetColor(m1, c.item, Red);
    Refocus(m2, root, nil, WithColor(c1, Red), f, c.up, Node(f, c.item, Red, s.(color := Black)));
    RotLeftRep(m2, root, nil, c.up, f, c.item, Red, s.left, s.item, Black, s.right);
    var up := Node(Node(f, c.item, Red, s.left), s.item, Black, s.right);
    Refocus(RotLeft(m2, nil, c.item), root, nil, c.up, up, c', f);
  }

  lemma DelRedRight(m: Mem, root: MapItem, nil: MapItem, c: Ctx, f: Tree)
    requires RepAt(m, root, nil, c, f) && c.InR? && IsRed(c.left)
    ensures (var u := c.left.item;
      && u in m && c.item in m
      && var m2 := SetColor(SetColor(m, u, Black), c.item, Red);
      && m2[c.item].up in m2 && m2[c.item].left in m2 && m2[m2[c.item].left].right in m2
      && var m3 := RotRight(m2, nil, c.item);
         var c' := InR(InR(c.up, c.left.left, u, Black), c.left.right, c.item, Red);
      && m3[nil] == m[nil] && RepAt(m3, root, nil, c', f))
  {
    var s := c.left;
    var c' := InR(InR(c.up, s.left, s.item, Black), s.right, c.item, Red);
    SetSiblingColor(m, root, nil, c, f, Black);
    var m1 := SetColor(m, s.item, Black);
    var c1 := WithSibling(c, s.(color := Black));
    SetParentColor(m1, root, nil, c1, f, Red);
    var m2 := SetColor(m1, c.item, Red);
    Refocus(m2, root, nil, WithColor(c1, Red), f, c.up, Node(s.(color := Black), c.item, Red, f));
    RotRightRep(m2, root, nil, c.up, s.left, s.item, Black, s.right, c.item, Red, f);
    var up := Node(s.left, s.item, Black, Node(s.right, c.item, Red, f));
    Refocus(RotRight(m2, nil, c.item), root, nil, c.up, up, c', f);
  }

  // No red nephew: the sibling turns red and the missing black node moves up one level.
  lemma DelPushUp(m: Mem, root: MapItem, nil: MapItem, c: Ctx, f: Tree)
    requires RepAt(m, root, nil, c, f) && !c.Top?
    requires (var s := Sibling(c); s.Node?)
    ensures (var s := Sibling(c);
      && s.item in m
      && var f' := Fill(WithSibling(c, s.(color := Red)), f);
      && RepAt(SetColor(m, s.item, Red), root, nil, c.up, f'))
  {
    var s := Sibling(c);
    SetSiblingColor(m, root, nil, c, f, Red);
    var c1 := WithSibling(c, s.(color := Red));
    Refocus(SetColor(m, s.item, Red), root, nil, c1, f, c.up, Fill(c1, f));
  }

  // Only the inner nephew is red: a rotation at the sibling makes the outer one red.
  lemma DelInnerLeft(m: Mem, root: MapItem, nil: MapItem, c: Ctx, f: Tree)
    requires RepAt(m, root, nil, c, f) && c.InL?
    requires (var s := c.right; s.Node? && IsRed(s.left))
    ensures (var s := c.right;
      && s.item in m && s.left.item in m
      && var m2 := SetColor(SetColor(m, s.left.item, Black), s.item, Red);
      && m2[s.item].up in m2 && m2[s.item].left in m2 && m2[m2[s.item].left].right in m2
      && var m3 := RotRight(m2, nil, s.item);
         var c' := WithSibling(c, Node(s.left.left, s.left.item, Black, Node(s.left.right, s.item, Red, s.right)));
      && m3[nil] == m[nil] && RepAt(m3, root, nil, c', f))
  {
    var s := c.right;
    var n := s.left;
    var s' := Node(n.left, n.item, Black, Node(n.right, s.item, Red, s.right));
    Refocus(m, root, nil, c, f, InL(Across(c, f), s.item, s.color, s.right), n);
    SetColorRep(m, root, nil, InL(Across(c, f), s.item, s.color, s.right), n.left, n.item, Red, n.right, Black);
    var m1 := SetColor(m, n.item, Black);
    var n1 := n.(color := Black);
    SetParentColor(m1, root, nil, InL(Across(c, f), s.item, s.color, s.right), n1, Red);
    var m2 := SetColor(m1, s.item, Red);
    Refocus(m2, root, nil, InL(Across(c, f), s.item, Red, s.right), n1, Across(c, f), Node(n1, s.item, Red, s.right));
    RotRightRep(m2, root, nil, Across(c, f), n.left, n.item, Black, n.right, s.item, Red, s.right);
    Refocus(RotRight(m2, nil, s.item), root, nil, Across(c, f), s', WithSibling(c, s'), f);
  }

  lemma DelInnerRight(m: Mem, root: MapItem, nil: MapItem, c: Ctx, f: Tree)
    requires RepAt(m, root, nil, c, f) && c.InR?
    requires (var s := c.left; s.Node? && IsRed(s.right))
    ensures (var s := c.left;
      && s.item in m && s.right.item in m
      && var m2 := SetColor(SetColor(m, s.right.item, Black), s.item, Red);
      && m2[s.item].up in m2 && m2[s.item].right in m2 && m2[m2[s.item].right].left in m2
      && var m3 := RotLeft(m2, nil, s.item);
         var c' := WithSibling(c, Node(Node(s.left, s.item, Red, s.right.left), s.right.item, Black, s.right.right));
      && m3[nil] == m[nil] && RepAt(m3, root, nil, c', f))
  {
    var s := c.left;
    var n := s.right;
    var s' := Node(Node(s.left, s.item, Red, n.left), n.item, Black, n.right);
    Refocus(m, root, nil, c, f, InR(Across(c, f), s.left, s.item, s.color), n);
    SetColorRep(m, root, nil, InR(Across(c, f), s.left, s.item, s.color), n.left, n.item, Red, n.right, Black);
    var m1 := SetColor(m, n.item, Black);
    var n1 := n.(color := Black);
    SetParentColor(m1, root, nil, InR(Across(c, f), s.left, s.item, s.color), n1, Red);
    var m2 := SetColor(m1, s.item, Red);
    Refocus(m2, root, nil, InR(Across(c, f), s.left, s.item, Red), n1, Across(c, f), Node(s.left, s.item, Red, n1));
    RotLeftRep(m2, root, nil, Across(c, f), s.left, s.item, Red, n.left, n.item, Black, n.right);
    Refocus(RotLeft(m2, nil, s.item), root, nil, Across(c, f), s', WithSibling(c, s'), f);
  }

  // The outer nephew is red: one last rotation at the parent repays the black node.
  lemma DelOuterLeft(m: Mem, root: MapItem, nil: MapItem, c: Ctx, f: Tree)
    requires RepAt(m, root, nil, c, f) && c.InL?
    requires (var s := c.right; s.Node? && IsRed(s.right))
    ensures (var s := c.right;
      && s.item in m && c.item in m && s.right.item in m
      && var m3 := SetColor(SetColor(SetColor(m, s.item, c.color), c.item, Black), s.right.item, Black);
      && m3[c.item].up in m3 && m3[c.item].right in m3 && m3[m3[c.item].right].left in m3
      && var m4 := RotLeft(m3, nil, c.item);
         var c' := InL(InL(c.up, s.item, c.color, s.right.(color := Black)), c.item, Black, s.left);
      && RepAt(m4, root, nil, c', f))
  {
    var s := c.right;
    var c' := InL(InL(c.up, s.item, c.color, s.right.(color := Black)), c.item, Black, s.left);
    SetSiblingColor(m, root, nil, c, f, c.color);
    var m1 := SetColor(m, s.item, c.color);
    var s1 := s.(color := c.color);
    var c1 := WithSibling(c, s1);
    SetParentColor(m1, root, nil, c1, f, Black);
    var m2 := SetColor(m1, c.item, Black);
    var c2 := WithColor(c1, Black);
    Refocus(m2, root, nil, c2, f, InR(Across(c2, f), s1.left, s.item, s1.color), s.right);
    SetColorRep(m2, root, nil, InR(Across(c2, f), s1.left, s.item, s1.color),
                s.right.left, s.right.item, Red, s.right.right, Black);
    var m3 := SetColor(m2, s.right.item, Black);
    var s3 := s1.(right := s.right.(color := Black));
    Refocus(m3, root, nil, InR(Across(c2, f), s1.left, s.item, s1.color), s3.right, c.up, Node(f, c.item, Black, s3));
    RotLeftRep(m3, root, nil, c.up, f, c.item, Black, s.left, s.item, c.color, s3.right);
    var up := Node(Node(f, c.item, Black, s.left), s.item, c.color, s3.right);
    Refocus(RotLeft(m3, nil, c.item), root, nil, c.up, up, c', f);
  }

  lemma DelOuterRight(m: Mem, root: MapItem, nil: MapItem, c: Ctx, f: Tree)
    requires RepAt(m, root, nil, c, f) && c.InR?
    requires (var s := c.left; s.Node? && IsRed(s.left))
    ensures (var s := c.left;
      && s.item in m && c.item in m && s.left.item in m
      && var m3 := SetColor(SetColor(SetColor(m, s.item, c.color), c.item, Black), s.left.item, Black);
      && m3[c.item].up in m3 && m3[c.item].left in m3 && m3[m3[c.item].left].right in m3
      && var m4 := RotRight(m3, nil, c.item);
         var c' := InR(InR(c.up, s.left.(color := Black), s.item, c.color), s.right, c.item, Black);
      && RepAt(m4, root, nil, c', f))
  {
    var s := c.left;
    var c' := InR(InR(c.up, s.left.(color := Black), s.item, c.color), s.right, c.item, Black);
    SetSiblingColor(m, root, nil, c, f, c.color);
    var m1 := SetColor(m, s.item, c.color);
    var s1 := s.(color := c.color);
    var c1 := WithSibling(c, s1);
    SetParentColor(m1, root, nil, c1, f, Black);
    var m2 := SetColor(m1, c.item, Black);
    var c2 := WithColor(c1, Black);
    Refocus(m2, root, nil, c2, f, InL(Across(c2, f), s.item, s1.color, s1.right), s.left);
    SetColorRep(m2, root, nil, InL(Across(c2, f), s.item, s1.color, s1.right),
                s.left.left, s.left.item, Red, s.left.right, Black);
    var m3 := SetColor(m2, s.left.item, Black);
    var s3 := s1.(left := s.left.(color := Black));
    Refocus(m3, root, nil, InL(Across(c2, f), s.item, s1.color, s1.right), s3.left, c.up, Node(s3, c.item, Black, f));
    RotRightRep(m3, root, nil, c.up, s3.left, s.item, c.color, s.right, c.item, Black, f);
    var up := Node(s3.left, s.item, c.color, Node(s.right, c.item, Black, f));
    Refocus(RotRight(m3, nil, c.item), root, nil, c.up, up, c', f);
  }

  // A focus that is an item points up to its parent.
  lemma FocusUp(m: Mem, root: MapItem, nil: MapItem, c: Ctx, f: Tree)
    requires RepAt(m, root, nil, c, f)
    ensures Ptr(nil, f) in m && Par(root, c) in m
    ensures f.Node? ==> m[f.item].up == Par(root, c)
  {
    ParIn(m, root, nil, c, f);
  }

  // What the loop guard tests.
  lemma DelGuard(m: Mem, root: MapItem, nil: MapItem, c: Ctx, f: Tree)
    requires RepAt(m, root, nil, c, f)
    ensures Ptr(nil, f) in m && (m[Ptr(nil, f)].color == Red <==> IsRed(f))
    ensures Par(root, c) == root <==> c.Top?
  {
    SubtreeCell(m, root, nil, c, f);
    if !c.Top? {
      assert c.item in Pre(c) + InOrder(f) + Post(c);
    }
  }

  // Blackening the focus, which is a no-op on nil.
  lemma Blackening(m: Mem, root: MapItem, nil: MapItem, c: Ctx, f: Tree)
    requires RepAt(m, root, nil, c, f)
    ensures Ptr(nil, f) in m
    ensures Rep(SetColor(m, Ptr(nil, f), Black), root, nil, Plug(c, Blacken(f)))
    ensures InOrder(Plug(c, Blacken(f))) == InOrder(Plug(c, f))
  {
    InOrderPlug(c, f);
    InOrderPlug(c, Blacken(f));
    if f.Node? {
      SetColorRep(m, root, nil, c, f.left, f.item, f.color, f.right, Black);
    } else {
      assert SetColor(m, nil, Black) == m;
    }
    RepPlug(SetColor(m, Ptr(nil, f), Black), root, nil, c, Blacken(f));
  }

  ghost function DelMeasure(c: Ctx, f: Tree): nat
  {
    if IsRed(f) then 0 else 1 + Depth(c)
  }
}
