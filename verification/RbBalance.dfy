// The same rounds on trees alone: every rebalancing step keeps its loop's invariant and the
// in-order walk.
module RbBalance {
  import opened MapItems
  import opened RbTree
  import opened RbSteps

  // Two decompositions of trees with the same walk.
  ghost predicate SameWalk(c: Ctx, f: Tree, c': Ctx, f': Tree)
  {
    InOrder(Plug(c, f)) == InOrder(Plug(c', f'))
  }

  lemma PlugWalk(c: Ctx, f: Tree, f': Tree)
    requires InOrder(f) == InOrder(f')
    ensures SameWalk(c, f, c, f')
  {
    InOrderPlug(c, f);
    InOrderPlug(c, f');
  }

  // Both shapes of a rotation have the same walk, whatever the colours.
  lemma RotWalk(a: Tree, x: MapItem, k1: Color, b: Tree, y: MapItem, k2: Color, z: Tree, k3: Color, k4: Color)
    ensures InOrder(Node(Node(a, x, k1, b), y, k2, z)) == InOrder(Node(a, x, k3, Node(b, y, k4, z)))
  {
    assert InOrder(a) + [x] + InOrder(b) + [y] + InOrder(z) == InOrder(a) + [x] + (InOrder(b) + [y] + InOrder(z));
  }

  // ---------- insertion ----------

  // A red parent has a parent of its own, which is black.
  lemma InsGrand(c: Ctx, f: Tree)
    requires InsInv(c, f) && !c.Top? && c.color == Red
    ensures !c.up.Top? && c.up.color == Black && !IsRed(Sibling(c))
    ensures Depth(c) == 2 + Depth(c.up.up)
  {
    assert NoRedRedAt(c.up, true);
  }

  lemma InsUncleInv(c: Ctx, f: Tree)
    requires InsInv(c, f) && !c.Top? && c.color == Red && !c.up.Top? && IsRed(Sibling(c.up))
    ensures var f' := Fill(UncleCtx(c), Fill(WithColor(c, Black), f));
      InsInv(c.up.up, f') && SameWalk(c, f, c.up.up, f')
  {
    var p := Fill(c, f);
    var p' := Fill(WithColor(c, Black), f);
    assert BalancedAt(c.up, BlackHeight(p)) && NoRedRedAt(c.up, true) && RootBlack(c.up);
    assert Balanced(p') && NoRedRed(p') && BlackHeight(p') == BlackHeight(p) + 1;
    PlugWalk(c.up.up, Fill(UncleCtx(c), p'), Fill(c.up, p));
  }

  lemma InsOuterLeftInv(g: Ctx, f: Tree, p: MapItem, s: Tree)
    requires g.InL? && g.color == Black && !IsRed(g.right) && InsInv(InL(g, p, Red, s), f)
    ensures var c' := InL(g.up, p, Black, Node(s, g.item, Red, g.right));
      InsInv(c', f) && SameWalk(InL(g, p, Red, s), f, c', f)
  {
    assert BalancedAt(g, BlackHeight(f)) && NoRedRedAt(g, true) && RootBlack(g);
    RotWalk(f, p, Red, s, g.item, g.color, g.right, Black, Red);
    PlugWalk(g.up, Node(Node(f, p, Red, s), g.item, g.color, g.right),
      Node(f, p, Black, Node(s, g.item, Red, g.right)));
  }

  lemma InsOuterRightInv(g: Ctx, f: Tree, p: MapItem, s: Tree)
    requires g.InR? && g.color == Black && !IsRed(g.left) && InsInv(InR(g, s, p, Red), f)
    ensures var c' := InR(g.up, Node(g.left, g.item, Red, s), p, Black);
      InsInv(c', f) && SameWalk(InR(g, s, p, Red), f, c', f)
  {
    assert BalancedAt(g, BlackHeight(f)) && NoRedRedAt(g, true) && RootBlack(g);
    RotWalk(g.left, g.item, Red, s, p, Black, f, g.color, Red);
    PlugWalk(g.up, Node(g.left, g.item, g.color, Node(s, p, Red, f)), Node(Node(g.left, g.item, Red, s), p, Black, f));
  }

  lemma InsInnerLeftInv(g: Ctx, l: Tree, p: MapItem, f: Tree)
    requires InsInv(InR(g, l, p, Red), f)
    ensures var c', f' := InL(g, f.item, Red, f.right), Node(l, p, Red, f.left);
      InsInv(c', f') && SameWalk(InR(g, l, p, Red), f, c', f')
  {
    assert BalancedAt(g, BlackHeight(f)) && NoRedRedAt(g, true) && RootBlack(g);
    RotWalk(l, p, Red, f.left, f.item, Red, f.right, Red, Red);
    PlugWalk(g, Node(Node(l, p, Red, f.left), f.item, Red, f.right), Node(l, p, Red, f));
  }

  lemma InsInnerRightInv(g: Ctx, f: Tree, p: MapItem, r: Tree)
    requires InsInv(InL(g, p, Red, r), f)
    ensures var c', f' := InR(g, f.left, f.item, Red), Node(f.right, p, Red, r);
      InsInv(c', f') && SameWalk(InL(g, p, Red, r), f, c', f')
  {
    assert BalancedAt(g, BlackHeight(f)) && NoRedRedAt(g, true) && RootBlack(g);
    RotWalk(f.left, f.item, Red, f.right, p, Red, r, Red, Red);
    PlugWalk(g, Node(f.left, f.item, Red, Node(f.right, p, Red, r)), Node(f, p, Red, r));
  }

  // ---------- deletion ----------

  // The sibling of a focus that lacks a black node is an item: the source never reads past nil.
  lemma DelSibling(c: Ctx, f: Tree)
    requires DelInv(c, f) && !c.Top?
    ensures Sibling(c).Node?
    ensures IsRed(Sibling(c)) ==> c.color == Black
  {
  }

  lemma DelRedLeftInv(c: Ctx, f: Tree)
    requires DelInv(c, f) && c.InL? && IsRed(c.right) && !IsRed(f)
    ensures var c' := InL(InL(c.up, c.right.item, Black, c.right.right), c.item, Red, c.right.left);
      DelInv(c', f) && SameWalk(c, f, c', f) && Sibling(c').Node? && !IsRed(Sibling(c'))
  {
    var s := c.right;
    assert BalancedAt(c.up, BlackHeight(f) + 2) && NoRedRedAt(c.up, false);
    RotWalk(f, c.item, Red, s.left, s.item, Black, s.right, c.color, Red);
    PlugWalk(c.up, Node(Node(f, c.item, Red, s.left), s.item, Black, s.right), Node(f, c.item, c.color, s));
  }

  lemma DelRedRightInv(c: Ctx, f: Tree)
    requires DelInv(c, f) && c.InR? && IsRed(c.left) && !IsRed(f)
    ensures var c' := InR(InR(c.up, c.left.left, c.left.item, Black), c.left.right, c.item, Red);
      DelInv(c', f) && SameWalk(c, f, c', f) && Sibling(c').Node? && !IsRed(Sibling(c'))
  {
    var s := c.left;
    assert BalancedAt(c.up, BlackHeight(f) + 2) && NoRedRedAt(c.up, false);
    RotWalk(s.left, s.item, Red, s.right, c.item, c.color, f, Black, Red);
    PlugWalk(c.up, Node(s.left, s.item, Black, Node(s.right, c.item, Red, f)), Node(s, c.item, c.color, f));
  }

  lemma DelPushUpInv(c: Ctx, f: Tree)
    requires DelInv(c, f) && !c.Top? && !IsRed(f)
    requires var s := Sibling(c); s.Node? && !IsRed(s) && !IsRed(s.left) && !IsRed(s.right)
    ensures var f' := Fill(WithSibling(c, Sibling(c).(color := Red)), f);
      DelInv(c.up, f') && SameWalk(c, f, c.up, f')
  {
    var s := Sibling(c);
    var f' := Fill(WithSibling(c, s.(color := Red)), f);
    assert BalancedAt(c.up, BlackHeight(f) + 1 + Tick(c.color)) && NoRedRedAt(c.up, c.color == Red);
    if c.color == Red {
      NoRedRedAtWeaken(c.up);
    }
    PlugWalk(c.up, f', Fill(c, f));
  }

  lemma DelInnerLeftInv(c: Ctx, f: Tree)
    requires DelInv(c, f) && c.InL? && !IsRed(f)
    requires var s := c.right; s.Node? && !IsRed(s) && IsRed(s.left) && !IsRed(s.right)
    ensures var s := c.right;
      var c' := WithSibling(c, Node(s.left.left, s.left.item, Black, Node(s.left.right, s.item, Red, s.right)));
      DelInv(c', f) && SameWalk(c, f, c', f)
  {
    var s, n := c.right, c.right.left;
    var lower := Node(n.right, s.item, Red, s.right);
    var s' := Node(n.left, n.item, Black, lower);
    assert Balanced(n) && NoRedRed(n) && BlackHeight(s.right) == BlackHeight(n) == BlackHeight(n.left);
    assert Balanced(lower) && NoRedRed(lower) && BlackHeight(lower) == BlackHeight(n.left);
    RotWalk(n.left, n.item, Red, n.right, s.item, s.color, s.right, Black, Red);
    PlugWalk(Across(c, f), s', s);
  }

  lemma DelInnerRightInv(c: Ctx, f: Tree)
    requires DelInv(c, f) && c.InR? && !IsRed(f)
    requires var s := c.left; s.Node? && !IsRed(s) && IsRed(s.right) && !IsRed(s.left)
    ensures var s := c.left;
      var c' := WithSibling(c, Node(Node(s.left, s.item, Red, s.right.left), s.right.item, Black, s.right.right));
      DelInv(c', f) && SameWalk(c, f, c', f)
  {
    var s, n := c.left, c.left.right;
    var lower := Node(s.left, s.item, Red, n.left);
    var s' := Node(lower, n.item, Black, n.right);
    assert Balanced(n) && NoRedRed(n) && BlackHeight(s.left) == BlackHeight(n) == BlackHeight(n.right);
    assert Balanced(lower) && NoRedRed(lower) && BlackHeight(lower) == BlackHeight(n.right);
    RotWalk(s.left, s.item, Red, n.left, n.item, Black, n.right, s.color, Red);
    PlugWalk(Across(c, f), s', s);
  }

  lemma DelOuterLeftInv(c: Ctx, f: Tree)
    requires DelInv(c, f) && c.InL? && !IsRed(f)
    requires var s := c.right; s.Node? && !IsRed(s) && IsRed(s.right)
    ensures var s := c.right;
      var c' := InL(InL(c.up, s.item, c.color, s.right.(color := Black)), c.item, Black, s.left);
      RedBlack(Plug(c', f)) && SameWalk(c, f, c', f)
  {
    var s, n := c.right, c.right.right;
    var n' := Node(n.left, n.item, Black, n.right);
    var lower := Node(f, c.item, Black, s.left);
    var up := Node(lower, s.item, c.color, n');
    assert BalancedAt(c.up, BlackHeight(f) + 1 + Tick(c.color)) && NoRedRedAt(c.up, c.color == Red);
    assert Balanced(n) && NoRedRed(n) && BlackHeight(s.left) == BlackHeight(n) == BlackHeight(f);
    assert Balanced(n') && NoRedRed(n') && BlackHeight(n') == BlackHeight(f) + 1;
    assert Balanced(lower) && NoRedRed(lower) && BlackHeight(lower) == BlackHeight(f) + 1;
    OuterRedBlack(c.up, Fill(c, f), up);
    assert InOrder(n') == InOrder(n);
    RotWalk(f, c.item, Black, s.left, s.item, c.color, n', c.color, s.color);
    PlugWalk(c.up, up, Node(f, c.item, c.color, s));
  }

  lemma DelOuterRightInv(c: Ctx, f: Tree)
    requires DelInv(c, f) && c.InR? && !IsRed(f)
    requires var s := c.left; s.Node? && !IsRed(s) && IsRed(s.left)
    ensures var s := c.left;
      var c' := InR(InR(c.up, s.left.(color := Black), s.item, c.color), s.right, c.item, Black);
      RedBlack(Plug(c', f)) && SameWalk(c, f, c', f)
  {
    var s, n := c.left, c.left.left;
    var n' := Node(n.left, n.item, Black, n.right);
    var lower := Node(s.right, c.item, Black, f);
    var up := Node(n', s.item, c.color, lower);
    assert BalancedAt(c.up, BlackHeight(f) + 1 + Tick(c.color)) && NoRedRedAt(c.up, c.color == Red);
    assert Balanced(n) && NoRedRed(n) && BlackHeight(s.right) == BlackHeight(n) == BlackHeight(f);
    assert Balanced(n') && NoRedRed(n') && BlackHeight(n') == BlackHeight(f) + 1;
    assert Balanced(lower) && NoRedRed(lower) && BlackHeight(lower) == BlackHeight(f) + 1;
    OuterRedBlack(c.up, Fill(c, f), up);
    assert InOrder(n') == InOrder(n);
    RotWalk(n', s.item, s.color, s.right, c.item, c.color, f, c.color, Black);
    PlugWalk(c.up, up, Node(s, c.item, c.color, f));
  }

  lemma OuterRedBlack(c: Ctx, old_f: Tree, f: Tree)
    requires f.Node? && old_f.Node? && f.color == old_f.color
    requires Balanced(f) && NoRedRed(f) && BalancedAt(c, BlackHeight(f)) && NoRedRedAt(c, IsRed(f))
    requires if c.Top? then !IsRed(f) else RootBlack(c)
    ensures RedBlack(Plug(c, f))
  {
    BalancedPlug(c, f);
    NoRedRedPlug(c, f);
    RootBlackPlug(c, f);
  }
}
