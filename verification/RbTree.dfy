// Red-black trees as values: the shape that the linked items spell out, seen either whole
// or as a subtree (the focus of a rebalancing loop) inside a context.
module RbTree {
  import opened MapItems

  datatype Tree = Leaf | Node(left: Tree, item: MapItem, color: Color, right: Tree)

  // The path from a subtree up to the root, with everything that hangs off it.
  datatype Ctx =
    | Top
    | InL(up: Ctx, item: MapItem, color: Color, right: Tree)
    | InR(up: Ctx, left: Tree, item: MapItem, color: Color)

  ghost function Plug(c: Ctx, f: Tree): Tree
  {
    match c
    case Top => f
    case InL(up, x, k, r) => Plug(up, Node(f, x, k, r))
    case InR(up, l, x, k) => Plug(up, Node(l, x, k, f))
  }

  ghost function Depth(c: Ctx): nat
  {
    match c
    case Top => 0
    case InL(up, _, _, _) => 1 + Depth(up)
    case InR(up, _, _, _) => 1 + Depth(up)
  }

  // ---------- in-order walk ----------

  ghost function InOrder(t: Tree): seq<MapItem>
  {
    match t
    case Leaf => []
    case Node(l, x, _, r) => InOrder(l) + [x] + InOrder(r)
  }

  // What the walk visits before and after the focus of a context.
  ghost function Pre(c: Ctx): seq<MapItem>
  {
    match c
    case Top => []
    case InL(up, _, _, _) => Pre(up)
    case InR(up, l, x, _) => Pre(up) + (InOrder(l) + [x])
  }

  ghost function Post(c: Ctx): seq<MapItem>
  {
    match c
    case Top => []
    case InL(up, x, _, r) => [x] + InOrder(r) + Post(up)
    case InR(up, _, _, _) => Post(up)
  }

  lemma AssocLeft<T>(a: seq<T>, b: seq<T>, x: T, c: seq<T>, d: seq<T>)
    ensures a + (b + [x] + c) + d == a + b + ([x] + c + d)
  {
  }

  lemma AssocRight<T>(a: seq<T>, b: seq<T>, x: T, c: seq<T>, d: seq<T>)
    ensures a + (b + [x] + c) + d == a + (b + [x]) + c + d
  {
  }

  lemma AssocMiddle<T>(a: seq<T>, b: seq<T>, x: T, c: seq<T>, d: seq<T>)
    ensures a + (b + [x] + c) + d == (a + b) + [x] + (c + d)
    ensures [x] + c + d == [x] + (c + d) && a + (b + [x]) == (a + b) + [x]
  {
  }

  lemma {:induction false} InOrderPlug(c: Ctx, f: Tree)
    ensures InOrder(Plug(c, f)) == Pre(c) + InOrder(f) + Post(c)
  {
    match c
    case Top =>
    case InL(up, x, k, r) =>
      InOrderPlug(up, Node(f, x, k, r));
      AssocLeft(Pre(up), InOrder(f), x, InOrder(r), Post(up));
    case InR(up, l, x, k) =>
      InOrderPlug(up, Node(l, x, k, f));
      AssocRight(Pre(up), InOrder(l), x, InOrder(f), Post(up));
  }

  ghost predicate NoDup<T>(s: seq<T>)
  {
    forall i, j :: 0 <= i < j < |s| ==> s[i] != s[j]
  }

  lemma NoDupConcat<T>(a: seq<T>, b: seq<T>)
    requires NoDup(a + b)
    ensures NoDup(a) && NoDup(b)
    ensures forall x | x in a :: x !in b
  {
    forall i, j | 0 <= i < j < |a|
      ensures a[i] != a[j]
    {
      assert (a + b)[i] == a[i] && (a + b)[j] == a[j];
    }
    forall i, j | 0 <= i < j < |b|
      ensures b[i] != b[j]
    {
      assert (a + b)[|a| + i] == b[i] && (a + b)[|a| + j] == b[j];
    }
    forall i, j | 0 <= i < |a| && 0 <= j < |b|
      ensures a[i] != b[j]
    {
      assert (a + b)[i] == a[i] && (a + b)[|a| + j] == b[j];
    }
  }

  // ---------- where an item sits ----------

  // The context of the (first) node that carries x.
  ghost function Path(t: Tree, x: MapItem, c: Ctx): Ctx
    requires x in InOrder(t)
    decreases t
  {
    if t.item == x then c
    else if x in InOrder(t.left) then Path(t.left, x, InL(c, t.item, t.color, t.right))
    else Path(t.right, x, InR(c, t.left, t.item, t.color))
  }

  ghost function Sub(t: Tree, x: MapItem): Tree
    requires x in InOrder(t)
  {
    if t.item == x then t
    else if x in InOrder(t.left) then Sub(t.left, x)
    else Sub(t.right, x)
  }

  lemma {:induction false} PathPlug(t: Tree, x: MapItem, c: Ctx)
    requires x in InOrder(t)
    ensures Plug(Path(t, x, c), Sub(t, x)) == Plug(c, t)
    ensures Sub(t, x).Node? && Sub(t, x).item == x
    decreases t
  {
    if t.item == x {
    } else if x in InOrder(t.left) {
      PathPlug(t.left, x, InL(c, t.item, t.color, t.right));
    } else {
      PathPlug(t.right, x, InR(c, t.left, t.item, t.color));
    }
  }

  // ---------- red-black invariants ----------

  ghost predicate IsRed(t: Tree)
  {
    t.Node? && t.color == Red
  }

  ghost function Tick(k: Color): nat
  {
    if k == Black then 1 else 0
  }

  // The number of black nodes on the leftmost path.
  ghost function BlackHeight(t: Tree): nat
  {
    match t
    case Leaf => 0
    case Node(l, _, k, _) => BlackHeight(l) + Tick(k)
  }

  // Every path from a node down to a leaf passes the same number of black nodes.
  ghost predicate Balanced(t: Tree)
  {
    match t
    case Leaf => true
    case Node(l, _, _, r) => Balanced(l) && Balanced(r) && BlackHeight(l) == BlackHeight(r)
  }

  // No red node has a red child.
  ghost predicate NoRedRed(t: Tree)
  {
    match t
    case Leaf => true
    case Node(l, _, k, r) => NoRedRed(l) && NoRedRed(r) && (k == Red ==> !IsRed(l) && !IsRed(r))
  }

  ghost predicate RedBlack(t: Tree)
  {
    !IsRed(t) && Balanced(t) && NoRedRed(t)
  }

  ghost function Blacken(t: Tree): Tree
  {
    if t.Node? then t.(color := Black) else t
  }

  // The context keeps the balance when its focus has black height h.
  ghost predicate BalancedAt(c: Ctx, h: nat)
  {
    match c
    case Top => true
    case InL(up, _, k, r) => Balanced(r) && BlackHeight(r) == h && BalancedAt(up, h + Tick(k))
    case InR(up, l, _, k) => Balanced(l) && BlackHeight(l) == h && BalancedAt(up, h + Tick(k))
  }

  // The context has no red-red edge when its focus is (red, or) not red.
  ghost predicate NoRedRedAt(c: Ctx, red: bool)
  {
    match c
    case Top => true
    case InL(up, _, k, r) =>
      NoRedRed(r) && (k == Red ==> !IsRed(r) && !red) && NoRedRedAt(up, k == Red)
    case InR(up, l, _, k) =>
      NoRedRed(l) && (k == Red ==> !IsRed(l) && !red) && NoRedRedAt(up, k == Red)
  }

  // The outermost node of a context, if there is one, is black.
  ghost predicate RootBlack(c: Ctx)
  {
    match c
    case Top => true
    case InL(up, _, k, _) => if up.Top? then k == Black else RootBlack(up)
    case InR(up, _, _, k) => if up.Top? then k == Black else RootBlack(up)
  }

  lemma {:induction false} BalancedPlug(c: Ctx, f: Tree)
    ensures Balanced(Plug(c, f)) <==> Balanced(f) && BalancedAt(c, BlackHeight(f))
  {
    match c
    case Top =>
    case InL(up, x, k, r) => BalancedPlug(up, Node(f, x, k, r));
    case InR(up, l, x, k) => BalancedPlug(up, Node(l, x, k, f));
  }

  lemma {:induction false} NoRedRedPlug(c: Ctx, f: Tree)
    ensures NoRedRed(Plug(c, f)) <==> NoRedRed(f) && NoRedRedAt(c, IsRed(f))
  {
    match c
    case Top =>
    case InL(up, x, k, r) => NoRedRedPlug(up, Node(f, x, k, r));
    case InR(up, l, x, k) => NoRedRedPlug(up, Node(l, x, k, f));
  }

  lemma {:induction false} RootBlackPlug(c: Ctx, f: Tree)
    ensures IsRed(Plug(c, f)) <==> if c.Top? then IsRed(f) else !RootBlack(c)
  {
    match c
    case Top =>
    case InL(up, x, k, r) => RootBlackPlug(up, Node(f, x, k, r));
    case InR(up, l, x, k) => RootBlackPlug(up, Node(l, x, k, f));
  }

  // ---------- insertion ----------

  // Invariant of the insertion loop: the tree is a red-black tree except that the red focus
  // may hang off a red parent.
  ghost predicate InsInv(c: Ctx, f: Tree)
  {
    && IsRed(f) && Balanced(f) && NoRedRed(f)
    && BalancedAt(c, BlackHeight(f)) && NoRedRedAt(c, false) && RootBlack(c)
  }

  // The loop stops below a parent that is not red; blackening the root then finishes.
  lemma InsDone(c: Ctx, f: Tree)
    requires InsInv(c, f)
    requires c.Top? || c.color == Black
    ensures RedBlack(Blacken(Plug(c, f)))
  {
    BalancedPlug(c, f);
    NoRedRedPlug(c, f);
  }

  // A new red leaf below any context of a red-black tree satisfies the loop invariant.
  lemma InsStart(c: Ctx, x: MapItem)
    requires RedBlack(Plug(c, Leaf))
    ensures InsInv(c, Node(Leaf, x, Red, Leaf))
  {
    BalancedPlug(c, Leaf);
    NoRedRedPlug(c, Leaf);
    RootBlackPlug(c, Leaf);
  }

  // ---------- deletion ----------

  // Invariant of the deletion loop: one black node is missing above the focus, whose own
  // colour does not matter since it ends up black.
  ghost predicate DelInv(c: Ctx, f: Tree)
  {
    && Balanced(f) && NoRedRed(Blacken(f))
    && BalancedAt(c, BlackHeight(f) + 1) && NoRedRedAt(c, false) && RootBlack(c)
  }

  // Blackening a red focus, or reaching the root, repays the missing black node.
  lemma DelDone(c: Ctx, f: Tree)
    requires DelInv(c, f)
    requires IsRed(f) || c.Top?
    ensures RedBlack(Plug(c, Blacken(f)))
  {
    BalancedPlug(c, Blacken(f));
    NoRedRedPlug(c, Blacken(f));
    RootBlackPlug(c, Blacken(f));
  }

  // Splicing out a black node with at most one child leaves exactly one black node missing.
  lemma DelStart(c: Ctx, l: Tree, x: MapItem, r: Tree)
    requires l.Leaf? || r.Leaf?
    requires RedBlack(Plug(c, Node(l, x, Black, r)))
    ensures DelInv(c, if l.Node? then l else r)
  {
    var f := Node(l, x, Black, r);
    BalancedPlug(c, f);
    NoRedRedPlug(c, f);
    RootBlackPlug(c, f);
  }

  // Splicing out a red node with at most one child (which is then none) needs no rebalancing.
  lemma DelRed(c: Ctx, l: Tree, x: MapItem, r: Tree)
    requires l.Leaf? || r.Leaf?
    requires RedBlack(Plug(c, Node(l, x, Red, r)))
    ensures l.Leaf? && r.Leaf? && RedBlack(Plug(c, Leaf))
  {
    var f := Node(l, x, Red, r);
    BalancedPlug(c, f);
    NoRedRedPlug(c, f);
    RootBlackPlug(c, f);
    assert l.Node? ==> BlackHeight(l) >= 1;
    assert r.Node? ==> BlackHeight(r) >= 1;
    BalancedPlug(c, Leaf);
    NoRedRedPlug(c, Leaf);
    RootBlackPlug(c, Leaf);
    NoRedRedAtWeaken(c);
  }

  lemma NoRedRedAtWeaken(c: Ctx)
    requires NoRedRedAt(c, true)
    ensures NoRedRedAt(c, false)
  {
  }

  // ---------- height ----------

  ghost function Max(a: nat, b: nat): nat
  {
    if a < b then b else a
  }

  ghost function Height(t: Tree): nat
  {
    match t
    case Leaf => 0
    case Node(l, _, _, r) => 1 + Max(Height(l), Height(r))
  }

  ghost function Pow2(n: nat): nat
  {
    if n == 0 then 1 else 2 * Pow2(n - 1)
  }

  lemma {:induction false} HeightBlackHeight(t: Tree)
    requires Balanced(t) && NoRedRed(t)
    ensures Height(t) <= 2 * BlackHeight(t) + (if IsRed(t) then 1 else 0)
  {
    if t.Node? {
      HeightBlackHeight(t.left);
      HeightBlackHeight(t.right);
    }
  }

  lemma {:induction false} SizeBlackHeight(t: Tree)
    requires Balanced(t)
    ensures Pow2(BlackHeight(t)) <= |InOrder(t)| + 1
  {
    if t.Node? {
      SizeBlackHeight(t.left);
      SizeBlackHeight(t.right);
    }
  }

  lemma Pow2Monotone(a: nat, b: nat)
    requires a <= b
    ensures Pow2(a) <= Pow2(b)
  {
  }

  // Height <= 2 * log2(size + 1), with the logarithm on the other side.
  lemma HeightBound(t: Tree)
    requires RedBlack(t)
    ensures Pow2((Height(t) + 1) / 2) <= |InOrder(t)| + 1
  {
    HeightBlackHeight(t);
    SizeBlackHeight(t);
    Pow2Monotone((Height(t) + 1) / 2, BlackHeight(t));
  }
}
