// How linked items spell out a tree, and what each change of links does to that tree.
module RbLinks {
  import opened MapItems
  import opened RbTree

  // The pointer that stands for a tree: its top item, or the shared nil.
  ghost function Ptr(nil: MapItem, t: Tree): MapItem
  {
    if t.Node? then t.item else nil
  }

  // The parent that the focus of a context hangs off: an item, or the root sentinel.
  ghost function Par(root: MapItem, c: Ctx): MapItem
  {
    if c.Top? then root else c.item
  }

  // Child, parent and colour fields of the items spell out tree t, hanging off up.
  ghost predicate Spells(m: Mem, nil: MapItem, t: Tree, up: MapItem)
  {
    match t
    case Leaf => true
    case Node(l, x, k, r) =>
      && x in m && x != nil
      && m[x] == Cell(Ptr(nil, l), Ptr(nil, r), up, k)
      && Spells(m, nil, l, x) && Spells(m, nil, r, x)
  }

  // The same for a context whose focus is p.
  ghost predicate SpellsAt(m: Mem, root: MapItem, nil: MapItem, c: Ctx, p: MapItem)
    requires root in m
  {
    match c
    case Top => m[root].left == p
    case InL(up, x, k, r) =>
      && x in m && x != nil
      && m[x] == Cell(p, Ptr(nil, r), Par(root, up), k)
      && Spells(m, nil, r, x) && SpellsAt(m, root, nil, up, x)
    case InR(up, l, x, k) =>
      && x in m && x != nil
      && m[x] == Cell(Ptr(nil, l), p, Par(root, up), k)
      && Spells(m, nil, l, x) && SpellsAt(m, root, nil, up, x)
  }

  // The two sentinels and the items of t, correctly linked.
  ghost predicate Rep(m: Mem, root: MapItem, nil: MapItem, t: Tree)
  {
    && root in m && nil in m && root != nil
    && m[root].up == root && m[root].left == Ptr(nil, t)
    && m[root].color == Black && m[nil].color == Black
    && root !in InOrder(t) && nil !in InOrder(t) && NoDup(InOrder(t))
    && Spells(m, nil, t, root)
  }

  lemma {:induction false} SpellsItems(m: Mem, nil: MapItem, t: Tree, up: MapItem)
    requires Spells(m, nil, t, up)
    ensures forall x | x in InOrder(t) :: x in m && x != nil
  {
    if t.Node? {
      SpellsItems(m, nil, t.left, t.item);
      SpellsItems(m, nil, t.right, t.item);
    }
  }

  // Only the cells of the tree itself matter.
  lemma {:induction false} SpellsFrame(m: Mem, m': Mem, nil: MapItem, t: Tree, up: MapItem)
    requires Spells(m, nil, t, up)
    requires forall x | x in InOrder(t) && x in m :: x in m' && m'[x] == m[x]
    ensures Spells(m', nil, t, up)
  {
    if t.Node? {
      SpellsFrame(m, m', nil, t.left, t.item);
      SpellsFrame(m, m', nil, t.right, t.item);
    }
  }

  lemma {:induction false} SpellsAtFrame(m: Mem, m': Mem, root: MapItem, nil: MapItem, c: Ctx, p: MapItem)
    requires root in m && root in m' && m'[root].left == m[root].left
    requires SpellsAt(m, root, nil, c, p)
    requires forall x | x in Pre(c) + Post(c) && x in m :: x in m' && m'[x] == m[x]
    ensures SpellsAt(m', root, nil, c, p)
  {
    match c
    case Top =>
    case InL(up, x, k, r) =>
      SpellsFrame(m, m', nil, r, x);
      SpellsAtFrame(m, m', root, nil, up, x);
    case InR(up, l, x, k) =>
      SpellsFrame(m, m', nil, l, x);
      SpellsAtFrame(m, m', root, nil, up, x);
  }

  // A whole tree is spelled out iff its focus and its context are.
  lemma {:induction false} SpellsPlug(m: Mem, root: MapItem, nil: MapItem, c: Ctx, f: Tree)
    requires root in m
    ensures Spells(m, nil, Plug(c, f), root) && m[root].left == Ptr(nil, Plug(c, f))
      <==> Spells(m, nil, f, Par(root, c)) && SpellsAt(m, root, nil, c, Ptr(nil, f))
  {
    match c
    case Top =>
    case InL(up, x, k, r) => SpellsPlug(m, root, nil, up, Node(f, x, k, r));
    case InR(up, l, x, k) => SpellsPlug(m, root, nil, up, Node(l, x, k, f));
  }

  // Rep, seen from a focus.
  ghost predicate RepAt(m: Mem, root: MapItem, nil: MapItem, c: Ctx, f: Tree)
  {
    && root in m && nil in m && root != nil
    && m[root].up == root && m[root].color == Black && m[nil].color == Black
    && (var s := Pre(c) + InOrder(f) + Post(c); root !in s && nil !in s && NoDup(s))
    && Spells(m, nil, f, Par(root, c)) && SpellsAt(m, root, nil, c, Ptr(nil, f))
  }

  lemma RepPlug(m: Mem, root: MapItem, nil: MapItem, c: Ctx, f: Tree)
    ensures Rep(m, root, nil, Plug(c, f)) <==> RepAt(m, root, nil, c, f)
  {
    hide NoDup;
    InOrderPlug(c, f);
    if root in m {
      SpellsPlug(m, root, nil, c, f);
    }
  }

  // ---------- elementary link changes ----------

  ghost function SetUp(m: Mem, x: MapItem, v: MapItem): Mem
    requires x in m
  {
    m[x := m[x].(up := v)]
  }

  ghost function SetLeft(m: Mem, x: MapItem, v: MapItem): Mem
    requires x in m
  {
    m[x := m[x].(left := v)]
  }

  ghost function SetRight(m: Mem, x: MapItem, v: MapItem): Mem
    requires x in m
  {
    m[x := m[x].(right := v)]
  }

  ghost function SetColor(m: Mem, x: MapItem, k: Color): Mem
    requires x in m
  {
    m[x := m[x].(color := k)]
  }

  // Writing through the pointer to x that its parent holds.
  ghost function SetChild(m: Mem, x: MapItem, v: MapItem): Mem
    requires x in m && m[x].up in m
  {
    var p := m[x].up;
    if m[p].left == x then SetLeft(m, p, v) else SetRight(m, p, v)
  }

  ghost function RotLeft(m: Mem, nil: MapItem, a: MapItem): Mem
    requires a in m && m[a].up in m && m[a].right in m && m[m[a].right].left in m
  {
    var x := m[a].right;
    var m1 := SetChild(m, a, x);
    var m2 := SetUp(m1, x, m1[a].up);
    var b := m2[x].left;
    var m3 := SetRight(m2, a, b);
    var m4 := if b != nil then SetUp(m3, b, a) else m3;
    var m5 := SetLeft(m4, x, a);
    SetUp(m5, a, x)
  }

  ghost function RotRight(m: Mem, nil: MapItem, a: MapItem): Mem
    requires a in m && m[a].up in m && m[a].left in m && m[m[a].left].right in m
  {
    var x := m[a].left;
    var m1 := SetChild(m, a, x);
    var m2 := SetUp(m1, x, m1[a].up);
    var b := m2[x].right;
    var m3 := SetLeft(m2, a, b);
    var m4 := if b != nil then SetUp(m3, b, a) else m3;
    var m5 := SetRight(m4, x, a);
    SetUp(m5, a, x)
  }

  // ---------- what they do to the tree ----------

  // Redirecting the parent's pointer moves the focus of the context from p to q.  The focus
  // itself may already be relinked, so p is identified by its parent link only.
  lemma Redirect(m: Mem, m': Mem, root: MapItem, nil: MapItem, c: Ctx, p: MapItem, q: MapItem)
    requires root in m && nil in m && root != nil && p in m && m[p].up == Par(root, c)
    requires SpellsAt(m, root, nil, c, p) && NoDup(Pre(c) + Post(c))
    requires root !in Pre(c) + Post(c) && p !in Pre(c) + Post(c)
    requires c.InR? ==> p != nil || c.left.Node?
    requires Par(root, c) in m && m' == SetChild(m, p, q)
    ensures root in m' && SpellsAt(m', root, nil, c, q)
  {
    hide NoDup;
    match c
    case Top =>
    case InL(up, x, k, r) =>
      assert Pre(c) + Post(c) == Pre(up) + [x] + (InOrder(r) + Post(up));
      NoDupApart(Pre(up), x, InOrder(r) + Post(up));
      SpellsFrame(m, m', nil, r, x);
      SpellsAtFrame(m, m', root, nil, up, x);
    case InR(up, l, x, k) =>
      assert Pre(c) + Post(c) == (Pre(up) + InOrder(l)) + [x] + Post(up);
      NoDupApart(Pre(up) + InOrder(l), x, Post(up));
      assert l.Node? ==> l.item in Pre(c);
      SpellsFrame(m, m', nil, l, x);
      SpellsAtFrame(m, m', root, nil, up, x);
  }

  lemma NoDupApart<T>(a: seq<T>, x: T, b: seq<T>)
    requires NoDup(a + [x] + b)
    ensures x !in a && x !in b && NoDup(a + b)
  {
    NoDupConcat(a + [x], b);
    assert a + [x] + b == a + ([x] + b);
    NoDupConcat(a, [x] + b);
    NoDupConcat([x], b);
    NoDupConcat(a, [x]);
    forall i, j | 0 <= i < j < |a + b|
      ensures (a + b)[i] != (a + b)[j]
    {
      if i < |a| <= j {
        assert (a + b)[j] in b;
        assert (a + b)[j] in [x] + b;
      }
    }
  }

  // A rotation, cell by cell.
  lemma RotLeftCells(m: Mem, nil: MapItem, p: MapItem, a: MapItem, x: MapItem, b: MapItem)
    requires a in m && p in m && x in m && b in m
    requires m[a].up == p && m[a].right == x && m[x].left == b
    requires a != x && p != a && p != x && (b != nil ==> b != a && b != x && b != p)
    ensures var m' := RotLeft(m, nil, a);
      && m'.Keys == m.Keys
      && m'[a] == Cell(m[a].left, b, x, m[a].color)
      && m'[x] == Cell(a, m[x].right, p, m[x].color)
      && m'[p] == SetChild(m, a, x)[p]
      && (b != nil ==> m'[b] == m[b].(up := a))
      && (forall y | y in m && y != a && y != x && y != p && (b == nil || y != b) :: m'[y] == m[y])
  {
  }

  lemma RotRightCells(m: Mem, nil: MapItem, p: MapItem, a: MapItem, x: MapItem, b: MapItem)
    requires a in m && p in m && x in m && b in m
    requires m[a].up == p && m[a].left == x && m[x].right == b
    requires a != x && p != a && p != x && (b != nil ==> b != a && b != x && b != p)
    ensures var m' := RotRight(m, nil, a);
      && m'.Keys == m.Keys
      && m'[a] == Cell(b, m[a].right, x, m[a].color)
      && m'[x] == Cell(m[x].left, a, p, m[x].color)
      && m'[p] == SetChild(m, a, x)[p]
      && (b != nil ==> m'[b] == m[b].(up := a))
      && (forall y | y in m && y != a && y != x && y != p && (b == nil || y != b) :: m'[y] == m[y])
  {
  }

  // A rotation does not change the walk, whatever the colours.
  lemma RotWalk(w: Tree, u: MapItem, ku: Color, b: Tree, v: MapItem, kv: Color, z: Tree, kv': Color, ku': Color)
    ensures var s := InOrder(w) + [u] + InOrder(b) + [v] + InOrder(z);
      InOrder(Node(w, u, ku, Node(b, v, kv, z))) == s && InOrder(Node(Node(w, u, ku', b), v, kv', z)) == s
  {
  }

  // A left rotation at a turns  (w a (b x z))  into  ((w a b) x z)  and leaves nil alone.
  lemma RotLeftRep(m: Mem, root: MapItem, nil: MapItem, c: Ctx,
                   w: Tree, a: MapItem, ka: Color, b: Tree, x: MapItem, kx: Color, z: Tree)
    requires RepAt(m, root, nil, c, Node(w, a, ka, Node(b, x, kx, z)))
    ensures a in m && m[a].up in m && m[a].right in m && m[m[a].right].left in m
    ensures var m' := RotLeft(m, nil, a);
      m'.Keys == m.Keys && m'[nil] == m[nil] && RepAt(m', root, nil, c, Node(Node(w, a, ka, b), x, kx, z))
  {
    hide NoDup;
    var f := Node(w, a, ka, Node(b, x, kx, z));
    var f' := Node(Node(w, a, ka, b), x, kx, z);
    RotWalk(w, a, ka, b, x, kx, z, kx, ka);
    assert Spells(m, nil, f.right, a);
    FocusApart(c, f);
    RotApart(w, a, b, x, z);
    ParIn(m, root, nil, c, f);
    RotCells(m, nil, b, x);
    RotLeftCells(m, nil, Par(root, c), a, x, Ptr(nil, b));
    var m' := RotLeft(m, nil, a);
    RedirectFocus(m, m', root, nil, c, f, x);
    RotSubtrees(m, m', nil, Par(root, c), w, a, b, x, z, a, x);
    assert Spells(m', nil, f'.left, x) && Spells(m', nil, f', Par(root, c));
    assert RepAt(m', root, nil, c, f');
  }

  // A right rotation at a turns  ((w x b) a z)  into  (w x (b a z)).
  lemma RotRightRep(m: Mem, root: MapItem, nil: MapItem, c: Ctx,
                    w: Tree, x: MapItem, kx: Color, b: Tree, a: MapItem, ka: Color, z: Tree)
    requires RepAt(m, root, nil, c, Node(Node(w, x, kx, b), a, ka, z))
    ensures a in m && m[a].up in m && m[a].left in m && m[m[a].left].right in m
    ensures var m' := RotRight(m, nil, a);
      m'.Keys == m.Keys && m'[nil] == m[nil] && RepAt(m', root, nil, c, Node(w, x, kx, Node(b, a, ka, z)))
  {
    hide NoDup;
    var f := Node(Node(w, x, kx, b), a, ka, z);
    var f' := Node(w, x, kx, Node(b, a, ka, z));
    RotWalk(w, x, kx, b, a, ka, z, ka, kx);
    assert Spells(m, nil, f.left, a);
    FocusApart(c, f);
    RotApart(w, x, b, a, z);
    ParIn(m, root, nil, c, f);
    RotCells(m, nil, b, x);
    RotRightCells(m, nil, Par(root, c), a, x, Ptr(nil, b));
    var m' := RotRight(m, nil, a);
    RedirectFocus(m, m', root, nil, c, f, x);
    RotSubtrees(m, m', nil, Par(root, c), w, x, b, a, z, a, x);
    assert Spells(m', nil, f'.right, x) && Spells(m', nil, f', Par(root, c));
    assert RepAt(m', root, nil, c, f');
  }

  // The three subtrees of a rotation survive; the middle one changes its parent.
  lemma RotSubtrees(m: Mem, m': Mem, nil: MapItem, p: MapItem,
                    w: Tree, u: MapItem, b: Tree, v: MapItem, z: Tree, top: MapItem, x: MapItem)
    requires Spells(m, nil, w, u) && Spells(m, nil, b, x) && Spells(m, nil, z, v)
    requires NoDup(InOrder(b)) && m'.Keys == m.Keys
    requires forall y | y in InOrder(w) || y in InOrder(b) || y in InOrder(z) :: y != u && y != v && y != p
    requires forall y | y in InOrder(b) :: y !in InOrder(w) && y !in InOrder(z)
    requires b.Node? ==> b.item in InOrder(b) && b.item in m && m'[b.item] == m[b.item].(up := top)
    requires forall y | y in m && y != u && y != v && y != p && (b.Leaf? || y != b.item) :: m'[y] == m[y]
    ensures Spells(m', nil, w, u) && Spells(m', nil, b, top) && Spells(m', nil, z, v)
  {
    SpellsFrame(m, m', nil, w, u);
    SpellsFrame(m, m', nil, z, v);
    Reparent(m, m', nil, b, x, top);
  }

  // Relinking only cells of the focus, and the parent's pointer to it, moves the focus to x.
  lemma RedirectFocus(m: Mem, m': Mem, root: MapItem, nil: MapItem, c: Ctx, f: Tree, x: MapItem)
    requires RepAt(m, root, nil, c, f) && f.Node?
    requires Par(root, c) in m && m'.Keys == m.Keys && f.item in m
    requires m[f.item].up == Par(root, c) && m'[Par(root, c)] == SetChild(m, f.item, x)[Par(root, c)]
    requires forall y | y in m && y !in InOrder(f) && y != Par(root, c) :: m'[y] == m[y]
    ensures SpellsAt(m', root, nil, c, x)
    ensures m'[root].up == root && m'[root].color == m[root].color && m'[nil] == m[nil]
  {
    hide NoDup;
    FocusApart(c, f);
    ParIn(m, root, nil, c, f);
    var m1 := SetChild(m, f.item, x);
    Redirect(m, m1, root, nil, c, f.item, x);
    assert forall y | y in m && y !in InOrder(f) :: m'[y] == m1[y];
    assert forall y | y in Pre(c) + Post(c) :: y !in InOrder(f);
    SpellsAtFrame(m1, m', root, nil, c, x);
  }

  lemma RotCells(m: Mem, nil: MapItem, b: Tree, x: MapItem)
    requires nil in m && Spells(m, nil, b, x)
    ensures Ptr(nil, b) in m
    ensures b.Node? ==> b.item in InOrder(b) && b.item != nil && m[b.item].up == x
  {
  }

  // The items of the focus are none of the items around it.
  lemma FocusApart(c: Ctx, f: Tree)
    requires NoDup(Pre(c) + InOrder(f) + Post(c))
    ensures NoDup(InOrder(f)) && NoDup(Pre(c) + Post(c))
    ensures forall x | x in InOrder(f) :: x !in Pre(c) + Post(c)
  {
    var p, s, q := Pre(c), InOrder(f), Post(c);
    NoDupConcat(p + s, q);
    NoDupConcat(p, s);
    forall i, j | 0 <= i < j < |p + q|
      ensures (p + q)[i] != (p + q)[j]
    {
      var i' := if i < |p| then i else i + |s|;
      var j' := if j < |p| then j else j + |s|;
      assert (p + s + q)[i'] == (p + q)[i] && (p + s + q)[j'] == (p + q)[j];
    }
    forall x | x in s
      ensures x !in p + q
    {
      assert x in p + s;
    }
  }

  lemma RotApart(w: Tree, a: MapItem, b: Tree, x: MapItem, z: Tree)
    requires NoDup(InOrder(w) + [a] + InOrder(b) + [x] + InOrder(z))
    ensures a != x
    ensures a !in InOrder(w) && a !in InOrder(b) && a !in InOrder(z)
    ensures x !in InOrder(w) && x !in InOrder(b) && x !in InOrder(z)
    ensures NoDup(InOrder(b))
    ensures forall y | y in InOrder(b) :: y !in InOrder(w) && y !in InOrder(z)
  {
    var s1, s2, s3 := InOrder(w), InOrder(b), InOrder(z);
    NoDupConcat(s1 + [a] + s2 + [x], s3);
    NoDupConcat(s1 + [a] + s2, [x]);
    NoDupConcat(s1 + [a], s2);
    NoDupConcat(s1, [a]);
    assert x in s1 + [a] + s2 + [x];
    forall y | y in s1 + [a] + s2
      ensures y in s1 + [a] + s2 + [x]
    {
    }
    assert x in [x];
    assert a in s1 + [a] + s2;
    assert a in [a];
    assert a in s1 + [a];
  }

  // The parent of the focus is an item with a cell of its own, and is not in the focus.
  lemma ParIn(m: Mem, root: MapItem, nil: MapItem, c: Ctx, f: Tree)
    requires RepAt(m, root, nil, c, f)
    ensures Par(root, c) in m && Par(root, c) != nil && Par(root, c) !in InOrder(f)
    ensures f.Node? ==> m[f.item].up == Par(root, c)
    ensures forall x | x in InOrder(f) :: x in m && x != nil && x != root
  {
    FocusApart(c, f);
    SpellsItems(m, nil, f, Par(root, c));
  }

  // Handing subtree b over to a new parent changes one up pointer, or none if b is empty.
  lemma Reparent(m: Mem, m': Mem, nil: MapItem, b: Tree, old_up: MapItem, new_up: MapItem)
    requires Spells(m, nil, b, old_up) && NoDup(InOrder(b))
    requires b.Node? ==> b.item in m' && m'[b.item] == m[b.item].(up := new_up)
    requires forall x | x in InOrder(b) && x != Ptr(nil, b) && x in m :: x in m' && m'[x] == m[x]
    ensures Spells(m', nil, b, new_up)
  {
    if b.Node? {
      NoDupApart(InOrder(b.left), b.item, InOrder(b.right));
      SpellsFrame(m, m', nil, b.left, b.item);
      SpellsFrame(m, m', nil, b.right, b.item);
    }
  }

  // Colouring the focus changes one colour in the tree.
  lemma SetColorRep(m: Mem, root: MapItem, nil: MapItem, c: Ctx, l: Tree, x: MapItem, k: Color, r: Tree, k': Color)
    requires RepAt(m, root, nil, c, Node(l, x, k, r))
    ensures x in m && x != nil && RepAt(SetColor(m, x, k'), root, nil, c, Node(l, x, k', r))
  {
    hide NoDup;
    var f := Node(l, x, k, r);
    FocusApart(c, f);
    NoDupApart(InOrder(l), x, InOrder(r));
    ParIn(m, root, nil, c, f);
    var m' := SetColor(m, x, k');
    SpellsFrame(m, m', nil, l, x);
    SpellsFrame(m, m', nil, r, x);
    SpellsAtFrame(m, m', root, nil, c, x);
  }
}
