// Attaching an item, splicing one out, and putting an item in another one's place.
module RbEdit {
  import opened MapItems
  import opened RbTree
  import opened RbLinks
  import opened RbSteps

  // ---------- attaching a new leaf ----------

  // Item x, not in the map so far, becomes the focus of a context whose focus was empty.
  ghost function Attach(m: Mem, root: MapItem, nil: MapItem, c: Ctx, x: MapItem): Mem
    requires Par(root, c) in m
  {
    var p := Par(root, c);
    var m1 := if c.InR? then SetRight(m, p, x) else SetLeft(m, p, x);
    m1[x := Cell(nil, nil, p, Red)]
  }

  lemma AttachRep(m: Mem, root: MapItem, nil: MapItem, c: Ctx, x: MapItem)
    requires RepAt(m, root, nil, c, Leaf) && x !in m
    ensures Par(root, c) in m
    ensures RepAt(Attach(m, root, nil, c, x), root, nil, c, Node(Leaf, x, Red, Leaf))
  {
    hide NoDup;
    ParIn(m, root, nil, c, Leaf);
    var m' := Attach(m, root, nil, c, x);
    assert Pre(c) + InOrder(Leaf) + Post(c) == Pre(c) + Post(c);
    assert forall y | y in Pre(c) + Post(c) :: y in m by {
      RepItems(m, root, nil, c, Leaf);
    }
    NoDupInsert(Pre(c), x, Post(c));
    assert InOrder(Node(Leaf, x, Red, Leaf)) == [x];
    assert NoDup(Pre(c) + InOrder(Node(Leaf, x, Red, Leaf)) + Post(c));
    AttachAt(m, root, nil, c, x);
    assert m'[x] == Cell(nil, nil, Par(root, c), Red) && x != nil && x != root;
    assert root !in Pre(c) + [x] + Post(c) && nil !in Pre(c) + [x] + Post(c);
    assert Spells(m', nil, Node(Leaf, x, Red, Leaf), Par(root, c));
  }

  lemma AttachAt(m: Mem, root: MapItem, nil: MapItem, c: Ctx, x: MapItem)
    requires root in m && nil in m && root != nil && x !in m && Par(root, c) in m && Par(root, c) != nil
    requires SpellsAt(m, root, nil, c, nil) && NoDup(Pre(c) + Post(c)) && root !in Pre(c) + Post(c)
    requires forall y | y in Pre(c) + Post(c) :: y in m
    ensures var m' := Attach(m, root, nil, c, x);
      && SpellsAt(m', root, nil, c, x) && m'[nil] == m[nil]
      && m'[root].up == m[root].up && m'[root].color == m[root].color
  {
    var m' := Attach(m, root, nil, c, x);
    match c
    case Top =>
    case InL(up, y, k, r) =>
      assert Pre(c) + Post(c) == Pre(up) + [y] + (InOrder(r) + Post(up));
      NoDupApart(Pre(up), y, InOrder(r) + Post(up));
      SpellsFrame(m, m', nil, r, y);
      SpellsAtFrame(m, m', root, nil, up, y);
    case InR(up, l, y, k) =>
      assert Pre(c) + Post(c) == (Pre(up) + InOrder(l)) + [y] + Post(up);
      NoDupApart(Pre(up) + InOrder(l), y, Post(up));
      SpellsFrame(m, m', nil, l, y);
      SpellsAtFrame(m, m', root, nil, up, y);
  }

  lemma NoDupInsert<T>(a: seq<T>, x: T, b: seq<T>)
    requires NoDup(a + b) && x !in a + b
    ensures NoDup(a + [x] + b)
  {
    var s, s' := a + b, a + [x] + b;
    forall i, j | 0 <= i < j < |s'|
      ensures s'[i] != s'[j]
    {
      assert i < |a| ==> s'[i] == s[i];
      assert i > |a| ==> s'[i] == s[i - 1];
      assert j < |a| ==> s'[j] == s[j];
      assert j > |a| ==> s'[j] == s[j - 1];
    }
  }

  // Every item of a represented tree has a cell.
  lemma RepItems(m: Mem, root: MapItem, nil: MapItem, c: Ctx, f: Tree)
    requires RepAt(m, root, nil, c, f)
    ensures forall x | x in Pre(c) + InOrder(f) + Post(c) :: x in m && x != nil && x != root
  {
    RepPlug(m, root, nil, c, f);
    InOrderPlug(c, f);
    SpellsItems(m, nil, Plug(c, f), root);
  }

  lemma RepNoDup(m: Mem, root: MapItem, nil: MapItem, c: Ctx, f: Tree)
    requires RepAt(m, root, nil, c, f)
    ensures NoDup(Pre(c) + InOrder(f) + Post(c))
  {
  }

  lemma RepItem(m: Mem, root: MapItem, nil: MapItem, t: Tree, x: MapItem)
    requires Rep(m, root, nil, t) && x in InOrder(t)
    ensures x in m && x != nil && x != root && NoDup(InOrder(t))
  {
    SpellsItems(m, nil, t, root);
  }

  // Cells of items outside the tree do not matter.
  lemma RepFrame(m: Mem, m': Mem, root: MapItem, nil: MapItem, t: Tree)
    requires Rep(m, root, nil, t) && root in m' && nil in m'
    requires m'[root].up == root && m'[root].left == m[root].left && m'[root].color == Black && m'[nil].color == Black
    requires forall x | x in InOrder(t) && x in m :: x in m' && m'[x] == m[x]
    ensures Rep(m', root, nil, t)
  {
    SpellsFrame(m, m', nil, t, root);
  }

  // ---------- splicing an item out ----------

  // The child of an item that has at most one.
  ghost function OnlyChild(l: Tree, r: Tree): Tree
  {
    if l.Node? then l else r
  }

  // The child, or nil, takes over the parent; nil's up pointer is changed, too.
  ghost function Splice(m: Mem, d: MapItem, p: MapItem): Mem
    requires d in m && p in m && m[d].up in m && d != p
  {
    SetChild(SetUp(m, p, m[d].up), d, p)
  }

  lemma SpliceRep(m: Mem, root: MapItem, nil: MapItem, c: Ctx, l: Tree, d: MapItem, k: Color, r: Tree)
    requires RepAt(m, root, nil, c, Node(l, d, k, r)) && (l.Leaf? || r.Leaf?)
    ensures d in m && m[d] == Cell(Ptr(nil, l), Ptr(nil, r), Par(root, c), k) && m[d].up in m
    ensures var p := Ptr(nil, OnlyChild(l, r));
      p in m && p != d && Splice(m, d, p)[p].up == Par(root, c)
      && RepAt(Splice(m, d, p), root, nil, c, OnlyChild(l, r))
  {
    hide NoDup;
    var f := Node(l, d, k, r);
    var ch := OnlyChild(l, r);
    var p := Ptr(nil, ch);
    FocusApart(c, f);
    ParIn(m, root, nil, c, f);
    assert InOrder(ch) == InOrder(l) + InOrder(r);
    NoDupApart(InOrder(l), d, InOrder(r));
    NoDupDrop(Pre(c), InOrder(l), d, InOrder(r), Post(c));
    SpliceCells(m, nil, ch, d, Par(root, c));
    var m2 := Splice(m, d, p);
    RedirectFocus'(m, m2, root, nil, c, f, p);
    Reparent(m, m2, nil, ch, d, Par(root, c));
  }

  lemma SpliceCells(m: Mem, nil: MapItem, ch: Tree, d: MapItem, up: MapItem)
    requires nil in m && d in m && up in m && m[d].up == up && d != nil && up != nil && d != up
    requires Spells(m, nil, ch, d) && d !in InOrder(ch) && up !in InOrder(ch)
    ensures var p := Ptr(nil, ch);
      var m2 := Splice(m, d, p);
      && p in m && p != d && p != up && m2.Keys == m.Keys
      && m2[p] == m[p].(up := up) && m2[d] == m[d] && m2[up] == SetChild(m, d, p)[up]
      && forall y | y in m && y != p && y != up :: m2[y] == m[y]
  {
  }

  // As RedirectFocus, for a new focus that may be nil or come from outside the tree.
  lemma RedirectFocus'(m: Mem, m': Mem, root: MapItem, nil: MapItem, c: Ctx, f: Tree, x: MapItem)
    requires RepAt(m, root, nil, c, f) && f.Node?
    requires x !in Pre(c) + Post(c) && x != root
    requires Par(root, c) in m && m'.Keys == m.Keys && f.item in m
    requires m[f.item].up == Par(root, c) && m'[Par(root, c)] == SetChild(m, f.item, x)[Par(root, c)]
    requires forall y | y in m && y !in InOrder(f) && y != x && y != Par(root, c) && y != nil :: m'[y] == m[y]
    ensures SpellsAt(m', root, nil, c, x)
    ensures m'[root].up == root && m'[root].color == m[root].color
  {
    FocusApart(c, f);
    ParIn(m, root, nil, c, f);
    RedirectChild(m, root, nil, c, f, x);
    assert forall y | y in Pre(c) + Post(c) :: y !in InOrder(f) && y != nil;
    SpellsAtFrame(SetChild(m, f.item, x), m', root, nil, c, x);
  }

  lemma RedirectChild(m: Mem, root: MapItem, nil: MapItem, c: Ctx, f: Tree, x: MapItem)
    requires RepAt(m, root, nil, c, f) && f.Node?
    requires Par(root, c) in m && f.item in m && m[f.item].up == Par(root, c)
    ensures var m1 := SetChild(m, f.item, x);
      && m1.Keys == m.Keys && SpellsAt(m1, root, nil, c, x)
      && m1[root].up == root && m1[root].color == m[root].color
      && forall y | y in m && y != Par(root, c) :: m1[y] == m[y]
  {
    hide NoDup;
    FocusApart(c, f);
    ParIn(m, root, nil, c, f);
    Redirect(m, SetChild(m, f.item, x), root, nil, c, f.item, x);
  }

  lemma NoDupDrop<T>(a: seq<T>, b: seq<T>, x: T, d: seq<T>, e: seq<T>)
    requires NoDup(a + (b + [x] + d) + e)
    ensures NoDup(a + (b + d) + e)
  {
    assert a + (b + [x] + d) + e == (a + b) + [x] + (d + e);
    NoDupApart(a + b, x, d + e);
    assert a + (b + d) + e == (a + b) + (d + e);
  }

  // ---------- putting one item in another one's place ----------

  // Item d copies the tree links of x.
  ghost function CopyLinks(m: Mem, x: MapItem, d: MapItem): Mem
    requires x in m && d in m && d != x
  {
    var m1 := SetUp(m, d, m[x].up);
    var m2 := SetLeft(m1, d, m1[x].left);
    SetRight(m2, d, m2[x].right)
  }

  // Item d takes over all links and the colour of x.
  ghost function Replace(m: Mem, x: MapItem, d: MapItem): Mem
    requires x in m && d in m && d != x
    requires m[x].up in m && m[x].left in m && m[x].right in m
  {
    var m3 := CopyLinks(m, x, d);
    var m4 := SetChild(m3, x, d);
    var m5 := SetUp(m4, m4[x].right, d);
    var m6 := SetUp(m5, m5[x].left, d);
    SetColor(m6, d, m6[x].color)
  }

  lemma ReplaceRep(m: Mem, root: MapItem, nil: MapItem, c: Ctx, l: Tree, x: MapItem, k: Color, r: Tree, d: MapItem)
    requires RepAt(m, root, nil, c, Node(l, x, k, r))
    requires d in m && d != root && d != nil && d !in Pre(c) + (InOrder(l) + [x] + InOrder(r)) + Post(c)
    ensures x in m && d != x && m[x].up in m && m[x].left in m && m[x].right in m
    ensures RepAt(Replace(m, x, d), root, nil, c, Node(l, d, k, r))
  {
    hide NoDup, SpellsAt, Replace;
    var f, f' := Node(l, x, k, r), Node(l, d, k, r);
    var up := Par(root, c);
    FocusApart(c, f);
    ParIn(m, root, nil, c, f);
    RepItems(m, root, nil, c, f);
    ReplaceApart(root, nil, c, l, x, r, d);
    ReplaceCells(m, nil, up, l, x, k, r, d);
    var m' := Replace(m, x, d);
    RedirectFocus'(m, m', root, nil, c, f, d);
    Reparent(m, m', nil, l, x, d);
    Reparent(m, m', nil, r, x, d);
    ReplaceWalk(Pre(c), InOrder(l), x, InOrder(r), Post(c), d, root, nil);
    assert Spells(m', nil, f', up);
  }

  // Who is different from whom when d takes the place of x.
  lemma ReplaceApart(root: MapItem, nil: MapItem, c: Ctx, l: Tree, x: MapItem, r: Tree, d: MapItem)
    requires NoDup(InOrder(l) + [x] + InOrder(r)) && nil !in InOrder(l) + [x] + InOrder(r)
    requires d != root && d !in Pre(c) + (InOrder(l) + [x] + InOrder(r)) + Post(c)
    requires Par(root, c) !in InOrder(l) + [x] + InOrder(r)
    ensures NoDup(InOrder(l)) && NoDup(InOrder(r)) && x !in InOrder(l) && x !in InOrder(r)
    ensures Par(root, c) != d && d !in Pre(c) + Post(c)
    ensures l.Node? ==> l.item in InOrder(l) && l.item != x && l.item != Par(root, c) && l.item != d && l.item != nil
    ensures r.Node? ==> r.item in InOrder(r) && r.item != x && r.item != Par(root, c) && r.item != d && r.item != nil
    ensures forall y | y in InOrder(l) :: y !in InOrder(r)
  {
    NoDupApart(InOrder(l), x, InOrder(r));
    NoDupConcat(InOrder(l), InOrder(r));
    hide NoDup;
    ParNot(root, c, InOrder(l) + [x] + InOrder(r), d);
    ChildNot(nil, l, x, Par(root, c), d);
    ChildNot(nil, r, x, Par(root, c), d);
  }

  lemma ParNot(root: MapItem, c: Ctx, s: seq<MapItem>, d: MapItem)
    requires d != root && d !in Pre(c) + s + Post(c)
    ensures Par(root, c) != d && d !in Pre(c) + Post(c)
  {
    assert !c.Top? ==> c.item in Pre(c) + s + Post(c);
  }

  lemma ChildNot(nil: MapItem, t: Tree, x: MapItem, up: MapItem, d: MapItem)
    requires x !in InOrder(t) && up !in InOrder(t) && d !in InOrder(t) && nil !in InOrder(t)
    ensures t.Node? ==> t.item in InOrder(t) && t.item != x && t.item != up && t.item != d && t.item != nil
  {
  }

  // Replacing x by d in a walk, seen from outside: z stands for either sentinel.
  lemma ReplaceWalk<T>(p: seq<T>, a: seq<T>, x: T, b: seq<T>, q: seq<T>, d: T, z1: T, z2: T)
    requires NoDup(p + (a + [x] + b) + q) && d !in p + (a + [x] + b) + q
    requires z1 !in p + (a + [x] + b) + q && z2 !in p + (a + [x] + b) + q && z1 != d && z2 != d
    ensures NoDup(p + (a + [d] + b) + q)
    ensures z1 !in p + (a + [d] + b) + q && z2 !in p + (a + [d] + b) + q
  {
    hide NoDup;
    Regroup(p, a, x, b, q);
    Regroup(p, a, d, b, q);
    NoDupReplace(p + a, x, b + q, d);
    NotInReplace(p + a, x, b + q, d, z1);
    NotInReplace(p + a, x, b + q, d, z2);
  }

  lemma Regroup<T>(p: seq<T>, a: seq<T>, x: T, b: seq<T>, q: seq<T>)
    ensures p + (a + [x] + b) + q == (p + a) + [x] + (b + q)
  {
  }

  lemma NotInReplace<T>(a: seq<T>, x: T, b: seq<T>, d: T, z: T)
    requires z !in a + [x] + b && z != d
    ensures z !in a + [d] + b
  {
  }

  lemma ReplaceCells(m: Mem, nil: MapItem, up: MapItem, l: Tree, x: MapItem, k: Color, r: Tree, d: MapItem)
    requires nil in m && up in m && d in m && x in m && m[x] == Cell(Ptr(nil, l), Ptr(nil, r), up, k)
    requires x != nil && d != nil && up != nil && x != d && up != x && up != d
    requires Ptr(nil, l) in m && Ptr(nil, r) in m
    requires l.Node? ==> l.item != nil && l.item != x && l.item != d && l.item != up
    requires r.Node? ==> r.item != nil && r.item != x && r.item != d && r.item != up
    requires l.Node? && r.Node? ==> l.item != r.item
    ensures var m' := Replace(m, x, d);
      && m'.Keys == m.Keys && m'[d] == m[x]
      && m'[up] == SetChild(m, x, d)[up] && m'[nil].color == m[nil].color
      && (l.Node? ==> m'[l.item] == m[l.item].(up := d))
      && (r.Node? ==> m'[r.item] == m[r.item].(up := d))
      && forall y | y in m && y != d && y != up && y != nil && y != Ptr(nil, l) && y != Ptr(nil, r) :: m'[y] == m[y]
  {
  }

  lemma NoDupReplace<T>(a: seq<T>, x: T, b: seq<T>, y: T)
    requires NoDup(a + [x] + b) && y !in a + [x] + b
    ensures NoDup(a + [y] + b)
  {
    NoDupApart(a, x, b);
    assert forall z | z in a + b :: z in a + [x] + b;
    NoDupInsert(a, y, b);
  }

  // ---------- the successor of an item with two children ----------

  // The walk's next item after x is the first of its right subtree, which has no left child.
  lemma {:induction false} FirstHasNoLeft(t: Tree, c: Ctx)
    requires t.Node? && NoDup(InOrder(t))
    ensures var d := InOrder(t)[0];
      Sub(t, d).Node? && Sub(t, d).item == d && Sub(t, d).left.Leaf? && Pre(Path(t, d, c)) == Pre(c)
  {
    var d := InOrder(t)[0];
    if t.left.Node? {
      assert InOrder(t.left) != [];
      assert d == InOrder(t.left)[0];
      NoDupApart(InOrder(t.left), t.item, InOrder(t.right));
      NoDupConcat(InOrder(t.left), InOrder(t.right));
      FirstHasNoLeft(t.left, InL(c, t.item, t.color, t.right));
    }
  }

  // An item with two children: its successor's context ends right after the item's own place,
  // and the successor has no left child.
  lemma SuccessorContext(c: Ctx, l: Tree, x: MapItem, k: Color, r: Tree)
    requires r.Node? && NoDup(Pre(c) + (InOrder(l) + [x] + InOrder(r)) + Post(c))
    ensures var d := InOrder(r)[0];
      var cd, fd := Path(r, d, InR(c, l, x, k)), Sub(r, d);
      && Plug(cd, fd) == Plug(c, Node(l, x, k, r)) && fd.Node? && fd.item == d && fd.left.Leaf?
      && Pre(cd) == Pre(c) + (InOrder(l) + [x])
  {
    var s := InOrder(l) + [x];
    assert s + InOrder(r) == InOrder(l) + [x] + InOrder(r);
    NoDupConcat(Pre(c) + (s + InOrder(r)), Post(c));
    NoDupConcat(Pre(c), s + InOrder(r));
    NoDupConcat(s, InOrder(r));
    FirstHasNoLeft(r, InR(c, l, x, k));
    PathPlug(r, InOrder(r)[0], InR(c, l, x, k));
  }

  // In a walk without duplicates an item has one place.
  lemma OnePlace<T>(a: seq<T>, x: T, b: seq<T>, a': seq<T>, b': seq<T>)
    requires a + [x] + b == a' + [x] + b' && NoDup(a + [x] + b)
    ensures a == a' && b == b'
  {
    var s := a + [x] + b;
    assert s[|a|] == x && s[|a'|] == x;
    assert |a| == |a'|;
    assert a == s[..|a|] && a' == s[..|a'|];
    assert b == s[|a| + 1..] && b' == s[|a'| + 1..];
  }

  // Renaming an item changes neither shape nor colours.
  lemma RenameRedBlack(c: Ctx, l: Tree, x: MapItem, k: Color, r: Tree, d: MapItem)
    requires RedBlack(Plug(c, Node(l, x, k, r)))
    ensures RedBlack(Plug(c, Node(l, d, k, r)))
  {
    var f, f' := Node(l, x, k, r), Node(l, d, k, r);
    BalancedPlug(c, f);
    BalancedPlug(c, f');
    NoRedRedPlug(c, f);
    NoRedRedPlug(c, f');
    RootBlackPlug(c, f);
    RootBlackPlug(c, f');
  }
}
