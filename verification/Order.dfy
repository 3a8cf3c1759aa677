// Key comparators, as cl_fmap and cl_heap take them: negative, zero or positive.
module Order {
  type Compare = (int, int) -> int

  ghost predicate Opposite(cmp: Compare, a: int, b: int)
  {
    cmp(a, b) < 0 <==> cmp(b, a) > 0
  }

  ghost predicate Chained(cmp: Compare, a: int, b: int, c: int)
  {
    cmp(a, b) <= 0 && cmp(b, c) <= 0 ==> cmp(a, c) <= 0
  }

  ghost predicate Antisymmetric(cmp: Compare)
  {
    forall a, b :: Opposite(cmp, a, b)
  }

  ghost predicate Transitive(cmp: Compare)
  {
    forall a, b, c :: Chained(cmp, a, b, c)
  }

  // A total preorder: any two keys compare, possibly as equivalent.
  ghost predicate TotalPreorder(cmp: Compare)
  {
    Antisymmetric(cmp) && Transitive(cmp)
  }

  // The default comparison of the maps and heaps keyed by integers.
  function CompareInt(a: int, b: int): int
  {
    if a < b then -1 else if a > b then 1 else 0
  }

  lemma CompareIntOrder()
    ensures TotalPreorder(CompareInt)
  {
  }

  lemma Flip(cmp: Compare, a: int, b: int)
    requires TotalPreorder(cmp)
    ensures cmp(a, b) < 0 <==> cmp(b, a) > 0
    ensures cmp(a, b) == 0 <==> cmp(b, a) == 0
  {
    assert Opposite(cmp, a, b) && Opposite(cmp, b, a);
  }

  // One strict step makes a chain strict.
  lemma Chain(cmp: Compare, a: int, b: int, c: int)
    requires TotalPreorder(cmp)
    requires cmp(a, b) <= 0 && cmp(b, c) <= 0
    ensures cmp(a, c) <= 0
    ensures cmp(a, b) < 0 || cmp(b, c) < 0 ==> cmp(a, c) < 0
  {
    assert Chained(cmp, a, b, c) && Chained(cmp, b, c, a) && Chained(cmp, c, a, b);
    Flip(cmp, a, c);
    Flip(cmp, a, b);
    Flip(cmp, b, c);
  }
}
