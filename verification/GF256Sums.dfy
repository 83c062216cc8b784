// Addition in the field is exclusive or.
module GF256Sums {
  import opened GF256

  lemma AddIsGroup(a: bv8, b: bv8, c: bv8)
    ensures Add(Add(a, b), c) == Add(a, Add(b, c))
    ensures Add(a, b) == Add(b, a)
    ensures Add(a, a) == 0
    ensures Add(a, 0) == a == Add(0, a)
  {}

  lemma AddZeroMeansEqual(a: bv8, b: bv8)
    ensures Add(a, b) == 0 <==> a == b
  {}

  lemma AddSwapsInner(a: bv8, b: bv8, c: bv8, d: bv8)
    ensures Add(Add(a, b), Add(c, d)) == Add(Add(a, c), Add(b, d))
  {
    hide Add;
    AddIsGroup(a, b, Add(c, d));
    AddIsGroup(b, c, d);
    AddIsGroup(c, b, d);
    AddIsGroup(a, c, Add(b, d));
  }
}
