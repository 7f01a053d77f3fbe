// Integer 2D vectors (math/vec2.c). The component type I_TYPE is a build
// option; the model uses unbounded integers.
module Vec2 {

  datatype Vec2i = Vec2i(x: int, y: int)

  const Zero: Vec2i := Vec2i(0, 0)

  /** vector2ISum: componentwise addition. */
  function Sum(l: Vec2i, r: Vec2i): (s: Vec2i)
    ensures s.x == l.x + r.x && s.y == l.y + r.y
  {
    Vec2i(l.x + r.x, l.y + r.y)
  }

  lemma SumCommutative(l: Vec2i, r: Vec2i)
    ensures Sum(l, r) == Sum(r, l)
  {
  }

  lemma SumIdentity(v: Vec2i)
    ensures Sum(Zero, v) == v && Sum(v, Zero) == v
  {
  }

  lemma SumAssociative(a: Vec2i, b: Vec2i, c: Vec2i)
    ensures Sum(Sum(a, b), c) == Sum(a, Sum(b, c))
  {
  }
}
