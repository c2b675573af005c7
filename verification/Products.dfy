/** Products keep the order of their factors. */
module Products {

  lemma Scale(x: int, y: int, v: int)
    requires x <= y && v >= 0
    ensures x * v <= y * v && v * x <= v * y
  {
  }

  lemma Scaled(x: real, y: real, c: real)
    requires c > 0.0
    ensures x <= y ==> x * c <= y * c && c * x <= c * y
    ensures x < y ==> x * c < y * c && c * x < c * y
  {
  }
}
