/** Small facts about division by a variable, kept apart so that each is settled on its own. */
module Division {
  lemma EuclideanDivision(a: nat, b: nat)
    requires b > 0
    ensures a == (a / b) * b + a % b
  {
  }

  lemma MultipleBound(d: int, b: nat)
    ensures d >= 1 ==> d * b >= b
    ensures d <= -1 ==> d * b + b <= 0
  {
  }

  lemma ScaleDifference(a: int, b: int, c: nat)
    ensures (b - a) * c == b * c - a * c
  {
  }

  lemma ScaleMonotone(a: int, b: int, c: nat)
    requires a <= b
    ensures a * c <= b * c
  {
    ScaleDifference(a, b, c);
    MultipleBound(b - a, c);
  }

  lemma QuotientUnique(a: nat, b: nat, q: nat, r: nat)
    requires b > 0 && a == q * b + r && r < b
    ensures a / b == q && a % b == r
  {
    assert a == (a / b) * b + a % b;
    assert (a / b - q) * b == (a / b) * b - q * b;
    MultipleBound(a / b - q, b);
  }
}
