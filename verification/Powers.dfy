/** Powers of two. */
module Powers {
  function Pow2(n: nat): (p: nat)
    ensures 0 < p
  {
    if n == 0 then 1 else 2 * Pow2(n - 1)
  }

  lemma {:induction false} Pow2Add(a: nat, b: nat)
    ensures Pow2(a + b) == Pow2(a) * Pow2(b)
  {
    if a > 0 { Pow2Add(a - 1, b); }
  }

  lemma {:induction false} Pow2Mono(a: nat, b: nat)
    requires a <= b
    ensures 1 <= Pow2(a) <= Pow2(b)
  {
    if b == 0 {
    } else if a < b { Pow2Mono(a, b - 1); } else { Pow2Mono(a - 1, b - 1); }
  }

  lemma {:induction false} MulAtLeast(d: int, b: int)
    requires 0 < b
    ensures 0 < d ==> d * b >= b
    ensures d < 0 ==> d * b <= -b
  {
    if d > 0 { assert (d - 1) * b >= 0; }
    if d < 0 { assert (-1 - d) * b >= 0; }
  }

  lemma {:induction false} DivUnique(x: nat, b: nat, q: nat, r: nat)
    requires 0 < b && r < b && x == q * b + r
    ensures x / b == q && x % b == r
  {
    var d := q - x / b;
    assert d * b == q * b - x / b * b;
    MulAtLeast(d, b);
  }

  lemma {:induction false} MulDiv(a: nat, b: nat)
    requires 0 < b
    ensures a * b / b == a && a * b % b == 0
  {
    DivUnique(a * b, b, a, 0);
  }

  /** Quotient and remainder of naturals. */
  function Quot(a: nat, b: nat): (q: nat)
    requires 0 < b
  {
    a / b
  }

  function Rem(a: nat, b: nat): (r: nat)
    requires 0 < b
    ensures r < b && a == Quot(a, b) * b + r
  {
    a % b
  }

  lemma {:induction false} MulMono(a: nat, b: nat, s: nat)
    requires a <= b
    ensures a * s <= b * s
  {
    assert b * s == a * s + (b - a) * s;
  }
}
