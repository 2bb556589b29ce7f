/** Shared vocabulary: optional values, bytes and powers. */
module Prelude {

  datatype Option<+T> = None | Some(value: T) {
    predicate IsFailure() { None? }

    function PropagateFailure<U>(): Option<U>
      requires None?
    {
      None
    }

    function Extract(): T
      requires Some?
    {
      value
    }
  }

  type byte = x: int | 0 <= x < 256

  function Pow(b: nat, e: nat): nat {
    if e == 0 then 1 else b * Pow(b, e - 1)
  }

  lemma {:induction false} PowPositive(b: nat, e: nat)
    requires b > 0
    ensures Pow(b, e) > 0
  {
    if e > 0 {
      PowPositive(b, e - 1);
    }
  }

  lemma {:induction false} PowAdd(b: nat, d: nat, e: nat)
    ensures Pow(b, d + e) == Pow(b, d) * Pow(b, e)
  {
    if d > 0 {
      PowAdd(b, d - 1, e);
      MulAssociates(b, Pow(b, d - 1), Pow(b, e));
    }
  }

  lemma MulAssociates(x: int, y: int, z: int)
    ensures x * (y * z) == (x * y) * z
  {
  }

  lemma {:induction false} PowGrows(b: nat, d: nat, e: nat)
    requires b > 0 && d <= e
    ensures Pow(b, d) <= Pow(b, e)
  {
    if d < e {
      PowGrows(b, d, e - 1);
      MulMonotone(1, b, Pow(b, e - 1));
    }
  }

  lemma DivMod(n: nat, b: nat)
    requires b > 0
    ensures n / b * b + n % b == n
    ensures n >= b >= 2 ==> 0 < n / b < n
  {
  }

  lemma MulMonotone(x: int, y: int, b: nat)
    ensures x <= y ==> x * b <= y * b
    ensures y * b + b == b * (y + 1)
  {
  }

  lemma DivBelowExactly(n: nat, b: nat, bound: nat)
    requires b > 0
    ensures n / b < bound <==> n < b * bound
  {
    DivMod(n, b);
    MulMonotone(n / b, bound - 1, b);
    MulMonotone(bound, n / b, b);
  }

  lemma QuotientUnique(n: nat, b: nat, q: nat, rest: nat)
    requires b > 0 && n == q * b + rest && rest < b
    ensures n / b == q && n % b == rest
  {
    DivMod(n, b);
    var d := n / b - q;
    assert d * b == rest - n % b;
    MulMonotone(1, d, b);
    MulMonotone(d, -1, b);
  }

  lemma Regroup(q: int, b: int, s: int, a: int, t: int)
    ensures (q * b + s) * a + t == q * (a * b) + (s * a + t)
  {
    assert (q * b) * a == q * (a * b);
  }

  lemma ProductBound(s: nat, b: nat, a: nat, t: nat)
    requires s < b && t < a
    ensures a * b > 0 && s * a + t < a * b
  {
    MulMonotone(s, b - 1, a);
  }

  lemma DivideTwice(n: nat, a: nat, b: nat, m: nat, t: nat, q: nat, s: nat)
    requires n == m * a + t && t < a && m == q * b + s && s < b
    ensures a * b > 0 && n / (a * b) == q
  {
    Regroup(q, b, s, a, t);
    ProductBound(s, b, a, t);
    QuotientUnique(n, a * b, q, s * a + t);
  }

  lemma Divided(n: nat, b: nat) returns (q: nat, rest: nat)
    requires b > 0
    ensures q == n / b && rest == n % b && n == q * b + rest && rest < b
  {
    q, rest := n / b, n % b;
  }

  /** Dividing twice is dividing by the product. */
  lemma DivDiv(n: nat, a: nat, b: nat)
    requires a > 0 && b > 0
    ensures a * b > 0 && (n / a) / b == n / (a * b)
  {
    var m, t := Divided(n, a);
    var q, s := Divided(m, b);
    DivideTwice(n, a, b, m, t, q, s);
  }
}
