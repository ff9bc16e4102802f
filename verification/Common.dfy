/** What several of the models use. */
module Common {

  datatype Option<T> = None | Some(value: T)

  type byte = x: nat | x < 256

  ghost predicate NoDup<T>(s: seq<T>) {
    forall i, j :: 0 <= i < j < |s| ==> s[i] != s[j]
  }

  function Pow2(n: nat): (p: nat)
    ensures p > 0
  {
    if n == 0 then 1 else 2 * Pow2(n - 1)
  }

  lemma MulLe(x: nat, y: nat, z: nat)
    requires x <= y
    ensures x * z <= y * z
  {}

  function Quotient(n: nat, d: nat): nat
    requires d > 0
  {
    n / d
  }

  /** Quotient and remainder are what they are multiplied and added up to. */
  lemma DivMod(x: nat, d: nat, q: nat, r: nat)
    requires x == q * d + r && r < d
    ensures x / d == q && x % d == r
  {
    var q', r' := x / d, x % d;
    assert (q - q') * d == r' - r;
    if q > q' { MulLe(1, q - q', d); } else if q < q' { MulLe(1, q' - q, d); }
  }

  lemma MulMod(x: nat, z: nat)
    requires z > 0
    ensures (x * z) % z == 0
  {
    var q, r := (x * z) / z, (x * z) % z;
    assert (x - q) * z == r;
    if x > q { MulLe(1, x - q, z); } else if x < q { MulLe(1, q - x, z); }
  }
}
