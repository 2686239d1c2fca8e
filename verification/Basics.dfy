/** What several modules share: optional values, joined text, and division with remainder. */
module Basics {

  datatype Option<+T> = None | Some(value: T)

  /** sep.join(parts) */
  function Join(parts: seq<string>, sep: string): string {
    if |parts| == 0 then "" else if |parts| == 1 then parts[0] else parts[0] + sep + Join(parts[1..], sep)
  }

  /** Equally long, and alike at every index outside [low, high). */
  predicate SameOutside<T(==)>(f: seq<T>, g: seq<T>, low: int, high: int) {
    |f| == |g| && forall i :: 0 <= i < |f| && !(low <= i < high) ==> f[i] == g[i]
  }

  lemma Associative<T>(a: seq<T>, b: seq<T>, c: seq<T>)
    ensures a + (b + c) == a + b + c
  {
  }

  lemma Quotient(n: nat, q: nat, p: nat, r: nat)
    requires r < p && n == q * p + r
    ensures n / p == q && n % p == r
  {
    var d: int := n / p - q;
    assert n == n / p * p + n % p;
    assert d * p == r - n % p;
  }
}
