/** Definitions that several components share. */
module Common {

  datatype Option<+T> = None | Some(value: T)

  type Byte = b: int | 0 <= b < 256

  /** The numbers below `n`, each once: the names given out by a counter that stands at `n`. */
  function UpTo(n: nat): multiset<nat> {
    if n == 0 then multiset{} else UpTo(n - 1) + multiset{n - 1}
  }

  lemma {:induction false} UpToOnce(n: nat, id: nat)
    ensures UpTo(n)[id] == if id < n then 1 else 0
  {
    if n > 0 {
      UpToOnce(n - 1, id);
    }
  }

  lemma UpToNext(n: nat)
    ensures UpTo(n + 1) == UpTo(n) + multiset{n}
  {
  }

  lemma Multiples(d: int, n: nat)
    ensures d >= 1 ==> d * n >= n
    ensures d <= -1 ==> d * n + n <= 0
  {
  }

  /** Quotient and remainder are determined. */
  lemma DivUnique(q: nat, n: nat, r: nat)
    requires r < n
    ensures (q * n + r) / n == q && (q * n + r) % n == r
  {
    var a := q * n + r;
    var d := a / n - q;
    assert a == (a / n) * n + a % n;
    assert d * n == r - a % n;
    Multiples(d, n);
  }

  lemma DivParts(a: nat, m: nat)
    requires m > 0
    ensures a == a / m * m + a % m && a % m < m
  {
  }

  lemma ScaleBelow(r: nat, n: nat, m: nat)
    requires r < n
    ensures r * m + m <= m * n
  {
    Multiples(n - r - 1, m);
    assert (n - r - 1) * m == n * m - r * m - m;
  }

  lemma RegroupProduct(q: nat, n: nat, r: nat, m: nat, low: nat)
    ensures (q * n + r) * m + low == q * (m * n) + (r * m + low)
  {
  }

  /** A number of three digits to mixed bases, divided by both bases at once. */
  lemma ThreeDigits(q: nat, n: nat, r: nat, m: nat, low: nat)
    requires r < n && low < m
    ensures m * n > 0 && r * m + low < m * n
    ensures ((q * n + r) * m + low) / (m * n) == q && ((q * n + r) * m + low) % (m * n) == r * m + low
  {
    ScaleBelow(r, n, m);
    RegroupProduct(q, n, r, m, low);
    DivUnique(q, m * n, r * m + low);
  }

  /** Dividing in two steps. */
  lemma DivDiv(a: nat, m: nat, n: nat)
    requires m > 0 && n > 0
    ensures m * n > 0 && a / (m * n) == a / m / n
  {
    DivParts(a, m);
    DivParts(a / m, n);
    ThreeDigits(a / m / n, n, a / m % n, m, a % m);
  }
}
