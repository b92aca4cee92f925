/** Integer facts shared by the primality models: powers, divisibility,
    primality, and the modular identities that square-and-multiply relies on. */
module NumberTheory {

  /** 2^64: every `uint64_t` value is below it. */
  const U64: nat := 0x1_0000_0000_0000_0000

  /** The largest value of a signed 64-bit `long`. */
  const LongMax: nat := 0x7fff_ffff_ffff_ffff

  function Pow(b: nat, e: nat): nat
  {
    if e == 0 then 1 else b * Pow(b, e - 1)
  }

  lemma {:induction false} PowPositive(b: nat, e: nat)
    requires b > 0
    ensures Pow(b, e) >= 1
  {
    if e > 0 {
      PowPositive(b, e - 1);
      MulAtLeast(b, Pow(b, e - 1));
    }
  }

  predicate Divides(d: nat, n: nat)
  {
    d > 0 && n % d == 0
  }

  /** The textbook definition: at least 2 and no divisor strictly between 1 and itself. */
  predicate Prime(n: nat)
  {
    n >= 2 && forall k :: 2 <= k < n ==> !Divides(k, n)
  }

  /** No divisor in [lo, hi); written so that it can be evaluated on literals. */
  function NoDivisorIn(n: nat, lo: nat, hi: nat): bool
    decreases hi - lo
  {
    if lo >= hi then true
    else if lo == 0 || n % lo == 0 then false
    else NoDivisorIn(n, lo + 1, hi)
  }

  lemma {:induction false} NoDivisorInMeans(n: nat, lo: nat, hi: nat)
    requires NoDivisorIn(n, lo, hi)
    ensures forall k :: lo <= k < hi ==> !Divides(k, n)
    decreases hi - lo
  {
    if lo < hi {
      NoDivisorInMeans(n, lo + 1, hi);
    }
  }

  lemma MulAtLeast(t: nat, m: nat)
    requires t >= 1
    ensures t * m >= m
  {
    assert t * m == (t - 1) * m + m;
  }

  lemma UniqueDivision(x: nat, m: nat, q: nat, r: nat)
    requires m > 0 && r < m && x == q * m + r
    ensures x / m == q && x % m == r
  {
    var q', r' := x / m, x % m;
    assert q' * m + r' == q * m + r;
    if q' > q {
      var t := q' - q;
      assert q' * m == q * m + t * m;
      MulAtLeast(t, m);
    } else if q' < q {
      var t := q - q';
      assert q * m == q' * m + t * m;
      MulAtLeast(t, m);
    }
  }

  lemma ModAddMultiple(a: nat, k: nat, m: nat)
    requires m > 0
    ensures (a + k * m) % m == a % m
  {
    var q, r := a / m, a % m;
    assert a + k * m == (q + k) * m + r;
    UniqueDivision(a + k * m, m, q + k, r);
  }

  lemma MulModLeft(x: nat, y: nat, m: nat)
    requires m > 0
    ensures (x * y) % m == ((x % m) * y) % m
  {
    var q, r := x / m, x % m;
    assert x * y == r * y + (q * y) * m;
    ModAddMultiple(r * y, q * y, m);
  }

  /** Reducing either factor first does not change a product modulo m. */
  lemma MulMod(x: nat, y: nat, m: nat)
    requires m > 0
    ensures (x * y) % m == ((x % m) * (y % m)) % m
  {
    MulModLeft(x, y, m);
    assert (x % m) * y == y * (x % m);
    MulModLeft(y, x % m, m);
    assert (y % m) * (x % m) == (x % m) * (y % m);
  }

  lemma {:induction false} PowAdd(b: nat, x: nat, y: nat)
    ensures Pow(b, x + y) == Pow(b, x) * Pow(b, y)
  {
    if x > 0 {
      PowAdd(b, x - 1, y);
      var u, w := Pow(b, x - 1), Pow(b, y);
      assert Pow(b, x + y) == b * (u * w);
      assert b * (u * w) == (b * u) * w;
    }
  }

  lemma {:induction false} PowSquare(b: nat, k: nat)
    ensures Pow(b * b, k) == Pow(b, 2 * k)
  {
    if k > 0 {
      PowSquare(b, k - 1);
      PowAdd(b, 2, 2 * k - 2);
    }
  }

  /** Reducing the base first does not change a power modulo m. */
  lemma {:induction false} PowMod(b: nat, e: nat, m: nat)
    requires m > 0
    ensures Pow(b % m, e) % m == Pow(b, e) % m
  {
    if e > 0 {
      PowMod(b, e - 1, m);
      var r, u, v := b % m, Pow(b % m, e - 1), Pow(b, e - 1);
      assert u % m == v % m;
      assert Pow(r, e) == r * u;
      assert Pow(b, e) == b * v;
      UniqueDivision(r, m, 0, r);
      MulMod(r, u, m);
      MulMod(b, v, m);
    }
  }

  lemma DividesTransitive(a: nat, b: nat, c: nat)
    requires Divides(a, b) && Divides(b, c)
    ensures Divides(a, c)
  {
    var s, t := b / a, c / b;
    assert c == (s * t) * a;
    ModAddMultiple(0, s * t, a);
  }

  /** Every n >= 2 has a least divisor above 1, and it is at most n. */
  lemma {:induction false} LeastDivisorFrom(n: nat, k: nat) returns (q: nat)
    requires 2 <= k <= n
    requires forall j :: 2 <= j < k ==> !Divides(j, n)
    ensures k <= q <= n && Divides(q, n)
    ensures forall j :: 2 <= j < q ==> !Divides(j, n)
    decreases n - k
  {
    if Divides(k, n) {
      q := k;
    } else {
      assert k < n by { assert Divides(n, n); }
      q := LeastDivisorFrom(n, k + 1);
    }
  }

  /** A number that is not prime has a divisor d with 2 <= d and d*d <= n,
      and the least divisor above 1 is one. */
  lemma CompositeHasSmallDivisor(n: nat) returns (q: nat)
    requires n >= 2 && !Prime(n)
    ensures 2 <= q < n && Divides(q, n) && q * q <= n
    ensures forall j :: 2 <= j < q ==> !Divides(j, n)
  {
    q := LeastDivisorFrom(n, 2);
    var k :| 2 <= k < n && Divides(k, n);
    assert q <= k;
    var j := n / q;
    UniqueDivision(n, q, j, 0);
    assert n == j * q;
    assert j >= 2;
    assert Divides(j, n) by {
      ModAddMultiple(0, q, j);
    }
    assert q <= j;
    MulMono(q, j, q);
  }

  /** The cofactor n / k of a divisor k >= c of n < c*c is itself a divisor below c. */
  lemma CofactorBelow(n: nat, k: nat, c: nat)
    requires 2 <= k < n && Divides(k, n) && c <= k && n < c * c
    ensures 2 <= n / k < c && Divides(n / k, n)
  {
    var j := n / k;
    UniqueDivision(n, k, j, 0);
    assert n == j * k;
    assert j != 0 && j != 1;
    ModAddMultiple(0, k, j);
    MulMono(c, k, j);
    if j >= c {
      MulMono(c, j, c);
    }
  }

  lemma MulMono(a: nat, b: nat, x: nat)
    requires a <= b
    ensures a * x <= b * x
  {
    assert b * x == a * x + (b - a) * x;
  }

  /** Trial division up to a square-root bound c decides primality. */
  lemma NoSmallDivisorMeansPrime(n: nat, c: nat)
    requires n >= 2 && n < c * c
    requires forall j :: 2 <= j < c ==> !Divides(j, n)
    ensures Prime(n)
  {
    forall k | 2 <= k < n
      ensures !Divides(k, n)
    {
      if k >= c && Divides(k, n) {
        CofactorBelow(n, k, c);
        assert false;
      }
    }
  }

  /** A prime's only divisor above 1 is itself. */
  lemma PrimeDivisor(p: nat, d: nat)
    requires Prime(p) && 2 <= d && Divides(d, p)
    ensures d == p
  {
    assert d <= p by {
      assert p % d == 0;
      if d > p { UniqueDivision(p, d, 0, p); }
    }
  }

  lemma MulStrict(a: nat, b: nat, p: nat, q: nat)
    requires a < p && b < q
    ensures a * b < p * q
  {
    MulMono(a, p, b);
    assert p * b < p * q by {
      assert p * q == p * b + p * (q - b);
      MulAtLeast(q - b, p);
      assert (q - b) * p == p * (q - b);
    }
  }

  /** The exponentiation invariant after one square-and-multiply step. */
  lemma SquareMultiplyStep(a: nat, base: nat, e: nat, p: nat)
    requires p > 0 && e > 0
    ensures var a' := if e % 2 == 1 then (a * base) % p else a;
            (a' * Pow((base * base) % p, e / 2)) % p == (a * Pow(base, e)) % p
  {
    var h := e / 2;
    var sq := Pow(base * base, h);
    PowMod(base * base, h, p);
    PowSquare(base, h);
    assert sq == Pow(base, 2 * h);
    var red := Pow((base * base) % p, h);
    assert red % p == sq % p;
    if e % 2 == 1 {
      assert e == 2 * h + 1;
      PowAdd(base, 1, 2 * h);
      assert Pow(base, e) == base * sq;
      MulMod((a * base) % p, red, p);
      MulMod(a * base, sq, p);
      UniqueDivision((a * base) % p, p, 0, (a * base) % p);
      assert (a * base) * sq == a * (base * sq);
    } else {
      assert e == 2 * h;
      MulMod(a, red, p);
      MulMod(a, sq, p);
    }
  }
}
