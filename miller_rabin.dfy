/** The Miller–Rabin round shared by the C++ primality tests: the odd
    decomposition n - 1 = d * 2^s, the round for one base, and the
    fixed-witness decision procedure built from it. */
module MillerRabinCore {
  import opened NumberTheory

  /** (d, s) with m = d * 2^s and d odd, the values the halving loops leave behind. */
  function Decompose(m: nat): (ds: (nat, nat))
    requires m > 0
    ensures ds.0 % 2 == 1 && m == ds.0 * Pow(2, ds.1)
    decreases m
  {
    if m % 2 == 1 then (m, 0)
    else
      var ds' := Decompose(m / 2);
      assert m == 2 * (ds'.0 * Pow(2, ds'.1)) == ds'.0 * Pow(2, ds'.1 + 1);
      (ds'.0, ds'.1 + 1)
  }

  /** The decomposition is unique: any odd d and s with m = d * 2^s are the
      ones the halving finds. */
  lemma {:induction false} DecomposeUnique(m: nat, d: nat, s: nat)
    requires m > 0 && d % 2 == 1 && m == d * Pow(2, s)
    ensures (d, s) == Decompose(m)
    decreases s
  {
    if s > 0 {
      var h := d * Pow(2, s - 1);
      assert m == 2 * h;
      DecomposeUnique(h, d, s - 1);
    }
  }

  /** Whether one of k successive squarings of x modulo n lands on n - 1. */
  predicate SquaringReaches(x: nat, k: nat, n: nat)
    requires n > 0
    decreases k
  {
    k > 0 && ((x * x) % n == n - 1 || SquaringReaches((x * x) % n, k - 1, n))
  }

  /** One round with base a passes (does not prove n composite): x = a^d mod n
      is 1 or n - 1, or one of the s - 1 squarings of x reaches n - 1. */
  predicate RoundPasses(n: nat, d: nat, s: nat, a: nat)
    requires n > 1
  {
    var x := Pow(a, d) % n;
    x == 1 || x == n - 1 || SquaringReaches(x, if s == 0 then 0 else s - 1, n)
  }

  /** The decision both fixed-witness tests make: 2 and 3 are prime, other even
      numbers and numbers below 2 are not, otherwise every witness other than n
      itself must pass a round. */
  predicate WitnessTest(n: nat, witnesses: seq<nat>)
  {
    if n == 2 || n == 3 then true
    else if n % 2 == 0 || n <= 1 then false
    else
      var ds := Decompose(n - 1);
      forall i :: 0 <= i < |witnesses| ==> witnesses[i] == n || RoundPasses(n, ds.0, ds.1, witnesses[i])
  }

  /** How many leading bases of ws pass a round: the randomized tests stop
      at the first base that fails. */
  function LeadingPasses(n: nat, d: nat, s: nat, ws: seq<nat>): (k: nat)
    requires n > 1
    ensures k <= |ws|
    ensures forall i :: 0 <= i < k ==> RoundPasses(n, d, s, ws[i])
    ensures k < |ws| ==> !RoundPasses(n, d, s, ws[k])
  {
    if ws == [] || !RoundPasses(n, d, s, ws[0]) then 0
    else 1 + LeadingPasses(n, d, s, ws[1..])
  }

  /** The halving loop shared by all three Miller–Rabin tests: strips the
      factors 2 from m = n - 1. */
  method HalveOut(m: nat) returns (d: nat, s: nat)
    requires m > 0
    ensures d % 2 == 1 && m == d * Pow(2, s)
    ensures (d, s) == Decompose(m)
  {
    d, s := m, 0;
    while d % 2 == 0
      invariant 0 < d
      invariant Decompose(d).0 == Decompose(m).0
      invariant Decompose(d).1 + s == Decompose(m).1
      decreases d
    {
      d := d / 2;
      s := s + 1;
    }
  }
}
