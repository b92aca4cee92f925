/** The Python primality experiment: trial division by 6k - 1 and 6k + 1,
    `generate`, the Miller–Rabin test over the halving list `rs`, the random
    divisor check, and the counting of `main` into the two 2x2 matrices.
    Python integers are unbounded, so no overflow is modelled. The values
    `random.sample` and `random.randrange` return are parameters. */
module PrimeProbPy {
  import opened Common
  import opened NumberTheory
  import opened MillerRabinCore

  /** The least c with n <= c * c: `ceil(sqrt(n))` computed exactly. */
  function CeilSqrt(n: nat): (c: nat)
    ensures n <= c * c
    ensures c == 0 || (c - 1) * (c - 1) < n
  {
    CeilSqrtFrom(n, 0)
  }

  function CeilSqrtFrom(n: nat, c: nat): (r: nat)
    requires c == 0 || (c - 1) * (c - 1) < n
    ensures n <= r * r
    ensures r == 0 || (r - 1) * (r - 1) < n
    decreases n - c
  {
    if n <= c * c then c
    else
      assert c <= c * c;
      CeilSqrtFrom(n, c + 1)
  }

  /** The stop of `range(6, max(7, ceil(sqrt(n)) + 6), 6)`. */
  function Stop(n: nat): nat
  {
    var b := CeilSqrt(n) + 6;
    if b > 7 then b else 7
  }

  /** The test made for one multiple p of 6: p + 1 divides n only when it is
      n itself, and p - 1 does not divide n. */
  predicate PairPasses(n: nat, p: nat)
    requires p >= 6
  {
    (n % (p + 1) != 0 || n == p + 1) && n % (p - 1) != 0
  }

  /** `all(...)` over p = start, start + 6, ... below stop. */
  predicate AllPairsFrom(n: nat, p: nat, stop: nat)
    requires p >= 6
    decreases stop - p
  {
    p >= stop || (PairPasses(n, p) && AllPairsFrom(n, p + 6, stop))
  }

  /** `is_prime`: 2, 3 and 5 directly, then the residues modulo 6, then
      trial division by the pairs 6j - 1, 6j + 1. */
  predicate IsPrime(n: nat)
  {
    if n == 2 || n == 3 || n == 5 then true
    else if n <= 1 || n % 6 == 0 || n % 6 == 2 || n % 6 == 3 || n % 6 == 4 then false
    else AllPairsFrom(n, 6, Stop(n))
  }

  lemma {:induction false} AllPairsMeans(n: nat, p: nat, stop: nat)
    requires p >= 6 && p % 6 == 0
    ensures AllPairsFrom(n, p, stop) <==> forall q :: p <= q < stop && q % 6 == 0 ==> PairPasses(n, q)
    decreases stop - p
  {
    if p < stop {
      AllPairsMeans(n, p + 6, stop);
      forall q | p < q < p + 6
        ensures q % 6 != 0
      {
        UniqueDivision(q, 6, p / 6, q - p);
      }
    }
  }

  /** `is_prime` answers without trial division for 2, 3, 5, for n <= 1 and
      for n = 0, 2, 3, 4 modulo 6; otherwise it holds exactly when every
      multiple q of 6 below `max(7, ceil(sqrt(n)) + 6)` passes. */
  lemma IsPrimeTrialDivision(n: nat)
    ensures n == 2 || n == 3 || n == 5 ==> IsPrime(n)
    ensures n != 2 && n != 3 && n != 5 && (n <= 1 || n % 6 in {0, 2, 3, 4}) ==> !IsPrime(n)
    ensures n > 5 && n % 6 in {1, 5} ==>
      (IsPrime(n) <==> forall q :: 6 <= q < Stop(n) && q % 6 == 0 ==> PairPasses(n, q))
  {
    AllPairsMeans(n, 6, Stop(n));
  }

  /** The residues of n modulo 2 and 3 are those of n modulo 6. */
  lemma Mod6(n: nat)
    ensures n % 2 == (n % 6) % 2 && n % 3 == (n % 6) % 3
  {
    var a, r := n / 6, n % 6;
    assert n == 2 * (3 * a + r / 2) + r % 2;
    UniqueDivision(n, 2, 3 * a + r / 2, r % 2);
    assert n == 3 * (2 * a + r / 3) + r % 3;
    UniqueDivision(n, 3, 2 * a + r / 3, r % 3);
  }

  /** Below the stop, p - 1 never reaches n once n > 5. */
  lemma BelowStop(n: nat, q: nat)
    requires n > 5 && 6 <= q < Stop(n) && q % 6 == 0
    ensures q - 1 < n
  {
    var c := CeilSqrt(n);
    if q - 1 >= n {
      assert q >= 12 && q <= c + 5 && c >= 7;
      MulMono(6, c - 1, c - 1);
      assert false;
    }
  }

  /** A prime passes every pair. */
  lemma PrimePasses(n: nat, q: nat)
    requires Prime(n) && n > 5 && 6 <= q < Stop(n) && q % 6 == 0
    ensures PairPasses(n, q)
  {
    BelowStop(n, q);
    assert !Divides(q - 1, n);
    if q + 1 < n {
      assert !Divides(q + 1, n);
    } else if q + 1 > n {
      UniqueDivision(n, q + 1, 0, n);
    }
  }

  /** The least divisor of a composite n coprime to 6 is 6j - 1 or 6j + 1
      for a j that the trial division reaches. */
  lemma CompositeFails(n: nat)
    requires n > 5 && n % 6 in {1, 5} && !Prime(n)
    ensures exists q :: 6 <= q < Stop(n) && q % 6 == 0 && !PairPasses(n, q)
  {
    Mod6(n);
    var d := CompositeHasSmallDivisor(n);
    Mod6(d);
    assert d % 2 != 0 by {
      if d % 2 == 0 && d > 2 {
        DividesTransitive(2, d, n);
      }
    }
    assert d % 3 != 0 by {
      if d % 3 == 0 && d > 3 {
        DividesTransitive(3, d, n);
      }
    }
    assert d % 6 in {1, 5};
    var c := CeilSqrt(n);
    assert d <= c by {
      if d > c { MulStrict(c, c, d, d); }
    }
    var q := if d % 6 == 5 then d + 1 else d - 1;
    assert q % 6 == 0 && q >= 6 by {
      UniqueDivision(d, 6, d / 6, d % 6);
      if d % 6 == 5 {
        UniqueDivision(q, 6, d / 6 + 1, 0);
      } else {
        UniqueDivision(q, 6, d / 6, 0);
      }
    }
    assert !PairPasses(n, q);
  }

  /** Trial division by the pairs 6j - 1, 6j + 1 decides primality exactly. */
  lemma IsPrimeExact(n: nat)
    ensures IsPrime(n) <==> Prime(n)
  {
    Mod6(n);
    if n == 2 || n == 3 || n == 5 {
      NoSmallDivisorMeansPrime(n, if n == 5 then 3 else 2);
    } else if n <= 1 {
    } else if n % 6 in {0, 2, 4} {
      assert Divides(2, n);
    } else if n % 6 == 3 {
      assert Divides(3, n);
    } else {
      IsPrimeTrialDivision(n);
      if Prime(n) {
        forall q | 6 <= q < Stop(n) && q % 6 == 0
          ensures PairPasses(n, q)
        {
          PrimePasses(n, q);
        }
      } else {
        CompositeFails(n);
      }
    }
  }

  /** `generate(size)`: every n in [0, size] goes to exactly one of the two
      sets, according to `is_prime`. */
  method Generate(size: nat) returns (primes: set<nat>, composites: set<nat>)
    ensures forall n: nat :: n in primes <==> n <= size && IsPrime(n)
    ensures forall n: nat :: n in composites <==> n <= size && !IsPrime(n)
    ensures primes !! composites
    ensures forall n: nat :: n in primes + composites <==> n <= size
  {
    primes, composites := {}, {};
    for n := 0 to size + 1
      invariant forall m: nat :: m in primes <==> m < n && IsPrime(m)
      invariant forall m: nat :: m in composites <==> m < n && !IsPrime(m)
    {
      if IsPrime(n) {
        primes := primes + {n};
      } else {
        composites := composites + {n};
      }
    }
  }

  /** The sets `generate` returns split [0, size] into the primes and the rest. */
  lemma GenerateSplitsPrimes(size: nat, primes: set<nat>)
    requires forall n: nat :: n in primes <==> n <= size && IsPrime(n)
    ensures forall n: nat :: n in primes <==> n <= size && Prime(n)
  {
    forall n: nat
      ensures n in primes <==> n <= size && Prime(n)
    {
      IsPrimeExact(n);
    }
  }

  /** The list `rs` of `is_prime_miller_rabin`: m, m / 2, ... down to the
      first odd value. */
  function Halvings(m: nat): (rs: seq<nat>)
    requires m > 0
    decreases m
  {
    if m % 2 == 1 then [m] else [m] + Halvings(m / 2)
  }

  /** `rs` starts at m; each entry is even and the next one is its half; the
      last entry is the odd part d of m, and there are s + 1 entries for
      m = d * 2^s. */
  lemma {:induction false} HalvingsShape(m: nat)
    requires m > 0
    ensures var rs := Halvings(m);
      && |rs| >= 1 && rs[0] == m
      && (forall i :: 0 <= i < |rs| - 1 ==> rs[i] % 2 == 0 && rs[i + 1] == rs[i] / 2)
      && (rs[|rs| - 1], |rs| - 1) == Decompose(m)
    decreases m
  {
    if m % 2 == 0 {
      HalvingsShape(m / 2);
      var rs, tail := Halvings(m), Halvings(m / 2);
      assert rs == [m] + tail;
      assert forall i :: 1 <= i < |rs| ==> rs[i] == tail[i - 1];
    }
  }

  /** Every d * 2^j with j <= s is in `rs`, where m = d * 2^s with d odd. */
  lemma {:induction false} HalvingsMembers(m: nat, j: nat)
    requires m > 0 && j <= Decompose(m).1
    ensures Decompose(m).0 * Pow(2, j) in Halvings(m)
    decreases m
  {
    var ds := Decompose(m);
    if m % 2 == 0 && j < ds.1 {
      HalvingsMembers(m / 2, j);
    }
  }

  /** The halving loop of `is_prime_miller_rabin`, which appends each half to `rs`. */
  method HalvingList(m: nat) returns (rs: seq<nat>, d: nat)
    requires m > 0
    ensures rs == Halvings(m) && d == rs[|rs| - 1]
  {
    d := m;
    rs := [m];
    while d % 2 == 0
      invariant d > 0 && |rs| >= 1 && rs[|rs| - 1] == d
      invariant rs + Halvings(d)[1..] == Halvings(m)
      decreases d
    {
      assert Halvings(d)[1..] == Halvings(d / 2);
      assert rs + [d / 2] + Halvings(d / 2)[1..] == rs + Halvings(d / 2);
      d := d / 2;
      rs := rs + [d];
    }
  }

  /** The round for one sampled a: some `pow(a, r, n)` over `rs` is n - 1, or
      `pow(a, d, n)` is 1. */
  predicate PyRoundPasses(n: nat, rs: seq<nat>, d: nat, a: nat)
    requires n > 0
  {
    (exists r :: r in rs && Pow(a, r) % n == n - 1) || Pow(a, d) % n == 1
  }

  /** What `is_prime_miller_rabin` decides on the witnesses `sample` drew. */
  predicate PyMillerRabin(n: nat, sample: seq<nat>)
  {
    if n == 2 || n == 3 then true
    else if n <= 1 || n % 2 == 0 then false
    else
      var rs := Halvings(n - 1);
      forall i :: 0 <= i < |sample| ==> PyRoundPasses(n, rs, rs[|rs| - 1], sample[i])
  }

  /** What `sample(range(2, n - 1), min(k, n - 3))` returns: min(k, n - 3)
      distinct values of [2, n - 2]. */
  predicate IsSample(n: nat, k: nat, sample: seq<nat>)
  {
    && |sample| == Min(k, if n > 3 then n - 3 else 0)
    && (forall i :: 0 <= i < |sample| ==> 2 <= sample[i] <= n - 2)
    && (forall i, j :: 0 <= i < j < |sample| ==> sample[i] != sample[j])
  }

  /** `any(pow(a, r, n) == n - 1 for r in rs)`. */
  predicate AnyHits(a: nat, rs: seq<nat>, n: nat)
    requires n > 0
  {
    rs != [] && (Pow(a, rs[0]) % n == n - 1 || AnyHits(a, rs[1..], n))
  }

  lemma {:induction false} AnyHitsMeans(a: nat, rs: seq<nat>, n: nat)
    requires n > 0
    ensures AnyHits(a, rs, n) <==> exists r :: r in rs && Pow(a, r) % n == n - 1
  {
    if rs != [] {
      AnyHitsMeans(a, rs[1..], n);
      if Pow(a, rs[0]) % n == n - 1 {
        assert rs[0] in rs;
      } else if r :| r in rs && Pow(a, r) % n == n - 1 {
        assert r in rs[1..] by {
          assert rs == [rs[0]] + rs[1..];
        }
      }
    }
  }

  /** `is_prime_miller_rabin(n, k)` on the witnesses `sample` drew. */
  method IsPrimeMillerRabin(n: nat, k: nat, sample: seq<nat>) returns (r: bool)
    requires n > 3 && n % 2 == 1 ==> IsSample(n, k, sample)
    ensures r == PyMillerRabin(n, sample)
  {
    if n == 2 || n == 3 {
      return true;
    }
    if n <= 1 || n % 2 == 0 {
      return false;
    }
    var rs, d := HalvingList(n - 1);
    for w := 0 to |sample|
      invariant forall i :: 0 <= i < w ==> PyRoundPasses(n, rs, d, sample[i])
    {
      var a := sample[w];
      AnyHitsMeans(a, rs, n);
      if AnyHits(a, rs, n) || Pow(a, d) % n == 1 {
        continue;
      }
      return false;
    }
    return true;
  }

  lemma {:induction false} PowMul(a: nat, d: nat, e: nat)
    ensures Pow(Pow(a, d), e) == Pow(a, d * e)
  {
    if e > 0 {
      PowMul(a, d, e - 1);
      assert d * e == d + d * (e - 1);
      PowAdd(a, d, d * (e - 1));
    }
  }

  /** A squaring chain that reaches n - 1 does so at x^(2^j) for some j in [1, k]. */
  lemma {:induction false} SquaringReachesPow(x: nat, k: nat, n: nat) returns (j: nat)
    requires n > 0 && SquaringReaches(x, k, n)
    ensures 1 <= j <= k && Pow(x, Pow(2, j)) % n == n - 1
    decreases k
  {
    assert Pow(2, 1) == 2;
    assert Pow(x, 2) == x * x by {
      assert Pow(x, 1) == x;
    }
    if (x * x) % n == n - 1 {
      j := 1;
    } else {
      var j' := SquaringReachesPow((x * x) % n, k - 1, n);
      j := j' + 1;
      var e := Pow(2, j');
      PowMod(x * x, e, n);
      PowSquare(x, e);
    }
  }

  /** Every base the C++ round accepts passes the Python round, which checks
      all of `rs` and so one exponent more. */
  lemma RoundPassesPy(n: nat, a: nat)
    requires n > 3 && n % 2 == 1
    ensures var ds := Decompose(n - 1);
      var rs := Halvings(n - 1);
      RoundPasses(n, ds.0, ds.1, a) ==> PyRoundPasses(n, rs, rs[|rs| - 1], a)
  {
    var ds := Decompose(n - 1);
    var rs := Halvings(n - 1);
    HalvingsShape(n - 1);
    var d, s := ds.0, ds.1;
    assert rs[|rs| - 1] == d;
    var x := Pow(a, d) % n;
    if RoundPasses(n, d, s, a) && x != 1 {
      if x == n - 1 {
        HalvingsMembers(n - 1, 0);
        assert d in rs;
      } else {
        var j := SquaringReachesPow(x, s - 1, n);
        var e := Pow(2, j);
        PowMod(Pow(a, d), e, n);
        PowMul(a, d, e);
        HalvingsMembers(n - 1, j);
        assert d * e in rs && Pow(a, d * e) % n == n - 1;
      }
    }
  }

  /** Whatever the C++ fixed-witness test accepts, the Python test accepts
      on the same sampled witnesses. */
  lemma WitnessTestImpliesPy(n: nat, k: nat, sample: seq<nat>)
    requires n > 3 && n % 2 == 1 ==> IsSample(n, k, sample)
    ensures WitnessTest(n, sample) ==> PyMillerRabin(n, sample)
  {
    if n > 3 && n % 2 == 1 {
      forall i | 0 <= i < |sample|
        ensures WitnessTest(n, sample) ==> PyRoundPasses(n, Halvings(n - 1), Halvings(n - 1)[|Halvings(n - 1)| - 1], sample[i])
      {
        RoundPassesPy(n, sample[i]);
      }
    }
  }

  /** What `is_prime_rand` decides on the `randrange` results `rolls`. */
  predicate PyRand(n: nat, k: nat, rolls: seq<nat>)
    requires n > 3 && n % 2 == 1 ==> IsRolls(n, k, rolls)
  {
    if n == 2 || n == 3 then true
    else if n <= 1 || n % 2 == 0 then false
    else forall i :: 0 <= i < k ==> n % rolls[i] != 0
  }

  /** k results of `randrange(2, n - 1)`. */
  predicate IsRolls(n: nat, k: nat, rolls: seq<nat>)
  {
    |rolls| >= k && forall i :: 0 <= i < k ==> 2 <= rolls[i] <= n - 2
  }

  /** `is_prime_rand(n, k)` with the `randrange` results `rolls`. */
  method IsPrimeRand(n: nat, k: nat, rolls: seq<nat>) returns (r: bool)
    requires n > 3 && n % 2 == 1 ==> IsRolls(n, k, rolls)
    ensures r == PyRand(n, k, rolls)
  {
    if n == 2 || n == 3 {
      return true;
    }
    if n <= 1 || n % 2 == 0 {
      return false;
    }
    for i := 0 to k
      invariant forall j :: 0 <= j < i ==> n % rolls[j] != 0
    {
      var a := rolls[i];
      if n % a == 0 {
        return false;
      }
    }
    return true;
  }

  /** The random divisor check never rejects a prime, and everything it
      rejects from 2 upwards is composite. */
  lemma PyRandSound(n: nat, k: nat, rolls: seq<nat>)
    requires n >= 2
    requires n > 3 && n % 2 == 1 ==> IsRolls(n, k, rolls)
    ensures Prime(n) ==> PyRand(n, k, rolls)
    ensures !PyRand(n, k, rolls) ==> !Prime(n)
  {
    if n > 3 && n % 2 == 0 {
      assert Divides(2, n);
    } else if n > 3 {
      if Prime(n) {
        forall i | 0 <= i < k
          ensures n % rolls[i] != 0
        {
          assert !Divides(rolls[i], n);
        }
      } else if !PyRand(n, k, rolls) {
        var i :| 0 <= i < k && n % rolls[i] == 0;
        assert Divides(rolls[i], n);
      }
    }
  }

  /** How many of the values `vs` have ground truth t and prediction q. */
  ghost function CellCount(vs: seq<nat>, primes: set<nat>, predict: nat -> bool, t: bool, q: bool): nat
  {
    if vs == [] then 0
    else
      var last := |vs| - 1;
      CellCount(vs[..last], primes, predict, t, q)
        + (if (vs[last] in primes) == t && predict(vs[last]) == q then 1 else 0)
  }

  /** Counting one more value adds one to exactly its cell. */
  lemma CellCountStep(vs: seq<nat>, primes: set<nat>, predict: nat -> bool, v: nat, t: bool, q: bool)
    ensures CellCount(vs + [v], primes, predict, t, q)
         == CellCount(vs, primes, predict, t, q) + (if (v in primes) == t && predict(v) == q then 1 else 0)
  {
    assert (vs + [v])[..|vs|] == vs;
  }

  /** Every value falls in exactly one of the four cells. */
  lemma {:induction false} CellCountPartition(vs: seq<nat>, primes: set<nat>, predict: nat -> bool)
    ensures CellCount(vs, primes, predict, false, false) + CellCount(vs, primes, predict, false, true)
          + CellCount(vs, primes, predict, true, false) + CellCount(vs, primes, predict, true, true) == |vs|
  {
    if vs != [] {
      CellCountPartition(vs[..|vs| - 1], primes, predict);
    }
  }

  /** `stats` counts exactly the values of `vs`, `stats[actual][predicted]`. */
  ghost predicate Counted(stats: array2<nat>, vs: seq<nat>, primes: set<nat>, predict: nat -> bool)
    reads stats
  {
    && stats.Length0 == 2 && stats.Length1 == 2
    && stats[0, 0] == CellCount(vs, primes, predict, false, false)
    && stats[0, 1] == CellCount(vs, primes, predict, false, true)
    && stats[1, 0] == CellCount(vs, primes, predict, true, false)
    && stats[1, 1] == CellCount(vs, primes, predict, true, true)
  }

  /** `stats[int(v in primes)][int(prediction)] += 1`: the matrix then
      counts one value more. */
  method Record(stats: array2<nat>, ghost done: seq<nat>, primes: set<nat>, ghost predict: nat -> bool,
                v: nat, prediction: bool)
    requires Counted(stats, done, primes, predict)
    requires prediction == predict(v)
    modifies stats
    ensures Counted(stats, done + [v], primes, predict)
  {
    CellCountStep(done, primes, predict, v, false, false);
    CellCountStep(done, primes, predict, v, false, true);
    CellCountStep(done, primes, predict, v, true, false);
    CellCountStep(done, primes, predict, v, true, true);
    var t := v in primes;
    stats[Index(t), Index(prediction)] := stats[Index(t), Index(prediction)] + 1;
  }

  /** The predictions of the two tests for v, as `main` makes them. */
  ghost function MillerPredict(samples: nat -> seq<nat>): nat -> bool
  {
    (v: nat) => PyMillerRabin(v, samples(v))
  }

  /** `PyRand` needs well-formed rolls, so the prediction of a value whose
      rolls are ill-formed is false; `TallyRound` only counts values whose
      rolls are well-formed, where it is `PyRand` itself. */
  ghost function RandPredict(k: nat, rolls: nat -> seq<nat>): nat -> bool
  {
    (v: nat) => (v > 3 && v % 2 == 1 ==> IsRolls(v, k, rolls(v))) && PyRand(v, k, rolls(v))
  }

  /** The sum of a 2x2 matrix. */
  function Total(stats: array2<nat>): nat
    reads stats
    requires stats.Length0 == 2 && stats.Length1 == 2
  {
    stats[0, 0] + stats[0, 1] + stats[1, 0] + stats[1, 1]
  }

  /** A fresh `[[0, 0], [0, 0]]` counts no value. */
  method NewStats(ghost primes: set<nat>, ghost predict: nat -> bool) returns (stats: array2<nat>)
    ensures fresh(stats) && Counted(stats, [], primes, predict)
  {
    stats := new nat[2, 2]((i, j) => 0);
  }

  /** The two tests `main` runs on v. */
  method TestValue(v: nat, p: nat, k: nat, samples: nat -> seq<nat>, rolls: nat -> seq<nat>)
    returns (millerPredict: bool, randomPredict: bool)
    requires v > 3 && v % 2 == 1 ==> IsSample(v, p, samples(v)) && IsRolls(v, k, rolls(v))
    ensures millerPredict == MillerPredict(samples)(v) == PyMillerRabin(v, samples(v))
    ensures randomPredict == RandPredict(k, rolls)(v) == PyRand(v, k, rolls(v))
  {
    millerPredict := IsPrimeMillerRabin(v, p, samples(v));
    randomPredict := IsPrimeRand(v, k, rolls(v));
  }

  /** Distinct elements: a sequence listing a set without repetition has
      as many elements as the set. */
  lemma {:induction false} DistinctCount(s: seq<nat>, values: set<nat>)
    requires forall v :: v in s <==> v in values
    requires forall i, j :: 0 <= i < j < |s| ==> s[i] != s[j]
    ensures |values| == |s|
  {
    if s != [] {
      var last := s[|s| - 1];
      var t := s[..|s| - 1];
      forall v
        ensures v in t <==> v in values - {last}
      {
        if v in t {
          var i :| 0 <= i < |t| && t[i] == v;
          assert s[i] == v;
        }
      }
      DistinctCount(t, values - {last});
    }
  }

  /** The body of `main` for one p. The values of `primes | composites` are
      visited once each, in the order `order` the set yields them; each v is
      tested with `is_prime_miller_rabin(v, p)` and `is_prime_rand(v, 10^p)`,
      and each matrix gains exactly one increment per value, in the cell
      [v in primes][prediction], so its four cells add up to the size of the
      union. */
  method TallyRound(order: seq<nat>, primes: set<nat>, composites: set<nat>, p: nat,
                    samples: nat -> seq<nat>, rolls: nat -> seq<nat>)
    returns (statsMiller: array2<nat>, statsRand: array2<nat>)
    requires forall v :: v in order <==> v in primes + composites
    requires forall i, j :: 0 <= i < j < |order| ==> order[i] != order[j]
    requires forall v :: v in order && v > 3 && v % 2 == 1 ==> IsSample(v, p, samples(v))
    requires forall v :: v in order && v > 3 && v % 2 == 1 ==> IsRolls(v, Pow(10, p), rolls(v))
    ensures fresh(statsMiller) && fresh(statsRand)
    ensures Counted(statsMiller, order, primes, MillerPredict(samples))
    ensures Counted(statsRand, order, primes, RandPredict(Pow(10, p), rolls))
    ensures Total(statsMiller) == |primes + composites| && Total(statsRand) == |primes + composites|
  {
    var k := Pow(10, p);
    ghost var mp, rp := MillerPredict(samples), RandPredict(k, rolls);
    statsMiller := NewStats(primes, mp);
    statsRand := NewStats(primes, rp);
    for i := 0 to |order|
      invariant Counted(statsMiller, order[..i], primes, mp)
      invariant Counted(statsRand, order[..i], primes, rp)
    {
      var v := order[i];
      assert v in order;
      var millerPredict, randomPredict := TestValue(v, p, k, samples, rolls);
      Record(statsMiller, order[..i], primes, mp, v, millerPredict);
      Record(statsRand, order[..i], primes, rp, v, randomPredict);
      PrefixStep(order, i);
    }
    assert order[..|order|] == order;
    CellCountPartition(order, primes, mp);
    CellCountPartition(order, primes, rp);
    DistinctCount(order, primes + composites);
  }

  /** The two integers `main` prints before the metrics: the correct count
      `[1][1] + [0][0]` and the incorrect count `[1][0] + [0][1]`; together
      they are every value counted. */
  function Printed(stats: array2<nat>): (r: (nat, nat))
    reads stats
    requires stats.Length0 == 2 && stats.Length1 == 2
    ensures r.0 + r.1 == Total(stats)
  {
    (stats[1, 1] + stats[0, 0], stats[1, 0] + stats[0, 1])
  }
}
