/** The probabilistic primality experiment: `modpow` and Miller–Rabin over a
    signed 64-bit `long`, the random-divisor check, the twelve-witness ground
    truth, and the confusion-matrix counting of `trial` and `stats`.
    The `rand()` results are an explicit stream: `rand(i)` is the i-th value
    returned since the program started, and every test returns how many
    values it consumed, so that consecutive calls continue the same stream. */
module PrimeProb {
  import opened Common
  import opened NumberTheory
  import opened MillerRabinCore

  /** The successive results of `rand()`. */
  type Stream = nat -> nat

  /** The witnesses of `is_actually_prime`, in the order the `std::set` visits them. */
  const SmallPrimes: seq<nat> := [2, 3, 5, 7, 11, 13, 17, 19, 23, 29, 31, 37]

  /** Operands below the modulus (or the initial 1) multiply without leaving `long`. */
  lemma ProductFits(x: nat, y: nat, m: nat)
    requires m > 0 && (m - 1) * (m - 1) <= LongMax
    requires (x < m || x == 1) && y < m
    ensures x * y <= LongMax
  {
    if x < m {
      MulMono(x, m - 1, y);
      MulMono(y, m - 1, m - 1);
    }
  }

  /** `modpow` over `long`: reduces the base first, then square-and-multiply.
      Every product stays within `long` as long as (modulus - 1)^2 does. */
  method ModPow(base: nat, exp: nat, modulus: nat) returns (result: nat)
    requires modulus > 0 && (modulus - 1) * (modulus - 1) <= LongMax
    ensures exp == 0 ==> result == 1
    ensures exp > 0 ==> result == Pow(base, exp) % modulus
  {
    var b: nat := base % modulus;
    PowMod(base, exp, modulus);
    result := 1;
    var e: nat := exp;
    while e > 0
      invariant b < modulus && (result == 1 || result < modulus)
      invariant exp > 0 ==> e > 0 || result < modulus
      invariant exp == 0 ==> result == 1
      invariant (result * Pow(b, e)) % modulus == Pow(base % modulus, exp) % modulus
      decreases e
    {
      SquareMultiplyStep(result, b, e, modulus);
      if e % 2 == 1 {
        ProductFits(result, b, modulus);
        result := (result * b) % modulus;
      }
      ProductFits(b, b, modulus);
      b := (b * b) % modulus;
      e := e / 2;
    }
    if exp > 0 {
      UniqueDivision(result, modulus, 0, result);
    }
  }

  /** One Miller–Rabin round over `long`: `modpow`, then up to s - 1
      squarings of x modulo n, stopping at n - 1. */
  method Round(n: nat, d: nat, s: nat, a: nat) returns (pass: bool)
    requires 5 <= n && (n - 1) * (n - 1) <= LongMax && s >= 1
    ensures pass == RoundPasses(n, d, s, a)
  {
    var x: nat := ModPow(a, d, n);
    if d == 0 {
      UniqueDivision(1, n, 0, 1);
    }
    if x == 1 || x == n - 1 {
      return true;
    }
    ghost var x0 := x;
    var isWitness := false;
    var r: nat := 1;
    while r < s
      invariant 1 <= r <= s
      invariant x < n
      invariant SquaringReaches(x0, s - 1, n) == (isWitness || SquaringReaches(x, s - r, n))
      decreases s - r
    {
      ProductFits(x, x, n);
      x := (x * x) % n;
      isWitness := isWitness || x == n - 1;
      if isWitness {
        break;
      }
      r := r + 1;
    }
    return isWitness;
  }

  /** The witness drawn from one `rand()` value: `rand() % (n - 3) + 2`. */
  function Draw(n: nat, x: nat): (a: nat)
    requires n > 3
    ensures 2 <= a <= n - 2
  {
    x % (n - 3) + 2
  }

  /** The k values drawn from the stream starting at position pos. */
  function Drawn(n: nat, rand: Stream, pos: nat, k: nat): (ws: seq<nat>)
    requires n > 3
    ensures |ws| == k
    ensures forall i :: 0 <= i < k ==> ws[i] == Draw(n, rand(pos + i))
  {
    var s := seq(k, i requires 0 <= i < k => Draw(n, rand(pos + i)));
    assert forall i :: 0 <= i < |s| ==> s[i] == Draw(n, rand(pos + i)) && s[i] >= 0;
    s
  }

  /** What `miller_rabin(n, k)` returns and how many values of the stream
      it consumes. */
  function MillerRabinRun(n: nat, k: nat, rand: Stream, pos: nat): (bool, nat)
  {
    if n == 2 || n == 3 then (true, 0)
    else if n % 2 == 0 || n <= 1 then (false, 0)
    else
      var ds := Decompose(n - 1);
      var passed := LeadingPasses(n, ds.0, ds.1, Drawn(n, rand, pos, k));
      if passed == k then (true, k) else (false, passed + 1)
  }

  /** 2 and 3 are prime, and even numbers and numbers below 2 are not,
      without a draw; otherwise k witnesses are drawn one by one, the test
      stops at the first whose round fails, and n is reported prime exactly
      when all k rounds pass. */
  lemma MillerRabinRunMeaning(n: nat, k: nat, rand: Stream, pos: nat)
    ensures var res := MillerRabinRun(n, k, rand, pos);
      && res.1 <= k
      && (n == 2 || n == 3 ==> res == (true, 0))
      && (n != 2 && n != 3 && (n % 2 == 0 || n <= 1) ==> res == (false, 0))
      && (n > 3 && n % 2 == 1 ==>
        var ds := Decompose(n - 1);
        var ws := Drawn(n, rand, pos, k);
        && (res.0 <==> forall i :: 0 <= i < k ==> RoundPasses(n, ds.0, ds.1, ws[i]))
        && (res.0 ==> res.1 == k)
        && (!res.0 ==> res.1 >= 1 && !RoundPasses(n, ds.0, ds.1, ws[res.1 - 1])))
  {
  }

  /** `miller_rabin` over `long` with witnesses drawn from the stream. */
  method MillerRabin(n: nat, k: nat, rand: Stream, pos: nat) returns (r: bool, used: nat)
    requires (n - 1) * (n - 1) <= LongMax
    ensures (r, used) == MillerRabinRun(n, k, rand, pos)
  {
    if n == 2 || n == 3 {
      return true, 0;
    }
    if n % 2 == 0 || n <= 1 {
      return false, 0;
    }
    var d, s := HalveOut(n - 1);
    assert s >= 1 by {
      assert (n - 1) % 2 == 0;
    }
    ghost var ws := Drawn(n, rand, pos, k);
    for w := 0 to k
      invariant forall i :: 0 <= i < w ==> RoundPasses(n, d, s, ws[i])
    {
      var a := Draw(n, rand(pos + w));
      assert a == ws[w];
      var pass := Round(n, d, s, a);
      if !pass {
        return false, w + 1;
      }
    }
    return true, k;
  }

  /** A random witness never equals n, so the skip of the fixed-witness
      tests would never fire: the decision is `WitnessTest` on the draws. */
  lemma MillerRabinIsWitnessTest(n: nat, k: nat, rand: Stream, pos: nat)
    requires n > 3
    ensures MillerRabinRun(n, k, rand, pos).0 == WitnessTest(n, Drawn(n, rand, pos, k))
  {
    var ws := Drawn(n, rand, pos, k);
    MillerRabinRunMeaning(n, k, rand, pos);
    assert forall i :: 0 <= i < k ==> ws[i] != n;
  }

  /** The first index whose check divides n, or |checks| if none does. */
  function FirstDivisor(n: nat, checks: seq<nat>): (j: nat)
    requires forall i :: 0 <= i < |checks| ==> checks[i] > 0
    ensures j <= |checks|
    ensures forall i :: 0 <= i < j ==> n % checks[i] != 0
    ensures j < |checks| ==> n % checks[j] == 0
  {
    if checks == [] || n % checks[0] == 0 then 0
    else 1 + FirstDivisor(n, checks[1..])
  }

  /** What `prime_rand(n, k)` returns and how many values it consumes. */
  function PrimeRandRun(n: nat, k: nat, rand: Stream, pos: nat): (bool, nat)
  {
    if n == 2 || n == 3 then (true, 0)
    else if n <= 1 then (false, 0)
    else
      var j := FirstDivisor(n, Drawn(n, rand, pos, k));
      if j == k then (true, k) else (false, j + 1)
  }

  /** 2 and 3 are prime and numbers below 2 are not; otherwise k divisors
      drawn from [2, n - 2] are tried, stopping at the first that divides n,
      and n is reported prime exactly when none does. Even numbers are not
      filtered out beforehand. */
  lemma PrimeRandRunMeaning(n: nat, k: nat, rand: Stream, pos: nat)
    ensures var res := PrimeRandRun(n, k, rand, pos);
      && res.1 <= k
      && (n == 2 || n == 3 ==> res == (true, 0))
      && (n <= 1 ==> res == (false, 0))
      && (n > 3 ==>
        var cs := Drawn(n, rand, pos, k);
        && (res.0 <==> forall i :: 0 <= i < k ==> n % cs[i] != 0)
        && (res.0 ==> res.1 == k)
        && (!res.0 ==> res.1 >= 1 && n % cs[res.1 - 1] == 0))
  {
  }

  /** `prime_rand` with divisors drawn from the stream. */
  method PrimeRand(n: nat, k: nat, rand: Stream, pos: nat) returns (r: bool, used: nat)
    ensures (r, used) == PrimeRandRun(n, k, rand, pos)
  {
    if n == 2 || n == 3 {
      return true, 0;
    }
    if n <= 1 {
      return false, 0;
    }
    ghost var cs := Drawn(n, rand, pos, k);
    for w := 0 to k
      invariant forall i :: 0 <= i < w ==> n % cs[i] != 0
    {
      var check := Draw(n, rand(pos + w));
      assert check == cs[w];
      if n % check == 0 {
        return false, w + 1;
      }
    }
    return true, k;
  }

  /** The random-divisor check never rejects a prime, and everything it
      rejects from 2 upwards is composite. */
  lemma PrimeRandSound(n: nat, k: nat, rand: Stream, pos: nat)
    requires n >= 2
    ensures Prime(n) ==> PrimeRandRun(n, k, rand, pos).0
    ensures !PrimeRandRun(n, k, rand, pos).0 ==> !Prime(n)
  {
    var res := PrimeRandRun(n, k, rand, pos);
    PrimeRandRunMeaning(n, k, rand, pos);
    if n > 3 {
      var cs := Drawn(n, rand, pos, k);
      if !res.0 {
        var c := cs[res.1 - 1];
        assert 2 <= c < n && Divides(c, n);
      } else if Prime(n) {
        forall i | 0 <= i < k
          ensures n % cs[i] != 0
        {
          assert !Divides(cs[i], n);
        }
      }
    }
  }

  /** Even numbers are not filtered out: 8 is reported prime when the one
      divisor drawn is 5. */
  lemma PrimeRandAcceptsEight()
    ensures PrimeRandRun(8, 1, x => 3, 0) == (true, 1)
  {
    assert Drawn(8, x => 3, 0, 1) == [5];
  }

  /** The ground-truth test: the twelve smallest primes as witnesses. */
  method IsActuallyPrime(n: nat) returns (r: bool)
    requires (n - 1) * (n - 1) <= LongMax
    ensures r == WitnessTest(n, SmallPrimes)
  {
    if n == 2 || n == 3 {
      return true;
    }
    if n % 2 == 0 || n <= 1 {
      return false;
    }
    var d, s := HalveOut(n - 1);
    assert s >= 1 by {
      assert (n - 1) % 2 == 0;
    }
    for w := 0 to |SmallPrimes|
      invariant forall i :: 0 <= i < w ==> SmallPrimes[i] == n || RoundPasses(n, d, s, SmallPrimes[i])
    {
      var a := SmallPrimes[w];
      if a == n {
        continue;
      }
      var pass := Round(n, d, s, a);
      if !pass {
        return false;
      }
    }
    return true;
  }

  /** A literal p is prime when it has no divisor below a bound c with p < c*c. */
  lemma PrimeByTrial(p: nat, c: nat)
    requires 2 <= p < c * c && NoDivisorIn(p, 2, c)
    ensures Prime(p)
  {
    NoDivisorInMeans(p, 2, c);
    NoSmallDivisorMeansPrime(p, c);
  }

  lemma SmallPrimesArePrime(i: nat)
    requires i < |SmallPrimes|
    ensures Prime(SmallPrimes[i])
  {
    PrimeByTrial(2, 2);
    PrimeByTrial(3, 2);
    PrimeByTrial(5, 3);
    PrimeByTrial(7, 3);
    PrimeByTrial(11, 4);
    PrimeByTrial(13, 4);
    PrimeByTrial(17, 5);
    PrimeByTrial(19, 5);
    PrimeByTrial(23, 5);
    PrimeByTrial(29, 6);
    PrimeByTrial(31, 6);
    PrimeByTrial(37, 7);
  }

  /** The skip `a == n` of `is_actually_prime` fires exactly when the witness
      is a multiple of n: the witnesses are primes. */
  lemma SkipIsZeroResidue(n: nat, i: nat)
    requires n > 1 && i < |SmallPrimes|
    ensures SmallPrimes[i] == n <==> SmallPrimes[i] % n == 0
  {
    var a := SmallPrimes[i];
    if a % n == 0 {
      SmallPrimesArePrime(i);
      PrimeDivisor(a, n);
    }
  }

  lemma SquareBelow(n: nat, total: nat)
    requires n < total && total * total <= LongMax
    ensures (n - 1) * (n - 1) <= LongMax
  {
    if n > 0 {
      MulMono(n - 1, total, n - 1);
      MulMono(n - 1, total, total);
    }
  }

  /** The ground truth of `main`: every n in [0, total) that
      `is_actually_prime` accepts. */
  method GroundTruth(total: nat) returns (primes: set<nat>)
    requires total * total <= LongMax
    ensures forall n: nat :: n in primes <==> n < total && WitnessTest(n, SmallPrimes)
  {
    primes := {};
    var n: nat := 0;
    while n < total
      invariant n <= total
      invariant forall m: nat :: m in primes <==> m < n && WitnessTest(m, SmallPrimes)
    {
      SquareBelow(n, total);
      var p := IsActuallyPrime(n);
      if p {
        primes := primes + {n};
      }
      n := n + 1;
    }
  }

  /** The two checkers `trial` is run with. */
  datatype Checker = MillerRabinCheck | RandomCheck

  function Run(c: Checker, n: nat, k: nat, rand: Stream, pos: nat): (bool, nat)
  {
    match c
    case MillerRabinCheck => MillerRabinRun(n, k, rand, pos)
    case RandomCheck => PrimeRandRun(n, k, rand, pos)
  }

  /** The predictions for 0, 1, ..., m - 1, each test continuing the stream
      where the previous one stopped, and the stream position after them. */
  function Outcome(c: Checker, k: nat, rand: Stream, pos: nat, m: nat): (res: (seq<bool>, nat))
    ensures |res.0| == m && res.1 >= pos
  {
    if m == 0 then ([], pos)
    else
      var prev := Outcome(c, k, rand, pos, m - 1);
      var step := Run(c, m - 1, k, rand, prev.1);
      (prev.0 + [step.0], prev.1 + step.1)
  }

  lemma OutcomeStep(c: Checker, k: nat, rand: Stream, pos: nat, m: nat, b: bool, used: nat)
    requires (b, used) == Run(c, m, k, rand, Outcome(c, k, rand, pos, m).1)
    ensures Outcome(c, k, rand, pos, m + 1).0 == Outcome(c, k, rand, pos, m).0 + [b]
    ensures Outcome(c, k, rand, pos, m + 1).1 == Outcome(c, k, rand, pos, m).1 + used
  {
  }

  /** Whether each of 0, 1, ..., m - 1 is in the ground-truth set. */
  function Truth(primes: set<nat>, m: nat): (t: seq<bool>)
    ensures |t| == m
  {
    seq(m, n requires 0 <= n < m => n in primes)
  }

  lemma TruthStep(primes: set<nat>, m: nat)
    ensures Truth(primes, m + 1) == Truth(primes, m) + [m in primes]
  {
  }

  /** How many positions have ground truth p and prediction q. */
  function Cell(truth: seq<bool>, preds: seq<bool>, p: bool, q: bool): nat
    requires |truth| == |preds|
  {
    if truth == [] then 0
    else
      var last := |truth| - 1;
      Cell(truth[..last], preds[..last], p, q) + (if truth[last] == p && preds[last] == q then 1 else 0)
  }

  /** Every position falls in exactly one of the four cells. */
  lemma {:induction false} CellsPartition(truth: seq<bool>, preds: seq<bool>)
    requires |truth| == |preds|
    ensures Cell(truth, preds, false, false) + Cell(truth, preds, false, true)
          + Cell(truth, preds, true, false) + Cell(truth, preds, true, true) == |truth|
  {
    if truth != [] {
      var last := |truth| - 1;
      CellsPartition(truth[..last], preds[..last]);
    }
  }

  /** `stats` without its floating-point metrics: the number of checks,
      the correct count `[0][0] + [1][1]` and the incorrect count
      `[1][0] + [0][1]`. */
  function Stats(count: array2<nat>, checks: nat): (r: (nat, nat, nat))
    reads count
    requires count.Length0 == 2 && count.Length1 == 2
    ensures r.1 + r.2 == count[0, 0] + count[0, 1] + count[1, 0] + count[1, 1]
  {
    (checks, count[0, 0] + count[1, 1], count[1, 0] + count[0, 1])
  }

  /** The test of one n with the chosen checker. */
  method Check(c: Checker, n: nat, k: nat, rand: Stream, pos: nat) returns (r: bool, used: nat)
    requires (n - 1) * (n - 1) <= LongMax
    ensures (r, used) == Run(c, n, k, rand, pos)
  {
    match c
    case MillerRabinCheck =>
      r, used := MillerRabin(n, k, rand, pos);
    case RandomCheck =>
      r, used := PrimeRand(n, k, rand, pos);
  }

  /** Appending one (truth, prediction) pair adds one to exactly its cell. */
  lemma CellStep(truth: seq<bool>, preds: seq<bool>, t: bool, b: bool, p: bool, q: bool)
    requires |truth| == |preds|
    ensures Cell(truth + [t], preds + [b], p, q) == Cell(truth, preds, p, q) + (if t == p && b == q then 1 else 0)
  {
    assert (truth + [t])[..|truth|] == truth;
    assert (preds + [b])[..|preds|] == preds;
  }

  /** The matrix `count[truth][prediction]` holds the four cell counts. */
  ghost predicate Counts(count: array2<nat>, truth: seq<bool>, preds: seq<bool>)
    reads count
    requires count.Length0 == 2 && count.Length1 == 2 && |truth| == |preds|
  {
    && count[0, 0] == Cell(truth, preds, false, false)
    && count[0, 1] == Cell(truth, preds, false, true)
    && count[1, 0] == Cell(truth, preds, true, false)
    && count[1, 1] == Cell(truth, preds, true, true)
  }

  /** The counting loop of `trial`: tests every n in [0, total) in turn,
      continuing the stream, and adds one to `count[truth][prediction]`. */
  method CountTrial(c: Checker, primes: set<nat>, total: nat, k: nat, rand: Stream, pos: nat)
    returns (count: array2<nat>, pos': nat)
    requires total * total <= LongMax
    ensures fresh(count) && count.Length0 == 2 && count.Length1 == 2
    ensures Counts(count, Truth(primes, total), Outcome(c, k, rand, pos, total).0)
    ensures pos' == Outcome(c, k, rand, pos, total).1
  {
    count := new nat[2, 2];
    count[0, 0], count[0, 1], count[1, 0], count[1, 1] := 0, 0, 0, 0;
    ghost var seenTruth: seq<bool> := [];
    ghost var preds: seq<bool> := [];
    pos' := pos;
    var n: nat := 0;
    while n < total
      invariant n <= total
      invariant seenTruth == Truth(primes, n)
      invariant |preds| == n
      invariant preds == Outcome(c, k, rand, pos, n).0
      invariant pos' == Outcome(c, k, rand, pos, n).1
      invariant Counts(count, seenTruth, preds)
    {
      SquareBelow(n, total);
      var nPrime := n in primes;
      var nPredict, used := Check(c, n, k, rand, pos');
      OutcomeStep(c, k, rand, pos, n, nPredict, used);
      CellStep(seenTruth, preds, nPrime, nPredict, false, false);
      CellStep(seenTruth, preds, nPrime, nPredict, false, true);
      CellStep(seenTruth, preds, nPrime, nPredict, true, false);
      CellStep(seenTruth, preds, nPrime, nPredict, true, true);
      count[Index(nPrime), Index(nPredict)] := count[Index(nPrime), Index(nPredict)] + 1;
      TruthStep(primes, n);
      seenTruth := seenTruth + [nPrime];
      preds := preds + [nPredict];
      pos' := pos' + used;
      n := n + 1;
    }
  }

  /** `trial`: counts with `CountTrial`, then reports `stats` of the matrix:
      the number of checks, the correct count, which is the number of
      agreements between truth and prediction, and the incorrect count,
      the number of disagreements; the two add up to total. */
  method Trial(c: Checker, primes: set<nat>, total: nat, k: nat, rand: Stream, pos: nat)
    returns (stats: (nat, nat, nat), pos': nat)
    requires total * total <= LongMax
    ensures var preds := Outcome(c, k, rand, pos, total).0;
      var truth := Truth(primes, total);
      && stats.0 == k
      && stats.1 == Cell(truth, preds, false, false) + Cell(truth, preds, true, true)
      && stats.2 == Cell(truth, preds, true, false) + Cell(truth, preds, false, true)
      && stats.1 + stats.2 == total
    ensures pos' == Outcome(c, k, rand, pos, total).1
  {
    var count;
    count, pos' := CountTrial(c, primes, total, k, rand, pos);
    CellsPartition(Truth(primes, total), Outcome(c, k, rand, pos, total).0);
    stats := Stats(count, k);
  }
}
