/** The wheel-based prime enumerator: 64-bit modular arithmetic, the
    fixed-witness Miller–Rabin test, the wheel of residues coprime to
    2, 3, 5, 7, 11, and the block-plus-peg walk that collects primes. */
module PrimeGen {
  import opened Common
  import opened NumberTheory
  import opened MillerRabinCore

  /** The seven bases `is_prime` tries, in order. */
  const Witnesses: seq<nat> := [2, 325, 9375, 28178, 450775, 9780504, 1795265022]

  /** The wheel basis of `main`. */
  const Bases: seq<nat> := [2, 3, 5, 7, 11]

  /** `mulmod64`: the 128-bit product a*b divided by c with the x86 `div`.
      The instruction faults unless c > 0 and the quotient fits in 64 bits,
      i.e. a*b < c * 2^64; the result is then the remainder. */
  function MulMod64(a: nat, b: nat, c: nat): (d: nat)
    requires a < U64 && b < U64 && 0 < c < U64
    requires a * b < c * U64
    ensures d < c
    ensures exists q :: q < U64 && a * b == q * c + d
  {
    var q := (a * b) / c;
    assert q < U64 by {
      assert q * c <= a * b;
      if q >= U64 {
        MulMono(U64, q, c);
      }
    }
    (a * b) % c
  }

  /** `powmod64`: square-and-multiply with `mulmod64`. The base is not
      reduced first, so the first squaring needs b*b < p * 2^64; for n = 0
      the result is 1 even when p = 1. */
  method PowMod64(b: nat, n: nat, p: nat) returns (a: nat)
    requires b < U64 && n < U64 && 0 < p < U64
    requires n == 0 || b * b < p * U64
    ensures n == 0 ==> a == 1
    ensures n > 0 ==> a == Pow(b, n) % p
  {
    a := 1;
    var base: nat, e: nat := b, n;
    // The goto loop of the source: `mul` runs when the low bit of e is set,
    // then `sqr` squares the base and shifts e, until e is 0.
    while e > 0
      invariant base < U64 && (a == 1 || a < p)
      invariant base == b || base < p
      invariant n > 0 ==> e > 0 || a < p
      invariant e == 0 ==> a == 1 || a < p
      invariant n == 0 ==> a == 1
      invariant (a * Pow(base, e)) % p == Pow(b, n) % p
      decreases e
    {
      SquareMultiplyStep(a, base, e, p);
      if e % 2 == 1 {
        if a == 1 {
          MulMono(1, p, U64);
        } else {
          MulStrict(a, base, p, U64);
        }
        a := MulMod64(a, base, p);
      }
      if base < p {
        MulStrict(base, base, p, U64);
      }
      base := MulMod64(base, base, p);
      e := e / 2;
    }
    if n > 0 {
      UniqueDivision(a, p, 0, a);
    }
  }

  lemma WitnessesSmall(i: nat)
    requires i < |Witnesses|
    ensures Witnesses[i] < 0x8000_0000
    ensures Witnesses[i] * Witnesses[i] < U64
  {
    MulStrict(Witnesses[i], Witnesses[i], 0x8000_0000, 0x8000_0000);
  }

  /** One round of `is_prime` for witness a: `powmod64`, then up to s - 1
      squarings with `mulmod64`, stopping at n - 1. */
  method Round(n: nat, d: nat, s: nat, a: nat) returns (pass: bool)
    requires 5 <= n < U64 && 0 < d < n && s >= 1
    requires a < 0x8000_0000
    ensures pass == RoundPasses(n, d, s, a)
  {
    MulStrict(a, a, 0x8000_0000, 0x8000_0000);
    MulMono(1, n, U64);
    var x: nat := PowMod64(a, d, n);
    if x == 1 || x == n - 1 {
      return true;
    }
    ghost var x0 := x;
    var isWitness := false;
    var r: nat := 1;
    while r < s
      invariant 1 <= r <= s
      invariant x < n
      invariant SquaringReaches(x0, s - 1, n) == (isWitness || SquaringReaches(x, s - r, n))
      decreases s - r
    {
      MulStrict(x, x, n, U64);
      x := MulMod64(x, x, n);
      isWitness := isWitness || x == n - 1;
      if isWitness {
        break;
      }
      r := r + 1;
    }
    return isWitness;
  }

  /** `is_prime`: the fixed seven-witness Miller–Rabin test, as written
      (a witness is skipped only when it equals n). */
  method IsPrime(n: nat) returns (r: bool)
    requires n < U64
    ensures r == WitnessTest(n, Witnesses)
  {
    if n == 2 || n == 3 {
      return true;
    }
    if n % 2 == 0 || n <= 1 {
      return false;
    }
    var d, s := HalveOut(n - 1);
    assert s >= 1 by {
      assert (n - 1) % 2 == 0;
    }
    assert d < n by {
      PowPositive(2, s);
      MulAtLeast(Pow(2, s), d);
    }
    for w := 0 to |Witnesses|
      invariant forall i :: 0 <= i < w ==> Witnesses[i] == n || RoundPasses(n, d, s, Witnesses[i])
    {
      var a := Witnesses[w];
      if a == n {
        continue;
      }
      WitnessesSmall(w);
      var pass := Round(n, d, s, a);
      if !pass {
        return false;
      }
    }
    return true;
  }

  /** The comment on the witness table claims exactness for all n < 2^64, but
      the skip fires only for a == n: 325 = 25 * 13, so for n = 13 the base
      325 gives x = 0 and the prime 13 is reported composite. */
  lemma IsPrimeRejects13()
    ensures Prime(13) && !WitnessTest(13, Witnesses)
  {
    assert NoDivisorIn(13, 2, 13);
    NoDivisorInMeans(13, 2, 13);
    assert Decompose(12) == (3, 2);
    assert Pow(325, 3) % 13 == 0;
    assert !RoundPasses(13, 3, 2, Witnesses[1]);
  }

  /** The product of a sequence of factors. */
  function Product(xs: seq<nat>): nat
  {
    if xs == [] then 1 else xs[0] * Product(xs[1..])
  }

  /** `prod`: multiplies `bases[0..count)` from the last factor down, in a
      64-bit `size_t`, so the product wraps modulo 2^64. */
  method Prod(bases: seq<nat>, count: nat) returns (result: nat)
    requires count <= |bases|
    ensures result == Product(bases[..count]) % U64
  {
    result := 1;
    var c: nat := count;
    while c > 0
      invariant c <= count
      invariant result == Product(bases[c..count]) % U64
    {
      c := c - 1;
      assert bases[c..count][1..] == bases[c + 1..count];
      var rest := Product(bases[c + 1..count]);
      assert Product(bases[c..count]) == bases[c] * rest;
      MulModLeft(rest, bases[c], U64);
      assert rest * bases[c] == bases[c] * rest;
      result := (result * bases[c]) % U64;
    }
    assert bases[0..count] == bases[..count];
  }

  /** No base divides n. */
  predicate NoBaseDivides(n: nat, bases: seq<nat>)
  {
    forall i :: 0 <= i < |bases| ==> !Divides(bases[i], n)
  }

  /** The numbers of [lo, hi) that no base divides, in ascending order. */
  function Coprime(lo: nat, hi: nat, bases: seq<nat>): seq<nat>
    decreases hi
  {
    if hi <= lo then []
    else Coprime(lo, hi - 1, bases) + (if NoBaseDivides(hi - 1, bases) then [hi - 1] else [])
  }

  lemma {:induction false} CoprimeMembers(lo: nat, hi: nat, bases: seq<nat>)
    ensures forall x :: x in Coprime(lo, hi, bases) <==> lo <= x < hi && NoBaseDivides(x, bases)
    decreases hi
  {
    if hi > lo {
      CoprimeMembers(lo, hi - 1, bases);
    }
  }

  lemma {:induction false} CoprimeAscending(lo: nat, hi: nat, bases: seq<nat>)
    ensures forall i, j :: 0 <= i < j < |Coprime(lo, hi, bases)| ==>
      Coprime(lo, hi, bases)[i] < Coprime(lo, hi, bases)[j]
    decreases hi
  {
    if hi > lo {
      CoprimeAscending(lo, hi - 1, bases);
      CoprimeMembers(lo, hi - 1, bases);
      var c := Coprime(lo, hi - 1, bases);
      assert forall i :: 0 <= i < |c| ==> c[i] in c;
    }
  }

  lemma CoprimeBelow(lo: nat, hi: nat, bases: seq<nat>)
    ensures forall i :: 0 <= i < |Coprime(lo, hi, bases)| ==> Coprime(lo, hi, bases)[i] < hi
  {
    var c := Coprime(lo, hi, bases);
    CoprimeMembers(lo, hi, bases);
    forall i | 0 <= i < |c|
      ensures c[i] < hi
    {
      assert c[i] in c;
    }
  }

  lemma {:induction false} CoprimePrefix(lo: nat, m: nat, hi: nat, bases: seq<nat>)
    requires m <= hi
    ensures Coprime(lo, m, bases) <= Coprime(lo, hi, bases)
    decreases hi - m
  {
    if m < hi {
      CoprimePrefix(lo, m, hi - 1, bases);
    }
  }

  lemma {:induction false} CoprimeLength(lo: nat, hi: nat, bases: seq<nat>)
    ensures |Coprime(lo, hi, bases)| <= if hi <= lo then 0 else hi - lo
    decreases hi
  {
    if hi > lo {
      CoprimeLength(lo, hi - 1, bases);
    }
  }

  /** The wheel's pegs: `build_pegs` fills `pegs[0..index)` with the numbers of
      [2, pegsSize) that no base divides, ascending, and returns their count.
      The scan starts at 2, so residue 1 is never a peg. */
  method BuildPegs(pegs: array<nat>, pegsSize: nat, bases: seq<nat>) returns (index: nat)
    requires forall i :: 0 <= i < |bases| ==> bases[i] > 0
    requires |Coprime(2, pegsSize, bases)| <= pegs.Length
    modifies pegs
    ensures index == |Coprime(2, pegsSize, bases)| <= pegs.Length
    ensures pegs[..index] == Coprime(2, pegsSize, bases)
    ensures forall i :: index <= i < pegs.Length ==> pegs[i] == old(pegs[i])
  {
    index := 0;
    var n := 2;
    while n < pegsSize
      invariant 2 <= n <= if pegsSize < 2 then 2 else pegsSize
      invariant index <= pegs.Length
      invariant pegs[..index] == Coprime(2, n, bases)
      invariant forall i :: index <= i < pegs.Length ==> pegs[i] == old(pegs[i])
    {
      var b := 0;
      while b < |bases| && n % bases[b] != 0
        invariant b <= |bases|
        invariant forall j :: 0 <= j < b ==> !Divides(bases[j], n)
      {
        b := b + 1;
      }
      if b == |bases| {
        CoprimePrefix(2, n + 1, pegsSize, bases);
        pegs[index] := n;
        index := index + 1;
      }
      n := n + 1;
    }
    assert |pegs[..index]| == index;
  }

  /** The candidates of block b: b * period + peg, for each peg in order. */
  function Block(pegs: seq<nat>, period: nat, b: nat): (r: seq<nat>)
    ensures |r| == |pegs|
    ensures forall i :: 0 <= i < |pegs| ==> r[i] == b * period + pegs[i]
  {
    seq(|pegs|, i requires 0 <= i < |pegs| => b * period + pegs[i])
  }

  /** The candidates of blocks 0, 1, ..., blocks - 1, block after block. */
  function Walk(pegs: seq<nat>, period: nat, blocks: nat): seq<nat>
  {
    if blocks == 0 then [] else Walk(pegs, period, blocks - 1) + Block(pegs, period, blocks - 1)
  }

  /** The candidates, in order, that `is_prime` accepts. */
  function Accepted(cs: seq<nat>): seq<nat>
  {
    if cs == [] then []
    else Accepted(cs[..|cs| - 1]) + (if WitnessTest(cs[|cs| - 1], Witnesses) then [cs[|cs| - 1]] else [])
  }

  lemma {:induction false} AcceptedAppend(a: seq<nat>, b: seq<nat>)
    ensures Accepted(a + b) == Accepted(a) + Accepted(b)
    decreases |b|
  {
    if b != [] {
      var b' := b[..|b| - 1];
      assert (a + b)[..|a + b| - 1] == a + b';
      AcceptedAppend(a, b');
    } else {
      assert a + b == a;
    }
  }

  lemma AcceptedPrefix(a: seq<nat>, b: seq<nat>)
    requires a <= b
    ensures Accepted(a) <= Accepted(b)
  {
    assert b == a + b[|a|..];
    AcceptedAppend(a, b[|a|..]);
  }

  lemma {:induction false} WalkPrefix(pegs: seq<nat>, period: nat, b1: nat, b2: nat)
    requires b1 <= b2
    ensures Walk(pegs, period, b1) <= Walk(pegs, period, b2)
    decreases b2
  {
    if b1 < b2 {
      WalkPrefix(pegs, period, b1, b2 - 1);
    }
  }

  lemma BlockMembers(pegs: seq<nat>, period: nat, b: nat, x: nat)
    requires period > 0
    requires forall i :: 0 <= i < |pegs| ==> pegs[i] < period
    ensures x in Block(pegs, period, b) <==> x / period == b && x % period in pegs
  {
    var blk := Block(pegs, period, b);
    if x in blk {
      var i :| 0 <= i < |pegs| && blk[i] == x;
      UniqueDivision(x, period, b, pegs[i]);
    }
    if x / period == b && x % period in pegs {
      var i :| 0 <= i < |pegs| && pegs[i] == x % period;
      assert blk[i] == x;
    }
  }

  /** A candidate lies in block b when its quotient by the period is b. */
  lemma {:induction false} WalkMembers(pegs: seq<nat>, period: nat, blocks: nat, x: nat)
    requires period > 0
    requires forall i :: 0 <= i < |pegs| ==> pegs[i] < period
    ensures x in Walk(pegs, period, blocks) <==> x / period < blocks && x % period in pegs
    decreases blocks
  {
    if blocks > 0 {
      WalkMembers(pegs, period, blocks - 1, x);
      BlockMembers(pegs, period, blocks - 1, x);
      var w, blk := Walk(pegs, period, blocks - 1), Block(pegs, period, blocks - 1);
      assert Walk(pegs, period, blocks) == w + blk;
      assert x in w + blk <==> x in w || x in blk;
    }
  }

  lemma {:induction false} WalkBelow(pegs: seq<nat>, period: nat, blocks: nat)
    requires forall i :: 0 <= i < |pegs| ==> pegs[i] < period
    ensures forall i :: 0 <= i < |Walk(pegs, period, blocks)| ==> Walk(pegs, period, blocks)[i] < blocks * period
    decreases blocks
  {
    if blocks > 0 {
      WalkBelow(pegs, period, blocks - 1);
      MulMono(blocks - 1, blocks, period);
      assert blocks * period == (blocks - 1) * period + period;
    }
  }

  /** The walk visits its candidates in strictly increasing order. */
  lemma {:induction false} WalkAscending(pegs: seq<nat>, period: nat, blocks: nat)
    requires forall i, j :: 0 <= i < j < |pegs| ==> pegs[i] < pegs[j]
    requires forall i :: 0 <= i < |pegs| ==> pegs[i] < period
    ensures forall i, j :: 0 <= i < j < |Walk(pegs, period, blocks)| ==>
      Walk(pegs, period, blocks)[i] < Walk(pegs, period, blocks)[j]
    decreases blocks
  {
    if blocks > 0 {
      WalkAscending(pegs, period, blocks - 1);
      WalkBelow(pegs, period, blocks - 1);
      var w := Walk(pegs, period, blocks - 1);
      var blk := Block(pegs, period, blocks - 1);
      var all := w + blk;
      assert all == Walk(pegs, period, blocks);
      forall i, j | 0 <= i < j < |all|
        ensures all[i] < all[j]
      {
        if j < |w| {
          assert all[i] == w[i] && all[j] == w[j];
        } else if i >= |w| {
          assert all[i] == blk[i - |w|] && all[j] == blk[j - |w|];
        } else {
          assert all[i] == w[i] && all[j] == blk[j - |w|];
        }
      }
    }
  }

  /** A base that divides the period leaves the same remainder for x and x mod period. */
  lemma DividesPeriod(x: nat, period: nat, base: nat)
    requires period > 0 && Divides(base, period)
    ensures Divides(base, x) <==> Divides(base, x % period)
  {
    var t := period / base;
    assert period == t * base;
    assert x == x % period + ((x / period) * t) * base;
    ModAddMultiple(x % period, (x / period) * t, base);
  }

  /** Which integers the wheel examines: below blocks * period, exactly those
      that no base divides and whose residue modulo the period is not 1
      (residue 0 is divisible by every base). */
  lemma WheelCoverage(bases: seq<nat>, period: nat, blocks: nat, x: nat)
    requires |bases| > 0 && period > 0
    requires forall i :: 0 <= i < |bases| ==> bases[i] > 0 && Divides(bases[i], period)
    ensures x in Walk(Coprime(2, period, bases), period, blocks) <==>
      x / period < blocks && x % period != 1 && NoBaseDivides(x, bases)
  {
    var pegs := Coprime(2, period, bases);
    CoprimeMembers(2, period, bases);
    forall i | 0 <= i < |pegs|
      ensures pegs[i] < period
    {
      assert pegs[i] in pegs;
    }
    WalkMembers(pegs, period, blocks, x);
    forall i | 0 <= i < |bases|
      ensures Divides(bases[i], x) <==> Divides(bases[i], x % period)
    {
      DividesPeriod(x, period, bases[i]);
    }
    if x % period == 0 {
      assert Divides(bases[0], 0);
    }
  }

  lemma Prime2311()
    ensures Prime(2311)
  {
    assert NoDivisorIn(2311, 41, 49);
    assert NoDivisorIn(2311, 33, 49);
    assert NoDivisorIn(2311, 25, 49);
    assert NoDivisorIn(2311, 17, 49);
    assert NoDivisorIn(2311, 9, 49);
    assert NoDivisorIn(2311, 2, 49);
    NoDivisorInMeans(2311, 2, 49);
    NoSmallDivisorMeansPrime(2311, 49);
  }

  /** The prime 2311 = 2310 + 1 is never examined: the peg scan starts at 2. */
  lemma ResidueOneSkipped(blocks: nat)
    ensures Prime(2311)
    ensures 2311 !in Walk(Coprime(2, 2310, Bases), 2310, blocks)
  {
    Prime2311();
    WheelCoverage(Bases, 2310, blocks, 2311);
  }

  /** The last element of a sequence, 0 for the empty one. */
  function Last(s: seq<nat>): nat
  {
    if s == [] then 0 else s[|s| - 1]
  }

  /** The candidates of the first `blocks` blocks of the 2310-wheel. */
  function Wheel(blocks: nat): seq<nat>
  {
    Walk(Coprime(2, 2310, Bases), 2310, blocks)
  }

  /** The inner loop of `main`: tries n + pegs[i] for each peg in order,
      counting the candidates `is_prime` accepts up from `found`, and stops
      with n set to the candidate that brings the count to `count`. The
      ghost k is the number of candidates tried. */
  method ScanBlock(pegs: array<nat>, pegCount: nat, period: nat, n: nat, found: nat, count: nat, ghost blk: nat)
    returns (hits: seq<nat>, total: nat, n': nat, ghost k: nat)
    requires pegCount <= pegs.Length && n == blk * period && found < count
    requires forall i :: 0 <= i < pegCount ==> n + pegs[i] < U64
    ensures k <= pegCount
    ensures hits == Accepted(Block(pegs[..pegCount], period, blk)[..k])
    ensures total == found + |hits| <= count
    ensures total < count ==> k == pegCount && n' == n
    ensures total == count ==> hits != [] && n' == Last(hits)
  {
    ghost var block := Block(pegs[..pegCount], period, blk);
    hits, total, n', k := [], found, n, 0;
    var i: nat := 0;
    while i < pegCount
      invariant i <= pegCount && k == i
      invariant hits == Accepted(block[..i])
      invariant total == found + |hits| < count
      invariant n' == n
    {
      var val := n + pegs[i];
      assert val == block[i];
      var accepted := IsPrime(val);
      assert block[..i + 1] == block[..i] + [val];
      assert (block[..i] + [val])[..i] == block[..i];
      k := i + 1;
      if accepted {
        total := total + 1;
        hits := hits + [val];
        if total == count {
          n' := val;
          return;
        }
      }
      i := i + 1;
    }
    assert k == pegCount;
  }

  /** The nested loops of `main` for a wheel with any period: walk block after
      block (n = 0, period, 2 * period, ...) and print every candidate
      `is_prime` accepts, counting up from `found` until `count`. After the
      break, n holds the last value printed, and the outer loop's increment
      still adds the period before the loop condition fails, so the end
      reported is that value plus the period; when found >= count the walk
      never starts and the end is 0. The search itself is unbounded; the
      ghost `blocks` states how many blocks suffice, and that the signed
      `long n` does not overflow within them. */
  method WalkWheel(pegs: array<nat>, pegCount: nat, period: nat, found: nat, count: nat, ghost blocks: nat)
    returns (printed: seq<nat>, end: nat)
    requires pegCount <= pegs.Length && period > 0
    requires forall i :: 0 <= i < pegCount ==> pegs[i] < period
    requires (blocks + 1) * period <= LongMax
    requires count <= found + |Accepted(Walk(pegs[..pegCount], period, blocks))|
    ensures printed == if count <= found then [] else Accepted(Walk(pegs[..pegCount], period, blocks))[..count - found]
    ensures end == if count <= found then 0 else Last(printed) + period
  {
    ghost var pegSeq := pegs[..pegCount];
    ghost var whole := Walk(pegSeq, period, blocks);
    var n: nat := 0;
    var total := found;
    printed := [];
    ghost var blk: nat := 0;
    ghost var stopped := false;
    ghost var seen: seq<nat> := [];
    while total < count
      invariant total == found + |Accepted(seen)|
      invariant printed == Accepted(seen)
      invariant seen <= whole
      invariant !stopped ==> seen == Walk(pegSeq, period, blk)
      invariant !stopped ==> n == blk * period
      invariant !stopped ==> blk <= blocks
      invariant !stopped && blk > 0 ==> total < count
      invariant stopped ==> found < total
      invariant stopped ==> total == count
      invariant stopped ==> n == Last(printed) + period
      decreases blocks - blk
    {
      assert !stopped && seen == Walk(pegSeq, period, blk);
      MoreBlocksNeeded(pegSeq, period, blk, blocks);
      ghost var block := Block(pegSeq, period, blk);
      BlockBounds(pegSeq, period, blk, blocks);
      var hits;
      ghost var k;
      hits, total, n, k := ScanBlock(pegs, pegCount, period, n, total, count, blk);
      WalkStep(pegSeq, period, blk, blocks, k);
      seen := seen + block[..k];
      LastJoin(printed, hits);
      printed := printed + hits;
      if total == count {
        stopped := true;
      }
      NextBlockStart(blk, period);
      n := n + period;
      blk := blk + 1;
    }
    if count > found {
      AcceptedPrefix(seen, whole);
    }
    if !stopped {
      assert blk == 0 && seen == [];
      assert n == 0;
    }
    end := n;
  }

  lemma NextBlockStart(blk: nat, period: nat)
    ensures (blk + 1) * period == blk * period + period
  {
  }

  lemma LastJoin(a: seq<nat>, b: seq<nat>)
    ensures b != [] ==> Last(a + b) == Last(b)
  {
  }

  /** While fewer than needed are found, the blocks walked so far are not all. */
  lemma MoreBlocksNeeded(pegs: seq<nat>, period: nat, blk: nat, blocks: nat)
    requires |Accepted(Walk(pegs, period, blk))| < |Accepted(Walk(pegs, period, blocks))|
    ensures blk < blocks
  {
    if blk >= blocks {
      WalkPrefix(pegs, period, blocks, blk);
      AcceptedPrefix(Walk(pegs, period, blocks), Walk(pegs, period, blk));
    }
  }

  /** Walking k pegs of block blk extends the walk so far within the whole walk. */
  lemma WalkStep(pegs: seq<nat>, period: nat, blk: nat, blocks: nat, k: nat)
    requires blk < blocks && k <= |pegs|
    ensures var seen := Walk(pegs, period, blk); var part := Block(pegs, period, blk)[..k];
      && seen + part <= Walk(pegs, period, blocks)
      && Accepted(seen + part) == Accepted(seen) + Accepted(part)
      && (k == |pegs| ==> seen + part == Walk(pegs, period, blk + 1))
  {
    var seen, block := Walk(pegs, period, blk), Block(pegs, period, blk);
    WalkPrefix(pegs, period, blk + 1, blocks);
    assert Walk(pegs, period, blk + 1) == seen + block;
    assert seen + block[..k] == (seen + block)[..|seen| + k];
    AcceptedAppend(seen, block[..k]);
    if k == |pegs| {
      assert block[..k] == block;
    }
  }

  /** Every candidate of a block before the last fits in a `long`. */
  lemma BlockBounds(pegs: seq<nat>, period: nat, blk: nat, blocks: nat)
    requires blk < blocks && (blocks + 1) * period <= LongMax
    requires forall i :: 0 <= i < |pegs| ==> pegs[i] < period
    ensures blk * period + period <= LongMax
    ensures forall i :: 0 <= i < |pegs| ==> blk * period + pegs[i] < U64
  {
    MulMono(blk + 1, blocks + 1, period);
  }

  lemma BasesProduct()
    ensures Product(Bases[..5]) == 2310
  {
    assert Bases[..5] == [2, 3, 5, 7, 11];
    assert Product([11]) == 11;
    assert Product([7, 11]) == 77;
    assert Product([5, 7, 11]) == 385;
    assert Product([3, 5, 7, 11]) == 1155;
  }

  /** The set-up of `main`: the wheel's period `prod(bases, 5)` and its pegs,
      the residues in [2, 2310) coprime to the five bases. */
  method MakeWheel() returns (pegs: array<nat>, pegCount: nat, baseSize: nat)
    ensures fresh(pegs) && baseSize == 2310 && pegCount <= pegs.Length
    ensures pegs[..pegCount] == Coprime(2, 2310, Bases)
    ensures forall i :: 0 <= i < pegCount ==> pegs[i] < baseSize
  {
    baseSize := Prod(Bases, 5);
    BasesProduct();
    CoprimeLength(2, baseSize, Bases);
    pegs := new nat[baseSize];
    pegCount := BuildPegs(pegs, baseSize, Bases);
    CoprimeBelow(2, baseSize, Bases);
    assert forall i :: 0 <= i < pegCount ==> pegs[i] == pegs[..pegCount][i];
  }

  /** The first loop of `main`: the five bases are printed first. */
  method PrintBases() returns (printed: seq<nat>, found: nat)
    ensures printed == Bases && found == |Bases|
  {
    found := 0;
    printed := [];
    while found < 5
      invariant found <= 5 && printed == Bases[..found]
    {
      PrefixStep(Bases, found);
      printed := printed + [Bases[found]];
      found := found + 1;
    }
  }

  /** `main` from the wheel's construction on: prints the five bases, then
      the candidates of the 2310-wheel that `is_prime` accepts, until
      `count` numbers are printed, and returns the end value it reports. */
  method FindPrimes(count: nat, ghost blocks: nat) returns (printed: seq<nat>, end: nat)
    requires (blocks + 1) * 2310 <= LongMax
    requires count <= 5 + |Accepted(Wheel(blocks))|
    ensures printed == Bases + (if count <= 5 then [] else Accepted(Wheel(blocks))[..count - 5])
    ensures end == if count <= 5 then 0 else Accepted(Wheel(blocks))[count - 6] + 2310
  {
    var pegs, pegCount, baseSize := MakeWheel();
    var found;
    printed, found := PrintBases();
    var walked;
    walked, end := WalkWheel(pegs, pegCount, baseSize, found, count, blocks);
    printed := printed + walked;
    if count > 5 {
      ghost var all := Accepted(Wheel(blocks));
      assert walked == all[..count - 5];
      assert walked[|walked| - 1] == all[count - 6];
    }
  }
}
