# CS4050 exercises: primality, N-Queens, a clock-controlled LFSR and a word trie

This project models four small cores of a set of algorithms course
exercises and proves what each promises.

- **Primality engine.** `assign_3/prime_gen.cc` enumerates primes with a
  wheel of period 2310 = 2·3·5·7·11 and a fixed-witness Miller–Rabin test
  over 64-bit modular arithmetic. `assign_3/prime_prob.cc` and
  `assign_3/prime_prob.py` compare randomized primality checks against a
  ground truth and count the outcomes in 2×2 confusion matrices.
  - `NumberTheory` (number_theory.dfy) holds `Pow`, divisibility and
    primality, and the arithmetic lemmas the proofs share.
  - `MillerRabinCore` (miller_rabin.dfy) holds the odd decomposition
    n − 1 = d·2^s, one Miller–Rabin round, and the fixed-witness decision
    that both C++ tests make.
  - `PrimeGen` (prime_gen.dfy), `PrimeProb` (prime_prob.dfy) and
    `PrimeProbPy` (prime_prob_py.dfy) model the three source files.
- **N-Queens backtracking.**
  - `NQueens` (n_queens.dfy) models the C++ version. A candidate is an
    array of 8 files with `UNKNOWN` = −1 for an empty rank.
  - `QueensPy` (queens_py.dfy) models the Python version. A candidate is a
    list of `[row, col]` placements, and a generator is the sequence of
    the values it yields.
- **Clock-controlled Galois LFSR.** `Spring` (spring.dfy) models
  `assign_4/spring.c`: `uint128_t` is `bv128`, the six registers are an
  `array<bv128>`, and the hexadecimal parser is a loop over a `bv128`
  accumulator.
- **Word trie.** `WordTrie` (trie.dfy) models `assign_2/trie.js`.
  - A JavaScript object node `{c: [isWord, sub]}` is the datatype `Obj`.
    It carries its keys in insertion order, so that `Object.keys` can be
    modelled.
  - `Trie` builds the trie word by word in a loop.
  - `findWithPrefix` is a recursive method that pushes into a result
    sequence. It is specified by a function `Find` and proved exact: it
    returns precisely the stored words that start with the prefix.
- `Common` (common.dfy) holds the `Option` type and the small helpers
  (`Abs`, `Min`, the index of a boolean) that several models share.

Randomness is an input everywhere:
- the C++ `rand()` is a stream `nat -> nat` plus a position, and each
  test returns how many values it consumed;
- Python's `random.sample` and `randrange` results are sequences passed in;
- the iteration order of a Python set is a sequence `order`.

The code's own behaviour is kept where it surprises:
- `is_prime` in `prime_gen.cc` reports 13 composite. The skip happens only
  for a witness equal to n, and 325 = 25·13 (`PrimeGen.IsPrimeRejects13`).
- The wheel's pegs start at 2, so residue 1 is never examined and the
  prime 2311 is never found (`PrimeGen.ResidueOneSkipped`).
- After the last prime, the `for` increment still adds 2310 to `n`, so the
  reported end is the last prime plus 2310 (`PrimeGen.FindPrimes`).
- `prime_prob.cc` computes in `long`. Its tests therefore require
  (n − 1)² ≤ 2^63 − 1, which is exactly where no product overflows.
- `prime_rand` in `prime_prob.cc` does not filter even numbers. With one
  draw of 3 it reports 8 prime (`PrimeProb.PrimeRandAcceptsEight`).
- The Python `main` passes `p`, not `k = 10**p`, as the witness count of
  `is_prime_miller_rabin` (`PrimeProbPy.TallyRound`).
- The C++ `reject` stops at the first `UNKNOWN` slot, so a clash after a
  gap goes unseen (`NQueens.RejectIgnoresTail`).

## Model

| member | source | states |
|---|---|---|
| MillerRabinCore.Decompose | assign_3/prime_gen.cc:49-54 | for m > 0, gives (d, s) with d odd and m = d·2^s |
| MillerRabinCore.HalveOut | assign_3/prime_gen.cc:49-54 | the halving loop leaves d odd with m = d·2^s, namely the pair `Decompose` gives |
| MillerRabinCore.DecomposeUnique | assign_3/prime_gen.cc:49-54 | any odd d and s with m = d·2^s are the pair the halving finds, so the decomposition is unique |
| MillerRabinCore.LeadingPasses | assign_3/prime_prob.cc:40-58 | the number of leading bases whose round passes: all before it pass, and the one at it (if any) fails |
| PrimeGen.MulMod64 | assign_3/prime_gen.cc:7-20 | when c > 0 and a·b < c·2^64 (no `div` fault), the result is below c and is the remainder of a·b with a 64-bit quotient |
| PrimeGen.PowMod64 | assign_3/prime_gen.cc:22-40 | returns 1 (unreduced) for n = 0, else b^n mod p, and every `mulmod64` call inside meets its no-fault condition |
| PrimeGen.WitnessesSmall | assign_3/prime_gen.cc:57 | every witness is below 2^31, so its square fits in 64 bits |
| PrimeGen.Round | assign_3/prime_gen.cc:60-79 | one witness round (a^d mod n, then up to s − 1 squarings) passes exactly when the Miller–Rabin round passes |
| PrimeGen.IsPrime | assign_3/prime_gen.cc:42-82 | true for 2 and 3, false for even n and n ≤ 1, else true exactly when every witness other than n passes its round |
| PrimeGen.IsPrimeRejects13 | assign_3/prime_gen.cc:56-63 | 13 is prime, yet the 7-witness test rejects it |
| PrimeGen.Prod | assign_3/prime_gen.cc:84-91 | the product of bases[0..count) modulo 2^64 |
| PrimeGen.CoprimeMembers | assign_3/prime_gen.cc:96-105 | the peg list holds exactly the x in [lo, hi) that no base divides |
| PrimeGen.CoprimeAscending | assign_3/prime_gen.cc:96-105 | the peg list is strictly ascending |
| PrimeGen.CoprimeBelow | assign_3/prime_gen.cc:96 | every peg is below pegs_size |
| PrimeGen.CoprimePrefix | assign_3/prime_gen.cc:96-105 | scanning further only appends pegs |
| PrimeGen.CoprimeLength | assign_3/prime_gen.cc:93-108 | at most hi − lo pegs are written |
| PrimeGen.BuildPegs | assign_3/prime_gen.cc:93-108 | writes exactly the coprime residues of [2, pegs_size), ascending, to pegs[0..index), returns their count, and leaves the rest of the array unchanged |
| PrimeGen.Block | assign_3/prime_gen.cc:127-128 | block b tries b·period + peg for each peg, in order |
| PrimeGen.AcceptedAppend | assign_3/prime_gen.cc:126-137 | the accepted candidates of a concatenation are the concatenation of the accepted candidates |
| PrimeGen.AcceptedPrefix | assign_3/prime_gen.cc:126-137 | accepting is monotone in prefixes |
| PrimeGen.WalkPrefix | assign_3/prime_gen.cc:126 | walking more blocks only appends candidates |
| PrimeGen.BlockMembers | assign_3/prime_gen.cc:127-128 | x is in block b exactly when x / period = b and x mod period is a peg |
| PrimeGen.WalkMembers | assign_3/prime_gen.cc:126-128 | x is among the first blocks exactly when its block index is below the count and its residue is a peg |
| PrimeGen.WalkBelow | assign_3/prime_gen.cc:126-128 | every candidate of the first blocks is below blocks·period |
| PrimeGen.WalkAscending | assign_3/prime_gen.cc:126-128 | the candidates come strictly ascending, so primes are printed in increasing order |
| PrimeGen.DividesPeriod | assign_3/prime_gen.cc:118-128 | a base dividing the period divides x exactly when it divides x mod period |
| PrimeGen.WheelCoverage | assign_3/prime_gen.cc:93-108 | the wheel examines exactly the x below blocks·period whose residue is not 1 and that no base divides |
| PrimeGen.Prime2311 | assign_3/prime_gen.cc:96 | 2311 is prime |
| PrimeGen.ResidueOneSkipped | assign_3/prime_gen.cc:96 | the prime 2311 = 2310 + 1 is never a candidate, however many blocks are walked |
| PrimeGen.ScanBlock | assign_3/prime_gen.cc:127-137 | one pass over the pegs prints the accepted candidates of the block in order, and stops with n set to the one that reaches count |
| PrimeGen.WalkWheel | assign_3/prime_gen.cc:126-138 | prints the first count − found accepted wheel candidates in order, and ends at the last one plus the period |
| PrimeGen.MakeWheel | assign_3/prime_gen.cc:117-120 | the period is 2310 and the pegs are the residues of [2, 2310) coprime to 2, 3, 5, 7, 11 |
| PrimeGen.PrintBases | assign_3/prime_gen.cc:122-125 | the five bases are printed first and found becomes 5 |
| PrimeGen.FindPrimes | assign_3/prime_gen.cc:116-138 | prints the bases and then the first count − 5 accepted wheel candidates, and reports the last of them plus 2310 |
| PrimeProb.ProductFits | assign_3/prime_prob.cc:19-20 | a product of a reduced value and a value below the modulus fits in a `long` when (m − 1)² does |
| PrimeProb.ModPow | assign_3/prime_prob.cc:14-24 | reduces the base first and returns base^exp mod modulus, 1 for exp = 0 |
| PrimeProb.Round | assign_3/prime_prob.cc:42-56 | one round passes exactly when the Miller–Rabin round passes |
| PrimeProb.Draw | assign_3/prime_prob.cc:41 | each drawn witness lies in [2, n − 2] |
| PrimeProb.Drawn | assign_3/prime_prob.cc:40-41 | the k witnesses come from k consecutive stream values |
| PrimeProb.MillerRabinRunMeaning | assign_3/prime_prob.cc:26-59 | 2 and 3 true and even or n ≤ 1 false with no draw; otherwise true exactly when all k drawn rounds pass, and on false the last draw used is a failing witness |
| PrimeProb.MillerRabin | assign_3/prime_prob.cc:26-59 | the loop computes that run, including the number of draws consumed |
| PrimeProb.MillerRabinIsWitnessTest | assign_3/prime_prob.cc:40-58 | for n > 3, the decision is the witness test on the drawn witnesses |
| PrimeProb.FirstDivisor | assign_3/prime_prob.cc:68-72 | the position of the first check that divides n, none before it |
| PrimeProb.PrimeRandRunMeaning | assign_3/prime_prob.cc:61-75 | 2 and 3 true and n ≤ 1 false with no draw; otherwise true exactly when none of the k draws divides n |
| PrimeProb.PrimeRand | assign_3/prime_prob.cc:61-75 | the loop computes that run, including the number of draws consumed |
| PrimeProb.PrimeRandSound | assign_3/prime_prob.cc:61-75 | a prime is never rejected; a rejected n is composite |
| PrimeProb.PrimeRandAcceptsEight | assign_3/prime_prob.cc:65-73 | with no even filter, 8 is reported prime on a draw of 3 |
| PrimeProb.IsActuallyPrime | assign_3/prime_prob.cc:77-116 | the witness test with the first twelve primes, skipping a witness equal to n |
| PrimeProb.SmallPrimesArePrime | assign_3/prime_prob.cc:92 | every witness is prime |
| PrimeProb.SkipIsZeroResidue | assign_3/prime_prob.cc:95-97 | for n > 1, skipping a == n is skipping a ≡ 0 (mod n) |
| PrimeProb.GroundTruth | assign_3/prime_prob.cc:157-160 | the ground-truth set holds exactly the n < total that `is_actually_prime` accepts |
| PrimeProb.Outcome | assign_3/prime_prob.cc:141-143 | one prediction per n < m, with the stream position only advancing |
| PrimeProb.OutcomeStep | assign_3/prime_prob.cc:141-143 | the prediction for m is appended after those for smaller n, and its draws follow theirs |
| PrimeProb.TruthStep | assign_3/prime_prob.cc:142 | ground truth for m is appended after that for smaller n |
| PrimeProb.CellsPartition | assign_3/prime_prob.cc:140-145 | the four cells sum to the number of values counted |
| PrimeProb.Stats | assign_3/prime_prob.cc:118-121 | correct + incorrect equals the sum of the four counters |
| PrimeProb.Check | assign_3/prime_prob.cc:143 | calling the checker is the run of the chosen test |
| PrimeProb.CellStep | assign_3/prime_prob.cc:144 | counting one more value adds one to exactly its [truth][prediction] cell |
| PrimeProb.CountTrial | assign_3/prime_prob.cc:140-145 | count[p][q] is the number of n < total with ground truth p and prediction q |
| PrimeProb.Trial | assign_3/prime_prob.cc:138-147 | reports k, correct = [0][0] + [1][1] and incorrect = [1][0] + [0][1] of those counts, summing to total |
| PrimeProbPy.CeilSqrt | assign_3/prime_prob.py:48 | the least c with n ≤ c² |
| PrimeProbPy.AllPairsMeans | assign_3/prime_prob.py:49 | the `all` over `range(6, stop, 6)` holds exactly when every multiple of 6 in range passes |
| PrimeProbPy.IsPrimeTrialDivision | assign_3/prime_prob.py:41-49 | true for 2, 3, 5; false for n ≤ 1 and n mod 6 in {0, 2, 3, 4}; otherwise no 6j − 1 divides n and no 6j + 1 ≠ n does |
| PrimeProbPy.PrimePasses | assign_3/prime_prob.py:49 | a prime above 5 passes every pair test |
| PrimeProbPy.CompositeFails | assign_3/prime_prob.py:48-49 | a composite above 5 that is ±1 mod 6 fails some pair test below the bound |
| PrimeProbPy.IsPrimeExact | assign_3/prime_prob.py:41-49 | `is_prime(n)` holds exactly when n is prime |
| PrimeProbPy.Generate | assign_3/prime_prob.py:52-60 | two disjoint sets whose union is {0..size}; `primes` holds exactly the n accepted by `is_prime` |
| PrimeProbPy.GenerateSplitsPrimes | assign_3/prime_prob.py:52-60 | `primes` holds exactly the primes up to size |
| PrimeProbPy.HalvingsShape | assign_3/prime_prob.py:14-18 | rs starts at n − 1, each entry is half the previous even one, and the last is the odd d of n − 1 = d·2^s |
| PrimeProbPy.HalvingsMembers | assign_3/prime_prob.py:14-18 | every d·2^j with j ≤ s is in rs |
| PrimeProbPy.HalvingList | assign_3/prime_prob.py:14-18 | the loop builds exactly that list and leaves d as its last entry |
| PrimeProbPy.AnyHitsMeans | assign_3/prime_prob.py:22 | the `any` holds exactly when some r in rs gives a^r mod n = n − 1 |
| PrimeProbPy.IsPrimeMillerRabin | assign_3/prime_prob.py:8-25 | 2 and 3 true, n ≤ 1 and even false; otherwise true exactly when every sampled a has a^d ≡ 1 or a^r ≡ n − 1 for some r in rs |
| PrimeProbPy.RoundPassesPy | assign_3/prime_prob.py:20-23 | a base passing the C++ round passes the Python round |
| PrimeProbPy.WitnessTestImpliesPy | assign_3/prime_prob.py:8-25 | whatever the witness test accepts on a sample, the Python test accepts |
| PrimeProbPy.IsPrimeRand | assign_3/prime_prob.py:28-38 | 2 and 3 true, n ≤ 1 and even false; otherwise false exactly when one of the k draws divides n |
| PrimeProbPy.PyRandSound | assign_3/prime_prob.py:28-38 | a prime is never rejected; a rejected n is composite |
| PrimeProbPy.CellCountStep | assign_3/prime_prob.py:99-100 | one more value adds one to exactly its [actual][predicted] cell |
| PrimeProbPy.CellCountPartition | assign_3/prime_prob.py:96-100 | the four cells sum to the number of values |
| PrimeProbPy.Record | assign_3/prime_prob.py:99-100 | incrementing `stats[v in primes][prediction]` keeps the matrix counting the values seen |
| PrimeProbPy.NewStats | assign_3/prime_prob.py:94-95 | a fresh zero matrix counts no values |
| PrimeProbPy.TestValue | assign_3/prime_prob.py:97-98 | the two predictions are the Python Miller–Rabin test on the p sampled witnesses and the random check with k draws, the ones the matrices count |
| PrimeProbPy.TallyRound | assign_3/prime_prob.py:92-100 | visiting each value of `primes` ∪ `composites` once, both matrices count every value in its [actual][predicted] cell, and each matrix's four cells add up to the size of that union |
| PrimeProbPy.Printed | assign_3/prime_prob.py:103-104 | the printed correct and incorrect sums add up to all values counted |
| NQueens.FirstUnknown | assign_3/random_n_queens.cc:178-181 | the first `UNKNOWN` slot, every slot before it filled |
| NQueens.Reject | assign_3/random_n_queens.cc:132-157 | true exactly when two filled slots before the first `UNKNOWN` share a file or a diagonal |
| NQueens.AcceptedMeansFull | assign_3/random_n_queens.cc:165-167 | on a gap-free candidate, the last slot is filled exactly when every slot is |
| NQueens.RejectIgnoresTail | assign_3/random_n_queens.cc:135-139 | a clash after the first `UNKNOWN` is not seen; one before it is |
| NQueens.Extend | assign_3/random_n_queens.cc:174-195 | nothing when no slot is `UNKNOWN`; otherwise N candidates, the v-th setting the first `UNKNOWN` slot to v and keeping every other slot |
| NQueens.Extensions | assign_3/random_n_queens.cc:174-195 | the loop builds exactly those extensions |
| NQueens.ExtendLowersOpen | assign_3/random_n_queens.cc:187-191 | each extension fills one more slot and keeps a gap-free candidate gap-free |
| NQueens.First | assign_3/random_n_queens.cc:100-117 | returns true exactly when the depth-first search finds a solution, writing it; on false the out-parameter is unchanged |
| NQueens.SearchSound | assign_3/random_n_queens.cc:100-117 | a found solution is accepted, not rejected, and keeps the filled prefix |
| NQueens.SearchFromSound | assign_3/random_n_queens.cc:110-114 | the same for the loop over extensions |
| NQueens.SearchFindsSolution | assign_3/random_n_queens.cc:100-117 | from a gap-free start, a found board is a full safe board completing the start |
| NQueens.SearchFromFindsSolution | assign_3/random_n_queens.cc:110-114 | the same for the loop over extensions |
| NQueens.SearchComplete | assign_3/random_n_queens.cc:100-117 | if some full safe board completes the start, the search finds one |
| NQueens.SearchFromComplete | assign_3/random_n_queens.cc:110-114 | the loop from value v finds one when a completion uses v or more in the next slot |
| NQueens.StartShape | assign_3/random_n_queens.cc:273-278 | the start has start_count random files in [0, 8) and the rest `UNKNOWN` |
| NQueens.FillStart | assign_3/random_n_queens.cc:273-278 | the two loops fill the array with that start |
| NQueens.AttemptMeaning | assign_3/random_n_queens.cc:279 | one attempt succeeds exactly when some full safe board completes the random start, and then returns one |
| QueensPy.QueenSolver.Iter | assign_3/8_queens_random.py:51-54 | nothing for a full candidate; otherwise size extensions, the i-th appending [len(candidate), i] |
| QueensPy.QueenSolver.SolveFirstIsFirst | assign_3/8_queens_random.py:15-24 | `solve_first` returns the first candidate `solve_all` yields, or None when it yields none |
| QueensPy.QueenSolver.SolveFirstFromIsFirst | assign_3/8_queens_random.py:20-24 | the same for the loop over extensions |
| QueensPy.QueenSolver.SolveAllSound | assign_3/8_queens_random.py:7-13 | every yielded candidate is accepted, extends the start, and nothing on its path was rejected |
| QueensPy.QueenSolver.SolveAllFromSound | assign_3/8_queens_random.py:12-13 | the same for the loop over extensions |
| QueensPy.QueenSolver.PathSafe | assign_3/8_queens_random.py:31-38 | a candidate none of whose prefixes is rejected has no two attacking placements |
| QueensPy.QueenSolver.SolveAllExact | assign_3/8_queens_random.py:7-13 | from a safe start, `solve_all` yields exactly the full safe boards extending it |
| QueensPy.QueenSolver.SolveAllComplete | assign_3/8_queens_random.py:7-13 | every full safe board extending the start is yielded |
| QueensPy.QueenSolver.SolveAllFromComplete | assign_3/8_queens_random.py:12-13 | the same for the loop over extensions |
| QueensPy.QueenSolver.RandRoot | assign_3/8_queens_random.py:56-60 | min(k, size) placements on rows 0, 1, … with the drawn columns in [0, size) |
| QueensPy.QueenSolver.RandSolveMeaning | assign_3/8_queens_random.py:62-72 | None when the root has a conflict; a result is a full safe board keeping the root; one is returned whenever such a board exists |
| Spring.Ascii2Hex | assign_4/spring.c:12-23 | at most 15, and 0xf for every character that is not a hex digit |
| Spring.DigitRoundTrip | assign_4/spring.c:15-21 | every value below 16 is read back from its lower-case and its upper-case digit |
| Spring.DigitsAreWritten | assign_4/spring.c:15-21 | every hex digit is the digit written for its value |
| Spring.Digits | assign_4/spring.c:31 | one digit value per character, each at most 15 |
| Spring.HexNatBound | assign_4/spring.c:25-36 | last + 1 digits give a value below 16^(last + 1) |
| Spring.HexStrToU128 | assign_4/spring.c:25-36 | for len < 32, the result is the big-endian value Σ ascii2hex(s[i])·16^(len − i) of s[0..len] |
| Spring.StepInverse | assign_4/spring.c:38-45 | a step loses nothing: the returned bit and the new state give back the old state |
| Spring.Glfsr | assign_4/spring.c:38-45 | returns the old low bit, sets the register to (old >> 1) XOR (mask if that bit was 1), and changes no other register |
| Spring.CodewordBit | assign_4/spring.c:50-53 | after n shifts, bit k of the codeword is the output bit of step n − 1 − k |
| Spring.ClockOnce | assign_4/spring.c:51-52 | one pass shifts in the next output bit and steps only the chosen data register |
| Spring.ClockData | assign_4/spring.c:50-53 | 128 passes step only the chosen data register, 128 times, and build the codeword from its outputs |
| Spring.Prng | assign_4/spring.c:47-55 | steps the control register once and exactly one data register, the one at 4 + control with the mask at 2 + control, 128 times; the masks and the other data register are unchanged |
| Spring.CodewordBits | assign_4/spring.c:50-53 | bit 127 − i of the codeword is the i-th output bit, most significant first |
| WordTrie.InsertValid | assign_2/trie.js:6-13 | inserting a word keeps the node's keys and entries in agreement |
| WordTrie.InsertReach | assign_2/trie.js:6-13 | after inserting w, the paths are the old ones plus the nonempty prefixes of w |
| WordTrie.InsertWord | assign_2/trie.js:7-11 | after inserting w, the words are the old ones plus w if nonempty; no flag is cleared |
| WordTrie.InsertKeepsKeys | assign_2/trie.js:7-11 | existing keys keep their order and existing children stay |
| WordTrie.Trie | assign_2/trie.js:1-16 | the trie holds exactly the nonempty words given |
| WordTrie.KeysIn | assign_2/trie.js:37 | exactly the characters of ks that are keys of the node, digits or non-digits as asked |
| WordTrie.ObjectKeys | assign_2/trie.js:23 | `Object.keys` lists only keys of the node |
| WordTrie.ObjectKeysComplete | assign_2/trie.js:23 | on a well-formed node, `Object.keys` lists every key |
| WordTrie.WalkLower | assign_2/trie.js:27-31 | walking a prefix whose first character is a key leads strictly down the trie |
| WordTrie.Prefixed | assign_2/trie.js:38-40 | one `prefix + suffix` per suffix, in order |
| WordTrie.FindWithPrefix | assign_2/trie.js:18-44 | returns the words of the recursive enumeration, in its order |
| WordTrie.WalkPrefix | assign_2/trie.js:27-31 | the walk loop reaches the entry the prefix leads to, with the fallback `[false, {}]` |
| WordTrie.PushKeys | assign_2/trie.js:37-41 | the keys loop appends the enumeration below each key in `Object.keys` order |
| WordTrie.PushPrefixed | assign_2/trie.js:38-40 | the inner loop appends `prefix + suffix` for each suffix, in order |
| WordTrie.FindRootMiss | assign_2/trie.js:23-25 | [] when the prefix is nonempty and its first character is not a root key |
| WordTrie.WalkReach | assign_2/trie.js:27-31 | the walk gives the node the prefix reaches, or `[false, {}]` once it falls off |
| WordTrie.FindFallsOff | assign_2/trie.js:27-31 | a prefix that leaves the trie yields [] |
| WordTrie.FindStartsWith | assign_2/trie.js:33-41 | every returned string starts with the prefix |
| WordTrie.FindKeysStartWith | assign_2/trie.js:37-41 | every string the keys loop pushes is longer than the prefix and starts with it |
| WordTrie.FindHasItself | assign_2/trie.js:27-35 | the prefix is returned exactly when it is a stored word |
| WordTrie.FindExact | assign_2/trie.js:18-44 | a string is returned exactly when it is a stored word starting with the prefix |
| WordTrie.FindReached | assign_2/trie.js:27-41 | the same once the prefix has been walked |
| WordTrie.FindBeyond | assign_2/trie.js:37-41 | the keys loop returns exactly the stored words strictly longer than the prefix |
| WordTrie.FindKeysExact | assign_2/trie.js:37-41 | `prefix + q` is pushed exactly when q starts with one of the keys and is a word below the node |
| WordTrie.TrieFind | assign_2/trie.js:1-44 | searching a built trie returns exactly the nonempty given words that start with the prefix |

## Left out

- The `main` functions' argument parsing, printing and timing are not modelled. This covers `strtol`, `chrono`, `timeit` and the stream output, including `spring.c`'s endless output loop. The wheel walk and the counting loops inside the `main` functions are modelled.
- Floating-point metrics are not modelled: accuracy, precision, recall and F1 in both `stats`, and Python's rounded metrics. Only the integer counters and the correct/incorrect sums are.
- Randomness is an input. `rand()` is a stream, and `random.sample`, `randrange` and Python set iteration order are sequences passed in. Their distributions, and any error probability, are not modelled.
- No witness set is proved exact for all n < 2^64. The seven-witness set is in fact not exact (13).
- PrimeGen.MulMod64: the inline `mul`/`div` is modelled by its effect, the remainder of the 128-bit product with a 64-bit quotient, not instruction by instruction.
- PrimeProbPy.CeilSqrt: `int(ceil(sqrt(n)))` is modelled as the exact integer ceiling of the square root. Double rounding for very large n is not modelled.
- PrimeGen.WalkWheel: the loop searches without bound. The model takes a ghost number of blocks known to hold enough accepted candidates, and requires it to stay within `long`.
- PrimeGen.FindPrimes: a requested count of 5 or fewer reports the initial n = 0, and 64-bit overflow of `n` past 2^63 is excluded by the same ghost bound.
- PrimeProb.ModPow: `long` overflow is not modelled; it requires (n − 1)² to fit in a `long`, where the source's arithmetic is exact.
- PrimeProb.MillerRabin: `long` overflow is not modelled; it requires (n − 1)² to fit in a `long`, where the source's arithmetic is exact.
- PrimeProb.IsActuallyPrime: `long` overflow is not modelled; it requires (n − 1)² to fit in a `long`, where the source's arithmetic is exact.
- PrimeProb.Check: `long` overflow is not modelled; it requires (n − 1)² to fit in a `long`, where the source's arithmetic is exact.
- PrimeProb.GroundTruth: it requires total² to fit in a `long`, so that every n below total meets the same bound.
- PrimeProb.CountTrial: it requires total² to fit in a `long`, so that every n below total meets the same bound.
- PrimeProb.Trial: it requires total² to fit in a `long`, so that every n below total meets the same bound.
- PrimeGen.Prod: returns its result modulo 2^64, as `size_t` multiplication does; PrimeGen.MakeWheel then uses the exact period 2310, which fits.
- Spring.HexStrToU128: it requires len < 32. For longer strings the source shifts by 128 bits or more, which is undefined in C. `strlen(...) - 1` on an empty string is taken as len = −1, giving 0.
- Spring.Ascii2Hex: `char` is taken as a Unicode code point. C's possibly signed `char` only matters for bytes above 127, and those map to 0xf either way.
- NQueens.AttemptMeaning: the retry loop of `find_random` is modelled as one attempt, so its termination, which depends on `rand()`, is not modelled.
- NQueens: `Backtrack::solutions`, the stopwatch and the process wrappers are not modelled.
- QueensPy: `output` and the timing `main` are not modelled. Generators are modelled as the sequences they yield, not as lazy iterators.
- WordTrie.Trie: the source mutates nested objects in place through the alias `curr`. The model replaces the path from the root by a new value (`Insert`). No other reference to the inner objects exists, so this makes no observable difference. The source's mix of `self.data` and the global `data` is taken as one object, and the inner per-character `forEach` is the recursion of `Insert`.
- WordTrie.ObjectKeys: JavaScript lists integer-like keys first, in ascending order. Among one-character keys those are the digits. Strings are sequences of Dafny characters rather than UTF-16 code units.
