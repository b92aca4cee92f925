/** The clock-controlled Galois LFSR generator: `ascii2hex` and
    `hex_strtoulll` read the 128-bit parameters from hexadecimal text,
    `glfsr` steps one register, and `prng` lets a control register choose
    which of two data registers produces the next 128-bit codeword. All
    registers are `uint128_t`, modelled as `bv128`. */
module Spring {

  /** `ascii2hex`: the value of a hexadecimal digit of either case; every
      other character reads as 0xf. */
  function Ascii2Hex(s: char): (r: bv8)
    ensures r <= 15
    ensures !IsHexDigit(s) ==> r == 0xf
  {
    if '0' <= s <= '9' then (s as int - 48) as bv8
    else if 'A' <= s <= 'F' then (s as int - 55) as bv8
    else if 'a' <= s <= 'f' then (s as int - 87) as bv8
    else 0xf
  }

  predicate IsHexDigit(s: char)
  {
    '0' <= s <= '9' || 'A' <= s <= 'F' || 'a' <= s <= 'f'
  }

  /** The lower-case digit written for a value below 16. */
  function LowerDigit(v: bv8): (s: char)
    requires v < 16
    ensures IsHexDigit(s)
  {
    if v < 10 then (48 + v as int) as char else (87 + v as int) as char
  }

  /** The upper-case digit written for a value below 16. */
  function UpperDigit(v: bv8): (s: char)
    requires v < 16
    ensures IsHexDigit(s)
  {
    if v < 10 then (48 + v as int) as char else (55 + v as int) as char
  }

  /** `ascii2hex` reads back every digit either case writes. */
  lemma DigitRoundTrip(v: bv8)
    requires v < 16
    ensures Ascii2Hex(LowerDigit(v)) == v
    ensures Ascii2Hex(UpperDigit(v)) == v
  {
    SmallCount(v as int);
    SameValue((v as int) as bv8, v);
  }

  /** Every hexadecimal digit is the digit written for its value. */
  lemma DigitsAreWritten(s: char)
    requires IsHexDigit(s)
    ensures s == LowerDigit(Ascii2Hex(s)) || s == UpperDigit(Ascii2Hex(s))
  {
    if '0' <= s <= '9' {
      SmallCount(s as int - 48);
    } else if 'A' <= s <= 'F' {
      SmallCount(s as int - 55);
    } else {
      SmallCount(s as int - 87);
    }
  }

  /** The digit values of s, one per character, each below 16. */
  function Digits(s: seq<char>): (ds: seq<bv8>)
    ensures |ds| == |s|
    ensures forall i :: 0 <= i < |s| ==> ds[i] == Ascii2Hex(s[i]) && ds[i] <= 15
  {
    seq(|s|, i requires 0 <= i < |s| => Ascii2Hex(s[i]))
  }

  function Pow16(k: nat): (p: nat)
    ensures p > 0
  {
    if k == 0 then 1 else 16 * Pow16(k - 1)
  }

  /** The big-endian value of the digits ds[0..last], last included: the
      sum of ds[i] * 16^(last - i). */
  function HexNat(ds: seq<bv8>, last: int): nat
    requires -1 <= last < |ds|
    decreases last + 1
  {
    if last < 0 then 0 else HexNat(ds, last - 1) * 16 + ds[last] as nat
  }

  /** `a | b`, named so that the recursive definitions below unfold to
      terms the solver can compare as they are. */
  function Or(a: bv128, b: bv128): bv128
  {
    a | b
  }

  /** `a << 4`: one hexadecimal place up. */
  function Shl4(a: bv128): bv128
  {
    a << 4
  }

  /** One more digit below an accumulator: shift it up a place and OR d in. */
  function Append(h: bv128, d: bv128): bv128
  {
    (h << 4) | d
  }

  lemma OrDef(a: bv128, b: bv128, y: bv128)
    requires y == Or(a, b)
    ensures y == a | b
  {
  }

  lemma ShlDef(a: bv128, y: bv128)
    requires y == Shl4(a)
    ensures y == a << 4
  {
  }

  lemma AppendDef(h: bv128, d: bv128, y: bv128)
    requires y == Append(h, d)
    ensures y == (h << 4) | d
  {
  }

  /** Digit d moved up m hexadecimal places, one place at a time. */
  function Put(d: bv128, m: nat): bv128
  {
    if m == 0 then d else Shl4(Put(d, m - 1))
  }

  /** The digits ds[i..last] ORed into place, digit j moved up last - j
      places: what the loop of `hex_strtoulll` has built once it has gone
      down to i. */
  function Placed(ds: seq<bv8>, i: int, last: int): bv128
    requires 0 <= i && last < |ds|
    decreases last + 1 - i
  {
    if i > last then 0
    else Or(Put(ds[i] as bv128, last - i), Placed(ds, i + 1, last))
  }

  /** The same digits read left to right: shift the accumulator one place
      and OR in the next digit. */
  function Horner(ds: seq<bv8>, last: int): bv128
    requires -1 <= last < |ds|
    decreases last + 1
  {
    if last < 0 then 0 else Append(Horner(ds, last - 1), ds[last] as bv128)
  }

  /** One more shift by 4 is a shift by one more digit; proved count by
      count, each case with fixed shifts only. */
  lemma ShiftDigit(d: bv128, k: bv8)
    requires d <= 15 && 1 <= k < 32
    ensures (d << ((k - 1) << 2)) << 4 == d << (k << 2)
  {
    if k == 1 {
    } else if k == 2 {
    } else if k == 3 {
    } else if k == 4 {
    } else if k == 5 {
    } else if k == 6 {
    } else if k == 7 {
    } else if k == 8 {
    } else if k == 9 {
    } else if k == 10 {
    } else if k == 11 {
    } else if k == 12 {
    } else if k == 13 {
    } else if k == 14 {
    } else if k == 15 {
    } else if k == 16 {
    } else if k == 17 {
    } else if k == 18 {
    } else if k == 19 {
    } else if k == 20 {
    } else if k == 21 {
    } else if k == 22 {
    } else if k == 23 {
    } else if k == 24 {
    } else if k == 25 {
    } else if k == 26 {
    } else if k == 27 {
    } else if k == 28 {
    } else if k == 29 {
    } else if k == 30 {
    }
  }

  lemma LessOne(k: bv8)
    requires 1 <= k
    ensures (k - 1) as int == k as int - 1
  {
  }

  lemma NoShift(d: bv128, k: bv8)
    requires k as int == 0
    ensures d << (k << 2) == d
  {
    SameValue(k, 0);
  }

  lemma SmallCount(m: int)
    requires 0 <= m < 16
    ensures (m as bv8) as int == m
  {
  }

  lemma Bump(k: bv8)
    requires k < 127
    ensures (k + 1) as int == k as int + 1
  {
  }

  lemma SameValue(x: bv8, y: bv8)
    requires x as int == y as int
    ensures x == y
  {
  }

  lemma PutStep(d: bv128, m: nat, k: bv8)
    requires d <= 15 && 1 <= k < 32 && m > 0
    requires Put(d, m - 1) == d << ((k - 1) << 2)
    ensures Put(d, m) == d << (k << 2)
  {
    ShlDef(Put(d, m - 1), Put(d, m));
    ShiftDigit(d, k);
  }

  /** Moving a digit up m places is the single shift by m << 2 of
      `hex_strtoulll`, k being m as an 8-bit count. */
  lemma {:induction false} PutIsShift(d: bv128, m: nat, k: bv8)
    requires d <= 15 && m < 32 && k as int == m
    ensures Put(d, m) == d << (k << 2)
  {
    if m == 0 {
      NoShift(d, k);
    } else {
      LessOne(k);
      PutIsShift(d, m - 1, k - 1);
      PutStep(d, m, k);
    }
  }

  /** OR-ing a digit moved up one more place into a shifted accumulator. */
  lemma OrStep(x: bv128, p: bv128, d: bv128)
    ensures Or(Shl4(x), Append(p, d)) == Append(Or(x, p), d)
  {
    var a, b := Shl4(x), Append(p, d);
    var c, e := Or(a, b), Or(x, p);
    var f := Append(e, d);
    ShlDef(x, a);
    AppendDef(p, d, b);
    OrDef(a, b, c);
    OrDef(x, p, e);
    AppendDef(e, d, f);
  }

  /** Reading one more digit on the right moves the placed digits up one
      place and puts the new digit lowest. */
  lemma {:induction false} PlacedStep(ds: seq<bv8>, i: int, last: int)
    requires 0 <= i <= last < |ds|
    ensures Placed(ds, i, last) == Append(Placed(ds, i, last - 1), ds[last] as bv128)
    decreases last - i
  {
    if i < last {
      PlacedStep(ds, i + 1, last);
      OrStep(Put(ds[i] as bv128, last - 1 - i), Placed(ds, i + 1, last - 1), ds[last] as bv128);
    }
  }

  /** ORing the digits into place right to left builds what reading them
      left to right does. */
  lemma {:induction false} PlacedIsHorner(ds: seq<bv8>, last: int)
    requires -1 <= last < |ds|
    ensures Placed(ds, 0, last) == Horner(ds, last)
    decreases last + 1
  {
    if last >= 0 {
      PlacedIsHorner(ds, last - 1);
      PlacedStep(ds, 0, last);
    }
  }

  /** A 4-bit digit below an accumulator shifted up by 4 adds to it. */
  lemma AppendDigit(a: bv128, d: bv4)
    requires a < 0x1000_0000_0000_0000_0000_0000_0000_0000
    ensures ((a << 4) | (d as bv128)) as int == a as int * 16 + d as int
  {
  }

  lemma BelowAsInt(a: bv128)
    requires a as int < 0x1000_0000_0000_0000_0000_0000_0000_0000
    ensures a < 0x1000_0000_0000_0000_0000_0000_0000_0000
  {
  }

  /** A digit value fits in 4 bits and keeps its value there. */
  lemma Narrow(d: bv8)
    requires d <= 15
    ensures (d as bv4) as bv128 == d as bv128 && (d as bv4) as int == d as int
  {
  }

  /** Appending digit d to an accumulator worth v makes it worth
      16 * v + d, as long as the accumulator is below 2^124. */
  lemma HornerDigit(h: bv128, d: bv8, v: nat)
    requires h as int == v && v < 0x1000_0000_0000_0000_0000_0000_0000_0000 && d <= 15
    ensures Append(h, d as bv128) as int == v * 16 + d as int
  {
    var y := Append(h, d as bv128);
    AppendDef(h, d as bv128, y);
    BelowAsInt(h);
    Narrow(d);
    AppendDigit(h, d as bv4);
  }

  /** Reading at most 32 digits left to right computes their value. */
  lemma {:induction false} HornerValue(ds: seq<bv8>, last: int)
    requires -1 <= last < |ds| && last < 32
    requires forall i :: 0 <= i < |ds| ==> ds[i] <= 15
    ensures Horner(ds, last) as int == HexNat(ds, last)
    decreases last + 1
  {
    if last >= 0 {
      var h, d, v := Horner(ds, last - 1), ds[last], HexNat(ds, last - 1);
      HornerValue(ds, last - 1);
      HexNatBelowTop(ds, last - 1);
      HornerDigit(h, d, v);
    }
  }

  /** Digits ds[0..last] are worth less than 16^(last + 1). */
  lemma {:induction false} HexNatBound(ds: seq<bv8>, last: int)
    requires -1 <= last < |ds|
    requires forall i :: 0 <= i < |ds| ==> ds[i] <= 15
    ensures HexNat(ds, last) < Pow16(last + 1)
    decreases last + 1
  {
    if last >= 0 {
      HexNatBound(ds, last - 1);
    }
  }

  /** At most 31 digits are worth less than 2^124. */
  lemma HexNatBelowTop(ds: seq<bv8>, last: int)
    requires -1 <= last < |ds| && last < 31
    requires forall i :: 0 <= i < |ds| ==> ds[i] <= 15
    ensures HexNat(ds, last) < 0x1000_0000_0000_0000_0000_0000_0000_0000
  {
    HexNatBound(ds, last);
    Pow16Mono(last + 1, 31);
    Pow16Top();
  }

  /** 16^31 = 2^124, the largest place a digit can take. */
  lemma Pow16Top()
    ensures Pow16(31) == 0x1000_0000_0000_0000_0000_0000_0000_0000
  {
    assert Pow16(8) == 0x1_0000_0000;
    assert Pow16(16) == 0x1_0000_0000_0000_0000;
    assert Pow16(24) == 0x1_0000_0000_0000_0000_0000_0000;
  }

  lemma {:induction false} Pow16Mono(j: nat, k: nat)
    requires j <= k
    ensures Pow16(j) <= Pow16(k)
    decreases k
  {
    if j < k {
      Pow16Mono(j, k - 1);
    }
  }

  /** OR-ing in the digit at i, moved up last - i places, extends the
      placed digits down to i. */
  lemma PlaceDigit(ds: seq<bv8>, i: int, last: int, r: bv128, p: bv128)
    requires 0 <= i <= last < |ds|
    requires r == Placed(ds, i + 1, last) && p == Put(ds[i] as bv128, last - i)
    ensures r | p == Placed(ds, i, last)
  {
    OrDef(p, r, Placed(ds, i, last));
  }

  /** `hex_strtoulll(nptr, len)`: reads the digits nptr[0..len], len
      included, from the right, ORing each into its place. The result is
      the big-endian hexadecimal value of those digits; len is at most 31
      so that no shift reaches 128 bits, and len == -1 (an empty argument)
      gives 0. */
  method HexStrToU128(nptr: seq<char>, len: int) returns (r: bv128)
    requires -1 <= len < |nptr| && len < 32
    ensures r as int == HexNat(Digits(nptr), len)
  {
    ghost var ds := Digits(nptr);
    r := 0;
    var i := len;
    var count: bv8 := 0;  // len - i, the digit's place
    while i >= 0
      invariant -1 <= i <= len
      invariant count as int == len - i
      invariant r == Placed(ds, i + 1, len)
      decreases i
    {
      var p := Ascii2Hex(nptr[i]) as bv128;
      assert p == ds[i] as bv128;
      PutIsShift(p, len - i, count);
      p := p << (count << 2);
      PlaceDigit(ds, i, len, r, p);
      r := r | p;
      i := i - 1;
      Bump(count);
      count := count + 1;
    }
    PlacedIsHorner(ds, len);
    HornerValue(ds, len);
  }

  /** The state one Galois step leaves: shift right, and XOR in the mask
      when the bit shifted out was set. */
  function Step(mask: bv128, lfsr: bv128): bv128
  {
    if lfsr & 1 == 1 then (lfsr >> 1) ^ mask else lfsr >> 1
  }

  /** The state before a step, from the state after it and the bit it
      returned. */
  function Unstep(mask: bv128, next: bv128, lsb: bv128): bv128
  {
    ((if lsb == 1 then next ^ mask else next) << 1) | lsb
  }

  /** A step loses nothing: the returned bit and the new state give back
      the old state. */
  lemma StepInverse(mask: bv128, lfsr: bv128)
    ensures Unstep(mask, Step(mask, lfsr), lfsr & 1) == lfsr
  {
  }

  /** `glfsr(mask, &params[k])`: returns the low bit of the register and
      steps it in place. */
  method Glfsr(mask: bv128, params: array<bv128>, k: nat) returns (lsb: bv128)
    requires k < params.Length
    modifies params
    ensures lsb == old(params[k]) & 1 && lsb <= 1
    ensures params[k] == Step(mask, old(params[k]))
    ensures forall j :: 0 <= j < params.Length && j != k ==> params[j] == old(params[j])
  {
    var lfsr := params[k];
    lsb := lfsr & 1;
    lfsr := lfsr >> 1;
    if lsb == 1 {
      lfsr := lfsr ^ mask;
    }
    params[k] := lfsr;
  }

  /** The state after n Galois steps. */
  function Run(mask: bv128, lfsr: bv128, n: nat): bv128
  {
    if n == 0 then lfsr else Step(mask, Run(mask, lfsr, n - 1))
  }

  /** The word after n passes of `codeword <<= 1; codeword |= glfsr(..)`:
      the bits the first n steps return, shifted in from the right. */
  function Codeword(mask: bv128, lfsr: bv128, n: nat): bv128
  {
    if n == 0 then 0 else ShiftIn(Codeword(mask, lfsr, n - 1), Run(mask, lfsr, n - 1) & 1)
  }

  /** `codeword <<= 1; codeword |= bit`. */
  function ShiftIn(word: bv128, bit: bv128): bv128
  {
    (word << 1) | bit
  }

  /** Bit k of w. */
  function BitAt(w: bv128, k: bv8): bv128
    requires k < 128
  {
    (w >> k) & 1
  }

  /** For k >= 1, bit k of the word after a shift-in is bit k - 1 of the
      word before; the count range is split in four, each proved count by
      count with fixed shifts only. */
  lemma ShiftInBit(y: bv128, x: bv128, k: bv8)
    requires x <= 1 && 1 <= k < 128
    ensures BitAt(ShiftIn(y, x), k) == BitAt(y, k - 1)
  {
    if k < 32 {
      ShiftInBitIn(y, x, k);
    } else if k < 64 {
      ShiftInBitIn32(y, x, k);
    } else if k < 96 {
      ShiftInBitIn64(y, x, k);
    } else {
      ShiftInBitIn96(y, x, k);
    }
  }

  lemma ShiftInBitIn(y: bv128, x: bv128, k: bv8)
    requires x <= 1 && 1 <= k < 32
    ensures BitAt(ShiftIn(y, x), k) == BitAt(y, k - 1)
  {
    if k == 1 {} else if k == 2 {} else if k == 3 {} else if k == 4 {}
    else if k == 5 {} else if k == 6 {} else if k == 7 {} else if k == 8 {}
    else if k == 9 {} else if k == 10 {} else if k == 11 {} else if k == 12 {}
    else if k == 13 {} else if k == 14 {} else if k == 15 {} else if k == 16 {}
    else if k == 17 {} else if k == 18 {} else if k == 19 {} else if k == 20 {}
    else if k == 21 {} else if k == 22 {} else if k == 23 {} else if k == 24 {}
    else if k == 25 {} else if k == 26 {} else if k == 27 {} else if k == 28 {}
    else if k == 29 {} else if k == 30 {}
  }

  lemma ShiftInBitIn32(y: bv128, x: bv128, k: bv8)
    requires x <= 1 && 32 <= k < 64
    ensures BitAt(ShiftIn(y, x), k) == BitAt(y, k - 1)
  {
    if k == 32 {} else if k == 33 {} else if k == 34 {} else if k == 35 {}
    else if k == 36 {} else if k == 37 {} else if k == 38 {} else if k == 39 {}
    else if k == 40 {} else if k == 41 {} else if k == 42 {} else if k == 43 {}
    else if k == 44 {} else if k == 45 {} else if k == 46 {} else if k == 47 {}
    else if k == 48 {} else if k == 49 {} else if k == 50 {} else if k == 51 {}
    else if k == 52 {} else if k == 53 {} else if k == 54 {} else if k == 55 {}
    else if k == 56 {} else if k == 57 {} else if k == 58 {} else if k == 59 {}
    else if k == 60 {} else if k == 61 {} else if k == 62 {}
  }

  lemma ShiftInBitIn64(y: bv128, x: bv128, k: bv8)
    requires x <= 1 && 64 <= k < 96
    ensures BitAt(ShiftIn(y, x), k) == BitAt(y, k - 1)
  {
    if k == 64 {} else if k == 65 {} else if k == 66 {} else if k == 67 {}
    else if k == 68 {} else if k == 69 {} else if k == 70 {} else if k == 71 {}
    else if k == 72 {} else if k == 73 {} else if k == 74 {} else if k == 75 {}
    else if k == 76 {} else if k == 77 {} else if k == 78 {} else if k == 79 {}
    else if k == 80 {} else if k == 81 {} else if k == 82 {} else if k == 83 {}
    else if k == 84 {} else if k == 85 {} else if k == 86 {} else if k == 87 {}
    else if k == 88 {} else if k == 89 {} else if k == 90 {} else if k == 91 {}
    else if k == 92 {} else if k == 93 {} else if k == 94 {}
  }

  lemma ShiftInBitIn96(y: bv128, x: bv128, k: bv8)
    requires x <= 1 && 96 <= k < 128
    ensures BitAt(ShiftIn(y, x), k) == BitAt(y, k - 1)
  {
    if k == 96 {} else if k == 97 {} else if k == 98 {} else if k == 99 {}
    else if k == 100 {} else if k == 101 {} else if k == 102 {} else if k == 103 {}
    else if k == 104 {} else if k == 105 {} else if k == 106 {} else if k == 107 {}
    else if k == 108 {} else if k == 109 {} else if k == 110 {} else if k == 111 {}
    else if k == 112 {} else if k == 113 {} else if k == 114 {} else if k == 115 {}
    else if k == 116 {} else if k == 117 {} else if k == 118 {} else if k == 119 {}
    else if k == 120 {} else if k == 121 {} else if k == 122 {} else if k == 123 {}
    else if k == 124 {} else if k == 125 {} else if k == 126 {}
  }

  lemma LowBit(y: bv128, x: bv128, k: bv8)
    requires x <= 1 && k == 0
    ensures BitAt(ShiftIn(y, x), k) == x
  {
  }

  lemma OneBit(x: bv128)
    ensures x & 1 <= 1
  {
  }

  /** Bit k = n - 1 - i of the word after n passes is the bit step i
      returned: the first bit shifted in ends up most significant. */
  lemma {:induction false} CodewordBit(mask: bv128, lfsr: bv128, n: nat, i: nat, k: bv8)
    requires n <= 128 && i < n && k as int == n - 1 - i
    ensures BitAt(Codeword(mask, lfsr, n), k) == Run(mask, lfsr, i) & 1
  {
    var x := Run(mask, lfsr, n - 1) & 1;
    OneBit(Run(mask, lfsr, n - 1));
    if i < n - 1 {
      LessOne(k);
      CodewordBit(mask, lfsr, n - 1, i, k - 1);
      ShiftInBit(Codeword(mask, lfsr, n - 1), x, k);
    } else {
      SameValue(k, 0);
      LowBit(Codeword(mask, lfsr, n - 1), x, k);
    }
  }

  /** The index `4|control` of the data register that a control bit
      selects; its mask is at `2|control`, two places lower. */
  function DataIndex(control: bv128): nat
    requires control <= 1
  {
    if control == 1 then 5 else 4
  }

  /** One pass of the loop of `prng`: the codeword shifts left and takes
      in the bit that data register d returns as it steps with its mask at
      d - 2; after pass n + 1 both are where n + 1 passes from the start
      put them. */
  method ClockOnce(params: array<bv128>, d: nat, codeword: bv128, ghost mask: bv128, ghost start: bv128, ghost n: nat)
      returns (next: bv128)
    requires params.Length == 6 && (d == 4 || d == 5)
    requires params[d - 2] == mask
    requires params[d] == Run(mask, start, n)
    requires codeword == Codeword(mask, start, n)
    modifies params
    ensures params[d] == Run(mask, start, n + 1)
    ensures next == Codeword(mask, start, n + 1)
    ensures forall j :: 0 <= j < 6 && j != d ==> params[j] == old(params[j])
  {
    var bit := Glfsr(params[d - 2], params, d);
    next := ShiftIn(codeword, bit);
  }

  /** The loop of `prng`: steps data register d with mask d - 2 = `2|control`
      128 times, shifting each returned bit into the codeword. */
  method ClockData(params: array<bv128>, d: nat) returns (codeword: bv128)
    requires params.Length == 6 && (d == 4 || d == 5)
    modifies params
    ensures params[d] == Run(old(params[d - 2]), old(params[d]), 128)
    ensures forall j :: 0 <= j < 6 && j != d ==> params[j] == old(params[j])
    ensures codeword == Codeword(old(params[d - 2]), old(params[d]), 128)
  {
    codeword := 0;
    var pos := 0;
    while pos < 128
      invariant 0 <= pos <= 128
      invariant forall j :: 0 <= j < 6 && j != d ==> params[j] == old(params[j])
      invariant params[d] == Run(old(params[d - 2]), old(params[d]), pos)
      invariant codeword == Codeword(old(params[d - 2]), old(params[d]), pos)
    {
      codeword := ClockOnce(params, d, codeword, old(params[d - 2]), old(params[d]), pos);
      pos := pos + 1;
    }
  }

  /** `prng(params)`: params[0] and params[1] are the control mask and
      register, params[2] and params[3] the data masks, params[4] and
      params[5] the data registers. One step of the control register picks
      a data register, which is stepped 128 times; its output bits, first
      bit highest, are the codeword. The control register and the chosen
      data register are the only parameters that change. */
  method Prng(params: array<bv128>) returns (codeword: bv128)
    requires params.Length == 6
    modifies params
    ensures params[1] == Step(old(params[0]), old(params[1]))
    ensures params[0] == old(params[0]) && params[2] == old(params[2]) && params[3] == old(params[3])
    ensures var d := DataIndex(old(params[1]) & 1);
      && params[d] == Run(old(params[d - 2]), old(params[d]), 128)
      && params[9 - d] == old(params[9 - d])
      && codeword == Codeword(old(params[d - 2]), old(params[d]), 128)
  {
    var control := Glfsr(params[0], params, 1);
    codeword := ClockData(params, DataIndex(control));
  }

  /** Bit k of the codeword is the bit the chosen data register returned
      at step 127 - k: output bit i sits at bit 127 - i. */
  lemma CodewordBits(mask: bv128, lfsr: bv128, k: bv8)
    requires k < 128
    ensures BitAt(Codeword(mask, lfsr, 128), k) == Run(mask, lfsr, 127 - k as int) & 1
  {
    CodewordBit(mask, lfsr, 128, 127 - k as int, k);
  }
}
