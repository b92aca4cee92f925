/** The C++ N-Queens backtracking: a candidate is an array of N files, slot i
    holding the file of the queen on rank i or `UNKNOWN`; `reject`, `accept`,
    `extensions`, the recursive depth-first `first`, and the random start of
    `find_random`. The array `std::array<long, N>` passed by value is a
    sequence whose length is N. */
module NQueens {
  import opened Common

  /** The marker of a rank without a queen yet. */
  const Unknown: int := -1

  /** The index of the first `UNKNOWN` slot, or the length if there is none. */
  function FirstUnknown(c: seq<int>): (k: nat)
    ensures k <= |c|
    ensures forall i :: 0 <= i < k ==> c[i] != Unknown
    ensures k < |c| ==> c[k] == Unknown
  {
    if c == [] || c[0] == Unknown then 0
    else
      var k' := FirstUnknown(c[1..]);
      assert forall i :: 1 <= i <= k' ==> c[i] == c[1..][i - 1];
      1 + k'
  }

  /** The queens on ranks i and j share a file or a diagonal. */
  predicate Attack(c: seq<int>, i: nat, j: nat)
    requires j < i < |c|
  {
    c[i] == c[j] || Abs(c[i] - c[j]) == Abs(i - j)
  }

  /** No two of the first k queens attack each other. */
  predicate Safe(c: seq<int>, k: nat)
    requires k <= |c|
  {
    forall i, j :: 0 <= j < i < k ==> !Attack(c, i, j)
  }

  /** What `reject` decides: two queens of the filled prefix attack each other. */
  predicate Rejected(c: seq<int>)
  {
    !Safe(c, FirstUnknown(c))
  }

  /** What `accept` decides: the last rank holds a queen. */
  predicate Accepted(c: seq<int>)
    requires |c| > 0
  {
    c[|c| - 1] != Unknown
  }

  /** The queens fill a prefix of the ranks and the rest are `UNKNOWN`:
      the shape every candidate the search builds from such a start has. */
  predicate Shaped(c: seq<int>)
  {
    forall i :: FirstUnknown(c) <= i < |c| ==> c[i] == Unknown
  }

  /** A complete board of N queens, no two attacking. */
  predicate Solution(s: seq<int>)
  {
    FirstUnknown(s) == |s| && Safe(s, |s|)
  }

  /** `reject`: checks the ranks in order against all earlier ones and stops
      with false at the first `UNKNOWN` slot. */
  method Reject(c: seq<int>) returns (r: bool)
    ensures r == Rejected(c)
  {
    var idx := 0;
    while idx < |c|
      invariant idx <= |c|
      invariant forall i :: 0 <= i < idx ==> c[i] != Unknown
      invariant forall i, j :: 0 <= j < i < idx ==> !Attack(c, i, j)
    {
      if c[idx] == Unknown {
        return false;
      }
      var comp := 0;
      while comp < idx
        invariant comp <= idx
        invariant forall j :: 0 <= j < comp ==> !Attack(c, idx, j)
      {
        if c[idx] == c[comp] {
          assert Attack(c, idx, comp);
          return true;
        }
        if Abs(c[idx] - c[comp]) == Abs(idx - comp) {
          assert Attack(c, idx, comp);
          return true;
        }
        comp := comp + 1;
      }
      idx := idx + 1;
    }
    return false;
  }

  /** On a candidate of the search's shape, `accept` holds exactly when
      every rank holds a queen. */
  lemma AcceptedMeansFull(c: seq<int>)
    requires |c| > 0 && Shaped(c)
    ensures Accepted(c) <==> FirstUnknown(c) == |c|
  {
  }

  /** `reject` looks only at the filled prefix: a conflict after the first
      `UNKNOWN` slot is not seen. */
  lemma RejectIgnoresTail()
    ensures !Rejected([Unknown, 0, 0])
    ensures Rejected([0, 0, Unknown])
  {
    assert FirstUnknown([Unknown, 0, 0]) == 0;
    assert FirstUnknown([0, 0, Unknown]) == 2;
    assert Attack([0, 0, Unknown], 1, 0);
  }

  /** The extensions of c: one per file v in [0, N), each c with its first
      `UNKNOWN` slot set to v; none when c has no `UNKNOWN` slot. */
  function Extend(c: seq<int>): (exts: seq<seq<int>>)
    ensures FirstUnknown(c) == |c| ==> exts == []
    ensures FirstUnknown(c) < |c| ==> |exts| == |c|
    ensures forall v :: 0 <= v < |exts| ==>
      |exts[v]| == |c| && exts[v][FirstUnknown(c)] == v
      && forall i :: 0 <= i < |c| && i != FirstUnknown(c) ==> exts[v][i] == c[i]
  {
    var k := FirstUnknown(c);
    if k == |c| then [] else seq(|c|, v requires 0 <= v < |c| => c[k := v])
  }

  /** `extensions`: finds the first `UNKNOWN` slot, then copies the
      candidate once per file with that slot set. */
  method Extensions(c: seq<int>) returns (exts: seq<seq<int>>)
    ensures exts == Extend(c)
  {
    exts := [];
    var idx := 0;
    while idx < |c| && c[idx] != Unknown
      invariant idx <= |c|
      invariant forall i :: 0 <= i < idx ==> c[i] != Unknown
    {
      idx := idx + 1;
    }
    if idx == |c| {
      return;
    }
    for value := 0 to |c|
      invariant |exts| == value
      invariant forall v :: 0 <= v < value ==> exts[v] == c[idx := v]
    {
      var extension := c[idx := value];
      exts := exts + [extension];
    }
  }

  /** How many ranks are still without a queen: what each extension lowers. */
  function Open(c: seq<int>): nat
  {
    |c| - FirstUnknown(c)
  }

  lemma ExtendLowersOpen(c: seq<int>, v: nat)
    requires FirstUnknown(c) < |c| && v < |c|
    ensures Open(Extend(c)[v]) < Open(c)
    ensures Shaped(c) ==> Shaped(Extend(c)[v])
  {
    var k, e := FirstUnknown(c), Extend(c)[v];
    assert FirstUnknown(e) > k by {
      assert forall i :: 0 <= i <= k ==> e[i] != Unknown;
    }
  }

  /** The result of `first(solution, c)`: None when c is rejected, c itself
      when it is accepted, else the first result over the extensions in
      the order 0, 1, ..., N - 1. */
  function Search(c: seq<int>): Option<seq<int>>
    requires |c| > 0
    decreases Open(c), |c| + 1
  {
    if Rejected(c) then None
    else if Accepted(c) then Some(c)
    else SearchFrom(c, 0)
  }

  /** The first result of the search over the extensions v, v + 1, ..., N - 1. */
  function SearchFrom(c: seq<int>, v: nat): Option<seq<int>>
    requires |c| > 0
    decreases Open(c), |c| - v
  {
    if FirstUnknown(c) == |c| || v >= |c| then None
    else
      ExtendLowersOpen(c, v);
      match Search(Extend(c)[v])
      case Some(s) => Some(s)
      case None => SearchFrom(c, v + 1)
  }

  /** `first`: writes `solution` only when it finds one. */
  method First(solution: seq<int>, c: seq<int>) returns (found: bool, solution': seq<int>)
    requires |c| > 0
    ensures found <==> Search(c).Some?
    ensures found ==> solution' == Search(c).value
    ensures !found ==> solution' == solution
    decreases Open(c)
  {
    var rejected := Reject(c);
    if rejected {
      return false, solution;
    }
    if c[|c| - 1] != Unknown {
      return true, c;
    }
    var exts := Extensions(c);
    assert Search(c) == SearchFrom(c, 0);
    for v := 0 to |exts|
      invariant Search(c) == SearchFrom(c, v)
    {
      ExtendLowersOpen(c, v);
      found, solution' := First(solution, exts[v]);
      if found {
        assert SearchFrom(c, v) == Search(exts[v]);
        return;
      }
    }
    return false, solution;
  }

  /** What `first` returns is accepted, not rejected, as long as c, and
      keeps c's queens. */
  lemma {:induction false} SearchSound(c: seq<int>)
    requires |c| > 0 && Search(c).Some?
    ensures var s := Search(c).value;
      && |s| == |c| && Accepted(s) && !Rejected(s)
      && forall i :: 0 <= i < FirstUnknown(c) ==> s[i] == c[i]
    decreases Open(c), |c| + 1
  {
    if !Rejected(c) && !Accepted(c) {
      SearchFromSound(c, 0);
    }
  }

  lemma {:induction false} SearchFromSound(c: seq<int>, v: nat)
    requires |c| > 0 && SearchFrom(c, v).Some?
    ensures var s := SearchFrom(c, v).value;
      && |s| == |c| && Accepted(s) && !Rejected(s)
      && forall i :: 0 <= i < FirstUnknown(c) ==> s[i] == c[i]
    decreases Open(c), |c| - v
  {
    var e := Extend(c)[v];
    ExtendLowersOpen(c, v);
    if Search(e).Some? {
      SearchSound(e);
      assert FirstUnknown(e) > FirstUnknown(c) by {
        assert forall i :: 0 <= i <= FirstUnknown(c) ==> e[i] != Unknown;
      }
    } else {
      SearchFromSound(c, v + 1);
    }
  }

  /** s completes c: it keeps c's queens and fills the open ranks with
      files in [0, N). */
  predicate Completes(s: seq<int>, c: seq<int>)
  {
    && |s| == |c|
    && (forall i :: 0 <= i < FirstUnknown(c) ==> s[i] == c[i])
    && (forall i :: FirstUnknown(c) <= i < |s| ==> 0 <= s[i] < |s|)
  }

  /** From a candidate of the search's shape, what `first` finds is a
      complete board of non-attacking queens that completes the candidate. */
  lemma {:induction false} SearchFindsSolution(c: seq<int>)
    requires |c| > 0 && Shaped(c) && Search(c).Some?
    ensures Solution(Search(c).value) && Completes(Search(c).value, c)
    decreases Open(c), |c| + 1
  {
    if !Rejected(c) && !Accepted(c) {
      SearchFromFindsSolution(c, 0);
    }
  }

  lemma {:induction false} SearchFromFindsSolution(c: seq<int>, v: nat)
    requires |c| > 0 && Shaped(c) && SearchFrom(c, v).Some?
    ensures Solution(SearchFrom(c, v).value) && Completes(SearchFrom(c, v).value, c)
    decreases Open(c), |c| - v
  {
    var k := FirstUnknown(c);
    var e := Extend(c)[v];
    ExtendLowersOpen(c, v);
    if Search(e).Some? {
      SearchFindsSolution(e);
      assert FirstUnknown(e) == k + 1 by {
        assert forall i :: 0 <= i <= k ==> e[i] != Unknown;
        if k + 1 < |c| {
          assert e[k + 1] == Unknown;
        }
      }
    } else {
      SearchFromFindsSolution(c, v + 1);
    }
  }

  /** `first` misses nothing: whenever some non-attacking board completes
      a candidate of the search's shape, `first` succeeds. */
  lemma {:induction false} SearchComplete(c: seq<int>, s: seq<int>)
    requires |c| > 0 && Shaped(c) && Completes(s, c) && Solution(s)
    ensures Search(c).Some?
    decreases Open(c), |c| + 1
  {
    var k := FirstUnknown(c);
    assert !Rejected(c) by {
      forall i, j | 0 <= j < i < k
        ensures !Attack(c, i, j)
      {
        assert !Attack(s, i, j);
      }
    }
    if !Accepted(c) {
      SearchFromComplete(c, 0, s);
    }
  }

  lemma {:induction false} SearchFromComplete(c: seq<int>, v: nat, s: seq<int>)
    requires |c| > 0 && Shaped(c) && Completes(s, c) && Solution(s)
    requires FirstUnknown(c) < |c| && v <= s[FirstUnknown(c)]
    ensures SearchFrom(c, v).Some?
    decreases Open(c), |c| - v
  {
    var k := FirstUnknown(c);
    var e := Extend(c)[v];
    ExtendLowersOpen(c, v);
    if Search(e).None? {
      if v == s[k] {
        assert Completes(s, e) by {
          assert FirstUnknown(e) == k + 1 by {
            assert forall i :: 0 <= i <= k ==> e[i] != Unknown;
            if k + 1 < |c| {
              assert e[k + 1] == Unknown;
            }
          }
        }
        SearchComplete(e, s);
      } else {
        SearchFromComplete(c, v + 1, s);
      }
    }
  }

  /** The start of one attempt of `find_random(start_count)` on the 8x8
      board: the first `start_count` ranks get `rand() % 8` from the stream
      at position pos, the others `UNKNOWN`. */
  function StartBoard(startCount: nat, rand: nat -> nat, pos: nat): seq<int>
  {
    seq(8, i requires 0 <= i < 8 => if i < startCount then rand(pos + i) % 8 else Unknown)
  }

  /** The start has queens with files in [0, 8) exactly on its first
      `start_count` ranks, so it has the search's shape. */
  lemma StartShape(startCount: nat, rand: nat -> nat, pos: nat)
    requires startCount <= 8
    ensures var b := StartBoard(startCount, rand, pos);
      && |b| == 8 && FirstUnknown(b) == startCount && Shaped(b)
      && forall i :: 0 <= i < startCount ==> 0 <= b[i] < 8
  {
    var b := StartBoard(startCount, rand, pos);
    assert forall i :: 0 <= i < startCount ==> b[i] == rand(pos + i) % 8;
    assert forall i :: startCount <= i < 8 ==> b[i] == Unknown;
    if startCount < 8 {
      assert b[startCount] == Unknown;
    }
  }

  /** The two loops of `find_random` that fill `start` in place. */
  method FillStart(start: array<int>, startCount: nat, rand: nat -> nat, pos: nat)
    requires start.Length == 8 && startCount <= 8
    modifies start
    ensures start[..] == StartBoard(startCount, rand, pos)
  {
    for idx := 0 to startCount
      invariant forall i :: 0 <= i < idx ==> start[i] == rand(pos + i) % 8
    {
      start[idx] := rand(pos + idx) % 8;
    }
    for idx := startCount to 8
      invariant forall i :: 0 <= i < startCount ==> start[i] == rand(pos + i) % 8
      invariant forall i :: startCount <= i < idx ==> start[i] == Unknown
    {
      start[idx] := Unknown;
    }
  }

  /** One attempt of `find_random` succeeds exactly when some non-attacking
      board keeps the random queens, and then it yields one. */
  lemma AttemptMeaning(startCount: nat, rand: nat -> nat, pos: nat)
    requires startCount <= 8
    ensures var b := StartBoard(startCount, rand, pos);
      && (Search(b).Some? ==> Solution(Search(b).value) && Completes(Search(b).value, b))
      && (Search(b).Some? <==> exists s :: Completes(s, b) && Solution(s))
  {
    var b := StartBoard(startCount, rand, pos);
    StartShape(startCount, rand, pos);
    if Search(b).Some? {
      SearchFindsSolution(b);
    }
    if s :| Completes(s, b) && Solution(s) {
      SearchComplete(b, s);
    }
  }
}
