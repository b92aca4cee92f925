/** The Python N-Queens backtracking: a candidate is a list of placements
    [row, col], one per row in order; `QueenSolver(N)` sets its size once and
    is otherwise a set of pure functions: `reject`, `accept`, `iter`, the
    generators `solve_all` and `solve_first` of `Backtrack`, `rand_root` and
    `rand_solve`. A generator is the sequence of the values it yields. */
module QueensPy {
  import opened Common

  /** One `[row, col]` entry of a candidate. */
  datatype Placement = Placement(row: int, col: int)

  type Candidate = seq<Placement>

  /** Two placements share a row, a column or a diagonal. */
  predicate Attacks(p: Placement, q: Placement)
  {
    p.row == q.row || p.col == q.col || Abs(p.row - q.row) == Abs(p.col - q.col)
  }

  /** No two placements of c attack each other. */
  predicate Safe(c: Candidate)
  {
    forall i, j :: 0 <= j < i < |c| ==> !Attacks(c[i], c[j])
  }

  datatype QueenSolver = QueenSolver(size: nat)
  {
    /** `reject`: false on the empty candidate, else whether the last
        placement attacks an earlier one. */
    predicate Reject(c: Candidate)
    {
      c != [] && exists i :: 0 <= i < |c| - 1 && Attacks(c[i], c[|c| - 1])
    }

    /** `accept`: the candidate has one placement per row. */
    predicate Accept(c: Candidate)
    {
      |c| == size
    }

    /** `iter`: nothing for a full candidate, otherwise one extension per
        column i, each appending `[len(candidate), i]`. */
    function Iter(c: Candidate): (exts: seq<Candidate>)
      ensures |c| >= size ==> exts == []
      ensures |c| < size ==> |exts| == size
      ensures forall i :: 0 <= i < |exts| ==> exts[i] == c + [Placement(|c|, i)]
    {
      if |c| < size then seq(size, i requires 0 <= i < size => c + [Placement(|c|, i)]) else []
    }

    /** The rows still to fill: what each step of `iter` lowers. */
    function Room(c: Candidate): nat
    {
      if |c| < size then size - |c| else 0
    }

    /** What `solve_all(c)` yields, in order. */
    function SolveAll(c: Candidate): seq<Candidate>
      decreases Room(c), size + 1
    {
      if Reject(c) then []
      else (if Accept(c) then [c] else []) + SolveAllFrom(c, 0)
    }

    /** What the loop of `solve_all` yields from extension i on. */
    function SolveAllFrom(c: Candidate, i: nat): seq<Candidate>
      decreases Room(c), size - i
    {
      if |c| >= size || i >= size then []
      else SolveAll(c + [Placement(|c|, i)]) + SolveAllFrom(c, i + 1)
    }

    /** `solve_first(c)`. */
    function SolveFirst(c: Candidate): Option<Candidate>
      decreases Room(c), size + 1
    {
      if Reject(c) then None
      else if Accept(c) then Some(c)
      else SolveFirstFrom(c, 0)
    }

    /** The first non-None result of the loop of `solve_first` from extension i on. */
    function SolveFirstFrom(c: Candidate, i: nat): Option<Candidate>
      decreases Room(c), size - i
    {
      if |c| >= size || i >= size then None
      else
        match SolveFirst(c + [Placement(|c|, i)])
        case Some(s) => Some(s)
        case None => SolveFirstFrom(c, i + 1)
    }

    /** `solve_first` returns the first solution `solve_all` yields, or
        None when it yields none. */
    lemma {:induction false} SolveFirstIsFirst(c: Candidate)
      ensures var all := SolveAll(c);
        SolveFirst(c) == if all == [] then None else Some(all[0])
      decreases Room(c), size + 1
    {
      if !Reject(c) && !Accept(c) {
        SolveFirstFromIsFirst(c, 0);
      }
    }

    lemma {:induction false} SolveFirstFromIsFirst(c: Candidate, i: nat)
      ensures var all := SolveAllFrom(c, i);
        SolveFirstFrom(c, i) == if all == [] then None else Some(all[0])
      decreases Room(c), size - i
    {
      if |c| < size && i < size {
        var e := c + [Placement(|c|, i)];
        SolveFirstIsFirst(e);
        SolveFirstFromIsFirst(c, i + 1);
        if SolveAll(e) != [] {
          assert SolveAllFrom(c, i)[0] == SolveAll(e)[0];
        }
      }
    }

    /** s extends c by placements in the rows |c|, |c| + 1, ... with
        columns in [0, size). */
    predicate Extends(s: Candidate, c: Candidate)
    {
      && |c| <= |s| && s[..|c|] == c
      && forall i :: |c| <= i < |s| ==> s[i].row == i && 0 <= s[i].col < size
    }

    /** Everything `solve_all(c)` yields is accepted, extends c, and no
        candidate on the way from c to it is rejected. */
    lemma {:induction false} SolveAllSound(c: Candidate, s: Candidate)
      requires s in SolveAll(c)
      ensures Accept(s) && Extends(s, c)
      ensures forall j :: |c| <= j <= |s| ==> !Reject(s[..j])
      decreases Room(c), size + 1
    {
      if Accept(c) && s == c {
        assert s[..|c|] == c;
      } else {
        assert s in SolveAllFrom(c, 0);
        SolveAllFromSound(c, 0, s);
        assert s[..|c|] == c;
      }
    }

    lemma {:induction false} SolveAllFromSound(c: Candidate, i: nat, s: Candidate)
      requires s in SolveAllFrom(c, i)
      ensures Accept(s) && Extends(s, c) && |s| > |c|
      ensures forall j :: |c| < j <= |s| ==> !Reject(s[..j])
      decreases Room(c), size - i
    {
      var e := c + [Placement(|c|, i)];
      if s in SolveAll(e) {
        SolveAllSound(e, s);
        assert s[..|c|] == c by {
          assert s[..|c|] == s[..|e|][..|c|];
        }
      } else {
        SolveAllFromSound(c, i + 1, s);
      }
    }

    /** A candidate none of whose prefixes past c is rejected is safe when c is. */
    lemma PathSafe(c: Candidate, s: Candidate)
      requires Safe(c) && |c| <= |s| && s[..|c|] == c
      requires forall j :: |c| <= j <= |s| ==> !Reject(s[..j])
      ensures Safe(s)
    {
      forall i, j | 0 <= j < i < |s|
        ensures !Attacks(s[i], s[j])
      {
        if i < |c| {
          assert s[i] == c[i] && s[j] == c[j];
        } else {
          var p := s[..i + 1];
          assert !Reject(p);
          assert p[j] == s[j] && p[i] == s[i];
        }
      }
    }

    /** From a safe candidate, `solve_all` yields exactly the full safe
        boards that extend it. */
    lemma SolveAllExact(c: Candidate, s: Candidate)
      requires Safe(c) && |c| <= size
      ensures s in SolveAll(c) <==> Accept(s) && Extends(s, c) && Safe(s)
    {
      if s in SolveAll(c) {
        SolveAllSound(c, s);
        PathSafe(c, s);
      }
      if Accept(s) && Extends(s, c) && Safe(s) {
        SolveAllComplete(c, s);
      }
    }

    lemma {:induction false} SolveAllComplete(c: Candidate, s: Candidate)
      requires Accept(s) && Extends(s, c) && Safe(s)
      ensures s in SolveAll(c)
      decreases Room(c), size + 1
    {
      assert !Reject(c) by {
        if c != [] {
          forall j | 0 <= j < |c| - 1
            ensures !Attacks(c[j], c[|c| - 1])
          {
            assert c[j] == s[j] && c[|c| - 1] == s[|c| - 1];
          }
        }
      }
      if |c| == size {
        assert s == s[..|c|];
      } else {
        SolveAllFromComplete(c, 0, s);
      }
    }

    lemma {:induction false} SolveAllFromComplete(c: Candidate, i: nat, s: Candidate)
      requires Accept(s) && Extends(s, c) && Safe(s) && |c| < size
      requires i <= s[|c|].col
      ensures s in SolveAllFrom(c, i)
      decreases Room(c), size - i
    {
      var e := c + [Placement(|c|, i)];
      if i == s[|c|].col {
        assert Extends(s, e) by {
          assert s[..|e|] == s[..|c|] + [s[|c|]];
        }
        SolveAllComplete(e, s);
      } else {
        SolveAllFromComplete(c, i + 1, s);
      }
    }

    /** `rand_root(k)`: min(k, size) placements on the rows 0, 1, ..., with
        the columns `randrange(size)` returned. */
    function RandRoot(k: nat, cols: seq<int>): (root: Candidate)
      requires |cols| == Min(k, size)
      requires forall i :: 0 <= i < |cols| ==> 0 <= cols[i] < size
      ensures |root| == Min(k, size)
      ensures Extends(root, [])
      ensures forall i :: 0 <= i < |root| ==> root[i].col == cols[i]
    {
      seq(Min(k, size), i requires 0 <= i < Min(k, size) => Placement(i, cols[i]))
    }

    /** `rand_solve(k)`: None when two random placements attack each other,
        otherwise `solve_first` of the random root. */
    function RandSolve(k: nat, cols: seq<int>): Option<Candidate>
      requires |cols| == Min(k, size)
      requires forall i :: 0 <= i < |cols| ==> 0 <= cols[i] < size
    {
      var root := RandRoot(k, cols);
      if exists i, j :: 0 <= j < i < |root| && Attacks(root[i], root[j]) then None
      else SolveFirst(root)
    }

    /** What `rand_solve` returns is a full safe board keeping the random
        placements; it returns one whenever the random placements are
        safe and some full safe board keeps them. */
    lemma RandSolveMeaning(k: nat, cols: seq<int>)
      requires |cols| == Min(k, size)
      requires forall i :: 0 <= i < |cols| ==> 0 <= cols[i] < size
      ensures var root := RandRoot(k, cols);
        && (!Safe(root) ==> RandSolve(k, cols) == None)
        && (RandSolve(k, cols).Some? ==> var s := RandSolve(k, cols).value;
              Accept(s) && Safe(s) && Extends(s, root))
        && (Safe(root) && (exists s :: Accept(s) && Extends(s, root) && Safe(s)) ==> RandSolve(k, cols).Some?)
    {
      var root := RandRoot(k, cols);
      if Safe(root) {
        SolveFirstIsFirst(root);
        var all := SolveAll(root);
        if all != [] {
          assert all[0] in all;
          SolveAllExact(root, all[0]);
        }
        if s :| Accept(s) && Extends(s, root) && Safe(s) {
          SolveAllExact(root, s);
        }
      }
    }
  }
}
