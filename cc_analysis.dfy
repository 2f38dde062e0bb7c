/**
 * Cycle detection in label diagrams: the search for the first pair of time
 * steps whose configurations are equal, either directly or after a cyclic
 * shift of the lattice. Both searches only read the diagram.
 */
module CCAnalysis {
  import opened Arith
  import opened Diagrams

  // ---------------------------------------------------------------------------
  // Rolls and agreement counts
  // ---------------------------------------------------------------------------

  /** np.roll(c, r): entry i of the result is c[(i - r) mod |c|]. */
  function Roll(c: seq<int>, r: int): (rolled: seq<int>)
    ensures |rolled| == |c|
  {
    seq(|c|, i requires 0 <= i < |c| => c[(i - r) % |c|])
  }

  /** A roll by 0 is the identity. */
  lemma RollZero(c: seq<int>)
    ensures Roll(c, 0) == c
  {
    forall i | 0 <= i < |c| ensures Roll(c, 0)[i] == c[i] {
      DivModOfSum(0, i, |c|);
    }
  }

  /**
   * A roll by r, 0 <= r <= |c|, moves the last r entries to the front, so
   * positive shifts move entries towards higher indices.
   */
  lemma RollRotates(c: seq<int>, r: int)
    requires 0 <= r <= |c|
    ensures Roll(c, r) == c[|c| - r..] + c[..|c| - r]
  {
    var L := |c|;
    var rhs := c[L - r..] + c[..L - r];
    forall i | 0 <= i < L ensures Roll(c, r)[i] == rhs[i] {
      if i < r {
        DivModOfSum(-1, i - r + L, L);
      } else {
        DivModOfSum(0, i - r, L);
      }
    }
  }

  /** np.sum(a == b): the number of positions where a and b agree. */
  function Agreements(a: seq<int>, b: seq<int>): (n: nat)
    requires |a| == |b|
    ensures n <= |a|
    ensures a == b ==> n == |a|
  {
    if a == [] then 0
    else Agreements(a[..|a| - 1], b[..|b| - 1]) + (if a[|a| - 1] == b[|b| - 1] then 1 else 0)
  }

  /** The agreement count reaches the length exactly when the two configurations are equal. */
  lemma {:induction false} AgreementsFull(a: seq<int>, b: seq<int>)
    requires |a| == |b|
    ensures Agreements(a, b) == |a| <==> a == b
  {
    if a != [] {
      var n := |a| - 1;
      AgreementsFull(a[..n], b[..n]);
      assert a == a[..n] + [a[n]] && b == b[..n] + [b[n]];
      if a == b {
        assert a[..n] == b[..n];
      }
    }
  }

  // ---------------------------------------------------------------------------
  // What the searches look for
  // ---------------------------------------------------------------------------

  /** Column t2 is a later repetition of column t. */
  ghost predicate Repeats(cols: seq<seq<int>>, t: int, t2: int)
  {
    0 <= t < t2 < |cols| && cols[t] == cols[t2]
  }

  /** (t, t2) is the lexicographically smallest repeating pair. */
  ghost predicate IsFirstRepeat(cols: seq<seq<int>>, t: int, t2: int)
  {
    Repeats(cols, t, t2)
    && (forall u, u2 :: u < t ==> !Repeats(cols, u, u2))
    && (forall u2 :: u2 < t2 ==> !Repeats(cols, t, u2))
  }

  /** Column t equals column t2 rolled by r, for a shift r the search tries. */
  ghost predicate ShiftRepeats(cols: seq<seq<int>>, t: int, t2: int, r: int)
  {
    0 <= t < t2 < |cols| && 0 <= r < |cols[t2]| && cols[t] == Roll(cols[t2], r)
  }

  /** (t, t2, r) is the lexicographically smallest shifted repetition. */
  ghost predicate IsFirstShiftRepeat(cols: seq<seq<int>>, t: int, t2: int, r: int)
  {
    ShiftRepeats(cols, t, t2, r)
    && (forall u, u2, q :: u < t ==> !ShiftRepeats(cols, u, u2, q))
    && (forall u2, q :: u2 < t2 ==> !ShiftRepeats(cols, t, u2, q))
    && (forall q :: q < r ==> !ShiftRepeats(cols, t, t2, q))
  }

  /** There is at most one first repetition. */
  lemma FirstRepeatUnique(cols: seq<seq<int>>, t: int, t2: int, u: int, u2: int)
    requires IsFirstRepeat(cols, t, t2) && IsFirstRepeat(cols, u, u2)
    ensures t == u && t2 == u2
  {
  }

  /** There is at most one first shifted repetition. */
  lemma FirstShiftRepeatUnique(cols: seq<seq<int>>, t: int, t2: int, r: int, u: int, u2: int, q: int)
    requires IsFirstShiftRepeat(cols, t, t2, r) && IsFirstShiftRepeat(cols, u, u2, q)
    ensures t == u && t2 == u2 && r == q
  {
  }

  /** On a non-empty lattice a plain repetition is the shifted repetition with r = 0. */
  lemma RepeatIsShiftRepeat(cols: seq<seq<int>>, t: int, t2: int)
    requires Repeats(cols, t, t2) && |cols[t2]| > 0
    ensures ShiftRepeats(cols, t, t2, 0)
  {
    RollZero(cols[t2]);
  }

  /**
   * On a non-empty lattice the shifted search stops no later than the plain
   * one: its first match comes at or before the first plain repetition.
   */
  lemma ShiftSearchNoLater(cols: seq<seq<int>>, t: int, t2: int, u: int, u2: int, r: int)
    requires IsFirstRepeat(cols, t, t2) && |cols[t2]| > 0
    requires IsFirstShiftRepeat(cols, u, u2, r)
    ensures u < t || (u == t && u2 <= t2)
  {
    RepeatIsShiftRepeat(cols, t, t2);
  }

  /** On a non-empty lattice a plain repetition guarantees that the shifted search succeeds. */
  lemma ShiftSearchSucceeds(cols: seq<seq<int>>, t: int, t2: int)
    requires Repeats(cols, t, t2) && |cols[t2]| > 0
    ensures exists u, u2, r :: ShiftRepeats(cols, u, u2, r)
  {
    RepeatIsShiftRepeat(cols, t, t2);
  }

  /**
   * With an empty lattice (and at least two time steps) every pair of columns
   * repeats, while no shift is ever tried, so only the plain search succeeds.
   */
  lemma EmptyLattice(cols: seq<seq<int>>)
    requires |cols| >= 2 && forall t :: 0 <= t < |cols| ==> cols[t] == []
    ensures IsFirstRepeat(cols, 0, 1)
    ensures forall t, t2, r :: !ShiftRepeats(cols, t, t2, r)
  {
    assert cols[0] == cols[1] == [];
  }

  // ---------------------------------------------------------------------------
  // The searches
  // ---------------------------------------------------------------------------

  /**
   * find_cycles: [t, t2, t2 - t] for the first pair of equal columns, or the
   * sentinel [0, 0, 0], which no real match produces since t2 >= 1.
   */
  method FindCycles(d: array2<int>) returns (cycle: seq<int>)
    ensures |cycle| == 3
    ensures cycle == [0, 0, 0] <==> forall t, t2 :: !Repeats(Columns(d), t, t2)
    ensures cycle != [0, 0, 0] ==> IsFirstRepeat(Columns(d), cycle[0], cycle[1]) && cycle[2] == cycle[1] - cycle[0] >= 1
  {
    ghost var cols := Columns(d);
    for t := 0 to d.Length1
      invariant forall u, u2 :: u < t ==> !Repeats(cols, u, u2)
    {
      for t2 := t + 1 to d.Length1
        invariant forall u2 :: u2 < t2 ==> !Repeats(cols, t, u2)
      {
        AgreementsFull(Column(d, t), Column(d, t2));
        if Agreements(Column(d, t), Column(d, t2)) == d.Length0 {
          assert Repeats(cols, t, t2);
          return [t, t2, t2 - t];
        }
      }
    }
    return [0, 0, 0];
  }

  /**
   * find_shift_cycles: [t, t2, t2 - t, r] for the first (t, t2, r) where
   * column t equals column t2 rolled by r, or the sentinel [0, 0, 0, 0].
   */
  method FindShiftCycles(d: array2<int>) returns (cycle: seq<int>)
    ensures |cycle| == 4
    ensures cycle == [0, 0, 0, 0] <==> forall t, t2, r :: !ShiftRepeats(Columns(d), t, t2, r)
    ensures cycle != [0, 0, 0, 0] ==>
      IsFirstShiftRepeat(Columns(d), cycle[0], cycle[1], cycle[3]) && cycle[2] == cycle[1] - cycle[0] >= 1
  {
    ghost var cols := Columns(d);
    for t := 0 to d.Length1
      invariant forall u, u2, q :: u < t ==> !ShiftRepeats(cols, u, u2, q)
    {
      for t2 := t + 1 to d.Length1
        invariant forall u2, q :: u2 < t2 ==> !ShiftRepeats(cols, t, u2, q)
      {
        for r := 0 to d.Length0
          invariant forall q :: q < r ==> !ShiftRepeats(cols, t, t2, q)
        {
          AgreementsFull(Column(d, t), Roll(Column(d, t2), r));
          if Agreements(Column(d, t), Roll(Column(d, t2), r)) == d.Length0 {
            assert ShiftRepeats(cols, t, t2, r);
            return [t, t2, t2 - t, r];
          }
        }
      }
    }
    return [0, 0, 0, 0];
  }

  /** Columns [1, 0] then [0, 1]: the first shifted repetition is (0, 1) with shift 1. */
  lemma ShiftExample(cols: seq<seq<int>>)
    requires cols == [[1, 0], [0, 1]]
    ensures IsFirstShiftRepeat(cols, 0, 1, 1)
    ensures forall t, t2 :: !Repeats(cols, t, t2)
  {
    assert Roll(cols[1], 1) == [1, 0] by {
      assert Roll(cols[1], 1)[0] == cols[1][1];
      assert Roll(cols[1], 1)[1] == cols[1][0];
    }
    assert Roll(cols[1], 0) != cols[0] by {
      assert Roll(cols[1], 0)[0] == cols[1][0];
    }
  }

  /**
   * Both searches on the 2 x 2 diagram whose columns are [1, 0] then [0, 1]:
   * the shifted search finds (0, 1) with shift 1, the plain one finds nothing.
   */
  method ShiftSearchExample() returns (shifted: seq<int>, plain: seq<int>)
    ensures shifted == [0, 1, 1, 1]
    ensures plain == [0, 0, 0]
  {
    var d := new int[2, 2]((i, t) => if i == t then 1 else 0);
    assert Columns(d) == [[1, 0], [0, 1]] by {
      assert Column(d, 0) == [1, 0] && Column(d, 1) == [0, 1];
    }
    ShiftExample(Columns(d));
    shifted := FindShiftCycles(d);
    plain := FindCycles(d);
    if shifted != [0, 0, 0, 0] {
      FirstShiftRepeatUnique(Columns(d), 0, 1, 1, shifted[0], shifted[1], shifted[3]);
    }
  }
}
