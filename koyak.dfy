/**
 * Koyak's outlier identification over a pairwise anomaly matrix
 * (trackOutlier). A[r, s] = 1 says observations r and s are anomalous
 * with respect to each other. The detector repeatedly flags the
 * observation with the largest row sum over the not-yet-flagged
 * observations and removes its contribution, until every remaining row
 * sum is zero.
 *
 * The method works on the caller's n x m array; the specification
 * functions work on its rows as a value (Rows), so that they do not
 * depend on the heap.
 */
module Koyak {

  /** Why trackOutlier refuses its input (trackOutlier fails an assertion or raises). */
  datatype OutlierError =
    | NotSymmetric  // A differs from its transpose (a non-square A included)
    | NotBinary     // some entry is neither 0 nor 1
    | EmptyMatrix   // n = 0: taking the maximum of an empty row-sum vector raises

  datatype Result<T> = Ok(value: T) | Err(error: OutlierError)

  /** The first assertion of trackOutlier: A equals its transpose. */
  predicate IsSymmetric(A: array2<int>)
    reads A
  {
    A.Length0 == A.Length1 &&
    forall i, j :: 0 <= i < A.Length0 && 0 <= j < A.Length1 ==> A[i, j] == A[j, i]
  }

  /** The second assertion of trackOutlier: every entry is 0 or 1. */
  predicate IsBinary(A: array2<int>)
    reads A
  {
    forall i, j :: 0 <= i < A.Length0 && 0 <= j < A.Length1 ==> A[i, j] == 0 || A[i, j] == 1
  }

  type Matrix = seq<seq<int>>

  ghost function Rows(A: array2<int>): (M: Matrix)
    reads A
    ensures |M| == A.Length0
    ensures forall i :: 0 <= i < |M| ==> |M[i]| == A.Length1
    ensures forall i, j :: 0 <= i < A.Length0 && 0 <= j < A.Length1 ==> M[i][j] == A[i, j]
  {
    seq(A.Length0, i requires 0 <= i < A.Length0 reads A =>
      seq(A.Length1, j requires 0 <= j < A.Length1 reads A => A[i, j]))
  }

  ghost predicate Square(M: Matrix) {
    forall i :: 0 <= i < |M| ==> |M[i]| == |M|
  }

  ghost predicate Symmetric(M: Matrix) {
    Square(M) && forall i, j :: 0 <= i < |M| && 0 <= j < |M| ==> M[i][j] == M[j][i]
  }

  ghost predicate Binary(M: Matrix) {
    forall i, j :: 0 <= i < |M| && 0 <= j < |M[i]| ==> M[i][j] == 0 || M[i][j] == 1
  }

  /** No two unflagged observations are anomalous with respect to each other. */
  ghost predicate AnomalyFree(M: Matrix, o: seq<bool>)
    requires Square(M) && |M| == |o|
  {
    forall j, k :: 0 <= j < |o| && 0 <= k < |o| && !o[j] && !o[k] ==> M[j][k] == 0
  }

  /** Observation i is anomalous with respect to at least one observation. */
  ghost predicate Involved(M: Matrix, i: nat)
    requires Square(M) && i < |M|
  {
    exists k :: 0 <= k < |M| && M[i][k] == 1
  }

  function NoFlags(n: nat): (o: seq<bool>)
    ensures |o| == n && forall i :: 0 <= i < n ==> !o[i]
  {
    seq(n, _ => false)
  }

  /** Number of unflagged observations. */
  function CountFalse(o: seq<bool>): nat
  {
    if |o| == 0 then 0 else CountFalse(o[..|o| - 1]) + (if o[|o| - 1] then 0 else 1)
  }

  /** Flagging one more observation leaves one fewer unflagged. */
  lemma {:induction false} CountFalseFlag(o: seq<bool>, r: nat)
    requires r < |o| && !o[r]
    ensures CountFalse(o[r := true]) == CountFalse(o) - 1
  {
    var m := |o| - 1;
    if r < m {
      assert o[r := true][..m] == o[..m][r := true];
      CountFalseFlag(o[..m], r);
    } else {
      assert o[r := true][..m] == o[..m];
    }
  }

  lemma {:induction false} CountFalseBound(o: seq<bool>)
    ensures CountFalse(o) <= |o|
  {
    if |o| > 0 {
      CountFalseBound(o[..|o| - 1]);
    }
  }

  lemma {:induction false} CountFalseNoFlags(n: nat)
    ensures CountFalse(NoFlags(n)) == n
  {
    if n > 0 {
      assert NoFlags(n)[..n - 1] == NoFlags(n - 1);
      CountFalseNoFlags(n - 1);
    }
  }

  /** Sum of M[j][k] over the unflagged k < m. */
  function RowSum(M: Matrix, flags: seq<bool>, j: nat, m: nat): int
    requires Square(M) && j < |M| && m <= |M| == |flags|
  {
    if m == 0 then 0
    else RowSum(M, flags, j, m - 1) + (if flags[m - 1] then 0 else M[j][m - 1])
  }

  /** The working row sum b[j]: zero once j is flagged, else its sum over unflagged columns. */
  function Load(M: Matrix, flags: seq<bool>, j: nat): int
    requires Square(M) && j < |M| == |flags|
  {
    if flags[j] then 0 else RowSum(M, flags, j, |M|)
  }

  /** The whole vector b for a given flag state. */
  ghost function Loads(M: Matrix, flags: seq<bool>): (b: seq<int>)
    requires Square(M) && |M| == |flags|
    ensures |b| == |flags| && forall j :: 0 <= j < |b| ==> b[j] == Load(M, flags, j)
  {
    seq(|flags|, j requires 0 <= j < |flags| => Load(M, flags, j))
  }

  /** A vector agreeing with Load everywhere is the load vector. */
  lemma LoadsExt(M: Matrix, flags: seq<bool>, b: seq<int>)
    requires Square(M) && |M| == |flags| == |b|
    requires forall k :: 0 <= k < |b| ==> b[k] == Load(M, flags, k)
    ensures b == Loads(M, flags)
  {
  }

  /** Every working row sum stays between 0 and n. */
  lemma LoadsBounds(M: Matrix, flags: seq<bool>)
    requires Square(M) && Binary(M) && |M| == |flags|
    ensures forall k :: 0 <= k < |M| ==> 0 <= Loads(M, flags)[k] <= |M|
  {
    forall k | 0 <= k < |M| ensures 0 <= Loads(M, flags)[k] <= |M| {
      RowSumBounds(M, flags, k, |M|);
    }
  }

  /** np.argmax: the first index holding the maximum. */
  function FirstMax(s: seq<int>): (r: nat)
    requires |s| > 0
    ensures r < |s|
    ensures forall k :: 0 <= k < |s| ==> s[k] <= s[r]
    ensures forall k :: 0 <= k < r ==> s[k] < s[r]
  {
    if |s| == 1 then 0
    else
      var r := FirstMax(s[..|s| - 1]);
      if s[|s| - 1] > s[r] then |s| - 1 else r
  }

  /**
   * The detector as a recursive reference definition: from a flag state,
   * flag the first maximal row while some row sum is positive. A flagged
   * row has load 0, so the chosen row is always a new one.
   */
  ghost function Greedy(M: Matrix, flags: seq<bool>): (o: seq<bool>)
    requires Square(M) && 0 < |M| == |flags|
    ensures |o| == |flags|
    ensures forall i :: 0 <= i < |flags| && flags[i] ==> o[i]
    decreases CountFalse(flags)
  {
    var b := Loads(M, flags);
    var r := FirstMax(b);
    if b[r] <= 0 then flags
    else
      CountFalseFlag(flags, r);
      Greedy(M, flags[r := true])
  }

  /**
   * The row np.argmax picks while some row sum is positive has not been
   * flagged yet: flagged rows have b = 0.
   */
  lemma ChosenUnflagged(M: Matrix, flags: seq<bool>)
    requires Square(M) && 0 < |M| == |flags|
    requires Loads(M, flags)[FirstMax(Loads(M, flags))] > 0
    ensures !flags[FirstMax(Loads(M, flags))]
  {
  }

  /** Flagging r removes exactly M[j][r] from row j's sum. */
  lemma {:induction false} RowSumFlag(M: Matrix, flags: seq<bool>, j: nat, r: nat, m: nat)
    requires Square(M) && j < |M| && m <= |M| == |flags| && r < |flags| && !flags[r]
    ensures RowSum(M, flags[r := true], j, m) == RowSum(M, flags, j, m) - (if r < m then M[j][r] else 0)
  {
    if m > 0 {
      RowSumFlag(M, flags, j, r, m - 1);
    }
  }

  /** The effect on b[j] of flagging r, as the inner loop of trackOutlier applies it. */
  lemma LoadAfterFlag(M: Matrix, prev: seq<bool>, r: nat, j: nat)
    requires Symmetric(M) && |M| == |prev| && r < |prev| && j < |prev| && !prev[r]
    ensures Load(M, prev[r := true], j) ==
      if prev[r := true][j] then 0 else Load(M, prev, j) - M[r][j]
  {
    if !prev[r := true][j] {
      RowSumFlag(M, prev, j, r, |M|);
    }
  }

  lemma {:induction false} RowSumBounds(M: Matrix, flags: seq<bool>, j: nat, m: nat)
    requires Square(M) && Binary(M) && j < |M| && m <= |M| == |flags|
    ensures 0 <= RowSum(M, flags, j, m) <= m
  {
    if m > 0 {
      RowSumBounds(M, flags, j, m - 1);
    }
  }

  /** A non-positive row sum over 0/1 entries means the row is zero on unflagged columns. */
  lemma {:induction false} RowSumZero(M: Matrix, flags: seq<bool>, j: nat, m: nat)
    requires Square(M) && Binary(M) && j < |M| && m <= |M| == |flags|
    requires RowSum(M, flags, j, m) <= 0
    ensures forall k :: 0 <= k < m && !flags[k] ==> M[j][k] == 0
  {
    if m > 0 {
      RowSumBounds(M, flags, j, m - 1);
      RowSumZero(M, flags, j, m - 1);
    }
  }

  /** A positive row sum over 0/1 entries has an anomalous unflagged column. */
  lemma {:induction false} RowSumPositive(M: Matrix, flags: seq<bool>, j: nat, m: nat)
    requires Square(M) && Binary(M) && j < |M| && m <= |M| == |flags|
    requires RowSum(M, flags, j, m) > 0
    ensures exists k :: 0 <= k < m && !flags[k] && M[j][k] == 1
  {
    if m > 0 && RowSum(M, flags, j, m - 1) > 0 {
      RowSumPositive(M, flags, j, m - 1);
    }
  }

  /** On termination the unflagged observations are pairwise non-anomalous. */
  lemma {:induction false} GreedyAnomalyFree(M: Matrix, flags: seq<bool>)
    requires Square(M) && Binary(M) && 0 < |M| == |flags|
    ensures AnomalyFree(M, Greedy(M, flags))
    decreases CountFalse(flags)
  {
    var b := Loads(M, flags);
    var r := FirstMax(b);
    if b[r] <= 0 {
      forall j | 0 <= j < |flags| && !flags[j]
        ensures forall k :: 0 <= k < |flags| && !flags[k] ==> M[j][k] == 0
      {
        assert b[j] <= b[r] && b[j] == Load(M, flags, j);
        RowSumZero(M, flags, j, |M|);
      }
    } else {
      CountFalseFlag(flags, r);
      GreedyAnomalyFree(M, flags[r := true]);
    }
  }

  /** Only observations that take part in some anomaly are ever flagged. */
  lemma {:induction false} GreedyFlagsInvolved(M: Matrix, flags: seq<bool>)
    requires Square(M) && Binary(M) && 0 < |M| == |flags|
    ensures forall i :: 0 <= i < |flags| && Greedy(M, flags)[i] && !flags[i] ==> Involved(M, i)
    decreases CountFalse(flags)
  {
    var b := Loads(M, flags);
    var r := FirstMax(b);
    if b[r] > 0 {
      RowSumPositive(M, flags, r, |M|);
      CountFalseFlag(flags, r);
      GreedyFlagsInvolved(M, flags[r := true]);
    }
  }

  /** An anomaly-free track has no outliers: the loop never runs. */
  lemma AllZeroNoOutliers(M: Matrix)
    requires Square(M) && 0 < |M|
    requires forall i, j :: 0 <= i < |M| && 0 <= j < |M| ==> M[i][j] == 0
    ensures Greedy(M, NoFlags(|M|)) == NoFlags(|M|)
  {
    var n := |M|;
    var o := Greedy(M, NoFlags(n));
    GreedyFlagsInvolved(M, NoFlags(n));
    assert forall i :: 0 <= i < n ==> !o[i];
  }

  /** Observation c is anomalous against every other one, and those only against c. */
  ghost predicate Star(M: Matrix, c: nat) {
    Square(M) && c < |M| &&
    forall i, j :: 0 <= i < |M| && 0 <= j < |M| ==>
      M[i][j] == (if i != j && (i == c || j == c) then 1 else 0)
  }

  lemma {:induction false} StarCenterSum(M: Matrix, c: nat, m: nat)
    requires Star(M, c) && m <= |M|
    ensures RowSum(M, NoFlags(|M|), c, m) == m - (if c < m then 1 else 0)
  {
    if m > 0 {
      StarCenterSum(M, c, m - 1);
    }
  }

  lemma {:induction false} StarLeafSum(M: Matrix, c: nat, flags: seq<bool>, j: nat, m: nat)
    requires Star(M, c) && j < |M| && j != c && m <= |M| == |flags|
    ensures RowSum(M, flags, j, m) == (if c < m && !flags[c] then 1 else 0)
  {
    if m > 0 {
      StarLeafSum(M, c, flags, j, m - 1);
    }
  }

  /** With at least three observations, a star flags exactly its centre. */
  lemma StarFlagsCenter(M: Matrix, c: nat)
    requires Star(M, c) && |M| >= 3
    ensures Greedy(M, NoFlags(|M|)) == NoFlags(|M|)[c := true]
  {
    var n := |M|;
    var f := NoFlags(n);
    var b := Loads(M, f);
    StarCenterSum(M, c, n);
    forall j | 0 <= j < n && j != c ensures b[j] == 1 {
      StarLeafSum(M, c, f, j, n);
    }
    var r := FirstMax(b);
    assert b[c] == n - 1;
    assert r == c;
    var g := f[c := true];
    var b' := Loads(M, g);
    forall j | 0 <= j < n ensures b'[j] == 0 {
      if j != c {
        StarLeafSum(M, c, g, j, n);
      }
    }
    var r' := FirstMax(b');
    assert b'[r'] <= 0;
  }

  /**
   * Ties go to the lower index: the two-observation star flags
   * observation 0 whichever of the two is its centre, so relabelling the
   * observations can change which one is flagged.
   */
  lemma StarOfTwoFlagsFirst(M: Matrix, c: nat)
    requires Star(M, c) && |M| == 2
    ensures Greedy(M, NoFlags(2)) == [true, false]
  {
    var f := NoFlags(2);
    var b := Loads(M, f);
    assert b[0] == 1 && b[1] == 1 by {
      StarCenterSum(M, c, 2);
      StarLeafSum(M, c, f, 1 - c, 2);
    }
    assert FirstMax(b) == 0;
    var g := f[0 := true];
    var b' := Loads(M, g);
    assert b'[1] == 0 by {
      if c == 0 {
        StarLeafSum(M, c, g, 1, 2);
      } else {
        StarCenterSum(M, c, 2);
        RowSumFlag(M, f, 1, 0, 2);
      }
    }
    var r' := FirstMax(b');
    assert b'[r'] <= 0;
    assert g == [true, false];
  }

  /**
   * The inner loop of trackOutlier: once row r is flagged (o = prev with
   * r set), every unflagged row j gives up A[r, j], which brings b from
   * the loads of prev (with b[r] zeroed) to the loads of the new flags.
   */
  method Discount(A: array2<int>, b: array<int>, o: array<bool>, r: nat,
                  ghost M: Matrix, ghost prev: seq<bool>)
    requires Symmetric(M) && |M| == A.Length0 == A.Length1 == b.Length == o.Length == |prev|
    requires forall i, j :: 0 <= i < |M| && 0 <= j < |M| ==> M[i][j] == A[i, j]
    requires r < |prev| && !prev[r] && o[..] == prev[r := true]
    requires b[..] == Loads(M, prev)[r := 0]
    modifies b
    ensures b[..] == Loads(M, prev[r := true])
  {
    ghost var before := b[..];
    ghost var target := Loads(M, prev[r := true]);
    forall k | 0 <= k < |M|
      ensures target[k] == if o[k] then before[k] else before[k] - A[r, k]
    {
      LoadAfterFlag(M, prev, r, k);
      assert o[k] == prev[r := true][k];
    }
    for j := 0 to b.Length
      invariant forall k :: 0 <= k < j ==> b[k] == target[k]
      invariant forall k :: j <= k < b.Length ==> b[k] == before[k]
    {
      if !o[j] {
        b[j] := b[j] - A[r, j];
      }
    }
    assert b[..] == target;
  }

  /** np.sum(A, axis = 1): the row sums with nothing flagged yet, each between 0 and n. */
  method RowTotals(A: array2<int>, ghost M: Matrix) returns (b: array<int>)
    requires Square(M) && Binary(M) && 0 < |M| == A.Length0 == A.Length1
    requires forall i, j :: 0 <= i < |M| && 0 <= j < |M| ==> M[i][j] == A[i, j]
    ensures fresh(b) && b[..] == Loads(M, NoFlags(|M|))
    ensures forall k :: 0 <= k < b.Length ==> 0 <= b[k] <= b.Length
  {
    var n := A.Length0;
    ghost var start := NoFlags(n);
    b := new int[n];
    for i := 0 to n
      invariant forall k :: 0 <= k < i ==> b[k] == RowSum(M, start, k, n)
    {
      var s, k := 0, 0;
      while k < n
        invariant k <= n && s == RowSum(M, start, i, k)
      {
        s, k := s + A[i, k], k + 1;
      }
      b[i] := s;
    }
    LoadsExt(M, start, b[..]);
    forall k | 0 <= k < n ensures 0 <= b[k] <= n {
      RowSumBounds(M, start, k, n);
    }
  }

  /**
   * The while loop of trackOutlier: while the largest row sum is
   * positive, flag its first row r and take r's contribution out of the
   * other unflagged rows. It ends after at most n rounds, in the flag
   * state the reference definition Greedy reaches from the initial one.
   */
  method Eliminate(A: array2<int>, b: array<int>, o: array<bool>, ghost M: Matrix)
    returns (ghost rounds: nat)
    requires Symmetric(M) && Binary(M) && 0 < |M| == A.Length0 == A.Length1 == b.Length == o.Length
    requires forall i, j :: 0 <= i < |M| && 0 <= j < |M| ==> M[i][j] == A[i, j]
    requires b[..] == Loads(M, o[..])
    modifies b, o
    ensures o[..] == Greedy(M, old(o[..]))
    ensures forall k :: 0 <= k < b.Length ==> b[k] == 0
    ensures rounds + CountFalse(o[..]) == CountFalse(old(o[..])) && rounds <= |M|
  {
    var n := b.Length;
    ghost var start := o[..];
    rounds := 0;
    CountFalseBound(start);
    LoadsBounds(M, start);
    var r := FirstMax(b[..]);
    while b[r] > 0
      invariant b[..] == Loads(M, o[..])
      invariant r == FirstMax(b[..])
      invariant Greedy(M, o[..]) == Greedy(M, start)
      invariant forall k :: 0 <= k < n ==> 0 <= b[k] <= n
      invariant rounds + CountFalse(o[..]) == CountFalse(start)
      decreases CountFalse(o[..])
    {
      ghost var prev := o[..];
      ChosenUnflagged(M, prev);
      CountFalseFlag(prev, r);
      assert Greedy(M, prev) == Greedy(M, prev[r := true]);
      o[r] := true;
      b[r] := 0;
      ghost var cur := prev[r := true];
      assert o[..] == cur;
      Discount(A, b, o, r, M, prev);
      LoadsBounds(M, cur);
      rounds := rounds + 1;
      r := FirstMax(b[..]);
    }
  }

  /**
   * trackOutlier. The caller's matrix is only read; b and o are the
   * working row-sum and flag vectors, updated in place.
   */
  method TrackOutlier(A: array2<int>) returns (res: Result<seq<bool>>)
    ensures !IsSymmetric(A) ==> res == Err(NotSymmetric)
    ensures IsSymmetric(A) && !IsBinary(A) ==> res == Err(NotBinary)
    ensures IsSymmetric(A) && IsBinary(A) && A.Length0 == 0 ==> res == Err(EmptyMatrix)
    ensures IsSymmetric(A) && IsBinary(A) && A.Length0 > 0 ==>
      res.Ok? && |res.value| == A.Length0 &&
      res.value == Greedy(Rows(A), NoFlags(A.Length0)) &&
      AnomalyFree(Rows(A), res.value) &&
      forall i :: 0 <= i < A.Length0 && res.value[i] ==> Involved(Rows(A), i)
  {
    if !IsSymmetric(A) {
      return Err(NotSymmetric);
    }
    if !IsBinary(A) {
      return Err(NotBinary);
    }
    var n := A.Length0;
    if n == 0 {
      return Err(EmptyMatrix);
    }
    ghost var M := Rows(A);
    assert Symmetric(M) && Binary(M);
    ghost var start := NoFlags(n);
    var b := RowTotals(A, M);
    var o := new bool[n](_ => false);
    assert o[..] == start;
    ghost var rounds := Eliminate(A, b, o, M);
    GreedyAnomalyFree(M, start);
    GreedyFlagsInvolved(M, start);
    assert o[..] == Greedy(M, start);
    res := Ok(o[..]);
  }
}
