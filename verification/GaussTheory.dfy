/**
 What Gaussian elimination keeps, column by column: echelon form so far, and the two tables that bound where
 ones can be. (cryptoms/gaussian.cpp:522-697, 1256-1347)

 Rows are numbered from 0 to |rows| - 1. `free[c]` says that the variable of column `c` is unassigned,
 `last[c]` bounds the rows with a one in column `c`, `first[r]` is the pivot column of row `r`.
 */
module GaussTheory {
  import opened XorRows

  /** A one in the substituted half. */
  predicate One(rows: seq<Row>, r: nat, c: nat) {
    r < |rows| && c < |rows[r].mat.bits| && rows[r].mat.bits[c]
  }

  // ----- the promises -----

  /** Sizes; columns from `cols` on are out of use. */
  ghost predicate Shape(rows: seq<Row>, width: nat, free: seq<bool>, cols: nat, last: seq<nat>, first: seq<nat>) {
    && AllWide(rows, width) && cols <= |free| == |last| <= width && |rows| <= |first|
    && forall c :: cols <= c < |free| ==> !free[c]
  }

  /** Ones only in free columns. */
  ghost predicate Clean(rows: seq<Row>, free: seq<bool>) {
    forall r: nat, c: nat {:trigger One(rows, r, c)} :: One(rows, r, c) ==> c < |free| && free[c]
  }

  /** Rows from `last[c]` on are zero up to and including column `c`, and the row before them left of it. */
  ghost predicate Tight(rows: seq<Row>, last: seq<nat>, c: nat)
    requires c < |last|
  {
    && last[c] >= 1
    && forall r: nat, k: nat {:trigger One(rows, r, k)} ::
      One(rows, r, k) ==> !(r + 1 >= last[c] && k < c) && !(r >= last[c] && k == c)
  }

  ghost predicate Bounded(rows: seq<Row>, last: seq<nat>) {
    forall c {:trigger last[c]} :: 0 <= c < |last| ==> last[c] >= |rows| || Tight(rows, last, c)
  }

  /** The search for a pivot in a free column stays inside the matrix. */
  ghost predicate Inside(rows: seq<Row>, free: seq<bool>, last: seq<nat>)
    requires |free| == |last|
  {
    forall c {:trigger last[c]} {:trigger free[c]} :: 0 <= c < |free| && free[c] ==> last[c] <= |rows|
  }

  /** The first `n` rows have their first ones further and further right. */
  ghost predicate Stairs(rows: seq<Row>, first: seq<nat>, n: nat) {
    && n <= |rows| && n <= |first|
    && (forall r: nat {:trigger first[r]} :: r < n ==> One(rows, r, first[r]))
    && (forall r: nat, c: nat {:trigger One(rows, r, c)} :: r < n && c < first[r] ==> !One(rows, r, c))
    && forall r: nat, q: nat {:trigger first[r], first[q]} :: r < q < n ==> first[r] < first[q]
  }

  /** `last[c]` is one more than the number of pivots left of column `c`. */
  ghost predicate Exact(first: seq<nat>, n: nat, last: seq<nat>, c: nat)
    requires c < |last| && n <= |first|
  {
    && 1 <= last[c] <= n + 1
    && forall r: nat {:trigger first[r]} :: r < n ==> (first[r] < c <==> r + 1 < last[c])
  }

  ghost predicate ZeroLeft(rows: seq<Row>, i: nat, j: nat) {
    forall r: nat, c: nat {:trigger One(rows, r, c)} :: r >= i && c < j ==> !One(rows, r, c)
  }

  /** The rows used up so far stay clear of the bounds ahead. */
  ghost predicate Ahead(rows: seq<Row>, last: seq<nat>, i: nat, j: nat) {
    forall c {:trigger last[c]} :: j <= c < |last| ==> i < last[c] || last[c] >= |rows|
  }

  ghost predicate ExactSoFar(rows: seq<Row>, free: seq<bool>, last: seq<nat>, first: seq<nat>, i: nat, j: nat)
    requires |free| == |last| && i <= |first|
  {
    forall c: nat {:trigger last[c]} {:trigger free[c]} ::
      c < j && c < |free| && free[c] && (i < |rows| || (i > 0 && c <= first[i - 1])) ==> Exact(first, i, last, c)
  }

  /** Rows before `i` are in echelon form, all others are zero left of column `j`. */
  ghost predicate Elim(rows: seq<Row>, width: nat, free: seq<bool>, cols: nat, last: seq<nat>, first: seq<nat>, i: nat,
                       j: nat)
  {
    && Shape(rows, width, free, cols, last, first) && i <= |rows| && j <= |free|
    && Clean(rows, free) && Bounded(rows, last) && Inside(rows, free, last)
    && Stairs(rows, first, i) && (i > 0 ==> first[i - 1] < j)
    && ZeroLeft(rows, i, j) && Ahead(rows, last, i, j) && ExactSoFar(rows, free, last, first, i, j)
  }

  // ----- one column -----

  /**
   Row `p` becomes row `i`, the old row `i` goes to `p`, and rows up to `u` with a one in column `j` get the new row
   `i` added.
   */
  ghost function Eliminated(rows: seq<Row>, i: nat, p: nat, j: nat, u: nat, width: nat): (rows': seq<Row>)
    requires i <= p < |rows| && AllWide(rows, width)
    ensures |rows'| == |rows|
  {
    var s := rows[i := rows[p]][p := rows[i]];
    seq(|rows|, (r: int) requires 0 <= r < |rows| =>
      assert RowWide(rows[p], width)
        && RowWide(s[r], width) by { assert s[r] == rows[r] || s[r] == rows[p] || s[r] == rows[i]; }
      if p < r < u && One(s, r, j) then XorRow(s[r], s[i], width) else s[r])
  }

  lemma EliminatedAt(rows: seq<Row>, i: nat, p: nat, j: nat, u: nat, width: nat, r: nat)
    requires i <= p < |rows| && AllWide(rows, width) && r < |rows|
    ensures RowWide(rows[p], width) && RowWide(rows[r], width)
    ensures var rows' := Eliminated(rows, i, p, j, u, width);
      && (r < i ==> rows'[r] == rows[r])
      && (r == i ==> rows'[r] == rows[p])
      && (i < r < p ==> rows'[r] == rows[r])
      && (i < r == p ==> rows'[r] == rows[i])
      && (r > p ==> rows'[r] == if r < u && One(rows, r, j) then XorRow(rows[r], rows[p], width) else rows[r])
  {
  }

  /** The pivot row and every row it was added to lie clear of each tight bound further right. */
  lemma TouchedRows(rows: seq<Row>, last: seq<nat>, c: nat, r: nat, j: nat)
    requires c < |last| && Tight(rows, last, c) && j < c && One(rows, r, j)
    ensures r + 1 < last[c]
  {
  }

  /** A pivot has been found in row `p`. */
  ghost predicate PivotAt(rows: seq<Row>, i: nat, p: nat, j: nat, end: nat) {
    && i <= p < end <= |rows| && One(rows, p, j)
    && (forall r: nat {:trigger One(rows, r, j)} :: i <= r < p || r >= end ==> !One(rows, r, j))
  }

  /** Where the ones are afterwards. */
  lemma OnesAfter(rows: seq<Row>, i: nat, p: nat, j: nat, end: nat, width: nat, r: nat, c: nat)
    requires AllWide(rows, width) && PivotAt(rows, i, p, j, end) && r < |rows|
    ensures var rows' := Eliminated(rows, i, p, j, end, width);
      && (r < i ==> (One(rows', r, c) <==> One(rows, r, c)))
      && (r == i ==> (One(rows', r, c) <==> One(rows, p, c)))
      && (i < r == p ==> (One(rows', r, c) <==> One(rows, i, c)))
      && (r > i && r != p && !One(rows, r, j) ==> (One(rows', r, c) <==> One(rows, r, c)))
      && (r > p && One(rows, r, j) ==> (One(rows', r, c) <==> (One(rows, r, c) != One(rows, p, c))))
      && (r > i ==> !One(rows', r, j))
  {
    EliminatedAt(rows, i, p, j, end, width, r);
    EliminatedAt(rows, i, p, j, end, width, p);
    hide Eliminated, AllWide;
    assert One(rows, p, j);
    assert i < p ==> !One(rows, i, j);
    assert i < r && r != p && !One(rows, r, j) ==> !One(Eliminated(rows, i, p, j, end, width), r, j);
  }

  lemma WideAfter(rows: seq<Row>, i: nat, p: nat, j: nat, end: nat, width: nat)
    requires AllWide(rows, width) && PivotAt(rows, i, p, j, end)
    ensures AllWide(Eliminated(rows, i, p, j, end, width), width)
  {
    forall r | 0 <= r < |rows|
      ensures RowWide(Eliminated(rows, i, p, j, end, width)[r], width)
    {
      EliminatedAt(rows, i, p, j, end, width, r);
    }
  }

  /** Every one of the new row `r >= i` comes from a row that is at least `i`. */
  lemma ZeroLeftAfter(rows: seq<Row>, i: nat, p: nat, j: nat, end: nat, width: nat)
    requires AllWide(rows, width) && PivotAt(rows, i, p, j, end) && ZeroLeft(rows, i, j)
    ensures ZeroLeft(Eliminated(rows, i, p, j, end, width), i + 1, j + 1)
    ensures ZeroLeft(Eliminated(rows, i, p, j, end, width), i, j)
  {
    hide Eliminated, AllWide;
    var rows' := Eliminated(rows, i, p, j, end, width);
    forall r: nat, c: nat | i <= r < |rows| && c < j
      ensures !One(rows', r, c)
    {
      OnesAfter(rows, i, p, j, end, width, r, c);
      assert !One(rows, r, c) && !One(rows, p, c) && !One(rows, i, c);
    }
    forall r: nat | i < r < |rows|
      ensures !One(rows', r, j)
    {
      OnesAfter(rows, i, p, j, end, width, r, j);
    }
  }

  lemma CleanAfter(rows: seq<Row>, i: nat, p: nat, j: nat, end: nat, width: nat, free: seq<bool>)
    requires AllWide(rows, width) && PivotAt(rows, i, p, j, end) && Clean(rows, free)
    ensures Clean(Eliminated(rows, i, p, j, end, width), free)
  {
    hide Eliminated, AllWide;
    var rows' := Eliminated(rows, i, p, j, end, width);
    forall r: nat, c: nat | One(rows', r, c)
      ensures c < |free| && free[c]
    {
      OnesAfter(rows, i, p, j, end, width, r, c);
      assert One(rows, r, c) || One(rows, p, c) || One(rows, i, c);
    }
  }

  lemma StairsAfter(rows: seq<Row>, i: nat, p: nat, j: nat, end: nat, width: nat, first: seq<nat>)
    requires AllWide(rows, width) && PivotAt(rows, i, p, j, end) && ZeroLeft(rows, i, j)
    requires Stairs(rows, first, i) && i < |first| && (i > 0 ==> first[i - 1] < j)
    ensures Stairs(Eliminated(rows, i, p, j, end, width), first[i := j], i + 1)
  {
    hide Eliminated, AllWide;
    var rows' := Eliminated(rows, i, p, j, end, width);
    var first' := first[i := j];
    forall r: nat, c: nat | r < i + 1 && c < first'[r]
      ensures !One(rows', r, c)
    {
      OnesAfter(rows, i, p, j, end, width, r, c);
      if r == i {
        assert !One(rows, p, c);
      }
    }
    forall r: nat | r < i + 1
      ensures One(rows', r, first'[r])
    {
      OnesAfter(rows, i, p, j, end, width, r, first'[r]);
    }
    forall r: nat, q: nat | r < q < i + 1
      ensures first'[r] < first'[q]
    {
      if q == i && r < i - 1 {
        assert first[r] < first[i - 1];
      }
    }
  }

  /** A bound other than that of the column itself stays tight. */
  lemma TightAfter(rows: seq<Row>, i: nat, p: nat, j: nat, end: nat, width: nat, last: seq<nat>, c: nat)
    requires AllWide(rows, width) && PivotAt(rows, i, p, j, end) && ZeroLeft(rows, i, j)
    requires c < |last| && c != j && Tight(rows, last, c)
    ensures Tight(Eliminated(rows, i, p, j, end, width), last, c)
    ensures c > j ==> p + 1 < last[c]
  {
    hide Eliminated, AllWide;
    var rows' := Eliminated(rows, i, p, j, end, width);
    if c > j {
      TouchedRows(rows, last, c, p, j);
    }
    forall r: nat, k: nat | r < |rows| && ((r + 1 >= last[c] && k < c) || (r >= last[c] && k == c))
      ensures !One(rows', r, k)
    {
      OnesAfter(rows, i, p, j, end, width, r, k);
      if c < j {
        ZeroLeftAfter(rows, i, p, j, end, width);
        assert r >= i ==> !One(rows', r, k);
        assert !One(rows, r, k);
      } else {
        assert r > p;
        if One(rows, r, j) {
          TouchedRows(rows, last, c, r, j);
        }
        assert !One(rows, r, k);
      }
    }
  }

  lemma TightHere(rows: seq<Row>, i: nat, j: nat, last: seq<nat>)
    requires j < |last| && last[j] == i + 1 && ZeroLeft(rows, i, j) && ZeroLeft(rows, i + 1, j + 1)
    ensures Tight(rows, last, j)
  {
  }

  lemma ExactAfter(first: seq<nat>, i: nat, j: nat, last: seq<nat>, c: nat)
    requires i < |first| && c < j < |last| && Exact(first, i, last, c)
    ensures Exact(first[i := j], i + 1, last[j := i + 1], c)
  {
    var first' := first[i := j];
    forall r: nat | r < i + 1
      ensures first'[r] < c <==> r + 1 < last[c]
    {
      assert r < i ==> first'[r] == first[r];
    }
  }

  /** The pivot column itself. */
  lemma ExactPivot(rows: seq<Row>, first: seq<nat>, i: nat, j: nat, last: seq<nat>)
    requires i < |first| && j < |last| && last[j] == i + 1 && first[i] == j && Stairs(rows, first, i + 1)
    ensures Exact(first, i + 1, last, j)
  {
    assert forall r: nat {:trigger first[r]} :: r < i ==> first[r] < first[i];
  }

  /** A free column without a pivot, right of all pivots. */
  lemma ExactNoPivot(rows: seq<Row>, first: seq<nat>, i: nat, j: nat, last: seq<nat>)
    requires i <= |first| && j < |last| && last[j] == i + 1 && Stairs(rows, first, i) && (i > 0 ==> first[i - 1] < j)
    ensures Exact(first, i, last, j)
  {
    forall r: nat | r < i
      ensures first[r] < j
    {
      assert r < i - 1 ==> first[r] < first[i - 1];
    }
  }

  /** One pivot column done. */
  lemma PivotStep(rows: seq<Row>, width: nat, free: seq<bool>, cols: nat, last: seq<nat>, first: seq<nat>, i: nat,
                  p: nat, j: nat)
    requires Elim(rows, width, free, cols, last, first, i, j) && j < cols && free[j] && PivotAt(rows, i, p, j, last[j])
    ensures Elim(Eliminated(rows, i, p, j, last[j], width), width, free, cols, last[j := i + 1], first[i := j], i + 1,
      j + 1)
  {
    hide AllWide, Eliminated, Tight, Exact, Stairs, ZeroLeft, Clean, One;
    var end := last[j];
    var rows' := Eliminated(rows, i, p, j, end, width);
    var last', first' := last[j := i + 1], first[i := j];
    WideAfter(rows, i, p, j, end, width);
    ZeroLeftAfter(rows, i, p, j, end, width);
    CleanAfter(rows, i, p, j, end, width, free);
    StairsAfter(rows, i, p, j, end, width, first);
    TightHere(rows', i, j, last');
    forall c | 0 <= c < |last'|
      ensures last'[c] >= |rows'| || Tight(rows', last', c)
      ensures c > j ==> i + 1 < last'[c] || last'[c] >= |rows'|
    {
      if c != j && last[c] < |rows| {
        TightAfter(rows, i, p, j, end, width, last, c);
        TightSame(rows', last, last', c);
      }
    }
    forall c: nat | c < j + 1 && c < |free| && free[c] && (i + 1 < |rows| || c <= first'[i])
      ensures Exact(first', i + 1, last', c)
    {
      if c == j {
        ExactPivot(rows', first', i, j, last');
      } else {
        ExactAfter(first, i, j, last, c);
      }
    }
  }

  lemma TightSame(rows: seq<Row>, last: seq<nat>, last': seq<nat>, c: nat)
    requires c < |last| && c < |last'| && last[c] == last'[c] && Tight(rows, last, c)
    ensures Tight(rows, last', c)
  {
  }

  /** A free column without a pivot. */
  lemma NoPivotStep(rows: seq<Row>, width: nat, free: seq<bool>, cols: nat, last: seq<nat>, first: seq<nat>, i: nat,
                    j: nat)
    requires Elim(rows, width, free, cols, last, first, i, j) && j < cols && i < |rows|
    requires forall r: nat {:trigger One(rows, r, j)} :: r >= i ==> !One(rows, r, j)
    ensures Elim(rows, width, free, cols, last[j := i + 1], first[i := j], i, j + 1)
  {
    hide AllWide, Tight, Exact, Clean, One;
    var last', first' := last[j := i + 1], first[i := j];
    assert ZeroLeft(rows, i, j + 1);
    assert ZeroLeft(rows, i + 1, j + 1);
    TightHere(rows, i, j, last');
    assert Stairs(rows, first', i);
    forall c | 0 <= c < |last'|
      ensures last'[c] >= |rows| || Tight(rows, last', c)
    {
      if c != j && last[c] < |rows| {
        TightSame(rows, last, last', c);
      }
    }
    ExactNoPivot(rows, first', i, j, last');
    forall c: nat | c < j && free[c]
      ensures Exact(first', i, last', c)
    {
      ExactSame(first, first', i, last, last', c);
    }
  }

  lemma ExactSame(first: seq<nat>, first': seq<nat>, n: nat, last: seq<nat>, last': seq<nat>, c: nat)
    requires c < |last| && n <= |first| && Exact(first, n, last, c)
    requires c < |last'| && last'[c] == last[c] && n <= |first'| && forall r :: 0 <= r < n ==> first'[r] == first[r]
    ensures Exact(first', n, last', c)
  {
  }

  /** A column out of use, or with an assigned variable. */
  lemma SkipStep(rows: seq<Row>, width: nat, free: seq<bool>, cols: nat, last: seq<nat>, first: seq<nat>, i: nat,
                 j: nat)
    requires Elim(rows, width, free, cols, last, first, i, j) && j < |free| && !free[j]
    ensures Elim(rows, width, free, cols, last, first, i, j + 1)
  {
    hide AllWide, Tight, Exact;
  }

  // ----- before and after -----

  /** What holds after a round, once the zero rows have been dropped: every row has its pivot. */
  ghost predicate Reduced(rows: seq<Row>, width: nat, free: seq<bool>, cols: nat, last: seq<nat>, first: seq<nat>) {
    && Shape(rows, width, free, cols, last, first) && Clean(rows, free) && Bounded(rows, last)
    && Stairs(rows, first, |rows|) && ExactToLast(rows, free, last, first)
    && OverOnlyAtEnd(rows, free, last)
  }

  ghost predicate ExactToLast(rows: seq<Row>, free: seq<bool>, last: seq<nat>, first: seq<nat>)
    requires |free| == |last| && |rows| <= |first|
  {
    |rows| > 0 ==>
      forall c: nat {:trigger last[c]} {:trigger free[c]} ::
      c < |free| && free[c] && c <= first[|rows| - 1] ==> Exact(first, |rows|, last, c)
  }

  /** A free column whose bound is too large has only large bounds after it. */
  ghost predicate OverOnlyAtEnd(rows: seq<Row>, free: seq<bool>, last: seq<nat>)
    requires |free| == |last|
  {
    forall c: nat, d: nat {:trigger last[c], last[d]} ::
      c < d < |free| && free[c] && last[c] > |rows| ==> last[d] >= |rows|
  }

  /** A matrix that has not been touched: all bounds are the number of rows. */
  ghost predicate Untouched(rows: seq<Row>, width: nat, free: seq<bool>, cols: nat, last: seq<nat>, first: seq<nat>) {
    && Shape(rows, width, free, cols, last, first) && Clean(rows, free)
    && forall c {:trigger last[c]} :: 0 <= c < |last| ==> last[c] == |rows|
  }

  /** The state in which elimination starts at the first column. */
  ghost predicate FreshStart(rows: seq<Row>, width: nat, free: seq<bool>, cols: nat, last: seq<nat>, first: seq<nat>) {
    && Shape(rows, width, free, cols, last, first) && Clean(rows, free) && Bounded(rows, last)
      && Inside(rows, free, last)
  }

  /** The state in which elimination resumes right of column `l`, the first one that has lost its variable since. */
  ghost predicate Resumable(rows: seq<Row>, width: nat, free: seq<bool>, cols: nat, last: seq<nat>, first: seq<nat>,
                            l: nat)
  {
    && FreshStart(rows, width, free, cols, last, first)
    && |rows| >= 1 && l < |free| && !free[l]
    && StairsUpTo(rows, first, l)
    && forall c: nat {:trigger last[c]} {:trigger free[c]} ::
      c <= l && (free[c] || c == l) && c <= first[|rows| - 1] ==> Exact(first, |rows|, last, c)
  }

  /** The pivots left of column `l` are still there, and nothing has come up left of any. */
  ghost predicate StairsUpTo(rows: seq<Row>, first: seq<nat>, l: nat) {
    && |rows| <= |first|
    && (forall r: nat {:trigger first[r]} :: r < |rows| && first[r] < l ==> One(rows, r, first[r]))
    && (forall r: nat, c: nat {:trigger One(rows, r, c)} :: r < |rows| && c < first[r] ==> !One(rows, r, c))
    && forall r: nat, q: nat {:trigger first[r], first[q]} :: r < q < |rows| ==> first[r] < first[q]
  }

  lemma StartFresh(rows: seq<Row>, width: nat, free: seq<bool>, cols: nat, last: seq<nat>, first: seq<nat>)
    requires FreshStart(rows, width, free, cols, last, first)
    ensures Elim(rows, width, free, cols, last, first, 0, 0)
  {
  }

  /** Where elimination resumes: the rows whose pivots are left of the column. */
  function Until(rowCount: nat, first: seq<nat>, last: seq<nat>, l: nat): int
    requires 1 <= rowCount <= |first| && l < |last|
  {
    if l > first[rowCount - 1] then rowCount else if last[l] - 1 < rowCount then last[l] - 1 else rowCount
  }

  lemma UntilPivots(rows: seq<Row>, width: nat, free: seq<bool>, cols: nat, last: seq<nat>, first: seq<nat>, l: nat)
    requires Resumable(rows, width, free, cols, last, first, l)
    ensures 0 <= Until(|rows|, first, last, l) <= |rows|
    ensures forall r: nat {:trigger first[r]} :: r < |rows| ==> (first[r] < l <==> r < Until(|rows|, first, last, l))
  {
    hide AllWide, Tight, Clean, One;
    var n := |rows|;
    if l > first[n - 1] {
      forall r: nat | r < n
        ensures first[r] < l
      {
        assert r < n - 1 ==> first[r] < first[n - 1];
      }
    } else {
      assert Exact(first, n, last, l);
      assert first[n - 1] < l <==> n < last[l];
    }
  }

  lemma StartResumed(rows: seq<Row>, width: nat, free: seq<bool>, cols: nat, last: seq<nat>, first: seq<nat>, l: nat)
    requires Resumable(rows, width, free, cols, last, first, l)
    ensures 0 <= Until(|rows|, first, last, l) <= |rows|
    ensures Elim(rows, width, free, cols, last, first, Until(|rows|, first, last, l), l + 1)
  {
    hide AllWide, Until;
    UntilPivots(rows, width, free, cols, last, first, l);
    var n: nat := |rows|;
    var i: nat := Until(n, first, last, l);
    assert Stairs(rows, first, i);
    assert ZeroLeft(rows, i, l + 1) by {
      forall r: nat, c: nat | i <= r < n && c < l + 1
        ensures !One(rows, r, c)
      {
        assert !(first[r] < l);
      }
    }
    assert Ahead(rows, last, i, l + 1) by {
      ResumedAhead(rows, last, first, i, l);
    }
    hide Bounded, Tight;
    forall c: nat | c < l + 1 && c < |free| && free[c] && (i < n || (i > 0 && c <= first[i - 1]))
      ensures Exact(first, i, last, c)
    {
      ResumedExact(rows, last, first, i, l, c);
    }
  }

  lemma ResumedAhead(rows: seq<Row>, last: seq<nat>, first: seq<nat>, i: nat, l: nat)
    requires Bounded(rows, last) && i <= |rows| <= |first|
      && (i > 0 ==> first[i - 1] < l && One(rows, i - 1, first[i - 1]))
    ensures Ahead(rows, last, i, l + 1)
  {
    forall c | l + 1 <= c < |last|
      ensures i < last[c] || last[c] >= |rows|
    {
      if last[c] < |rows| {
        assert Tight(rows, last, c);
      }
    }
  }

  lemma ResumedExact(rows: seq<Row>, last: seq<nat>, first: seq<nat>, i: nat, l: nat, c: nat)
    requires |rows| >= 1 && i <= |rows| <= |first| && c < l < |last|
    requires forall r: nat {:trigger first[r]} :: r < |rows| ==> (first[r] < l <==> r < i)
    requires forall r: nat, q: nat {:trigger first[r], first[q]} :: r < q < |rows| ==> first[r] < first[q]
    requires i < |rows| || (i > 0 && c <= first[i - 1])
    requires c <= first[|rows| - 1] ==> Exact(first, |rows|, last, c)
    ensures Exact(first, i, last, c)
  {
    var n := |rows|;
    assert i < n ==> !(first[n - 1] < l);
    assert c <= first[n - 1];
    assert i < n ==> (first[i] < c <==> i + 1 < last[c]);
  }

  /** When elimination ends, the rows it has not used are zero. */
  lemma RestZero(rows: seq<Row>, width: nat, free: seq<bool>, cols: nat, last: seq<nat>, first: seq<nat>, i: nat,
                 j: nat)
    requires Elim(rows, width, free, cols, last, first, i, j) && (i == |rows| || j >= cols)
    ensures forall r: nat, c: nat {:trigger One(rows, r, c)} :: r >= i ==> !One(rows, r, c)
  {
    assert forall r: nat, c: nat {:trigger One(rows, r, c)} :: One(rows, r, c) ==> c < cols;
  }

  /** Dropping the zero rows completes the round. */
  lemma RoundDone(rows: seq<Row>, width: nat, free: seq<bool>, cols: nat, last: seq<nat>, first: seq<nat>, i: nat,
                  j: nat)
    requires Elim(rows, width, free, cols, last, first, i, j) && (i == |rows| || j >= cols)
    ensures Reduced(rows[..i], width, free, cols, last, first)
  {
    hide AllWide;
    var rows' := rows[..i];
    assert forall r: nat, c: nat {:trigger One(rows', r, c)} :: One(rows', r, c) <==> r < i && One(rows, r, c);
    assert AllWide(rows', width) by {
      WidePrefix(rows, width, i);
    }
    forall c | 0 <= c < |last| && last[c] < i
      ensures Tight(rows', last, c)
    {
      assert Tight(rows, last, c);
    }
    hide Bounded;
    forall c: nat, d: nat | c < d < |free| && free[c] && last[c] > i
      ensures last[d] >= i
    {
      OverAtEnd(rows, width, free, cols, last, first, i, j, c, d);
    }
  }

  lemma WidePrefix(rows: seq<Row>, width: nat, i: nat)
    requires AllWide(rows, width) && i <= |rows|
    ensures AllWide(rows[..i], width)
  {
  }

  lemma OverAtEnd(rows: seq<Row>, width: nat, free: seq<bool>, cols: nat, last: seq<nat>, first: seq<nat>, i: nat,
                  j: nat, c: nat, d: nat)
    requires Elim(rows, width, free, cols, last, first, i, j) && (i == |rows| || j >= cols)
    requires c < d < |free| && free[c] && last[c] > i
    ensures last[d] >= i
  {
    hide AllWide, Clean, ZeroLeft, Ahead;
    assert last[c] <= |rows|;
    assert i < |rows| ==> Exact(first, i, last, c);
    assert 0 < i < |rows| ==> first[i - 1] < c && One(rows, i - 1, first[i - 1]);
    assert last[d] < |rows| ==> Tight(rows, last, d);
  }

  /** The bounds at the end brought down to the number of rows. */
  ghost predicate Clamped(last: seq<nat>, last': seq<nat>, n: nat) {
    && |last'| == |last|
    && exists b: nat :: ClampedFrom(last, last', n, b)
  }

  ghost predicate ClampedFrom(last: seq<nat>, last': seq<nat>, n: nat, b: nat) {
    && b <= |last| == |last'| && last'[..b] == last[..b]
    && (forall c :: b <= c < |last| ==> last[c] >= n && last'[c] == n)
    && (b > 0 ==> last[b - 1] < n)
  }

  lemma ClampReduced(rows: seq<Row>, width: nat, free: seq<bool>, cols: nat, last: seq<nat>, first: seq<nat>,
                     last': seq<nat>)
    requires Reduced(rows, width, free, cols, last, first) && Clamped(last, last', |rows|)
    ensures FreshStart(rows, width, free, cols, last', first)
    ensures Stairs(rows, first, |rows|) && ExactToLast(rows, free, last', first)
  {
    hide AllWide, Clean;
    var n := |rows|;
    var b: nat :| ClampedFrom(last, last', n, b);
    assert forall c :: 0 <= c < b ==> last'[c] == last'[..b][c] == last[c];
    forall c | 0 <= c < |last'|
      ensures last'[c] >= n || Tight(rows, last', c)
    {
      if last'[c] < n {
        assert last[c] == last'[c];
        TightSame(rows, last, last', c);
      }
    }
    hide Bounded, Tight;
    forall c | 0 <= c < |free| && free[c]
      ensures last'[c] <= n
    {
      assert c < b && last[c] > n ==> c != b - 1;
    }
    if n > 0 {
      forall c: nat | c < |free| && free[c] && c <= first[n - 1]
        ensures Exact(first, n, last', c)
      {
        assert Exact(first, n, last, c);
        assert first[n - 1] < c <==> n < last[c];
        ExactSame(first, first, n, last, last', c);
      }
    }
  }

  lemma ClampUntouched(rows: seq<Row>, width: nat, free: seq<bool>, cols: nat, last: seq<nat>, first: seq<nat>,
                       last': seq<nat>)
    requires Untouched(rows, width, free, cols, last, first) && Clamped(last, last', |rows|)
    ensures FreshStart(rows, width, free, cols, last', first)
  {
    hide AllWide, Clean;
    var b: nat :| ClampedFrom(last, last', |rows|, b);
    assert b == 0;
  }

  // ----- losing columns -----

  /** Fewer ones, and none where a column has been given up. */
  ghost predicate Cleared(rows: seq<Row>, rows': seq<Row>, width: nat, free: seq<bool>, free': seq<bool>) {
    && |rows'| == |rows| && AllWide(rows', width) && |free'| == |free|
    && (forall c {:trigger free'[c]} :: 0 <= c < |free| && free'[c] ==> free[c])
    && forall r: nat, c: nat {:trigger One(rows', r, c)} {:trigger One(rows, r, c)} ::
      One(rows', r, c) <==> One(rows, r, c) && (c < |free'| ==> free'[c])
  }

  lemma ClearedFresh(rows: seq<Row>, width: nat, free: seq<bool>, cols: nat, last: seq<nat>, first: seq<nat>,
                     rows': seq<Row>, free': seq<bool>, cols': nat)
    requires FreshStart(rows, width, free, cols, last, first) && Cleared(rows, rows', width, free, free')
    requires cols' <= cols && forall c :: cols' <= c < cols ==> !free'[c]
    ensures FreshStart(rows', width, free', cols', last, first)
  {
    hide AllWide;
    forall c | 0 <= c < |last| && last[c] < |rows|
      ensures Tight(rows', last, c)
    {
      assert Tight(rows, last, c);
      assert forall r: nat, k: nat {:trigger One(rows', r, k)} :: One(rows', r, k) ==> One(rows, r, k);
    }
  }

  lemma ClearedResumable(rows: seq<Row>, width: nat, free: seq<bool>, cols: nat, last: seq<nat>, first: seq<nat>,
                         rows': seq<Row>, free': seq<bool>, cols': nat, l: nat)
    requires FreshStart(rows, width, free, cols, last, first) && Cleared(rows, rows', width, free, free')
    requires Stairs(rows, first, |rows|) && ExactToLast(rows, free, last, first) && |rows| >= 1
    requires FreshStart(rows', width, free', cols', last, first)
    requires l < |free| && free[l] && !free'[l] && forall c :: 0 <= c < l ==> free'[c] == free[c]
    ensures Resumable(rows', width, free', cols', last, first, l)
  {
    hide AllWide, Bounded, Tight, Exact;
    forall r: nat | r < |rows| && first[r] < l
      ensures One(rows', r, first[r])
    {
      assert One(rows, r, first[r]);
    }
  }
}
