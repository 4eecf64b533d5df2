/**
 Gaussian elimination inside the solver: columns of assigned variables are substituted, the matrix is brought
 back to echelon form, and conflicts and propagations are read off the original half of the rows.
 (cryptoms/gaussian.cpp)
 */
module Gaussian {
  import opened Literals
  import opened Watches
  import opened XorRows
  import opened XorClauses
  import opened GaussTheory
  import opened PackedMatrix

  /** `std::numeric_limits<int>::max()`: nothing has changed since the last elimination. */
  const UNCHANGED: int := 0x7fff_ffff

  /** Rows and columns are counted in 16 bits; larger systems are not taken on. */
  const MAX_COUNT: nat := 0xfffe

  function FreeCols(colToVar: seq<Option<nat>>): (free: seq<bool>)
    ensures |free| == |colToVar| && forall c {:trigger free[c]} :: 0 <= c < |free| ==> free[c] == colToVar[c].Some?
  {
    seq(|colToVar|, c requires 0 <= c < |colToVar| => colToVar[c].Some?)
  }

  // ----- substitution -----

  ghost function Substituted(r: Row, c: nat, v: bool): Row
    requires c < |r.mat.bits|
  {
    Row(Half(r.mat.bits[c := false], r.mat.rhs != (r.mat.bits[c] && v)), r.vars)
  }

  /** Column `c` has been replaced by the value `v` in all rows. */
  ghost predicate ColumnGone(rows: seq<Row>, rows': seq<Row>, c: nat, v: bool) {
    |rows'| == |rows|
      && forall r {:trigger rows'[r]} ::
      0 <= r < |rows| ==> c < |rows[r].mat.bits| && rows'[r] == Substituted(rows[r], c, v)
  }

  /** From `from` on, all columns have an assigned variable, and the one before has none or an unassigned one. */
  ghost predicate EndTaken(colToVar: seq<Option<nat>>, a: Assigns, from: nat, to: nat) {
    && from <= to <= |colToVar|
    && (forall c: nat {:trigger colToVar[c]} :: from <= c < to ==> colToVar[c].Some? && colToVar[c].value in a)
    && (from > 0 ==> !(colToVar[from - 1].Some? && colToVar[from - 1].value in a))
  }

  lemma ColumnGoneLinked(rows: seq<Row>, rows': seq<Row>, c: nat, v: bool, done: map<nat, bool>, width: nat)
    requires ColumnGone(rows, rows', c, v) && AllLinked(rows, done) && c !in done && AllWide(rows, width)
    ensures AllLinked(rows', done[c := v]) && AllWide(rows', width)
  {
    forall r | 0 <= r < |rows'|
      ensures Linked(rows'[r], done[c := v]) && RowWide(rows'[r], width)
    {
      assert RowWide(rows[r], width) && Linked(rows[r], done);
      var r' := rows'[r];
      SubstituteLinked(rows[r], done, c, v);
    }
  }

  /** The same, so far only for the first `u` rows. */
  ghost predicate GoneUpTo(rows: seq<Row>, rows': seq<Row>, c: nat, v: bool, u: nat) {
    && |rows'| == |rows|
    && forall r {:trigger rows'[r]} ::
      0 <= r < |rows| ==> c < |rows[r].mat.bits| && rows'[r] == if r < u then Substituted(rows[r], c, v) else rows[r]
  }

  lemma GoneNone(rows: seq<Row>, c: nat, v: bool, width: nat)
    requires AllWide(rows, width) && c < width
    ensures GoneUpTo(rows, rows, c, v, 0)
  {
  }

  lemma GoneHere(rows: seq<Row>, rows': seq<Row>, c: nat, v: bool, r: nat)
    requires GoneUpTo(rows, rows', c, v, r) && r < |rows|
    ensures |rows'| == |rows| && rows'[r] == rows[r]
  {
    var r' := rows'[r];
  }

  lemma NothingToSubstitute(r: Row, c: nat, v: bool)
    requires c < |r.mat.bits| && !r.mat.bits[c]
    ensures Substituted(r, c, v) == r
  {
    assert r.mat.bits[c := false] == r.mat.bits;
  }

  lemma GoneNext(rows: seq<Row>, rows': seq<Row>, c: nat, v: bool, u: nat)
    requires u < |rows| == |rows'| && c < |rows[u].mat.bits| && GoneUpTo(rows, rows', c, v, u)
    ensures GoneUpTo(rows, if rows[u].mat.bits[c] then rows'[u := Substituted(rows[u], c, v)] else rows', c, v, u + 1)
  {
    var rows'' := if rows[u].mat.bits[c] then rows'[u := Substituted(rows[u], c, v)] else rows';
    forall r | 0 <= r < |rows|
      ensures c < |rows[r].mat.bits| && rows''[r] == if r < u + 1 then Substituted(rows[r], c, v) else rows[r]
    {
      var r' := rows'[r];
      if !rows[u].mat.bits[c] {
        NothingToSubstitute(rows[u], c, v);
      }
    }
  }

  lemma GoneAll(rows: seq<Row>, rows': seq<Row>, c: nat, v: bool, u: nat, width: nat)
    requires GoneUpTo(rows, rows', c, v, u) && AllWide(rows, width) && c < width
    requires forall r: nat {:trigger One(rows, r, c)} :: r >= u ==> !One(rows, r, c)
    ensures ColumnGone(rows, rows', c, v)
  {
    forall r | 0 <= r < |rows|
      ensures c < |rows[r].mat.bits| && rows'[r] == Substituted(rows[r], c, v)
    {
      assert RowWide(rows[r], width);
      var r' := rows'[r];
      if r >= u {
        assert !One(rows, r, c);
        NothingToSubstitute(rows[r], c, v);
      }
    }
  }

  /** The rows with a one in the column have been marked. */
  ghost predicate Marked(rows: seq<Row>, c: nat, seen: seq<bool>, seen': seq<bool>) {
    |seen'| == |seen| && forall r: nat {:trigger seen'[r]} :: r < |seen| ==> (seen'[r] <==> seen[r] || One(rows, r, c))
  }

  ghost predicate MarkedUpTo(rows: seq<Row>, c: nat, seen: seq<bool>, seen': seq<bool>, u: nat) {
    |seen'| == |seen|
      && forall r: nat {:trigger seen'[r]} :: r < |seen| ==> (seen'[r] <==> seen[r] || (r < u && One(rows, r, c)))
  }

  /** A row that has not been marked has kept all its ones. */
  ghost predicate SeenOk(rows: seq<Row>, rows': seq<Row>, seen: seq<bool>) {
    forall r: nat, k: nat {:trigger One(rows, r, k)} {:trigger One(rows', r, k)} ::
      r < |seen| && !seen[r] ==> (One(rows', r, k) <==> One(rows, r, k))
  }

  lemma OneGone(rows: seq<Row>, rows': seq<Row>, c: nat, v: bool, r: nat, k: nat)
    requires ColumnGone(rows, rows', c, v)
    ensures One(rows', r, k) <==> One(rows, r, k) && k != c
  {
    if r < |rows| {
      var r' := rows'[r];
    }
  }

  lemma SeenNext(rows0: seq<Row>, rows: seq<Row>, rows': seq<Row>, seen: seq<bool>, seen': seq<bool>, c: nat, v: bool,
                 width: nat)
    requires SeenOk(rows0, rows, seen) && ColumnGone(rows, rows', c, v) && Marked(rows, c, seen, seen')
    ensures SeenOk(rows0, rows', seen')
  {
    forall r: nat, k: nat | r < |seen'| && !seen'[r]
      ensures One(rows', r, k) <==> One(rows0, r, k)
    {
      OneGone(rows, rows', c, v, r, k);
      assert One(rows, r, k) <==> One(rows0, r, k);
      assert !seen[r];
    }
  }

  lemma ClearedNone(rows: seq<Row>, width: nat, free: seq<bool>)
    requires AllWide(rows, width) && Clean(rows, free)
    ensures Cleared(rows, rows, width, free, free)
  {
  }

  lemma ClearedNext(rows0: seq<Row>, rows: seq<Row>, width: nat, free0: seq<bool>, free: seq<bool>, rows': seq<Row>,
                    c: nat, v: bool)
    requires Cleared(rows0, rows, width, free0, free) && ColumnGone(rows, rows', c, v) && c < |free|
      && AllWide(rows', width)
    ensures Cleared(rows0, rows', width, free0, free[c := false])
  {
    var free' := free[c := false];
    forall r: nat, k: nat
      ensures One(rows', r, k) <==> One(rows0, r, k) && (k < |free'| ==> free'[k])
    {
      OneGone(rows, rows', c, v, r, k);
      assert One(rows, r, k) <==> One(rows0, r, k) && (k < |free| ==> free[k]);
    }
  }

  lemma FreshFacts(rows: seq<Row>, width: nat, free: seq<bool>, cols: nat, last: seq<nat>, first: seq<nat>)
    requires FreshStart(rows, width, free, cols, last, first)
    ensures AllWide(rows, width) && cols <= |free| == |last| <= width && |rows| <= |first|
    ensures forall c :: cols <= c < |free| ==> !free[c]
  {
  }

  lemma FreshClean(rows: seq<Row>, width: nat, free: seq<bool>, cols: nat, last: seq<nat>, first: seq<nat>)
    requires FreshStart(rows, width, free, cols, last, first)
    ensures Clean(rows, free)
  {
  }

  /** Bounds stay good when ones disappear. */
  lemma ClearedBounded(rows0: seq<Row>, width: nat, free0: seq<bool>, cols: nat, last: seq<nat>, first: seq<nat>,
                       rows: seq<Row>, free: seq<bool>, col: nat)
    requires FreshStart(rows0, width, free0, cols, last, first) && Cleared(rows0, rows, width, free0, free)
      && col < |free0|
    ensures AllWide(rows, width) && Bounded(rows, last) && |free0| == |last| <= width
      && (free0[col] ==> last[col] <= |rows|)
  {
    forall c | 0 <= c < |last| && last[c] < |rows|
      ensures Tight(rows, last, c)
    {
      assert Tight(rows0, last, c);
    }
    assert free0[col] ==> last[col] <= |rows0|;
  }

  /** The first column given up since the last elimination, if there was one before. */
  ghost predicate LeastOk(least0: int, least: int, free0: seq<bool>, free: seq<bool>)
  {
    && |free| == |free0|
    && if least0 == -1 then least == -1
       else if least == UNCHANGED then free == free0
       else 0 <= least < |free0| && free0[least] && !free[least] && forall c :: 0 <= c < least ==> free[c] == free0[c]
  }

  // ----- what the rows stand for -----

  /**
   Every solution of the original rows solves the current ones, and among the assignments that extend the
   current one the two have the same solutions.
   */
  ghost predicate Meaning(original: seq<Row>, rows: seq<Row>, done: map<nat, bool>) {
    && (forall xs: iset<nat> {:trigger VarsHold(rows, xs)} :: VarsHold(original, xs) ==> VarsHold(rows, xs))
    && forall xs: iset<nat> {:trigger VarsHold(rows, xs)} ::
      Respects(xs, done) && VarsHold(rows, xs) ==> VarsHold(original, xs)
  }

  lemma MeaningSameSolutions(original: seq<Row>, rows: seq<Row>, rows': seq<Row>, done: map<nat, bool>)
    requires Meaning(original, rows, done) && SameSolutions(rows, rows')
    ensures Meaning(original, rows', done)
  {
    hide VarsHold, MatsHold, Respects;
    forall xs: iset<nat>
      ensures VarsHold(original, xs) ==> VarsHold(rows', xs)
      ensures Respects(xs, done) && VarsHold(rows', xs) ==> VarsHold(original, xs)
    {
      assert VarsHold(rows, xs) <==> VarsHold(rows', xs);
    }
  }

  lemma MeaningColumnGone(original: seq<Row>, rows: seq<Row>, rows': seq<Row>, c: nat, v: bool, done: map<nat, bool>)
    requires Meaning(original, rows, done) && ColumnGone(rows, rows', c, v) && c !in done
    ensures Meaning(original, rows', done[c := v])
  {
    var done' := done[c := v];
    forall xs: iset<nat>
      ensures VarsHold(rows', xs) <==> VarsHold(rows, xs)
      ensures Respects(xs, done') ==> Respects(xs, done)
    {
      assert forall r :: 0 <= r < |rows| ==> rows'[r].vars == rows[r].vars;
      if Respects(xs, done') {
        forall k | k in done
          ensures k in xs <==> done[k]
        {
          assert k in done';
        }
      }
    }
    hide VarsHold, Respects;
  }

  /** Rows that are zero, right-hand side included, say nothing under the current assignment. */
  lemma MeaningDrop(original: seq<Row>, rows: seq<Row>, n: nat, done: map<nat, bool>)
    requires Meaning(original, rows, done) && AllLinked(rows, done) && n <= |rows|
    requires forall r: nat, c: nat {:trigger One(rows, r, c)} :: r >= n ==> !One(rows, r, c)
    requires forall r :: n <= r < |rows| ==> !rows[r].mat.rhs
    ensures Meaning(original, rows[..n], done)
  {
    var rows' := rows[..n];
    forall xs: iset<nat>
      ensures VarsHold(rows, xs) ==> VarsHold(rows', xs)
      ensures Respects(xs, done) && VarsHold(rows', xs) ==> VarsHold(rows, xs)
    {
      if Respects(xs, done) && VarsHold(rows', xs) {
        forall r | 0 <= r < |rows|
          ensures Holds(rows[r].vars, xs)
        {
          if r < n {
            assert rows'[r] == rows[r];
          } else {
            forall c: nat | c < |rows[r].mat.bits|
              ensures !rows[r].mat.bits[c]
            {
              assert !One(rows, r, c);
            }
            ParityZero(rows[r].mat.bits, xs);
            assert Linked(rows[r], done);
            LinkMeaning(rows[r], done, xs);
          }
        }
      }
    }
    hide VarsHold, Respects;
  }

  // ----- elimination below a pivot -----

  lemma EliminatedStart(rows: seq<Row>, i: nat, p: nat, j: nat, width: nat)
    requires i <= p < |rows| && AllWide(rows, width)
    ensures Eliminated(rows, i, p, j, p + 1, width) == rows[i := rows[p]][p := rows[i]]
  {
  }

  lemma EliminatedNext(rows: seq<Row>, i: nat, p: nat, j: nat, u: nat, width: nat)
    requires i <= p < u < |rows| && AllWide(rows, width)
    ensures var s := Eliminated(rows, i, p, j, u, width);
      && RowWide(s[u], width) && RowWide(s[i], width) && s[u] == rows[u]
      && Eliminated(rows, i, p, j, u + 1, width) == if One(s, u, j) then s[u := XorRow(s[u], s[i], width)] else s
  {
    var s := Eliminated(rows, i, p, j, u, width);
    var s' := Eliminated(rows, i, p, j, u + 1, width);
    EliminatedAt(rows, i, p, j, u, width, u);
    EliminatedAt(rows, i, p, j, u, width, i);
    forall r | 0 <= r < |rows|
      ensures s'[r] == if r == u && One(s, u, j) then XorRow(s[u], s[i], width) else s[r]
    {
      EliminatedAt(rows, i, p, j, u, width, r);
      EliminatedAt(rows, i, p, j, u + 1, width, r);
    }
  }

  /** The rows after one xor or swap, and all that is kept about them. */
  ghost predicate Follows(rows: seq<Row>, rows': seq<Row>, width: nat, done: map<nat, bool>) {
    && SameSolutions(rows, rows') && AllWide(rows', width) && AllLinked(rows', done) && |rows'| == |rows|
  }

  lemma FollowsSame(rows: seq<Row>, width: nat, done: map<nat, bool>)
    requires AllWide(rows, width) && AllLinked(rows, done)
    ensures Follows(rows, rows, width, done)
  {
  }

  lemma FollowsSwap(rows0: seq<Row>, rows: seq<Row>, width: nat, done: map<nat, bool>, i: nat, p: nat)
    requires Follows(rows0, rows, width, done) && i < |rows| && p < |rows|
    ensures Follows(rows0, rows[i := rows[p]][p := rows[i]], width, done)
  {
    SwapSolutions(rows, i, p);
    SolutionsTrans(rows0, rows, rows[i := rows[p]][p := rows[i]]);
  }

  lemma FollowsXor(rows0: seq<Row>, rows: seq<Row>, width: nat, done: map<nat, bool>, r: nat, i: nat)
    requires Follows(rows0, rows, width, done) && r < |rows| && i < |rows| && r != i
    ensures RowWide(rows[r], width) && RowWide(rows[i], width)
    ensures Follows(rows0, rows[r := XorRow(rows[r], rows[i], width)], width, done)
  {
    assert RowWide(rows[r], width) && RowWide(rows[i], width) && Linked(rows[r], done) && Linked(rows[i], done);
    XorSolutions(rows, r, i, width);
    XorLinked(rows[r], rows[i], width, done);
    SolutionsTrans(rows0, rows, rows[r := XorRow(rows[r], rows[i], width)]);
  }

  // ----- the rows as given -----

  predicate NoneSeen(seen: seq<bool>) {
    forall r {:trigger seen[r]} :: 0 <= r < |seen| ==> !seen[r]
  }

  /** `var_to_col` for the variables of an XOR. */
  method Columns(vs: seq<nat>, order: seq<nat>) returns (cs: seq<nat>)
    requires DistinctVars(order) && forall v :: v in vs ==> v in order
    ensures forall c :: c in cs ==> c < |order|
    ensures forall k: nat :: k in cs <==> k < |order| && order[k] in vs
  {
    cs := [];
    for n := 0 to |vs|
      invariant forall c :: c in cs ==> c < |order|
      invariant forall k: nat :: k in cs <==> k < |order| && order[k] in vs[..n]
    {
      assert vs[n] in order;
      var c: nat := 0;
      while order[c] != vs[n]
        invariant c < |order| && forall q :: 0 <= q < c ==> order[q] != vs[n]
        decreases |order| - c
      {
        c := c + 1;
      }
      cs := cs + [c];
      assert vs[..n + 1] == vs[..n] + [vs[n]];
    }
    assert vs[..|vs|] == vs;
  }

  lemma FreshRows(rows: seq<Row>, xors: seq<Xor>, order: seq<nat>, width: nat, free: seq<bool>)
    requires |rows| == |xors| && |free| == |order| && forall c :: 0 <= c < |free| ==> free[c]
    requires forall q ::
      0 <= q < |rows| ==>
      rows[q].mat == rows[q].vars && RowOf(rows[q].vars, xors[q], order) && Wide(rows[q].vars, width)
    ensures AllLinked(rows, map[]) && Clean(rows, free) && AllWide(rows, width)
  {
    forall r | 0 <= r < |rows|
      ensures Linked(rows[r], map[]) && RowWide(rows[r], width)
    {
      ParitySame(rows[r].vars.bits, TrueCols(map[]), iset{});
      NoColumns(rows[r].vars.bits);
    }
  }

  lemma {:induction false} NoColumns(bits: seq<bool>)
    ensures !Parity(bits, iset{})
  {
    if bits != [] {
      NoColumns(bits[..|bits| - 1]);
    }
  }

  // ----- a matrix at rest -----

  /** The columns substituted are the ones without a variable. */
  ghost predicate TablesFit(colToVar: seq<Option<nat>>, done: map<nat, bool>, order: seq<nat>) {
    && |colToVar| == |order| < MAX_COUNT && DistinctVars(order)
    && (forall c {:trigger c in done} :: c in done ==> c < |colToVar|)
    && forall c: nat {:trigger colToVar[c]} ::
      c < |colToVar| ==> colToVar[c] == if c in done then None else Some(order[c])
  }

  /** As built, or as a round has left it. */
  ghost predicate Rested(rows: seq<Row>, width: nat, free: seq<bool>, cols: nat, last: seq<nat>, first: seq<nat>,
                         least: int)
  {
    if least == -1 then Untouched(rows, width, free, cols, last, first)
      else least == UNCHANGED && Reduced(rows, width, free, cols, last, first)
  }

  /** A matrix as it is kept for a decision level, with what it stands for. */
  datatype MatrixSet = MatrixSet(words: seq<PackedBits.Word>, rowCount: nat, colCount: nat, numCols: nat,
    leastColumnChanged: int,
                                 colToVar: seq<Option<nat>>, lastOneInCol: seq<nat>, firstOneInRow: seq<nat>,
                                 ghost rows: seq<Row>, ghost done: map<nat, bool>)

  ghost predicate SetOk(s: MatrixSet, original: seq<Row>, order: seq<nat>) {
    && |s.rows| == s.rowCount && Rep(s.words, s.colCount, s.rows) && TablesFit(s.colToVar, s.done, order)
    && AllLinked(s.rows, s.done) && Meaning(original, s.rows, s.done)
    && Rested(s.rows, 64 * s.colCount, FreeCols(s.colToVar), s.numCols, s.lastOneInCol, s.firstOneInRow,
      s.leastColumnChanged)
  }

  datatype GaussRet = Conflict(clause: seq<Lit>) | Propagated(clauses: seq<seq<Lit>>)

  class Gaussian {
    const matrix: PackedMatrix
    var numRows: nat
    /** Columns still in use. */
    var numCols: nat
    /**
     The first column changed since the last elimination, -1 if there was none, `UNCHANGED` if nothing has changed.
     */
    var leastColumnChanged: int
    /** The variable of a column, `None` once it is assigned. */
    var colToVar: seq<Option<nat>>
    var lastOneInCol: seq<nat>
    var firstOneInRow: seq<nat>
    const colToVarOriginal: seq<nat>
    /** Rows changed since the last elimination. */
    var seen2: seq<bool>
    var changedRows: seq<nat>
    var propagatableRows: seq<nat>
    /** The columns substituted, with their values. */
    ghost var done: map<nat, bool>
    /** The rows as given. */
    ghost const original: seq<Row>

    /** The XORs as rows, one column per variable in the given order; every variable is unassigned. */
    constructor (xors: seq<Xor>, order: seq<nat>, seen: seq<bool>)
      requires |xors| < MAX_COUNT && |order| < MAX_COUNT && |xors| <= |seen| && NoneSeen(seen)
      requires DistinctVars(order) && forall x, v :: x in xors && v in x.vars ==> v in order
      ensures Base() && ChangesOk() && changedRows == [] && NoneSeen(seen2) && fresh(matrix) && fresh(matrix.mp)
      ensures colToVarOriginal == order && done == map[] && leastColumnChanged == -1 && numRows == |xors|
      ensures Untouched(matrix.rows, matrix.Width(), FreeCols(colToVar), numCols, lastOneInCol, firstOneInRow)
      ensures |original| == |xors| && forall r :: 0 <= r < |xors| ==> RowOf(original[r].vars, xors[r], order)
    {
      var m := new PackedMatrix(|xors|, |order|);
      matrix := m;
      numRows := |xors|;
      numCols := |order|;
      leastColumnChanged := -1;
      colToVar := seq(|order|, k requires 0 <= k < |order| => Some(order[k]));
      lastOneInCol := seq(|order|, _ => |xors|);
      firstOneInRow := seq(|xors|, _ => 0);
      colToVarOriginal := order;
      seen2 := seen;
      changedRows := [];
      propagatableRows := [];
      done := map[];
      for r := 0 to |xors|
        invariant m.Valid() && m.numRows == |xors| && m.numCols == (|order| + 63) / 64 && fresh(m) && fresh(m.mp)
        invariant forall q ::
          0 <= q < r ==>
          m.rows[q].mat == m.rows[q].vars && RowOf(m.rows[q].vars, xors[q], order) && Wide(m.rows[q].vars, m.Width())
      {
        assert xors[r] in xors;
        var cs := Columns(xors[r].vars, order);
        m.SetRow(r, cs, xors[r].rhs);
      }
      original := m.rows;
      new;
      FreshRows(matrix.rows, xors, order, matrix.Width(), FreeCols(colToVar));
    }

    ghost predicate MatrixOk()
      reads this, matrix, matrix.mp
    {
      matrix.Valid() && matrix.numRows == numRows
    }

    ghost predicate Tables()
      reads `colToVar, `done
    {
      TablesFit(colToVar, done, colToVarOriginal)
    }

    ghost predicate RowsOk()
      reads this, matrix, matrix.mp
    {
      AllLinked(matrix.rows, done) && Meaning(original, matrix.rows, done)
    }

    ghost predicate Base()
      reads this, matrix, matrix.mp
    {
      MatrixOk() && Tables() && RowsOk()
    }

    ghost predicate ChangesOk()
      reads `numRows, `seen2, `changedRows
    {
      && numRows <= |seen2|
      && (forall r {:trigger r in changedRows} :: r in changedRows ==> r < |seen2|)
      && forall r: nat {:trigger seen2[r]} :: r < |seen2| && seen2[r] ==> r in changedRows
    }

    // ----- substitution of assigned columns -----

    /** Brings the bounds at the end down to the number of rows. */
    method UpdateLastOneInCol()
      modifies `lastOneInCol
      ensures Clamped(old(lastOneInCol), lastOneInCol, numRows)
    {
      var c: nat := |lastOneInCol|;
      while c != 0 && lastOneInCol[c - 1] >= numRows
        invariant c <= |lastOneInCol| == |old(lastOneInCol)| && lastOneInCol[..c] == old(lastOneInCol)[..c]
        invariant forall k :: c <= k < |lastOneInCol| ==> old(lastOneInCol)[k] >= numRows && lastOneInCol[k] == numRows
      {
        lastOneInCol := lastOneInCol[c - 1 := numRows];
        c := c - 1;
      }
      assert ClampedFrom(old(lastOneInCol), lastOneInCol, numRows, c);
    }

    /** Replaces column `col` by the value of its variable; rows that change are marked. */
    method UpdateMatrixCol(col: nat, value: bool)
      requires MatrixOk() && ChangesOk() && AllWide(matrix.rows, matrix.Width()) && Bounded(matrix.rows, lastOneInCol)
      requires col < |colToVar| == |lastOneInCol| <= matrix.Width() && lastOneInCol[col] <= numRows
      modifies matrix`rows, matrix.mp, `seen2, `changedRows, `leastColumnChanged, `colToVar, `done
      ensures MatrixOk() && ChangesOk() && ColumnGone(old(matrix.rows), matrix.rows, col, value)
      ensures Marked(old(matrix.rows), col, old(seen2), seen2)
      ensures leastColumnChanged == if old(leastColumnChanged) < col then old(leastColumnChanged) else col
      ensures colToVar == old(colToVar)[col := None] && done == old(done)[col := value]
    {
      hide Rep, Bounded, One, ColumnGone, Marked;
      leastColumnChanged := if leastColumnChanged < col then leastColumnChanged else col;
      BeyondBound(matrix.rows, lastOneInCol, col);
      ClearColumn(col, value, lastOneInCol[col]);
      colToVar := colToVar[col := None];
      done := done[col := value];
    }

    method ClearColumn(col: nat, value: bool, end: nat)
      requires MatrixOk() && ChangesOk() && AllWide(matrix.rows, matrix.Width()) && col < matrix.Width()
        && end <= numRows
      requires forall r: nat {:trigger One(matrix.rows, r, col)} :: r >= end ==> !One(matrix.rows, r, col)
      modifies matrix`rows, matrix.mp, `seen2, `changedRows
      ensures MatrixOk() && ChangesOk() && ColumnGone(old(matrix.rows), matrix.rows, col, value)
      ensures Marked(old(matrix.rows), col, old(seen2), seen2)
    {
      hide Rep, GoneUpTo, ColumnGone;
      ghost var rows, width, seen := matrix.rows, matrix.Width(), seen2;
      GoneNone(rows, col, value, width);
      for r := 0 to end
        invariant MatrixOk() && ChangesOk() && GoneUpTo(rows, matrix.rows, col, value, r)
        invariant MarkedUpTo(rows, col, seen, seen2, r)
      {
        GoneHere(rows, matrix.rows, col, value, r);
        assert RowWide(rows[r], width);
        GoneNext(rows, matrix.rows, col, value, r);
        var b := matrix.At(r, false, col);
        if b {
          UpdateRow(r, col, value);
        }
      }
      GoneAll(rows, matrix.rows, col, value, end, width);
    }

    method UpdateRow(r: nat, col: nat, value: bool)
      requires MatrixOk() && ChangesOk() && r < numRows && col < matrix.Width() && One(matrix.rows, r, col)
      modifies matrix`rows, matrix.mp, `seen2, `changedRows
      ensures MatrixOk() && ChangesOk() && RowWide(old(matrix.rows[r]), matrix.Width())
      ensures matrix.rows == old(matrix.rows)[r := Substituted(old(matrix.rows)[r], col, value)]
      ensures seen2 == old(seen2)[r := true]
      ensures changedRows == old(changedRows) + if old(seen2)[r] then [] else [r]
    {
      hide Rep;
      matrix.Widths();
      assert RowWide(matrix.rows[r], matrix.Width());
      ghost var row := matrix.rows[r];
      if !seen2[r] {
        seen2 := seen2[r := true];
        changedRows := changedRows + [r];
      }
      if value {
        matrix.InvertIsTrue(r, false);
      }
      matrix.ClearBit(r, false, col);
      assert matrix.rows[r] == Substituted(row, col, value);
    }

    /** The substituted columns are those of assigned variables, with their values. */
    ghost predicate Agrees(a: Assigns)
      reads this
    {
      forall c {:trigger done[c]} {:trigger c in done} ::
        c in done ==> c < |colToVarOriginal| && colToVarOriginal[c] in a && done[c] == a[colToVarOriginal[c]]
    }

    ghost predicate Substituting(a: Assigns, rows0: seq<Row>, free0: seq<bool>, least0: int, col: nat)
      reads this, matrix, matrix.mp
    {
      && Base() && ChangesOk() && Agrees(a)
      && Cleared(rows0, matrix.rows, matrix.Width(), free0, FreeCols(colToVar))
      && SeenOk(rows0, matrix.rows, seen2)
      && (forall c: nat {:trigger colToVar[c]} ::
        c < col && c < |colToVar| && colToVar[c].Some? ==> colToVarOriginal[c] !in a)
      && (forall c: nat {:trigger colToVar[c]} :: col <= c < |colToVar| ==> colToVar[c].Some? == free0[c])
      && LeastOk(least0, leastColumnChanged, free0, FreeCols(colToVar))
    }

    /** Every column whose variable has been assigned since is substituted; the ones given up at the end are cut off. */
    method UpdateMatrixByColAll(a: Assigns)
      requires Base() && ChangesOk() && Agrees(a) && changedRows == [] && NoneSeen(seen2)
      requires FreshStart(matrix.rows, matrix.Width(), FreeCols(colToVar), numCols, lastOneInCol, firstOneInRow)
      requires leastColumnChanged == -1 || leastColumnChanged == UNCHANGED
      modifies matrix`rows, matrix.mp, `seen2, `changedRows, `leastColumnChanged, `colToVar, `done, `numCols
      ensures numCols <= old(numCols)
        && forall c: nat {:trigger colToVar[c]} :: numCols <= c < old(numCols) && c < |colToVar| ==> colToVar[c] == None
      // what is cut off are the columns substituted now, up to the last that is not
      ensures EndTaken(old(colToVar), a, numCols, old(numCols))
      ensures Substituting(a, old(matrix.rows), old(FreeCols(colToVar)), old(leastColumnChanged), |colToVar|)
        && |seen2| == |old(seen2)|
      ensures leastColumnChanged == UNCHANGED ==> changedRows == [] && NoneSeen(seen2)
    {
      hide Rep, FreshStart, Cleared, SeenOk, Meaning, AllLinked, LeastOk;
      var last := SubstituteColumns(a);
      numCols := numCols - last;
    }

    /** The loop over the columns in use; the result counts the columns given up at the end. */
    method SubstituteColumns(a: Assigns) returns (last: nat)
      requires Base() && ChangesOk() && Agrees(a) && changedRows == [] && NoneSeen(seen2)
      requires FreshStart(matrix.rows, matrix.Width(), FreeCols(colToVar), numCols, lastOneInCol, firstOneInRow)
      requires leastColumnChanged == -1 || leastColumnChanged == UNCHANGED
      modifies matrix`rows, matrix.mp, `seen2, `changedRows, `leastColumnChanged, `colToVar, `done
      ensures last <= numCols
        && forall c: nat {:trigger colToVar[c]} ::
        numCols - last <= c < numCols && c < |colToVar| ==> colToVar[c] == None
      ensures EndTaken(old(colToVar), a, numCols - last, numCols)
      ensures Substituting(a, old(matrix.rows), old(FreeCols(colToVar)), old(leastColumnChanged), |colToVar|)
        && |seen2| == |old(seen2)|
      ensures leastColumnChanged == UNCHANGED ==> changedRows == [] && NoneSeen(seen2)
    {
      hide Rep, FreshStart, Cleared, SeenOk, Meaning, AllLinked, LeastOk, Tables, Substituting;
      ghost var rows0, width, free0, least0 := matrix.rows, matrix.Width(), FreeCols(colToVar), leastColumnChanged;
      SubstituteStart(a);
      last := 0;
      var col: nat := 0;
      FreshFacts(rows0, width, free0, numCols, lastOneInCol, firstOneInRow);
      while col != numCols
        modifies matrix`rows, matrix.mp, `seen2, `changedRows, `leastColumnChanged, `colToVar, `done
        invariant col <= numCols && last <= col && |seen2| == |old(seen2)| && |colToVar| == |free0|
        invariant Substituting(a, rows0, free0, least0, col)
        invariant forall c: nat {:trigger colToVar[c]} :: col - last <= c < col ==> colToVar[c] == None
        invariant colToVar[col..] == old(colToVar)[col..] && EndTaken(old(colToVar), a, col - last, col)
        invariant leastColumnChanged == UNCHANGED ==> changedRows == [] && NoneSeen(seen2)
      {
        assert colToVar[col] == colToVar[col..][0] == old(colToVar)[col];
        assert colToVar[col + 1..] == colToVar[col..][1..] == old(colToVar)[col + 1..];
        if colToVar[col].Some? && colToVar[col].value in a {
          SubstituteNext(a, rows0, free0, least0, col);
          last := last + 1;
        } else {
          SubstituteSkip(a, rows0, free0, least0, col);
          last := 0;
        }
        col := col + 1;
      }
      SubstituteEnd(a, rows0, free0, least0, col);
    }

    lemma SubstituteStart(a: Assigns)
      requires Base() && ChangesOk() && Agrees(a) && changedRows == [] && NoneSeen(seen2)
      requires FreshStart(matrix.rows, matrix.Width(), FreeCols(colToVar), numCols, lastOneInCol, firstOneInRow)
      requires leastColumnChanged == -1 || leastColumnChanged == UNCHANGED
      ensures Substituting(a, matrix.rows, FreeCols(colToVar), leastColumnChanged, 0)
    {
      hide Bounded, Inside;
      ClearedNone(matrix.rows, matrix.Width(), FreeCols(colToVar));
    }

    lemma SubstituteSkip(a: Assigns, rows0: seq<Row>, free0: seq<bool>, least0: int, col: nat)
      requires Substituting(a, rows0, free0, least0, col) && col < |colToVar|
        && (colToVar[col].Some? ==> colToVar[col].value !in a)
      ensures Substituting(a, rows0, free0, least0, col + 1)
    {
      hide Rep, Cleared, SeenOk, Meaning, AllLinked, LeastOk;
    }

    /** Columns out of use have been substituted before. */
    lemma SubstituteEnd(a: Assigns, rows0: seq<Row>, free0: seq<bool>, least0: int, col: nat)
      requires Substituting(a, rows0, free0, least0, col) && forall c :: col <= c < |free0| ==> !free0[c]
      ensures Substituting(a, rows0, free0, least0, |colToVar|)
    {
      hide Rep, SeenOk, Meaning, AllLinked, LeastOk, One;
    }

    /** One more column substituted. */
    method SubstituteNext(a: Assigns, ghost rows0: seq<Row>, ghost free0: seq<bool>, ghost least0: int, col: nat)
      requires Substituting(a, rows0, free0, least0, col) && col < numCols && col < |colToVar| && colToVar[col].Some?
        && colToVar[col].value in a
      requires FreshStart(rows0, matrix.Width(), free0, numCols, lastOneInCol, firstOneInRow)
      modifies matrix`rows, matrix.mp, `seen2, `changedRows, `leastColumnChanged, `colToVar, `done
      ensures Substituting(a, rows0, free0, least0, col + 1) && colToVar == old(colToVar)[col := None]
        && |seen2| == |old(seen2)|
      ensures leastColumnChanged != UNCHANGED
    {
      hide Rep, FreshStart, Cleared, Meaning, AllLinked, SeenOk;
      ghost var rows, width, free, done0 := matrix.rows, matrix.Width(), FreeCols(colToVar), done;
      var value := a[colToVar[col].value];
      ClearedBounded(rows0, width, free0, numCols, lastOneInCol, firstOneInRow, rows, free, col);
      UpdateMatrixCol(col, value);
      assert col !in done0;
      assert FreeCols(colToVar) == free[col := false];
      ColumnGoneLinked(rows, matrix.rows, col, value, done0, width);
      MeaningColumnGone(original, rows, matrix.rows, col, value, done0);
      ClearedNext(rows0, rows, width, free0, free, matrix.rows, col, value);
      SeenNext(rows0, rows, matrix.rows, old(seen2), seen2, col, value, width);
    }

    // ----- elimination -----

    /** The first row from `i` on with a one in column `j`, or the end of the search. */
    method FindPivot(i: nat, j: nat, end: nat) returns (p: nat)
      requires MatrixOk() && i <= end <= numRows && j < matrix.Width() && AllWide(matrix.rows, matrix.Width())
      ensures i <= p <= end && (p < end ==> One(matrix.rows, p, j))
      ensures forall r: nat {:trigger One(matrix.rows, r, j)} :: i <= r < p ==> !One(matrix.rows, r, j)
    {
      p := i;
      while p != end
        invariant i <= p <= end
        invariant forall r: nat {:trigger One(matrix.rows, r, j)} :: i <= r < p ==> !One(matrix.rows, r, j)
      {
        var b := matrix.At(p, false, j);
        if b {
          return;
        }
        p := p + 1;
      }
    }

    /** Adds row `i` to every row below `p` that has a one in column `j`. */
    method AddBelow(i: nat, p: nat, j: nat, end: nat, ghost rows0: seq<Row>, ghost rows: seq<Row>)
      requires MatrixOk() && i <= p < end <= numRows && j < matrix.Width() && AllWide(rows, matrix.Width())
        && |rows| == numRows
      requires matrix.rows == Eliminated(rows, i, p, j, p + 1, matrix.Width())
        && Follows(rows0, matrix.rows, matrix.Width(), done)
      modifies matrix`rows, matrix.mp
      ensures MatrixOk() && matrix.rows == Eliminated(rows, i, p, j, end, matrix.Width())
      ensures Follows(rows0, matrix.rows, matrix.Width(), done)
    {
      hide Eliminated, Follows, Rep;
      var u: nat := p + 1;
      while u != end
        invariant p < u <= end && MatrixOk() && matrix.rows == Eliminated(rows, i, p, j, u, matrix.Width())
        invariant Follows(rows0, matrix.rows, matrix.Width(), done)
      {
        EliminatedNext(rows, i, p, j, u, matrix.Width());
        var b := matrix.At(u, false, j);
        if b {
          FollowsXor(rows0, matrix.rows, matrix.Width(), done, u, i);
          matrix.XorBoth(u, i);
        }
        u := u + 1;
      }
    }

    /** Brings the row found to position `i` and adds it to the rows below. */
    method TakePivot(i: nat, p: nat, j: nat, end: nat, ghost rows0: seq<Row>)
      requires MatrixOk() && j < matrix.Width() && end <= numRows && Follows(rows0, matrix.rows, matrix.Width(), done)
      requires PivotAt(matrix.rows, i, p, j, end) && ZeroLeft(matrix.rows, i, j)
      modifies matrix`rows, matrix.mp, `propagatableRows
      ensures MatrixOk() && AllWide(old(matrix.rows), matrix.Width())
      ensures matrix.rows == Eliminated(old(matrix.rows), i, p, j, end, matrix.Width())
      ensures Follows(rows0, matrix.rows, matrix.Width(), done)
      ensures propagatableRows == old(propagatableRows) + if Single(matrix.rows, i, j) then [i] else []
    {
      hide Rep, SameSolutions, Linked, AllLinked;
      ghost var rows := matrix.rows;
      ghost var width := matrix.Width();
      EliminatedStart(rows, i, p, j, width);
      if p != i {
        FollowsSwap(rows0, rows, width, done, i, p);
        matrix.SwapBoth(i, p);
      }
      assert matrix.rows == rows[i := rows[p]][p := rows[i]];
      PivotRow(rows, i, p, j, width);
      var one := matrix.PopcntIsOne(i, j);
      assert one <==> forall k :: 0 <= k < width ==> (rows[p].mat.bits[k] <==> k == j);
      if one {
        propagatableRows := propagatableRows + [i];
      }
      AddBelow(i, p, j, end, rows0, rows);
      EliminatedAt(rows, i, p, j, end, width, i);
      assert matrix.rows[i] == rows[p];
      SingleRow(matrix.rows, i, j, width);
    }

    ghost predicate ElimNow(i: nat, j: nat)
      requires MatrixOk()
      reads this, matrix, matrix.mp
    {
      Elim(matrix.rows, matrix.Width(), FreeCols(colToVar), numCols, lastOneInCol, firstOneInRow, i, j)
    }

    /** Row `p` becomes the pivot row of column `j` and is put in place `i`. */
    method UsePivot(i: nat, p: nat, j: nat, ghost rows0: seq<Row>, ghost until: nat, ghost seen0: seq<bool>)
      requires MatrixOk() && ElimNow(i, j) && i < numRows && j < numCols && until <= i
      requires colToVar[j] != None && i <= p < lastOneInCol[j] && One(matrix.rows, p, j)
      requires forall r: nat {:trigger One(matrix.rows, r, j)} :: i <= r < p ==> !One(matrix.rows, r, j)
      requires Follows(rows0, matrix.rows, matrix.Width(), done)
      requires PropsOk(matrix.rows, firstOneInRow, propagatableRows, i, until, seen0)
      modifies matrix`rows, matrix.mp, `propagatableRows, `firstOneInRow, `lastOneInCol
      ensures MatrixOk() && ElimNow(i + 1, j + 1) && SameUpTo(old(matrix.rows), matrix.rows, until)
      ensures Follows(rows0, matrix.rows, matrix.Width(), done)
      ensures PropsOk(matrix.rows, firstOneInRow, propagatableRows, i + 1, until, seen0)
    {
      hide Rep, PropsOk, Follows;
      ghost var rows, width, free := matrix.rows, matrix.Width(), FreeCols(colToVar);
      ghost var last, first := lastOneInCol, firstOneInRow;
      ElimFacts(rows, width, free, numCols, last, first, i, j);
      hide Elim;
      var end := lastOneInCol[j];
      ElimPivot(rows, width, free, numCols, last, first, i, p, j);
      PivotStep(rows, width, free, numCols, last, first, i, p, j);
      TakePivot(i, p, j, end, rows0);
      PropsNext(rows, first, old(propagatableRows), i, p, j, end, width, until, seen0, propagatableRows);
      EliminatedAbove(rows, i, p, j, end, width, until);
      firstOneInRow := firstOneInRow[i := j];
      lastOneInCol := lastOneInCol[j := i + 1];
    }

    /** Column `j` is free but no row has a one there. */
    method PassFreeColumn(i: nat, j: nat, ghost rows0: seq<Row>, ghost until: nat, ghost seen0: seq<bool>)
      requires MatrixOk() && ElimNow(i, j) && i < numRows && j < numCols && until <= i && colToVar[j] != None
      requires forall r: nat {:trigger One(matrix.rows, r, j)} :: i <= r < lastOneInCol[j] ==> !One(matrix.rows, r, j)
      requires PropsOk(matrix.rows, firstOneInRow, propagatableRows, i, until, seen0)
      modifies `firstOneInRow, `lastOneInCol
      ensures MatrixOk() && ElimNow(i, j + 1) && PropsOk(matrix.rows, firstOneInRow, propagatableRows, i, until, seen0)
      ensures firstOneInRow == old(firstOneInRow)[i := j] && lastOneInCol == old(lastOneInCol)[j := i + 1]
    {
      hide Rep, PropsOk, Follows;
      ghost var rows, width, free := matrix.rows, matrix.Width(), FreeCols(colToVar);
      ghost var last, first := lastOneInCol, firstOneInRow;
      ElimFacts(rows, width, free, numCols, last, first, i, j);
      ElimNoPivot(rows, width, free, numCols, last, first, i, j);
      NoPivotStep(rows, width, free, numCols, last, first, i, j);
      hide Elim;
      PropsSame(rows, first, propagatableRows, i, until, seen0, first[i := j]);
      firstOneInRow := firstOneInRow[i := j];
      lastOneInCol := lastOneInCol[j := i + 1];
    }

    lemma SkipColumn(i: nat, j: nat)
      requires MatrixOk() && ElimNow(i, j) && i < numRows && j < numCols && j < |colToVar| && colToVar[j] == None
      ensures ElimNow(i, j + 1)
    {
      SkipStep(matrix.rows, matrix.Width(), FreeCols(colToVar), numCols, lastOneInCol, firstOneInRow, i, j);
    }

    /** One turn of the elimination loop: column `j` is skipped, has no pivot, or gives row `i` its pivot. */
    method EliminateColumn(i: nat, j: nat, ghost rows0: seq<Row>, ghost until: nat, ghost seen0: seq<bool>)
      returns (i': nat)
      requires MatrixOk() && ElimNow(i, j) && i < numRows && j < numCols && until <= i
      requires Follows(rows0, matrix.rows, matrix.Width(), done)
        && PropsOk(matrix.rows, firstOneInRow, propagatableRows, i, until, seen0)
      modifies matrix`rows, matrix.mp, `propagatableRows, `firstOneInRow, `lastOneInCol
      ensures MatrixOk() && ElimNow(i', j + 1) && i <= i' && SameUpTo(old(matrix.rows), matrix.rows, until)
      ensures Follows(rows0, matrix.rows, matrix.Width(), done)
        && PropsOk(matrix.rows, firstOneInRow, propagatableRows, i', until, seen0)
    {
      hide Rep, PropsOk, Follows, Elim;
      ElimFacts(matrix.rows, matrix.Width(), FreeCols(colToVar), numCols, lastOneInCol, firstOneInRow, i, j);
      if colToVar[j] == None {
        SkipColumn(i, j);
        return i;
      }
      var end := lastOneInCol[j];
      var p := FindPivot(i, j, end);
      if p != end {
        UsePivot(i, p, j, rows0, until, seen0);
        i' := i + 1;
      } else {
        PassFreeColumn(i, j, rows0, until, seen0);
        i' := i;
      }
    }

    /** The rows kept from the last elimination: those that have changed are looked at again. */
    method LookAgain(until: nat)
      requires MatrixOk() && AllWide(matrix.rows, matrix.Width()) && Stairs(matrix.rows, firstOneInRow, until)
        && until <= |seen2|
      requires propagatableRows == [] && numRows <= |firstOneInRow|
      modifies `propagatableRows
      ensures PropsOk(matrix.rows, firstOneInRow, propagatableRows, until, until, seen2)
    {
      hide Rep;
      for i := 0 to until
        invariant PropsOk(matrix.rows, firstOneInRow, propagatableRows, i, until, seen2)
      {
        if seen2[i] {
          ghost var first := firstOneInRow[i];
          StairsRow(matrix.rows, firstOneInRow, until, i, matrix.Width());
          var one := matrix.PopcntIsOne(i, firstOneInRow[i]);
          SingleRow(matrix.rows, i, first, matrix.Width());
          PropsPush(matrix.rows, firstOneInRow, propagatableRows, i, until, seen2);
          if one {
            propagatableRows := propagatableRows + [i];
          }
        }
      }
    }

    /** Clears the marks of the changed rows. */
    method ForgetChanges()
      requires ChangesOk()
      modifies `seen2, `changedRows
      ensures ChangesOk() && changedRows == [] && NoneSeen(seen2) && |seen2| == |old(seen2)|
    {
      for k := 0 to |changedRows|
        invariant changedRows == old(changedRows) && |seen2| == |old(seen2)|
        invariant forall r: nat {:trigger seen2[r]} :: r < |seen2| && seen2[r] ==> r in changedRows[k..]
      {
        assert changedRows[k] in changedRows;
        seen2 := seen2[changedRows[k] := false];
        assert changedRows[k..] == [changedRows[k]] + changedRows[k + 1..];
      }
      changedRows := [];
    }

    /** Whether elimination picks up behind the first changed column. */
    predicate Resumes(iterativeReduce: bool)
      reads `leastColumnChanged
    {
      iterativeReduce && leastColumnChanged >= 0
    }

    ghost predicate Ready(iterativeReduce: bool)
      requires MatrixOk()
      reads this, matrix, matrix.mp
    {
      && -1 <= leastColumnChanged
      && if Resumes(iterativeReduce) then
           leastColumnChanged < |colToVar|
             && Resumable(matrix.rows, matrix.Width(), FreeCols(colToVar), numCols, lastOneInCol, firstOneInRow,
             leastColumnChanged)
         else FreshStart(matrix.rows, matrix.Width(), FreeCols(colToVar), numCols, lastOneInCol, firstOneInRow)
    }

    /** How many rows are kept from the last elimination. */
    ghost function Kept(iterativeReduce: bool): int
      requires Resumes(iterativeReduce) ==> 1 <= numRows <= |firstOneInRow| && leastColumnChanged < |lastOneInCol|
      reads this
    {
      if Resumes(iterativeReduce) then Until(numRows, firstOneInRow, lastOneInCol, leastColumnChanged) else 0
    }

    /**
     Gaussian elimination. Rows are swapped and added in both halves, so the solutions stay the same; the first
     `i` rows end up in echelon form and the others zero. Rows that have become propagating are collected.
     */
    method Eliminate(iterativeReduce: bool) returns (i: nat, ghost j: nat, ghost until: nat)
      requires MatrixOk() && AllLinked(matrix.rows, done) && ChangesOk() && propagatableRows == []
      requires leastColumnChanged != UNCHANGED ==> Ready(iterativeReduce)
      modifies matrix`rows, matrix.mp, `propagatableRows, `firstOneInRow, `lastOneInCol, `leastColumnChanged, `seen2,
        `changedRows
      ensures MatrixOk() && ChangesOk() && leastColumnChanged == UNCHANGED && i <= numRows && |seen2| == |old(seen2)|
      ensures old(leastColumnChanged) == UNCHANGED ==>
        && i == numRows && propagatableRows == [] && matrix.rows == old(matrix.rows)
        && seen2 == old(seen2) && changedRows == old(changedRows) && firstOneInRow == old(firstOneInRow)
          && lastOneInCol == old(lastOneInCol)
      ensures old(leastColumnChanged) != UNCHANGED ==>
        && changedRows == [] && NoneSeen(seen2)
        && ElimNow(i, j) && (i == numRows || j >= numCols)
        && Follows(old(matrix.rows), matrix.rows, matrix.Width(), done)
        && until == old(Kept(iterativeReduce)) && SameUpTo(old(matrix.rows), matrix.rows, until)
        && PropsOk(matrix.rows, firstOneInRow, propagatableRows, i, until, old(seen2))
    {
      hide Rep, PropsOk, Follows, Elim, FreshStart, Resumable, NoneSeen;
      i, j, until := 0, 0, 0;
      if leastColumnChanged == UNCHANGED {
        return numRows, 0, 0;
      }
      ghost var rows0, width, free := matrix.rows, matrix.Width(), FreeCols(colToVar);
      ghost var seen0 := seen2;
      StartFacts(rows0, width, free, numCols, lastOneInCol, firstOneInRow, leastColumnChanged,
        Resumes(iterativeReduce));
      FollowsSame(rows0, width, done);
      var col := if iterativeReduce then leastColumnChanged + 1 else 0;
      if col != 0 {
        StartResumed(rows0, width, free, numCols, lastOneInCol, firstOneInRow, leastColumnChanged);
        var end := if lastOneInCol[leastColumnChanged] - 1 < numRows then lastOneInCol[leastColumnChanged] - 1
          else numRows;
        if col - 1 > firstOneInRow[numRows - 1] {
          end := numRows;
        }
        until := end;
        ElimStairs(rows0, width, free, numCols, lastOneInCol, firstOneInRow, end, col);
        LookAgain(end);
        i := end;
      } else {
        StartFresh(rows0, width, free, numCols, lastOneInCol, firstOneInRow);
        NoProps(rows0, firstOneInRow, seen0);
      }
      ForgetChanges();
      i, j := EliminateColumns(i, col, rows0, until, seen0);
      leastColumnChanged := UNCHANGED;
    }

    /** The elimination loop; a column past the end goes straight to the finish. */
    method EliminateColumns(i0: nat, j0: nat, ghost rows0: seq<Row>, ghost until: nat, ghost seen0: seq<bool>)
      returns (i: nat, j: nat)
      requires MatrixOk() && ElimNow(i0, j0) && until <= i0
      requires Follows(rows0, matrix.rows, matrix.Width(), done)
        && PropsOk(matrix.rows, firstOneInRow, propagatableRows, i0, until, seen0)
      modifies matrix`rows, matrix.mp, `propagatableRows, `firstOneInRow, `lastOneInCol
      ensures MatrixOk() && ElimNow(i, j) && i <= numRows && (i == numRows || j >= numCols)
        && SameUpTo(old(matrix.rows), matrix.rows, until)
      ensures Follows(rows0, matrix.rows, matrix.Width(), done)
        && PropsOk(matrix.rows, firstOneInRow, propagatableRows, i, until, seen0)
    {
      hide Rep, PropsOk, Follows;
      i, j := i0, j0;
      if j <= numCols {
        while i < numRows && j < numCols
          invariant MatrixOk() && ElimNow(i, j) && until <= i && SameUpTo(old(matrix.rows), matrix.rows, until)
          invariant Follows(rows0, matrix.rows, matrix.Width(), done)
            && PropsOk(matrix.rows, firstOneInRow, propagatableRows, i, until, seen0)
          decreases numCols - j
        {
          i := EliminateColumn(i, j, rows0, until, seen0);
          j := j + 1;
        }
      }
    }

    // ----- conflicts and propagations -----

    /** The clause of the original half of a row; `ok` says whether the closing check passes. */
    method Fill(i: nat, a: Assigns) returns (clause: seq<Lit>, wasUndef: bool, ok: bool)
      requires MatrixOk() && i < numRows && DistinctVars(colToVarOriginal)
        && RowIn(matrix.rows[i].vars, colToVarOriginal)
      requires AtMostOneUndef(matrix.rows[i].vars, colToVarOriginal, a)
      ensures Filled(matrix.rows[i].vars, colToVarOriginal, a, clause, wasUndef)
      ensures ok <==> wasUndef || Violated(matrix.rows[i].vars, colToVarOriginal, a)
    {
      hide Rep, Filling, Filled, RowIn;
      ghost var h, order := matrix.rows[i].vars, colToVarOriginal;
      matrix.Widths();
      assert RowWide(matrix.rows[i], matrix.Width());
      var rhs := matrix.Rhs(i, true);
      var final := !rhs;
      clause, wasUndef := [], false;
      FillingStart(rhs, order, a);
      assert h.bits[..0] == [];
      for col := 0 to matrix.Width()
        invariant Filling(h.bits[..col], rhs, order, a, clause, wasUndef, final)
      {
        var b := matrix.At(i, true, col);
        assert h.bits[..col + 1] == h.bits[..col] + [b];
        if b {
          FillColumn(h, order, a, col, clause, wasUndef, final);
          var v := colToVarOriginal[col];
          clause := Pushed(clause, v, a);
          final := final != (v in a && a[v]);
          if v !in a {
            wasUndef := true;
          }
        } else {
          FillingSkip(h.bits[..col], rhs, order, a, clause, wasUndef, final);
        }
      }
      assert h.bits[..matrix.Width()] == h.bits;
      FillingDone(h, order, a, clause, wasUndef, final);
      if wasUndef {
        FillingFirst(h.bits, rhs, order, a, clause, final);
        clause := clause[0 := Lit(clause[0].v, clause[0].sign != final)];
      }
      ok := wasUndef || !final;
    }

    /** The highest level and the number of variables of a row, in the original half. */
    method Weigh(i: nat, levels: map<nat, nat>) returns (maxLevel: nat, size: nat)
      requires MatrixOk() && i < numRows && RowIn(matrix.rows[i].vars, colToVarOriginal)
      requires forall v :: v in colToVarOriginal ==> v in levels
      ensures (maxLevel, size) == Weight(matrix.rows[i].vars.bits, colToVarOriginal, levels)
    {
      hide Rep;
      ghost var bits := matrix.rows[i].vars.bits;
      matrix.Widths();
      assert RowWide(matrix.rows[i], matrix.Width());
      maxLevel, size := 0, 0;
      var col: nat := 0;
      while true
        invariant col <= matrix.Width() && (maxLevel, size) == Weight(bits[..col], colToVarOriginal, levels)
        decreases matrix.Width() - col
      {
        var next := matrix.Scan(i, col);
        if next == None {
          WeightZeros(bits, col, |bits|, colToVarOriginal, levels);
          assert bits[..|bits|] == bits;
          return;
        }
        WeightZeros(bits, col, next.value, colToVarOriginal, levels);
        assert bits[..next.value + 1][..next.value] == bits[..next.value];
        var v := colToVarOriginal[next.value];
        assert v in colToVarOriginal;
        if levels[v] > maxLevel {
          maxLevel := levels[v];
        }
        col := next.value + 1;
        size := size + 1;
      }
    }

    /**
     Among the conflicting rows one is chosen: the best so far is replaced by a row of lower highest level, or of
     the same level and fewer variables, and by any row of at most one variable.
     */
    method BestConflict(lastRow: nat, levels: map<nat, nat>) returns (best: Option<nat>)
      requires MatrixOk() && lastRow <= numRows
        && forall r {:trigger matrix.rows[r]} :: 0 <= r < numRows ==> RowIn(matrix.rows[r].vars, colToVarOriginal)
      requires forall v :: v in colToVarOriginal ==> v in levels
      ensures best.None? <==> forall r :: lastRow <= r < numRows ==> !matrix.rows[r].mat.rhs
      ensures best.Some? ==> lastRow <= best.value < numRows && matrix.rows[best.value].mat.rhs
      ensures best.Some? ==>
        Chosen(Candidates(matrix.rows[lastRow..numRows], colToVarOriginal, levels), best.value - lastRow)
    {
      hide Rep, RowIn, Weight, Chosen, Candidates;
      best := None;
      var maxLevel: nat, size: nat := 0, 0;
      ghost var cs: seq<Option<Load>> := [];
      for row := lastRow to numRows
        invariant cs == Candidates(matrix.rows[lastRow..row], colToVarOriginal, levels)
        invariant best.None? <==> forall r :: lastRow <= r < row ==> !matrix.rows[r].mat.rhs
        invariant best.None? ==> forall k {:trigger cs[k]} :: 0 <= k < |cs| ==> cs[k] == None
        invariant best.Some? ==>
          lastRow <= best.value < row && matrix.rows[best.value].mat.rhs && Chosen(cs, best.value - lastRow)
        invariant best.Some? ==> cs[best.value - lastRow] == Some((maxLevel, size))
      {
        CandidatesNext(matrix.rows[lastRow..row + 1], colToVarOriginal, levels);
        assert matrix.rows[lastRow..row + 1][..row - lastRow] == matrix.rows[lastRow..row];
        assert matrix.rows[lastRow..row + 1][row - lastRow] == matrix.rows[row];
        ghost var cs0 := cs;
        var conflicting := matrix.Rhs(row, false);
        if conflicting {
          assert RowIn(matrix.rows[row].vars, colToVarOriginal);
          var thisMaxLevel, thisSize := Weigh(row, levels);
          cs := cs + [Some((thisMaxLevel, thisSize))];
          if best == None {
            FirstChosen(cs0, (thisMaxLevel, thisSize));
          } else {
            NextChosen(cs0, best.value - lastRow, (thisMaxLevel, thisSize));
          }
          if best == None || thisMaxLevel < maxLevel || (thisMaxLevel == maxLevel && thisSize < size) || thisSize <= 1 {
            maxLevel, size, best := thisMaxLevel, thisSize, Some(row);
          }
        } else {
          cs := cs + [None];
          if best.Some? {
            StillChosen(cs0, best.value - lastRow, None);
          }
        }
      }
    }

    // ----- a whole round -----

    /** The state between two rounds. */
    ghost predicate Between()
      reads this, matrix, matrix.mp
    {
      && Base() && ChangesOk() && changedRows == [] && NoneSeen(seen2)
      && Rested(matrix.rows, matrix.Width(), FreeCols(colToVar), numCols, lastOneInCol, firstOneInRow,
        leastColumnChanged)
    }

    /** No variable of a column still free has a value. */
    ghost predicate AllSubstituted(a: Assigns)
      reads `colToVar
    {
      forall c: nat {:trigger colToVar[c]} ::
        c < |colToVar| && c < |colToVarOriginal| && colToVar[c].Some? ==> colToVarOriginal[c] !in a
    }

    /** The columns of assigned variables are substituted, and elimination has what it needs. */
    method Substitute(a: Assigns, iterativeReduce: bool, ghost before: seq<Row>)
      requires Between() && Agrees(a) && (iterativeReduce && leastColumnChanged == UNCHANGED ==> numRows >= 1)
        && before == matrix.rows
      modifies matrix`rows, matrix.mp, `seen2, `changedRows, `leastColumnChanged, `colToVar, `done, `numCols,
        `lastOneInCol
      ensures Base() && ChangesOk() && Agrees(a) && AllSubstituted(a) && SeenOk(before, matrix.rows, seen2)
        && numRows <= |seen2| == |old(seen2)|
      ensures Clean(matrix.rows, FreeCols(colToVar))
      ensures old(leastColumnChanged) == -1 ==> leastColumnChanged == -1
      ensures leastColumnChanged != UNCHANGED ==> Ready(iterativeReduce)
      ensures leastColumnChanged == UNCHANGED ==>
        && changedRows == [] && NoneSeen(seen2)
        && Reduced(matrix.rows, matrix.Width(), FreeCols(colToVar), numCols, lastOneInCol, firstOneInRow)
    {
      hide Rep, Untouched, Reduced, Clamped, FreshStart, Resumable, Cleared, SeenOk, Meaning, AllLinked;
      ghost var width, free0, least0, cols0, last0 :=
        matrix.Width(), FreeCols(colToVar), leastColumnChanged, numCols, lastOneInCol;
      UpdateLastOneInCol();
      ghost var last, first := lastOneInCol, firstOneInRow;
      if leastColumnChanged == -1 {
        ClampUntouched(before, width, free0, cols0, last0, first, last);
      } else {
        ClampReduced(before, width, free0, cols0, last0, first, last);
      }
      UpdateMatrixByColAll(a);
      FreshFacts(before, width, free0, cols0, last, first);
      forall c | numCols <= c < cols0
        ensures c < |colToVar| && !FreeCols(colToVar)[c]
      {
        assert colToVar[c] == None;
      }
      UpdateReady(before, width, free0, cols0, last, first, matrix.rows, FreeCols(colToVar), numCols, least0,
        leastColumnChanged);
    }

    /** `set_matrixset_to_cur`: the current matrix, to be kept. */
    method CurrentSet() returns (s: MatrixSet)
      requires Between()
      ensures SetOk(s, original, colToVarOriginal) && s.rowCount == numRows && s.numCols == numCols && s.done == done
        && s.rows == matrix.rows
    {
      hide Rep, Rested, Meaning, AllLinked, TablesFit;
      s :=
        MatrixSet(matrix.mp[..], numRows, matrix.numCols, numCols, leastColumnChanged, colToVar, lastOneInCol,
        firstOneInRow, matrix.rows, done);
    }

    /** The matrix kept for a level becomes the current one. */
    method Restore(s: MatrixSet)
      requires MatrixOk() && ChangesOk() && changedRows == [] && NoneSeen(seen2)
      requires SetOk(s, original, colToVarOriginal) && s.rowCount <= |seen2|
      modifies this, matrix, matrix.mp
      ensures Between() && numRows == s.rowCount && numCols == s.numCols && done == s.done && seen2 == old(seen2)
        && matrix.rows == s.rows
      ensures leastColumnChanged == s.leastColumnChanged && (matrix.mp == old(matrix.mp) || fresh(matrix.mp))
    {
      hide Rep, Rested, Meaning, AllLinked, TablesFit;
      matrix.Load(s.words, s.rowCount, s.colCount, s.rows);
      numRows := s.rowCount;
      numCols := s.numCols;
      leastColumnChanged := s.leastColumnChanged;
      colToVar := s.colToVar;
      lastOneInCol := s.lastOneInCol;
      firstOneInRow := s.firstOneInRow;
      done := s.done;
    }

    /** What becomes of a row: no variable without a value, or the one that is left. */
    lemma RowUndef(a: Assigns, r: nat)
      requires MatrixOk() && Tables() && Agrees(a) && AllSubstituted(a) && r < numRows && AllLinked(matrix.rows, done)
      requires Clean(matrix.rows, FreeCols(colToVar))
      ensures RowIn(matrix.rows[r].vars, colToVarOriginal)
      ensures forall k: nat {:trigger UndefAt(matrix.rows[r].vars, colToVarOriginal, a, k)} ::
        UndefAt(matrix.rows[r].vars, colToVarOriginal, a, k) <==> One(matrix.rows, r, k)
    {
      ghost var row, order := matrix.rows[r], colToVarOriginal;
      assert Linked(row, done);
      forall k: nat | k < |row.vars.bits|
        ensures row.vars.bits[k] ==> k < |order|
        ensures UndefAt(row.vars, order, a, k) <==> One(matrix.rows, r, k)
      {
        assert One(matrix.rows, r, k) <==> row.vars.bits[k] && k !in done;
        if row.vars.bits[k] && k in done {
          assert k < |order| && order[k] in a;
        }
        if k < |order| {
          assert colToVar[k] == if k in done then None else Some(order[k]);
        }
      }
    }

    /** A zero row with a one on the right is violated by the current assignment. */
    lemma ZeroRowViolated(a: Assigns, r: nat)
      requires MatrixOk() && Tables() && Agrees(a) && AllSubstituted(a) && r < numRows && AllLinked(matrix.rows, done)
      requires Clean(matrix.rows, FreeCols(colToVar)) && matrix.rows[r].mat.rhs
        && forall k: nat {:trigger One(matrix.rows, r, k)} :: !One(matrix.rows, r, k)
      ensures Violated(matrix.rows[r].vars, colToVarOriginal, a)
    {
      ghost var row, order := matrix.rows[r], colToVarOriginal;
      RowUndef(a, r);
      assert Linked(row, done);
      forall k: nat | k < |row.vars.bits| && row.vars.bits[k]
        ensures k in TruthCols(a, order) <==> k in TrueCols(done)
      {
        assert !One(matrix.rows, r, k);
        assert k in done;
      }
      ParitySame(row.vars.bits, TruthCols(a, order), TrueCols(done));
    }

    /** The clause of a conflicting row: false, and a consequence of the original rows. */
    method ConflictClause(row: nat, a: Assigns) returns (clause: seq<Lit>)
      requires Base() && Agrees(a) && AllSubstituted(a) && Clean(matrix.rows, FreeCols(colToVar))
      requires row < numRows && matrix.rows[row].mat.rhs
        && forall k: nat {:trigger One(matrix.rows, row, k)} :: !One(matrix.rows, row, k)
      ensures (forall i {:trigger clause[i]} :: 0 <= i < |clause| ==> FalseIn(a, clause[i]))
        && ClauseFollows(original, colToVarOriginal, clause)
      ensures VarsIn(clause, colToVarOriginal)
    {
      RowUndef(a, row);
      ZeroRowViolated(a, row);
      var wasUndef, ok;
      clause, wasUndef, ok := Fill(row, a);
      ghost var h, order := matrix.rows[row].vars, colToVarOriginal;
      assert !wasUndef by {
        assert forall k: nat {:trigger UndefAt(h, order, a, k)} :: UndefAt(h, order, a, k) ==> One(matrix.rows, row, k);
      }
      RowFollows(original, matrix.rows, done, row, order, a, clause, false);
      FilledVars(h, order, a, clause, false);
    }

    /** The clauses of the propagating rows, under the assignment extended with what has been propagated before. */
    method PropagateRows(a: Assigns, decisionLevel: nat) returns (clauses: seq<seq<Lit>>)
      requires Base() && Agrees(a) && AllSubstituted(a) && Clean(matrix.rows, FreeCols(colToVar))
      requires Stairs(matrix.rows, firstOneInRow, numRows)
        && RowsToPropagate(matrix.rows, firstOneInRow, propagatableRows)
      ensures PropagatedBy(matrix.rows, colToVarOriginal, a, propagatableRows, clauses)
      ensures |clauses| == |propagatableRows| || (decisionLevel != 0 && |clauses| > 0 && |clauses[|clauses| - 1]| == 1)
      ensures decisionLevel != 0 ==> forall q {:trigger clauses[q]} :: 0 <= q < |clauses| - 1 ==> |clauses[q]| != 1
      ensures HeadsNew(clauses, colToVarOriginal, a)
      ensures forall q {:trigger clauses[q]} ::
        0 <= q < |clauses| ==> ClauseFollows(original, colToVarOriginal, clauses[q])
    {
      hide Rep, Meaning, AllLinked, Filled, AtMostOneUndef, ClauseFollows, RowIn, Linked, HeadsNew, HeadsSet;
      var a': Assigns := a;
      clauses := [];
      NoHeads(colToVarOriginal, a);
      ghost var order := colToVarOriginal;
      for n := 0 to |propagatableRows|
        invariant |clauses| == n && PropagatedBy(matrix.rows, order, a, propagatableRows, clauses)
        invariant forall q {:trigger clauses[q]} :: 0 <= q < |clauses| ==> ClauseFollows(original, order, clauses[q])
        invariant Heads(order, firstOneInRow, a, a', propagatableRows, n)
        invariant HeadsNew(clauses, order, a) && HeadsSet(clauses, a')
        invariant decisionLevel != 0 ==> forall q {:trigger clauses[q]} :: 0 <= q < |clauses| ==> |clauses[q]| != 1
      {
        var r := propagatableRows[n];
        assert r in propagatableRows;
        RowUndef(a, r);
        ghost var u, h := firstOneInRow[r], matrix.rows[r].vars;
        OneUndef(matrix.rows, firstOneInRow, numRows, order, a, a', propagatableRows, n, FreeCols(colToVar));
        var clause, wasUndef, ok := Fill(r, a');
        FilledUndef(h, order, a', clause, wasUndef, u);
        FilledBefore(h, order, a, a', clause, u);
        OnlyOneUndef(h, order, a, u);
        RowFollows(original, matrix.rows, done, r, order, a, clause, true);
        HeadIs(h, order, a, clause, u);
        HeadNext(clauses, order, a, a', clause, u);
        a' := a'[clause[0].v := !clause[0].sign];
        clauses := clauses + [clause];
        if |clause| == 1 && decisionLevel != 0 {
          return;
        }
      }
    }

    /**
     The zero rows are looked at for conflicts; without one they are dropped and the propagating rows are read off.
     */
    method HandleMatrixPropAndConfl(a: Assigns, lastRow: nat, levels: map<nat, nat>, decisionLevel: nat, ghost j: nat)
      returns (r: GaussRet)
      requires Base() && Agrees(a) && AllSubstituted(a) && Clean(matrix.rows, FreeCols(colToVar)) && lastRow <= numRows
      requires forall v :: v in colToVarOriginal ==> v in levels
      requires Reduced(matrix.rows[..lastRow], matrix.Width(), FreeCols(colToVar), numCols, lastOneInCol, firstOneInRow)
      requires forall q: nat, c: nat {:trigger One(matrix.rows, q, c)} :: q >= lastRow ==> !One(matrix.rows, q, c)
      requires RowsToPropagate(matrix.rows[..lastRow], firstOneInRow, propagatableRows)
      modifies matrix`rows, matrix`numRows, `numRows
      ensures ResultOk(r, a, decisionLevel) && Base()
      ensures numRows <= old(numRows)
        && (r.Propagated? ==> numRows == lastRow && matrix.rows == old(matrix.rows)[..lastRow])
    {
      hide Rep, Reduced, Meaning, AllLinked, Clean, RowsToPropagate, PropagatedBy, ClauseFollows;
      forall q {:trigger matrix.rows[q]} | 0 <= q < numRows
        ensures RowIn(matrix.rows[q].vars, colToVarOriginal)
      {
        RowUndef(a, q);
      }
      var best := BestConflict(lastRow, levels);
      if best.Some? {
        var clause := ConflictClause(best.value, a);
        return Conflict(clause);
      }
      MeaningDrop(original, matrix.rows, lastRow, done);
      LinkedPrefix(matrix.rows, lastRow, done);
      ReducedFacts(matrix.rows[..lastRow], matrix.Width(), FreeCols(colToVar), numCols, lastOneInCol, firstOneInRow);
      matrix.ResizeNumRows(lastRow);
      numRows := lastRow;
      var clauses := PropagateRows(a, decisionLevel);
      r := Propagated(clauses);
    }

    /** What a round reports. */
    ghost predicate ResultOk(r: GaussRet, a: Assigns, decisionLevel: nat)
      reads this, matrix
    {
      match r
      case Conflict(clause) =>
        && (forall i {:trigger clause[i]} :: 0 <= i < |clause| ==> FalseIn(a, clause[i]))
          && VarsIn(clause, colToVarOriginal)
        && ClauseFollows(original, colToVarOriginal, clause)
      case Propagated(clauses) =>
        && PropagatedBy(matrix.rows, colToVarOriginal, a, propagatableRows, clauses)
          && HeadsNew(clauses, colToVarOriginal, a)
        && (forall q {:trigger clauses[q]} ::
          0 <= q < |clauses| ==> ClauseFollows(original, colToVarOriginal, clauses[q]))
        && (|clauses| == |propagatableRows| || (decisionLevel != 0 && |clauses| > 0 && |clauses[|clauses| - 1]| == 1))
    }

    /** Substitution and elimination: the first `lastRow` rows are in echelon form, the others zero. */
    method Reduce(a: Assigns, iterativeReduce: bool) returns (lastRow: nat, ghost j: nat)
      requires Between() && Agrees(a) && (iterativeReduce && leastColumnChanged == UNCHANGED ==> numRows >= 1)
      modifies this, matrix`rows, matrix.mp
      ensures Base() && Agrees(a) && AllSubstituted(a) && leastColumnChanged == UNCHANGED && lastRow <= numRows
      ensures ChangesOk() && changedRows == [] && NoneSeen(seen2) && |seen2| == |old(seen2)|
      ensures Clean(matrix.rows, FreeCols(colToVar))
        && forall q: nat, c: nat {:trigger One(matrix.rows, q, c)} :: q >= lastRow ==> !One(matrix.rows, q, c)
      ensures Reduced(matrix.rows[..lastRow], matrix.Width(), FreeCols(colToVar), numCols, lastOneInCol, firstOneInRow)
      ensures RowsToPropagate(matrix.rows[..lastRow], firstOneInRow, propagatableRows)
      ensures old(leastColumnChanged) == -1 || old(AllCarriedOut(matrix.rows, colToVarOriginal, a)) ==>
        forall q: nat :: q in propagatableRows <==> q < lastRow && exists c: nat :: Single(matrix.rows[..lastRow], q, c)
    {
      hide Rep, Untouched, Reduced, Resumable, FreshStart, Elim, PropsOk, Follows, SeenOk, Meaning, AllLinked,
        PropagatedBy, ClauseFollows, Stairs, Clean, SameUpTo, AllCarriedOut, RowsToPropagate;
      ghost var before := matrix.rows;
      Substitute(a, iterativeReduce, before);
      propagatableRows := [];
      ghost var mid, seen, least := matrix.rows, seen2, leastColumnChanged;
      ghost var until;
      lastRow, j, until := Eliminate(iterativeReduce);
      ghost var after := matrix.rows;
      if least != UNCHANGED {
        EliminatedOk(original, mid, after, done, matrix.Width(), FreeCols(colToVar), numCols, lastOneInCol,
          firstOneInRow, lastRow, j, propagatableRows, until, seen);
        Complete(before, mid, after, seen, FreeCols(colToVar), colToVarOriginal, a, firstOneInRow, lastRow,
          propagatableRows, until);
      } else {
        NothingDone(after, matrix.Width(), FreeCols(colToVar), numCols, lastOneInCol, firstOneInRow);
        CompleteUnchanged(before, mid, seen, FreeCols(colToVar), colToVarOriginal, a);
      }
    }

    /**
     A round: assigned columns are substituted, the matrix is reduced, and conflicts and propagations are read
     off. If there is no conflict the state is again one between rounds, its rows still stand for the original
     ones, and, if the last round's propagations have been carried out, the rows with a single unassigned
     variable are exactly those collected.
     */
    method PerformGauss(a: Assigns, levels: map<nat, nat>, decisionLevel: nat, iterativeReduce: bool)
      returns (r: GaussRet)
      requires Between() && Agrees(a) && (iterativeReduce && leastColumnChanged == UNCHANGED ==> numRows >= 1)
      requires forall v :: v in colToVarOriginal ==> v in levels
      modifies this, matrix`rows, matrix`numRows, matrix.mp
      ensures ResultOk(r, a, decisionLevel) && Base() && Agrees(a) && AllSubstituted(a)
      ensures ChangesOk() && changedRows == [] && NoneSeen(seen2) && |seen2| == |old(seen2)|
      ensures r.Propagated? ==> Between() && leastColumnChanged == UNCHANGED
      ensures r.Propagated? && (old(leastColumnChanged) == -1 || old(AllCarriedOut(matrix.rows, colToVarOriginal, a)))
        ==>
        forall q: nat :: q in propagatableRows <==> q < numRows && exists c: nat :: Single(matrix.rows, q, c)
    {
      hide Rep, Untouched, Reduced, Meaning, AllLinked, PropagatedBy, ClauseFollows, Clean, AllCarriedOut,
        RowsToPropagate, NoneSeen;
      var lastRow, j := Reduce(a, iterativeReduce);
      r := HandleMatrixPropAndConfl(a, lastRow, levels, decisionLevel, j);
    }
  }

  lemma SingleRow(rows: seq<Row>, r: nat, c: nat, width: nat)
    requires r < |rows| && RowWide(rows[r], width) && c < width
    ensures Single(rows, r, c) <==> forall k :: 0 <= k < width ==> (rows[r].mat.bits[k] <==> k == c)
  {
    if Single(rows, r, c) {
      forall k: nat | k < width
        ensures rows[r].mat.bits[k] <==> k == c
      {
        assert One(rows, r, k) <==> k == c;
      }
    }
  }

  /** The row has exactly one one, in column `c`. */
  ghost predicate Single(rows: seq<Row>, r: nat, c: nat) {
    forall k: nat {:trigger One(rows, r, k)} :: One(rows, r, k) <==> k == c
  }

  /** The rows pushed so far: those with a single one, except unchanged rows from before the resumption. */
  ghost predicate PropsOk(rows: seq<Row>, first: seq<nat>, props: seq<nat>, i: nat, until: nat, seen: seq<bool>) {
    && i <= |rows| <= |first|
    && (forall r: nat {:trigger r in props} ::
      r in props <==> r < i && Single(rows, r, first[r]) && (r >= until || (r < |seen| && seen[r])))
    && forall a, b {:trigger props[a], props[b]} :: 0 <= a < b < |props| ==> props[a] < props[b]
  }

  /** The first `n` rows are the same. */
  ghost predicate SameUpTo(rows: seq<Row>, rows': seq<Row>, n: nat) {
    forall r: nat {:trigger rows'[r]} :: r < n && r < |rows'| ==> r < |rows| && rows'[r] == rows[r]
  }

  lemma EliminatedAbove(rows: seq<Row>, i: nat, p: nat, j: nat, end: nat, width: nat, until: nat)
    requires i <= p < |rows| && AllWide(rows, width) && until <= i
    ensures SameUpTo(rows, Eliminated(rows, i, p, j, end, width), until)
  {
    forall r: nat | r < until
      ensures Eliminated(rows, i, p, j, end, width)[r] == rows[r]
    {
      EliminatedAt(rows, i, p, j, end, width, r);
    }
  }

  lemma PropsSame(rows: seq<Row>, first: seq<nat>, props: seq<nat>, i: nat, until: nat, seen: seq<bool>,
                  first': seq<nat>)
    requires PropsOk(rows, first, props, i, until, seen) && |first'| == |first|
      && forall r :: 0 <= r < i ==> first'[r] == first[r]
    ensures PropsOk(rows, first', props, i, until, seen)
  {
    hide Single;
  }

  lemma SingleStays(rows: seq<Row>, rows': seq<Row>, r: nat, c: nat)
    requires r < |rows| == |rows'| && rows'[r] == rows[r]
    ensures Single(rows', r, c) <==> Single(rows, r, c)
  {
    assert forall k: nat {:trigger One(rows, r, k)} {:trigger One(rows', r, k)} ::
      One(rows', r, k) <==> One(rows, r, k);
    if Single(rows, r, c) {
      forall k: nat
        ensures One(rows', r, k) <==> k == c
      {
        assert One(rows, r, k) <==> k == c;
      }
    }
    if Single(rows', r, c) {
      forall k: nat
        ensures One(rows, r, k) <==> k == c
      {
        assert One(rows', r, k) <==> k == c;
      }
    }
  }

  lemma FillColumn(h: Half, order: seq<nat>, a: Assigns, col: nat, clause: seq<Lit>, wasUndef: bool, final: bool)
    requires DistinctVars(order) && RowIn(h, order) && AtMostOneUndef(h, order, a) && col < |h.bits| && h.bits[col]
    requires Filling(h.bits[..col], h.rhs, order, a, clause, wasUndef, final)
    ensures col < |order| && (wasUndef ==> order[col] in a)
    ensures Filling(h.bits[..col] + [true], h.rhs, order, a, Pushed(clause, order[col], a), wasUndef
      || order[col] !in a, final != (order[col] in a && a[order[col]]))
  {
    if wasUndef {
      var k: nat :| UndefAt(Half(h.bits[..col], h.rhs), order, a, k);
      assert UndefAt(h, order, a, k);
      assert UndefAt(h, order, a, col) ==> k == col;
    }
    FillingNext(h.bits[..col], h.rhs, order, a, clause, wasUndef, final);
  }

  lemma FillingFirst(bits: seq<bool>, rhs: bool, order: seq<nat>, a: Assigns, clause: seq<Lit>, final: bool)
    requires Filling(bits, rhs, order, a, clause, true, final)
    ensures |clause| > 0
  {
  }

  /** The highest level of the variables of a row, and their number. */
  ghost function Weight(bits: seq<bool>, order: seq<nat>, levels: map<nat, nat>): (nat, nat) {
    if bits == [] then (0, 0)
    else
      var n := |bits| - 1;
      var w := Weight(bits[..n], order, levels);
      if bits[n] && n < |order| && order[n] in levels then
        (if levels[order[n]] > w.0 then levels[order[n]] else w.0, w.1 + 1)
      else w
  }

  lemma {:induction false} WeightZeros(bits: seq<bool>, from: nat, to: nat, order: seq<nat>, levels: map<nat, nat>)
    requires from <= to <= |bits| && forall k :: from <= k < to ==> !bits[k]
    ensures Weight(bits[..to], order, levels) == Weight(bits[..from], order, levels)
  {
    if from < to {
      WeightZeros(bits, from, to - 1, order, levels);
      assert bits[..to][..to - 1] == bits[..to - 1];
    }
  }

  // ----- the conflicting row chosen -----

  /** The highest level among the variables of a row, and how many variables it has. */
  type Load = (nat, nat)

  predicate AtLeastAsGood(x: Load, y: Load) {
    x.0 < y.0 || (x.0 == y.0 && x.1 <= y.1)
  }

  /** The loads of the conflicting rows; `None` for a row that is not in conflict. */
  ghost function Candidates(rows: seq<Row>, order: seq<nat>, levels: map<nat, nat>): (cs: seq<Option<Load>>)
    ensures |cs| == |rows|
    ensures forall k {:trigger cs[k]} ::
      0 <= k < |rows| ==> cs[k] == if rows[k].mat.rhs then Some(Weight(rows[k].vars.bits, order, levels)) else None
  {
    seq(|rows|, k requires 0 <= k < |rows| => if rows[k].mat.rhs then Some(Weight(rows[k].vars.bits, order, levels))
      else None)
  }

  lemma CandidatesNext(rows: seq<Row>, order: seq<nat>, levels: map<nat, nat>)
    requires rows != []
    ensures var n := |rows| - 1;
      Candidates(rows, order, levels) == Candidates(rows[..n], order, levels) + [if rows[n].mat.rhs then
        Some(Weight(rows[n].vars.bits, order, levels)) else None]
  {
    hide Weight;
  }

  predicate Short(c: Option<Load>) {
    c.Some? && c.value.1 <= 1
  }

  /** The place of the last candidate with at most one variable; zero without one. */
  function LastShort(cs: seq<Option<Load>>): (f: nat)
    ensures f == 0 || (f < |cs| && Short(cs[f]))
    ensures forall k {:trigger cs[k]} :: f < k < |cs| ==> !Short(cs[k])
    ensures f == 0 && |cs| > 0 && !Short(cs[0]) ==> forall k {:trigger cs[k]} :: 0 <= k < |cs| ==> !Short(cs[k])
  {
    if cs == [] then 0 else if Short(cs[|cs| - 1]) then |cs| - 1 else LastShort(cs[..|cs| - 1])
  }

  /** The first of the best among the candidates from the last short one on. */
  ghost predicate Chosen(cs: seq<Option<Load>>, b: nat) {
    && LastShort(cs) <= b < |cs| && cs[b].Some?
    && (forall k {:trigger cs[k]} ::
      LastShort(cs) <= k < |cs| && cs[k].Some? ==> AtLeastAsGood(cs[b].value, cs[k].value))
    && forall k {:trigger cs[k]} :: LastShort(cs) <= k < b && cs[k].Some? ==> !AtLeastAsGood(cs[k].value, cs[b].value)
  }

  /** That leaves no choice. */
  lemma ChosenUnique(cs: seq<Option<Load>>, b: nat, b': nat)
    requires Chosen(cs, b) && Chosen(cs, b')
    ensures b == b'
  {
    assert cs[b].Some? && cs[b'].Some?;
  }

  /** Each candidate before the last short one is matched by one from there on. */
  ghost predicate EarlierMatched(cs: seq<Option<Load>>) {
    forall k {:trigger cs[k]} :: 0 <= k < LastShort(cs) && cs[k].Some? ==> MatchedLater(cs, cs[k].value)
  }

  ghost predicate MatchedLater(cs: seq<Option<Load>>, w: Load) {
    exists q: nat {:trigger cs[q]} :: LastShort(cs) <= q < |cs| && cs[q].Some? && AtLeastAsGood(cs[q].value, w)
  }

  ghost predicate BestOfAll(cs: seq<Option<Load>>, q: nat) {
    q < |cs| && cs[q].Some?
      && forall k {:trigger cs[k]} :: 0 <= k < |cs| && cs[k].Some? ==> AtLeastAsGood(cs[q].value, cs[k].value)
  }

  /** The candidate chosen is best of all exactly if none before the last short one beats all that come after. */
  lemma BestIffLate(cs: seq<Option<Load>>, b: nat)
    requires Chosen(cs, b)
    ensures BestOfAll(cs, b) <==> EarlierMatched(cs)
    ensures (forall k {:trigger cs[k]} :: 0 <= k < |cs| ==> !Short(cs[k])) ==> BestOfAll(cs, b)
  {
    if EarlierMatched(cs) {
      forall k | 0 <= k < |cs| && cs[k].Some?
        ensures AtLeastAsGood(cs[b].value, cs[k].value)
      {
        if k < LastShort(cs) {
          assert MatchedLater(cs, cs[k].value);
          var q: nat :| LastShort(cs) <= q < |cs| && cs[q].Some? && AtLeastAsGood(cs[q].value, cs[k].value);
          assert AtLeastAsGood(cs[b].value, cs[q].value);
        }
      }
    }
    if BestOfAll(cs, b) {
      forall k | 0 <= k < LastShort(cs) && cs[k].Some?
        ensures MatchedLater(cs, cs[k].value)
      {
        assert AtLeastAsGood(cs[b].value, cs[k].value);
      }
    }
  }

  lemma FirstChosen(cs: seq<Option<Load>>, w: Load)
    requires forall k {:trigger cs[k]} :: 0 <= k < |cs| ==> cs[k] == None
    ensures Chosen(cs + [Some(w)], |cs|)
  {
    assert (cs + [Some(w)])[..|cs|] == cs;
  }

  lemma NewChosen(cs: seq<Option<Load>>, b: nat, w: Load)
    requires Chosen(cs, b) && (w.1 <= 1 || !AtLeastAsGood(cs[b].value, w))
    ensures Chosen(cs + [Some(w)], |cs|)
  {
    var cs' := cs + [Some(w)];
    assert cs'[..|cs|] == cs;
    if w.1 > 1 {
      forall k | LastShort(cs) <= k < |cs| && cs'[k].Some?
        ensures !AtLeastAsGood(cs'[k].value, w)
      {
        assert AtLeastAsGood(cs[b].value, cs[k].value);
      }
    }
  }

  lemma NextChosen(cs: seq<Option<Load>>, b: nat, w: Load)
    requires Chosen(cs, b)
    ensures cs[b].Some? && Chosen(cs + [Some(w)], if w.1 <= 1 || !AtLeastAsGood(cs[b].value, w) then |cs| else b)
  {
    assert cs[b].Some?;
    if w.1 <= 1 || !AtLeastAsGood(cs[b].value, w) {
      NewChosen(cs, b, w);
    } else {
      StillChosen(cs, b, Some(w));
    }
  }

  lemma StillChosen(cs: seq<Option<Load>>, b: nat, c: Option<Load>)
    requires Chosen(cs, b) && !Short(c) && (c.Some? ==> AtLeastAsGood(cs[b].value, c.value))
    ensures Chosen(cs + [c], b)
  {
    assert (cs + [c])[..|cs|] == cs;
  }

  /** A row of two variables at level 3 loses to a row of one variable at level 5 that comes later. */
  lemma ShortTakesOver() returns (rows: seq<Row>, order: seq<nat>, levels: map<nat, nat>)
    ensures |rows| == 2 && rows[0].mat.rhs && rows[1].mat.rhs && |rows[0].vars.bits| == |rows[1].vars.bits| == |order|
    ensures var cs := Candidates(rows, order, levels);
      cs == [Some((3, 2)), Some((5, 1))] && Chosen(cs, 1) && !BestOfAll(cs, 1) && !EarlierMatched(cs)
  {
    var none := [false, false, false];
    var first, second := [true, true, false], [false, false, true];
    rows := [Row(Half(none, true), Half(first, true)), Row(Half(none, true), Half(second, false))];
    order, levels := [0, 1, 2], map[0 := 3, 1 := 1, 2 := 5];
    LoadOfThree(first, order, levels);
    LoadOfThree(second, order, levels);
    var cs := Candidates(rows, order, levels);
    assert cs[0] == Some((3, 2)) && cs[1] == Some((5, 1));
    assert cs == [Some((3, 2)), Some((5, 1))];
  }

  lemma LoadOfThree(bits: seq<bool>, order: seq<nat>, levels: map<nat, nat>)
    requires |bits| == 3 && order == [0, 1, 2] && levels == map[0 := 3, 1 := 1, 2 := 5]
    ensures bits == [true, true, false] ==> Weight(bits, order, levels) == (3, 2)
    ensures bits == [false, false, true] ==> Weight(bits, order, levels) == (5, 1)
  {
    assert bits[..2][..1] == bits[..1] && bits[..1][..0] == [];
    assert Weight([], order, levels) == (0, 0);
    assert Weight(bits[..1], order, levels) == if bits[0] then (3, 1) else (0, 0);
    assert Weight(bits[..2], order, levels) == if bits[0] then (if bits[1] then (3, 2) else (3, 1)) else if bits[1] then
      (1, 1) else (0, 0);
  }

  /** What substitution leaves behind is what elimination starts from. */
  lemma UpdateReady(rows0: seq<Row>, width: nat, free0: seq<bool>, cols0: nat, last: seq<nat>, first: seq<nat>,
                    rows: seq<Row>, free: seq<bool>, cols: nat, least0: int, least: int)
    requires FreshStart(rows0, width, free0, cols0, last, first) && Cleared(rows0, rows, width, free0, free)
    requires cols <= cols0 && forall c :: cols <= c < cols0 ==> c < |free| && !free[c]
    requires LeastOk(least0, least, free0, free) && |free| < MAX_COUNT && (least0 == -1 || least0 == UNCHANGED)
    requires least0 == UNCHANGED ==> Stairs(rows0, first, |rows0|) && ExactToLast(rows0, free0, last, first)
    ensures FreshStart(rows, width, free, cols, last, first) && Clean(rows, free)
    ensures least0 == UNCHANGED && least != UNCHANGED && |rows| >= 1 ==>
      0 <= least < |free| && Resumable(rows, width, free, cols, last, first, least)
    ensures least == UNCHANGED ==> Reduced(rows, width, free, cols, last, first)
  {
    hide Cleared, FreshStart, Stairs, ExactToLast, Resumable;
    SizesStay(rows0, width, free0, cols0, last, first, rows, free);
    ClearedFresh(rows0, width, free0, cols0, last, first, rows, free, cols);
    FreshClean(rows, width, free, cols, last, first);
    if least0 == UNCHANGED {
      if least != UNCHANGED {
        if |rows| >= 1 {
          ClearedResumable(rows0, width, free0, cols0, last, first, rows, free, cols, least);
        }
      } else {
        ClearedReduced(rows0, width, free0, cols0, last, first, rows, cols);
      }
    }
  }

  lemma SizesStay(rows0: seq<Row>, width: nat, free0: seq<bool>, cols0: nat, last: seq<nat>, first: seq<nat>,
                  rows: seq<Row>, free: seq<bool>)
    requires FreshStart(rows0, width, free0, cols0, last, first) && Cleared(rows0, rows, width, free0, free)
    ensures |rows| == |rows0| && |free| == |free0|
  {
  }

  lemma ClearedReduced(rows0: seq<Row>, width: nat, free: seq<bool>, cols0: nat, last: seq<nat>, first: seq<nat>,
                       rows: seq<Row>, cols: nat)
    requires FreshStart(rows0, width, free, cols0, last, first) && Cleared(rows0, rows, width, free, free)
    requires FreshStart(rows, width, free, cols, last, first)
    requires Stairs(rows0, first, |rows0|) && ExactToLast(rows0, free, last, first)
    ensures Reduced(rows, width, free, cols, last, first)
  {
    hide AllWide, Bounded, Tight;
    forall r: nat, c: nat
      ensures One(rows, r, c) <==> One(rows0, r, c)
    {
      assert One(rows0, r, c) ==> c < |free| && free[c];
    }
    hide Clean, Cleared;
    assert Stairs(rows, first, |rows|);
    assert forall c: nat {:trigger free[c]} {:trigger last[c]} :: c < |free| && free[c] ==> last[c] <= |rows|;
  }

  /** Every model of the original rows satisfies the clause. */
  ghost predicate ClauseFollows(original: seq<Row>, order: seq<nat>, clause: seq<Lit>) {
    forall m: Model {:trigger ClauseTrue(m, Lits(clause))} ::
      VarsHold(original, ColsOf(m, order)) ==> ClauseTrue(m, Lits(clause))
  }

  /** In terms of the XORs the matrix was built from: whoever satisfies all of them satisfies the clause. */
  lemma ClauseOfXors(original: seq<Row>, xors: seq<Xor>, order: seq<nat>, clause: seq<Lit>, m: Model)
    requires |original| == |xors| && DistinctVars(order) && ClauseFollows(original, order, clause)
    requires forall r :: 0 <= r < |xors| ==> RowOf(original[r].vars, xors[r], order) && DistinctVars(xors[r].vars)
    requires forall r, v :: 0 <= r < |xors| && v in xors[r].vars ==> v in order
    requires forall r :: 0 <= r < |xors| ==> XorTrue(m, xors[r])
    ensures ClauseTrue(m, Lits(clause))
  {
    forall r | 0 <= r < |original|
      ensures Holds(original[r].vars, ColsOf(m, order))
    {
      RowMeaning(original[r].vars, xors[r], order, m);
    }
    assert VarsHold(original, ColsOf(m, order));
  }

  lemma RowFollows(original: seq<Row>, rows: seq<Row>, done: map<nat, bool>, r: nat, order: seq<nat>, a: Assigns,
                   clause: seq<Lit>, wasUndef: bool)
    requires Meaning(original, rows, done) && r < |rows| && DistinctVars(order)
    requires Filled(rows[r].vars, order, a, clause, wasUndef) && RowIn(rows[r].vars, order)
      && AtMostOneUndef(rows[r].vars, order, a)
    requires wasUndef || Violated(rows[r].vars, order, a)
    ensures ClauseFollows(original, order, clause)
  {
    forall m: Model | VarsHold(original, ColsOf(m, order))
      ensures ClauseTrue(m, Lits(clause))
    {
      assert VarsHold(rows, ColsOf(m, order));
      FilledEntailed(rows[r].vars, order, a, clause, wasUndef, m);
    }
  }

  ghost predicate VarsIn(clause: seq<Lit>, order: seq<nat>) {
    forall i {:trigger clause[i]} :: 0 <= i < |clause| ==> clause[i].v in order
  }

  lemma FilledVars(h: Half, order: seq<nat>, a: Assigns, clause: seq<Lit>, wasUndef: bool)
    requires Filled(h, order, a, clause, wasUndef)
    ensures VarsIn(clause, order)
  {
  }

  /** The literals to be set are of different variables of the matrix, none of which has a value. */
  ghost predicate HeadsNew(clauses: seq<seq<Lit>>, order: seq<nat>, a: Assigns) {
    && (forall q {:trigger clauses[q]} ::
      0 <= q < |clauses| ==> |clauses[q]| > 0 && clauses[q][0].v in order && clauses[q][0].v !in a)
    && forall p, q {:trigger clauses[p], clauses[q]} :: 0 <= p < q < |clauses| ==> clauses[p][0].v != clauses[q][0].v
  }

  ghost predicate HeadsSet(clauses: seq<seq<Lit>>, a': Assigns) {
    forall q {:trigger clauses[q]} :: 0 <= q < |clauses| ==> |clauses[q]| > 0 && clauses[q][0].v in a'
  }

  lemma NoHeads(order: seq<nat>, a: Assigns)
    ensures HeadsNew([], order, a) && HeadsSet([], a)
  {
  }

  lemma HeadNext(clauses: seq<seq<Lit>>, order: seq<nat>, a: Assigns, a': Assigns, clause: seq<Lit>, u: nat)
    requires HeadsNew(clauses, order, a) && HeadsSet(clauses, a') && |clause| > 0 && u < |order|
      && clause[0].v == order[u]
    requires order[u] !in a' && forall v {:trigger v in a} :: v in a ==> v in a'
    ensures HeadsNew(clauses + [clause], order, a) && HeadsSet(clauses + [clause], a'[clause[0].v := !clause[0].sign])
  {
  }

  ghost predicate RowsToPropagate(rows: seq<Row>, first: seq<nat>, props: seq<nat>) {
    && |rows| <= |first|
    && (forall r {:trigger r in props} :: r in props ==> r < |rows| && Single(rows, r, first[r]))
    && forall x, y {:trigger props[x], props[y]} :: 0 <= x < y < |props| ==> props[x] < props[y]
  }

  /** One clause for each of the first rows: its first literal is unassigned and forced, the others are false. */
  ghost predicate PropagatedBy(rows: seq<Row>, order: seq<nat>, a: Assigns, props: seq<nat>, clauses: seq<seq<Lit>>) {
    && |clauses| <= |props|
    && forall q {:trigger clauses[q]} ::
      0 <= q < |clauses| ==> props[q] < |rows| && Filled(rows[props[q]].vars, order, a, clauses[q], true)
  }

  /** The values added while propagating: those of the pivot columns of the rows before. */
  ghost predicate Heads(order: seq<nat>, first: seq<nat>, a: Assigns, a': Assigns, props: seq<nat>, n: nat) {
    && n <= |props|
    && (forall v {:trigger v in a} :: v in a ==> v in a' && a'[v] == a[v])
    && forall v {:trigger v in a'} :: v in a' && v !in a ==> exists q :: 0 <= q < n && HeadOf(order, first, props[q], v)
  }

  ghost predicate HeadOf(order: seq<nat>, first: seq<nat>, r: nat, v: nat) {
    r < |first| && first[r] < |order| && order[first[r]] == v
  }

  lemma OneUndef(rows: seq<Row>, first: seq<nat>, n: nat, order: seq<nat>, a: Assigns, a': Assigns, props: seq<nat>,
                 k: nat, free: seq<bool>)
    requires Stairs(rows, first, n) && n == |rows| && RowsToPropagate(rows, first, props)
      && Heads(order, first, a, a', props, k) && k < |props|
    requires DistinctVars(order) && Clean(rows, free) && |free| == |order| && props[k] < |rows|
    requires forall c: nat {:trigger UndefAt(rows[props[k]].vars, order, a, c)} ::
      UndefAt(rows[props[k]].vars, order, a, c) <==> One(rows, props[k], c)
    ensures var h, u := rows[props[k]].vars, first[props[k]];
      && (forall c: nat {:trigger UndefAt(h, order, a, c)} :: UndefAt(h, order, a, c) <==> c == u)
      && UndefAt(h, order, a', u) && AtMostOneUndef(h, order, a')
  {
    hide Clean;
    var r := props[k];
    assert r in props;
    var h, u := rows[r].vars, first[r];
    assert forall c: nat {:trigger UndefAt(h, order, a, c)} :: UndefAt(h, order, a, c) <==> c == u by {
      forall c: nat
        ensures UndefAt(h, order, a, c) <==> c == u
      {
        assert One(rows, r, c) <==> c == u;
      }
    }
    assert UndefAt(h, order, a, u);
    forall q | 0 <= q < k
      ensures !HeadOf(order, first, props[q], order[u])
    {
      assert props[q] in props && props[q] < props[k] && first[props[q]] < first[r];
    }
    assert order[u] !in a';
    forall c: nat | UndefAt(h, order, a', c)
      ensures c == u
    {
      assert UndefAt(h, order, a, c);
    }
  }

  lemma FilledUndef(h: Half, order: seq<nat>, a: Assigns, clause: seq<Lit>, wasUndef: bool, u: nat)
    requires Filled(h, order, a, clause, wasUndef) && UndefAt(h, order, a, u)
    ensures wasUndef
  {
  }

  lemma OnlyOneUndef(h: Half, order: seq<nat>, a: Assigns, u: nat)
    requires forall c: nat {:trigger UndefAt(h, order, a, c)} :: UndefAt(h, order, a, c) <==> c == u
    ensures AtMostOneUndef(h, order, a)
  {
  }

  lemma HeadIs(h: Half, order: seq<nat>, a: Assigns, clause: seq<Lit>, u: nat)
    requires Filled(h, order, a, clause, true) && AtMostOneUndef(h, order, a) && UndefAt(h, order, a, u)
    ensures |clause| > 0 && clause[0].v == order[u]
  {
    FirstIsUndef(h, order, a, clause, u);
  }

  lemma LinkedPrefix(rows: seq<Row>, n: nat, done: map<nat, bool>)
    requires AllLinked(rows, done) && n <= |rows|
    ensures AllLinked(rows[..n], done)
  {
  }

  lemma ReducedFacts(rows: seq<Row>, width: nat, free: seq<bool>, cols: nat, last: seq<nat>, first: seq<nat>)
    requires Reduced(rows, width, free, cols, last, first)
    ensures Clean(rows, free) && Stairs(rows, first, |rows|) && AllWide(rows, width)
  {
  }

  /** What is known after elimination. */
  lemma EliminatedOk(original: seq<Row>, rows0: seq<Row>, rows: seq<Row>, done: map<nat, bool>, width: nat,
                     free: seq<bool>, cols: nat,
                     last: seq<nat>, first: seq<nat>, i: nat, j: nat, props: seq<nat>, until: nat, seen: seq<bool>)
    requires Meaning(original, rows0, done) && Follows(rows0, rows, width, done)
    requires Elim(rows, width, free, cols, last, first, i, j) && (i == |rows| || j >= cols)
      && PropsOk(rows, first, props, i, until, seen)
    ensures Meaning(original, rows, done) && AllLinked(rows, done) && Clean(rows, free) && Stairs(rows, first, i)
      && i <= |rows|
    ensures Reduced(rows[..i], width, free, cols, last, first)
    ensures forall r: nat, c: nat {:trigger One(rows, r, c)} :: r >= i ==> !One(rows, r, c)
    ensures RowsToPropagate(rows[..i], first, props)
  {
    hide Reduced, Meaning, AllWide;
    MeaningSameSolutions(original, rows0, rows, done);
    RoundDone(rows, width, free, cols, last, first, i, j);
    RestZero(rows, width, free, cols, last, first, i, j);
    hide Elim, Follows;
    forall r | r in props
      ensures r < i && Single(rows[..i], r, first[r])
    {
      SinglePrefix(rows, i, r, first[r]);
    }
  }

  lemma SinglePrefix(rows: seq<Row>, n: nat, r: nat, c: nat)
    requires r < n <= |rows|
    ensures Single(rows[..n], r, c) <==> Single(rows, r, c)
  {
    var rows' := rows[..n];
    assert forall k: nat {:trigger One(rows, r, k)} {:trigger One(rows', r, k)} ::
      One(rows', r, k) <==> One(rows, r, k);
    if Single(rows, r, c) {
      forall k: nat
        ensures One(rows', r, k) <==> k == c
      {
        assert One(rows, r, k) <==> k == c;
      }
    }
    if Single(rows', r, c) {
      forall k: nat
        ensures One(rows, r, k) <==> k == c
      {
        assert One(rows', r, k) <==> k == c;
      }
    }
  }

  lemma NothingDone(rows: seq<Row>, width: nat, free: seq<bool>, cols: nat, last: seq<nat>, first: seq<nat>)
    requires Reduced(rows, width, free, cols, last, first)
    ensures rows[..|rows|] == rows && Clean(rows, free) && RowsToPropagate(rows, first, [])
  {
  }

  /** Every row with a single variable left has had that variable assigned since. */
  ghost predicate AllCarriedOut(rows: seq<Row>, order: seq<nat>, a: Assigns) {
    forall r: nat, c: nat {:trigger Single(rows, r, c)} ::
      Single(rows, r, c) && r < |rows| ==> c < |order| && order[c] in a
  }

  /** An unmarked row does not have a single variable left. */
  lemma SingleBefore(before: seq<Row>, mid: seq<Row>, seen: seq<bool>, r: nat, c: nat)
    requires SeenOk(before, mid, seen) && r < |seen| && !seen[r] && Single(mid, r, c)
    ensures Single(before, r, c) && One(mid, r, c)
  {
    forall k: nat
      ensures One(before, r, k) <==> k == c
    {
      assert One(mid, r, k) <==> k == c;
    }
    assert One(mid, r, c) <==> c == c;
  }

  lemma UnmarkedNotSingle(before: seq<Row>, mid: seq<Row>, seen: seq<bool>, free: seq<bool>, order: seq<nat>,
                          a: Assigns, r: nat, c: nat)
    requires SeenOk(before, mid, seen) && AllCarriedOut(before, order, a) && Clean(mid, free) && |free| == |order|
    requires forall k {:trigger free[k]} :: 0 <= k < |free| && free[k] ==> order[k] !in a
    requires r < |mid| == |before| && r < |seen| && !seen[r]
    ensures !Single(mid, r, c)
  {
    hide Single, One, SeenOk;
    if Single(mid, r, c) {
      SingleBefore(before, mid, seen, r, c);
    }
  }

  lemma Complete(before: seq<Row>, mid: seq<Row>, rows: seq<Row>, seen: seq<bool>, free: seq<bool>, order: seq<nat>,
                 a: Assigns,
                 first: seq<nat>, i: nat, props: seq<nat>, until: nat)
    requires SeenOk(before, mid, seen) && |mid| == |before| == |rows| <= |seen| && |free| == |order| && Clean(mid, free)
    requires forall k {:trigger free[k]} :: 0 <= k < |free| && free[k] ==> order[k] !in a
    requires PropsOk(rows, first, props, i, until, seen) && SameUpTo(mid, rows, until) && Stairs(rows, first, i)
    ensures AllCarriedOut(before, order, a) || until == 0 ==>
      forall r: nat :: r in props <==> r < i && exists c: nat :: Single(rows[..i], r, c)
  {
    if AllCarriedOut(before, order, a) || until == 0 {
      forall r: nat
        ensures r in props <==> r < i && exists c: nat :: Single(rows[..i], r, c)
      {
        if r < i {
          SinglePrefix(rows, i, r, first[r]);
          if r < until {
            SingleStays(mid, rows, r, first[r]);
            if !seen[r] {
              UnmarkedNotSingle(before, mid, seen, free, order, a, r, first[r]);
            }
          }
          assert r in props <==> Single(rows[..i], r, first[r]);
          forall c: nat | Single(rows[..i], r, c)
            ensures c == first[r]
          {
            assert One(rows, r, first[r]);
            assert One(rows[..i], r, first[r]) <==> first[r] == c;
          }
        }
      }
    }
  }

  lemma CompleteUnchanged(before: seq<Row>, mid: seq<Row>, seen: seq<bool>, free: seq<bool>, order: seq<nat>,
                          a: Assigns)
    requires SeenOk(before, mid, seen) && |mid| == |before| <= |seen| && |free| == |order| && Clean(mid, free)
      && NoneSeen(seen)
    requires forall k {:trigger free[k]} :: 0 <= k < |free| && free[k] ==> order[k] !in a
    ensures AllCarriedOut(before, order, a) ==> forall r: nat, c: nat :: r < |mid| ==> !Single(mid, r, c)
  {
    if AllCarriedOut(before, order, a) {
      forall r: nat, c: nat | r < |mid|
        ensures !Single(mid, r, c)
      {
        UnmarkedNotSingle(before, mid, seen, free, order, a, r, c);
      }
    }
  }

  lemma NoProps(rows: seq<Row>, first: seq<nat>, seen: seq<bool>)
    requires |rows| <= |first|
    ensures PropsOk(rows, first, [], 0, 0, seen)
  {
  }

  lemma PropsPush(rows: seq<Row>, first: seq<nat>, props: seq<nat>, i: nat, until: nat, seen: seq<bool>)
    requires PropsOk(rows, first, props, i, until, seen) && i < until && i < |rows| && i < |seen| && seen[i]
    ensures PropsOk(rows, first, if Single(rows, i, first[i]) then props + [i] else props, i + 1, until, seen)
  {
    hide Single;
    forall a | 0 <= a < |props|
      ensures props[a] < i
    {
      assert props[a] in props;
    }
  }

  lemma StairsRow(rows: seq<Row>, first: seq<nat>, n: nat, r: nat, width: nat)
    requires AllWide(rows, width) && Stairs(rows, first, n) && r < n
    ensures RowWide(rows[r], width) && first[r] < width
      && forall k :: 0 <= k <= first[r] ==> (rows[r].mat.bits[k] <==> k == first[r])
  {
    assert RowWide(rows[r], width) && One(rows, r, first[r]);
    forall k: nat | k < first[r]
      ensures !rows[r].mat.bits[k]
    {
      assert !One(rows, r, k);
    }
  }

  lemma ElimStairs(rows: seq<Row>, width: nat, free: seq<bool>, cols: nat, last: seq<nat>, first: seq<nat>, i: nat,
                   j: nat)
    requires Elim(rows, width, free, cols, last, first, i, j)
    ensures AllWide(rows, width) && Stairs(rows, first, i) && |rows| <= |first|
  {
  }

  lemma StartFacts(rows: seq<Row>, width: nat, free: seq<bool>, cols: nat, last: seq<nat>, first: seq<nat>, l: int,
                   resumes: bool)
    requires if resumes then 0 <= l < |free| && Resumable(rows, width, free, cols, last, first, l)
      else FreshStart(rows, width, free, cols, last, first)
    ensures AllWide(rows, width) && |rows| <= |first| && |free| == |last|
    ensures resumes ==> |rows| >= 1
  {
  }

  lemma PropsNext(rows: seq<Row>, first: seq<nat>, props: seq<nat>, i: nat, p: nat, j: nat, end: nat, width: nat,
                  until: nat, seen: seq<bool>, props': seq<nat>)
    requires AllWide(rows, width) && PivotAt(rows, i, p, j, end) && PropsOk(rows, first, props, i, until, seen)
      && until <= i
    requires props' == props + if Single(Eliminated(rows, i, p, j, end, width), i, j) then [i] else []
    ensures PropsOk(Eliminated(rows, i, p, j, end, width), first[i := j], props', i + 1, until, seen)
  {
    hide AllWide, Eliminated, Single;
    var rows' := Eliminated(rows, i, p, j, end, width);
    forall r: nat | r < i
      ensures Single(rows', r, first[r]) <==> Single(rows, r, first[r])
    {
      EliminatedAt(rows, i, p, j, end, width, r);
      SingleStays(rows, rows', r, first[r]);
    }
    var first' := first[i := j];
    forall r: nat
      ensures r in props' <==> r < i + 1 && Single(rows', r, first'[r]) && (r >= until || (r < |seen| && seen[r]))
    {
      if r < i {
        assert r in props' <==> r in props;
      } else {
        assert r !in props;
      }
    }
    forall a, b | 0 <= a < b < |props'|
      ensures props'[a] < props'[b]
    {
      assert props[a] in props;
    }
  }

  /** What the loop needs to know of the tables. */
  lemma ElimFacts(rows: seq<Row>, width: nat, free: seq<bool>, cols: nat, last: seq<nat>, first: seq<nat>, i: nat,
                  j: nat)
    requires Elim(rows, width, free, cols, last, first, i, j) && i < |rows| && j < cols
    ensures AllWide(rows, width) && j < |free| == |last| <= width && |rows| <= |first| && ZeroLeft(rows, i, j)
    ensures free[j] ==> i <= last[j] <= |rows|
  {
    assert free[j] ==> last[j] <= |rows|;
    assert i < last[j] || last[j] >= |rows|;
  }

  /** Rows from the bound on have no one in the column. */
  lemma BeyondBound(rows: seq<Row>, last: seq<nat>, j: nat)
    requires Bounded(rows, last) && j < |last|
    ensures forall r: nat {:trigger One(rows, r, j)} :: r >= last[j] ==> !One(rows, r, j)
  {
    if last[j] < |rows| {
      assert Tight(rows, last, j);
    }
  }

  lemma ElimPivot(rows: seq<Row>, width: nat, free: seq<bool>, cols: nat, last: seq<nat>, first: seq<nat>, i: nat,
                  p: nat, j: nat)
    requires Elim(rows, width, free, cols, last, first, i, j) && i < |rows| && j < cols && free[j]
    requires i <= p < last[j] && One(rows, p, j)
      && forall r: nat {:trigger One(rows, r, j)} :: i <= r < p ==> !One(rows, r, j)
    ensures PivotAt(rows, i, p, j, last[j])
  {
    ElimFacts(rows, width, free, cols, last, first, i, j);
    BeyondBound(rows, last, j);
  }

  lemma ElimNoPivot(rows: seq<Row>, width: nat, free: seq<bool>, cols: nat, last: seq<nat>, first: seq<nat>, i: nat,
                    j: nat)
    requires Elim(rows, width, free, cols, last, first, i, j) && i < |rows| && j < cols && free[j]
    requires forall r: nat {:trigger One(rows, r, j)} :: i <= r < last[j] ==> !One(rows, r, j)
    ensures forall r: nat {:trigger One(rows, r, j)} :: r >= i ==> !One(rows, r, j)
  {
    BeyondBound(rows, last, j);
  }

  lemma PivotRow(rows: seq<Row>, i: nat, p: nat, j: nat, width: nat)
    requires i <= p < |rows| && AllWide(rows, width) && One(rows, p, j) && ZeroLeft(rows, i, j)
    ensures RowWide(rows[p], width) && forall k :: 0 <= k <= j ==> (rows[p].mat.bits[k] <==> k == j)
  {
    assert RowWide(rows[p], width);
    forall k: nat | k < j
      ensures !rows[p].mat.bits[k]
    {
      assert !One(rows, p, k);
    }
  }
}
