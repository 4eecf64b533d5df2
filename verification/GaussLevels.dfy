/**
 A matrix over a search that opens and closes decision levels: when it is kept, when what is kept is taken up
 again, and why it always fits the trail. (cryptoms/gaussian.cpp, cryptoms/searcher.cpp)
 */
module GaussLevels {
  import opened Literals
  import opened Watches
  import opened Trail
  import opened XorRows
  import opened XorClauses
  import opened GaussTheory
  import opened Gaussian

  /** What never changes: the rows as given, the columns, every how many levels a matrix is kept, up to which level. */
  datatype Setup = Setup(original: seq<Row>, order: seq<nat>, nth: nat, until: nat, marks: nat)

  // ----- a matrix and a trail -----

  /** Every substituted column is that of a literal of the trail, with its value. */
  ghost predicate DoneOn(done: map<nat, bool>, order: seq<nat>, trail: seq<Lit>) {
    forall c {:trigger c in done} :: c in done ==> c < |order| && Lit(order[c], !done[c]) in trail
  }

  lemma DoneOnMore(done: map<nat, bool>, order: seq<nat>, trail: seq<Lit>, trail': seq<Lit>)
    requires DoneOn(done, order, trail) && trail <= trail'
    ensures DoneOn(done, order, trail')
  {
    forall c | c in done
      ensures Lit(order[c], !done[c]) in trail'
    {
      var i :| 0 <= i < |trail| && trail[i] == Lit(order[c], !done[c]);
      assert trail'[i] == trail[i];
    }
  }

  /** The columns agree with the literals of the trail. */
  ghost predicate OnCols(xs: iset<nat>, order: seq<nat>, trail: seq<Lit>) {
    forall c: nat, l: Lit {:trigger order[c], l in trail} ::
      c < |order| && l in trail && l.v == order[c] ==> (c in xs <==> !l.sign)
  }

  /** The trail can still be extended to something that violates an XOR. */
  ghost predicate LeftOpen(original: seq<Row>, order: seq<nat>, trail: seq<Lit>) {
    exists xs: iset<nat> {:trigger VarsHold(original, xs)} :: OnCols(xs, order, trail) && !VarsHold(original, xs)
  }

  /** As long as that is so, a matrix that fits the trail has a row left. */
  lemma OpenNotEmpty(original: seq<Row>, rows: seq<Row>, order: seq<nat>, done: map<nat, bool>, trail: seq<Lit>)
    requires LeftOpen(original, order, trail) && DoneOn(done, order, trail) && Meaning(original, rows, done)
    ensures rows != []
  {
    var xs: iset<nat> :| OnCols(xs, order, trail) && !VarsHold(original, xs);
    assert Respects(xs, done) by {
      forall c | c in done
        ensures c in xs <==> done[c]
      {
        assert order[c] == Lit(order[c], !done[c]).v;
      }
    }
    if rows == [] {
      assert VarsHold(rows, xs);
    }
  }

  /** A one too many or too few changes the parity. */
  lemma ParityFlips(bits: seq<bool>, u: nat, xs: iset<nat>)
    requires u < |bits| && bits[u] && u !in xs
    ensures Parity(bits, xs) != Parity(bits, xs + iset{u})
  {
    ParityClear(bits, u, xs);
    ParityClear(bits, u, xs + iset{u});
    ParitySame(bits[u := false], xs, xs + iset{u});
  }

  /** A matrix at rest with a row left, all assigned columns substituted, shows that the trail is open. */
  lemma RowLeftOpen(original: seq<Row>, rows: seq<Row>, width: nat, free: seq<bool>, cols: nat, last: seq<nat>,
                    first: seq<nat>,
                    colToVar: seq<Option<nat>>, done: map<nat, bool>, order: seq<nat>, trail: seq<Lit>)
    requires Reduced(rows, width, free, cols, last, first) && rows != [] && free == FreeCols(colToVar)
    requires TablesFit(colToVar, done, order) && AllLinked(rows, done) && Meaning(original, rows, done)
      && DoneOn(done, order, trail)
    requires forall l, k {:trigger l in trail, k in trail} :: l in trail && k in trail && l.v == k.v ==> l == k
    requires forall c: nat, l: Lit {:trigger colToVar[c], l in trail} ::
      c < |colToVar| && colToVar[c].Some? && l in trail ==> l.v != order[c]
    ensures LeftOpen(original, order, trail)
  {
    hide Meaning;
    var u := first[0];
    assert One(rows, 0, u);
    var bits := rows[0].vars.bits;
    assert Linked(rows[0], done) && bits[u] && u !in done;
    var xs0 := TrueCols(done);
    var xs := if Holds(rows[0].vars, xs0) then xs0 + iset{u} else xs0;
    ParityFlips(bits, u, xs0);
    assert !Holds(rows[0].vars, xs);
    assert !VarsHold(rows, xs);
    forall c: nat, l: Lit | c < |order| && l in trail && l.v == order[c]
      ensures c in xs <==> !l.sign
    {
      assert colToVar[c] == None && c in done;
      assert l == Lit(order[c], !done[c]);
    }
    NotSolved(original, rows, done, xs);
  }

  lemma NotSolved(original: seq<Row>, rows: seq<Row>, done: map<nat, bool>, xs: iset<nat>)
    requires Meaning(original, rows, done) && !VarsHold(rows, xs)
    ensures !VarsHold(original, xs)
  {
  }

  /** A matrix with a row left has a column left. */
  lemma ColumnLeft(rows: seq<Row>, width: nat, free: seq<bool>, cols: nat, last: seq<nat>, first: seq<nat>)
    requires Reduced(rows, width, free, cols, last, first) && rows != []
    ensures cols > 0
  {
    assert One(rows, 0, first[0]);
  }

  // ----- levels -----

  /** The trail as it was when the level above `l` was opened; for the current level, the whole trail. */
  ghost function Before(trail: seq<Lit>, lim: seq<nat>, l: nat): seq<Lit> {
    if l < |lim| && lim[l] <= |trail| then trail[..lim[l]] else trail
  }

  ghost predicate LimsOk(trail: seq<Lit>, lim: seq<nat>) {
    && (forall i, j {:trigger lim[i], lim[j]} :: 0 <= i <= j < |lim| ==> lim[i] <= lim[j])
    && forall i {:trigger lim[i]} :: 0 <= i < |lim| ==> lim[i] <= |trail|
  }

  /** From this level on the matrix is used up. */
  ghost predicate BadAt(bad: Option<nat>, l: nat) {
    bad.Some? && bad.value <= l
  }

  /** What is kept for level `l` can be taken up again there. */
  ghost predicate SavedFor(c: Setup, sets: seq<MatrixSet>, trail: seq<Lit>, lim: seq<nat>, l: nat)
    requires c.nth > 0
  {
    var k := l / c.nth;
    && k < |sets| && SetOk(sets[k], c.original, c.order) && 1 <= sets[k].rowCount <= c.marks
    && DoneOn(sets[k].done, c.order, Before(trail, lim, l))
  }

  /**
   A level for which a matrix is needed: one below the current one, or the current one once the matrix has been
   spoilt.
   */
  ghost predicate Due(c: Setup, lim: seq<nat>, spoilt: bool, l: nat)
    requires c.nth > 0
  {
    l % c.nth == 0 && l < c.until && (l < |lim| || (spoilt && l == |lim|))
  }

  ghost predicate SetsOk(c: Setup, sets: seq<MatrixSet>, bad: Option<nat>, trail: seq<Lit>, lim: seq<nat>, spoilt: bool)
    requires c.nth > 0
  {
    SavedFor(c, sets, trail, lim, 0) &&
    forall l: nat {:trigger SavedFor(c, sets, trail, lim, l)} {:trigger Due(c, lim, spoilt, l)} ::
      Due(c, lim, spoilt, l) ==> SavedFor(c, sets, trail, lim, l) || BadAt(bad, l)
  }

  /** Below the current level the trail was open, unless the matrix was used up by then. */
  ghost predicate OpenOk(c: Setup, bad: Option<nat>, trail: seq<Lit>, lim: seq<nat>) {
    forall l: nat {:trigger Before(trail, lim, l)} ::
      l < |lim| && l < c.until ==> BadAt(bad, l) || LeftOpen(c.original, c.order, Before(trail, lim, l))
  }

  lemma EnqueueKeeps(c: Setup, sets: seq<MatrixSet>, bad: Option<nat>, trail: seq<Lit>, lim: seq<nat>, spoilt: bool,
                     x: Lit)
    requires c.nth > 0 && LimsOk(trail, lim)
    requires SetsOk(c, sets, bad, trail, lim, spoilt) && OpenOk(c, bad, trail, lim)
    ensures SetsOk(c, sets, bad, trail + [x], lim, spoilt) && OpenOk(c, bad, trail + [x], lim)
  {
    hide SetOk, LeftOpen, DoneOn;
    var trail' := trail + [x];
    forall l: nat
      ensures Before(trail, lim, l) <= Before(trail', lim, l)
      ensures l < |lim| ==> Before(trail', lim, l) == Before(trail, lim, l)
      ensures SavedFor(c, sets, trail, lim, l) ==> SavedFor(c, sets, trail', lim, l)
    {
      if SavedFor(c, sets, trail, lim, l) {
        DoneOnMore(sets[l / c.nth].done, c.order, Before(trail, lim, l), Before(trail', lim, l));
      }
    }
  }

  lemma NewLevelKeeps(c: Setup, sets: seq<MatrixSet>, bad: Option<nat>, trail: seq<Lit>, lim: seq<nat>, spoilt: bool)
    requires c.nth > 0 && LimsOk(trail, lim)
    requires SetsOk(c, sets, bad, trail, lim, spoilt) && OpenOk(c, bad, trail, lim)
    requires |lim| < c.until && !BadAt(bad, |lim|) ==>
      !spoilt && (|lim| % c.nth == 0 ==> SavedFor(c, sets, trail, lim, |lim|)) && LeftOpen(c.original, c.order, trail)
    ensures SetsOk(c, sets, bad, trail, lim + [|trail|], spoilt) && OpenOk(c, bad, trail, lim + [|trail|])
  {
    hide SetOk, LeftOpen, DoneOn;
    var lim' := lim + [|trail|];
    forall l: nat | l <= |lim|
      ensures Before(trail, lim', l) == Before(trail, lim, l)
    {
      assert trail[..|trail|] == trail;
    }
    assert SavedFor(c, sets, trail, lim', 0);
    forall l: nat | Due(c, lim', spoilt, l)
      ensures SavedFor(c, sets, trail, lim', l) || BadAt(bad, l)
    {
      if l < |lim| {
        assert Due(c, lim, spoilt, l);
      }
    }
  }

  lemma CancelKeeps(c: Setup, sets: seq<MatrixSet>, bad: Option<nat>, trail: seq<Lit>, lim: seq<nat>, spoilt: bool,
                    k: nat, spoilt': bool)
    requires c.nth > 0 && LimsOk(trail, lim) && k < |lim|
    requires SetsOk(c, sets, bad, trail, lim, spoilt) && OpenOk(c, bad, trail, lim)
    ensures SetsOk(c, sets, bad, trail[..lim[k]], lim[..k], spoilt') && OpenOk(c, bad, trail[..lim[k]], lim[..k])
  {
    hide SetOk, LeftOpen, DoneOn;
    var trail', lim' := trail[..lim[k]], lim[..k];
    forall l: nat | l <= k
      ensures Before(trail', lim', l) == Before(trail, lim, l)
    {
      if l < k {
        assert lim[l] <= lim[k];
      }
    }
    assert SavedFor(c, sets, trail', lim', 0);
    forall l: nat | Due(c, lim', spoilt', l)
      ensures SavedFor(c, sets, trail', lim', l) || BadAt(bad, l)
    {
      assert Due(c, lim, spoilt, l);
    }
  }

  /** A round above the bad level makes the mark superfluous. */
  lemma RoundKeeps(c: Setup, sets: seq<MatrixSet>, bad: Option<nat>, trail: seq<Lit>, lim: seq<nat>, spoilt: bool)
    requires c.nth > 0 && !BadAt(bad, |lim|)
    requires SetsOk(c, sets, bad, trail, lim, spoilt) && OpenOk(c, bad, trail, lim)
    ensures SetsOk(c, sets, None, trail, lim, spoilt) && OpenOk(c, None, trail, lim)
  {
    hide SavedFor, LeftOpen, Before;
    forall l: nat | Due(c, lim, spoilt, l)
      ensures SavedFor(c, sets, trail, lim, l)
    {
    }
  }

  lemma Unspoilt(c: Setup, sets: seq<MatrixSet>, bad: Option<nat>, trail: seq<Lit>, lim: seq<nat>, spoilt: bool)
    requires c.nth > 0 && SetsOk(c, sets, bad, trail, lim, spoilt)
    ensures SetsOk(c, sets, bad, trail, lim, false)
  {
    hide SavedFor;
    forall l: nat | Due(c, lim, false, l)
      ensures SavedFor(c, sets, trail, lim, l) || BadAt(bad, l)
    {
      assert Due(c, lim, spoilt, l);
    }
  }

  /** A larger mark of use changes nothing either. */
  lemma MarkedBad(c: Setup, sets: seq<MatrixSet>, trail: seq<Lit>, lim: seq<nat>, spoilt: bool, bad: Option<nat>)
    requires c.nth > 0 && SetsOk(c, sets, None, trail, lim, spoilt) && OpenOk(c, None, trail, lim)
    ensures SetsOk(c, sets, bad, trail, lim, spoilt) && OpenOk(c, bad, trail, lim)
  {
    hide SavedFor, LeftOpen, Before, Due;
  }

  lemma MultipleBelow(l: nat, n: nat) returns (e: nat)
    requires n > 0
    ensures e <= l && e % n == 0 && e / n == l / n && (l % n == 0 ==> e == l)
  {
    e := l - l % n;
    assert l == n * (l / n) + l % n;
    assert e == n * (l / n);
    DivMod(n, l / n);
  }

  lemma DivMod(n: nat, q: nat)
    requires n > 0
    ensures (n * q) % n == 0 && (n * q) / n == q
  {
    var e := n * q;
    var x := q - e / n;
    assert e == n * (e / n) + e % n;
    assert n * x == n * q - n * (e / n);
    SignOfProduct(n, x);
  }

  lemma SignOfProduct(n: nat, x: int)
    requires n > 0
    ensures x >= 1 ==> n * x >= n
    ensures x <= -1 ==> n * x + n <= 0
    ensures x == 0 ==> n * x == 0
  {
  }

  /** When a spoilt matrix is needed again, one is kept for the level, and it fits the trail. */
  lemma Restorable(c: Setup, sets: seq<MatrixSet>, bad: Option<nat>, trail: seq<Lit>, lim: seq<nat>)
    requires c.nth > 0 && LimsOk(trail, lim) && SetsOk(c, sets, bad, trail, lim, true) && |lim| < c.until
      && !BadAt(bad, |lim|)
    ensures var k := |lim| / c.nth;
      k < |sets| && SetOk(sets[k], c.original, c.order) && 1 <= sets[k].rowCount <= c.marks
        && DoneOn(sets[k].done, c.order, trail)
  {
    hide SetOk, DoneOn;
    var e := MultipleBelow(|lim|, c.nth);
    assert Due(c, lim, true, e);
    assert SavedFor(c, sets, trail, lim, e);
    DoneOnMore(sets[e / c.nth].done, c.order, Before(trail, lim, e), trail);
  }

  function Stored(sets: seq<MatrixSet>, k: nat, s: MatrixSet): seq<MatrixSet>
    requires k <= |sets|
  {
    if k == |sets| then sets + [s] else sets[k := s]
  }

  /** The matrix is kept for the current level; there is a place for it. */
  lemma KeptNow(c: Setup, sets: seq<MatrixSet>, trail: seq<Lit>, lim: seq<nat>, s: MatrixSet)
    requires c.nth > 0 && LimsOk(trail, lim) && SetsOk(c, sets, None, trail, lim, false) && |lim| % c.nth == 0
      && |lim| < c.until
    requires SetOk(s, c.original, c.order) && 1 <= s.rowCount <= c.marks && DoneOn(s.done, c.order, trail)
    ensures |lim| / c.nth <= |sets|
    ensures var sets' := Stored(sets, |lim| / c.nth, s);
      SetsOk(c, sets', None, trail, lim, false) && SavedFor(c, sets', trail, lim, |lim|)
  {
    hide SetOk, DoneOn;
    var n, k := |lim|, |lim| / c.nth;
    assert n == c.nth * k;
    if n > 0 {
      var below := n - c.nth;
      assert below == c.nth * (k - 1) by {
        assert c.nth * k == c.nth * (k - 1) + c.nth;
      }
      DivMod(c.nth, k - 1);
      assert Due(c, lim, false, below);
      assert SavedFor(c, sets, trail, lim, below);
    }
    var sets' := Stored(sets, k, s);
    assert Before(trail, lim, n) == trail;
    forall l: nat | l < n && l % c.nth == 0 && SavedFor(c, sets, trail, lim, l)
      ensures SavedFor(c, sets', trail, lim, l)
    {
      SmallerQuotient(l, n, c.nth);
    }
    forall l: nat | Due(c, lim, false, l)
      ensures SavedFor(c, sets', trail, lim, l)
    {
      assert SavedFor(c, sets, trail, lim, l);
    }
  }

  lemma SmallerQuotient(l: nat, m: nat, n: nat)
    requires n > 0 && l < m && l % n == 0 && m % n == 0
    ensures l / n < m / n
  {
    assert l == n * (l / n) && m == n * (m / n);
    var x := m / n - l / n;
    assert n * x == n * (m / n) - n * (l / n);
    SignOfProduct(n, x);
  }

  // ----- what a round sets -----

  /** The first clause of one literal, if there is one. */
  ghost function FirstUnit(cs: seq<seq<Lit>>): (u: nat)
    ensures u <= |cs| && (u < |cs| ==> |cs[u]| == 1)
    ensures forall q {:trigger cs[q]} :: 0 <= q < u ==> |cs[q]| != 1
  {
    if cs == [] || |cs[0]| == 1 then 0 else 1 + FirstUnit(cs[1..])
  }

  /** The trail followed by the first literals of the first clauses, in order. */
  ghost predicate Extended(trail0: seq<Lit>, cs: seq<seq<Lit>>, n: nat, trail: seq<Lit>) {
    && n <= |cs| && |trail| == |trail0| + n && trail[..|trail0|] == trail0
    && forall q {:trigger cs[q]} :: 0 <= q < n ==> |cs[q]| > 0 && trail[|trail0| + q] == cs[q][0]
  }

  /** The first literals of the clauses are set; a clause of one literal is set at level zero, and nothing else is. */
  ghost predicate SetBy(trail0: seq<Lit>, lim0: seq<nat>, cs: seq<seq<Lit>>, trail: seq<Lit>, lim: seq<nat>) {
    var u := FirstUnit(cs);
    if lim0 == [] || u == |cs| then Extended(trail0, cs, |cs|, trail) && lim == lim0
    else lim == [] && trail == Before(trail0, lim0, 0) + [cs[u][0]]
  }

  ghost predicate AgreesWith(m: Model, trail: seq<Lit>) {
    forall l {:trigger l in trail} :: l in trail ==> LitTrue(m, l)
  }

  /** Whoever satisfies the XORs and agrees with what was kept of the trail agrees with all of it. */
  ghost predicate Forced(original: seq<Row>, order: seq<nat>, kept: seq<Lit>, trail: seq<Lit>) {
    forall m: Model {:trigger VarsHold(original, ColsOf(m, order))} ::
      VarsHold(original, ColsOf(m, order)) && AgreesWith(m, kept) ==> AgreesWith(m, trail)
  }

  /** All literals but the first of each clause are false on the trail. */
  ghost predicate RestFalse(cs: seq<seq<Lit>>, trail: seq<Lit>) {
    forall q, i {:trigger cs[q][i]} :: 0 <= q < |cs| && 1 <= i < |cs[q]| ==> cs[q][i].Neg() in trail
  }

  /** The first literal of a clause that follows from the XORs is true where its other literals are false. */
  lemma HeadTrue(original: seq<Row>, order: seq<nat>, c: seq<Lit>, m: Model)
    requires ClauseFollows(original, order, c) && VarsHold(original, ColsOf(m, order)) && |c| > 0
    requires forall i {:trigger c[i]} :: 1 <= i < |c| ==> LitTrue(m, c[i].Neg())
    ensures LitTrue(m, c[0])
  {
    assert ClauseTrue(m, Lits(c));
    var l :| l in Lits(c) && LitTrue(m, l);
    var i :| 0 <= i < |c| && c[i] == l;
    assert i > 0 ==> LitTrue(m, c[i].Neg());
  }

  /** What a round sets is forced by the XORs and by what it leaves of the trail. */
  lemma SetIsForced(original: seq<Row>, order: seq<nat>, trail0: seq<Lit>, lim0: seq<nat>, cs: seq<seq<Lit>>,
                    trail: seq<Lit>, lim: seq<nat>)
    requires SetBy(trail0, lim0, cs, trail, lim) && RestFalse(cs, trail0)
    requires forall q {:trigger cs[q]} :: 0 <= q < |cs| ==> ClauseFollows(original, order, cs[q])
    ensures Forced(original, order, Before(trail0, lim0, |lim|), trail)
  {
    hide ClauseFollows;
    var kept := Before(trail0, lim0, |lim|);
    var u := FirstUnit(cs);
    forall m: Model | VarsHold(original, ColsOf(m, order)) && AgreesWith(m, kept)
      ensures AgreesWith(m, trail)
    {
      if lim0 == [] || u == |cs| {
        assert kept == trail0;
        forall i | 0 <= i < |trail|
          ensures LitTrue(m, trail[i])
        {
          ExtendedTrue(original, order, trail0, cs, trail, m, i);
        }
      } else {
        assert cs[u][0] == trail[|kept|];
        HeadTrue(original, order, cs[u], m);
      }
    }
  }

  lemma ExtendedTrue(original: seq<Row>, order: seq<nat>, trail0: seq<Lit>, cs: seq<seq<Lit>>, trail: seq<Lit>,
                     m: Model, i: nat)
    requires Extended(trail0, cs, |cs|, trail) && RestFalse(cs, trail0) && i < |trail|
    requires forall q {:trigger cs[q]} :: 0 <= q < |cs| ==> ClauseFollows(original, order, cs[q])
    requires VarsHold(original, ColsOf(m, order)) && AgreesWith(m, trail0)
    ensures LitTrue(m, trail[i])
  {
    hide ClauseFollows, VarsHold;
    if i < |trail0| {
      assert trail[..|trail0|][i] == trail[i];
      assert trail[i] in trail0;
    } else {
      var q := i - |trail0|;
      assert trail[|trail0| + q] == cs[q][0];
      forall k | 1 <= k < |cs[q]|
        ensures LitTrue(m, cs[q][k].Neg())
      {
        assert cs[q][k].Neg() in trail0;
      }
      HeadTrue(original, order, cs[q], m);
    }
  }

  lemma NothingSet(trail: seq<Lit>, lim: seq<nat>)
    ensures SetBy(trail, lim, [], trail, lim)
  {
  }

  // ----- the search -----

  datatype Found = Continues | HasConflict | Unsatisfiable | FoundNothing

  class Search {
    const gauss: Gaussian
    const nVars: nat
    /** `only_nth_gauss_save` and `decision_until` */
    const onlyNthGaussSave: nat
    const decisionUntil: nat
    const varToCol: map<nat, nat>
    var assigns: Assigns
    var level: map<nat, nat>
    var trail: seq<Lit>
    var trailLim: seq<nat>
    /** The matrices kept, one for every so many levels. */
    var matrixSets: seq<MatrixSet>
    /** A substituted column has lost its value, or a round has ended in a conflict. */
    var messed: bool
    var gaussLastLevel: nat
    /** The level from which on the matrix is used up, if there is one. */
    var badlevel: Option<nat>
    var disabled: bool
    var ok: bool
    /** A conflict has been reported and no level has been undone since. */
    ghost var pending: bool
    /** The last round found nothing, and nothing has happened since. */
    ghost var quiet: bool

    /** `init`: the matrix as built is kept for level zero; without rows or columns there is nothing to do at all. */
    constructor (g: Gaussian, n: nat, nth: nat, until: nat, cols: map<nat, nat>, facts: seq<Lit>, a: Assigns,
                 lv: map<nat, nat>)
      requires nth > 0 && g.Between() && g.done == map[] && TrailOk(facts, [], a, lv, n)
      requires forall v {:trigger v in g.colToVarOriginal} :: v in g.colToVarOriginal ==> v < n && v in lv && v in cols
      requires forall v {:trigger cols[v]} ::
        v in cols ==> cols[v] < |g.colToVarOriginal| && g.colToVarOriginal[cols[v]] == v
      ensures Inv() && ok && !pending && gauss == g && trail == facts && trailLim == [] && assigns == a
      ensures disabled <==> g.numRows == 0 || g.numCols == 0
    {
      gauss, nVars, onlyNthGaussSave, decisionUntil, varToCol := g, n, nth, until, cols;
      assigns, level, trail, trailLim := a, lv, facts, [];
      matrixSets, messed, gaussLastLevel, badlevel := [], false, |facts|, None;
      disabled, ok, pending, quiet := false, true, false, false;
      new;
      hide TrailOk, Gaussian.Between, Search.Inv;
      KeepFirst();
    }

    method KeepFirst()
      requires onlyNthGaussSave > 0 && TrailValid() && gauss.Between() && gauss.done == map[]
      requires ok && !disabled && !pending && !quiet && !messed && badlevel == None && trailLim == []
        && gaussLastLevel == |trail|
      modifies this`matrixSets, this`badlevel, this`disabled
      ensures Inv() && (disabled <==> gauss.numRows == 0 || gauss.numCols == 0)
      ensures badlevel == if disabled then Some(0) else None
    {
      hide TrailOk, SetOk, Gaussian.Base;
      if gauss.numRows == 0 || gauss.numCols == 0 {
        disabled := true;
        badlevel := Some(0);
      } else {
        var s := gauss.CurrentSet();
        matrixSets := [s];
      }
    }

    ghost function Consts(): Setup
      reads gauss
    {
      Setup(gauss.original, gauss.colToVarOriginal, onlyNthGaussSave, decisionUntil, |gauss.seen2|)
    }

    /** The trail is in order, and the variables of the matrix are known. */
    ghost predicate TrailValid()
      reads `trail, `trailLim, `assigns, `level
    {
      && TrailOk(trail, trailLim, assigns, level, nVars)
      && (forall v {:trigger v in gauss.colToVarOriginal} ::
        v in gauss.colToVarOriginal ==> v < nVars && v in level && v in varToCol)
      && forall v {:trigger varToCol[v]} ::
        v in varToCol ==> varToCol[v] < |gauss.colToVarOriginal| && gauss.colToVarOriginal[varToCol[v]] == v
    }

    ghost predicate GaussValid()
      reads gauss, gauss.matrix, gauss.matrix.mp
    {
      gauss.Base() && gauss.ChangesOk() && gauss.changedRows == [] && NoneSeen(gauss.seen2)
    }

    /** How much of the trail the current matrix has seen. */
    ghost function Seen(): seq<Lit>
      reads `trail, `gaussLastLevel
    {
      if gaussLastLevel < |trail| then trail[..gaussLastLevel] else trail
    }

    /** A matrix that is not messed up fits the trail, and has a row left unless it is used up from this level on. */
    ghost predicate CurrentOk()
      reads `messed, `trail, `trailLim, `gaussLastLevel, `badlevel, gauss, gauss.matrix, gauss.matrix.mp
    {
      !messed ==>
        && DoneOn(gauss.done, gauss.colToVarOriginal, Seen()) && gauss.Between()
        && (|trailLim| < decisionUntil && !BadAt(badlevel, |trailLim|) ==> gauss.numRows >= 1)
    }

    ghost predicate QuietOk()
      reads this, gauss
    {
      quiet && |trailLim| < decisionUntil && !BadAt(badlevel, |trailLim|) ==>
        && !messed && LeftOpen(gauss.original, gauss.colToVarOriginal, trail)
        && (onlyNthGaussSave > 0 && |trailLim| % onlyNthGaussSave == 0 ==>
          SavedFor(Consts(), matrixSets, trail, trailLim, |trailLim|))
    }

    ghost predicate LevelsOk()
      reads `matrixSets, `badlevel, `trail, `trailLim, `messed, `pending, gauss
    {
      && onlyNthGaussSave > 0
      && SetsOk(Consts(), matrixSets, badlevel, trail, trailLim, messed && !pending)
        && OpenOk(Consts(), badlevel, trail, trailLim)
    }

    /** What holds between the steps of a search. */
    ghost predicate Inv()
      reads this, gauss, gauss.matrix, gauss.matrix.mp
    {
      && onlyNthGaussSave > 0 && TrailValid() && GaussValid() && (pending ==> messed && !quiet)
      && (ok && !disabled ==> LevelsOk() && CurrentOk() && QuietOk())
    }

    lemma Lims()
      requires TrailValid()
      ensures LimsOk(trail, trailLim)
    {
    }

    // ----- the steps of the search -----

    /** A literal is set by propagation, as a decision, or as a fact. */
    method Enqueue(l: Lit)
      requires Inv() && !pending && Value(assigns, l) == Undef && l.v < nVars
      modifies this`assigns, this`level, this`trail, this`quiet
      ensures Inv() && trail == old(trail) + [l] && assigns == old(assigns)[l.v := !l.sign]
    {
      hide TrailOk, SetsOk, OpenOk, DoneOn, LeftOpen, Gaussian.Between, Search.GaussValid;
      Lims();
      TrailGrows(trail, trailLim, assigns, level, nVars, l);
      if ok && !disabled {
        EnqueueKeeps(Consts(), matrixSets, badlevel, trail, trailLim, messed && !pending, l);
        SeenMore(l);
      }
      assigns := assigns[l.v := !l.sign];
      level := level[l.v := |trailLim|];
      trail := trail + [l];
      quiet := false;
    }

    lemma SeenMore(l: Lit)
      requires DoneOn(gauss.done, gauss.colToVarOriginal, Seen()) || messed
      ensures var t := trail + [l];
        !messed ==> DoneOn(gauss.done, gauss.colToVarOriginal, if gaussLastLevel < |t| then t[..gaussLastLevel] else t)
    {
      var t := trail + [l];
      if !messed {
        DoneOnMore(gauss.done, gauss.colToVarOriginal, Seen(), if gaussLastLevel < |t| then t[..gaussLastLevel] else t);
      }
    }

    /** A level is only opened when a round has found nothing. */
    method NewDecisionLevel()
      requires Inv() && ok && quiet
      modifies this`trailLim, this`quiet
      ensures Inv() && trailLim == old(trailLim) + [|trail|]
    {
      hide SetsOk, OpenOk, DoneOn, LeftOpen, SavedFor, Gaussian.Between, Search.GaussValid;
      Lims();
      LevelOpened();
      if !disabled {
        NewLevelKeeps(Consts(), matrixSets, badlevel, trail, trailLim, messed && !pending);
      }
      trailLim := trailLim + [|trail|];
      quiet := false;
    }

    lemma LevelOpened()
      requires TrailValid()
      ensures TrailOk(trail, trailLim + [|trail|], assigns, level, nVars)
    {
      var lim := trailLim + [|trail|];
      forall i | 0 <= i < |trail|
        ensures EntryOk(trail, lim, assigns, level, nVars, i)
      {
        assert EntryOk(trail, trailLim, assigns, level, nVars, i);
      }
    }

    /** The variable has a column of the matrix that has been substituted. */
    predicate Substituted(v: nat)
      reads gauss
    {
      v in varToCol && varToCol[v] < |gauss.colToVar| && gauss.colToVar[varToCol[v]] == None
    }

    /** A variable whose column has been substituted stands on the trail from `sublevel` on. */
    predicate LosesColumn(t: seq<Lit>, sublevel: nat)
      reads `gaussLastLevel, gauss
    {
      exists i {:trigger t[i]} :: sublevel <= i < |t| && i <= gaussLastLevel && Substituted(t[i].v)
    }

    /** `canceling`: is a variable whose column has been substituted about to lose its value? */
    method Canceling(sublevel: nat)
      modifies this`messed
      ensures old(messed) || disabled ==> messed == old(messed)
      ensures !old(messed) && !disabled ==>
        (messed <==> LosesColumn(trail, sublevel))
    {
      if disabled || messed {
        return;
      }
      var c := if gaussLastLevel < |trail| - 1 then gaussLastLevel else |trail| - 1;
      while c >= sublevel
        invariant !messed && c < |trail| && c <= gaussLastLevel
        invariant forall i {:trigger trail[i]} ::
          sublevel <= i < |trail| && i <= gaussLastLevel && i > c ==> !Substituted(trail[i].v)
      {
        if Substituted(trail[c].v) {
          messed := true;
          assert Substituted(trail[c].v);
          return;
        }
        c := c - 1;
      }
    }

    /** The trail is cut back to where the level above `k` was opened. */
    method Undo(k: nat)
      requires TrailValid() && k < |trailLim|
      modifies this`messed, this`assigns, this`trail, this`trailLim
      ensures TrailValid() && old(trailLim)[k] <= old(|trail|) && trail == old(trail)[..old(trailLim)[k]]
        && trailLim == old(trailLim)[..k]
      ensures forall v :: v in assigns ==> v in old(assigns) && assigns[v] == old(assigns)[v]
      ensures forall i {:trigger old(trail)[i]} :: 0 <= i < old(trailLim)[k] ==> old(trail)[i].v in assigns
      ensures old(messed) || disabled ==> messed == old(messed)
      ensures !old(messed) && !disabled ==> (messed <==> LosesColumn(old(trail), old(trailLim)[k]))
    {
      hide TrailOk;
      Lims();
      Canceling(trailLim[k]);
      var gone := set l | l in trail[trailLim[k]..] :: l.v;
      CutBack(k, assigns - gone);
      assigns := assigns - gone;
      trail := trail[..trailLim[k]];
      trailLim := trailLim[..k];
    }

    lemma CutBack(k: nat, a: Assigns)
      requires TrailValid() && k < |trailLim| && trailLim[k] <= |trail|
      requires a == assigns - (set l | l in trail[trailLim[k]..] :: l.v)
      ensures TrailOk(trail[..trailLim[k]], trailLim[..k], a, level, nVars)
      ensures forall i {:trigger trail[i]} :: 0 <= i < trailLim[k] ==> trail[i].v in a
    {
      var to := trailLim[k];
      forall i | to <= i < |trail|
        ensures trail[i].v !in a
      {
        assert trail[to..][i - to] == trail[i];
        assert trail[i] in trail[to..];
      }
      forall v | v in a
        ensures exists i :: 0 <= i < to && trail[i].v == v
      {
        var i :| 0 <= i < |trail| && trail[i].v == v;
      }
      forall i | 0 <= i < to
        ensures trail[i].v in a
      {
        assert EntryOk(trail, trailLim, assigns, level, nVars, i);
        forall l | l in trail[to..]
          ensures l.v != trail[i].v
        {
          var j :| 0 <= j < |trail[to..]| && trail[to..][j] == l;
          assert trail[to + j] == l;
        }
      }
      TrailPrefix(trail, trailLim, assigns, a, level, nVars, k);
    }

    /** Levels are undone. Unless the matrix is messed up by that, it fits what is left of the trail. */
    method CancelUntil(k: nat)
      requires Inv()
      modifies this`messed, this`assigns, this`trail, this`trailLim, this`pending, this`quiet
      ensures Inv()
        && (k < old(|trailLim|) ==>
        !pending && trailLim == old(trailLim)[..k] && trail == old(trail)[..old(trailLim)[k]])
      ensures old(messed) || disabled || k >= old(|trailLim|) ==> messed == old(messed)
      ensures k < old(|trailLim|) && !old(messed) && !disabled ==>
        (messed <==> LosesColumn(old(trail), old(trailLim)[k]))
      ensures k >= old(|trailLim|) ==>
        trail == old(trail) && trailLim == old(trailLim) && pending == old(pending) && assigns == old(assigns)
      ensures forall v :: v in assigns ==> v in old(assigns) && assigns[v] == old(assigns)[v]
    {
      hide TrailOk, SetsOk, OpenOk, DoneOn, LeftOpen, SavedFor, Gaussian.Between, Search.GaussValid, Search.CurrentOk,
        Search.TrailValid;
      if k < |trailLim| {
        Lims();
        ghost var trail0, sub := trail, trailLim[k];
        if ok && !disabled {
          CancelKeeps(Consts(), matrixSets, badlevel, trail, trailLim, messed && !pending, k, true);
          CancelKeeps(Consts(), matrixSets, badlevel, trail, trailLim, messed && !pending, k, false);
          OpenWas(k);
          CurrentMeans();
        }
        Undo(k);
        pending := false;
        quiet := false;
        if ok && !disabled {
          StillCurrent(trail0, sub);
        }
      }
    }

    lemma OpenWas(k: nat)
      requires LevelsOk() && k < |trailLim| && LimsOk(trail, trailLim)
      ensures k < decisionUntil && !BadAt(badlevel, k) ==>
        LeftOpen(gauss.original, gauss.colToVarOriginal, trail[..trailLim[k]])
    {
      assert Before(trail, trailLim, k) == trail[..trailLim[k]];
    }

    lemma CurrentMeans()
      requires CurrentOk()
      ensures !messed ==> DoneOn(gauss.done, gauss.colToVarOriginal, Seen()) && gauss.Between()
    {
    }

    /**
     No substituted column has lost its value, so the matrix fits what is left; and while that is open it has a row.
     */
    lemma StillCurrent(trail0: seq<Lit>, sub: nat)
      requires TrailValid() && GaussValid() && sub <= |trail0| && trail == trail0[..sub]
      requires !messed ==>
        && DoneOn(gauss.done, gauss.colToVarOriginal, if gaussLastLevel < |trail0| then trail0[..gaussLastLevel]
          else trail0) && gauss.Between()
        && !LosesColumn(trail0, sub)
      requires |trailLim| < decisionUntil && !BadAt(badlevel, |trailLim|) ==>
        LeftOpen(gauss.original, gauss.colToVarOriginal, trail)
      ensures CurrentOk()
    {
      hide LeftOpen, TrailOk;
      if !messed {
        ghost var done, order := gauss.done, gauss.colToVarOriginal;
        forall c | c in done
          ensures Lit(order[c], !done[c]) in Seen()
        {
          var l := Lit(order[c], !done[c]);
          var i :| 0 <= i < |trail0| && i < gaussLastLevel && trail0[i] == l;
          assert order[c] in order && order[varToCol[l.v]] == l.v;
          assert Substituted(trail0[i].v);
          assert trail[i] == l;
        }
        hide TablesFit, Meaning, AllLinked;
        DoneOnMore(done, order, Seen(), trail);
        if |trailLim| < decisionUntil && !BadAt(badlevel, |trailLim|) {
          OpenNotEmpty(gauss.original, gauss.matrix.rows, order, done, trail);
        }
      }
    }

    // ----- a round -----

    /** The matrix has just been brought up to date with the whole trail. */
    ghost predicate UpToDate()
      reads this, gauss, gauss.matrix, gauss.matrix.mp
    {
      && ok && !disabled && !messed && !pending && !quiet && badlevel == None && gaussLastLevel == |trail|
      && onlyNthGaussSave > 0 && |trailLim| < decisionUntil && TrailValid() && GaussValid()
      && gauss.Agrees(assigns) && gauss.AllSubstituted(assigns)
      && SetsOk(Consts(), matrixSets, None, trail, trailLim, false) && OpenOk(Consts(), None, trail, trailLim)
    }

    lemma TrailValues()
      requires TrailValid()
      ensures forall l {:trigger l in trail} :: l in trail ==> Value(assigns, l) == True
      ensures forall v :: v in assigns ==> Lit(v, !assigns[v]) in trail
    {
      forall l | l in trail
        ensures Value(assigns, l) == True
      {
        var i :| 0 <= i < |trail| && trail[i] == l;
        assert EntryOk(trail, trailLim, assigns, level, nVars, i);
      }
      forall v | v in assigns
        ensures Lit(v, !assigns[v]) in trail
      {
        var i := OnTrail(trail, trailLim, assigns, level, nVars, Lit(v, !assigns[v]));
      }
    }

    /** To fit the trail and to agree with the assignment is the same. */
    lemma FitsIsAgrees()
      requires TrailValid()
      ensures DoneOn(gauss.done, gauss.colToVarOriginal, trail) <==> gauss.Agrees(assigns)
    {
      hide TrailOk;
      TrailValues();
    }

    lemma SeenAll()
      requires DoneOn(gauss.done, gauss.colToVarOriginal, Seen())
      ensures DoneOn(gauss.done, gauss.colToVarOriginal, trail)
    {
      DoneOnMore(gauss.done, gauss.colToVarOriginal, Seen(), trail);
    }

    /**
     `perform_gauss`: the current matrix, or if that is messed up the one kept for the level, is brought up to date.
     */
    method Round(iterativeReduce: bool) returns (r: GaussRet)
      requires Inv() && ok && !disabled && !pending && |trailLim| < decisionUntil && !BadAt(badlevel, |trailLim|)
      modifies this`messed, this`gaussLastLevel, this`badlevel, this`quiet, gauss, gauss.matrix, gauss.matrix.mp
      ensures UpToDate() && gauss.ResultOk(r, assigns, |trailLim|)
      ensures r.Propagated? ==> gauss.Between() && gauss.leastColumnChanged == UNCHANGED
      ensures r.Propagated? && old(Noticing()) ==>
        forall q: nat :: q in gauss.propagatableRows <==>
          q < gauss.numRows && exists c: nat :: Single(gauss.matrix.rows, q, c)
    {
      hide TrailOk, SetsOk, OpenOk, DoneOn, LeftOpen, SetOk, Gaussian.Between, Gaussian.ResultOk, Gaussian.Agrees,
        Gaussian.AllSubstituted, NoneSeen, AllCarriedOut, Single;
      Lims();
      if messed {
        Restorable(Consts(), matrixSets, badlevel, trail, trailLim);
        gauss.Restore(matrixSets[|trailLim| / onlyNthGaussSave]);
      } else {
        SeenAll();
      }
      FitsIsAgrees();
      RoundKeeps(Consts(), matrixSets, badlevel, trail, trailLim, messed && !pending);
      Unspoilt(Consts(), matrixSets, None, trail, trailLim, messed && !pending);
      messed := false;
      gaussLastLevel := |trail|;
      badlevel := None;
      quiet := false;
      r := gauss.PerformGauss(assigns, level, |trailLim|, iterativeReduce);
    }

    /** With a row left, an up-to-date matrix at rest keeps all promises. */
    lemma UpToDateFits()
      requires UpToDate() && gauss.Between() && gauss.numRows >= 1
      ensures Inv() && ok && !pending
    {
      hide TrailOk, SetsOk, OpenOk, DoneOn, Gaussian.Between;
      FitsIsAgrees();
    }

    lemma FreeUnset()
      requires TrailValid() && gauss.Tables() && gauss.AllSubstituted(assigns)
      ensures forall l, k {:trigger l in trail, k in trail} :: l in trail && k in trail && l.v == k.v ==> l == k
      ensures forall c: nat, l: Lit {:trigger gauss.colToVar[c], l in trail} ::
        c < |gauss.colToVar| && gauss.colToVar[c].Some? && l in trail ==> l.v != gauss.colToVarOriginal[c]
    {
      hide TrailOk;
      TrailValues();
      forall l, k | l in trail && k in trail && l.v == k.v
        ensures l == k
      {
        assert Value(assigns, l) == True && Value(assigns, k) == True;
      }
      forall c: nat, l: Lit | c < |gauss.colToVar| && gauss.colToVar[c].Some? && l in trail
        ensures l.v != gauss.colToVarOriginal[c]
      {
        assert l.v in assigns;
      }
    }

    lemma OpenNow()
      requires UpToDate() && gauss.Between() && gauss.leastColumnChanged == UNCHANGED && gauss.numRows >= 1
      ensures LeftOpen(gauss.original, gauss.colToVarOriginal, trail) && gauss.numCols >= 1
    {
      hide TrailOk, SetsOk, OpenOk, LeftOpen, Meaning, AllLinked, TablesFit, Reduced;
      FitsIsAgrees();
      FreeUnset();
      ghost var m, free := gauss.matrix, FreeCols(gauss.colToVar);
      ColumnLeft(m.rows, m.Width(), free, gauss.numCols, gauss.lastOneInCol, gauss.firstOneInRow);
      RowLeftOpen(gauss.original, m.rows, m.Width(), free, gauss.numCols, gauss.lastOneInCol, gauss.firstOneInRow,
                  gauss.colToVar, gauss.done, gauss.colToVarOriginal, trail);
    }

    /**
     A round without a conflict: what it forces is set; if that is nothing the matrix is kept, at every so many
     levels.
     */
    method HandlePropagations(cs: seq<seq<Lit>>) returns (found: Found)
      requires UpToDate() && gauss.Between() && gauss.leastColumnChanged == UNCHANGED
      requires HeadsNew(cs, gauss.colToVarOriginal, assigns) && (cs != [] ==> gauss.numRows >= 1)
      modifies this`messed, this`assigns, this`level, this`trail, this`trailLim, this`pending, this`quiet,
        this`badlevel,
        this`matrixSets
      ensures Inv() && ok && !pending && found == if cs == [] then FoundNothing else Continues
      ensures SetBy(old(trail), old(trailLim), cs, trail, trailLim)
      ensures cs == [] ==> quiet && trail == old(trail) && trailLim == old(trailLim)
      ensures badlevel == if gauss.numCols == 0 || gauss.numRows == 0 then Some(|trailLim|) else None
    {
      assert badlevel == None;
      hide Search.UpToDate, Search.Inv, Gaussian.Between, HeadsNew, SetBy;
      NothingSet(trail, trailLim);
      found := FoundNothing;
      if cs != [] {
        OpenNow();
        UpToDateFits();
        SetHeads(cs);
        found := Continues;
      }
      if gauss.numCols == 0 || gauss.numRows == 0 {
        UsedUp();
      } else if found == FoundNothing {
        KeepMatrix();
      }
    }

    /** Without rows or columns there is nothing more to find from this level on. */
    method UsedUp()
      requires UpToDate() && gauss.Between()
      modifies this`badlevel, this`quiet
      ensures Inv() && ok && !pending && quiet && badlevel == Some(|trailLim|)
    {
      hide TrailOk, SetsOk, OpenOk, DoneOn, Gaussian.Between;
      FitsIsAgrees();
      MarkedBad(Consts(), matrixSets, trail, trailLim, false, Some(|trailLim|));
      badlevel := Some(|trailLim|);
      quiet := true;
    }

    /** `set_matrixset_to_cur`, if the level is one for which a matrix is kept. */
    method KeepMatrix()
      requires UpToDate() && gauss.Between() && gauss.leastColumnChanged == UNCHANGED && gauss.numRows >= 1
      modifies this`matrixSets, this`quiet
      ensures Inv() && ok && !pending && quiet
    {
      hide TrailOk, SetsOk, OpenOk, DoneOn, LeftOpen, SavedFor, SetOk, Gaussian.Between;
      Lims();
      OpenNow();
      FitsIsAgrees();
      if |trailLim| % onlyNthGaussSave == 0 {
        var s := gauss.CurrentSet();
        RowsMarked();
        KeptNow(Consts(), matrixSets, trail, trailLim, s);
        matrixSets := Stored(matrixSets, |trailLim| / onlyNthGaussSave, s);
      }
      quiet := true;
    }

    lemma RowsMarked()
      requires GaussValid()
      ensures gauss.numRows <= |gauss.seen2|
    {
    }

    lemma KnownVar(v: nat)
      requires Inv() && v in gauss.colToVarOriginal
      ensures v < nVars
    {
    }

    lemma InvLims()
      requires Inv()
      ensures LimsOk(trail, trailLim)
    {
      Lims();
    }

    /** The first literals are set in order, up to a clause of one literal, which goes to level zero. */
    method SetHeads(cs: seq<seq<Lit>>)
      requires Inv() && ok && !pending && HeadsNew(cs, gauss.colToVarOriginal, assigns)
      modifies this`messed, this`assigns, this`level, this`trail, this`trailLim, this`pending, this`quiet
      ensures Inv() && !pending && SetBy(old(trail), old(trailLim), cs, trail, trailLim)
    {
      hide Search.Inv;
      InvLims();
      var origLevel := |trailLim|;
      for q := 0 to |cs|
        invariant Inv() && !pending && trailLim == old(trailLim) && Extended(old(trail), cs, q, trail)
        invariant origLevel != 0 ==> forall p {:trigger cs[p]} :: 0 <= p < q ==> |cs[p]| != 1
        invariant forall p {:trigger cs[p]} :: q <= p < |cs| ==> |cs[p]| > 0 && cs[p][0].v !in assigns
      {
        if |cs[q]| == 1 {
          CancelUntil(0);
        }
        KnownVar(cs[q][0].v);
        Enqueue(cs[q][0]);
        if |cs[q]| == 1 && origLevel != 0 {
          assert FirstUnit(cs) == q;
          return;
        }
      }
      assert origLevel != 0 ==> FirstUnit(cs) == |cs|;
    }

    /** The highest level of the variables of a clause. */
    ghost predicate IsLevelOfClause(clause: seq<Lit>, m: nat)
      reads `level
    {
      && (forall l {:trigger l in clause} :: l in clause ==> l.v in level && level[l.v] <= m)
      && (m == 0 || exists l {:trigger l in clause} :: l in clause && l.v in level && level[l.v] == m)
    }

    method MaxLevel(clause: seq<Lit>) returns (m: nat)
      requires forall l {:trigger l in clause} :: l in clause ==> l.v in level
      ensures IsLevelOfClause(clause, m)
    {
      m := 0;
      for i := 0 to |clause|
        invariant forall k {:trigger clause[k]} :: 0 <= k < i ==> clause[k] in clause && level[clause[k].v] <= m
        invariant m == 0 || exists l {:trigger l in clause} :: l in clause && level[l.v] == m
      {
        assert clause[i] in clause;
        if level[clause[i].v] > m {
          m := level[clause[i].v];
        }
      }
    }

    /** A variable of the matrix that has a value has lost its column. */
    lemma AssignedSubstituted(v: nat)
      requires UpToDate() && v in gauss.colToVarOriginal && v in assigns
      ensures Substituted(v)
    {
      assert gauss.colToVarOriginal[varToCol[v]] == v;
    }

    /** After a conflict: a clause of one literal sets it at level zero, a longer one is left to the caller. */
    method HandleConflict(clause: seq<Lit>) returns (found: Found)
      requires UpToDate() && VarsIn(clause, gauss.colToVarOriginal)
      requires forall i {:trigger clause[i]} :: 0 <= i < |clause| ==> FalseIn(assigns, clause[i])
      modifies this`messed, this`assigns, this`level, this`trail, this`trailLim, this`pending, this`quiet,
        this`badlevel,
        this`ok
      ensures Inv() && (ok <==> found != Unsatisfiable)
        && (found == Continues || found == HasConflict || found == Unsatisfiable)
      ensures pending <==> found == HasConflict
      ensures found == HasConflict ==>
        |clause| >= 2 && forall l {:trigger l in clause} :: l in clause ==> Value(assigns, l) == False
      ensures found == Unsatisfiable ==>
        |clause| <= 1 && forall l {:trigger l in clause} :: l in clause ==> trailLim == [] && Value(assigns, l) == False
      ensures found == Continues ==> |clause| == 1 && SetBy(old(trail), old(trailLim), [clause], trail, trailLim)
      ensures found == HasConflict ==>
        IsLevelOfClause(clause, |trailLim|) && |trailLim| <= |old(trailLim)|
        && trail == Before(old(trail), old(trailLim), |trailLim|) && trailLim == old(trailLim)[..|trailLim|]
      ensures badlevel == if gauss.numCols == 0 || gauss.numRows == 0
        then Some(if |clause| <= 1 then |old(trailLim)| else |trailLim|) else None
    {
      if |clause| <= 1 {
        found := UnitConflict(clause);
      } else {
        found := HasConflict;
        LongConflict(clause);
      }
    }

    /** Where a variable of the clause stands on the trail. */
    lemma ConflictVar(l: Lit) returns (i: nat)
      requires UpToDate() && l.v in gauss.colToVarOriginal && FalseIn(assigns, l)
      ensures i < |trail| && trail[i] == l.Neg() && Substituted(l.v) && l.v in level
        && IsLevelOf(trailLim, i, level[l.v])
    {
      AssignedSubstituted(l.v);
      i := OnTrail(trail, trailLim, assigns, level, nVars, l.Neg());
    }

    method UnitConflict(clause: seq<Lit>) returns (found: Found)
      requires UpToDate() && |clause| <= 1 && VarsIn(clause, gauss.colToVarOriginal)
      requires forall i {:trigger clause[i]} :: 0 <= i < |clause| ==> FalseIn(assigns, clause[i])
      modifies this`messed, this`assigns, this`level, this`trail, this`trailLim, this`pending, this`quiet,
        this`badlevel,
        this`ok
      ensures Inv() && !pending && (ok <==> found == Continues) && (found == Continues || found == Unsatisfiable)
      ensures found == Unsatisfiable ==>
        forall l {:trigger l in clause} :: l in clause ==> trailLim == [] && Value(assigns, l) == False
      ensures found == Continues ==> |clause| == 1 && SetBy(old(trail), old(trailLim), [clause], trail, trailLim)
      ensures badlevel == if gauss.numCols == 0 || gauss.numRows == 0 then Some(|old(trailLim)|) else None
    {
      hide TrailOk, SetsOk, OpenOk, DoneOn, LeftOpen, Gaussian.Between, Search.GaussValid, IsLevelOf, Gaussian.Agrees,
        Gaussian.AllSubstituted;
      MarkedBad(Consts(), matrixSets, trail, trailLim, false, Some(|trailLim|));
      found := Unsatisfiable;
      ghost var at := 0;
      if clause != [] {
        at := ConflictVar(clause[0]);
      }
      if gauss.numCols == 0 || gauss.numRows == 0 {
        badlevel := Some(|trailLim|);
      }
      if clause == [] {
        ok := false;
        return;
      }
      var lit := clause[0];
      hide Search.TrailValid, Search.LevelsOk, Search.CurrentOk, Search.QuietOk;
      BackToZero(lit, at);
      if Value(assigns, lit) != Undef {
        ok := false;
      } else {
        KnownInTrail(lit.v);
        Enqueue(lit);
        found := Continues;
      }
    }

    /** All levels are undone: the literal keeps its value, or a substituted column loses its own. */
    method BackToZero(lit: Lit, ghost at: nat)
      requires ok && !disabled && !messed && !pending && !quiet && gaussLastLevel == |trail|
      requires TrailValid() && GaussValid() && LevelsOk() && at < |trail| && trail[at] == lit.Neg()
        && Substituted(lit.v)
      modifies this`messed, this`assigns, this`trail, this`trailLim
      ensures TrailValid() && GaussValid() && trailLim == []
        && (Value(assigns, lit) == False || Value(assigns, lit) == Undef)
      ensures Value(assigns, lit) == Undef ==>
        Inv() && old(trailLim) != [] && trail == Before(old(trail), old(trailLim), 0)
    {
      hide TrailOk, SetsOk, OpenOk, DoneOn, LeftOpen, Gaussian.Between, Search.GaussValid;
      ghost var trail0 := trail;
      WasFalse(at);
      if |trailLim| > 0 {
        Lims();
        CancelKeeps(Consts(), matrixSets, badlevel, trail, trailLim, false, 0, true);
        Undo(0);
      }
      assert trail0[at].v == lit.v;
    }

    lemma WasFalse(at: nat)
      requires TrailValid() && at < |trail|
      ensures Value(assigns, trail[at].Neg()) == False && trail[at].Neg().Neg() == trail[at]
    {
      assert EntryOk(trail, trailLim, assigns, level, nVars, at);
    }

    lemma KnownInTrail(v: nat)
      requires TrailValid() && v in gauss.colToVarOriginal
      ensures v < nVars
    {
    }

    method LongConflict(clause: seq<Lit>)
      requires UpToDate() && |clause| >= 2 && VarsIn(clause, gauss.colToVarOriginal)
      requires forall i {:trigger clause[i]} :: 0 <= i < |clause| ==> FalseIn(assigns, clause[i])
      modifies this`messed, this`assigns, this`level, this`trail, this`trailLim, this`pending, this`quiet,
        this`badlevel,
        this`ok
      ensures Inv() && ok && pending && forall l {:trigger l in clause} :: l in clause ==> Value(assigns, l) == False
      ensures IsLevelOfClause(clause, |trailLim|) && |trailLim| <= |old(trailLim)|
        && trail == Before(old(trail), old(trailLim), |trailLim|) && trailLim == old(trailLim)[..|trailLim|]
      ensures badlevel == if gauss.numCols == 0 || gauss.numRows == 0 then Some(|trailLim|) else None
    {
      hide TrailOk, SetsOk, OpenOk, DoneOn, LeftOpen, Gaussian.Between, Search.GaussValid, Search.TrailValid,
        Gaussian.Agrees, Gaussian.AllSubstituted, FalseIn;
      ConflictVars(clause);
      var m := MaxLevel(clause);
      LevelBounded(clause, m);
      BackTo(clause, m);
      MarkedBad(Consts(), matrixSets, trail, trailLim, false, Some(|trailLim|));
      messed := true;
      if gauss.numCols == 0 || gauss.numRows == 0 {
        badlevel := Some(|trailLim|);
      }
      pending := true;
    }

    /** The levels above that of the conflict are undone. */
    method BackTo(clause: seq<Lit>, m: nat)
      requires UpToDate() && m <= |trailLim|
      requires forall l {:trigger l in clause} ::
        l in clause ==> l.v in level && l.v in gauss.colToVarOriginal && FalseIn(assigns, l)
      requires forall l {:trigger l in clause} :: l in clause ==> level[l.v] <= m
      modifies this`messed, this`assigns, this`trail, this`trailLim
      ensures TrailValid() && |trailLim| == m
        && forall l {:trigger l in clause} :: l in clause ==> Value(assigns, l) == False
      ensures m <= |old(trailLim)| && trail == Before(old(trail), old(trailLim), m) && trailLim == old(trailLim)[..m]
      ensures SetsOk(Consts(), matrixSets, None, trail, trailLim, false) && OpenOk(Consts(), None, trail, trailLim)
    {
      hide TrailOk, SetsOk, OpenOk, Gaussian.Between, Search.GaussValid, Gaussian.Agrees, Gaussian.AllSubstituted,
        FalseIn;
      FalseMeans(clause);
      if m != |trailLim| {
        Lims();
        CancelKeeps(Consts(), matrixSets, None, trail, trailLim, false, m, false);
        BelowLevel(clause, m);
        Undo(m);
      }
    }

    lemma FalseMeans(clause: seq<Lit>)
      requires forall l {:trigger l in clause} :: l in clause ==> FalseIn(assigns, l)
      ensures forall l {:trigger l in clause} :: l in clause ==> Value(assigns, l) == False
    {
    }

    lemma ConflictVars(clause: seq<Lit>)
      requires UpToDate() && VarsIn(clause, gauss.colToVarOriginal)
      requires forall i {:trigger clause[i]} :: 0 <= i < |clause| ==> FalseIn(assigns, clause[i])
      ensures forall l {:trigger l in clause} ::
        l in clause ==> l.v in level && l.v in gauss.colToVarOriginal && FalseIn(assigns, l)
    {
    }

    lemma LevelBounded(clause: seq<Lit>, m: nat)
      requires UpToDate()
        && forall l {:trigger l in clause} ::
        l in clause ==> l.v in level && l.v in gauss.colToVarOriginal && FalseIn(assigns, l)
      requires m == 0 || exists l {:trigger l in clause} :: l in clause && level[l.v] == m
      ensures m <= |trailLim|
    {
      if m > 0 {
        var l :| l in clause && level[l.v] == m;
        var i := ConflictVar(l);
      }
    }

    /** The variables of a clause whose levels are at most `m` keep their values when the levels above are undone. */
    lemma BelowLevel(clause: seq<Lit>, m: nat)
      requires UpToDate()
        && forall l {:trigger l in clause} ::
        l in clause ==> l.v in level && l.v in gauss.colToVarOriginal && FalseIn(assigns, l)
      requires m < |trailLim| && forall l {:trigger l in clause} :: l in clause ==> level[l.v] <= m
      ensures forall l {:trigger l in clause} :: l in clause ==> exists i {:trigger trail[i]} ::
        0 <= i < trailLim[m] && i < |trail| && trail[i].v == l.v
    {
      forall l | l in clause
        ensures exists i {:trigger trail[i]} :: 0 <= i < trailLim[m] && i < |trail| && trail[i].v == l.v
      {
        var i := ConflictVar(l);
        Lims();
        NextOpensLater(trailLim, i, level[l.v]);
        assert trail[i].v == l.v;
      }
    }

    /**
     `find_truths`. Whatever levels were opened and undone before, the matrix used fits the trail: the current one, or
     the one kept for the level, which is there. What is reported follows from the XORs; with nothing found, the next
     level may be opened, and after a conflict one has to be undone.
     */
    method FindTruths(iterativeReduce: bool) 
      returns (found: Found, clauses: seq<seq<Lit>>, ghost r: Option<GaussRet>)
      requires Inv() && ok && !pending
      modifies this, gauss, gauss.matrix, gauss.matrix.mp
      ensures Inv() && (ok <==> found != Unsatisfiable) && (pending <==> found == HasConflict)
      ensures forall q {:trigger clauses[q]} ::
        0 <= q < |clauses| ==> ClauseFollows(gauss.original, gauss.colToVarOriginal, clauses[q])
      ensures r.None? <==> disabled || |old(trailLim)| >= decisionUntil || BadAt(old(badlevel), |old(trailLim)|)
      ensures r.None? ==> found == FoundNothing && clauses == [] && badlevel == old(badlevel)
      ensures r.Some? ==> gauss.ResultOk(r.value, old(assigns), |old(trailLim)|) && clauses == Reports(r.value)
      ensures r.Some? && r.value.Propagated? && old(Noticing()) ==>
        forall q: nat :: q in gauss.propagatableRows <==>
          q < gauss.numRows && exists c: nat :: Single(gauss.matrix.rows, q, c)
      ensures r.Some? ==> (badlevel.Some? <==> gauss.numCols == 0 || gauss.numRows == 0)
      ensures found == FoundNothing <==> r.None? || r.value == Propagated([])
      ensures found == FoundNothing ==> quiet && trail == old(trail) && trailLim == old(trailLim)
      ensures found == Continues ==>
        SetBy(old(trail), old(trailLim), clauses, trail, trailLim)
        && Forced(gauss.original, gauss.colToVarOriginal, Before(old(trail), old(trailLim), |trailLim|), trail)
      ensures found == HasConflict ==>
        |clauses| == 1 && IsLevelOfClause(clauses[0], |trailLim|)
        && |trailLim| <= |old(trailLim)|
        && trail == Before(old(trail), old(trailLim), |trailLim|) && trailLim == old(trailLim)[..|trailLim|]
      ensures found == HasConflict ==>
        |clauses| == 1 && |clauses[0]| >= 2
        && forall l {:trigger l in clauses[0]} :: l in clauses[0] ==> Value(assigns, l) == False
      ensures found == Unsatisfiable ==>
        |clauses| == 1
        && forall l {:trigger l in clauses[0]} :: l in clauses[0] ==> trailLim == [] && Value(assigns, l) == False
    {
      hide Search.Inv, Search.UpToDate, Gaussian.Between, Gaussian.ResultOk, ClauseFollows, SetBy, Forced,
        Search.IsLevelOfClause, Before, Single, AllCarriedOut, Search.Noticing;
      found, clauses, r := FoundNothing, [], None;
      DisableIfNecessary();
      if disabled || |trailLim| >= decisionUntil || (badlevel.Some? && |trailLim| >= badlevel.value) {
        NothingToDo();
        return;
      }
      var round := Round(iterativeReduce);
      r := Some(round);
      found, clauses := ActOn(round);
    }

    /** What the result of a round leads to. */
    method ActOn(r: GaussRet) returns (found: Found, clauses: seq<seq<Lit>>)
      requires UpToDate() && gauss.ResultOk(r, assigns, |trailLim|)
      requires r.Propagated? ==> gauss.Between() && gauss.leastColumnChanged == UNCHANGED
      modifies this`messed, this`assigns, this`level, this`trail, this`trailLim, this`pending, this`quiet,
        this`badlevel,
        this`matrixSets, this`ok
      ensures Inv() && (ok <==> found != Unsatisfiable) && (pending <==> found == HasConflict) && clauses == Reports(r)
      ensures forall q {:trigger clauses[q]} ::
        0 <= q < |clauses| ==> ClauseFollows(gauss.original, gauss.colToVarOriginal, clauses[q])
      ensures badlevel.Some? <==> gauss.numCols == 0 || gauss.numRows == 0
      ensures found == FoundNothing <==> r == Propagated([])
      ensures found == FoundNothing ==> quiet && trail == old(trail) && trailLim == old(trailLim)
      ensures found == Continues ==>
        SetBy(old(trail), old(trailLim), clauses, trail, trailLim)
        && Forced(gauss.original, gauss.colToVarOriginal, Before(old(trail), old(trailLim), |trailLim|), trail)
      ensures found == HasConflict ==>
        |clauses| == 1 && |clauses[0]| >= 2 && IsLevelOfClause(clauses[0], |trailLim|) && |trailLim| <= |old(trailLim)|
        && trail == Before(old(trail), old(trailLim), |trailLim|) && trailLim == old(trailLim)[..|trailLim|]
        && forall l {:trigger l in clauses[0]} :: l in clauses[0] ==> Value(assigns, l) == False
      ensures found == Unsatisfiable ==>
        |clauses| == 1
        && forall l {:trigger l in clauses[0]} :: l in clauses[0] ==> trailLim == [] && Value(assigns, l) == False
    {
      hide Search.Inv, Search.UpToDate, Gaussian.Between, Gaussian.ResultOk, ClauseFollows, HeadsNew, SetBy, Forced,
        Search.IsLevelOfClause, Before;
      RoundOk();
      Reported(r);
      clauses := Reports(r);
      match r {
        case Conflict(clause) =>
          found := HandleConflict(clause);
        case Propagated(cs) =>
          found := HandlePropagations(cs);
      }
      if found == Continues {
        NoneBehind(clauses, old(trail));
        SetIsForced(gauss.original, gauss.colToVarOriginal, old(trail), old(trailLim), clauses, trail, trailLim);
      }
    }

    lemma NoneBehind(cs: seq<seq<Lit>>, t: seq<Lit>)
      ensures |cs| == 1 && |cs[0]| == 1 ==> RestFalse(cs, t)
    {
    }

    /** The clauses of a round. */
    function Reports(r: GaussRet): seq<seq<Lit>> {
      match r case Conflict(clause) => [clause] case Propagated(cs) => cs
    }

    /**
     Elimination looks at rows that have changed; the others have no single variable left, or had one that has been
     set: so it is if the matrix is as built, or if what the last round found has been carried out.
     */
    ghost predicate Noticing()
      reads this, gauss, gauss.matrix
    {
      if messed then
        var k := if onlyNthGaussSave > 0 then |trailLim| / onlyNthGaussSave else 0;
        k < |matrixSets| && (matrixSets[k].leastColumnChanged == -1
          || AllCarriedOut(matrixSets[k].rows, gauss.colToVarOriginal, assigns))
      else gauss.leastColumnChanged == -1 || AllCarriedOut(gauss.matrix.rows, gauss.colToVarOriginal, assigns)
    }

    /** `disable_if_necessary`: when it finds too little, which is counted elsewhere. */
    method DisableIfNecessary()
      requires Inv()
      modifies this`disabled
      ensures Inv() && (old(Noticing()) ==> Noticing())
    {
      if * {
        disabled := true;
      }
    }

    method NothingToDo()
      requires Inv() && !pending && (disabled || |trailLim| >= decisionUntil || BadAt(badlevel, |trailLim|))
      modifies this`quiet
      ensures Inv() && quiet
    {
      hide TrailOk, SetsOk, OpenOk, DoneOn, LeftOpen, Gaussian.Between, Search.GaussValid, Search.CurrentOk;
      quiet := true;
    }

    lemma RoundOk()
      requires UpToDate()
      ensures TrailValid() && gauss.MatrixOk() && ok && !pending
    {
    }

    lemma Reported(r: GaussRet)
      requires TrailValid() && gauss.MatrixOk() && gauss.ResultOk(r, assigns, |trailLim|)
      ensures match r
        case Conflict(clause) =>
          && (forall i {:trigger clause[i]} :: 0 <= i < |clause| ==> FalseIn(assigns, clause[i]))
            && VarsIn(clause, gauss.colToVarOriginal)
          && ClauseFollows(gauss.original, gauss.colToVarOriginal, clause)
        case Propagated(cs) =>
          && HeadsNew(cs, gauss.colToVarOriginal, assigns) && (cs != [] ==> gauss.numRows >= 1) && RestFalse(cs, trail)
          && forall q {:trigger cs[q]} :: 0 <= q < |cs| ==> ClauseFollows(gauss.original, gauss.colToVarOriginal, cs[q])
    {
      match r {
        case Conflict(_) =>
        case Propagated(cs) =>
          assert cs != [] ==> cs[0] == cs[0] && gauss.propagatableRows[0] < |gauss.matrix.rows|;
      }
    }
  }
}
