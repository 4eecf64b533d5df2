/**
 Clauses read off XOR rows. (cryptoms/packedrow.h:302-335, cryptoms/gaussian.cpp)
 */
module XorClauses {
  import opened Literals
  import opened Watches
  import opened XorRows

  ghost predicate DistinctVars(vs: seq<nat>) {
    forall i, j {:trigger vs[i], vs[j]} :: 0 <= i < j < |vs| ==> vs[i] != vs[j]
  }

  /** The columns whose variable is true in the model. */
  ghost function ColsOf(m: Model, order: seq<nat>): iset<nat> {
    iset k: nat | k < |order| && order[k] in m
  }

  /** The columns whose variable is assigned true. */
  ghost function TruthCols(a: Assigns, order: seq<nat>): iset<nat> {
    iset k: nat | k < |order| && order[k] in a && a[order[k]]
  }

  ghost predicate RowIn(h: Half, order: seq<nat>) {
    forall k {:trigger h.bits[k]} :: 0 <= k < |h.bits| && h.bits[k] ==> k < |order|
  }

  /** A column of the row whose variable has no value. */
  ghost predicate UndefAt(h: Half, order: seq<nat>, a: Assigns, k: nat) {
    k < |h.bits| && h.bits[k] && k < |order| && order[k] !in a
  }

  ghost predicate AtMostOneUndef(h: Half, order: seq<nat>, a: Assigns) {
    forall k: nat, q: nat {:trigger UndefAt(h, order, a, k), UndefAt(h, order, a, q)} ::
      UndefAt(h, order, a, k) && UndefAt(h, order, a, q) ==> k == q
  }

  /** The parity of the assigned values misses the right-hand side. */
  ghost predicate Violated(h: Half, order: seq<nat>, a: Assigns) {
    !Holds(h, TruthCols(a, order))
  }

  // ----- XORs over variables -----

  /** An XOR constraint: the variables sum up to the right-hand side. */
  datatype Xor = Xor(vars: seq<nat>, rhs: bool)

  ghost predicate SumOf(vs: seq<nat>, m: Model) {
    if vs == [] then false else SumOf(vs[..|vs| - 1], m) != (vs[|vs| - 1] in m)
  }

  ghost predicate XorTrue(m: Model, x: Xor) {
    SumOf(x.vars, m) == x.rhs
  }

  /** The row that stands for an XOR: a one for each of its variables, in the column the order gives it. */
  ghost predicate RowOf(h: Half, x: Xor, order: seq<nat>) {
    && h.rhs == x.rhs && |order| <= |h.bits|
    && forall k {:trigger h.bits[k]} :: 0 <= k < |h.bits| ==> (h.bits[k] <==> k < |order| && order[k] in x.vars)
  }

  lemma {:induction false} SumIsParity(bits: seq<bool>, vs: seq<nat>, order: seq<nat>, m: Model)
    requires DistinctVars(order) && DistinctVars(vs) && |order| <= |bits| && forall v :: v in vs ==> v in order
    requires forall k {:trigger bits[k]} :: 0 <= k < |bits| ==> (bits[k] <==> k < |order| && order[k] in vs)
    ensures SumOf(vs, m) == Parity(bits, ColsOf(m, order))
    decreases |vs|
  {
    if vs == [] {
      ParityZero(bits, ColsOf(m, order));
    } else {
      var v := vs[|vs| - 1];
      assert v in vs;
      var c: nat :| c < |order| && order[c] == v;
      var rest := vs[..|vs| - 1];
      assert vs == rest + [v];
      SumIsParity(bits[c := false], rest, order, m);
      ParityClear(bits, c, ColsOf(m, order));
    }
  }

  /** The row says what the XOR says. */
  lemma RowMeaning(h: Half, x: Xor, order: seq<nat>, m: Model)
    requires RowOf(h, x, order) && DistinctVars(order) && DistinctVars(x.vars) && forall v :: v in x.vars ==> v in order
    ensures Holds(h, ColsOf(m, order)) <==> XorTrue(m, x)
  {
    SumIsParity(h.bits, x.vars, order, m);
  }

  // ----- the clause of a row -----

  /** Column `k` of the row, with the variable `v`. */
  ghost predicate RowCol(bits: seq<bool>, order: seq<nat>, k: nat, v: nat) {
    k < |bits| && bits[k] && k < |order| && order[k] == v
  }

  ghost predicate HasVar(bits: seq<bool>, order: seq<nat>, v: nat) {
    exists k: nat :: RowCol(bits, order, k, v)
  }

  ghost predicate VarIn(clause: seq<Lit>, v: nat) {
    exists i {:trigger clause[i]} :: 0 <= i < |clause| && clause[i].v == v
  }

  /** One literal for each column of the row. */
  ghost predicate LitsOfRow(bits: seq<bool>, order: seq<nat>, clause: seq<Lit>) {
    && (forall i {:trigger clause[i]} :: 0 <= i < |clause| ==> HasVar(bits, order, clause[i].v))
    && (forall k: nat, v: nat {:trigger RowCol(bits, order, k, v)} :: RowCol(bits, order, k, v) ==> VarIn(clause, v))
    && forall i, j {:trigger clause[i], clause[j]} :: 0 <= i < j < |clause| ==> clause[i].v != clause[j].v
  }

  ghost predicate FalseIn(a: Assigns, l: Lit) {
    l.v in a && a[l.v] == l.sign
  }

  /**
   What `fill` promises: a literal for every variable of the row; all of them false, except that the variable
   without a value, if there is one, comes first with the sign the XOR forces.
   */
  ghost predicate Filled(h: Half, order: seq<nat>, a: Assigns, clause: seq<Lit>, wasUndef: bool) {
    && LitsOfRow(h.bits, order, clause)
    && (wasUndef <==> exists k: nat :: UndefAt(h, order, a, k))
    && (forall i {:trigger clause[i]} :: 0 <= i < |clause| && !(wasUndef && i == 0) ==> FalseIn(a, clause[i]))
    && (wasUndef ==>
      |clause| > 0 && clause[0].v !in a && clause[0].sign == (h.rhs == Parity(h.bits, TruthCols(a, order))))
  }

  /** Among the models that extend the assignment, the row holds iff the first literal does. */
  lemma FilledMeaning(h: Half, order: seq<nat>, a: Assigns, clause: seq<Lit>, wasUndef: bool, m: Model)
    requires Filled(h, order, a, clause, wasUndef) && RowIn(h, order) && AtMostOneUndef(h, order, a)
      && DistinctVars(order)
    requires forall i {:trigger clause[i]} ::
      0 <= i < |clause| && clause[i].v in a ==> (clause[i].v in m <==> a[clause[i].v])
    ensures Holds(h, ColsOf(m, order)) <==> if wasUndef then LitTrue(m, clause[0]) else !Violated(h, order, a)
  {
    var xs, ys := ColsOf(m, order), TruthCols(a, order);
    if wasUndef {
      var u: nat :| UndefAt(h, order, a, u);
      FirstIsUndef(h, order, a, clause, u);
      SameElsewhere(h, order, a, clause, m, u);
      ParityClear(h.bits, u, xs);
      ParityClear(h.bits, u, ys);
      ParitySame(h.bits[u := false], xs, ys);
    } else {
      SameElsewhere(h, order, a, clause, m, |h.bits|);
      ParitySame(h.bits, xs, ys);
    }
  }

  lemma FirstIsUndef(h: Half, order: seq<nat>, a: Assigns, clause: seq<Lit>, u: nat)
    requires Filled(h, order, a, clause, true) && AtMostOneUndef(h, order, a) && UndefAt(h, order, a, u)
    ensures order[u] == clause[0].v
  {
    var k: nat :| RowCol(h.bits, order, k, clause[0].v);
    assert UndefAt(h, order, a, k);
  }

  lemma SameElsewhere(h: Half, order: seq<nat>, a: Assigns, clause: seq<Lit>, m: Model, u: nat)
    requires LitsOfRow(h.bits, order, clause) && RowIn(h, order)
    requires forall k: nat {:trigger UndefAt(h, order, a, k)} :: UndefAt(h, order, a, k) ==> k == u
    requires forall i {:trigger clause[i]} ::
      0 <= i < |clause| && clause[i].v in a ==> (clause[i].v in m <==> a[clause[i].v])
    ensures forall k: nat ::
      k < |h.bits| && h.bits[k] && k != u ==> (k in ColsOf(m, order) <==> k in TruthCols(a, order))
  {
    forall k: nat | k < |h.bits| && h.bits[k] && k != u
      ensures k in ColsOf(m, order) <==> k in TruthCols(a, order)
    {
      assert !UndefAt(h, order, a, k);
      assert RowCol(h.bits, order, k, order[k]);
      assert VarIn(clause, order[k]);
      var i :| 0 <= i < |clause| && clause[i].v == order[k];
    }
  }

  /** The clause follows from the row, unless the row is satisfied already. */
  lemma FilledEntailed(h: Half, order: seq<nat>, a: Assigns, clause: seq<Lit>, wasUndef: bool, m: Model)
    requires Filled(h, order, a, clause, wasUndef) && RowIn(h, order) && AtMostOneUndef(h, order, a)
      && DistinctVars(order)
    requires wasUndef || Violated(h, order, a)
    requires Holds(h, ColsOf(m, order))
    ensures ClauseTrue(m, Lits(clause))
  {
    assert wasUndef ==> clause[0] in Lits(clause);
    if !ClauseTrue(m, Lits(clause)) {
      forall i | 0 <= i < |clause| && clause[i].v in a
        ensures clause[i].v in m <==> a[clause[i].v]
      {
        assert clause[i] in Lits(clause) && !LitTrue(m, clause[i]);
      }
      FilledMeaning(h, order, a, clause, wasUndef, m);
    }
  }

  /** A row without unassigned variables gives an entailed clause exactly when its parity is violated. */
  lemma FilledConflict(h: Half, order: seq<nat>, a: Assigns, clause: seq<Lit>)
    requires Filled(h, order, a, clause, false) && RowIn(h, order) && DistinctVars(order)
    ensures (forall m: Model :: Holds(h, ColsOf(m, order)) ==> ClauseTrue(m, Lits(clause))) <==> Violated(h, order, a)
  {
    assert AtMostOneUndef(h, order, a);
    if Violated(h, order, a) {
      forall m: Model | Holds(h, ColsOf(m, order))
        ensures ClauseTrue(m, Lits(clause))
      {
        FilledEntailed(h, order, a, clause, false, m);
      }
    } else {
      var m: Model := iset v | v in a && a[v];
      FilledMeaning(h, order, a, clause, false, m);
      forall l | l in Lits(clause)
        ensures !LitTrue(m, l)
      {
        var i :| 0 <= i < |clause| && clause[i] == l;
      }
    }
  }

  /** For a row of two variables the clause of the two opposite literals follows as well. */
  lemma FilledBinary(h: Half, order: seq<nat>, a: Assigns, clause: seq<Lit>, m: Model)
    requires Filled(h, order, a, clause, true) && RowIn(h, order) && AtMostOneUndef(h, order, a) && DistinctVars(order)
    requires |clause| == 2 && Holds(h, ColsOf(m, order))
    ensures ClauseTrue(m, {clause[0].Neg(), clause[1].Neg()})
  {
    assert FalseIn(a, clause[1]);
    var m' := iset v: nat | if v == clause[0].v || v == clause[1].v then v !in m else v in m;
    FlippedBoth(h, order, clause, m, m');
    FilledEntailed(h, order, a, clause, true, m');
    var l :| l in Lits(clause) && LitTrue(m', l);
    assert l == clause[0] || l == clause[1];
    assert LitTrue(m, l.Neg());
  }

  /** Flipping both variables of a row keeps its parity. */
  lemma FlippedBoth(h: Half, order: seq<nat>, clause: seq<Lit>, m: Model, m': Model)
    requires LitsOfRow(h.bits, order, clause) && RowIn(h, order) && DistinctVars(order) && |clause| == 2
      && clause[0].v != clause[1].v
    requires m' == iset v: nat | if v == clause[0].v || v == clause[1].v then v !in m else v in m
    ensures Parity(h.bits, ColsOf(m', order)) == Parity(h.bits, ColsOf(m, order))
  {
    var k: nat :| RowCol(h.bits, order, k, clause[0].v);
    var q: nat :| RowCol(h.bits, order, q, clause[1].v);
    var xs, ys := ColsOf(m, order), ColsOf(m', order);
    var b := h.bits[k := false];
    ParityClear(h.bits, k, xs);
    ParityClear(h.bits, k, ys);
    ParityClear(b, q, xs);
    ParityClear(b, q, ys);
    forall c: nat | c < |h.bits| && h.bits[c]
      ensures c == k || c == q
    {
      OnlyTwo(h, order, clause, k, q, c);
    }
    ParitySame(b[q := false], xs, ys);
  }

  lemma OnlyTwo(h: Half, order: seq<nat>, clause: seq<Lit>, k: nat, q: nat, c: nat)
    requires LitsOfRow(h.bits, order, clause) && RowIn(h, order) && DistinctVars(order) && |clause| == 2
    requires RowCol(h.bits, order, k, clause[0].v) && RowCol(h.bits, order, q, clause[1].v) && c < |h.bits| && h.bits[c]
    ensures c == k || c == q
  {
    assert RowCol(h.bits, order, c, order[c]);
    var i :| 0 <= i < |clause| && clause[i].v == order[c];
  }

  // ----- building the clause -----

  /** The state of `fill` after the columns in `bits`: the sign of the unassigned variable is still open. */
  ghost predicate Filling(bits: seq<bool>, rhs: bool, order: seq<nat>, a: Assigns, clause: seq<Lit>, wasUndef: bool,
                          final: bool)
  {
    && LitsOfRow(bits, order, clause)
    && (wasUndef <==> exists k: nat :: UndefAt(Half(bits, rhs), order, a, k))
    && (forall i {:trigger clause[i]} :: 0 <= i < |clause| && !(wasUndef && i == 0) ==> FalseIn(a, clause[i]))
    && (wasUndef ==> |clause| > 0 && clause[0].v !in a && !clause[0].sign)
    && final == (rhs == Parity(bits, TruthCols(a, order)))
  }

  /** The literal added for a column, moved to the front if its variable has no value. */
  function Pushed(clause: seq<Lit>, v: nat, a: Assigns): seq<Lit> {
    var c := clause + [Lit(v, v in a && a[v])];
    if v in a then c else c[0 := c[|clause|]][|clause| := c[0]]
  }

  lemma LitsNext(bits: seq<bool>, order: seq<nat>, clause: seq<Lit>, a: Assigns)
    requires LitsOfRow(bits, order, clause) && |bits| < |order| && DistinctVars(order)
    ensures LitsOfRow(bits + [true], order, Pushed(clause, order[|bits|], a))
  {
    var n, v := |bits|, order[|bits|];
    var bits', clause' := bits + [true], Pushed(clause, order[|bits|], a);
    assert forall k: nat, w: nat {:trigger RowCol(bits', order, k, w)} {:trigger RowCol(bits, order, k, w)} ::
      RowCol(bits', order, k, w) <==> RowCol(bits, order, k, w) || (k == n && w == v);
    forall i | 0 <= i < |clause|
      ensures clause[i].v != v
    {
      assert HasVar(bits, order, clause[i].v);
    }
    PushedVars(clause, v, a);
    forall i | 0 <= i < |clause'|
      ensures HasVar(bits', order, clause'[i].v)
    {
      if clause'[i].v == v {
        assert RowCol(bits', order, n, v);
      } else {
        var q :| 0 <= q < |clause| && clause[q].v == clause'[i].v;
        assert HasVar(bits, order, clause[q].v);
        var k: nat :| RowCol(bits, order, k, clause[q].v);
        assert RowCol(bits', order, k, clause'[i].v);
      }
    }
    forall k: nat, w: nat | RowCol(bits', order, k, w)
      ensures VarIn(clause', w)
    {
      assert w != v ==> RowCol(bits, order, k, w) && VarIn(clause, w);
    }
  }

  lemma PushedVars(clause: seq<Lit>, v: nat, a: Assigns)
    requires forall i {:trigger clause[i]} :: 0 <= i < |clause| ==> clause[i].v != v
    requires forall i, j {:trigger clause[i], clause[j]} :: 0 <= i < j < |clause| ==> clause[i].v != clause[j].v
    ensures var c := Pushed(clause, v, a);
      && (forall w: nat {:trigger VarIn(c, w)} {:trigger VarIn(clause, w)} ::
        VarIn(c, w) <==> VarIn(clause, w) || w == v)
      && (forall i {:trigger c[i]} :: 0 <= i < |c| ==> c[i].v == v || VarIn(clause, c[i].v))
      && forall i, j {:trigger c[i], c[j]} :: 0 <= i < j < |c| ==> c[i].v != c[j].v
  {
    var c, n := Pushed(clause, v, a), |clause|;
    assert forall i :: 0 <= i < n ==> VarIn(clause, clause[i].v);
    forall w: nat
      ensures VarIn(c, w) <==> VarIn(clause, w) || w == v
    {
      if VarIn(clause, w) {
        var i :| 0 <= i < n && clause[i].v == w;
        assert v in a || i != 0 ==> c[i] == clause[i];
        assert v !in a && i == 0 ==> c[n] == clause[0];
      }
      assert v in a ==> c[n].v == v;
      assert v !in a ==> c[0].v == v;
    }
  }

  /** One more column that is set. */
  lemma FillingNext(bits: seq<bool>, rhs: bool, order: seq<nat>, a: Assigns, clause: seq<Lit>, wasUndef: bool,
                    final: bool)
    requires Filling(bits, rhs, order, a, clause, wasUndef, final) && |bits| < |order| && DistinctVars(order)
    requires wasUndef ==> order[|bits|] in a
    ensures var v := order[|bits|];
      Filling(bits + [true], rhs, order, a, Pushed(clause, v, a), wasUndef || v !in a, final != (v in a && a[v]))
  {
    var n, v := |bits|, order[|bits|];
    var bits', clause' := bits + [true], Pushed(clause, v, a);
    LitsNext(bits, order, clause, a);
    assert bits'[..|bits'| - 1] == bits;
    var h, h' := Half(bits, rhs), Half(bits', rhs);
    assert forall k: nat {:trigger UndefAt(h', order, a, k)} {:trigger UndefAt(h, order, a, k)} ::
      UndefAt(h', order, a, k) <==> UndefAt(h, order, a, k) || (k == n && v !in a);
    if v !in a {
      assert UndefAt(h', order, a, n);
    }
    if wasUndef {
      var k: nat :| UndefAt(h, order, a, k);
      assert UndefAt(h', order, a, k);
    }
  }

  /** One more column that is not set. */
  lemma FillingSkip(bits: seq<bool>, rhs: bool, order: seq<nat>, a: Assigns, clause: seq<Lit>, wasUndef: bool,
                    final: bool)
    requires Filling(bits, rhs, order, a, clause, wasUndef, final)
    ensures Filling(bits + [false], rhs, order, a, clause, wasUndef, final)
  {
    var bits' := bits + [false];
    assert bits'[..|bits'| - 1] == bits;
    assert forall k: nat, w: nat {:trigger RowCol(bits', order, k, w)} {:trigger RowCol(bits, order, k, w)} ::
      RowCol(bits', order, k, w) <==> RowCol(bits, order, k, w);
    var h, h' := Half(bits, rhs), Half(bits', rhs);
    assert forall k: nat {:trigger UndefAt(h', order, a, k)} {:trigger UndefAt(h, order, a, k)} ::
      UndefAt(h', order, a, k) <==> UndefAt(h, order, a, k);
    if wasUndef {
      var k: nat :| UndefAt(h, order, a, k);
      assert UndefAt(h', order, a, k);
    }
    forall i | 0 <= i < |clause|
      ensures HasVar(bits', order, clause[i].v)
    {
      assert HasVar(bits, order, clause[i].v);
      var k: nat :| RowCol(bits, order, k, clause[i].v);
      assert RowCol(bits', order, k, clause[i].v);
    }
  }

  lemma FillingStart(rhs: bool, order: seq<nat>, a: Assigns)
    ensures Filling([], rhs, order, a, [], false, !rhs)
  {
  }

  /** The sign of the unassigned variable put in. */
  lemma FillingDone(h: Half, order: seq<nat>, a: Assigns, clause: seq<Lit>, wasUndef: bool, final: bool)
    requires Filling(h.bits, h.rhs, order, a, clause, wasUndef, final)
    ensures Filled(h, order, a, if wasUndef then clause[0 := Lit(clause[0].v, clause[0].sign != final)]
      else clause, wasUndef)
    ensures !wasUndef ==> (final <==> !Violated(h, order, a))
  {
    if wasUndef {
      var clause' := clause[0 := Lit(clause[0].v, clause[0].sign != final)];
      forall i | 0 <= i < |clause|
        ensures clause'[i].v == clause[i].v && HasVar(h.bits, order, clause'[i].v)
      {
        assert HasVar(h.bits, order, clause[i].v);
      }
      forall v: nat | VarIn(clause, v)
        ensures VarIn(clause', v)
      {
        var i :| 0 <= i < |clause| && clause[i].v == v;
        assert clause'[i].v == v;
      }
      forall k: nat, v: nat | RowCol(h.bits, order, k, v)
        ensures VarIn(clause', v)
      {
        assert VarIn(clause, v);
      }
    }
  }

  /** Values added for variables outside the row make no difference. */
  lemma FilledBefore(h: Half, order: seq<nat>, a: Assigns, a': Assigns, clause: seq<Lit>, u: nat)
    requires Filled(h, order, a', clause, true) && RowIn(h, order)
    requires forall v {:trigger v in a} :: v in a ==> v in a' && a'[v] == a[v]
    requires UndefAt(h, order, a', u)
      && forall k: nat {:trigger UndefAt(h, order, a, k)} :: UndefAt(h, order, a, k) ==> k == u
    ensures Filled(h, order, a, clause, true)
  {
    assert UndefAt(h, order, a, u);
    forall k: nat {:trigger UndefAt(h, order, a', k)} | UndefAt(h, order, a', k)
      ensures k == u
    {
      assert UndefAt(h, order, a, k);
    }
    assert AtMostOneUndef(h, order, a');
    FirstIsUndef(h, order, a', clause, u);
    forall i | 0 < i < |clause|
      ensures FalseIn(a, clause[i])
    {
      assert HasVar(h.bits, order, clause[i].v);
      var k: nat :| RowCol(h.bits, order, k, clause[i].v);
      assert UndefAt(h, order, a, k) ==> k == u;
      assert FalseIn(a', clause[i]);
    }
    forall k: nat | k < |h.bits| && h.bits[k]
      ensures k in TruthCols(a, order) <==> k in TruthCols(a', order)
    {
      assert UndefAt(h, order, a, k) ==> k == u;
    }
    ParitySame(h.bits, TruthCols(a, order), TruthCols(a', order));
  }
}
