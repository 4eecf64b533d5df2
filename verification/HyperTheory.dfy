/**
 What the implication forest means: which clauses back its edges, what they entail, and why discarding the
 clauses in `uselessBin` loses nothing. (cryptoms/hyperengine.cpp)
 */
module HyperTheory {
  import opened Literals
  import opened Watches
  import opened Forest

  // ----- edges and the clauses behind them -----

  ghost predicate EdgeEntailed(db: Formula, rs: Edges, l: Lit) {
    l.v in rs && rs[l.v].anc.Some? && Entails(db, {rs[l.v].anc.value.Neg(), l})
  }

  /** Every edge a -> l stands for a clause (~a or l) that follows from the database. */
  ghost predicate EdgesEntailed(db: Formula, root: Lit, rs: Edges, ps: Paths) {
    forall l {:trigger EdgeEntailed(db, rs, l)} :: l in ps && l != root ==> EdgeEntailed(db, rs, l)
  }

  /** The clause that an edge was made with is still there: attached, waiting to be attached, or long. */
  ghost predicate EdgeBacked(ws: WatchLists, rest: Formula, need: set<BinClause>, rs: Edges, l: Lit) {
    l.v in rs && rs[l.v].anc.Some? &&
    var r := rs[l.v];
    var a := r.anc.value;
    if !r.hyper then Bin(l, r.red) in W(ws, a.Neg()) && !r.notAdded
    else r.red && if r.notAdded then Entails(rest, {a.Neg(), l})
      else BinClause({a.Neg(), l}, true) in need || Bin(l, true) in W(ws, a.Neg())
  }

  ghost predicate EdgesBacked(ws: WatchLists, rest: Formula, need: set<BinClause>, root: Lit, rs: Edges, ps: Paths) {
    forall l {:trigger EdgeBacked(ws, rest, need, rs, l)} :: l in ps && l != root ==> EdgeBacked(ws, rest, need, rs, l)
  }

  /** Every hyper-binary clause waiting to be attached is redundant and follows from the database. */
  ghost predicate NeedEntailed(db: Formula, need: set<BinClause>) {
    forall b :: b in need ==> b.red && Entails(db, b.lits)
  }

  // ----- following paths in a model -----

  lemma {:induction false} PathImplies(db: Formula, root: Lit, rs: Edges, ps: Paths, a: Lit, l: Lit, m: Model)
    requires ForestOk(root, rs, ps) && EdgesEntailed(db, root, rs, ps)
    requires a in ps && l in ps && OnPath(ps, a, l)
    requires FormulaTrue(m, db) && LitTrue(m, a)
    ensures LitTrue(m, l)
    decreases |ps[l]|
  {
    if |ps[a]| < |ps[l]| {
      assert NodeOk(root, rs, ps, l);
      assert NodeOk(root, rs, ps, a);
      AncestorIsPrevious(root, rs, ps, l);
      var o := rs[l.v].anc.value;
      OnPathLinear(root, rs, ps, a, o, l);
      PathImplies(db, root, rs, ps, a, o, m);
      assert EdgeEntailed(db, rs, l);
      assert ClauseTrue(m, {o.Neg(), l});
    } else {
      assert NodeOk(root, rs, ps, l);
    }
  }

  /** An edge of the forest never joins two literals whose clause has been discarded. */
  lemma EdgeNotUseless(root: Lit, rs: Edges, ps: Paths, useless: set<BinClause>, l: Lit, red: bool)
    requires ForestOk(root, rs, ps) && UselessOk(rs, ps, useless)
    requires l in ps && l != root && NodeOk(root, rs, ps, l)
    ensures BinClause({rs[l.v].anc.value.Neg(), l}, red) !in useless
  {
    var o := rs[l.v].anc.value;
    var b := BinClause({o.Neg(), l}, red);
    assert o.Neg() !in ps by {
      assert SameVar(o.Neg(), o);
    }
    AncestorIsPrevious(root, rs, ps, l);
    if b in useless {
      assert UselessBin(rs, ps, b);
      var a: Lit, k: Lit :| b.lits == {a.Neg(), k} && Bypassed(rs, ps, a, k, b.red);
      SamePair(a, k, o, l);
      assert false;
    }
  }

  lemma SamePair(a: Lit, k: Lit, o: Lit, l: Lit)
    requires {a.Neg(), k} == {o.Neg(), l}
    ensures (a == o && k == l) || k == o.Neg()
  {
    assert k in {o.Neg(), l} && l in {a.Neg(), k} && o.Neg() in {a.Neg(), k};
  }

  // ----- the invariant of a run, and what its steps do to it -----

  ghost function DbOf(ws: WatchLists, rest: Formula): Formula {
    BinClauses(ws, false) + BinClauses(ws, true) + rest
  }

  /**
   What every step of a level-1 propagation keeps. `rest` holds the long clauses and the level-0 facts:
   what a discarded binary clause is never part of.
   */
  ghost predicate RunOk(ws: WatchLists, rest: Formula, need: set<BinClause>, useless: set<BinClause>,
                        root: Lit, rs: Edges, ps: Paths) {
    && ForestOk(root, rs, ps)
    && EdgesEntailed(DbOf(ws, rest), root, rs, ps)
    && EdgesBacked(ws, rest, need, root, rs, ps)
    && NeedEntailed(DbOf(ws, rest), need)
    && UselessOk(rs, ps, useless)
  }

  /** A binary watch is a clause of the database. */
  lemma BinInDb(ws: WatchLists, rest: Formula, p: Lit, l: Lit, red: bool)
    requires Bin(l, red) in W(ws, p.Neg())
    ensures {p.Neg(), l} in BinClauses(ws, red)
    ensures Entails(DbOf(ws, rest), {p.Neg(), l})
  {
    assert {p.Neg(), l} in DbOf(ws, rest);
  }

  lemma EnqueueKeeps(ws: WatchLists, rest: Formula, need: set<BinClause>, need': set<BinClause>,
                     useless: set<BinClause>,
                     root: Lit, rs: Edges, ps: Paths, l: Lit, r: Edge)
    requires RunOk(ws, rest, need, useless, root, rs, ps)
    requires need <= need' && forall b :: b in need' - need ==> b.red && Entails(DbOf(ws, rest), b.lits)
    requires forall k :: k in ps ==> k.v != l.v
    requires r.anc.Some? && r.anc.value in ps
    requires EdgeEntailed(DbOf(ws, rest), rs[l.v := r], l) && EdgeBacked(ws, rest, need', rs[l.v := r], l)
    ensures RunOk(ws, rest, need', useless, root, rs[l.v := r], ps[l := ps[r.anc.value] + [l]])
  {
    Grow(root, rs, ps, l, r);
    GrowKeepsUseless(root, rs, ps, l, r, useless);
    var rs' := rs[l.v := r];
    var ps' := ps[l := ps[r.anc.value] + [l]];
    forall k | k in ps' && k != root
      ensures EdgeEntailed(DbOf(ws, rest), rs', k) && EdgeBacked(ws, rest, need', rs', k)
    {
      if k != l {
        assert EdgeEntailed(DbOf(ws, rest), rs, k) && EdgeBacked(ws, rest, need, rs, k);
      }
    }
  }

  /** Re-parenting `l` below `p` with an attached binary clause, discarding the clause of the old edge. */
  lemma ReparentKeeps(ws: WatchLists, rest: Formula, need: set<BinClause>, useless: set<BinClause>,
                      root: Lit, rs: Edges, ps: Paths, l: Lit, p: Lit, red: bool, need': set<BinClause>,
                      useless': set<BinClause>)
    requires RunOk(ws, rest, need, useless, root, rs, ps)
    requires l in ps && l != root && p in ps && !OnPath(ps, l, p) && NodeOk(root, rs, ps, l)
    requires OnPath(ps, rs[l.v].anc.value, p) && rs[l.v].anc.value != p
    requires !rs[l.v].red ==> !red && IrredPath(rs, ps, rs[l.v].anc.value, p)
    requires Bin(l, red) in W(ws, p.Neg())
    requires need - {BinClause({rs[l.v].anc.value.Neg(), l}, true)} <= need' <= need
    requires useless <= useless' <= useless + {BinClause({rs[l.v].anc.value.Neg(), l}, rs[l.v].red)}
    ensures RunOk(ws, rest, need', useless', root, rs[l.v := Edge(Some(p), red, false, false)], Moved(ps, l, p))
  {
    var r := Edge(Some(p), red, false, false);
    var o := rs[l.v].anc.value;
    var rs' := rs[l.v := r];
    var ps' := Moved(ps, l, p);
    MoveKeepsForest(root, rs, ps, l, r);
    MoveKeepsUseless(root, rs, ps, l, r, useless);
    BinInDb(ws, rest, p, l, red);
    assert o.Neg() !in ps by {
      assert SameVar(o.Neg(), o);
    }
    forall k | k in ps' && k != root
      ensures EdgeEntailed(DbOf(ws, rest), rs', k) && EdgeBacked(ws, rest, need', rs', k)
    {
      if k != l {
        assert !SameVar(k, l);
        assert EdgeEntailed(DbOf(ws, rest), rs, k) && EdgeBacked(ws, rest, need, rs, k);
        var a := rs[k.v].anc.value;
        if {a.Neg(), k} == {o.Neg(), l} {
          SamePair(a, k, o, l);
          assert false;
        }
      }
    }
    assert UselessOk(rs', ps', useless') by {
      forall b | b in useless'
        ensures UselessBin(rs', ps', b)
      {
        if b in useless {
          assert UselessBin(rs', ps', b);
        } else {
          assert b.lits == {o.Neg(), l} && Bypassed(rs', ps', o, l, b.red);
        }
      }
    }
  }

  /** Moving long watches around does not concern the forest: its edges live in the binary entries. */
  lemma ListsKeep(ws: WatchLists, ws': WatchLists, rest: Formula, need: set<BinClause>, useless: set<BinClause>,
                  root: Lit, rs: Edges, ps: Paths)
    requires RunOk(ws, rest, need, useless, root, rs, ps) && SameBins(ws, ws')
    ensures RunOk(ws', rest, need, useless, root, rs, ps) && DbOf(ws', rest) == DbOf(ws, rest)
  {
    forall red
      ensures BinClauses(ws, red) == BinClauses(ws', red)
    {
      SameBinClauses(ws, ws', red);
      SameBinClauses(ws', ws, red);
    }
    forall k | k in ps && k != root
      ensures EdgeBacked(ws', rest, need, rs, k)
    {
      assert EdgeBacked(ws, rest, need, rs, k);
      var r := rs[k.v];
      var a := r.anc.value;
      InBins(W(ws, a.Neg()), Bin(k, r.red));
      InBins(W(ws', a.Neg()), Bin(k, r.red));
      assert Bins(W(ws, a.Neg())) == Bins(W(ws', a.Neg()));
    }
  }

  /** A clause that follows may be put on the list of those to attach. */
  lemma NeedKeeps(ws: WatchLists, rest: Formula, need: set<BinClause>, useless: set<BinClause>,
                  root: Lit, rs: Edges, ps: Paths, c: Clause)
    requires RunOk(ws, rest, need, useless, root, rs, ps) && Entails(DbOf(ws, rest), c)
    ensures RunOk(ws, rest, need + {BinClause(c, true)}, useless, root, rs, ps)
  {
    var need' := need + {BinClause(c, true)};
    forall k | k in ps && k != root
      ensures EdgeBacked(ws, rest, need', rs, k)
    {
      assert EdgeBacked(ws, rest, need, rs, k);
    }
  }

  lemma DiscardKeeps(ws: WatchLists, rest: Formula, need: set<BinClause>, useless: set<BinClause>,
                     root: Lit, rs: Edges, ps: Paths, a: Lit, l: Lit, red: bool)
    requires RunOk(ws, rest, need, useless, root, rs, ps) && Bypassed(rs, ps, a, l, red)
    ensures RunOk(ws, rest, need, useless + {BinClause({a.Neg(), l}, red)}, root, rs, ps)
  {
    var b0 := BinClause({a.Neg(), l}, red);
    forall b | b in useless + {b0}
      ensures UselessBin(rs, ps, b)
    {
      if b in useless {
        assert UselessBin(rs, ps, b);
      } else {
        assert b.lits == {a.Neg(), l} && Bypassed(rs, ps, a, l, b.red);
      }
    }
  }

  // ----- the two safety theorems -----

  /** The clauses of `uselessBin` of the given kind. */
  ghost function Discarded(useless: set<BinClause>, red: bool): Formula {
    iset b | b in useless && b.red == red :: b.lits
  }

  ghost function Added(need: set<BinClause>): Formula {
    iset b | b in need :: b.lits
  }

  lemma {:induction false} IrredPathHolds(ws: WatchLists, rest: Formula, need: set<BinClause>, useless: set<BinClause>,
                       root: Lit, rs: Edges, ps: Paths, a: Lit, l: Lit, m: Model)
    requires ForestOk(root, rs, ps) && UselessOk(rs, ps, useless) && EdgesBacked(ws, rest, need, root, rs, ps)
    requires a in ps && l in ps && OnPath(ps, a, l) && IrredPath(rs, ps, a, l)
    requires FormulaTrue(m, BinClauses(ws, false) - Discarded(useless, false))
    requires LitTrue(m, a)
    ensures LitTrue(m, l)
    decreases |ps[l]|
  {
    assert NodeOk(root, rs, ps, l);
    assert NodeOk(root, rs, ps, a);
    if |ps[a]| < |ps[l]| {
      AncestorIsPrevious(root, rs, ps, l);
      var o := rs[l.v].anc.value;
      assert NodeOk(root, rs, ps, o);
      OnPathLinear(root, rs, ps, a, o, l);
      assert IrredPath(rs, ps, a, o) by {
        forall i | |ps[a]| <= i < |ps[o]| ensures IrredStep(rs, ps[o][i]) { assert ps[o][i] == ps[l][i]; }
      }
      IrredPathHolds(ws, rest, need, useless, root, rs, ps, a, o, m);
      assert IrredStep(rs, ps[l][|ps[l]| - 1]);
      assert EdgeBacked(ws, rest, need, rs, l);
      var c := {o.Neg(), l};
      assert Bin(l, false) in W(ws, o.Neg());
      assert c in BinClauses(ws, false);
      forall b | b in useless && !b.red
        ensures b.lits != c
      {
        EdgeNotUseless(root, rs, ps, useless, l, false);
        assert b == BinClause(b.lits, false);
      }
      assert c in BinClauses(ws, false) - Discarded(useless, false);
      assert ClauseTrue(m, c);
    }
  }

  /**
   Transitive reduction is sound for the irredundant part: the irredundant binary clauses that are kept have
   exactly the models of all of them. No redundant or long clause is needed to recover a discarded one.
   */
  lemma IrredReductionKeepsModels(ws: WatchLists, rest: Formula, need: set<BinClause>, useless: set<BinClause>,
                                  root: Lit, rs: Edges, ps: Paths, m: Model)
    requires RunOk(ws, rest, need, useless, root, rs, ps)
    ensures FormulaTrue(m, BinClauses(ws, false) - Discarded(useless, false)) <==> FormulaTrue(m, BinClauses(ws, false))
  {
    if FormulaTrue(m, BinClauses(ws, false) - Discarded(useless, false)) {
      forall c | c in BinClauses(ws, false)
        ensures ClauseTrue(m, c)
      {
        if c in Discarded(useless, false) {
          var b :| b in useless && !b.red && b.lits == c;
          assert UselessBin(rs, ps, b);
          var a: Lit, l: Lit :| b.lits == {a.Neg(), l} && Bypassed(rs, ps, a, l, b.red);
          if LitTrue(m, a) {
            IrredPathHolds(ws, rest, need, useless, root, rs, ps, a, l, m);
            assert l in c;
          } else {
            assert a.Neg() in c && LitTrue(m, a.Neg());
          }
        }
      }
    }
  }

  /** What is left of the database once the useless clauses are gone and the hyper-binary ones attached. */
  ghost function Kept(ws: WatchLists, rest: Formula, need: set<BinClause>, useless: set<BinClause>): Formula {
    (BinClauses(ws, false) - Discarded(useless, false)) + (BinClauses(ws, true) - Discarded(useless, true)) + rest
      + Added(need)
  }

  lemma KeptEdge(ws: WatchLists, rest: Formula, need: set<BinClause>, useless: set<BinClause>,
                 root: Lit, rs: Edges, ps: Paths, l: Lit)
    requires ForestOk(root, rs, ps) && UselessOk(rs, ps, useless) && EdgesBacked(ws, rest, need, root, rs, ps)
    requires l in ps && l != root
    ensures EdgeEntailed(Kept(ws, rest, need, useless), rs, l)
  {
    assert NodeOk(root, rs, ps, l);
    assert EdgeBacked(ws, rest, need, rs, l);
    var r := rs[l.v];
    var o := r.anc.value;
    var c := {o.Neg(), l};
    var kept := Kept(ws, rest, need, useless);
    if Bin(l, r.red) in W(ws, o.Neg()) {
      EdgeNotUseless(root, rs, ps, useless, l, r.red);
      assert c in BinClauses(ws, r.red);
      forall b | b in useless && b.red == r.red
        ensures b.lits != c
      {
        assert b == BinClause(b.lits, r.red);
      }
      assert c in kept;
    } else if r.notAdded {
      forall m: Model | FormulaTrue(m, kept)
        ensures ClauseTrue(m, c)
      {
        assert FormulaTrue(m, rest);
      }
    } else {
      assert BinClause(c, true) in need;
      assert c in kept;
    }
  }

  /**
   The full theorem: after the pass, with the discarded binaries removed and the new hyper-binary clauses
   attached, the database has exactly the models it had before the pass.
   */
  lemma ReductionKeepsModels(ws: WatchLists, rest: Formula, need: set<BinClause>, useless: set<BinClause>,
                             root: Lit, rs: Edges, ps: Paths, m: Model)
    requires RunOk(ws, rest, need, useless, root, rs, ps)
    ensures FormulaTrue(m, Kept(ws, rest, need, useless)) <==> FormulaTrue(m, DbOf(ws, rest))
  {
    var kept := Kept(ws, rest, need, useless);
    var all := DbOf(ws, rest);
    if FormulaTrue(m, kept) {
      forall l | l in ps && l != root
        ensures EdgeEntailed(kept, rs, l)
      {
        KeptEdge(ws, rest, need, useless, root, rs, ps, l);
      }
      forall c | c in all
        ensures ClauseTrue(m, c)
      {
        if c !in kept {
          var red := c in Discarded(useless, true);
          assert c in Discarded(useless, red);
          var b :| b in useless && b.red == red && b.lits == c;
          assert UselessBin(rs, ps, b);
          var a: Lit, l: Lit :| b.lits == {a.Neg(), l} && Bypassed(rs, ps, a, l, b.red);
          if LitTrue(m, a) {
            PathImplies(kept, root, rs, ps, a, l, m);
            assert l in c;
          } else {
            assert a.Neg() in c && LitTrue(m, a.Neg());
          }
        }
      }
    }
    if FormulaTrue(m, all) {
      forall c | c in kept
        ensures ClauseTrue(m, c)
      {
        if c in Added(need) {
          var b :| b in need && b.lits == c;
        }
      }
    }
  }
}
