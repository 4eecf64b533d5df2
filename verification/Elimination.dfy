/**
 The theory of variable elimination: what resolving a variable away keeps, why gate-based skipping is sound,
 and why the removed clauses can be satisfied again in reverse order.
 (cryptoms/occsimplifier.cpp:180-240, 1094-1150, 1386-1557, 1559-1687, 2038-2099)

 A valuation is the set of literals it makes true. It need not decide every variable, so the same statements
 serve total models and the partial ones the solver hands over.
 */
module Elimination {
  import opened Literals

  type Valuation = iset<Lit>

  ghost predicate DistinctVarsOf(lits: seq<Lit>) {
    forall i, j {:trigger lits[i], lits[j]} :: 0 <= i < j < |lits| ==> lits[i].v != lits[j].v
  }

  lemma DistinctSize(lits: seq<Lit>)
    requires DistinctVarsOf(lits)
    ensures |Lits(lits)| == |lits|
  {
    LitsSize(lits);
  }

  ghost predicate Consistent(t: Valuation) {
    forall l: Lit {:trigger l in t} :: l in t ==> l.Neg() !in t
  }

  ghost predicate HasTrue(t: Valuation, c: Clause) {
    exists l :: l in c && l in t
  }

  ghost predicate AllFalse(t: Valuation, c: Clause) {
    forall l {:trigger l in c} :: l in c ==> l.Neg() in t
  }

  ghost predicate SatAll(t: Valuation, f: Formula) {
    forall c {:trigger c in f} :: c in f ==> HasTrue(t, c)
  }

  // ----- resolution -----

  function Resolvent(c: Clause, d: Clause, l: Lit): Clause {
    (c - {l}) + (d - {l.Neg()})
  }

  /** Two clauses clash on a literal other than the one resolved on. */
  ghost predicate Clashes(c: Clause, d: Clause, l: Lit) {
    exists y: Lit :: y in c - {l} && y.Neg() in d - {l.Neg()}
  }

  /** Whoever satisfies `h` and falsifies the rest of `d` satisfies the rest of `c`. */
  ghost predicate Covers(h: Formula, c: Clause, d: Clause, l: Lit) {
    forall t: Valuation {:trigger SatAll(t, h)} ::
      Consistent(t) && SatAll(t, h) && AllFalse(t, d - {l.Neg()}) ==> HasTrue(t, c - {l})
  }

  lemma ResolventCovers(h: Formula, c: Clause, d: Clause, l: Lit)
    requires Resolvent(c, d, l) in h
    ensures Covers(h, c, d, l)
  {
    forall t: Valuation | Consistent(t) && SatAll(t, h) && AllFalse(t, d - {l.Neg()})
      ensures HasTrue(t, c - {l})
    {
      var y :| y in Resolvent(c, d, l) && y in t;
    }
  }

  lemma ClashCovers(h: Formula, c: Clause, d: Clause, l: Lit)
    requires Clashes(c, d, l)
    ensures Covers(h, c, d, l)
  {
    forall t: Valuation | Consistent(t) && SatAll(t, h) && AllFalse(t, d - {l.Neg()})
      ensures HasTrue(t, c - {l})
    {
      var y: Lit :| y in c - {l} && y.Neg() in d - {l.Neg()};
      assert y.Neg().Neg() == y;
    }
  }

  /** What is kept of a pair: its resolvent, unless that is a tautology. */
  ghost predicate Kept(h: Formula, c: Clause, d: Clause, l: Lit) {
    Clashes(c, d, l) || Resolvent(c, d, l) in h
  }

  lemma KeptCovers(h: Formula, c: Clause, d: Clause, l: Lit)
    requires Kept(h, c, d, l)
    ensures Covers(h, c, d, l)
  {
    if Clashes(c, d, l) {
      ClashCovers(h, c, d, l);
    } else {
      ResolventCovers(h, c, d, l);
    }
  }

  // ----- gates -----

  /**
   `g` is the long clause of a gate on `l`: for each of its other literals there is a binary clause with the opposite
   one.
   */
  ghost predicate Gate(f: Formula, g: Clause, l: Lit) {
    l.Neg() in g && forall y: Lit {:trigger y in g} :: y in g && y != l.Neg() ==> {l, y.Neg()} in f
  }

  /**
   A pair outside the gate is covered by the pairs of its clauses with the gate: `c` with the long gate clause,
   and the binary gate clauses with `d`.
   */
  lemma GateCovers(f: Formula, h: Formula, g: Clause, c: Clause, d: Clause, l: Lit)
    requires Gate(f, g, l) && Kept(h, c, g, l) && l.Neg() !in c && l !in d
    requires forall y: Lit {:trigger y in g} :: y in g && y != l.Neg() ==> Kept(h, {l, y.Neg()}, d, l)
    ensures Covers(h, c, d, l)
  {
    forall t: Valuation | Consistent(t) && SatAll(t, h) && AllFalse(t, d - {l.Neg()})
      ensures HasTrue(t, c - {l})
    {
      forall y | y in g - {l.Neg()}
        ensures y.Neg() in t
      {
        KeptCovers(h, {l, y.Neg()}, d, l);
        var z :| z in {l, y.Neg()} - {l} && z in t;
      }
      KeptCovers(h, c, g, l);
    }
  }

  /** The same for a gate found with the two sides exchanged. */
  lemma GateCoversFlipped(f: Formula, h: Formula, g: Clause, c: Clause, d: Clause, l: Lit)
    requires Gate(f, g, l.Neg()) && Kept(h, g, d, l) && l.Neg() !in c && l !in d
    requires forall y: Lit {:trigger y in g} :: y in g && y != l ==> Kept(h, c, {l.Neg(), y.Neg()}, l)
    ensures Covers(h, c, d, l)
  {
    assert l.Neg().Neg() == l;
    forall t: Valuation | Consistent(t) && SatAll(t, h) && AllFalse(t, d - {l.Neg()})
      ensures HasTrue(t, c - {l})
    {
      KeptCovers(h, g, d, l);
      var y :| y in g - {l} && y in t;
      assert y.Neg().Neg() == y;
      KeptCovers(h, c, {l.Neg(), y.Neg()}, l);
      assert AllFalse(t, {l.Neg(), y.Neg()} - {l.Neg()});
    }
  }

  // ----- eliminating a variable -----

  ghost predicate HasVar(c: Clause, x: nat) {
    Lit(x, false) in c || Lit(x, true) in c
  }

  /** The clauses without the variable. */
  ghost function Without(f: Formula, x: nat): Formula {
    iset c | c in f && !HasVar(c, x)
  }

  /** No clause has the variable in both signs. */
  ghost predicate Plain(f: Formula, x: nat) {
    forall c {:trigger c in f} :: c in f ==> !(Lit(x, false) in c && Lit(x, true) in c)
  }

  /** `f2` is what elimination of `x` leaves of `f`: the clauses without it, and resolvents that cover every pair. */
  ghost predicate EliminatedTo(f: Formula, f2: Formula, x: nat) {
    && Without(f, x) <= f2
    && (forall r {:trigger r in f2} :: r in f2 && r !in Without(f, x) ==>
         exists c, d ::
           c in f && d in f && Lit(x, false) in c && Lit(x, true) in d && r == Resolvent(c, d, Lit(x, false)))
    && forall c, d {:trigger c in f, d in f} ::
      c in f && d in f && Lit(x, false) in c && Lit(x, true) in d ==> Covers(f2, c, d, Lit(x, false))
  }

  /** The literals a model makes true. */
  ghost function ModelLits(m: Model): Valuation {
    iset l: Lit | LitTrue(m, l)
  }

  lemma ModelLitsOk(m: Model, f: Formula)
    ensures Consistent(ModelLits(m)) && (FormulaTrue(m, f) <==> SatAll(ModelLits(m), f))
  {
    forall c | c in f
      ensures ClauseTrue(m, c) <==> HasTrue(ModelLits(m), c)
    {
      if ClauseTrue(m, c) {
        var l :| l in c && LitTrue(m, l);
        assert l in ModelLits(m);
      }
      if HasTrue(ModelLits(m), c) {
        var l :| l in c && l in ModelLits(m);
      }
    }
  }

  /** Resolvents follow from the clauses resolved. */
  lemma ResolventEntailed(m: Model, c: Clause, d: Clause, x: nat)
    requires ClauseTrue(m, c) && ClauseTrue(m, d) && Lit(x, true) !in c && Lit(x, false) !in d
    ensures ClauseTrue(m, Resolvent(c, d, Lit(x, false)))
  {
    var y :| y in c && LitTrue(m, y);
    var z :| z in d && LitTrue(m, z);
    assert y != Lit(x, false) || z != Lit(x, true);
    assert y != Lit(x, false) ==> y in Resolvent(c, d, Lit(x, false));
    assert z != Lit(x, true) ==> z in Resolvent(c, d, Lit(x, false));
  }

  /** Elimination keeps every model. */
  lemma EliminationSound(f: Formula, f2: Formula, x: nat, m: Model)
    requires EliminatedTo(f, f2, x) && Plain(f, x) && FormulaTrue(m, f)
    ensures FormulaTrue(m, f2)
  {
    forall r | r in f2
      ensures ClauseTrue(m, r)
    {
      if r !in Without(f, x) {
        var c, d :| c in f && d in f && Lit(x, false) in c && Lit(x, true) in d && r == Resolvent(c, d, Lit(x, false));
        ResolventEntailed(m, c, d, x);
      }
    }
  }

  /** Every model of what is left becomes one of the whole by choosing the value of the variable. */
  lemma EliminationComplete(f: Formula, f2: Formula, x: nat, m: Model) returns (m': Model)
    requires EliminatedTo(f, f2, x) && Plain(f, x) && FormulaTrue(m, f2)
    ensures FormulaTrue(m', f) && forall v: nat :: v != x ==> (v in m' <==> v in m)
  {
    var t := ModelLits(m);
    ModelLitsOk(m, f2);
    if d :| d in f && Lit(x, true) in d && AllFalse(t, d - {Lit(x, true)}) {
      m' := m - iset{x};
      forall c | c in f
        ensures ClauseTrue(m', c)
      {
        if Lit(x, true) in c {
          assert LitTrue(m', Lit(x, true));
        } else if Lit(x, false) in c {
          assert Lit(x, false).Neg() == Lit(x, true);
          assert Covers(f2, c, d, Lit(x, false));
          var y :| y in c - {Lit(x, false)} && y in t;
          assert LitTrue(m', y);
        } else {
          KeepsOther(m, m', c, x, f, f2);
        }
      }
    } else {
      m' := m + iset{x};
      forall c | c in f
        ensures ClauseTrue(m', c)
      {
        if Lit(x, false) in c {
          assert LitTrue(m', Lit(x, false));
        } else if Lit(x, true) in c {
          var y :| y in c - {Lit(x, true)} && y.Neg() !in t;
          assert LitTrue(m, y);
          assert LitTrue(m', y);
        } else {
          KeepsOther(m, m', c, x, f, f2);
        }
      }
    }
  }

  lemma KeepsOther(m: Model, m': Model, c: Clause, x: nat, f: Formula, f2: Formula)
    requires c in f && !HasVar(c, x) && Without(f, x) <= f2 && FormulaTrue(m, f2)
    requires forall v: nat :: v != x ==> (v in m' <==> v in m)
    ensures ClauseTrue(m', c)
  {
    assert c in f2;
    var y :| y in c && LitTrue(m, y);
    assert y == Lit(y.v, false) || y == Lit(y.v, true);
    assert LitTrue(m', y);
  }

  /** Covering pairs entail their resolvents. */
  lemma CoversEntails(h: Formula, c: Clause, d: Clause, l: Lit, m: Model)
    requires Covers(h, c, d, l) && FormulaTrue(m, h)
    ensures ClauseTrue(m, Resolvent(c, d, l))
  {
    var t := ModelLits(m);
    ModelLitsOk(m, h);
    if AllFalse(t, d - {l.Neg()}) {
      var y :| y in c - {l} && y in t;
      assert y in Resolvent(c, d, l);
    } else {
      var y :| y in d - {l.Neg()} && y.Neg() !in t;
      assert LitTrue(m, y) && y in Resolvent(c, d, l);
    }
  }

  /** All resolvents on the variable, as without any skipping. */
  ghost function FullyResolved(f: Formula, x: nat): Formula {
    Without(f, x) + iset c, d | c in f && d in f && Lit(x, false) in c
      && Lit(x, true) in d :: Resolvent(c, d, Lit(x, false))
  }

  /** What is kept is equivalent to all resolvents: skipping loses nothing. */
  lemma SkippingLosesNothing(f: Formula, f2: Formula, x: nat, m: Model)
    requires EliminatedTo(f, f2, x)
    ensures FormulaTrue(m, f2) <==> FormulaTrue(m, FullyResolved(f, x))
  {
    if FormulaTrue(m, f2) {
      forall r | r in FullyResolved(f, x)
        ensures ClauseTrue(m, r)
      {
        if r !in Without(f, x) {
          var c, d :| c in f && d in f && Lit(x, false) in c && Lit(x, true) in d
            && r == Resolvent(c, d, Lit(x, false));
          CoversEntails(f2, c, d, Lit(x, false), m);
        }
      }
    }
  }
}
