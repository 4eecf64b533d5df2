/**
 What eliminating a variable, putting one back and cleaning up do to the stack of removed clauses.
 (cryptoms/occsimplifier.cpp:1094-1150, 1345-1384, 1386-1481, 1853-1896)
 */
module EliminationStack {
  import opened Literals
  import opened Elimination
  import opened Reconstruction

  // ----- pushing the entries of a variable -----

  function DummyEntry(x: nat): Blocked {
    Blocked(Lit(x, false), [], true, false)
  }

  /** Entries of clauses in use, all blocked on `l`. */
  ghost predicate EntriesOf(g: Formula, l: Lit, ps: seq<Blocked>) {
    forall e {:trigger e in ps} ::
      e in ps ==>
      Active(e) && e.blockedOn == l && l in e.lits && l.Neg() !in e.lits && DistinctVarsOf(e.lits) && Lits(e.lits) in g
  }

  ghost predicate HoldsEntry(ps: seq<Blocked>, c: Clause) {
    exists e :: e in ps && Lits(e.lits) == c
  }

  /** The entries of `x` are those of all its clauses, and whatever is left covers each pair of them. */
  ghost predicate PushOk(g: Formula, g': Formula, x: nat, ps: seq<Blocked>, ns: seq<Blocked>) {
    && EntriesOf(g, Lit(x, false), ps) && EntriesOf(g, Lit(x, true), ns)
    && (forall c {:trigger c in g} :: c in g ==> c in g' || HoldsEntry(ps + ns, c))
    && forall e, d {:trigger e in ps, d in ns} ::
      e in ps && d in ns ==> Covers(g', Lits(e.lits), Lits(d.lits), Lit(x, false))
  }

  function PushedStack(es: seq<Blocked>, x: nat, ps: seq<Blocked>, ns: seq<Blocked>): seq<Blocked> {
    es + [DummyEntry(x)] + ps + ns
  }

  lemma PushedAt(es: seq<Blocked>, x: nat, ps: seq<Blocked>, ns: seq<Blocked>, q: nat)
    requires q < |es| + 1 + |ps| + |ns|
    ensures |PushedStack(es, x, ps, ns)| == |es| + 1 + |ps| + |ns|
    ensures var e := PushedStack(es, x, ps, ns)[q];
      && (q < |es| ==> e == es[q])
      && (q == |es| ==> e == DummyEntry(x))
      && (|es| < q <= |es| + |ps| ==> e in ps)
      && (q > |es| + |ps| ==> e in ns)
  {
  }

  lemma PushOpens(es: seq<Blocked>, x: nat, ps: seq<Blocked>, ns: seq<Blocked>, i: nat, v: nat, g: Formula)
    requires EntriesOf(g, Lit(x, false), ps) && EntriesOf(g, Lit(x, true), ns) && i <= |es| + 1 + |ps| + |ns|
    ensures OpenedFrom(PushedStack(es, x, ps, ns), i, v) <==> OpenedFrom(es, i, v) || (i <= |es| && v == x)
  {
    var es' := PushedStack(es, x, ps, ns);
    if OpenedFrom(es', i, v) {
      var q: nat :| i <= q < |es'| && Opens(es'[q], v);
      PushedAt(es, x, ps, ns, q);
      assert q <= |es|;
      assert q < |es| ==> Opens(es[q], v);
    }
    if OpenedFrom(es, i, v) {
      var q: nat :| i <= q < |es| && Opens(es[q], v);
      PushedAt(es, x, ps, ns, q);
    }
    if i <= |es| && v == x {
      PushedAt(es, x, ps, ns, |es|);
      assert Opens(es'[|es|], x);
    }
  }

  lemma PushStores(es: seq<Blocked>, x: nat, ps: seq<Blocked>, ns: seq<Blocked>, i: nat, g: Formula, c: Clause)
    requires EntriesOf(g, Lit(x, false), ps) && EntriesOf(g, Lit(x, true), ns) && i <= |es|
    ensures c in StoredFrom(PushedStack(es, x, ps, ns), i) <==> c in StoredFrom(es, i) || HoldsEntry(ps + ns, c)
  {
    var es' := PushedStack(es, x, ps, ns);
    if c in StoredFrom(es', i) {
      var q: nat :| i <= q < |es'| && Active(es'[q]) && c == Lits(es'[q].lits);
      PushedAt(es, x, ps, ns, q);
      assert q < |es| ==> c in StoredFrom(es, i);
      assert q > |es| ==> es'[q] in ps + ns;
    }
    if c in StoredFrom(es, i) {
      var q: nat :| i <= q < |es| && Active(es[q]) && c == Lits(es[q].lits);
      PushedAt(es, x, ps, ns, q);
      assert Active(es'[q]) && c == Lits(es'[q].lits);
    }
    if HoldsEntry(ps + ns, c) {
      var e :| e in ps + ns && Lits(e.lits) == c;
      var k: nat :| k < |ps + ns| && (ps + ns)[k] == e;
      assert es'[|es| + 1 + k] == e;
      assert e in ps || e in ns;
      assert Active(es'[|es| + 1 + k]);
    }
  }

  lemma PushEntries(g: Formula, es: seq<Blocked>, elimed: set<nat>, x: nat, ps: seq<Blocked>, ns: seq<Blocked>, i: nat)
    requires StackOk(g, es, elimed, {}) && NoneElimed(g, elimed) && x !in elimed
    requires EntriesOf(g, Lit(x, false), ps) && EntriesOf(g, Lit(x, true), ns) && i < |es| + 1 + |ps| + |ns|
    ensures |PushedStack(es, x, ps, ns)| == |es| + 1 + |ps| + |ns|
      && EntryOk(PushedStack(es, x, ps, ns), elimed + {x}, {}, i)
  {
    var es' := PushedStack(es, x, ps, ns);
    PushedAt(es, x, ps, ns, i);
    var e := es'[i];
    PushOpens(es, x, ps, ns, i, e.blockedOn.v, g);
    if i < |es| {
      assert EntryOk(es, elimed, {}, i);
      if Active(e) {
        forall l | l in e.lits && l.v != e.blockedOn.v && l.v in elimed + {x}
          ensures OpenedFrom(es', i, l.v)
        {
          PushOpens(es, x, ps, ns, i, l.v, g);
        }
      }
    } else if Active(e) {
      forall l | l in e.lits
        ensures l.v !in elimed
      {
        assert l == Lit(l.v, false) || l == Lit(l.v, true);
        assert HasVar(Lits(e.lits), l.v);
      }
    }
  }

  lemma PushPairs(g: Formula, g': Formula, es: seq<Blocked>, elimed: set<nat>, x: nat, ps: seq<Blocked>,
                  ns: seq<Blocked>, i: nat, j: nat)
    requires StackOk(g, es, elimed, {}) && NoneElimed(g, elimed) && x !in elimed && PushOk(g, g', x, ps, ns)
    requires i < j < |es| + 1 + |ps| + |ns|
    ensures |PushedStack(es, x, ps, ns)| == |es| + 1 + |ps| + |ns| && PairOk(g', PushedStack(es, x, ps, ns), i, j)
  {
    var es' := PushedStack(es, x, ps, ns);
    PushedAt(es, x, ps, ns, i);
    PushedAt(es, x, ps, ns, j);
    var c, d := es'[i], es'[j];
    if Active(c) && Active(d) {
      if i < |es| {
        assert EntryOk(es, elimed, {}, i);
        if j < |es| {
          assert PairOk(g, es, i, j);
          if d.blockedOn == c.blockedOn.Neg() {
            var f := g + StoredFrom(es, j + 1);
            forall k | k in f
              ensures k in g' + StoredFrom(es', j + 1)
            {
              PushStores(es, x, ps, ns, j + 1, g, k);
            }
            CoversMore(g + StoredFrom(es, j + 1), g' + StoredFrom(es', j + 1), Lits(c.lits), Lits(d.lits), c.blockedOn);
          }
        } else {
          assert Lits(d.lits) in g && !HasVar(Lits(d.lits), c.blockedOn.v);
        }
      } else if d.blockedOn == c.blockedOn.Neg() {
        assert c in ps && d in ns;
        CoversMore(g', g' + StoredFrom(es', j + 1), Lits(c.lits), Lits(d.lits), c.blockedOn);
      }
    }
  }

  /** Eliminating one more variable keeps the promises of the stack. */
  lemma StackPush(g: Formula, g': Formula, es: seq<Blocked>, elimed: set<nat>, x: nat, ps: seq<Blocked>,
                  ns: seq<Blocked>)
    requires StackOk(g, es, elimed, {}) && NoneElimed(g, elimed) && x !in elimed && PushOk(g, g', x, ps, ns)
    ensures StackOk(g', PushedStack(es, x, ps, ns), elimed + {x}, {})
  {
    hide StackOk, NoneElimed, PushOk, EntryOk, PairOk;
    var es' := PushedStack(es, x, ps, ns);
    assert EntriesOf(g, Lit(x, false), ps) && EntriesOf(g, Lit(x, true), ns) by {
      PushOkEntries(g, g', x, ps, ns);
    }
    forall i: nat | i < |es'|
      ensures EntryOk(es', elimed + {x}, {}, i)
    {
      PushEntries(g, es, elimed, x, ps, ns, i);
    }
    forall i: nat, j: nat | i < j < |es'|
      ensures PairOk(g', es', i, j)
    {
      PushPairs(g, g', es, elimed, x, ps, ns, i, j);
    }
    StackIs(g', es', elimed + {x}, {});
  }

  lemma PushOkEntries(g: Formula, g': Formula, x: nat, ps: seq<Blocked>, ns: seq<Blocked>)
    requires PushOk(g, g', x, ps, ns)
    ensures EntriesOf(g, Lit(x, false), ps) && EntriesOf(g, Lit(x, true), ns)
  {
  }

  lemma StackIs(g: Formula, es: seq<Blocked>, elimed: set<nat>, pending: set<nat>)
    requires forall i: nat {:trigger EntryOk(es, elimed, pending, i)} :: i < |es| ==> EntryOk(es, elimed, pending, i)
    requires forall i: nat, j: nat {:trigger PairOk(g, es, i, j)} :: i < j < |es| ==> PairOk(g, es, i, j)
    ensures StackOk(g, es, elimed, pending)
  {
  }

  /** Every eliminated variable has an opening entry. */
  ghost predicate AllOpened(es: seq<Blocked>, elimed: set<nat>) {
    forall v {:trigger v in elimed} :: v in elimed ==> OpenedFrom(es, 0, v)
  }

  lemma PushAllOpened(g: Formula, es: seq<Blocked>, elimed: set<nat>, x: nat, ps: seq<Blocked>, ns: seq<Blocked>)
    requires AllOpened(es, elimed) && EntriesOf(g, Lit(x, false), ps) && EntriesOf(g, Lit(x, true), ns)
    ensures AllOpened(PushedStack(es, x, ps, ns), elimed + {x})
  {
    forall v | v in elimed + {x}
      ensures OpenedFrom(PushedStack(es, x, ps, ns), 0, v)
    {
      PushOpens(es, x, ps, ns, 0, v, g);
    }
  }

  // ----- what formula and stack mean together -----

  /** The formula in use and the stored clauses together mean what the original formula meant. */
  ghost predicate SameMeaning(original: Formula, g: Formula, es: seq<Blocked>) {
    forall m: Model {:trigger FormulaTrue(m, original)} ::
      FormulaTrue(m, original) <==> FormulaTrue(m, g) && FormulaTrue(m, Stored(es))
  }

  lemma MeaningPush(original: Formula, g: Formula, g': Formula, es: seq<Blocked>, x: nat, ps: seq<Blocked>,
                    ns: seq<Blocked>)
    requires SameMeaning(original, g, es) && PushOk(g, g', x, ps, ns) && EliminatedTo(g, g', x) && Plain(g, x)
    ensures SameMeaning(original, g', PushedStack(es, x, ps, ns))
  {
    var es' := PushedStack(es, x, ps, ns);
    forall m: Model
      ensures FormulaTrue(m, g) && FormulaTrue(m, Stored(es)) <==> FormulaTrue(m, g') && FormulaTrue(m, Stored(es'))
    {
      forall c
        ensures c in Stored(es') <==> c in Stored(es) || HoldsEntry(ps + ns, c)
      {
        PushStores(es, x, ps, ns, 0, g, c);
      }
      forall c | HoldsEntry(ps + ns, c)
        ensures c in g
      {
        var e :| e in ps + ns && Lits(e.lits) == c;
        assert e in ps || e in ns;
      }
      if FormulaTrue(m, g) {
        EliminationSound(g, g', x, m);
      }
    }
  }

  // ----- taking entries off -----

  /** Entries are only ever marked for removal. */
  ghost predicate OnlyMarkedOff(es: seq<Blocked>, es': seq<Blocked>) {
    |es'| == |es|
      && forall q {:trigger es'[q]} :: 0 <= q < |es| ==> es'[q] == es[q] || es'[q] == es[q].(toRemove := true)
  }

  /**
   Entries marked off keep the promises, as long as their clauses are in use again and the variables whose opening
   entries go are no longer eliminated.
   */
  lemma StackMarkOff(g: Formula, g': Formula, es: seq<Blocked>, es': seq<Blocked>, elimed: set<nat>, elimed': set<nat>,
                     pending: set<nat>, pending': set<nat>)
    requires StackOk(g, es, elimed, pending) && OnlyMarkedOff(es, es') && elimed' <= elimed
    requires forall q {:trigger es'[q]} ::
      0 <= q < |es| && !es'[q].toRemove ==> es[q].blockedOn.v in elimed + pending ==>
      es[q].blockedOn.v in elimed' + pending'
    requires forall q {:trigger es'[q]} ::
      0 <= q < |es| && es[q].dummy && !es[q].toRemove && es'[q].toRemove ==> es[q].blockedOn.v !in elimed'
    requires forall t: Valuation {:trigger SatAll(t, g')} :: SatAll(t, g') ==> SatAll(t, g)
    requires forall q {:trigger es'[q]} ::
      0 <= q < |es| && Active(es[q]) && es'[q].toRemove ==>
      forall t: Valuation {:trigger SatAll(t, g')} :: SatAll(t, g') ==> HasTrue(t, Lits(es[q].lits))
    ensures StackOk(g', es', elimed', pending')
  {
    hide StackOk, Covers;
    forall i: nat | i < |es'|
      ensures EntryOk(es', elimed', pending', i)
    {
      MarkedOffEntry(g, es, es', elimed, elimed', pending, pending', i);
    }
    forall i: nat, j: nat | i < j < |es'|
      ensures PairOk(g', es', i, j)
    {
      StackPair(g, es, elimed, pending, i, j);
      var c, d := es'[i], es'[j];
      if Active(c) && Active(d) && d.blockedOn == c.blockedOn.Neg() {
        MarkedOffCovers(g, g', es, es', j + 1, Lits(c.lits), Lits(d.lits), c.blockedOn);
      }
    }
    StackIs(g', es', elimed', pending');
  }

  lemma StackEntry(g: Formula, es: seq<Blocked>, elimed: set<nat>, pending: set<nat>, i: nat)
    requires StackOk(g, es, elimed, pending) && i < |es|
    ensures EntryOk(es, elimed, pending, i)
  {
  }

  lemma StackPair(g: Formula, es: seq<Blocked>, elimed: set<nat>, pending: set<nat>, i: nat, j: nat)
    requires StackOk(g, es, elimed, pending) && i < j < |es|
    ensures PairOk(g, es, i, j)
  {
  }

  lemma MarkedOffEntry(g: Formula, es: seq<Blocked>, es': seq<Blocked>, elimed: set<nat>, elimed': set<nat>,
                       pending: set<nat>, pending': set<nat>, i: nat)
    requires StackOk(g, es, elimed, pending) && OnlyMarkedOff(es, es') && elimed' <= elimed && i < |es|
    requires forall q {:trigger es'[q]} ::
      0 <= q < |es| && !es'[q].toRemove ==> es[q].blockedOn.v in elimed + pending ==>
      es[q].blockedOn.v in elimed' + pending'
    requires forall q {:trigger es'[q]} ::
      0 <= q < |es| && es[q].dummy && !es[q].toRemove && es'[q].toRemove ==> es[q].blockedOn.v !in elimed'
    ensures EntryOk(es', elimed', pending', i)
  {
    StackEntry(g, es, elimed, pending, i);
    var e := es'[i];
    if Active(e) {
      assert !OpenedFrom(es', i, e.blockedOn.v) by {
        forall q: nat | i <= q < |es'|
          ensures !Opens(es'[q], e.blockedOn.v)
        {
          assert !Opens(es[q], e.blockedOn.v);
        }
      }
      forall l | l in e.lits && l.v != e.blockedOn.v && l.v in elimed'
        ensures OpenedFrom(es', i, l.v)
      {
        assert OpenedFrom(es, i, l.v);
        var q: nat :| i <= q < |es| && Opens(es[q], l.v);
        var d := es'[q];
        assert Opens(es'[q], l.v);
      }
    }
  }

  lemma MarkedOffCovers(g: Formula, g': Formula, es: seq<Blocked>, es': seq<Blocked>, j: nat, c: Clause, d: Clause,
                        l: Lit)
    requires OnlyMarkedOff(es, es') && Covers(g + StoredFrom(es, j), c, d, l)
    requires forall t: Valuation {:trigger SatAll(t, g')} :: SatAll(t, g') ==> SatAll(t, g)
    requires forall q {:trigger es'[q]} ::
      0 <= q < |es| && Active(es[q]) && es'[q].toRemove ==>
      forall t: Valuation {:trigger SatAll(t, g')} :: SatAll(t, g') ==> HasTrue(t, Lits(es[q].lits))
    ensures Covers(g' + StoredFrom(es', j), c, d, l)
  {
    forall t: Valuation | Consistent(t) && SatAll(t, g' + StoredFrom(es', j)) && AllFalse(t, d - {l.Neg()})
      ensures HasTrue(t, c - {l})
    {
      assert SatAll(t, g') by {
        assert forall k :: k in g' ==> k in g' + StoredFrom(es', j);
      }
      var h := g + StoredFrom(es, j);
      forall k | k in h
        ensures HasTrue(t, k)
      {
        if k !in g {
          var q: nat :| j <= q < |es| && Active(es[q]) && k == Lits(es[q].lits);
          var e := es'[q];
          if !e.toRemove {
            assert Active(es'[q]) && k in StoredFrom(es', j);
          }
        }
      }
      assert SatAll(t, h);
    }
  }

  /** Clauses taken off the stack that follow from what is left say nothing new. */
  lemma MeaningMarkOff(original: Formula, g: Formula, g': Formula, es: seq<Blocked>, es': seq<Blocked>)
    requires SameMeaning(original, g, es) && OnlyMarkedOff(es, es')
    requires forall c {:trigger c in g'} :: c in g' ==> c in g || c in Stored(es)
    requires forall m: Model {:trigger FormulaTrue(m, g')} :: FormulaTrue(m, g') ==> FormulaTrue(m, g)
    requires forall q {:trigger es'[q]} ::
      0 <= q < |es| && Active(es[q]) && es'[q].toRemove ==>
      forall m: Model {:trigger FormulaTrue(m, g')} :: FormulaTrue(m, g') ==> ClauseTrue(m, Lits(es[q].lits))
    ensures SameMeaning(original, g', es')
  {
    forall m: Model
      ensures FormulaTrue(m, g) && FormulaTrue(m, Stored(es)) <==> FormulaTrue(m, g') && FormulaTrue(m, Stored(es'))
    {
      forall c | c in Stored(es')
        ensures c in Stored(es)
      {
        var q: nat :| 0 <= q < |es'| && Active(es'[q]) && c == Lits(es'[q].lits);
        assert Active(es[q]) && c == Lits(es[q].lits);
      }
      if FormulaTrue(m, g') && FormulaTrue(m, Stored(es')) {
        forall c | c in Stored(es)
          ensures ClauseTrue(m, c)
        {
          var q: nat :| 0 <= q < |es| && Active(es[q]) && c == Lits(es[q].lits);
          var e := es'[q];
          assert !e.toRemove ==> Active(es'[q]) && c in Stored(es');
        }
      }
    }
  }

  // ----- models of the remaining formula -----

  /** The model with one literal made true. */
  ghost function WithLit(m: Model, l: Lit): Model {
    if l.sign then m - iset{l.v} else m + iset{l.v}
  }

  lemma WithLitTrue(m: Model, l: Lit, y: Lit)
    ensures LitTrue(WithLit(m, l), l)
    ensures y.v != l.v ==> (LitTrue(WithLit(m, l), y) <==> LitTrue(m, y))
  {
  }

  /**
   Every model of the formula in use becomes one of the stored clauses too by changing eliminated variables, last
   entries first.
   */
  lemma {:induction false} RestoreModel(g: Formula, es: seq<Blocked>, elimed: set<nat>, m: Model, i: nat)
    returns (m': Model)
    requires StackOk(g, es, elimed, {}) && NoneElimed(g, elimed) && FormulaTrue(m, g) && i <= |es|
    ensures FormulaTrue(m', g) && FormulaTrue(m', StoredFrom(es, i))
    ensures forall v: nat :: v !in elimed ==> (v in m' <==> v in m)
    decreases |es| - i
  {
    if i == |es| {
      m' := m;
    } else {
      hide StackOk;
      m' := RestoreModel(g, es, elimed, m, i + 1);
      StackEntry(g, es, elimed, {}, i);
      var e := es[i];
      if Active(e) && !ClauseTrue(m', Lits(e.lits)) {
        ghost var before := m';
        m' := WithLit(m', e.blockedOn);
        assert e.blockedOn in Lits(e.lits);
        WithLitTrue(before, e.blockedOn, e.blockedOn);
        RestoredFormula(g, elimed, before, e.blockedOn);
        forall c | c in StoredFrom(es, i)
          ensures ClauseTrue(m', c)
        {
          var q: nat :| i <= q < |es| && Active(es[q]) && c == Lits(es[q].lits);
          if q != i {
            RestoredEntry(g, es, elimed, before, i, q);
          }
        }
      } else {
        forall c | c in StoredFrom(es, i)
          ensures ClauseTrue(m', c)
        {
          var q: nat :| i <= q < |es| && Active(es[q]) && c == Lits(es[q].lits);
          assert q != i ==> c in StoredFrom(es, i + 1);
        }
      }
    }
  }

  lemma RestoredFormula(g: Formula, elimed: set<nat>, m: Model, l: Lit)
    requires NoneElimed(g, elimed) && FormulaTrue(m, g) && l.v in elimed
    ensures FormulaTrue(WithLit(m, l), g)
  {
    forall c | c in g
      ensures ClauseTrue(WithLit(m, l), c)
    {
      var y :| y in c && LitTrue(m, y);
      assert !HasVar(c, l.v);
      assert y == Lit(y.v, false) || y == Lit(y.v, true);
      WithLitTrue(m, l, y);
    }
  }

  lemma RestoredEntry(g: Formula, es: seq<Blocked>, elimed: set<nat>, m: Model, i: nat, q: nat)
    requires StackOk(g, es, elimed, {}) && i < q < |es| && Active(es[i]) && Active(es[q])
    requires FormulaTrue(m, g) && FormulaTrue(m, StoredFrom(es, i + 1)) && !ClauseTrue(m, Lits(es[i].lits))
    ensures ClauseTrue(WithLit(m, es[i].blockedOn), Lits(es[q].lits))
  {
    StackPair(g, es, elimed, {}, i, q);
    StackEntry(g, es, elimed, {}, q);
    hide StackOk, Covers;
    var l, c, d := es[i].blockedOn, Lits(es[i].lits), Lits(es[q].lits);
    var m' := WithLit(m, l);
    if es[q].blockedOn == l {
      WithLitTrue(m, l, l);
      assert l in d;
    } else if es[q].blockedOn.v == l.v {
      assert es[q].blockedOn == l.Neg() && l.Neg().Neg() == l;
      var h := g + StoredFrom(es, q + 1);
      StoredLess(es, i + 1, q + 1);
      CoveredOther(h, c, d, l, m);
      var y :| y in d - {l.Neg()} && LitTrue(m, y);
      assert l !in d;
      assert y == Lit(y.v, y.sign) && l == Lit(l.v, l.sign);
      WithLitTrue(m, l, y);
    } else {
      assert d in StoredFrom(es, i + 1);
      var y :| y in d && LitTrue(m, y);
      assert !HasVar(d, l.v);
      assert y == Lit(y.v, false) || y == Lit(y.v, true);
      WithLitTrue(m, l, y);
    }
  }

  lemma CoveredOther(h: Formula, c: Clause, d: Clause, l: Lit, m: Model)
    requires Covers(h, c, d, l) && FormulaTrue(m, h) && !ClauseTrue(m, c)
    ensures exists y :: y in d - {l.Neg()} && LitTrue(m, y)
  {
    var t := ModelLits(m);
    ModelLitsOk(m, h);
    forall y | y in c - {l}
      ensures y !in t
    {
      assert !LitTrue(m, y);
    }
    assert !HasTrue(t, c - {l});
    var y :| y in d - {l.Neg()} && y.Neg() !in t;
    assert LitTrue(m, y);
  }

  /** Elimination keeps satisfiability in both directions. */
  lemma Equisatisfiable(original: Formula, g: Formula, es: seq<Blocked>, elimed: set<nat>)
    requires StackOk(g, es, elimed, {}) && NoneElimed(g, elimed) && SameMeaning(original, g, es)
    ensures (exists m: Model :: FormulaTrue(m, original)) <==> (exists m: Model :: FormulaTrue(m, g))
  {
    if m: Model :| FormulaTrue(m, g) {
      var m' := RestoreModel(g, es, elimed, m, 0);
      assert FormulaTrue(m', original);
    }
  }

  // ----- putting a variable back -----

  /** Formula and stack together hold the same clauses. */
  ghost predicate Conserved(f: Formula, es: seq<Blocked>, f': Formula, es': seq<Blocked>) {
    forall c: Clause {:trigger c in f'} {:trigger c in f} {:trigger c in Stored(es')} ::
      c in f || c in Stored(es) <==> c in f' || c in Stored(es')
  }

  lemma ConservedSame(f: Formula, es: seq<Blocked>)
    ensures Conserved(f, es, f, es)
  {
  }

  lemma ConservedTrans(f: Formula, es: seq<Blocked>, f1: Formula, es1: seq<Blocked>, f2: Formula, es2: seq<Blocked>)
    requires Conserved(f, es, f1, es1) && Conserved(f1, es1, f2, es2)
    ensures Conserved(f, es, f2, es2)
  {
  }

  lemma MarkedStores(es: seq<Blocked>, i: nat, j: nat)
    requires i < |es| && !es[i].toRemove
    ensures OnlyMarkedOff(es, es[i := es[i].(toRemove := true)])
    ensures forall c: Clause {:trigger c in StoredFrom(es, j)} :: c in StoredFrom(es, j) ==>
      c in StoredFrom(es[i := es[i].(toRemove := true)], j) || (Active(es[i]) && c == Lits(es[i].lits))
    ensures forall c: Clause {:trigger c in StoredFrom(es[i := es[i].(toRemove := true)], j)} ::
      c in StoredFrom(es[i := es[i].(toRemove := true)], j) ==> c in StoredFrom(es, j)
    ensures Active(es[i]) ==> Lits(es[i].lits) in Stored(es)
  {
    var es' := es[i := es[i].(toRemove := true)];
    forall c: Clause | c in StoredFrom(es, j)
      ensures c in StoredFrom(es', j) || (Active(es[i]) && c == Lits(es[i].lits))
    {
      var q: nat :| j <= q < |es| && Active(es[q]) && c == Lits(es[q].lits);
      assert q != i ==> Active(es'[q]) && c == Lits(es'[q].lits);
    }
    forall c: Clause | c in StoredFrom(es', j)
      ensures c in StoredFrom(es, j)
    {
      var q: nat :| j <= q < |es'| && Active(es'[q]) && c == Lits(es'[q].lits);
      assert Active(es[q]) && c == Lits(es[q].lits);
    }
  }

  /** A variable about to be put back no longer counts as eliminated. */
  lemma PutBackStarts(g: Formula, pending: Formula, es: seq<Blocked>, elimed: set<nat>, x: nat, vars: set<nat>)
    requires StackOk(g + pending, es, elimed, vars) && NoneElimed(g, elimed) && AllOpened(es, elimed)
    ensures StackOk(g + pending, es, elimed - {x}, vars + {x}) && NoneElimed(g, elimed - {x})
      && AllOpened(es, elimed - {x})
  {
    hide StackOk;
    StackMarkOff(g + pending, g + pending, es, es, elimed, elimed - {x}, vars, vars + {x});
  }

  /** An entry of the variable comes off the stack; its clause is pending. */
  lemma PutBackMarked(original: Formula, g: Formula, pending: Formula, es: seq<Blocked>, elimed: set<nat>,
                      vars: set<nat>, i: nat, pending': Formula)
    requires StackOk(g + pending, es, elimed, vars) && AllOpened(es, elimed) && SameMeaning(original, g + pending, es)
    requires i < |es| && !es[i].toRemove && es[i].blockedOn.v !in elimed
    requires pending' == if es[i].dummy then pending else pending + iset{Lits(es[i].lits)}
    ensures StackOk(g + pending', es[i := es[i].(toRemove := true)], elimed, vars)
      && AllOpened(es[i := es[i].(toRemove := true)], elimed)
    ensures SameMeaning(original, g + pending', es[i := es[i].(toRemove := true)])
  {
    hide StackOk, SameMeaning;
    var es' := es[i := es[i].(toRemove := true)];
    var f, f' := g + pending, g + pending';
    MarkedStores(es, i, 0);
    assert forall c :: c in f ==> c in f';
    forall t: Valuation | SatAll(t, f')
      ensures SatAll(t, f)
    {
    }
    forall m: Model | FormulaTrue(m, f')
      ensures FormulaTrue(m, f)
    {
    }
    if Active(es[i]) {
      assert Lits(es[i].lits) in f';
    }
    StackMarkOff(f, f', es, es', elimed, elimed, vars, vars);
    MeaningMarkOff(original, f, f', es, es');
    forall v | v in elimed
      ensures OpenedFrom(es', 0, v)
    {
      var q: nat :| 0 <= q < |es| && Opens(es[q], v);
      assert Opens(es'[q], v);
    }
  }

  /** All entries of the variable are off the stack. */
  lemma PutBackDone(g: Formula, es: seq<Blocked>, elimed: set<nat>, x: nat, vars: set<nat>)
    requires StackOk(g, es, elimed, vars + {x})
      && forall q :: 0 <= q < |es| && es[q].blockedOn.v == x ==> es[q].toRemove
    ensures StackOk(g, es, elimed, vars)
  {
    hide StackOk;
    StackMarkOff(g, g, es, es, elimed, elimed, vars + {x}, vars);
  }
}
