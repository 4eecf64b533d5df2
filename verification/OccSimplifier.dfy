/**
 Bounded variable elimination over occurrence lists. (cryptoms/occsimplifier.cpp)
 */
module OccSimplifier {
  import opened Literals
  import opened Watches
  import opened Elimination
  import opened OccTheory
  import opened Resolvents
  import opened Reconstruction
  import opened SolutionExtender
  import opened EliminationStack
  import opened Sorting

  /** What a trial of a variable may change. */
  datatype State = State(ws: WatchLists, cs: OccClauses, units: seq<Lit>, elimed: set<nat>, limit: int)

  /** One variable of the order: passed over, or tried and, if that is worthwhile, eliminated by its resolvents. */
  ghost predicate Attempt(s: State, t: State, x: nat, skipSome: bool, cutoff: nat, tooLarge: int) {
    if Lit(x, false) in s.units || Lit(x, true) in s.units || x in s.elimed then t == s.(limit := s.limit - 20)
    else exists g, rs :: AttemptBy(s, t, x, skipSome, cutoff, tooLarge, g, rs)
  }

  ghost predicate AttemptBy(s: State, t: State, x: nat, skipSome: bool, cutoff: nat, tooLarge: int, g: Option<nat>,
                            rs: seq<seq<Lit>>)
  {
    && (t.limit < 0 ==> x !in t.elimed)
    && (t.limit >= 0 ==> RightlyDone(s.ws, s.cs, x, skipSome, cutoff, tooLarge, g, x in t.elimed, rs))
    && if x in t.elimed then
        t.elimed == s.elimed + {x}
        && forall c {:trigger c in Irred(t.ws, t.cs, t.units)} ::
             c in Irred(t.ws, t.cs, t.units) <==> c in Without(Irred(s.ws, s.cs, s.units), x) || OneOf(rs, c)
      else t == s.(limit := t.limit)
  }

  class OccSimplifier {
    var watches: WatchLists
    var clauses: OccClauses
    /** Unit clauses: the literals set at level zero. */
    var units: seq<Lit>
    var nextOffset: nat
    /** `*limit_to_decrease`: the effort left for trying variables. */
    var limit: int
    /** Literals marked in `seen`. */
    var seen: set<Lit>
    var toClear: seq<Lit>
    var dummy: seq<Lit>
    var resolvents: seq<seq<Lit>>
    var gateVarelimClause: Option<nat>
    var blockedClauses: seq<Blocked>
    var elimed: set<nat>

    /** The formula at the beginning. */
    ghost var original: Formula

    constructor (ws: WatchLists, cs: OccClauses, set0: seq<Lit>, offset: nat, effort: int)
      requires OccOk(ws, cs) && OnlyMarked(cs, None) && forall o :: o in cs ==> o < offset
      ensures Inv() && watches == ws && clauses == cs && units == set0 && blockedClauses == [] && elimed == {}
    {
      watches, clauses, units, nextOffset, limit := ws, cs, set0, offset, effort;
      seen, toClear, dummy, resolvents, gateVarelimClause := {}, [], [], [], None;
      blockedClauses, elimed := [], {};
      original := Irred(ws, cs, set0);
    }

    ghost predicate ListsOk()
      reads `watches, `clauses
    {
      OccOk(watches, clauses)
    }

    ghost predicate Clean()
      reads `seen, `toClear
    {
      seen == {} && toClear == []
    }

    /** The irredundant formula in use. */
    ghost function Formula(): Formula
      reads `watches, `clauses, `units
    {
      Irred(watches, clauses, units)
    }

    // ----- resolving two clauses -----

    method AddPosLitsToDummyAndSeen(ps: Watched, posLit: Lit)
      requires ListsOk() && ps in W(watches, posLit) && seen == {} && dummy == []
      modifies `dummy, `seen, `limit
      ensures Lits(dummy) == Lits(ClauseOf(clauses, posLit, ps)) - {posLit} && seen == Lits(dummy)
        && DistinctVarsOf(dummy)
      ensures limit == old(limit) - if ps.Bin? then 1 else |ClauseOf(clauses, posLit, ps)| / 2
    {
      ClauseOfOk(watches, clauses, posLit, ps);
      if ps.Bin? {
        limit := limit - 1;
        seen := seen + {ps.lit2};
        dummy := dummy + [ps.lit2];
      } else {
        var cl := clauses[ps.off].lits;
        limit := limit - |cl| / 2;
        for k := 0 to |cl|
          modifies `dummy, `seen
          invariant forall y: Lit :: y in dummy <==> y in cl[..k] && y != posLit
          invariant seen == Lits(dummy) && DistinctVarsOf(dummy)
        {
          var lit := cl[k];
          assert cl[..k + 1] == cl[..k] + [lit];
          if lit != posLit {
            forall i | 0 <= i < |dummy|
              ensures dummy[i].v != lit.v
            {
              assert dummy[i] in cl[..k];
            }
            seen := seen + {lit};
            dummy := dummy + [lit];
          }
        }
        assert cl[..|cl|] == cl;
      }
    }

    /** Adds the other clause's literals; `true` as soon as one clashes with those already there. */
    method AddNegLitsToDummyAndSeen(qs: Watched, posLit: Lit) returns (tautological: bool)
      requires ListsOk() && qs in W(watches, posLit.Neg()) && seen == Lits(dummy) && DistinctVarsOf(dummy)
      requires forall l {:trigger l in dummy} :: l in dummy ==> l.v != posLit.v
      modifies `dummy, `seen, `limit
      ensures seen == Lits(dummy)
      ensures limit == old(limit) - if qs.Bin? then 1 else |ClauseOf(clauses, posLit.Neg(), qs)| / 2
      ensures var d := Lits(ClauseOf(clauses, posLit.Neg(), qs)) - {posLit.Neg()};
        && (tautological <==> exists y: Lit :: y in Lits(old(dummy)) && y.Neg() in d)
        && (!tautological ==> Lits(dummy) == Lits(old(dummy)) + d && DistinctVarsOf(dummy))
    {
      hide OccOk;
      ClauseOfOk(watches, clauses, posLit.Neg(), qs);
      var cl := if qs.Bin? then [qs.lit2] else clauses[qs.off].lits;
      limit := limit - if qs.Bin? then 1 else |cl| / 2;
      ghost var c, d := ClauseOf(clauses, posLit.Neg(), qs), Lits(ClauseOf(clauses, posLit.Neg(), qs)) - {posLit.Neg()};
      assert forall y: Lit {:trigger y in cl} :: y in cl && y != posLit.Neg() <==> y in d;
      assert DistinctVarsOf(cl);
      tautological := MergeLits(cl, posLit.Neg());
      if tautological {
        ghost var y :| y in old(dummy) && y.Neg() in cl && y.Neg() != posLit.Neg();
        assert y in Lits(old(dummy)) && y.Neg() in d;
      }
    }

    /** Adds literals to those marked; `true` as soon as one clashes. */
    method MergeLits(cl: seq<Lit>, but: Lit) returns (clash: bool)
      requires seen == Lits(dummy) && DistinctVarsOf(dummy) && DistinctVarsOf(cl)
      modifies `dummy, `seen
      ensures seen == Lits(dummy)
      ensures clash <==> exists y: Lit :: y in old(dummy) && y.Neg() in cl && y.Neg() != but
      ensures !clash ==>
        DistinctVarsOf(dummy) && forall y: Lit :: y in dummy <==> y in old(dummy) || (y in cl && y != but)
    {
      for k := 0 to |cl|
        invariant seen == Lits(dummy) && DistinctVarsOf(dummy)
        invariant forall y: Lit {:trigger y in dummy} ::
          y in dummy <==> y in old(dummy) || (y in cl[..k] && y != but)
        invariant forall y: Lit {:trigger y.Neg()} :: y in old(dummy) && y.Neg() in cl[..k] ==> y.Neg() == but
      {
        var lit := cl[k];
        assert cl[..k + 1] == cl[..k] + [lit];
        if lit != but {
          if lit.Neg() in seen {
            ClashFound(old(dummy), dummy, cl, k, but);
            clash := true;
            return;
          }
          if lit !in seen {
            FreshVar(dummy, lit);
            dummy := dummy + [lit];
            seen := seen + {lit};
          }
        }
      }
      assert cl[..|cl|] == cl;
      clash := false;
    }

    /** Resolves two clauses into `dummy`; `true` if nothing is to be added for the pair. */
    method ResolveClauses(ps: Watched, qs: Watched, posLit: Lit) returns (skip: bool)
      requires ListsOk() && Clean() && ps in W(watches, posLit) && qs in W(watches, posLit.Neg())
      modifies `dummy, `seen, `toClear, `limit
      ensures Clean() && limit <= old(limit)
      ensures limit == if Skipped(clauses, gateVarelimClause, ps, qs) then old(limit) else
          old(limit) - (if ps.Bin? then 1 else |ClauseOf(clauses, posLit, ps)| / 2)
          - (if qs.Bin? then 1 else |ClauseOf(clauses, posLit.Neg(), qs)| / 2) - (|dummy| / 2 + 1)
      ensures var c, d := Lits(ClauseOf(clauses, posLit, ps)), Lits(ClauseOf(clauses, posLit.Neg(), qs));
        && (skip <==> Skipped(clauses, gateVarelimClause, ps, qs) || Clashes(c, d, posLit))
        && (!skip ==> Lits(dummy) == Resolvent(c, d, posLit) && DistinctVarsOf(dummy))
    {
      hide OccOk;
      if ps.Long? && qs.Long? && gateVarelimClause.Some? && ps.off in clauses && qs.off in clauses
         && !clauses[ps.off].marked && !clauses[qs.off].marked {
        return true;
      }
      dummy := [];
      AddPosLitsToDummyAndSeen(ps, posLit);
      ClauseOfOk(watches, clauses, posLit, ps);
      OtherVars(ClauseOf(clauses, posLit, ps), posLit);
      assert forall l {:trigger l in dummy} :: l in dummy ==> l in Lits(dummy);
      ghost var first := dummy;
      var tautological := AddNegLitsToDummyAndSeen(qs, posLit);
      ghost var c, d := Lits(ClauseOf(clauses, posLit, ps)), Lits(ClauseOf(clauses, posLit.Neg(), qs));
      assert Lits(first) == c - {posLit};
      assert tautological <==> Clashes(c, d, posLit);
      toClear := dummy;
      limit := limit - (|toClear| / 2 + 1);
      ForgetSeen();
      skip := tautological;
    }

    // ----- gates -----

    ghost predicate ClausesKeep(cs: OccClauses, o: Option<nat>)
      reads `clauses
    {
      if o.Some? then o.value in cs && clauses == cs[o.value := cs[o.value].(marked := true)] else clauses == cs
    }

    /**
     Looks for a long clause in the list of `~elimLit` all of whose other literals are negated in binary clauses of
     `elimLit`, and marks the first; none is found only if there is none.
     */
    method FindGate(elimLit: Lit)
      requires ListsOk() && Clean() && gateVarelimClause == None && OnlyMarked(clauses, None)
      modifies `seen, `toClear, `clauses, `gateVarelimClause
      ensures Clean() && ClausesKeep(old(clauses), gateVarelimClause) && OnlyMarked(clauses, gateVarelimClause)
      ensures FirstGate(watches, old(clauses), elimLit, gateVarelimClause)
    {
      hide ListsOk, GateAt, FirstGate;
      MarkBins(elimLit);
      var b := W(watches, elimLit.Neg());
      var k: nat := 0;
      while k < |b| && gateVarelimClause == None
        modifies `clauses, `gateVarelimClause
        invariant k <= |b| && (gateVarelimClause == None ==> clauses == old(clauses))
        invariant ClausesKeep(old(clauses), gateVarelimClause) && OnlyMarked(clauses, gateVarelimClause)
        invariant gateVarelimClause == None ==>
          forall j {:trigger b[j]} :: 0 <= j < k ==> !GateAt(watches, clauses, elimLit, b[j])
        invariant gateVarelimClause.Some? ==> FirstGate(watches, old(clauses), elimLit, gateVarelimClause)
        decreases |b| - k, gateVarelimClause == None
      {
        var w := b[k];
        var ok := false;
        if w.Long? && w.off in clauses && !clauses[w.off].removed && !clauses[w.off].red {
          ok := AllSeen(clauses[w.off].lits, elimLit.Neg());
        }
        GateSeen(watches, clauses, elimLit, w, seen);
        if ok {
          FoundFirst(watches, clauses, elimLit, k);
          clauses := clauses[w.off := clauses[w.off].(marked := true)];
          gateVarelimClause := Some(w.off);
        }
        k := k + 1;
      }
      if gateVarelimClause == None {
        FoundNone(watches, clauses, elimLit);
      }
      ForgetSeen();
    }

    /** Marks the negations of the literals in irredundant binary clauses of `elimLit`. */
    method MarkBins(elimLit: Lit)
      requires seen == {} && toClear == []
      modifies `seen, `toClear
      ensures seen == Lits(toClear)
      ensures forall y: Lit {:trigger y in seen} :: y in seen <==> Bin(y.Neg(), false) in W(watches, elimLit)
    {
      var a := W(watches, elimLit);
      for k := 0 to |a|
        modifies `seen, `toClear
        invariant seen == Lits(toClear)
          && forall y: Lit {:trigger y in seen} :: y in seen <==> Bin(y.Neg(), false) in a[..k]
      {
        var w := a[k];
        assert a[..k + 1] == a[..k] + [w];
        if w.Bin? && !w.red {
          assert w.lit2.Neg().Neg() == w.lit2 && w == Bin(w.lit2, false);
          assert forall y: Lit :: y.Neg() == w.lit2 ==> y == w.lit2.Neg();
          seen := seen + {w.lit2.Neg()};
          toClear := toClear + [w.lit2.Neg()];
        }
      }
      assert a[..|a|] == a;
    }

    method AllSeen(lits: seq<Lit>, but: Lit) returns (ok: bool)
      ensures ok <==> forall y {:trigger y in lits} :: y in lits && y != but ==> y in seen
    {
      for k := 0 to |lits|
        invariant forall i {:trigger lits[i]} :: 0 <= i < k && lits[i] != but ==> lits[i] in seen
      {
        if lits[k] != but && lits[k] !in seen {
          assert lits[k] in lits;
          return false;
        }
      }
      return true;
    }

    method ForgetSeen()
      requires seen <= Lits(toClear)
      modifies `seen, `toClear
      ensures Clean()
    {
      for k := 0 to |toClear|
        invariant toClear == old(toClear) && seen <= Lits(toClear[k..])
      {
        assert toClear[k..] == [toClear[k]] + toClear[k + 1..];
        seen := seen - {toClear[k]};
      }
      toClear := [];
    }

    /** A gate of either side; one is enough. None is found only if there is none on either side. */
    method MarkGateInPossNegs(elimLit: Lit)
      requires ListsOk() && Clean() && gateVarelimClause == None && OnlyMarked(clauses, None)
      modifies `seen, `toClear, `clauses, `gateVarelimClause
      ensures Clean() && ClausesKeep(old(clauses), gateVarelimClause) && OnlyMarked(clauses, gateVarelimClause)
      ensures ChosenGate(watches, old(clauses), elimLit, gateVarelimClause)
    {
      hide FirstGate;
      FindGate(elimLit);
      if gateVarelimClause == None {
        FindGate(elimLit.Neg());
      }
    }

    // ----- trying a variable -----

    /** How many irredundant binary and long clauses a list has. */
    method CalcDataForHeuristic(lit: Lit) returns (bin: nat, longer: nat)
      modifies `limit
      ensures bin == LiveOf(clauses, W(watches, lit), true) && longer == LiveOf(clauses, W(watches, lit), false)
      ensures bin + longer == LiveCount(clauses, W(watches, lit))
      ensures limit == old(limit) - (3 * |W(watches, lit)| + 100)
    {
      bin, longer := 0, 0;
      var ws := W(watches, lit);
      limit := limit - (3 * |ws| + 100);
      for k := 0 to |ws|
        modifies {}
        invariant bin == LiveOf(clauses, ws[..k], true) && longer == LiveOf(clauses, ws[..k], false)
        invariant bin + longer == LiveCount(clauses, ws[..k])
      {
        var w := ws[k];
        assert ws[..k + 1][..k] == ws[..k];
        if Live(clauses, w) {
          if w.Bin? {
            bin := bin + 1;
          } else {
            longer := longer + 1;
          }
        }
      }
      assert ws[..|ws|] == ws;
    }

    /**
     Collects the resolvents on the variable: those of every pair of irredundant clauses, but for the pairs outside the
     gate. Unless the time is up, the answer is `None` exactly if it is not worthwhile: too many resolvents, or one too
     large.
     */
    method TestElimAndFillResolvents(x: nat, skipSome: bool, cutoff: nat, tooLarge: int) returns (cost: Option<int>)
      requires ListsOk() && Clean() && OnlyMarked(clauses, None)
      modifies `seen, `toClear, `dummy, `resolvents, `gateVarelimClause, `clauses, `limit
      ensures ListsOk() && Clean() && clauses == old(clauses) && limit <= old(limit)
      ensures cost.Some? ==>
        |resolvents| <= LiveCount(clauses, W(watches, Lit(x, false))) + LiveCount(clauses, W(watches, Lit(x, true)))
      ensures cost.Some? ==> Collected(watches, clauses, x, resolvents)
      ensures exists g :: TriedWith(watches, clauses, x, skipSome, cutoff, tooLarge, g, limit, cost, resolvents)
    {
      hide OccOk, LiveCount, LiveOf, Worthwhile, ResolventsOn, TriedWith, GateFor, CostOf, TooMuch, OutsAre, Collected;
      var lit := Lit(x, false);
      assert lit.Neg() == Lit(x, true);
      var posBin, posLonger := CalcDataForHeuristic(lit);
      var negBin, negLonger := CalcDataForHeuristic(lit.Neg());
      if limit < 0 {
        OutOfTime(watches, clauses, x, skipSome, cutoff, tooLarge, limit, resolvents);
        return None;
      }
      resolvents := [];
      if posBin + posLonger == 0 || negBin + negLonger == 0 {
        PureCollected(watches, clauses, x);
        PureTried(watches, clauses, x, skipSome, cutoff, tooLarge, limit);
        return Some(-100);
      }
      if (negBin + negLonger) * (posBin + posLonger) >= cutoff {
        CutOff(watches, clauses, x, skipSome, cutoff, tooLarge, limit);
        return None;
      }
      var before := posBin + posLonger + negBin + negLonger;
      var ok, afterLong, afterBin := ResolveOn(x, skipSome, before, tooLarge);
      ghost var g := gateVarelimClause;
      if !ok {
        TriedFully(watches, clauses, x, skipSome, cutoff, tooLarge, g, limit, None, resolvents);
        return None;
      }
      cost := Some(afterLong + afterBin * 3 - posLonger - negLonger - posBin * 3 - negBin * 3);
      CostIs(watches, clauses, x, g, resolvents, before, tooLarge, afterLong, afterBin, posBin, posLonger, negBin,
        negLonger);
      TriedFully(watches, clauses, x, skipSome, cutoff, tooLarge, g, limit, cost, resolvents);
    }

    /** The resolvents on a variable; the clause of a gate is marked for the time being. */
    method ResolveOn(x: nat, skipSome: bool, before: nat, tooLarge: int)
      returns (ok: bool, afterLong: nat, afterBin: nat)
      requires ListsOk() && Clean() && OnlyMarked(clauses, None) && resolvents == []
      modifies `seen, `toClear, `dummy, `resolvents, `gateVarelimClause, `clauses, `limit
      ensures ListsOk() && Clean() && clauses == old(clauses) && limit <= old(limit)
      ensures GateFor(watches, clauses, x, skipSome, gateVarelimClause)
      ensures ok ==> |resolvents| <= before && Collected(watches, clauses, x, resolvents)
      ensures var outs := ResolventsOn(watches, clauses, gateVarelimClause, x);
        if ok then OutsAre(outs, resolvents, before, tooLarge, afterLong, afterBin)
        else limit < 0 || TooMuch(outs, before, tooLarge)
    {
      hide OccOk, ResolventsOn, ChosenGate, OutsAre, TooMuch, Resolved, GateFound, Collected, AllOut;
      var lit := Lit(x, false);
      gateVarelimClause := None;
      if skipSome {
        MarkGateInPossNegs(lit);
      }
      MarkedOk(watches, old(clauses), clauses, gateVarelimClause);
      ghost var g, marked := gateVarelimClause, clauses;
      SameOuts(watches, old(clauses), marked, g, x);
      ok, afterLong, afterBin := ResolveAll(lit, before, tooLarge);
      if ok {
        ChosenFound(watches, old(clauses), marked, skipSome, g, x);
        ResolvedCollected(watches, old(clauses), marked, g, x, resolvents);
      }
      if gateVarelimClause.Some? {
        clauses := clauses[gateVarelimClause.value := clauses[gateVarelimClause.value].(marked := false)];
        assert clauses == old(clauses);
      }
    }

    /** The double loop over both lists. */
    method ResolveAll(lit: Lit, before: nat, tooLarge: int) returns (ok: bool, afterLong: nat, afterBin: nat)
      requires ListsOk() && Clean() && resolvents == [] && OnlyMarked(clauses, gateVarelimClause)
      modifies `seen, `toClear, `dummy, `resolvents, `limit
      ensures Clean() && limit <= old(limit)
      ensures ok ==>
        && |resolvents| <= before && Resolved(watches, clauses, gateVarelimClause, lit, resolvents)
        && forall r {:trigger r in resolvents} :: r in resolvents ==> DistinctVarsOf(r)
      ensures var outs := AllOut(clauses, gateVarelimClause, lit, W(watches, lit), W(watches, lit.Neg()));
        if ok then OutsAre(outs, resolvents, before, tooLarge, afterLong, afterBin)
        else limit < 0 || TooMuch(outs, before, tooLarge)
    {
      hide OccOk, FromPair, Clashes, DistinctVarsOf, OnlyMarked, AreOuts, TooMuch, AllOut, RowOut, SizedOf, PairOut,
        PairsUpTo, OutsAre, PairDone;
      afterLong, afterBin := 0, 0;
      var poss, negs := W(watches, lit), W(watches, lit.Neg());
      NothingOut(watches, clauses, gateVarelimClause, lit, before, tooLarge);
      for i := 0 to |poss|
        invariant Clean() && limit <= old(limit)
        invariant PairsUpTo(watches, clauses, gateVarelimClause, lit, resolvents, i, 0)
        invariant OutsAre(AllOut(clauses, gateVarelimClause, lit, poss[..i], negs), resolvents, before, tooLarge,
          afterLong, afterBin)
      {
        AllNext(clauses, gateVarelimClause, lit, poss, negs, i);
        var it := poss[i];
        limit := limit - 3;
        if !Live(clauses, it) {
          RowSkipped(watches, clauses, gateVarelimClause, lit, resolvents, i);
          DeadRow(clauses, gateVarelimClause, lit, it, negs);
          assert AllOut(clauses, gateVarelimClause, lit, poss[..i + 1], negs)
            == AllOut(clauses, gateVarelimClause, lit, poss[..i], negs);
          continue;
        }
        ok, afterLong, afterBin := ResolveRow(lit, i, before, tooLarge, afterLong, afterBin);
        if !ok {
          return;
        }
        RowDone(watches, clauses, gateVarelimClause, lit, resolvents, i);
      }
      assert poss[..|poss|] == poss;
      AllDone(watches, clauses, gateVarelimClause, lit, resolvents);
      FewEnough(AllOut(clauses, gateVarelimClause, lit, poss, negs), resolvents, before, tooLarge, afterLong, afterBin);
      ok := true;
    }

    /** One clause of `lit` against the list of the negation; `ok` unless it is too much, or the time is up. */
    method ResolveRow(lit: Lit, i: nat, before: nat, tooLarge: int, long: nat, bin: nat)
      returns (ok: bool, afterLong: nat, afterBin: nat)
      requires ListsOk() && Clean() && OnlyMarked(clauses, gateVarelimClause)
      requires i < |W(watches, lit)| && Live(clauses, W(watches, lit)[i])
        && PairsUpTo(watches, clauses, gateVarelimClause, lit, resolvents, i, 0)
      requires var poss, negs := W(watches, lit), W(watches, lit.Neg());
        OutsAre(AllOut(clauses, gateVarelimClause, lit, poss[..i], negs), resolvents, before, tooLarge, long, bin)
      modifies `seen, `toClear, `dummy, `resolvents, `limit
      ensures Clean() && limit <= old(limit)
      ensures ok ==> PairsUpTo(watches, clauses, gateVarelimClause, lit, resolvents, i, |W(watches, lit.Neg())|)
      ensures var poss, negs := W(watches, lit), W(watches, lit.Neg());
        if ok then
          OutsAre(AllOut(clauses, gateVarelimClause, lit, poss[..i], negs)
            + RowOut(clauses, gateVarelimClause, lit, poss[i], negs), resolvents, before, tooLarge, afterLong, afterBin)
        else limit < 0 || TooMuch(AllOut(clauses, gateVarelimClause, lit, poss, negs), before, tooLarge)
    {
      hide OccOk, OnlyMarked, OutsAre, TooMuch, AllOut, RowOut, PairOut, PairsUpTo, Live;
      afterLong, afterBin := long, bin;
      var poss, negs := W(watches, lit), W(watches, lit.Neg());
      ghost var outs0 := AllOut(clauses, gateVarelimClause, lit, poss[..i], negs);
      ghost var outs := outs0;
      RowStarts(clauses, gateVarelimClause, lit, poss[i], negs, outs0);
      for k := 0 to |negs|
        modifies `seen, `toClear, `dummy, `resolvents, `limit
        invariant Clean() && limit <= old(limit)
        invariant PairsUpTo(watches, clauses, gateVarelimClause, lit, resolvents, i, k)
        invariant outs == outs0 + RowOut(clauses, gateVarelimClause, lit, poss[i], negs[..k])
          && OutsAre(outs, resolvents, before, tooLarge, afterLong, afterBin)
      {
        OutsSoFar(clauses, gateVarelimClause, lit, poss, negs, i, k + 1);
        OutsGrow(clauses, gateVarelimClause, lit, poss[i], negs, k, outs0, outs);
        ghost var next := outs + PairOut(clauses, gateVarelimClause, lit, poss[i], negs[k]);
        limit := limit - 3;
        ok, afterLong, afterBin := ResolvePair(lit, i, k, before, tooLarge, afterLong, afterBin, outs);
        if !ok {
          if limit >= 0 {
            StaysTooMuch(next, AllOut(clauses, gateVarelimClause, lit, poss, negs), before, tooLarge);
          }
          return;
        }
        outs := next;
      }
      assert negs[..|negs|] == negs;
      ok := true;
    }

    /** One pair of clauses, the first of them irredundant. */
    method ResolvePair(lit: Lit, i: nat, k: nat, before: nat, tooLarge: int, long: nat, bin: nat,
                       ghost outs: seq<Clause>)
      returns (ok: bool, afterLong: nat, afterBin: nat)
      requires ListsOk() && Clean() && OnlyMarked(clauses, gateVarelimClause)
      requires i < |W(watches, lit)| && k < |W(watches, lit.Neg())| && Live(clauses, W(watches, lit)[i])
        && PairsUpTo(watches, clauses, gateVarelimClause, lit, resolvents, i, k)
        && OutsAre(outs, resolvents, before, tooLarge, long, bin)
      modifies `seen, `toClear, `dummy, `resolvents, `limit
      ensures Clean() && limit <= old(limit)
      ensures ok ==> PairsUpTo(watches, clauses, gateVarelimClause, lit, resolvents, i, k + 1)
      ensures var next :=
          outs + PairOut(clauses, gateVarelimClause, lit, W(watches, lit)[i], W(watches, lit.Neg())[k]);
        if ok then OutsAre(next, resolvents, before, tooLarge, afterLong, afterBin)
        else limit < 0 || TooMuch(next, before, tooLarge)
    {
      hide OccOk, Clashes, DistinctVarsOf, OnlyMarked, OutsAre, TooMuch, PairOut, PairsUpTo, Live, Skipped, PairDone;
      ok, afterLong, afterBin := true, long, bin;
      var it, it2 := W(watches, lit)[i], W(watches, lit.Neg())[k];
      if !Live(clauses, it2) {
        DeadPair(clauses, gateVarelimClause, lit, it, it2);
        PairSkipped(watches, clauses, gateVarelimClause, lit, resolvents, i, k);
        assert outs + [] == outs;
        return;
      }
      var skip := ResolveClauses(it, it2, lit);
      PairIs(clauses, gateVarelimClause, lit, it, it2, skip);
      if skip {
        PairSkipped(watches, clauses, gateVarelimClause, lit, resolvents, i, k);
        assert outs + [] == outs;
        return;
      }
      OutsNext(outs, resolvents, before, tooLarge, afterLong, afterBin, dummy);
      var afterClauses := |resolvents| + 1;
      if |dummy| >= 3 {
        afterLong := afterLong + 1;
      }
      if |dummy| == 2 {
        afterBin := afterBin + 1;
      }
      if afterClauses > before || (tooLarge != -1 && |dummy| > tooLarge) || limit < -10000 {
        ok := false;
        return;
      }
      PairAdded(watches, clauses, gateVarelimClause, lit, resolvents, dummy, i, k);
      resolvents := resolvents + [dummy];
    }

    // ----- removing the clauses of a literal -----

    /** `detach_bin_clause`, from the list of the other literal. */
    method DetachBin(b: Lit, w: Watched)
      requires w in W(watches, b) && w.Bin?
      modifies `watches
      ensures exists ws :: watches == old(watches)[b := ws] && WithoutOne(W(old(watches), b), ws, w)
    {
      var ws := W(watches, b);
      var i: nat := 0;
      ghost var at :| 0 <= at < |ws| && ws[at] == w;
      while ws[i] != w
        invariant i <= at
        decreases |ws| - i
      {
        i := i + 1;
      }
      TakenOut(ws, i);
      watches := watches[b := ws[..i] + ws[i + 1..]];
    }

    /**
     Empties the list of `lit`: irredundant clauses go onto the stack, all are taken out of the other lists or
     marked as removed.
     */
    method RemClsFromWatchDueToVarelim(lit: Lit)
      requires ListsOk() && lit !in units
      modifies `watches, `clauses, `blockedClauses
      ensures ListsOk() && Without1(old(Formula()), Formula(), lit)
      ensures blockedClauses == old(blockedClauses) + Pushed(old(clauses), lit, W(old(watches), lit))
      ensures W(watches, lit) == [] && OthersKept(old(watches), watches, lit)
        && clauses == Dropped(old(clauses), W(old(watches), lit))
    {
      hide Removing, LongOffs, WithoutOne, OthersKept, Dropped, Pushed;
      var todo := W(watches, lit);
      ghost var cs, ws, bl := clauses, watches, blockedClauses;
      watches := watches[lit := []];
      HalfStarts(ws, cs, bl, lit);
      for k := 0 to |todo|
        modifies `watches, `clauses, `blockedClauses
        invariant Half(ws, cs, bl, lit, todo, k, watches, clauses, blockedClauses)
      {
        var w := todo[k];
        assert w in W(ws, lit);
        if w.Long? {
          HalfLong(ws, cs, bl, lit, k, watches, clauses, blockedClauses);
          if clauses[w.off].removed {
            continue;
          }
          if !clauses[w.off].red {
            blockedClauses := blockedClauses + [Blocked(lit, clauses[w.off].lits, false, false)];
          }
          clauses := clauses[w.off := clauses[w.off].(removed := true)];
        } else {
          ghost var before, bl' := watches, blockedClauses;
          HalfOther(ws, cs, bl, lit, k, watches);
          if !w.red {
            blockedClauses := blockedClauses + [Blocked(lit, [lit, w.lit2], false, false)];
          }
          DetachBin(w.lit2, Bin(lit, w.red));
          ghost var l' :| watches == before[w.lit2 := l'] && WithoutOne(W(before, w.lit2), l', Bin(lit, w.red));
          HalfDetached(ws, cs, bl, lit, k, before, clauses, bl', l');
        }
      }
      HalfDone(ws, cs, bl, units, lit, watches, clauses, blockedClauses);
    }

    // ----- adding resolvents -----

    ghost predicate OffsetsOk()
      reads `clauses, `nextOffset
    {
      forall o {:trigger o in clauses} :: o in clauses ==> o < nextOffset
    }

    /** `attach_bin_clause` */
    method AttachBin(a: Lit, b: Lit)
      requires ListsOk() && a.v != b.v
      modifies `watches
      ensures ListsOk() && BinClauses(watches, false) == BinClauses(old(watches), false) + iset{{a, b}}
      ensures var ws1 := old(watches)[a := W(old(watches), a) + [Bin(b, false)]];
        watches == ws1[b := W(ws1, b) + [Bin(a, false)]]
    {
      hide OccOk;
      BinAttached(watches, clauses, a, b);
      watches := watches[a := W(watches, a) + [Bin(b, false)]];
      watches := watches[b := W(watches, b) + [Bin(a, false)]];
    }

    /** `linkInClause`: sorted, and into the list of each literal. */
    method LinkInClause(clause: seq<Lit>) returns (lits: seq<Lit>)
      requires ListsOk() && OffsetsOk() && |clause| >= 3 && DistinctVarsOf(clause)
      modifies `watches, `clauses, `nextOffset
      ensures SortedLits(lits) && Lits(lits) == Lits(clause) && |lits| == |clause| && DistinctVarsOf(lits)
      ensures ListsOk() && OffsetsOk() && BinClauses(watches, false) == BinClauses(old(watches), false)
      ensures nextOffset == old(nextOffset) + 1
        && clauses == old(clauses)[old(nextOffset) := OccClause(lits, false, false, false)]
      ensures Linked(old(watches), watches, old(nextOffset), lits, |lits|)
    {
      hide LongOffs;
      lits := SortLits(clause);
      var o := nextOffset;
      ghost var ws, cs := watches, clauses;
      for k := 0 to |lits|
        modifies `watches
        invariant Linked(ws, watches, o, lits, k)
      {
        LinkNext(ws, watches, o, lits, k);
        watches := watches[lits[k] := W(watches, lits[k]) + [Long(o, lits[0])]];
      }
      clauses := clauses[o := OccClause(lits, false, false, false)];
      nextOffset := o + 1;
      LinkDone(ws, watches, cs, o, lits);
    }

    /** `add_varelim_resolvent`, as a set: a unit clause is set, a binary one attached, a long one linked in. */
    method AddVarelimResolvent(lits: seq<Lit>)
      requires ListsOk() && OffsetsOk() && lits != [] && DistinctVarsOf(lits) && OnlyMarked(clauses, None)
      modifies `watches, `clauses, `nextOffset, `units
      ensures ListsOk() && OffsetsOk() && OnlyMarked(clauses, None)
      ensures forall c {:trigger c in Formula()} :: c in Formula() <==> c in old(Formula()) || c == Lits(lits)
      ensures units == if |lits| == 1 then old(units) + lits else old(units)
    {
      hide OccOk;
      if |lits| == 1 {
        units := units + lits;
        assert Lits(lits) == {lits[0]};
      } else if |lits| == 2 {
        AttachBin(lits[0], lits[1]);
        assert Lits(lits) == {lits[0], lits[1]};
      } else {
        ghost var cs, o := clauses, nextOffset;
        var sorted := LinkInClause(lits);
        LongAdded(cs, o, sorted);
      }
    }

    // ----- eliminating a variable -----

    ghost predicate Inv()
      reads `watches, `clauses, `units, `nextOffset, `seen, `toClear, `blockedClauses, `elimed, `original
    {
      && ListsOk() && Clean() && OffsetsOk() && OnlyMarked(clauses, None)
      && StackOk(Formula(), blockedClauses, elimed, {}) && NoneElimed(Formula(), elimed)
        && AllOpened(blockedClauses, elimed)
      && SameMeaning(original, Formula(), blockedClauses)
    }

    /** Not set and not eliminated. */
    predicate CanEliminateVar(x: nat)
      reads `units, `elimed
    {
      Lit(x, false) !in units && Lit(x, true) !in units && x !in elimed
    }

    /**
     Eliminates the variable if that does not add clauses: its clauses go onto the stack, the resolvents take
     their place. The formula keeps its models, and loses none that cannot be restored from the stack. With time left,
     it is eliminated exactly if that is worthwhile.
     */
    method MaybeEliminate(x: nat, skipSome: bool, cutoff: nat, tooLarge: int) returns (done: bool)
      requires Inv() && CanEliminateVar(x)
      modifies `watches, `clauses, `units, `nextOffset, `seen, `toClear, `dummy, `resolvents, `gateVarelimClause,
        `blockedClauses, `elimed, `limit
      ensures Inv() && limit <= old(limit) && (limit < 0 ==> !done)
      ensures limit >= 0 ==>
        exists g :: RightlyDone(old(watches), old(clauses), x, skipSome, cutoff, tooLarge, g, done, resolvents)
      ensures !done ==>
        watches == old(watches) && clauses == old(clauses) && units == old(units)
        && blockedClauses == old(blockedClauses) && elimed == old(elimed)
      ensures done ==>
        && elimed == old(elimed) + {x} && EliminatedTo(old(Formula()), Formula(), x)
        && |old(blockedClauses)| + 1 + |resolvents| <= |blockedClauses|
        && forall c {:trigger c in Formula()} ::
          c in Formula() <==> c in Without(old(Formula()), x) || OneOf(resolvents, c)
    {
      hide StackOk, NoneElimed, AllOpened, SameMeaning, OccOk, Collected, OnlyMarked, LiveCount, EliminatedTo, Irred,
        Pushed, Dropped, TriedWith, RightlyDone;
      var cost := TestElimAndFillResolvents(x, skipSome, cutoff, tooLarge);
      ghost var g :|
        TriedWith(watches, clauses, x, skipSome, cutoff, tooLarge, g, limit, cost, resolvents);
      TriedRightly(watches, clauses, x, skipSome, cutoff, tooLarge, g, limit, cost, resolvents);
      if cost == None || limit < 0 {
        return false;
      }
      ghost var ws0, cs0, es := watches, clauses, blockedClauses;
      TakeOut(x);
      ghost var f1 := Formula();
      ResolventsOk(ws0, cs0, units, x, resolvents);
      AddResolvents();
      Eliminated(original, ws0, cs0, old(units), es, elimed, x, resolvents, f1, Formula());
      elimed := elimed + {x};
      assert forall c {:trigger c in Formula()} :: c in Formula() <==> c in f1 || OneOf(resolvents, c);
      done := true;
    }

    /** The clauses of both literals go onto the stack, behind an entry that opens the variable. */
    method TakeOut(x: nat)
      requires ListsOk() && OffsetsOk() && OnlyMarked(clauses, None) && Lit(x, false) !in units
        && Lit(x, true) !in units
      modifies `watches, `clauses, `blockedClauses
      ensures ListsOk() && OffsetsOk() && OnlyMarked(clauses, None) && Formula() == Without(old(Formula()), x)
      ensures var ps := Pushed(old(clauses), Lit(x, false), W(old(watches), Lit(x, false)));
        var ns :=
          Pushed(Dropped(old(clauses), W(old(watches), Lit(x, false))), Lit(x, true), W(old(watches), Lit(x, true)));
        blockedClauses == PushedStack(old(blockedClauses), x, ps, ns)
    {
      hide OccOk, OnlyMarked, Pushed, Irred;
      var lit := Lit(x, false);
      assert lit.Neg() == Lit(x, true);
      ghost var f0, cs0 := Formula(), clauses;
      DroppedMarks(clauses, W(watches, lit));
      blockedClauses := blockedClauses + [DummyEntry(x)];
      RemClsFromWatchDueToVarelim(lit);
      ghost var f1 := Formula();
      DroppedMarks(clauses, W(watches, lit.Neg()));
      RemClsFromWatchDueToVarelim(lit.Neg());
      BothGone(f0, f1, Formula(), x);
    }

    method AddResolvents()
      requires ListsOk() && OffsetsOk() && OnlyMarked(clauses, None)
      requires forall r {:trigger r in resolvents} :: r in resolvents ==> r != [] && DistinctVarsOf(r)
      modifies `watches, `clauses, `nextOffset, `units
      ensures ListsOk() && OffsetsOk() && OnlyMarked(clauses, None)
      ensures forall c {:trigger c in Formula()} :: c in Formula() <==> c in old(Formula()) || OneOf(resolvents, c)
    {
      hide OccOk, OnlyMarked, Irred;
      for k := 0 to |resolvents|
        invariant ListsOk() && OffsetsOk() && OnlyMarked(clauses, None)
        invariant forall c {:trigger c in Formula()} ::
          c in Formula() <==> c in old(Formula()) || OneOf(resolvents[..k], c)
      {
        assert resolvents[k] in resolvents;
        AddVarelimResolvent(resolvents[k]);
        assert resolvents[..k + 1] == resolvents[..k] + [resolvents[k]];
      }
      assert resolvents[..|resolvents|] == resolvents;
    }

    ghost function Now(): State
      reads `watches, `clauses, `units, `elimed, `limit
    {
      State(watches, clauses, units, elimed, limit)
    }

    /** One variable, unless it has been set or eliminated in the meantime. */
    method TryVar(x: nat, skipSome: bool, cutoff: nat, tooLarge: int) returns (done: bool)
      requires Inv()
      modifies `watches, `clauses, `units, `nextOffset, `seen, `toClear, `dummy, `resolvents, `gateVarelimClause,
        `blockedClauses, `elimed, `limit
      ensures Inv() && Attempt(old(Now()), Now(), x, skipSome, cutoff, tooLarge)
      ensures if done then x !in old(elimed) && elimed == old(elimed) + {x} else elimed == old(elimed)
    {
      hide Inv, Attempt, RightlyDone, Irred, EliminatedTo, OneOf;
      ghost var s := Now();
      limit := limit - 20;
      done := false;
      if CanEliminateVar(x) {
        done := MaybeEliminate(x, skipSome, cutoff, tooLarge);
        AttemptMade(s, Now(), x, skipSome, cutoff, tooLarge, done, resolvents);
      } else {
        PassedOver(s, x, skipSome, cutoff, tooLarge);
      }
    }

    /**
     Variables are tried one after the other, as long as there is time and more may be eliminated. The states passed
     through are recorded; those set or eliminated in the meantime are passed over.
     */
    method EliminateVars(order: seq<nat>, skipSome: bool, cutoff: nat, tooLarge: int, numLimit: int)
      returns (ghost states: seq<State>)
      requires Inv()
      modifies `watches, `clauses, `units, `nextOffset, `seen, `toClear, `dummy, `resolvents, `gateVarelimClause,
        `blockedClauses, `elimed, `limit
      ensures Inv() && old(elimed) <= elimed
      ensures 0 < |states| <= |order| + 1 && states[0] == old(Now()) && states[|states| - 1] == Now()
      ensures forall k {:trigger order[k]} ::
        0 <= k < |states| - 1 ==> Attempt(states[k], states[k + 1], order[k], skipSome, cutoff, tooLarge)
      ensures |states| <= |order| ==> limit <= 0 || |elimed - old(elimed)| >= numLimit
    {
      hide Inv, Attempt;
      states := [Now()];
      var k, left := 0, numLimit;
      while k < |order| && limit > 0 && left > 0
        invariant Inv() && old(elimed) <= elimed && k == |states| - 1 <= |order|
        invariant states[0] == old(Now()) && states[k] == Now()
        invariant forall i {:trigger order[i]} ::
          0 <= i < k ==> Attempt(states[i], states[i + 1], order[i], skipSome, cutoff, tooLarge)
        invariant left == numLimit - |elimed - old(elimed)|
      {
        ghost var before := elimed;
        var done := TryVar(order[k], skipSome, cutoff, tooLarge);
        if done {
          OneMore(old(elimed), before, order[k]);
          left := left - 1;
        }
        states := states + [Now()];
        k := k + 1;
      }
    }

    /** What is left is satisfiable iff the original formula is. */
    lemma StillEquisatisfiable()
      requires Inv()
      ensures (exists m: Model :: FormulaTrue(m, original)) <==> (exists m: Model :: FormulaTrue(m, Formula()))
    {
      Equisatisfiable(original, Formula(), blockedClauses, elimed);
    }

    // ----- extending a model -----

    /**
     Looks for a reason to skip a stored clause: a literal set at level zero, which makes it superfluous for good, or
     a true one. Whichever comes first decides.
     */
    method SkipStored(i: nat, model: Assigns) returns (skip: bool)
      requires i < |blockedClauses|
      modifies `blockedClauses
      ensures skip <==> exists l :: l in old(blockedClauses)[i].lits && (l in units || Value(model, l) == True)
      ensures blockedClauses == if UnitFirst(old(blockedClauses)[i].lits, units, model) then
          old(blockedClauses)[i := old(blockedClauses)[i].(toRemove := true)] else old(blockedClauses)
    {
      var lits := blockedClauses[i].lits;
      for k := 0 to |lits|
        invariant blockedClauses == old(blockedClauses)
        invariant forall a {:trigger lits[a]} :: 0 <= a < k ==> lits[a] !in units && Value(model, lits[a]) != True
      {
        var l := lits[k];
        assert l in lits;
        if l in units {
          blockedClauses := blockedClauses[i := blockedClauses[i].(toRemove := true)];
          return true;
        }
        if Value(model, l) == True {
          return true;
        }
      }
      skip := false;
    }

    /** Replays one entry. */
    method ReplayEntry(ext: SolutionExtender, i: nat, ghost es: seq<Blocked>)
      requires StackOk(Formula(), es, elimed, {}) && i < |es| == |blockedClauses| && blockedClauses[i] == es[i]
        && ext.elimed == elimed
      requires Replaying(Formula(), es, elimed, ext.model, ext.varHasBeenBlocked, i + 1)
      modifies `blockedClauses, ext
      ensures Replaying(Formula(), es, elimed, ext.model, ext.varHasBeenBlocked, i)
        && Extends(old(ext.model), ext.model)
      ensures blockedClauses == if Active(es[i]) && UnitFirst(es[i].lits, units, old(ext.model)) then
          old(blockedClauses)[i := old(blockedClauses)[i].(toRemove := true)] else old(blockedClauses)
      ensures Extension(ext.model, ext.varHasBeenBlocked)
        == ReplayedOne(es[i], units, elimed, ext.greedyUndef, old(Extension(ext.model, ext.varHasBeenBlocked)))
      ensures !ext.greedyUndef && Opens(es[i], es[i].blockedOn.v) ==> es[i].blockedOn.v in ext.model
    {
      hide StackOk, Replaying, Irred;
      var e := blockedClauses[i];
      ghost var g, a, free := Formula(), ext.model, ext.varHasBeenBlocked;
      if e.toRemove {
        ReplayStep(g, es, elimed, a, free, i, a, free);
        return;
      }
      if e.dummy {
        ext.DummyBlocked(e.blockedOn);
        ReplayStep(g, es, elimed, a, free, i, ext.model, ext.varHasBeenBlocked);
        return;
      }
      var skip := SkipStored(i, ext.model);
      if skip {
        ReplaySkipped(watches, clauses, units, es, elimed, a, free, i);
        ReplayStep(g, es, elimed, a, free, i, a, free);
        return;
      }
      StackEntry(g, es, elimed, {}, i);
      if NoneTrue(a, e.lits) && NothingSettable(a, free, elimed, e.lits) {
        BlockedUndef(g, es, elimed, a, free, i);
      }
      ext.AddClause(e.lits, e.blockedOn);
      ReplayAdded(g, es, elimed, a, free, i, ext.model);
    }

    /**
     Replays the stack from the end: whatever model of the remaining formula comes in, total or not, what comes
     out satisfies every stored clause as well, so all its extensions satisfy the original formula.
     */
    method ExtendModel(model: Assigns, greedy: bool) returns (a: Assigns)
      requires Inv() && SatAll(TrueLits(model), Formula()) && forall v :: v in elimed ==> v !in model
      modifies `blockedClauses
      ensures Inv() && Extends(model, a)
      ensures a == ReplayedTo(old(blockedClauses), 0, units, elimed, greedy, model).model
      ensures SatAll(TrueLits(a), Formula()) && SatAll(TrueLits(a), Stored(old(blockedClauses)))
      ensures forall m: Model {:trigger FormulaTrue(m, original)} :: AgreesWith(m, a) ==> FormulaTrue(m, original)
      ensures !greedy ==> forall v {:trigger v in elimed} :: v in elimed ==> v in a
    {
      hide StackOk, Replaying, Irred, SameMeaning, NoneElimed, AllOpened, OccOk;
      ghost var es := blockedClauses;
      ghost var g := Formula();
      var ext := new SolutionExtender(model, greedy, elimed);
      ReplayStarts(g, es, elimed, model);
      var i: nat := |blockedClauses|;
      while i > 0
        invariant i <= |es| && UnitMarked(es, blockedClauses, units, i) && fresh(ext) && ext.elimed == elimed
          && ext.greedyUndef == greedy
        invariant Replaying(g, es, elimed, ext.model, ext.varHasBeenBlocked, i) && Extends(model, ext.model)
        invariant Extension(ext.model, ext.varHasBeenBlocked) == ReplayedTo(es, i, units, elimed, greedy, model)
        invariant !greedy ==>
          forall q: nat, v {:trigger Opens(es[q], v)} :: i <= q < |es| && Opens(es[q], v) ==> v in ext.model
      {
        i := i - 1;
        ghost var before := ext.model;
        ReplayEntry(ext, i, es);
      }
      a := ext.model;
      Replayed(original, g, es, elimed, a, ext.varHasBeenBlocked);
      UnitMarkedOk(original, watches, clauses, units, es, blockedClauses, elimed);
      if !greedy {
        AllGiven(es, elimed, a);
      }
    }

    // ----- putting a variable back -----

    /** The promises while clauses are on their way from the stack back into use. */
    ghost predicate Partial(pending: Formula, vars: set<nat>)
      reads this
    {
      && ListsOk() && Clean() && OffsetsOk() && OnlyMarked(clauses, None)
      && StackOk(Formula() + pending, blockedClauses, elimed, vars) && NoneElimed(Formula(), elimed)
        && AllOpened(blockedClauses, elimed)
      && SameMeaning(original, Formula() + pending, blockedClauses)
    }

    /**
     Puts an eliminated variable back: its clauses leave the stack and are in use again. Eliminated variables in
     them are put back first, so this may cascade. No clause is lost on the way.
     */
    method Uneliminate(x: nat, ghost pending: Formula, ghost vars: set<nat>)
      requires Partial(pending, vars) && x in elimed
      modifies `watches, `clauses, `units, `nextOffset, `blockedClauses, `elimed
      ensures Partial(pending, vars) && elimed <= old(elimed) - {x}
        && OnlyMarkedOff(old(blockedClauses), blockedClauses)
      ensures Conserved(old(Formula()), old(blockedClauses), Formula(), blockedClauses)
      decreases elimed, 0
    {
      hide StackOk, SameMeaning, NoneElimed, AllOpened, OccOk, OnlyMarked, Irred, Conserved;
      ghost var f0, es0 := Formula(), blockedClauses;
      PutBackStarts(Formula(), pending, blockedClauses, elimed, x, vars);
      elimed := elimed - {x};
      ConservedSame(f0, es0);
      for i := 0 to |blockedClauses|
        modifies `watches, `clauses, `units, `nextOffset, `blockedClauses, `elimed
        invariant Partial(pending, vars + {x}) && elimed <= old(elimed) - {x} && OnlyMarkedOff(es0, blockedClauses)
        invariant Conserved(f0, es0, Formula(), blockedClauses)
        invariant forall q :: 0 <= q < i && es0[q].blockedOn.v == x ==> blockedClauses[q].toRemove
      {
        var e := blockedClauses[i];
        if e.blockedOn.v == x && !e.toRemove {
          ghost var f1, es1 := Formula(), blockedClauses;
          PutBackEntry(i, x, pending, vars);
          ConservedTrans(f0, es0, f1, es1, Formula(), blockedClauses);
        }
      }
      PutBackDone(Formula() + pending, blockedClauses, elimed, x, vars);
    }

    /** One entry of the variable: marked off and, unless it only opens the variable, added to the formula again. */
    method PutBackEntry(i: nat, x: nat, ghost pending: Formula, ghost vars: set<nat>)
      requires Partial(pending, vars + {x}) && i < |blockedClauses| && blockedClauses[i].blockedOn.v == x
        && !blockedClauses[i].toRemove && x !in elimed
      modifies `watches, `clauses, `units, `nextOffset, `blockedClauses, `elimed
      ensures Partial(pending, vars + {x}) && elimed <= old(elimed)
        && OnlyMarkedOff(old(blockedClauses), blockedClauses) && blockedClauses[i].toRemove
      ensures Conserved(old(Formula()), old(blockedClauses), Formula(), blockedClauses)
      decreases elimed, 1
    {
      hide StackOk, SameMeaning, NoneElimed, AllOpened, OccOk, OnlyMarked, Irred;
      ghost var f0, es0 := Formula(), blockedClauses;
      var e := blockedClauses[i];
      StackEntry(f0 + pending, es0, elimed, vars + {x}, i);
      MarkedStores(es0, i, 0);
      PutBackMarked(original, f0, pending, es0, elimed, vars + {x}, i, if e.dummy then pending
        else pending + iset{Lits(e.lits)});
      blockedClauses := blockedClauses[i := e.(toRemove := true)];
      if e.dummy {
        return;
      }
      ghost var c, es1 := Lits(e.lits), blockedClauses;
      for k := 0 to |e.lits|
        modifies `watches, `clauses, `units, `nextOffset, `blockedClauses, `elimed
        invariant Partial(pending + iset{c}, vars + {x}) && elimed <= old(elimed) && OnlyMarkedOff(es1, blockedClauses)
        invariant Conserved(f0, es1, Formula(), blockedClauses)
        invariant forall q :: 0 <= q < k ==> e.lits[q].v !in elimed
      {
        if e.lits[k].v in elimed {
          assert elimed < old(elimed) || elimed == old(elimed);
          Uneliminate(e.lits[k].v, pending + iset{c}, vars + {x});
        }
      }
      AddPending(original, Formula(), elimed, e.lits, pending);
      ghost var f2 := Formula();
      AddVarelimResolvent(e.lits);
      assert Formula() == f2 + iset{c};
      assert Formula() + pending == f2 + (pending + iset{c});
    }

    /** Puts a variable back, from a state in which nothing else is on its way. */
    method UneliminateVar(x: nat)
      requires Inv() && x in elimed
      modifies `watches, `clauses, `units, `nextOffset, `blockedClauses, `elimed
      ensures Inv() && elimed <= old(elimed) - {x}
      ensures Conserved(old(Formula()), old(blockedClauses), Formula(), blockedClauses)
    {
      hide StackOk, SameMeaning, NoneElimed, AllOpened, OccOk, OnlyMarked, Irred, Conserved;
      assert Formula() + iset{} == Formula();
      Uneliminate(x, iset{}, {});
      assert Formula() + iset{} == Formula();
    }
  }

  ghost predicate OneOf(rs: seq<seq<Lit>>, c: Clause) {
    exists r :: r in rs && c == Lits(r)
  }

  /** A literal that clashes with something collected clashes with the first clause. */
  lemma ClashFound(dummy0: seq<Lit>, dummy: seq<Lit>, cl: seq<Lit>, k: nat, but: Lit)
    requires k < |cl| && DistinctVarsOf(cl) && cl[k].Neg() in dummy && cl[k] != but
    requires forall y: Lit {:trigger y in dummy} :: y in dummy <==> y in dummy0 || (y in cl[..k] && y != but)
    ensures cl[k].Neg() in dummy0 && cl[k].Neg().Neg() == cl[k] && cl[k] in cl
  {
    assert cl[k].Neg().Neg() == cl[k];
    forall i | 0 <= i < k
      ensures cl[..k][i] != cl[k].Neg()
    {
      assert cl[i].v != cl[k].v;
    }
  }

  lemma PassedOver(s: State, x: nat, skipSome: bool, cutoff: nat, tooLarge: int)
    requires Lit(x, false) in s.units || Lit(x, true) in s.units || x in s.elimed
    ensures Attempt(s, s.(limit := s.limit - 20), x, skipSome, cutoff, tooLarge)
  {
  }

  lemma AttemptMade(s: State, t: State, x: nat, skipSome: bool, cutoff: nat, tooLarge: int, done: bool,
                    rs: seq<seq<Lit>>)
    requires Lit(x, false) !in s.units && Lit(x, true) !in s.units && x !in s.elimed && (t.limit < 0 ==> !done)
    requires t.limit >= 0 ==> exists g :: RightlyDone(s.ws, s.cs, x, skipSome, cutoff, tooLarge, g, done, rs)
    requires !done ==> t == s.(limit := t.limit)
    requires done ==>
      t.elimed == s.elimed + {x}
      && forall c {:trigger c in Irred(t.ws, t.cs, t.units)} ::
           c in Irred(t.ws, t.cs, t.units) <==> c in Without(Irred(s.ws, s.cs, s.units), x) || OneOf(rs, c)
    ensures Attempt(s, t, x, skipSome, cutoff, tooLarge)
  {
    hide RightlyDone, Irred, OneOf;
    if t.limit >= 0 {
      var g :| RightlyDone(s.ws, s.cs, x, skipSome, cutoff, tooLarge, g, done, rs);
      assert AttemptBy(s, t, x, skipSome, cutoff, tooLarge, g, rs);
    } else {
      assert AttemptBy(s, t, x, skipSome, cutoff, tooLarge, None, rs);
    }
  }

  lemma OneMore(before: set<nat>, now: set<nat>, x: nat)
    requires before <= now && x !in now
    ensures |now + {x} - before| == |now - before| + 1
  {
    assert now + {x} - before == (now - before) + {x};
  }

  /** A unit clause makes the clause superfluous before a true literal is met. */
  ghost predicate UnitFirst(lits: seq<Lit>, units: seq<Lit>, model: Assigns) {
    exists k: nat {:trigger lits[k]} ::
      k < |lits| && lits[k] in units
      && forall a {:trigger lits[a]} :: 0 <= a < k ==> lits[a] !in units && Value(model, lits[a]) != True
  }

  lemma NothingOut(ws: WatchLists, cs: OccClauses, gate: Option<nat>, l: Lit, before: nat, tooLarge: int)
    ensures PairsUpTo(ws, cs, gate, l, [], 0, 0)
    ensures OutsAre(AllOut(cs, gate, l, W(ws, l)[..0], W(ws, l.Neg())), [], before, tooLarge, 0, 0)
  {
  }

  lemma RowStarts(cs: OccClauses, gate: Option<nat>, l: Lit, p: Watched, qs: seq<Watched>, outs: seq<Clause>)
    ensures outs + RowOut(cs, gate, l, p, qs[..0]) == outs
  {
  }

  lemma OutsGrow(cs: OccClauses, gate: Option<nat>, l: Lit, p: Watched, qs: seq<Watched>, k: nat, outs0: seq<Clause>,
                 outs: seq<Clause>)
    requires k < |qs| && outs == outs0 + RowOut(cs, gate, l, p, qs[..k])
    ensures outs + PairOut(cs, gate, l, p, qs[k]) == outs0 + RowOut(cs, gate, l, p, qs[..k + 1])
  {
    RowNext(cs, gate, l, p, qs, k);
  }

  lemma DeadPair(cs: OccClauses, gate: Option<nat>, l: Lit, p: Watched, q: Watched)
    requires !Live(cs, q)
    ensures PairOut(cs, gate, l, p, q) == [] && forall rs {:trigger PairDone(cs, gate, l, p, q, rs)} ::
      PairDone(cs, gate, l, p, q, rs)
  {
  }

  lemma PairIs(cs: OccClauses, gate: Option<nat>, l: Lit, p: Watched, q: Watched, skip: bool)
    requires OnlyMarked(cs, gate) && Live(cs, p) && Live(cs, q)
    requires var c, d := Lits(ClauseOf(cs, l, p)), Lits(ClauseOf(cs, l.Neg(), q));
      skip <==> Skipped(cs, gate, p, q) || Clashes(c, d, l)
    ensures var c, d := Lits(ClauseOf(cs, l, p)), Lits(ClauseOf(cs, l.Neg(), q));
      PairOut(cs, gate, l, p, q) == if skip then [] else [Resolvent(c, d, l)]
    ensures skip ==> forall rs {:trigger PairDone(cs, gate, l, p, q, rs)} :: PairDone(cs, gate, l, p, q, rs)
    ensures !skip ==> !Clashes(Lits(ClauseOf(cs, l, p)), Lits(ClauseOf(cs, l.Neg(), q)), l)
  {
    hide Clashes;
  }

  lemma SameOuts(ws: WatchLists, cs: OccClauses, cs': OccClauses, gate: Option<nat>, x: nat)
    requires SameButMarks(cs, cs')
    ensures AllOut(cs', gate, Lit(x, false), W(ws, Lit(x, false)), W(ws, Lit(x, true)))
      == ResolventsOn(ws, cs, gate, x)
  {
    assert forall w {:trigger Live(cs', w)} :: Live(cs', w) <==> Live(cs, w);
    assert forall y: Lit, w {:trigger ClauseOf(cs', y, w)} :: ClauseOf(cs', y, w) == ClauseOf(cs, y, w);
    SameAll(cs, cs', gate, Lit(x, false), W(ws, Lit(x, false)), W(ws, Lit(x, true)));
  }

  lemma ChosenFound(ws: WatchLists, cs: OccClauses, cs': OccClauses, skipSome: bool, gate: Option<nat>, x: nat)
    requires SameButMarks(cs, cs') && GateFor(ws, cs, x, skipSome, gate)
    ensures GateFound(ws, cs', gate, Lit(x, false))
  {
    if gate.Some? {
      var l := Lit(x, false);
      assert l.Neg().Neg() == l;
      if FirstGate(ws, cs, l, gate) {
        FirstFound(ws, cs, cs', l, gate.value);
      } else {
        FirstFound(ws, cs, cs', l.Neg(), gate.value);
      }
    }
  }

  lemma FirstFound(ws: WatchLists, cs: OccClauses, cs': OccClauses, l: Lit, o: nat)
    requires SameButMarks(cs, cs') && FirstGate(ws, cs, l, Some(o))
    ensures GateEntry(ws, cs', o, l.Neg()) && GateBins(ws, cs'[o].lits, l)
  {
    var k: nat :| FirstAt(ws, cs, l, o, k);
    var w := W(ws, l.Neg())[k];
    assert Long(o, w.blocked) in W(ws, l.Neg());
  }

  lemma CostIs(ws: WatchLists, cs: OccClauses, x: nat, gate: Option<nat>, rs: seq<seq<Lit>>, before: nat,
               tooLarge: int, long: nat, bin: nat, posBin: nat, posLong: nat, negBin: nat, negLong: nat)
    requires OutsAre(ResolventsOn(ws, cs, gate, x), rs, before, tooLarge, long, bin)
    requires posBin == LiveOf(cs, W(ws, Lit(x, false)), true) && posLong == LiveOf(cs, W(ws, Lit(x, false)), false)
    requires negBin == LiveOf(cs, W(ws, Lit(x, true)), true) && negLong == LiveOf(cs, W(ws, Lit(x, true)), false)
    ensures long + bin * 3 - posLong - negLong - posBin * 3 - negBin * 3 == CostOf(ws, cs, x, gate)
    ensures AreOuts(rs, ResolventsOn(ws, cs, gate, x)) && !TooMuch(ResolventsOn(ws, cs, gate, x), before, tooLarge)
  {
  }

  /** The irredundant entries of a list. */
  ghost function LiveCount(cs: OccClauses, ws: seq<Watched>): nat {
    if ws == [] then 0 else LiveCount(cs, ws[..|ws| - 1]) + if Live(cs, ws[|ws| - 1]) then 1 else 0
  }

  lemma {:induction false} NoneLive(cs: OccClauses, ws: seq<Watched>, w: Watched)
    requires w in ws && Live(cs, w)
    ensures LiveCount(cs, ws) > 0
  {
    if w != ws[|ws| - 1] {
      assert w in ws[..|ws| - 1];
      NoneLive(cs, ws[..|ws| - 1], w);
    }
  }

  /** The pairs before pair (i, k), row by row, are accounted for. */
  ghost predicate PairsUpTo(ws: WatchLists, cs: OccClauses, gate: Option<nat>, l: Lit, rs: seq<seq<Lit>>, i: nat,
                            k: nat)
  {
    && i <= |W(ws, l)| && k <= |W(ws, l.Neg())|
    && (forall a, b {:trigger PairDone(cs, gate, l, W(ws, l)[a], W(ws, l.Neg())[b], rs)} ::
         0 <= a < |W(ws, l)| && 0 <= b < |W(ws, l.Neg())| && (a < i || (a == i && b < k)) ==>
           PairDone(cs, gate, l, W(ws, l)[a], W(ws, l.Neg())[b], rs))
    && (forall r {:trigger r in rs} :: r in rs ==> FromPair(ws, cs, l, r) && DistinctVarsOf(r))
  }

  lemma PairDoneMore(cs: OccClauses, gate: Option<nat>, l: Lit, p: Watched, q: Watched, rs: seq<seq<Lit>>,
                     rs': seq<seq<Lit>>)
    requires PairDone(cs, gate, l, p, q, rs) && forall r :: r in rs ==> r in rs'
    ensures PairDone(cs, gate, l, p, q, rs')
  {
  }

  lemma PairNext(ws: WatchLists, cs: OccClauses, gate: Option<nat>, l: Lit, rs: seq<seq<Lit>>, rs': seq<seq<Lit>>,
                 i: nat, k: nat)
    requires PairsUpTo(ws, cs, gate, l, rs, i, k) && i < |W(ws, l)| && k < |W(ws, l.Neg())|
      && (forall r :: r in rs ==> r in rs')
    requires PairDone(cs, gate, l, W(ws, l)[i], W(ws, l.Neg())[k], rs')
    requires forall r :: r in rs' ==> FromPair(ws, cs, l, r) && DistinctVarsOf(r)
    ensures PairsUpTo(ws, cs, gate, l, rs', i, k + 1)
  {
    hide PairDone, FromPair, DistinctVarsOf;
    forall a, b | 0 <= a < |W(ws, l)| && 0 <= b < |W(ws, l.Neg())| && (a < i || (a == i && b < k + 1))
      ensures PairDone(cs, gate, l, W(ws, l)[a], W(ws, l.Neg())[b], rs')
    {
      if a != i || b != k {
        PairDoneMore(cs, gate, l, W(ws, l)[a], W(ws, l.Neg())[b], rs, rs');
      }
    }
  }

  lemma PairSkipped(ws: WatchLists, cs: OccClauses, gate: Option<nat>, l: Lit, rs: seq<seq<Lit>>, i: nat, k: nat)
    requires PairsUpTo(ws, cs, gate, l, rs, i, k) && i < |W(ws, l)| && k < |W(ws, l.Neg())|
    requires PairDone(cs, gate, l, W(ws, l)[i], W(ws, l.Neg())[k], rs)
    ensures PairsUpTo(ws, cs, gate, l, rs, i, k + 1)
  {
    PairNext(ws, cs, gate, l, rs, rs, i, k);
  }

  lemma PairAdded(ws: WatchLists, cs: OccClauses, gate: Option<nat>, l: Lit, rs: seq<seq<Lit>>, d: seq<Lit>, i: nat,
                  k: nat)
    requires PairsUpTo(ws, cs, gate, l, rs, i, k) && i < |W(ws, l)| && k < |W(ws, l.Neg())|
    requires var p, q := W(ws, l)[i], W(ws, l.Neg())[k];
      && Live(cs, p) && Live(cs, q) && !Clashes(Lits(ClauseOf(cs, l, p)), Lits(ClauseOf(cs, l.Neg(), q)), l)
      && Lits(d) == Resolvent(Lits(ClauseOf(cs, l, p)), Lits(ClauseOf(cs, l.Neg(), q)), l) && DistinctVarsOf(d)
    ensures PairsUpTo(ws, cs, gate, l, rs + [d], i, k + 1)
  {
    hide Clashes, DistinctVarsOf;
    assert d in rs + [d];
    assert FromPair(ws, cs, l, d);
    PairNext(ws, cs, gate, l, rs, rs + [d], i, k);
  }

  lemma RowSkipped(ws: WatchLists, cs: OccClauses, gate: Option<nat>, l: Lit, rs: seq<seq<Lit>>, i: nat)
    requires PairsUpTo(ws, cs, gate, l, rs, i, 0) && i < |W(ws, l)| && !Live(cs, W(ws, l)[i])
    ensures PairsUpTo(ws, cs, gate, l, rs, i + 1, 0)
  {
  }

  lemma RowDone(ws: WatchLists, cs: OccClauses, gate: Option<nat>, l: Lit, rs: seq<seq<Lit>>, i: nat)
    requires PairsUpTo(ws, cs, gate, l, rs, i, |W(ws, l.Neg())|) && i < |W(ws, l)|
    ensures PairsUpTo(ws, cs, gate, l, rs, i + 1, 0)
  {
  }

  lemma AllDone(ws: WatchLists, cs: OccClauses, gate: Option<nat>, l: Lit, rs: seq<seq<Lit>>)
    requires PairsUpTo(ws, cs, gate, l, rs, |W(ws, l)|, 0)
    ensures Resolved(ws, cs, gate, l, rs) && forall r :: r in rs ==> DistinctVarsOf(r)
  {
    hide PairDone, FromPair, DistinctVarsOf;
    forall p, q | p in W(ws, l) && q in W(ws, l.Neg())
      ensures PairDone(cs, gate, l, p, q, rs)
    {
      var a :| 0 <= a < |W(ws, l)| && W(ws, l)[a] == p;
      var b :| 0 <= b < |W(ws, l.Neg())| && W(ws, l.Neg())[b] == q;
      assert PairDone(cs, gate, l, W(ws, l)[a], W(ws, l.Neg())[b], rs);
    }
  }

  /** The resolvents come from pairs and cover every pair. */
  ghost predicate Collected(ws: WatchLists, cs: OccClauses, x: nat, rs: seq<seq<Lit>>) {
    && (forall r {:trigger r in rs} :: r in rs ==> FromPair(ws, cs, Lit(x, false), r) && DistinctVarsOf(r))
    && forall p, q, h: Formula {:trigger CoversPair(ws, cs, x, p, q, h)} ::
         p in W(ws, Lit(x, false)) && q in W(ws, Lit(x, true)) && Live(cs, p) && Live(cs, q)
         && (forall r :: r in rs ==> Lits(r) in h) ==>
           CoversPair(ws, cs, x, p, q, h)
  }

  ghost predicate CoversPair(ws: WatchLists, cs: OccClauses, x: nat, p: Watched, q: Watched, h: Formula) {
    Covers(h, Lits(ClauseOf(cs, Lit(x, false), p)), Lits(ClauseOf(cs, Lit(x, true), q)), Lit(x, false))
  }

  lemma PureCollected(ws: WatchLists, cs: OccClauses, x: nat)
    requires LiveCount(cs, W(ws, Lit(x, false))) == 0 || LiveCount(cs, W(ws, Lit(x, true))) == 0
    ensures Collected(ws, cs, x, [])
  {
    forall p, q | p in W(ws, Lit(x, false)) && q in W(ws, Lit(x, true))
      ensures !(Live(cs, p) && Live(cs, q))
    {
      if Live(cs, p) {
        NoneLive(cs, W(ws, Lit(x, false)), p);
      }
      if Live(cs, q) {
        NoneLive(cs, W(ws, Lit(x, true)), q);
      }
    }
  }

  /** Marks change nothing but themselves. */
  ghost predicate SameButMarks(cs: OccClauses, cs': OccClauses) {
    cs'.Keys == cs.Keys && forall o {:trigger cs'[o]} :: o in cs ==> cs'[o].(marked := false) == cs[o].(marked := false)
  }

  lemma MarkedOk(ws: WatchLists, cs: OccClauses, cs': OccClauses, gate: Option<nat>)
    requires OccOk(ws, cs) && if gate.Some? then
      gate.value in cs && cs' == cs[gate.value := cs[gate.value].(marked := true)] else cs' == cs
    ensures OccOk(ws, cs') && SameButMarks(cs, cs')
  {
    forall o | o in cs'
      ensures OccClauseOk(ws, cs', o)
    {
      assert OccClauseOk(ws, cs, o);
    }
  }

  lemma ResolvedCollected(ws: WatchLists, cs: OccClauses, cs': OccClauses, gate: Option<nat>, x: nat, rs: seq<seq<Lit>>)
    requires OccOk(ws, cs') && SameButMarks(cs, cs') && OnlyMarked(cs', gate) && GateFound(ws, cs', gate, Lit(x, false))
    requires Resolved(ws, cs', gate, Lit(x, false), rs) && forall r :: r in rs ==> DistinctVarsOf(r)
    ensures Collected(ws, cs, x, rs)
  {
    hide OccOk, Covers, DistinctVarsOf, OnlyMarked, GateFound, Clashes;
    var l := Lit(x, false);
    assert l.Neg() == Lit(x, true);
    assert forall w {:trigger Live(cs', w)} :: Live(cs', w) <==> Live(cs, w);
    assert forall y: Lit, w {:trigger ClauseOf(cs', y, w)} :: ClauseOf(cs', y, w) == ClauseOf(cs, y, w);
    forall r | r in rs
      ensures FromPair(ws, cs, l, r)
    {
      assert FromPair(ws, cs', l, r);
      var p, q :| p in W(ws, l) && q in W(ws, l.Neg()) && Live(cs', p) && Live(cs', q)
        && Lits(r) == Resolvent(Lits(ClauseOf(cs', l, p)), Lits(ClauseOf(cs', l.Neg(), q)), l)
        && !Clashes(Lits(ClauseOf(cs', l, p)), Lits(ClauseOf(cs', l.Neg(), q)), l);
      assert Live(cs, p) && Live(cs, q);
    }
    hide Resolved, FromPair;
    forall p, q, h: Formula | p in W(ws, l) && q in W(ws, l.Neg()) && Live(cs, p) && Live(cs, q)
      && (forall r :: r in rs ==> Lits(r) in h)
      ensures CoversPair(ws, cs, x, p, q, h)
    {
      assert Live(cs', p) && Live(cs', q);
      AllCovered(ws, cs', gate, l, rs, h, p, q);
    }
  }

  /** What goes onto the stack for a list. */
  ghost function Pushed(cs: OccClauses, l: Lit, ws: seq<Watched>): seq<Blocked> {
    if ws == [] then []
    else
      var n := |ws| - 1;
      Pushed(cs, l, ws[..n]) + if Live(cs, ws[n]) then [Blocked(l, ClauseOf(cs, l, ws[n]), false, false)] else []
  }

  /** The formula without the clauses of one literal. */
  ghost predicate Without1(f: Formula, f': Formula, l: Lit) {
    forall c {:trigger c in f'} {:trigger c in f} :: c in f' <==> c in f && l !in c
  }

  lemma NothingDropped(cs: OccClauses, ws: seq<Watched>)
    ensures Dropped(cs, ws[..0]) == cs
  {
    assert forall o :: o in cs ==> !HasOff(ws[..0], o);
  }

  lemma OtherSide(ws: WatchLists, l: Lit, todo: seq<Watched>)
    requires Removing(ws, l, todo) && todo != [] && todo[0].Bin?
    ensures Bin(l, todo[0].red) in W(ws, todo[0].lit2)
  {
    var w := todo[0];
    assert w in todo && w == Bin(w.lit2, w.red);
    InCnt(todo, w);
    assert Cnt(W(ws, w.lit2), Bin(l, w.red)) == Cnt(todo, Bin(w.lit2, w.red));
    InCnt(W(ws, w.lit2), Bin(l, w.red));
  }

  lemma WithoutOneIn(ws: seq<Watched>, ws': seq<Watched>, w: Watched, e: Watched)
    requires WithoutOne(ws, ws', w) && e != w
    ensures e in ws' <==> e in ws
  {
    hide Cnt, LongOffs;
    InCnt(ws, e);
    InCnt(ws', e);
    assert Cnt(ws', e) == Cnt(ws, e);
  }

  lemma StillKept(ws: WatchLists, before: WatchLists, l: Lit, b: Lit, l': seq<Watched>, red: bool)
    requires OthersKept(ws, before, l) && WithoutOne(W(before, b), l', Bin(l, red)) && b.v != l.v
    ensures OthersKept(ws, before[b := l'], l)
  {
    hide LongOffs;
    var after := before[b := l'];
    assert forall a: Lit :: a != b ==> W(after, a) == W(before, a);
    forall a: Lit, w: Watched | a != l && !(w.Bin? && w.lit2 == l)
      ensures w in W(after, a) <==> w in W(ws, a)
    {
      WithoutOneIn(W(before, b), l', Bin(l, red), w);
      assert w in W(before, a) <==> w in W(ws, a);
    }
    forall a: Lit | a != l
      ensures LongOffs(W(after, a)) == LongOffs(W(ws, a))
    {
      assert LongOffs(W(before, a)) == LongOffs(W(ws, a));
    }
  }

  lemma RemovingVars(ws: WatchLists, l: Lit, todo: seq<Watched>, w: Watched)
    requires Removing(ws, l, todo) && w in todo && w.Bin?
    ensures w.lit2.v != l.v
  {
  }

  /** The first `k` entries of the list have been worked off. */
  ghost predicate Half(ws0: WatchLists, cs0: OccClauses, bl0: seq<Blocked>, l: Lit, todo: seq<Watched>, k: nat,
                       ws: WatchLists, cs: OccClauses, bl: seq<Blocked>) {
    && k <= |todo| && Removing(ws, l, todo[k..]) && OthersKept(ws0, ws, l)
    && cs == Dropped(cs0, todo[..k]) && bl == bl0 + Pushed(cs0, l, todo[..k])
  }

  lemma HalfStarts(ws: WatchLists, cs: OccClauses, bl: seq<Blocked>, l: Lit)
    requires OccOk(ws, cs)
    ensures Half(ws, cs, bl, l, W(ws, l), 0, ws[l := []], cs, bl)
  {
    hide Removing;
    RemovingStarts(ws, l);
    NothingDropped(cs, W(ws, l));
    assert W(ws, l)[0..] == W(ws, l);
  }

  /** Before a long entry is worked off: its clause is as it was, and afterwards it will have been dealt with. */
  lemma HalfLong(ws0: WatchLists, cs0: OccClauses, bl0: seq<Blocked>, l: Lit, k: nat, ws: WatchLists, cs: OccClauses,
                 bl: seq<Blocked>)
    requires OccOk(ws0, cs0) && k < |W(ws0, l)| && W(ws0, l)[k].Long?
      && Half(ws0, cs0, bl0, l, W(ws0, l), k, ws, cs, bl)
    ensures var o := W(ws0, l)[k].off;
      && o in cs
      && Half(ws0, cs0, bl0, l, W(ws0, l), k + 1, ws, cs[o := cs[o].(removed := true)],
              if Live(cs, W(ws0, l)[k]) then bl + [Blocked(l, cs[o].lits, false, false)] else bl)
      && (cs[o].removed ==> cs[o := cs[o].(removed := true)] == cs)
  {
    hide Removing, OthersKept;
    var todo := W(ws0, l);
    var w := todo[k];
    assert w in todo;
    assert w.off in cs0 && LongOffs(W(ws0, l))[w.off] <= 1;
    NotBefore(todo, k);
    RemovingLong(ws, l, todo[k..]);
    assert todo[k..][1..] == todo[k + 1..] && todo[..k + 1][..k] == todo[..k];
    DroppedNext(cs0, todo, k);
    assert cs[w.off] == cs0[w.off];
  }

  lemma HalfOther(ws0: WatchLists, cs0: OccClauses, bl0: seq<Blocked>, l: Lit, k: nat, ws: WatchLists)
    requires k < |W(ws0, l)| && W(ws0, l)[k].Bin? && Removing(ws, l, W(ws0, l)[k..])
    ensures Bin(l, W(ws0, l)[k].red) in W(ws, W(ws0, l)[k].lit2)
  {
    hide Removing;
    assert W(ws0, l)[k..][0] == W(ws0, l)[k];
    OtherSide(ws, l, W(ws0, l)[k..]);
  }

  lemma HalfDetached(ws0: WatchLists, cs0: OccClauses, bl0: seq<Blocked>, l: Lit, k: nat, ws: WatchLists,
                     cs: OccClauses, bl: seq<Blocked>, l': seq<Watched>)
    requires k < |W(ws0, l)| && W(ws0, l)[k].Bin? && Half(ws0, cs0, bl0, l, W(ws0, l), k, ws, cs, bl)
    requires WithoutOne(W(ws, W(ws0, l)[k].lit2), l', Bin(l, W(ws0, l)[k].red))
    ensures var w := W(ws0, l)[k];
      Half(ws0, cs0, bl0, l, W(ws0, l), k + 1, ws[w.lit2 := l'], cs, if !w.red then
        bl + [Blocked(l, [l, w.lit2], false, false)] else bl)
  {
    hide Removing, OthersKept, WithoutOne;
    var todo := W(ws0, l);
    assert todo[k..][0] == todo[k] && todo[k..][1..] == todo[k + 1..] && todo[..k + 1][..k] == todo[..k];
    RemovingBin(ws, l, todo[k..], l');
    assert todo[k] in todo[k..];
    RemovingVars(ws, l, todo[k..], todo[k]);
    StillKept(ws0, ws, l, todo[k].lit2, l', todo[k].red);
    DroppedNext(cs0, todo, k);
  }

  lemma HalfDone(ws0: WatchLists, cs0: OccClauses, bl0: seq<Blocked>, units: seq<Lit>, l: Lit, ws: WatchLists,
                 cs: OccClauses, bl: seq<Blocked>)
    requires OccOk(ws0, cs0) && l !in units && Half(ws0, cs0, bl0, l, W(ws0, l), |W(ws0, l)|, ws, cs, bl)
    ensures OccOk(ws, cs) && Without1(Irred(ws0, cs0, units), Irred(ws, cs, units), l)
    ensures bl == bl0 + Pushed(cs0, l, W(ws0, l)) && cs == Dropped(cs0, W(ws0, l)) && W(ws, l) == []
      && OthersKept(ws0, ws, l)
  {
    var todo := W(ws0, l);
    assert todo[..|todo|] == todo && todo[|todo|..] == [];
    LiteralGone(ws0, cs0, units, l, ws);
  }

  lemma BinAttached(ws: WatchLists, cs: OccClauses, a: Lit, b: Lit)
    requires OccOk(ws, cs) && a.v != b.v
    ensures var ws1 := ws[a := W(ws, a) + [Bin(b, false)]]; var ws2 := ws1[b := W(ws1, b) + [Bin(a, false)]];
      OccOk(ws2, cs) && BinClauses(ws2, false) == BinClauses(ws, false) + iset{{a, b}}
  {
    var ws1 := ws[a := W(ws, a) + [Bin(b, false)]];
    var ws2 := ws1[b := W(ws1, b) + [Bin(a, false)]];
    forall y: Lit
      ensures W(ws2, y) == W(ws, y) + if y == a then [Bin(b, false)] else if y == b then [Bin(a, false)] else []
    {
    }
    hide Cnt, LongOffs;
    BinAdded(ws, a, b, false);
    BinAttachedLongs(ws, cs, a, b, ws2);
  }

  lemma BinAttachedLongs(ws: WatchLists, cs: OccClauses, a: Lit, b: Lit, ws2: WatchLists)
    requires LongsOk(ws, cs)
    requires forall y: Lit {:trigger W(ws2, y)} ::
      W(ws2, y) == W(ws, y) + if y == a then [Bin(b, false)] else if y == b then [Bin(a, false)] else []
    ensures LongsOk(ws2, cs)
  {
    forall y: Lit
      ensures LongOffs(W(ws2, y)) == LongOffs(W(ws, y))
      ensures forall w :: w in W(ws2, y) && w.Long? <==> w in W(ws, y) && w.Long?
    {
      BinLongOffs(W(ws, y), if y == a then Bin(b, false) else Bin(a, false));
      assert W(ws, y) + [] == W(ws, y);
    }
    hide LongOffs, W;
    forall y: Lit, o: nat
      ensures LongOffs(W(ws2, y))[o] <= 1
    {
      assert LongOffs(W(ws, y))[o] <= 1;
    }
    forall y: Lit, w | w in W(ws2, y) && w.Long?
      ensures w.off in cs && y in cs[w.off].lits
    {
      assert w in W(ws, y);
    }
    SameLongsOk(ws, ws2, cs);
  }

  lemma SameLongsOk(ws: WatchLists, ws2: WatchLists, cs: OccClauses)
    requires forall o {:trigger OccClauseOk(ws, cs, o)} :: o in cs ==> OccClauseOk(ws, cs, o)
    requires forall y: Lit, w {:trigger w in W(ws2, y)} {:trigger w in W(ws, y)} ::
      w in W(ws2, y) && w.Long? <==> w in W(ws, y) && w.Long?
    ensures forall o {:trigger OccClauseOk(ws2, cs, o)} :: o in cs ==> OccClauseOk(ws2, cs, o)
  {
    hide W;
    forall o | o in cs
      ensures OccClauseOk(ws2, cs, o)
    {
      assert OccClauseOk(ws, cs, o);
      forall y | y in cs[o].lits && !cs[o].removed
        ensures InList(ws2, y, o)
      {
        assert InList(ws, y, o);
        var z: Lit :| Long(o, z) in W(ws, y);
        assert Long(o, z) in W(ws2, y);
      }
    }
  }

  lemma BinLongOffs(s: seq<Watched>, w: Watched)
    requires w.Bin?
    ensures LongOffs(s + [w]) == LongOffs(s)
  {
    LongOffsConcat(s, [w]);
    assert [w][1..] == [];
  }

  lemma LongLongOffs(s: seq<Watched>, w: Watched)
    requires w.Long?
    ensures LongOffs(s + [w]) == LongOffs(s) + multiset{w.off}
  {
    LongOffsConcat(s, [w]);
    assert [w][1..] == [];
  }

  /** The new clause is in the lists of its first `k` literals. */
  ghost predicate Linked(ws: WatchLists, ws': WatchLists, o: nat, lits: seq<Lit>, k: nat) {
    k <= |lits| && forall y: Lit {:trigger W(ws', y)} :: W(ws', y) == W(ws, y) + if y in lits[..k] then
      [Long(o, lits[0])] else []
  }

  lemma LinkNext(ws: WatchLists, ws': WatchLists, o: nat, lits: seq<Lit>, k: nat)
    requires Linked(ws, ws', o, lits, k) && k < |lits| && DistinctVarsOf(lits)
    ensures Linked(ws, ws'[lits[k] := W(ws', lits[k]) + [Long(o, lits[0])]], o, lits, k + 1)
  {
    NotLinkedYet(lits, k);
    hide DistinctVarsOf;
    var n, ws2 := Long(o, lits[0]), ws'[lits[k] := W(ws', lits[k]) + [Long(o, lits[0])]];
    forall y: Lit
      ensures W(ws2, y) == W(ws, y) + if y in lits[..k + 1] then [n] else []
    {
      assert W(ws', y) == W(ws, y) + if y in lits[..k] then [n] else [];
      if y == lits[k] {
        assert W(ws2, y) == W(ws', y) + [n] && W(ws, y) + [] == W(ws, y);
      } else {
        assert W(ws2, y) == W(ws', y);
      }
    }
  }

  lemma NotLinkedYet(lits: seq<Lit>, k: nat)
    requires DistinctVarsOf(lits) && k < |lits|
    ensures lits[k] !in lits[..k]
      && forall y: Lit {:trigger y in lits[..k + 1]} :: y in lits[..k + 1] <==> y in lits[..k] || y == lits[k]
  {
    assert lits[..k + 1] == lits[..k] + [lits[k]];
    forall i | 0 <= i < k
      ensures lits[..k][i] != lits[k]
    {
      assert lits[i].v != lits[k].v;
    }
  }

  lemma LinkDone(ws: WatchLists, ws': WatchLists, cs: OccClauses, o: nat, lits: seq<Lit>)
    requires OccOk(ws, cs) && o !in cs && |lits| >= 3 && DistinctVarsOf(lits) && Linked(ws, ws', o, lits, |lits|)
    ensures OccOk(ws', cs[o := OccClause(lits, false, false, false)]) && BinClauses(ws', false) == BinClauses(ws, false)
  {
    hide Cnt, LongOffs;
    var cs' := cs[o := OccClause(lits, false, false, false)];
    var n := Long(o, lits[0]);
    assert lits[..|lits|] == lits;
    assert forall y: Lit {:trigger W(ws', y)} :: W(ws', y) == W(ws, y) + if y in lits then [n] else [];
    assert forall y: Lit, w {:trigger w in W(ws', y)} :: w in W(ws', y) <==> w in W(ws, y) || (w == n && y in lits);
    LinkedBins(ws, ws', n, lits);
    LinkedLongs(ws, ws', cs, o, lits);
    forall c
      ensures c in BinClauses(ws', false) <==> c in BinClauses(ws, false)
    {
      if c in BinClauses(ws', false) {
        var y: Lit, z: Lit :| Bin(z, false) in W(ws', y) && c == {y, z};
        assert Bin(z, false) in W(ws, y);
      }
      if c in BinClauses(ws, false) {
        var y: Lit, z: Lit :| Bin(z, false) in W(ws, y) && c == {y, z};
        assert Bin(z, false) in W(ws', y);
      }
    }
  }

  lemma LinkedBins(ws: WatchLists, ws': WatchLists, n: Watched, lits: seq<Lit>)
    requires BinsOk(ws) && n.Long? && forall y: Lit {:trigger W(ws', y)} :: W(ws', y) == W(ws, y) + if y in lits then
      [n] else []
    ensures BinsOk(ws')
  {
    hide Cnt;
    forall y: Lit, z: Lit, r: bool
      ensures Cnt(W(ws', y), Bin(z, r)) == Cnt(W(ws', z), Bin(y, r))
    {
      assert Cnt(W(ws, y), Bin(z, r)) == Cnt(W(ws, z), Bin(y, r));
      Snoc(W(ws, y), n, Bin(z, r));
      Snoc(W(ws, z), n, Bin(y, r));
      assert W(ws, y) + [] == W(ws, y) && W(ws, z) + [] == W(ws, z);
    }
    forall y: Lit, w | w in W(ws', y) && w.Bin?
      ensures w.lit2.v != y.v
    {
      assert w in W(ws, y);
    }
  }

  lemma LinkedLongs(ws: WatchLists, ws': WatchLists, cs: OccClauses, o: nat, lits: seq<Lit>)
    requires LongsOk(ws, cs) && o !in cs && |lits| >= 3 && DistinctVarsOf(lits)
    requires forall y: Lit {:trigger W(ws', y)} :: W(ws', y) == W(ws, y) + if y in lits then [Long(o, lits[0])] else []
    ensures LongsOk(ws', cs[o := OccClause(lits, false, false, false)])
  {
    hide LongOffs;
    var cs' := cs[o := OccClause(lits, false, false, false)];
    var n := Long(o, lits[0]);
    forall y: Lit, q: nat
      ensures LongOffs(W(ws', y))[q] <= 1
    {
      assert LongOffs(W(ws, y))[q] <= 1;
      LongLongOffs(W(ws, y), n);
      NewOffset(ws, cs, o, y);
      assert W(ws, y) + [] == W(ws, y);
    }
    forall q | q in cs'
      ensures OccClauseOk(ws', cs', q)
    {
      forall y | y in cs'[q].lits && !cs'[q].removed
        ensures InList(ws', y, q)
      {
        if q == o {
          assert n in W(ws', y);
        } else {
          assert OccClauseOk(ws, cs, q);
          assert InList(ws, y, q);
          var z: Lit :| Long(q, z) in W(ws, y);
          assert Long(q, z) in W(ws', y);
        }
      }
      assert q != o ==> OccClauseOk(ws, cs, q);
    }
    forall y: Lit, w | w in W(ws', y) && w.Long?
      ensures w.off in cs' && y in cs'[w.off].lits
    {
      assert w in W(ws, y) || w == n;
    }
  }

  lemma NewOffset(ws: WatchLists, cs: OccClauses, o: nat, l: Lit)
    requires LongsOk(ws, cs) && o !in cs
    ensures LongOffs(W(ws, l))[o] == 0
  {
    hide LongOffs;
    if o in LongOffs(W(ws, l)) {
      var i := LongOffWitness(W(ws, l), o);
      var w := W(ws, l)[i];
      var occurs := w in W(ws, l);
    }
  }

  lemma LongAdded(cs: OccClauses, o: nat, lits: seq<Lit>)
    requires o !in cs
    ensures forall c {:trigger c in LongFormula(cs[o := OccClause(lits, false, false, false)])} ::
      c in LongFormula(cs[o := OccClause(lits, false, false, false)]) <==> c in LongFormula(cs) || c == Lits(lits)
  {
    var cs' := cs[o := OccClause(lits, false, false, false)];
    forall c
      ensures c in LongFormula(cs') <==> c in LongFormula(cs) || c == Lits(lits)
    {
      if c in LongFormula(cs) {
        var q: nat :| q in cs && !cs[q].red && !cs[q].removed && c == Lits(cs[q].lits);
        assert cs'[q] == cs[q];
      }
      if c == Lits(lits) {
        assert !cs'[o].red && !cs'[o].removed && c == Lits(cs'[o].lits);
      }
    }
  }

  /** A skipped clause is true. */
  lemma ReplaySkipped(ws: WatchLists, cs: OccClauses, units: seq<Lit>, es: seq<Blocked>, elimed: set<nat>, a: Assigns,
                      free: set<nat>, i: nat)
    requires Replaying(Irred(ws, cs, units), es, elimed, a, free, i + 1) && i < |es|
    requires exists l :: l in es[i].lits && (l in units || Value(a, l) == True)
    ensures HasTrue(TrueLits(a), Lits(es[i].lits))
  {
    var l :| l in es[i].lits && (l in units || Value(a, l) == True);
    if l in units {
      assert {l} in Irred(ws, cs, units);
      var y :| y in {l} && y in TrueLits(a);
    }
    assert l in Lits(es[i].lits) && l in TrueLits(a);
  }

  /** A clause made true by the extender is one step of the replay. */
  lemma ReplayAdded(g: Formula, es: seq<Blocked>, elimed: set<nat>, a: Assigns, free: set<nat>, i: nat, a': Assigns)
    requires StackOk(g, es, elimed, {}) && i < |es| && Active(es[i]) && Replaying(g, es, elimed, a, free, i + 1)
      && Extends(a, a')
    requires HasTrue(TrueLits(a'), Lits(es[i].lits))
    requires forall v {:trigger v in a'} :: v in a' && v !in a && v in elimed && v !in free ==>
      && v == es[i].blockedOn.v && Value(a', es[i].blockedOn) == True
      && NoneTrue(a, es[i].lits) && NothingSettable(a, free, elimed, es[i].lits)
    ensures Replaying(g, es, elimed, a', free, i)
  {
    hide StackOk, Replaying;
    var e := es[i];
    if v :| v in a' && v !in a && v in elimed && v !in free {
      BlockedUndef(g, es, elimed, a, free, i);
      forall l | l in Lits(e.lits) - {e.blockedOn}
        ensures l.Neg() in TrueLits(a')
      {
        assert l in e.lits && Value(a, l) == False;
      }
      assert Forced(a', e);
    }
    ReplayStep(g, es, elimed, a, free, i, a', free);
  }

  /** Entries from `i` on may have been marked for removal, if they have a literal set at level zero. */
  ghost predicate UnitMarked(es: seq<Blocked>, es': seq<Blocked>, units: seq<Lit>, i: nat) {
    && OnlyMarkedOff(es, es')
    && forall q {:trigger es'[q]} :: 0 <= q < |es| && es'[q] != es[q] ==> q >= i && Active(es[q]) && exists l ::
      l in es[q].lits && l in units
  }

  lemma UnitMarkedOk(original: Formula, ws: WatchLists, cs: OccClauses, units: seq<Lit>, es: seq<Blocked>,
                     es': seq<Blocked>, elimed: set<nat>)
    requires UnitMarked(es, es', units, 0) && StackOk(Irred(ws, cs, units), es, elimed, {})
      && SameMeaning(original, Irred(ws, cs, units), es) && AllOpened(es, elimed)
    ensures StackOk(Irred(ws, cs, units), es', elimed, {}) && SameMeaning(original, Irred(ws, cs, units), es')
      && AllOpened(es', elimed)
  {
    hide StackOk, SameMeaning;
    var g := Irred(ws, cs, units);
    forall q | 0 <= q < |es| && Active(es[q]) && es'[q].toRemove
      ensures exists l :: l in es[q].lits && {l} in g
    {
      var l :| l in es[q].lits && l in units;
      assert {l} in g;
    }
    forall q, t: Valuation | 0 <= q < |es| && Active(es[q]) && es'[q].toRemove && SatAll(t, g)
      ensures HasTrue(t, Lits(es[q].lits))
    {
      var l :| l in es[q].lits && {l} in g;
      var y :| y in {l} && y in t;
      assert y in Lits(es[q].lits);
    }
    forall q, m: Model | 0 <= q < |es| && Active(es[q]) && es'[q].toRemove && FormulaTrue(m, g)
      ensures ClauseTrue(m, Lits(es[q].lits))
    {
      var l :| l in es[q].lits && {l} in g;
      var y :| y in {l} && LitTrue(m, y);
      assert y in Lits(es[q].lits);
    }
    hide Irred;
    StackMarkOff(g, g, es, es', elimed, elimed, {}, {});
    MeaningMarkOff(original, g, g, es, es');
    forall v | v in elimed
      ensures OpenedFrom(es', 0, v)
    {
      var q: nat :| 0 <= q < |es| && Opens(es[q], v);
      var e := es'[q];
      assert Opens(es'[q], v);
    }
  }

  /** The model agrees with the assignment where that has a value. */
  ghost predicate AgreesWith(m: Model, a: Assigns) {
    forall v {:trigger v in a} :: v in a ==> (v in m <==> a[v])
  }

  lemma Replayed(original: Formula, g: Formula, es: seq<Blocked>, elimed: set<nat>, a: Assigns, free: set<nat>)
    requires Replaying(g, es, elimed, a, free, 0) && SameMeaning(original, g, es)
    ensures SatAll(TrueLits(a), g) && SatAll(TrueLits(a), Stored(es))
    ensures forall m: Model {:trigger FormulaTrue(m, original)} :: AgreesWith(m, a) ==> FormulaTrue(m, original)
  {
    forall m: Model | AgreesWith(m, a)
      ensures FormulaTrue(m, original)
    {
      AgreeingTrue(m, a, g);
      AgreeingTrue(m, a, Stored(es));
    }
  }

  lemma AgreeingTrue(m: Model, a: Assigns, f: Formula)
    requires AgreesWith(m, a) && SatAll(TrueLits(a), f)
    ensures FormulaTrue(m, f)
  {
    forall c | c in f
      ensures ClauseTrue(m, c)
    {
      var l :| l in c && l in TrueLits(a);
      assert l.v in a && LitTrue(m, l);
    }
  }

  lemma AllGiven(es: seq<Blocked>, elimed: set<nat>, a: Assigns)
    requires AllOpened(es, elimed)
      && forall q: nat, v {:trigger Opens(es[q], v)} :: 0 <= q < |es| && Opens(es[q], v) ==> v in a
    ensures forall v {:trigger v in elimed} :: v in elimed ==> v in a
  {
    forall v | v in elimed
      ensures v in a
    {
      var q: nat :| 0 <= q < |es| && Opens(es[q], v);
    }
  }

  lemma AddPending(original: Formula, f: Formula, elimed: set<nat>, lits: seq<Lit>, pending: Formula)
    requires NoneElimed(f, elimed) && forall q :: 0 <= q < |lits| ==> lits[q].v !in elimed
    ensures NoneElimed(f + iset{Lits(lits)}, elimed)
  {
    forall v | v in elimed
      ensures !HasVar(Lits(lits), v)
    {
      assert Lit(v, false).v == v && Lit(v, true).v == v;
    }
  }

  lemma DroppedMarks(cs: OccClauses, todo: seq<Watched>)
    requires OnlyMarked(cs, None)
    ensures OnlyMarked(Dropped(cs, todo), None) && Dropped(cs, todo).Keys == cs.Keys
  {
  }

  lemma BothGone(f0: Formula, f1: Formula, f2: Formula, x: nat)
    requires Without1(f0, f1, Lit(x, false)) && Without1(f1, f2, Lit(x, true))
    ensures f2 == Without(f0, x)
  {
  }

  /** Resolvents are clauses: not empty, every variable once. */
  lemma ResolventsOk(ws: WatchLists, cs: OccClauses, units: seq<Lit>, x: nat, rs: seq<seq<Lit>>)
    requires OccOk(ws, cs) && Collected(ws, cs, x, rs)
    ensures forall r {:trigger r in rs} :: r in rs ==> r != [] && DistinctVarsOf(r)
  {
    var l := Lit(x, false);
    forall r | r in rs
      ensures r != []
    {
      assert FromPair(ws, cs, l, r);
      var p, q :| p in W(ws, l) && q in W(ws, l.Neg()) && Live(cs, p) && Live(cs, q)
        && Lits(r) == Resolvent(Lits(ClauseOf(cs, l, p)), Lits(ClauseOf(cs, l.Neg(), q)), l)
        && !Clashes(Lits(ClauseOf(cs, l, p)), Lits(ClauseOf(cs, l.Neg(), q)), l);
      var c := ClauseOf(cs, l, p);
      ClauseOfOk(ws, cs, l, p);
      var y := if c[0] == l then c[1] else c[0];
      assert y in c && y != l && y in Lits(c) - {l};
      assert y in Lits(r);
    }
  }

  lemma PushedMembers(cs: OccClauses, l: Lit, ws: seq<Watched>)
    ensures forall e {:trigger e in Pushed(cs, l, ws)} :: e in Pushed(cs, l, ws) <==> exists w ::
      w in ws && Live(cs, w) && e == Blocked(l, ClauseOf(cs, l, w), false, false)
    ensures |Pushed(cs, l, ws)| == LiveCount(cs, ws)
  {
    if ws != [] {
      var n := |ws| - 1;
      PushedMembers(cs, l, ws[..n]);
      assert ws == ws[..n] + [ws[n]];
    }
  }

  /** Taking out the clauses of one literal does not touch those of the other. */
  lemma OtherSideSame(ws: WatchLists, cs: OccClauses, l: Lit, w: Watched)
    requires OccOk(ws, cs) && w in W(ws, l.Neg())
    ensures Live(Dropped(cs, W(ws, l)), w) <==> Live(cs, w)
    ensures ClauseOf(Dropped(cs, W(ws, l)), l.Neg(), w) == ClauseOf(cs, l.Neg(), w)
  {
    if w.Long? {
      ClauseOfOk(ws, cs, l.Neg(), w);
      assert l.Neg().Neg() == l && l !in cs[w.off].lits;
      forall b: Lit
        ensures Long(w.off, b) !in W(ws, l)
      {
        var occurs := Long(w.off, b) in W(ws, l);
      }
      assert !HasOff(W(ws, l), w.off);
    }
  }

  lemma {:induction false} SamePushed(cs: OccClauses, cs': OccClauses, l: Lit, ws: seq<Watched>)
    requires forall w :: w in ws ==> (Live(cs', w) <==> Live(cs, w)) && ClauseOf(cs', l, w) == ClauseOf(cs, l, w)
    ensures Pushed(cs', l, ws) == Pushed(cs, l, ws)
  {
    if ws != [] {
      var n := |ws| - 1;
      assert ws[n] in ws && forall w :: w in ws[..n] ==> w in ws;
      SamePushed(cs, cs', l, ws[..n]);
    }
  }

  lemma PushedEntries(ws: WatchLists, cs: OccClauses, units: seq<Lit>, l: Lit)
    requires OccOk(ws, cs) && l !in units
    ensures EntriesOf(Irred(ws, cs, units), l, Pushed(cs, l, W(ws, l)))
    ensures forall c {:trigger c in Irred(ws, cs, units)} ::
      c in Irred(ws, cs, units) && l in c ==> HoldsEntry(Pushed(cs, l, W(ws, l)), c)
  {
    var ps := Pushed(cs, l, W(ws, l));
    PushedMembers(cs, l, W(ws, l));
    forall e | e in ps
      ensures Active(e) && e.blockedOn == l && l in e.lits && l.Neg() !in e.lits && DistinctVarsOf(e.lits)
        && Lits(e.lits) in Irred(ws, cs, units)
    {
      var w :| w in W(ws, l) && Live(cs, w) && e == Blocked(l, ClauseOf(cs, l, w), false, false);
      ClauseOfOk(ws, cs, l, w);
      assert Lits(e.lits) in OccOf(ws, cs, l);
      OccExact(ws, cs, units, l, Lits(e.lits));
    }
    forall c | c in Irred(ws, cs, units) && l in c
      ensures HoldsEntry(ps, c)
    {
      OccExact(ws, cs, units, l, c);
      var w :| w in W(ws, l) && Live(cs, w) && c == Lits(ClauseOf(cs, l, w));
      assert Blocked(l, ClauseOf(cs, l, w), false, false) in ps;
    }
  }

  /** All that an elimination keeps. */
  lemma Eliminated(original: Formula, ws: WatchLists, cs: OccClauses, units: seq<Lit>, es: seq<Blocked>,
                   elimed: set<nat>, x: nat,
                   rs: seq<seq<Lit>>, f1: Formula, f': Formula)
    requires OccOk(ws, cs) && Collected(ws, cs, x, rs) && Lit(x, false) !in units && Lit(x, true) !in units
      && x !in elimed
    requires var f := Irred(ws, cs, units);
      && StackOk(f, es, elimed, {}) && NoneElimed(f, elimed) && AllOpened(es, elimed) && SameMeaning(original, f, es)
        && f1 == Without(f, x)
    requires forall c {:trigger c in f'} :: c in f' <==> c in f1 || OneOf(rs, c)
    requires |rs| <= LiveCount(cs, W(ws, Lit(x, false))) + LiveCount(cs, W(ws, Lit(x, true)))
    ensures var ps := Pushed(cs, Lit(x, false), W(ws, Lit(x, false)));
      var ns := Pushed(Dropped(cs, W(ws, Lit(x, false))), Lit(x, true), W(ws, Lit(x, true)));
      && StackOk(f', PushedStack(es, x, ps, ns), elimed + {x}, {}) && NoneElimed(f', elimed + {x})
      && AllOpened(PushedStack(es, x, ps, ns), elimed + {x})
      && SameMeaning(original, f', PushedStack(es, x, ps, ns)) && EliminatedTo(Irred(ws, cs, units), f', x)
      && |es| + 1 + |rs| <= |PushedStack(es, x, ps, ns)|
  {
    hide StackOk, SameMeaning, NoneElimed, AllOpened, EliminatedTo, Collected, EntriesOf, Pushed, LiveCount, OccOk,
      Irred;
    var f := Irred(ws, cs, units);
    var l := Lit(x, false);
    assert l.Neg() == Lit(x, true);
    var ps := Pushed(cs, l, W(ws, l));
    var ns := Pushed(cs, l.Neg(), W(ws, l.Neg()));
    forall w | w in W(ws, l.Neg())
      ensures (Live(Dropped(cs, W(ws, l)), w) <==> Live(cs, w))
        && ClauseOf(Dropped(cs, W(ws, l)), l.Neg(), w) == ClauseOf(cs, l.Neg(), w)
    {
      OtherSideSame(ws, cs, l, w);
    }
    SamePushed(cs, Dropped(cs, W(ws, l)), l.Neg(), W(ws, l.Neg()));
    PushedMembers(cs, l, W(ws, l));
    PushedMembers(cs, l.Neg(), W(ws, l.Neg()));
    PushedEntries(ws, cs, units, l);
    PushedEntries(ws, cs, units, l.Neg());
    forall r | r in rs
      ensures Lits(r) in f'
    {
      assert OneOf(rs, Lits(r));
    }
    EliminationIs(ws, cs, units, x, rs, f');
    PushIs(ws, cs, f, f', x, rs, ps, ns);
    StackPush(f, f', es, elimed, x, ps, ns);
    PushAllOpened(f, es, elimed, x, ps, ns);
    PlainFormula(ws, cs, units, x);
    MeaningPush(original, f, f', es, x, ps, ns);
    StillNoneElimed(f, f', elimed, x);
  }

  lemma PushIs(ws: WatchLists, cs: OccClauses, f: Formula, f': Formula, x: nat, rs: seq<seq<Lit>>, ps: seq<Blocked>,
               ns: seq<Blocked>)
    requires EntriesOf(f, Lit(x, false), ps) && EntriesOf(f, Lit(x, true), ns) && Without(f, x) <= f'
      && Collected(ws, cs, x, rs)
    requires forall c {:trigger c in f} :: c in f && Lit(x, false) in c ==> HoldsEntry(ps, c)
    requires forall c {:trigger c in f} :: c in f && Lit(x, true) in c ==> HoldsEntry(ns, c)
    requires forall e {:trigger e in ps} :: e in ps <==> exists w ::
      w in W(ws, Lit(x, false)) && Live(cs, w)
      && e == Blocked(Lit(x, false), ClauseOf(cs, Lit(x, false), w), false, false)
    requires forall e {:trigger e in ns} :: e in ns <==> exists w ::
      w in W(ws, Lit(x, true)) && Live(cs, w) && e == Blocked(Lit(x, true), ClauseOf(cs, Lit(x, true), w), false, false)
    requires forall r :: r in rs ==> Lits(r) in f'
    ensures PushOk(f, f', x, ps, ns)
  {
    hide EntriesOf, Covers;
    forall c | c in f
      ensures c in f' || HoldsEntry(ps + ns, c)
    {
      if Lit(x, false) in c {
        var e :| e in ps && Lits(e.lits) == c;
        assert e in ps + ns;
      } else if Lit(x, true) in c {
        var e :| e in ns && Lits(e.lits) == c;
        assert e in ps + ns;
      } else {
        assert c in Without(f, x);
      }
    }
    forall e, d | e in ps && d in ns
      ensures Covers(f', Lits(e.lits), Lits(d.lits), Lit(x, false))
    {
      var p :| p in W(ws, Lit(x, false)) && Live(cs, p)
        && e == Blocked(Lit(x, false), ClauseOf(cs, Lit(x, false), p), false, false);
      var q :| q in W(ws, Lit(x, true)) && Live(cs, q)
        && d == Blocked(Lit(x, true), ClauseOf(cs, Lit(x, true), q), false, false);
      assert CoversPair(ws, cs, x, p, q, f');
    }
  }

  lemma EliminationIs(ws: WatchLists, cs: OccClauses, units: seq<Lit>, x: nat, rs: seq<seq<Lit>>, f': Formula)
    requires OccOk(ws, cs) && Collected(ws, cs, x, rs) && Lit(x, false) !in units && Lit(x, true) !in units
    requires forall c {:trigger c in f'} :: c in f' <==> c in Without(Irred(ws, cs, units), x) || OneOf(rs, c)
    requires forall r :: r in rs ==> Lits(r) in f'
    ensures EliminatedTo(Irred(ws, cs, units), f', x)
  {
    hide Covers, OccOk, Irred, Clashes;
    var f, l := Irred(ws, cs, units), Lit(x, false);
    assert l.Neg() == Lit(x, true);
    forall r | r in f' && r !in Without(f, x)
      ensures exists c, d ::
        c in f && d in f && Lit(x, false) in c && Lit(x, true) in d && r == Resolvent(c, d, Lit(x, false))
    {
      assert OneOf(rs, r);
      var k :| k in rs && r == Lits(k);
      assert FromPair(ws, cs, l, k);
      var p, q :| p in W(ws, l) && q in W(ws, l.Neg()) && Live(cs, p) && Live(cs, q)
        && Lits(k) == Resolvent(Lits(ClauseOf(cs, l, p)), Lits(ClauseOf(cs, l.Neg(), q)), l)
        && !Clashes(Lits(ClauseOf(cs, l, p)), Lits(ClauseOf(cs, l.Neg(), q)), l);
      var c, d := Lits(ClauseOf(cs, l, p)), Lits(ClauseOf(cs, l.Neg(), q));
      assert c in OccOf(ws, cs, l) && d in OccOf(ws, cs, l.Neg());
      OccExact(ws, cs, units, l, c);
      OccExact(ws, cs, units, l.Neg(), d);
    }
    forall c, d | c in f && d in f && Lit(x, false) in c && Lit(x, true) in d
      ensures Covers(f', c, d, Lit(x, false))
    {
      OccExact(ws, cs, units, l, c);
      OccExact(ws, cs, units, l.Neg(), d);
      var p :| p in W(ws, l) && Live(cs, p) && c == Lits(ClauseOf(cs, l, p));
      var q :| q in W(ws, l.Neg()) && Live(cs, q) && d == Lits(ClauseOf(cs, l.Neg(), q));
      assert CoversPair(ws, cs, x, p, q, f');
    }
  }

  lemma StillNoneElimed(f: Formula, f': Formula, elimed: set<nat>, x: nat)
    requires NoneElimed(f, elimed) && EliminatedTo(f, f', x) && Plain(f, x)
    ensures NoneElimed(f', elimed + {x})
  {
    hide Covers;
    forall r, v | r in f' && v in elimed + {x}
      ensures !HasVar(r, v)
    {
      if r in Without(f, x) {
        assert v in elimed ==> !HasVar(r, v);
      } else {
        var c, d :| c in f && d in f && Lit(x, false) in c && Lit(x, true) in d && r == Resolvent(c, d, Lit(x, false));
        assert Lit(x, false).Neg() == Lit(x, true);
        assert v in elimed ==> !HasVar(c, v) && !HasVar(d, v);
      }
    }
  }

  lemma OtherVars(c: seq<Lit>, l: Lit)
    requires DistinctVarsOf(c) && l in c
    ensures forall y {:trigger y in Lits(c) - {l}} :: y in Lits(c) - {l} ==> y.v != l.v
  {
    forall y | y in Lits(c) - {l}
      ensures y.v != l.v
    {
      var i :| 0 <= i < |c| && c[i] == y;
      var j :| 0 <= j < |c| && c[j] == l;
      assert i < j || j < i;
    }
  }

  lemma FreshVar(dummy: seq<Lit>, lit: Lit)
    requires DistinctVarsOf(dummy) && lit !in dummy && lit.Neg() !in dummy
    ensures DistinctVarsOf(dummy + [lit])
  {
    forall i | 0 <= i < |dummy|
      ensures dummy[i].v != lit.v
    {
      var d := dummy[i];
      assert d in dummy && d == Lit(d.v, d.sign) && d != lit && d != lit.Neg();
    }
  }
}
