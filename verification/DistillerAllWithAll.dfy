/**
 Vivification: the literals of a clause are set to false one batch after the other; what propagation makes of
 that shows which of them the clause does not need. (cryptoms/distillerallwithall.cpp:239-335)
 */
module DistillerAllWithAll {
  import opened Literals
  import opened Watches
  import opened UnitClosure
  import opened Trail
  import opened WatchTheory
  import opened Reasons
  import opened PropEngine
  import opened Solver

  ghost function Negs(ls: seq<Lit>): iset<Lit> {
    iset l: Lit | l.Neg() in ls
  }

  /** What unit propagation makes of the literals set at level zero and the negations of `decided`. */
  ghost function Reached(db: Formula, trail0: seq<Lit>, decided: seq<Lit>): iset<Lit> {
    Closure(db, Set(trail0) + Negs(decided))
  }

  // ----- propagation in stages -----

  lemma ClosureMonotone(f: Formula, a: iset<Lit>, b: iset<Lit>)
    requires a <= Closure(f, b)
    ensures Closure(f, a) <= Closure(f, b)
  {
    ClosureIsClosed(f, b);
    forall l | l in Closure(f, a)
      ensures l in Closure(f, b)
    {
      assert ClosedAbove(f, a, Closure(f, b));
      assert InEveryClosed(f, a, l);
    }
  }

  /** Propagating, adding literals and propagating again is the same as doing it at once. */
  lemma ClosureInStages(f: Formula, a: iset<Lit>, b: iset<Lit>)
    ensures Closure(f, Closure(f, a) + b) == Closure(f, a + b)
  {
    ClosureIsClosed(f, a + b);
    ClosureIsClosed(f, a);
    ClosureMonotone(f, a, a + b);
    ClosureMonotone(f, Closure(f, a) + b, a + b);
    ClosureIsClosed(f, Closure(f, a) + b);
    ClosureMonotone(f, a + b, Closure(f, a) + b);
  }

  // ----- what the tries show -----

  /** The tried literals, sorted by what was found: decided on, false already, or true already. */
  ghost predicate Sorted(db: Formula, trail0: seq<Lit>, tried: seq<Lit>, decided: seq<Lit>, useless: seq<Lit>) {
    && (forall l {:trigger l in decided} :: l in decided ==> l in tried && l !in useless)
    && (forall l {:trigger l in useless} :: l in useless ==> l in tried && l.Neg() in Reached(db, trail0, decided))
    && forall l {:trigger l in tried} ::
      l in tried && l !in useless ==> l in decided || l in Reached(db, trail0, decided)
  }

  lemma ReachedMore(db: Formula, trail0: seq<Lit>, decided: seq<Lit>, l: Lit)
    ensures Reached(db, trail0, decided) <= Reached(db, trail0, decided + [l])
  {
    ClosureIsClosed(db, Set(trail0) + Negs(decided + [l]));
    ClosureMonotone(db, Set(trail0) + Negs(decided), Set(trail0) + Negs(decided + [l]));
  }

  lemma SortedNext(db: Formula, trail0: seq<Lit>, tried: seq<Lit>, decided: seq<Lit>, useless: seq<Lit>, l: Lit,
                   decided': seq<Lit>, useless': seq<Lit>)
    requires Sorted(db, trail0, tried, decided, useless) && l !in tried
    requires || (decided' == decided + [l] && useless' == useless)
             || (decided' == decided && useless' == useless + [l] && l.Neg() in Reached(db, trail0, decided))
             || (decided' == decided && useless' == useless && l in Reached(db, trail0, decided))
    ensures Sorted(db, trail0, tried + [l], decided', useless')
  {
    ReachedMore(db, trail0, decided, l);
  }

  /** If the tries ended in a conflict, the tried literals alone are a consequence, the useless ones left out. */
  lemma TriedEntailed(db: Formula, trail0: seq<Lit>, tried: seq<Lit>, decided: seq<Lit>, useless: seq<Lit>,
                      rest: Clause, c: Clause)
    requires Sorted(db, trail0, tried, decided, useless)
    requires Falsified(db, Reached(db, trail0, decided)) || (c in db && c == Lits(tried))
    requires forall l {:trigger l in tried} :: l in tried && l !in useless ==> l in rest
    ensures Entails(db + Units(trail0), rest)
  {
    forall m: Model | FormulaTrue(m, db + Units(trail0))
      ensures ClauseTrue(m, rest)
    {
      if !ClauseTrue(m, rest) {
        forall l | l in Set(trail0) + Negs(decided)
          ensures LitTrue(m, l)
        {
          if l in trail0 {
            assert {l} in Units(trail0);
            assert ClauseTrue(m, {l});
          } else {
            assert l.Neg() in decided;
            assert l.Neg() in rest;
            assert !LitTrue(m, l.Neg());
          }
        }
        assert FormulaTrue(m, db);
        ClosureSound(db, Set(trail0) + Negs(decided), m);
        assert c in db && c == Lits(tried);
        assert ClauseTrue(m, c);
        forall u | u in useless
          ensures !LitTrue(m, u)
        {
          assert LitTrue(m, u.Neg());
        }
      }
    }
  }

  // ----- the procedure -----

  lemma PromiseBelow(e: PropEngine, q: nat, lv: nat, lv': nat)
    requires e.Promise(q, lv) && lv' <= lv
    ensures e.Promise(q, lv')
  {
  }

  /** The literals of `ls` that are not in `useless`. */
  method RemoveAll(ls: seq<Lit>, useless: seq<Lit>) returns (r: seq<Lit>)
    ensures forall l: Lit :: l in r <==> l in ls && l !in useless
    ensures |r| <= |ls| && (|r| == |ls| ==> r == ls)
  {
    r := [];
    for k := 0 to |ls|
      invariant forall l: Lit :: l in r <==> l in ls[..k] && l !in useless
      invariant |r| <= k && (|r| == k ==> r == ls[..k])
    {
      assert ls[..k + 1] == ls[..k] + [ls[k]];
      if ls[k] !in useless {
        r := r + [ls[k]];
      }
    }
    assert ls[..|ls|] == ls;
  }

  /** Tries up to `queueByBy` literals from `done` on: the undecided ones are set to false. */
  method TryBatch(e: PropEngine, lits: seq<Lit>, done: nat, queueByBy: nat, ghost trail0: seq<Lit>,
                  ghost decided0: seq<Lit>, useless0: seq<Lit>)
    returns (n: nat, ghost decided: seq<Lit>, useless: seq<Lit>)
    requires e.Valid() && e.qhead == |e.trail| && |e.trailLim| == 1 && NoDuplicates(lits)
      && forall l {:trigger l in lits} :: l in lits ==> l.v < e.nVars
    requires done < |lits| && 0 < queueByBy && Sorted(e.Db(), trail0, lits[..done], decided0, useless0)
    requires Set(e.trail) == Reached(e.Db(), trail0, decided0)
    modifies e`assigns, e`level, e`reason, e`trail
    ensures e.Valid() && e.Db() == old(e.Db()) && old(e.trail) <= e.trail && e.Binaries() == old(e.Binaries())
    ensures done < n <= |lits| && n <= done + queueByBy
    ensures Sorted(e.Db(), trail0, lits[..n], decided, useless)
    ensures decided0 <= decided && Set(e.trail) == Reached(e.Db(), trail0, decided0) + Negs(decided[|decided0|..])
    ensures |decided| <= |decided0| + n - done
    ensures forall i {:trigger decided[i]} ::
      |decided0| <= i < |decided| ==> decided[i].Neg() !in Reached(e.Db(), trail0, decided0)
  {
    hide Reached, Sorted, Set, TrailOk, ReasonsOk, Good, Clauses2, BinKinds, ClausesOk, TwoWatched, LitsBelow,
      Symmetric,
      BlockedOk;
    decided, useless := decided0, useless0;
    ghost var db := e.Db();
    n := done;
    assert Negs([]) == iset{};
    while n < |lits| && n < done + queueByBy
      modifies e`assigns, e`level, e`reason, e`trail
      invariant e.Valid() && e.Db() == db && old(e.trail) <= e.trail && e.Binaries() == old(e.Binaries())
      invariant done <= n <= |lits| && n <= done + queueByBy && (n == done ==> decided == decided0)
      invariant Sorted(db, trail0, lits[..n], decided, useless)
      invariant decided0 <= decided && Set(e.trail) == Reached(db, trail0, decided0) + Negs(decided[|decided0|..])
      invariant |decided| <= |decided0| + n - done
      invariant forall i {:trigger decided[i]} ::
        |decided0| <= i < |decided| ==> decided[i].Neg() !in Reached(db, trail0, decided0)
    {
      var l := lits[n];
      assert l in lits;
      assert lits[..n + 1] == lits[..n] + [l];
      NotTried(lits, n);
      ValueIs(e, l);
      ValueIs(e, l.Neg());
      assert l.Neg().Neg() == l;
      StageInside(db, trail0, decided0, decided);
      if Value(e.assigns, l) == Undef {
        SetGrows(e.trail, l.Neg());
        NegsGrow(decided[|decided0|..], l);
        assert (decided + [l])[|decided0|..] == decided[|decided0|..] + [l];
        SortedNext(db, trail0, lits[..n], decided, useless, l, decided + [l], useless);
        e.Decide(l.Neg());
        decided := decided + [l];
      } else if Value(e.assigns, l) == False {
        SortedNext(db, trail0, lits[..n], decided, useless, l, decided, useless + [l]);
        useless := useless + [l];
      } else {
        SortedNext(db, trail0, lits[..n], decided, useless, l, decided, useless);
      }
      n := n + 1;
    }
  }

  lemma NotTried(lits: seq<Lit>, n: nat)
    requires NoDuplicates(lits) && n < |lits|
    ensures lits[n] !in lits[..n]
  {
  }

  lemma ValueIs(e: PropEngine, l: Lit)
    requires e.TrailValid()
    ensures l in Set(e.trail) <==> Value(e.assigns, l) == True
    ensures l.Neg() in Set(e.trail) <==> Value(e.assigns, l) == False
  {
    forall k: Lit
      ensures k in Set(e.trail) <==> Value(e.assigns, k) == True
    {
      if Value(e.assigns, k) == True {
        var i := OnTrail(e.trail, e.trailLim, e.assigns, e.level, e.nVars, k);
      }
      if k in e.trail {
        var i :| 0 <= i < |e.trail| && e.trail[i] == k;
        assert EntryOk(e.trail, e.trailLim, e.assigns, e.level, e.nVars, i);
      }
    }
    assert l.Neg() in Set(e.trail) <==> Value(e.assigns, l.Neg()) == True;
  }

  lemma SetGrows(trail: seq<Lit>, l: Lit)
    ensures Set(trail + [l]) == Set(trail) + iset{l}
  {
  }

  lemma NegsGrow(ls: seq<Lit>, l: Lit)
    ensures Negs(ls + [l]) == Negs(ls) + iset{l.Neg()}
  {
    assert l.Neg().Neg() == l;
    forall k: Lit
      ensures k.Neg() == l <==> k == l.Neg()
    {
      assert k.Neg().Neg() == k;
    }
  }

  lemma StageInside(db: Formula, trail0: seq<Lit>, decided0: seq<Lit>, decided: seq<Lit>)
    requires decided0 <= decided
    ensures Reached(db, trail0, decided0) + Negs(decided[|decided0|..]) <= Reached(db, trail0, decided)
  {
    ClosureIsClosed(db, Set(trail0) + Negs(decided));
    ClosureMonotone(db, Set(trail0) + Negs(decided0), Set(trail0) + Negs(decided));
  }

  lemma StageDone(db: Formula, trail0: seq<Lit>, decided0: seq<Lit>, decided: seq<Lit>)
    requires decided0 <= decided
    ensures Closure(db, Reached(db, trail0, decided0) + Negs(decided[|decided0|..])) == Reached(db, trail0, decided)
  {
    ClosureInStages(db, Set(trail0) + Negs(decided0), Negs(decided[|decided0|..]));
    assert decided == decided0 + decided[|decided0|..];
    assert Set(trail0) + Negs(decided) == Set(trail0) + Negs(decided0) + Negs(decided[|decided0|..]);
  }

  /**
   Vivifies one clause. The engine is back at level zero afterwards with nothing changed but the order inside
   clauses and watch lists. What is left of the clause is part of it and a consequence of the formula. A literal
   is only dropped when propagation has made it false or had come to a conflict before reaching it; one that is
   kept was decided on or found true. With batches of one, no decided literal was false already.
   */
  method TryDistillClause(e: PropEngine, lits: seq<Lit>, queueByBy: nat)
    returns (r: seq<Lit>, changed: bool, ghost failed: bool, ghost decided: seq<Lit>, ghost done: nat)
    requires e.Valid() && e.qhead == |e.trail| && e.trailLim == [] && 0 < queueByBy
    requires NoDuplicates(lits) && Lits(lits) in e.Db() && forall l {:trigger l in lits} :: l in lits ==> l.v < e.nVars
    modifies e
    ensures e.Valid() && e.Db() == old(e.Db()) && e.trail == old(e.trail) && e.trailLim == [] && e.qhead == |e.trail|
    ensures SameClauses(old(e.cls), e.cls) && e.Binaries() == old(e.Binaries())
    ensures Lits(r) <= Lits(lits) && Entails(e.Db() + Units(e.trail), Lits(r)) && (changed <==> r != lits)
      && (changed ==> Lits(r) != Lits(lits))
    ensures done <= |lits| && (!failed ==> done == |lits|)
      && (failed ==> Falsified(e.Db(), Reached(e.Db(), e.trail, decided)))
    ensures forall l :: l in lits && l !in r ==> l !in lits[..done] || l.Neg() in Reached(e.Db(), e.trail, decided)
    ensures forall l :: l in r ==> l in lits[..done] && (l in decided || l in Reached(e.Db(), e.trail, decided))
    ensures queueByBy == 1 ==>
      forall i {:trigger decided[i]} ::
      0 <= i < |decided| ==> decided[i].Neg() !in Reached(e.Db(), e.trail, decided[..i])
  {
    hide Reached, Sorted, Set, Closure, Falsified, TrailOk, ReasonsOk, Good, Clauses2, BinKinds, NoDuplicates,
      ClausesOk,
      TwoWatched, LitsBelow, Symmetric, BlockedOk, Outcome, SameClauses;
    ghost var db, trail0 := e.Db(), e.trail;
    AllPropagated(e);
    NothingTried(db, trail0);
    SameClausesRefl(e.cls);
    var useless: seq<Lit> := [];
    var n: nat := 0;
    failed, decided := false, [];
    var conflict := false;
    e.NewDecisionLevel();
    while n < |lits| && !conflict
      modifies e
      invariant e.Structure() && e.Settled() && e.Db() == db && SameClauses(old(e.cls), e.cls) && trail0 <= e.trail
        && e.trailLim == [|trail0|] && e.Binaries() == old(e.Binaries())
      invariant n <= |lits| && conflict == failed && Sorted(db, trail0, lits[..n], decided, useless)
      invariant !failed ==> e.Valid() && e.qhead == |e.trail| && Set(e.trail) == Reached(db, trail0, decided)
      invariant failed ==> e.Promise(|e.trail|, 1) && Falsified(db, Reached(db, trail0, decided))
      invariant queueByBy == 1 ==>
        forall i {:trigger decided[i]} :: 0 <= i < |decided| ==> decided[i].Neg() !in Reached(db, trail0, decided[..i])
      decreases |lits| - n
    {
      ghost var decided0 := decided;
      n, decided, useless := TryBatch(e, lits, n, queueByBy, trail0, decided0, useless);
      if queueByBy == 1 {
        forall i | 0 <= i < |decided|
          ensures decided[i].Neg() !in Reached(db, trail0, decided[..i])
        {
          assert decided[..|decided0|] == decided0;
          if i < |decided0| {
            assert decided[..i] == decided0[..i] && decided[i] == decided0[i];
          }
        }
      }
      StageDone(db, trail0, decided0, decided);
      ghost var trail1, cls1 := e.trail, e.cls;
      var confl := e.PropagateAnyOrderFast();
      SameClausesTrans(old(e.cls), cls1, e.cls);
      OutcomeMeans(db, Set(trail1), confl.Some?, Set(e.trail));
      conflict, failed := confl.Some?, confl.Some?;
    }
    done := n;
    if !conflict {
      PromiseBelow(e, |e.trail|, 2, 1);
    }
    e.CancelUntil(0);
    assert e.trail == trail0;
    if |useless| > 0 || (conflict && n < |lits|) {
      r := RemoveAll(lits[..n], useless);
    } else {
      r := lits;
      assert lits[..n] == lits;
    }
    Result(db, trail0, lits, n, decided, useless, r, failed);
    changed := |useless| > 0 || (conflict && n < |lits|);
  }

  /** With an empty queue and no conflict the trail is closed already. */
  lemma AllPropagated(e: PropEngine)
    requires e.Valid() && e.qhead == |e.trail|
    ensures Set(e.trail) == Closure(e.Db(), Set(e.trail))
  {
    hide TwoWatched, LitsBelow, Symmetric, BlockedOk, ClausesOk, Good, ReasonsOk, Clauses2, BinKinds, TrailOk, Quiet;
    forall c | c in e.Db()
      ensures Quiet(e.assigns, c)
    {
      e.NothingLeft(c);
    }
    QuietIsClosed(e.Db(), e.trail, e.trailLim, e.assigns, e.level, e.nVars);
    ClosureIsClosed(e.Db(), Set(e.trail));
    ClosedInsideIsClosure(e.Db(), Set(e.trail), Set(e.trail));
  }

  lemma NothingTried(db: Formula, trail0: seq<Lit>)
    requires Set(trail0) == Closure(db, Set(trail0))
    ensures Sorted(db, trail0, [], [], []) && Set(trail0) == Reached(db, trail0, [])
  {
    assert Set(trail0) + Negs([]) == Set(trail0);
  }

  lemma OutcomeMeans(db: Formula, from: iset<Lit>, conflict: bool, to: iset<Lit>)
    requires Outcome(db, from, conflict, to)
    ensures if conflict then Falsified(db, Closure(db, from)) else to == Closure(db, from)
  {
  }

  lemma Result(db: Formula, trail0: seq<Lit>, lits: seq<Lit>, n: nat, decided: seq<Lit>, useless: seq<Lit>, r: seq<Lit>,
               failed: bool)
    requires n <= |lits| && Sorted(db, trail0, lits[..n], decided, useless) && Lits(lits) in db && NoDuplicates(lits)
    requires if failed then Falsified(db, Reached(db, trail0, decided)) else n == |lits|
    requires forall l: Lit :: l in r <==> l in lits[..n] && l !in useless
    requires |useless| > 0 || (failed && n < |lits|) || r == lits
    ensures Entails(db + Units(trail0), Lits(r)) && Lits(r) <= Lits(lits)
    ensures forall l :: l in lits && l !in r ==> l !in lits[..n] || l.Neg() in Reached(db, trail0, decided)
    ensures forall l :: l in r ==> l in lits[..n] && (l in decided || l in Reached(db, trail0, decided))
    ensures (|useless| > 0 || (failed && n < |lits|)) <==> r != lits
    ensures r != lits ==> Lits(r) != Lits(lits)
  {
    hide Reached, Falsified, Entails;
    if n == |lits| {
      assert lits[..n] == lits;
    }
    TriedEntailed(db, trail0, lits[..n], decided, useless, Lits(r), Lits(lits));
    if |useless| > 0 {
      assert useless[0] in useless && useless[0] in lits[..n] && useless[0] !in r;
      assert useless[0] in lits;
      assert useless[0] in Lits(lits) && useless[0] !in Lits(r);
    } else if failed && n < |lits| {
      NotTried(lits, n);
      assert lits[n] in Lits(lits) && lits[n] !in Lits(r);
    }
  }

  // ----- the clause is replaced -----

  /** One try: what is left of the clause, whether there was a conflict, the literals decided on, those reached. */
  datatype Try = Try(r: seq<Lit>, failed: bool, decided: seq<Lit>, done: nat)

  ghost predicate TriedOk(db: Formula, facts: seq<Lit>, lits: seq<Lit>, queueByBy: nat, t: Try) {
    && t.done <= |lits| && (!t.failed ==> t.done == |lits|)
    && (t.failed ==> Falsified(db, Reached(db, facts, t.decided)))
    && (forall l {:trigger l in lits} ::
      l in lits && l !in t.r ==> l !in lits[..t.done] || l.Neg() in Reached(db, facts, t.decided))
    && (forall l {:trigger l in t.r} ::
      l in t.r ==> l in lits[..t.done] && (l in t.decided || l in Reached(db, facts, t.decided)))
    && (queueByBy == 1 ==>
          forall i {:trigger t.decided[i]} ::
            0 <= i < |t.decided| ==> t.decided[i].Neg() !in Reached(db, facts, t.decided[..i]))
  }

  /** The literals whose negations are not set. */
  ghost function Unset(c: Clause, facts: seq<Lit>): Clause {
    set l | l in c && l.Neg() !in facts
  }

  /** The clause holds anyway. */
  ghost predicate Satisfied(c: Clause, facts: seq<Lit>) {
    exists l {:trigger l in c} :: l in c && (l in facts || l.Neg() in c)
  }

  /** Where the clause is after a try: an unchanged one stays; what is left of another is a clause at `end`, or none. */
  ghost predicate PlacedAs(facts: seq<Lit>, lits: seq<Lit>, cls: Clauses, off: nat, end: nat, t: Try, kept: Option<nat>)
  {
    if t.r == lits then kept == Some(off)
    else if Satisfied(Lits(t.r), facts) || |Unset(Lits(t.r), facts)| < 3 then kept == None
    else kept == Some(end) && end in cls && Lits(cls[end]) == Unset(Lits(t.r), facts)
  }

  /** What is left of the clause after a try is a new binary clause. */
  ghost predicate BinLeft(facts: seq<Lit>, lits: seq<Lit>, t: Try) {
    t.r != lits && !Satisfied(Lits(t.r), facts) && |Unset(Lits(t.r), facts)| == 2
  }

  lemma FactsTell(e: PropEngine, c: Clause)
    requires e.TrailValid()
    ensures NotFalse(c, e.assigns) == Unset(c, e.trail) && (Dropped(c, e.assigns) <==> Satisfied(c, e.trail))
  {
    forall l: Lit
      ensures Value(e.assigns, l) == True <==> l in e.trail
      ensures Value(e.assigns, l) == False <==> l.Neg() in e.trail
    {
      ValueIs(e, l);
    }
  }

  /** Without the old clause nothing is lost: what is left of the new one is there, or follows from the facts. */
  lemma OldSuperfluous(db: Formula, facts: seq<Lit>, c: Clause, r: Clause, n: Clause)
    requires n <= r <= c && r != c && (n in db + iset{c} || Entails(Units(facts), r))
    ensures SameModels(db + iset{c} + Units(facts), db + Units(facts))
  {
    forall m: Model | FormulaTrue(m, db + Units(facts))
      ensures FormulaTrue(m, db + iset{c} + Units(facts))
    {
      UnitsPart(m, db, facts);
      if n in db + iset{c} {
        assert n in db;
        assert ClauseTrue(m, n);
      } else {
        assert ClauseTrue(m, r);
      }
      assert ClauseTrue(m, c);
    }
  }

  /** The clause that was added is entailed, and the old one then follows from what is left. */
  lemma ReplacedSameModels(before: Formula, r: Clause, ok: bool, mid: Formula, after: Formula)
    requires Entails(before, r) && Added(before, r, ok, mid) && (ok ==> SameModels(mid, after))
    ensures if ok then SameModels(before, after) else NoModel(before)
  {
  }

  lemma StoredClause(e: PropEngine, off: nat)
    requires e.Structure() && off in e.cls
    ensures Lits(e.cls[off]) in e.Db() && NoDuplicates(e.cls[off])
    ensures forall l {:trigger l in e.cls[off]} :: l in e.cls[off] ==> l.v < e.nVars
  {
    assert Lits(e.cls[off]) in LongClauses(e.cls);
  }

  lemma PartBelow(lits: seq<Lit>, r: seq<Lit>, n: nat)
    requires Lits(r) <= Lits(lits) && forall l {:trigger l in lits} :: l in lits ==> l.v < n
    ensures forall l {:trigger l in r} :: l in r ==> l.v < n
  {
    forall l | l in r
      ensures l.v < n
    {
      assert l in Lits(r);
    }
  }

  /** The models stay the same, or there are none. */
  ghost predicate Kept(before: Formula, ok: bool, after: Formula) {
    if ok then SameModels(before, after) else NoModel(before)
  }

  /** The store has lost the clause at `off` and gained the one at `kept`; the others are the same. */
  ghost predicate Replaced(cls: Clauses, cls': Clauses, off: nat, kept: Option<nat>) {
    && cls'.Keys == cls.Keys - {off} + (if kept.Some? then {kept.value} else {})
    && OthersKept(cls, cls', off)
  }

  ghost function BinsOf(bins: (Formula, Formula), red: bool): Formula {
    if red then bins.1 else bins.0
  }

  /** The clause follows from the facts, or part of it is a binary clause or the one stored at `kept`. */
  ghost predicate Held(c: Clause, bins: Formula, cls: Clauses, kept: Option<nat>, facts: seq<Lit>) {
    || Entails(Units(facts), c)
    || (exists d {:trigger d in bins} :: d in bins && d <= c)
    || (kept.Some? && kept.value in cls && Lits(cls[kept.value]) <= c)
  }

  lemma StillHeld(c: Clause, r: Clause, n: Clause, bins: Formula, cls: Clauses, kept: Option<nat>, facts: seq<Lit>)
    requires n <= r <= c
    requires Entails(Units(facts), r) || n in bins || (kept.Some? && kept.value in cls && Lits(cls[kept.value]) == n)
    ensures Held(c, bins, cls, kept, facts)
  {
    EntailsMore(Units(facts), r, c);
  }

  /** The clause at `off` makes way for an entailed part of it. */
  method ReplaceClause(e: PropEngine, off: nat, ghost c: Clause, r: seq<Lit>, red: bool, end: nat)
    returns (ok: bool, kept: Option<nat>)
    requires e.Valid() && AtZero(e) && off in e.cls && end !in e.cls && c == Lits(e.cls[off])
    requires Lits(r) < c && Entails(Known(e), Lits(r)) && forall l {:trigger l in r} :: l in r ==> l.v < e.nVars
    modifies e
    ensures AtZero(e) && old(e.trail) <= e.trail && (ok ==> e.Valid())
    ensures Kept(old(Known(e)), ok, Known(e)) && Replaced(old(e.cls), e.cls, off, kept)
    ensures kept.Some? ==> kept.value == end && Lits(e.cls[end]) <= Lits(r)
    ensures (kept.None? <==> Dropped(Lits(r), old(e.assigns)) || |NotFalse(Lits(r), old(e.assigns))| < 3)
      && (kept.Some? ==> Lits(e.cls[end]) == NotFalse(Lits(r), old(e.assigns)))
    ensures var n := NotFalse(Lits(r), old(e.assigns));
      && e.Binaries() ==
         (if !Dropped(Lits(r), old(e.assigns)) && |n| == 2 then WithOne(old(e.Binaries()), n, red)
          else old(e.Binaries()))
      && (ok ==> Held(c, BinsOf(e.Binaries(), red), e.cls, kept, e.trail))
  {
    hide TrailOk, TwoWatched, LitsBelow, Symmetric, BlockedOk, Good, ReasonsOk, ClausesOk, Clauses2, BinKinds, Entails,
      Units,
      SameModels, NoModel, Added, NotFalse, Dropped, Held;
    ghost var before, n, cls0 := Known(e), NotFalse(Lits(r), e.assigns), e.cls;
    NotFalseAmong(Lits(r), e.assigns);
    ok, kept := AddClauseInt(e, r, red, end);
    ghost var mid, trail1, cls1 := Known(e), e.trail, e.cls;
    e.DetachClause(off);
    SameMultisetSameLits(cls0[off], cls1[off]);
    if ok {
      OldSuperfluous(e.Db(), trail1, c, Lits(r), n);
    }
    ReplacedSameModels(before, Lits(r), ok, mid, Known(e));
    if ok {
      StillHeld(c, Lits(r), n, BinsOf(e.Binaries(), red), e.cls, kept, e.trail);
    }
    OneForOther(cls0, cls1, e.cls, off, end, kept);
  }

  lemma OneForOther(cls0: Clauses, cls1: Clauses, cls2: Clauses, off: nat, end: nat, kept: Option<nat>)
    requires OthersKept(cls0, cls1, end) && cls1.Keys == cls0.Keys + (if kept.Some? then {end} else {})
      && cls2 == cls1 - {off}
    requires (kept.Some? ==> kept.value == end) && end !in cls0 && off in cls0
    ensures Replaced(cls0, cls2, off, kept)
  {
  }

  /**
   Tries to shorten the clause at `off`. The shorter one is added, with the arena ending at `end`, and the old one is
   detached; what is reported is where the clause is now, if it is still a long one. The watches are right afterwards,
   and the models are those there were; `ok` is false only if there are none.
   */
  method TryDistillClauseAndReturnNew(e: PropEngine, off: nat, red: bool, queueByBy: nat, end: nat)
    returns (ok: bool, kept: Option<nat>, ghost t: Try)
    requires e.Valid() && AtZero(e) && 0 < queueByBy && off in e.cls && end !in e.cls
    modifies e
    ensures AtZero(e) && old(e.trail) <= e.trail && (ok ==> e.Valid())
    ensures Kept(old(Known(e)), ok, Known(e)) && Replaced(old(e.cls), e.cls, off, kept)
    ensures kept == Some(off) ==> ok && Lits(e.cls[off]) == Lits(old(e.cls)[off])
    ensures kept.Some? && kept != Some(off) ==> kept.value == end && Lits(e.cls[end]) < Lits(old(e.cls)[off])
    ensures TriedOk(old(e.Db()), old(e.trail), old(e.cls)[off], queueByBy, t)
    ensures PlacedAs(old(e.trail), old(e.cls)[off], e.cls, off, end, t, kept)
    ensures e.Binaries() ==
      (if BinLeft(old(e.trail), old(e.cls)[off], t) then WithOne(old(e.Binaries()), Unset(Lits(t.r), old(e.trail)), red)
       else old(e.Binaries()))
    ensures ok ==> Held(Lits(old(e.cls)[off]), BinsOf(e.Binaries(), red), e.cls, kept, e.trail)
  {
    hide TrailOk, TwoWatched, LitsBelow, Symmetric, BlockedOk, Good, ReasonsOk, ClausesOk, Clauses2, BinKinds, Entails,
      Units,
      SameModels, NoModel, Falsified, Reached, Kept, Replaced, SameClauses, Satisfied, Unset, NotFalse, Dropped, Held;
    var lits := e.cls[off];
    ghost var before, cls0 := Known(e), e.cls;
    StoredClause(e, off);
    var r, changed, failed, decided, done := TryDistillClause(e, lits, queueByBy);
    t := Try(r, failed, decided, done);
    ghost var cls1 := e.cls;
    StoreSame(cls0, cls1, off);
    if changed {
      PartBelow(lits, r, e.nVars);
      FactsTell(e, Lits(r));
      ok, kept := ReplaceClause(e, off, Lits(lits), r, red, end);
      ReplacedAfter(cls0, cls1, e.cls, off, kept);
    } else {
      SameModelsRefl(before);
      KeptSame(before);
      ok, kept := true, Some(off);
      HeldInPlace(Lits(lits), BinsOf(e.Binaries(), red), e.cls, off, e.trail);
    }
  }

  lemma HeldInPlace(c: Clause, bins: Formula, cls: Clauses, off: nat, facts: seq<Lit>)
    requires off in cls && Lits(cls[off]) == c
    ensures Held(c, bins, cls, Some(off), facts)
  {
  }

  lemma KeptSame(before: Formula)
    ensures Kept(before, true, before)
  {
    SameModelsRefl(before);
  }

  lemma StoreSame(cls0: Clauses, cls1: Clauses, off: nat)
    requires SameClauses(cls0, cls1) && off in cls0
    ensures cls1.Keys == cls0.Keys && Lits(cls1[off]) == Lits(cls0[off]) && Replaced(cls0, cls1, off, Some(off))
  {
    SameMultisetSameLits(cls0[off], cls1[off]);
  }

  lemma ReplacedAfter(cls0: Clauses, cls1: Clauses, cls2: Clauses, off: nat, kept: Option<nat>)
    requires SameClauses(cls0, cls1) && Replaced(cls1, cls2, off, kept)
    ensures Replaced(cls0, cls2, off, kept)
  {
  }

  // ----- all clauses -----

  /** Different offsets of stored clauses. */
  ghost predicate ListOk(cls: Clauses, offs: seq<nat>) {
    NoDuplicates(offs) && forall o {:trigger o in offs} :: o in offs ==> o in cls
  }

  /** In the store the clauses of the one list have given way to those of the other. */
  ghost predicate ListReplaced(cls: Clauses, cls': Clauses, offs: seq<nat>, offs': seq<nat>) {
    && (forall o {:trigger o in cls'} :: o in cls' <==> (o in cls && o !in offs) || o in offs')
    && forall o {:trigger cls[o]} :: o in cls && o !in offs ==> o in cls' && multiset(cls'[o]) == multiset(cls[o])
  }

  ghost predicate EndsAt(cls: Clauses, end: nat) {
    forall o {:trigger o in cls} :: o in cls ==> o < end
  }

  lemma KeptTrans(f: Formula, g: Formula, ok: bool, h: Formula)
    requires Kept(f, true, g) && Kept(g, ok, h)
    ensures Kept(f, ok, h)
  {
  }

  lemma NothingReplaced(cls: Clauses, offs: seq<nat>)
    requires ListOk(cls, offs)
    ensures ListReplaced(cls, cls, offs, offs)
  {
  }

  ghost function Spot(kept: Option<nat>): set<nat> {
    if kept.Some? then {kept.value} else {}
  }

  /** One clause is done: `kept` says where it is now. */
  lemma OneReplaced(cls0: Clauses, cls: Clauses, cls': Clauses, offs: seq<nat>, pre: seq<nat>, off: nat, post: seq<nat>,
                    kept: Option<nat>, end: nat)
    requires ListReplaced(cls0, cls, offs, pre + [off] + post) && ListOk(cls, pre + [off] + post)
      && Replaced(cls, cls', off, kept)
    requires off in offs && EndsAt(cls, end) && (kept == None || kept == Some(off) || kept == Some(end))
    ensures ListReplaced(cls0, cls', offs, pre + Place(kept) + post) && ListOk(cls', pre + Place(kept) + post)
  {
    var was, now := pre + [off] + post, pre + Place(kept) + post;
    forall i | 0 <= i < |was|
      ensures was[i] in cls && was[i] < end
    {
      assert was[i] in was;
    }
    forall o: nat
      ensures o in now <==> (o in was && o != off) || Some(o) == kept
    {
      NowListed(pre, off, post, kept, o);
    }
    assert off in cls by {
      assert was[|pre|] == off;
    }
    forall i, j | 0 <= i < j < |now|
      ensures now[i] != now[j]
    {
      StillDifferent(pre, off, Place(kept), post, end, i, j);
    }
  }

  function Place(kept: Option<nat>): seq<nat> {
    if kept.Some? then [kept.value] else []
  }

  lemma NowListed(pre: seq<nat>, off: nat, post: seq<nat>, kept: Option<nat>, o: nat)
    requires NoDuplicates(pre + [off] + post)
    ensures o in pre + Place(kept) + post <==> (o in pre + [off] + post && o != off) || Some(o) == kept
  {
    var was := pre + [off] + post;
    MiddleReplaced(pre, [off], post, o);
    MiddleReplaced(pre, Place(kept), post, o);
    assert was[|pre|] == off;
    assert forall i :: 0 <= i < |pre| ==> was[i] == pre[i];
    assert forall i :: 0 <= i < |post| ==> was[|pre| + 1 + i] == post[i];
  }

  lemma MiddleReplaced(pre: seq<nat>, mid: seq<nat>, post: seq<nat>, o: nat)
    ensures o in pre + mid + post <==> o in pre || o in mid || o in post
  {
  }

  lemma StillDifferent(pre: seq<nat>, off: nat, one: seq<nat>, post: seq<nat>, end: nat, i: nat, j: nat)
    requires NoDuplicates(pre + [off] + post) && (one == [] || one == [off] || one == [end])
    requires forall k {:trigger (pre + [off] + post)[k]} ::
      0 <= k < |pre| + 1 + |post| ==> (pre + [off] + post)[k] < end
    requires i < j < |pre + one + post|
    ensures (pre + one + post)[i] != (pre + one + post)[j]
  {
    var was, now := pre + [off] + post, pre + one + post;
    forall k | 0 <= k < |now| && (k < |pre| || k >= |pre| + |one|)
      ensures now[k] == was[if k < |pre| then k else k + 1 - |one|]
    {
    }
  }

  /** A clause of the list that was tried: the clauses and facts then, its literals, and where it is afterwards. */
  datatype Event = Event(off: nat, db: Formula, facts: seq<Lit>, lits: seq<Lit>, t: Try, place: Option<nat>)

  /** The list with the clauses tried in their new places. */
  ghost function Placed(offs: seq<nat>, log: seq<Option<Event>>): seq<nat>
    requires |log| <= |offs|
  {
    if log == [] then []
    else
      var k := |log| - 1;
      Placed(offs, log[..k]) + if log[k].Some? then Place(log[k].value.place) else [offs[k]]
  }

  /** The offsets of the clauses tried, old and new. */
  ghost function Flagged(log: seq<Option<Event>>): set<nat> {
    if log == [] then {}
    else
      var k := |log| - 1;
      Flagged(log[..k])
      + if log[k].None? then {}
        else if log[k].value.place.Some? then {log[k].value.off, log[k].value.place.value} else {log[k].value.off}
  }

  /** Of the first `n` clauses exactly those not flagged have been tried; of the others none. */
  ghost predicate LogOk(offs: seq<nat>, flagged: set<nat>, queueByBy: nat, log: seq<Option<Event>>, n: nat) {
    && |log| <= |offs|
    && forall k {:trigger log[k]} ::
      0 <= k < |log| ==>
      && (log[k].Some? <==> k < n && offs[k] !in flagged)
      && (log[k].Some? ==>
            && log[k].value.off == offs[k]
            && TriedOk(log[k].value.db, log[k].value.facts, log[k].value.lits, queueByBy, log[k].value.t)
            && (log[k].value.place == Some(offs[k]) <==> log[k].value.t.r == log[k].value.lits))
  }

  lemma LogNext(offs: seq<nat>, flagged: set<nat>, queueByBy: nat, log: seq<Option<Event>>, n: nat, x: Option<Event>)
    requires LogOk(offs, flagged, queueByBy, log, n) && |log| < |offs|
      && (x.Some? <==> |log| < n && offs[|log|] !in flagged)
    requires x.Some? ==>
      && x.value.off == offs[|log|]
      && TriedOk(x.value.db, x.value.facts, x.value.lits, queueByBy, x.value.t)
      && (x.value.place == Some(offs[|log|]) <==> x.value.t.r == x.value.lits)
    ensures LogOk(offs, flagged, queueByBy, log + [x], n)
  {
    hide TriedOk;
  }

  lemma PlacedNext(offs: seq<nat>, log: seq<Option<Event>>, x: Option<Event>)
    requires |log| < |offs|
    ensures Placed(offs, log + [x]) == Placed(offs, log) + if x.Some? then Place(x.value.place) else [offs[|log|]]
    ensures Flagged(log + [x]) == Flagged(log) + if x.None? then {}
      else if x.value.place.Some? then {x.value.off, x.value.place.value} else {x.value.off}
  {
    assert (log + [x])[..|log|] == log;
  }

  /** The binary clauses that clauses tried have become. */
  ghost function NewBins(log: seq<Option<Event>>): Formula {
    iset k | 0 <= k < |log| && log[k].Some? && BinLeft(log[k].value.facts, log[k].value.lits, log[k].value.t) ::
      Unset(Lits(log[k].value.t.r), log[k].value.facts)
  }

  lemma NewBinsNext(log: seq<Option<Event>>, x: Option<Event>)
    ensures NewBins(log + [x]) == NewBins(log)
      + if x.Some? && BinLeft(x.value.facts, x.value.lits, x.value.t) then iset{Unset(Lits(x.value.t.r), x.value.facts)}
        else iset{}
  {
    hide BinLeft, Unset;
    var log' := log + [x];
    forall c | c in NewBins(log)
      ensures c in NewBins(log')
    {
      var k :| 0 <= k < |log| && log[k].Some? && BinLeft(log[k].value.facts, log[k].value.lits, log[k].value.t)
        && c == Unset(Lits(log[k].value.t.r), log[k].value.facts);
      assert log'[k] == log[k];
    }
    assert log'[|log|] == x;
  }

  // ----- what the irredundant clauses say -----

  /** The irredundant clauses: binary ones, and the long ones of the list. */
  ghost function Irreds(bins: Formula, cls: Clauses, offs: seq<nat>): Formula {
    bins + iset o | o in offs && o in cls :: Lits(cls[o])
  }

  /** With the facts, the clauses `now` say all that those of `before` say. */
  ghost predicate SaidBy(before: Formula, now: Formula, facts: seq<Lit>) {
    forall c {:trigger c in before} :: c in before ==> Entails(now + Units(facts), c)
  }

  lemma SaidAlready(now: Formula, facts: seq<Lit>)
    ensures SaidBy(now, now, facts)
  {
    forall c, m: Model | c in now && FormulaTrue(m, now + Units(facts))
      ensures ClauseTrue(m, c)
    {
      assert c in now + Units(facts);
    }
  }

  /** One clause of the list has made way for what holds it. */
  lemma StillSaid(before: Formula, bins: Formula, cls: Clauses, bins': Formula, cls': Clauses, pre: seq<nat>, off: nat,
                  post: seq<nat>, place: Option<nat>, facts: seq<Lit>, facts': seq<Lit>)
    requires SaidBy(before, Irreds(bins, cls, pre + [off] + post), facts) && bins <= bins' && facts <= facts'
    requires Replaced(cls, cls', off, place) && off in cls && Held(Lits(cls[off]), bins', cls', place, facts')
    ensures SaidBy(before, Irreds(bins', cls', pre + Place(place) + post), facts')
  {
    var now, now' := Irreds(bins, cls, pre + [off] + post), Irreds(bins', cls', pre + Place(place) + post);
    forall c, m: Model | c in before && FormulaTrue(m, now' + Units(facts'))
      ensures ClauseTrue(m, c)
    {
      forall d | d in now + Units(facts)
        ensures ClauseTrue(m, d)
      {
        if d in Units(facts) {
          assert d in Units(facts');
        } else if d in bins {
          assert d in now';
        } else {
          var o :| o in pre + [off] + post && o in cls && d == Lits(cls[o]);
          LongTrue(m, bins', cls, cls', pre, off, post, place, facts', o);
        }
      }
      assert Entails(now + Units(facts), c);
    }
  }

  lemma LongTrue(m: Model, bins: Formula, cls: Clauses, cls': Clauses, pre: seq<nat>, off: nat, post: seq<nat>,
                 place: Option<nat>, facts: seq<Lit>, o: nat)
    requires Replaced(cls, cls', off, place) && off in cls && Held(Lits(cls[off]), bins, cls', place, facts)
    requires FormulaTrue(m, Irreds(bins, cls', pre + Place(place) + post) + Units(facts))
    requires o in pre + [off] + post && o in cls
    ensures ClauseTrue(m, Lits(cls[o]))
  {
    var now := Irreds(bins, cls', pre + Place(place) + post);
    MiddleReplaced(pre, [off], post, o);
    MiddleReplaced(pre, Place(place), post, o);
    if o != off {
      SameMultisetSameLits(cls[o], cls'[o]);
      assert Lits(cls'[o]) in now + Units(facts);
    } else if Entails(Units(facts), Lits(cls[off])) {
      assert FormulaTrue(m, Units(facts)) by {
        assert forall u :: u in Units(facts) ==> u in now + Units(facts);
      }
    } else if place.Some? && place.value in cls' && Lits(cls'[place.value]) <= Lits(cls[off]) {
      MiddleReplaced(pre, Place(place), post, place.value);
      assert Lits(cls'[place.value]) in now + Units(facts);
    } else {
      var d :| d in bins && d <= Lits(cls[off]);
      assert d in now + Units(facts);
    }
  }

  /** Nothing in the log depends on how many are looked at later. */
  lemma LogLonger(offs: seq<nat>, flagged: set<nat>, queueByBy: nat, log: seq<Option<Event>>, n: nat)
    requires LogOk(offs, flagged, queueByBy, log, n) && |log| <= n
    ensures LogOk(offs, flagged, queueByBy, log, n + 1)
  {
    hide TriedOk;
  }

  /** Flags set on the way are those of clauses gone by, or of new ones. */
  ghost predicate FlagsBehind(offs: seq<nat>, i: nat, flagged: set<nat>, distilled: set<nat>) {
    i <= |offs| && forall o {:trigger o in offs[i..]} :: o in offs[i..] ==> (o in distilled <==> o in flagged)
  }

  lemma FlagsNext(offs: seq<nat>, i: nat, flagged: set<nat>, distilled: set<nat>, more: set<nat>)
    requires FlagsBehind(offs, i, flagged, distilled) && i < |offs|
    requires forall o :: o in more ==> o !in offs[i + 1..]
    ensures FlagsBehind(offs, i + 1, flagged, distilled + more)
  {
    var was, now := offs[i..], offs[i + 1..];
    forall o | o in now
      ensures o in distilled + more <==> o in flagged
    {
      var k :| 0 <= k < |now| && now[k] == o;
      assert was[k + 1] == o;
      assert o in was;
      assert o !in more;
    }
  }

  lemma NotLater(cls: Clauses, pre: seq<nat>, offs: seq<nat>, i: nat, end: nat)
    requires i < |offs| && ListOk(cls, pre + offs[i..]) && EndsAt(cls, end)
    ensures offs[i] !in offs[i + 1..] && end !in offs[i + 1..] && offs[i] in cls && offs[i] != end
  {
    var all, rest := pre + offs[i..], offs[i + 1..];
    EndUnused(cls, end);
    assert all[|pre|] == offs[i] && offs[i] in all && offs[i] in cls;
    forall o | o in rest
      ensures o != offs[i] && o != end
    {
      var k :| 0 <= k < |rest| && rest[k] == o;
      assert all[|pre| + 1 + k] == o;
      assert o in all;
    }
  }

  /** The first `i` clauses are dealt with: the list as it is now, the flags set, and what has been logged. */
  ghost predicate Progress(offs: seq<nat>, flagged: set<nat>, queueByBy: nat, effort: nat, i: nat, ok: bool,
                           kept: seq<nat>, distilled: set<nat>, timeOut: bool, n: nat, log: seq<Option<Event>>)
  {
    && |log| == i <= |offs| && LogOk(offs, flagged, queueByBy, log, n) && kept == Placed(offs, log)
    && n <= i && (timeOut ==> n == effort + 1) && (n < i ==> timeOut || !ok) && (n > effort ==> timeOut)
    && distilled == flagged + Flagged(log) && (!timeOut && ok ==> FlagsBehind(offs, i, flagged, distilled))
  }

  lemma Skipped(offs: seq<nat>, flagged: set<nat>, queueByBy: nat, effort: nat, i: nat, ok: bool, kept: seq<nat>,
                distilled: set<nat>, timeOut: bool, n: nat, log: seq<Option<Event>>)
    requires Progress(offs, flagged, queueByBy, effort, i, ok, kept, distilled, timeOut, n, log) && i < |offs|
      && (timeOut || !ok)
    ensures Progress(offs, flagged, queueByBy, effort, i + 1, ok, kept + [offs[i]], distilled, timeOut, n, log + [None])
  {
    hide LogOk, Placed, Flagged, FlagsBehind;
    LogNext(offs, flagged, queueByBy, log, n, None);
    PlacedNext(offs, log, None);
    assert Flagged(log) + {} == Flagged(log);
  }

  lemma PassedOver(offs: seq<nat>, flagged: set<nat>, queueByBy: nat, effort: nat, i: nat, kept: seq<nat>,
                   distilled: set<nat>, n: nat, log: seq<Option<Event>>)
    requires Progress(offs, flagged, queueByBy, effort, i, true, kept, distilled, false, n, log) && i < |offs|
    ensures n == i && (offs[i] in distilled <==> offs[i] in flagged)
    ensures offs[i] in distilled ==>
      Progress(offs, flagged, queueByBy, effort, i + 1, true, kept + [offs[i]], distilled, i >= effort, n + 1,
               log + [None])
  {
    hide LogOk, Placed, Flagged, FlagsBehind;
    FlagAt(offs, i, flagged, distilled);
    LogLonger(offs, flagged, queueByBy, log, n);
    if offs[i] in distilled {
      LogNext(offs, flagged, queueByBy, log, n + 1, None);
      PlacedNext(offs, log, None);
      FlagsNext(offs, i, flagged, distilled, {});
      assert Flagged(log) + {} == Flagged(log) && distilled + {} == distilled;
    }
  }

  lemma TriedNow(offs: seq<nat>, flagged: set<nat>, queueByBy: nat, effort: nat, i: nat, ok: bool, kept: seq<nat>,
                 distilled: set<nat>, n: nat, log: seq<Option<Event>>, event: Event, end: nat)
    requires Progress(offs, flagged, queueByBy, effort, i, true, kept, distilled, false, n, log) && i < |offs|
      && offs[i] !in distilled && offs[i] !in offs[i + 1..] && end !in offs[i + 1..]
    requires event.off == offs[i] && TriedOk(event.db, event.facts, event.lits, queueByBy, event.t)
      && (event.place == Some(offs[i]) <==> event.t.r == event.lits)
      && (event.place == None || event.place == Some(offs[i]) || event.place == Some(end))
    ensures Progress(offs, flagged, queueByBy, effort, i + 1, ok, kept + Place(event.place),
                     distilled + {offs[i]} + Spot(event.place), i >= effort, n + 1, log + [Some(event)])
  {
    hide LogOk, Placed, Flagged, FlagsBehind, TriedOk;
    FlagAt(offs, i, flagged, distilled);
    LogLonger(offs, flagged, queueByBy, log, n);
    LogNext(offs, flagged, queueByBy, log, n + 1, Some(event));
    PlacedNext(offs, log, Some(event));
    var more := {offs[i]} + Spot(event.place);
    FlagsNext(offs, i, flagged, distilled, more);
    assert distilled + more == distilled + {offs[i]} + Spot(event.place);
  }

  /**
   `distill_long_irred_cls`: every clause not flagged as tried is tried, until a contradiction shows or time is up,
   which is noticed when `effort` clauses have been looked at; the next one is then the last. The models stay the
   same all the way, or there are none; the list has the clauses' places afterwards. `n` clauses are looked at.
   */
  method DistillLongIrredCls(e: PropEngine, longIrredCls: seq<nat>, distilled0: set<nat>, queueByBy: nat, end0: nat,
                             effort: nat)
    returns (ok: bool, kept: seq<nat>, distilled: set<nat>, end: nat, timeOut: bool, ghost n: nat,
             ghost log: seq<Option<Event>>)
    requires e.Valid() && AtZero(e) && 0 < queueByBy && ListOk(e.cls, longIrredCls) && EndsAt(e.cls, end0)
    modifies e
    ensures AtZero(e) && old(e.trail) <= e.trail && (ok ==> e.Valid()) && Kept(old(Known(e)), ok, Known(e))
    ensures ListOk(e.cls, kept) && ListReplaced(old(e.cls), e.cls, longIrredCls, kept) && EndsAt(e.cls, end)
    ensures |log| == |longIrredCls| && LogOk(longIrredCls, distilled0, queueByBy, log, n)
      && kept == Placed(longIrredCls, log)
    ensures n <= |longIrredCls| && (timeOut ==> n == effort + 1) && (n < |longIrredCls| ==> timeOut || !ok)
      && (n > effort ==> timeOut)
    ensures distilled == distilled0 + Flagged(log) - (if timeOut then {} else set o | o in kept)
    // the redundant binary clauses stay; the irredundant clauses afterwards say all that they said before
    ensures e.Binaries() == BinsNow(old(e.Binaries()), log)
    ensures ok ==>
      SaidBy(Irreds(old(e.Binaries()).0, old(e.cls), longIrredCls), Irreds(e.Binaries().0, e.cls, kept), e.trail)
  {
    hide TrailOk, TwoWatched, LitsBelow, Symmetric, BlockedOk, Good, ReasonsOk, ClausesOk, Clauses2, BinKinds, Kept,
      ListReplaced, ListOk, Replaced, EndsAt, Progress, LogOk, Placed, Flagged, BinsNow, Irreds, SaidBy, Standing,
        AtZero,
      Known;
    ghost var s0 := StoreOf(e);
    ok, kept, distilled, end, timeOut, n, log := true, [], distilled0, end0, false, 0, [];
    StandingFirst(e, longIrredCls, end0);
    NothingLogged(longIrredCls, distilled0, queueByBy, effort);
    assert [] + longIrredCls == longIrredCls && longIrredCls[0..] == longIrredCls;
    for i := 0 to |longIrredCls|
      invariant AtZero(e) && old(e.trail) <= e.trail && (ok ==> e.Valid())
      invariant Standing(s0, longIrredCls, StoreOf(e), kept + longIrredCls[i..], end, ok, log)
      invariant Progress(longIrredCls, distilled0, queueByBy, effort, i, ok, kept, distilled, timeOut, n, log)
    {
      var off := longIrredCls[i];
      assert kept + longIrredCls[i..] == kept + [off] + longIrredCls[i + 1..];
      if timeOut || !ok {
        Skipped(longIrredCls, distilled0, queueByBy, effort, i, ok, kept, distilled, timeOut, n, log);
        StandingNext(s0, longIrredCls, StoreOf(e), kept + longIrredCls[i..], end, ok, log);
        log := log + [None];
        kept := kept + [off];
        continue;
      }
      PassedOver(longIrredCls, distilled0, queueByBy, effort, i, kept, distilled, n, log);
      if i >= effort {
        timeOut := true;
      }
      if off in distilled {
        StandingNext(s0, longIrredCls, StoreOf(e), kept + longIrredCls[i..], end, ok, log);
        n, log := n + 1, log + [None];
        kept := kept + [off];
        continue;
      }
      var place;
      ghost var event;
      ok, place, end, event :=
        DistillOne(e, off, queueByBy, end, s0, longIrredCls, kept, i, distilled0, effort, distilled, n, log);
      kept := kept + Place(place);
      distilled := distilled + {off};
      assert distilled + {} == distilled;
      if place.Some? {
        distilled := distilled + {place.value};
      }
      n, log := n + 1, log + [Some(event)];
    }
    assert kept + longIrredCls[|longIrredCls|..] == kept;
    StandingLast(e, s0, longIrredCls, kept, end, ok, log);
    Finished(longIrredCls, distilled0, queueByBy, effort, ok, kept, distilled, timeOut, n, log);
    if !timeOut {
      distilled := set o | o in distilled && o !in kept;
    }
  }

  /** The binary clauses after all the tries: only irredundant ones are new. */
  ghost function BinsNow(bins: (Formula, Formula), log: seq<Option<Event>>): (Formula, Formula) {
    (bins.0 + NewBins(log), bins.1)
  }

  lemma NoNewBins(bins: (Formula, Formula))
    ensures bins == BinsNow(bins, [])
  {
    assert bins.0 + NewBins([]) == bins.0;
  }

  lemma NotTriedBins(bins: (Formula, Formula), log: seq<Option<Event>>)
    ensures BinsNow(bins, log + [None]) == BinsNow(bins, log)
  {
    hide NewBins;
    NewBinsNext(log, None);
    assert NewBins(log) + iset{} == NewBins(log);
  }

  /** What the solver knows and how it is stored. */
  datatype Store = Store(known: Formula, cls: Clauses, bins: (Formula, Formula), facts: seq<Lit>)

  ghost function StoreOf(e: PropEngine): Store
    reads e
  {
    Store(Known(e), e.cls, e.Binaries(), e.trail)
  }

  /** What holds of the clauses and of the list, as it is now, after the tries in the log. */
  ghost predicate Standing(s0: Store, offs: seq<nat>, s: Store, list: seq<nat>, end: nat, ok: bool,
                           log: seq<Option<Event>>) {
    && Kept(s0.known, ok, s.known) && ListOk(s.cls, list) && ListReplaced(s0.cls, s.cls, offs, list)
      && EndsAt(s.cls, end)
    && s.bins == BinsNow(s0.bins, log)
    && (ok ==> SaidBy(Irreds(s0.bins.0, s0.cls, offs), Irreds(s.bins.0, s.cls, list), s.facts))
  }

  lemma StandingFirst(e: PropEngine, offs: seq<nat>, end: nat)
    requires ListOk(e.cls, offs) && EndsAt(e.cls, end)
    ensures Standing(StoreOf(e), offs, StoreOf(e), offs, end, true, [])
  {
    NoNewBins(e.Binaries());
    hide ListOk, ListReplaced, EndsAt, BinsNow, Irreds, SaidBy, Kept, Known, BinKinds;
    KeptSame(Known(e));
    NothingReplaced(e.cls, offs);
    SaidAlready(Irreds(e.Binaries().0, e.cls, offs), e.trail);
  }

  lemma StandingNext(s0: Store, offs: seq<nat>, s: Store, list: seq<nat>, end: nat, ok: bool, log: seq<Option<Event>>)
    requires Standing(s0, offs, s, list, end, ok, log)
    ensures Standing(s0, offs, s, list, end, ok, log + [None])
  {
    hide ListOk, ListReplaced, EndsAt, BinsNow, Irreds, SaidBy, Kept;
    NotTriedBins(s0.bins, log);
  }

  lemma StandingLast(e: PropEngine, s0: Store, offs: seq<nat>, kept: seq<nat>, end: nat, ok: bool,
                     log: seq<Option<Event>>)
    requires Standing(s0, offs, StoreOf(e), kept, end, ok, log)
    ensures Kept(s0.known, ok, Known(e)) && ListOk(e.cls, kept) && ListReplaced(s0.cls, e.cls, offs, kept)
    ensures EndsAt(e.cls, end) && e.Binaries() == BinsNow(s0.bins, log)
    ensures ok ==> SaidBy(Irreds(s0.bins.0, s0.cls, offs), Irreds(e.Binaries().0, e.cls, kept), e.trail)
  {
    hide ListOk, ListReplaced, EndsAt, BinsNow, Irreds, SaidBy, Kept, Known, BinKinds;
  }

  /** The binary clauses after one more try. */
  ghost function BinsThen(bins: (Formula, Formula), event: Event): (Formula, Formula) {
    if BinLeft(event.facts, event.lits, event.t) then WithOne(bins, Unset(Lits(event.t.r), event.facts), false)
      else bins
  }

  lemma TriedBins(bins: (Formula, Formula), log: seq<Option<Event>>, event: Event)
    ensures BinsThen(BinsNow(bins, log), event) == BinsNow(bins, log + [Some(event)])
  {
    hide NewBins, BinLeft, Unset;
    NewBinsNext(log, Some(event));
    assert NewBins(log) + iset{} == NewBins(log);
    if BinLeft(event.facts, event.lits, event.t) {
      var c := iset{Unset(Lits(event.t.r), event.facts)};
      assert bins.0 + NewBins(log) + c == bins.0 + (NewBins(log) + c);
    }
  }

  lemma Finished(offs: seq<nat>, flagged: set<nat>, queueByBy: nat, effort: nat, ok: bool, kept: seq<nat>,
                 distilled: set<nat>, timeOut: bool, n: nat, log: seq<Option<Event>>)
    requires Progress(offs, flagged, queueByBy, effort, |offs|, ok, kept, distilled, timeOut, n, log)
    ensures |log| == |offs| && LogOk(offs, flagged, queueByBy, log, n) && kept == Placed(offs, log)
    ensures n <= |offs| && (timeOut ==> n == effort + 1) && (n < |offs| ==> timeOut || !ok) && (n > effort ==> timeOut)
    ensures distilled == flagged + Flagged(log)
  {
    hide LogOk, Placed, Flagged, FlagsBehind;
  }

  lemma NothingLogged(offs: seq<nat>, flagged: set<nat>, queueByBy: nat, effort: nat)
    ensures Progress(offs, flagged, queueByBy, effort, 0, true, [], flagged, false, 0, [])
  {
  }

  lemma FlagAt(offs: seq<nat>, i: nat, flagged: set<nat>, distilled: set<nat>)
    requires FlagsBehind(offs, i, flagged, distilled) && i < |offs|
    ensures offs[i] in distilled <==> offs[i] in flagged
  {
    assert offs[i..][0] == offs[i];
    assert offs[i] in offs[i..];
  }

  lemma PlaceTells(facts: seq<Lit>, lits: seq<Lit>, cls: Clauses, off: nat, end: nat, t: Try, kept: Option<nat>)
    requires PlacedAs(facts, lits, cls, off, end, t, kept) && off != end
    ensures kept == Some(off) <==> t.r == lits
  {
  }

  method DistillOne(e: PropEngine, off: nat, queueByBy: nat, end: nat, ghost s0: Store, ghost offs: seq<nat>,
                    ghost pre: seq<nat>, ghost i: nat, ghost flagged: set<nat>, ghost effort: nat,
                    ghost distilled: set<nat>, ghost n: nat, ghost log: seq<Option<Event>>)
    returns (ok: bool, place: Option<nat>, end': nat, ghost event: Event)
    requires e.Valid() && AtZero(e) && 0 < queueByBy && i < |offs| && off == offs[i] && off !in distilled
      && Progress(offs, flagged, queueByBy, effort, i, true, pre, distilled, false, n, log)
    requires Standing(s0, offs, StoreOf(e), pre + offs[i..], end, true, log)
    modifies e
    ensures AtZero(e) && old(e.trail) <= e.trail && (ok ==> e.Valid())
    ensures Standing(s0, offs, StoreOf(e), pre + Place(place) + offs[i + 1..], end', ok, log + [Some(event)])
    ensures old(off in e.cls)
      && event == Event(off, old(e.Db()), old(e.trail), old(e.cls)[off], event.t, place)
      && PlacedAs(old(e.trail), old(e.cls)[off], e.cls, off, end, event.t, place)
    ensures Progress(offs, flagged, queueByBy, effort, i + 1, ok, pre + Place(place),
                     distilled + {off} + Spot(place), i >= effort, n + 1, log + [Some(event)])
  {
    hide TriedOk, PlacedAs, TrailOk, TwoWatched, LitsBelow, Symmetric, BlockedOk, Good, ReasonsOk, ClausesOk, Clauses2,
      BinKinds, Kept, ListReplaced, Replaced, Progress, ListOk, EndsAt, Irreds, SaidBy, Held, BinLeft, Unset, BinsNow;
    ghost var s1, post := StoreOf(e), offs[i + 1..];
    assert pre + offs[i..] == pre + [off] + post;
    NotLater(e.cls, pre, offs, i, end);
    EndUnused(e.cls, end);
    ghost var t;
    ok, place, t := TryDistillClauseAndReturnNew(e, off, false, queueByBy, end);
    event := Event(off, old(e.Db()), old(e.trail), old(e.cls)[off], t, place);
    PlaceTells(event.facts, event.lits, e.cls, off, end, t, place);
    TriedNow(offs, flagged, queueByBy, effort, i, ok, pre, distilled, n, log, event, end);
    end' := end;
    PlaceStored(s1.cls, e.cls, off, place);
    if place == Some(end) {
      LongEnough(e, end);
      end' := end + |e.cls[end]|;
    }
    StandingTried(s0, offs, s1, StoreOf(e), pre, post, end, end', ok, log, event);
  }

  lemma StandingTried(s0: Store, offs: seq<nat>, s1: Store, s: Store, pre: seq<nat>, post: seq<nat>, end: nat,
                      end': nat, ok: bool, log: seq<Option<Event>>, event: Event)
    requires var off := event.off;
      && off in offs && Standing(s0, offs, s1, pre + [off] + post, end, true, log)
      && off in s1.cls && Replaced(s1.cls, s.cls, off, event.place) && s1.facts <= s.facts
      && (event.place == None || event.place == Some(off) || event.place == Some(end))
      && end <= end' && (event.place == Some(end) ==> end < end')
    requires Kept(s1.known, ok, s.known) && s.bins == BinsThen(s1.bins, event)
    requires ok ==> Held(Lits(s1.cls[event.off]), s.bins.0, s.cls, event.place, s.facts)
    ensures Standing(s0, offs, s, pre + Place(event.place) + post, end', ok, log + [Some(event)])
  {
    hide ListReplaced, Replaced, ListOk, EndsAt, Irreds, SaidBy, Held, BinLeft, Unset, BinsNow, Kept;
    KeptTrans(s0.known, s1.known, ok, s.known);
    OneReplaced(s0.cls, s1.cls, s.cls, offs, pre, event.off, post, event.place, end);
    if ok {
      StillSaid(Irreds(s0.bins.0, s0.cls, offs), s1.bins.0, s1.cls, s.bins.0, s.cls, pre, event.off, post, event.place,
        s1.facts, s.facts);
    }
    TriedBins(s0.bins, log, event);
    EndMoves(s1.cls, s.cls, event.off, event.place, end, end');
  }

  lemma EndUnused(cls: Clauses, end: nat)
    requires EndsAt(cls, end)
    ensures end !in cls
  {
  }

  lemma PlaceStored(cls: Clauses, cls': Clauses, off: nat, place: Option<nat>)
    requires Replaced(cls, cls', off, place)
    ensures place.Some? ==> place.value in cls'
  {
  }

  lemma LongEnough(e: PropEngine, off: nat)
    requires e.Structure() && off in e.cls
    ensures |e.cls[off]| >= 3
  {
  }

  lemma EndMoves(cls: Clauses, cls': Clauses, off: nat, place: Option<nat>, end: nat, end': nat)
    requires EndsAt(cls, end) && off in cls && Replaced(cls, cls', off, place)
      && (place == None || place == Some(off) || place == Some(end))
    requires end <= end' && (place == Some(end) ==> end < end')
    ensures EndsAt(cls', end')
  {
  }
}
