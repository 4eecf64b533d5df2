/**
 Adding a clause at level zero: it is sorted and cleaned, and what is left of it is set, attached, or shows that
 there is no solution. (cryptoms/solver.cpp)
 */
module Solver {
  import opened Literals
  import opened Watches
  import opened UnitClosure
  import opened Trail
  import opened WatchTheory
  import opened Reasons
  import opened Sorting
  import opened PropEngine

  ghost predicate SameModels(f: Formula, g: Formula) {
    forall m: Model :: FormulaTrue(m, f) <==> FormulaTrue(m, g)
  }

  lemma SameModelsRefl(f: Formula)
    ensures SameModels(f, f)
  {
  }

  ghost predicate NoModel(f: Formula) {
    forall m: Model :: !FormulaTrue(m, f)
  }

  /** The propagated clauses and the facts. */
  ghost function Known(e: PropEngine): Formula
    reads e`cls, e`lists, e`trail
  {
    e.Db() + Units(e.trail)
  }

  /** At level zero with nothing left in the queue. A conflict may have been found. */
  ghost predicate AtZero(e: PropEngine)
    reads e
  {
    e.Structure() && e.Settled() && e.trailLim == [] && e.qhead == |e.trail|
  }

  /** Every clause but the one at `off` is still there, up to the order of its literals. */
  ghost predicate OthersKept(cls: Clauses, cls': Clauses, off: nat) {
    forall o {:trigger cls[o]} :: o in cls && o != off ==> o in cls' && multiset(cls'[o]) == multiset(cls[o])
  }

  // ----- sorting and cleaning -----

  /** A literal is true, or two are each other's negation. */
  ghost predicate Dropped(c: Clause, a: Assigns) {
    exists l {:trigger l in c} :: l in c && (Value(a, l) == True || l.Neg() in c)
  }

  /** The literals that are not false. */
  ghost function NotFalse(c: Clause, a: Assigns): Clause {
    set l | l in c && Value(a, l) != False
  }

  /** The literals met so far, the false ones left out. */
  ghost predicate Cleaned(s: seq<Lit>, a: Assigns, ps: seq<Lit>) {
    && (forall l {:trigger l in s} :: l in s ==> Value(a, l) != True)
    && (forall l: Lit :: l in ps <==> l in s && Value(a, l) != False)
    && (forall l: Lit {:trigger l in ps} :: l in ps ==> l.Neg() !in ps)
    && SortedLits(ps)
  }

  ghost predicate LastOf(ps: seq<Lit>, p: Option<Lit>) {
    if ps == [] then p == None else p == Some(ps[|ps| - 1])
  }

  /** A literal that is neither false nor the last one kept comes after all that were kept. */
  lemma CleanedNext(s: seq<Lit>, a: Assigns, ps: seq<Lit>, p: Option<Lit>, x: Lit)
    requires Cleaned(s, a, ps) && LastOf(ps, p) && Value(a, x) == Undef && p != Some(x) && p != Some(x.Neg())
    requires forall l {:trigger l in s} :: l in s ==> ToInt(l) <= ToInt(x)
    ensures Cleaned(s + [x], a, ps + [x])
  {
    if ps != [] {
      var q := ps[|ps| - 1];
      assert q in ps && q in s && q != x && q != x.Neg();
      assert ToInt(q) < ToInt(x) && q.v < x.v;
      forall i | 0 <= i < |ps|
        ensures ToInt(ps[i]) < ToInt(x) && ps[i].v < x.v
      {
        assert i == |ps| - 1 || ToInt(ps[i]) < ToInt(q);
      }
      forall l | l in ps
        ensures l.v < x.v
      {
        var i :| 0 <= i < |ps| && ps[i] == l;
      }
    }
  }

  /** A false literal is passed over, and so is one that has just been kept. */
  lemma CleanedSkip(s: seq<Lit>, a: Assigns, ps: seq<Lit>, p: Option<Lit>, x: Lit)
    requires Cleaned(s, a, ps) && LastOf(ps, p) && Value(a, x) != True && (Value(a, x) == False || p == Some(x))
    ensures Cleaned(s + [x], a, ps)
  {
    assert p == Some(x) ==> x in ps;
  }

  lemma CleanedAll(s: seq<Lit>, c: Clause, a: Assigns, ps: seq<Lit>)
    requires Cleaned(s, a, ps) && Lits(s) == c
    ensures !Dropped(c, a) && Lits(ps) == NotFalse(c, a) && NoDuplicates(ps) && SortedLits(ps)
  {
    forall l | l in c
      ensures Value(a, l) != True && l.Neg() !in c
    {
      assert l in s && Value(a, l) != True;
      assert l.Neg() in c <==> l.Neg() in s;
    }
  }

  /** `sort_and_clean_clause`; a clause that holds anyway is not kept. */
  method SortAndCleanClause(lits: seq<Lit>, a: Assigns) returns (keep: bool, ps: seq<Lit>)
    ensures keep <==> !Dropped(Lits(lits), a)
    ensures keep ==> Lits(ps) == NotFalse(Lits(lits), a) && NoDuplicates(ps) && SortedLits(ps)
  {
    hide Dropped, Cleaned;
    var s := SortWithCopies(lits);
    ps := [];
    var p: Option<Lit> := None;
    CleanedNone(a);
    for i := 0 to |s|
      invariant Cleaned(s[..i], a, ps) && LastOf(ps, p)
    {
      var x := s[i];
      assert x in s && x in Lits(lits);
      assert s[..i + 1] == s[..i] + [x];
      if Value(a, x) == True {
        DroppedBy(Lits(lits), a, x);
        return false, [];
      }
      if p == Some(x.Neg()) {
        KeptBefore(s, i, a, ps, x.Neg());
        DroppedBy(Lits(lits), a, x);
        return false, [];
      }
      if Value(a, x) != False && p != Some(x) {
        BeforeInOrder(s, i);
        CleanedNext(s[..i], a, ps, p, x);
        ps := ps + [x];
        p := Some(x);
      } else {
        CleanedSkip(s[..i], a, ps, p, x);
      }
    }
    assert s[..|s|] == s;
    CleanedAll(s, Lits(lits), a, ps);
    keep := true;
  }

  lemma CleanedNone(a: Assigns)
    ensures Cleaned([], a, [])
  {
  }

  lemma DroppedBy(c: Clause, a: Assigns, x: Lit)
    requires x in c && (Value(a, x) == True || x.Neg() in c)
    ensures Dropped(c, a)
  {
  }

  lemma KeptBefore(s: seq<Lit>, i: nat, a: Assigns, ps: seq<Lit>, l: Lit)
    requires i <= |s| && Cleaned(s[..i], a, ps) && LastOf(ps, Some(l))
    ensures l in s
  {
    assert l in ps && l in s[..i];
  }

  lemma BeforeInOrder(s: seq<Lit>, i: nat)
    requires i < |s| && forall j, k {:trigger s[j], s[k]} :: 0 <= j < k < |s| ==> ToInt(s[j]) <= ToInt(s[k])
    ensures forall l {:trigger l in s[..i]} :: l in s[..i] ==> ToInt(l) <= ToInt(s[i])
  {
  }

  // ----- what adding the clause means -----

  /** Under the facts, a clause says as much as its literals that are not false. */
  lemma CleanedMeans(facts: seq<Lit>, lim: seq<nat>, a: Assigns, level: map<nat, nat>, n: nat, c: Clause, m: Model)
    requires TrailOk(facts, lim, a, level, n) && FormulaTrue(m, Units(facts))
    ensures Dropped(c, a) ==> ClauseTrue(m, c)
    ensures ClauseTrue(m, c) <==> ClauseTrue(m, NotFalse(c, a)) || Dropped(c, a)
  {
    forall l: Lit
      ensures Value(a, l) == True ==> LitTrue(m, l)
      ensures Value(a, l) == False ==> !LitTrue(m, l)
    {
      if Value(a, l) == True {
        FactTrue(facts, lim, a, level, n, l, m);
      } else if Value(a, l) == False {
        FactTrue(facts, lim, a, level, n, l.Neg(), m);
      }
    }
    if Dropped(c, a) {
      var l :| l in c && (Value(a, l) == True || l.Neg() in c);
      assert LitTrue(m, l) || LitTrue(m, l.Neg());
    }
    if ClauseTrue(m, c) {
      var l :| l in c && LitTrue(m, l);
      assert l in NotFalse(c, a);
    }
  }

  lemma FactTrue(facts: seq<Lit>, lim: seq<nat>, a: Assigns, level: map<nat, nat>, n: nat, l: Lit, m: Model)
    requires TrailOk(facts, lim, a, level, n) && FormulaTrue(m, Units(facts)) && Value(a, l) == True
    ensures LitTrue(m, l)
  {
    var i := OnTrail(facts, lim, a, level, n, l);
    assert {l} in Units(facts);
    assert ClauseTrue(m, {l});
  }

  /** The models before, restricted to those of the clause, are the models after. */
  ghost predicate Added(before: Formula, c: Clause, ok: bool, after: Formula) {
    forall m: Model :: FormulaTrue(m, before) && ClauseTrue(m, c) <==> ok && FormulaTrue(m, after)
  }

  lemma AddedNothing(facts: seq<Lit>, lim: seq<nat>, a: Assigns, level: map<nat, nat>, n: nat, db: Formula, c: Clause)
    requires TrailOk(facts, lim, a, level, n) && Dropped(c, a)
    ensures Added(db + Units(facts), c, true, db + Units(facts))
  {
    forall m: Model | FormulaTrue(m, db + Units(facts))
      ensures ClauseTrue(m, c)
    {
      UnitsPart(m, db, facts);
      CleanedMeans(facts, lim, a, level, n, c, m);
    }
  }

  lemma UnitsPart(m: Model, db: Formula, facts: seq<Lit>)
    ensures FormulaTrue(m, db + Units(facts)) <==> FormulaTrue(m, db) && FormulaTrue(m, Units(facts))
  {
  }

  lemma AddedClause(facts: seq<Lit>, lim: seq<nat>, a: Assigns, level: map<nat, nat>, n: nat, db: Formula, c: Clause)
    requires TrailOk(facts, lim, a, level, n) && !Dropped(c, a)
    ensures Added(db + Units(facts), c, true, db + iset{NotFalse(c, a)} + Units(facts))
  {
    hide Dropped, NotFalse;
    forall m: Model
      ensures FormulaTrue(m, db + Units(facts)) && ClauseTrue(m, c) <==>
        FormulaTrue(m, db + iset{NotFalse(c, a)} + Units(facts))
    {
      UnitsPart(m, db, facts);
      UnitsPart(m, db + iset{NotFalse(c, a)}, facts);
      if FormulaTrue(m, Units(facts)) {
        CleanedMeans(facts, lim, a, level, n, c, m);
      }
      assert FormulaTrue(m, db + iset{NotFalse(c, a)}) <==> FormulaTrue(m, db) && ClauseTrue(m, NotFalse(c, a)) by {
        OneMore(m, db, NotFalse(c, a));
      }
    }
  }

  lemma OneMore(m: Model, db: Formula, c: Clause)
    ensures FormulaTrue(m, db + iset{c}) <==> FormulaTrue(m, db) && ClauseTrue(m, c)
  {
  }

  /** A new fact and everything that propagation makes of it. */
  lemma AddedFact(db: Formula, facts: seq<Lit>, l: Lit, conflict: bool, facts': seq<Lit>)
    requires Outcome(db, Set(facts + [l]), conflict, Set(facts')) && facts + [l] <= facts'
    ensures !conflict ==> SameModels(db + iset{{l}} + Units(facts), db + Units(facts'))
    ensures conflict ==> NoModel(db + iset{{l}} + Units(facts))
  {
    hide Closure, Falsified;
    forall m: Model
      ensures FormulaTrue(m, db + iset{{l}} + Units(facts)) <==> !conflict && FormulaTrue(m, db + Units(facts'))
    {
      if FormulaTrue(m, db + iset{{l}} + Units(facts)) {
        forall k | k in Set(facts + [l])
          ensures LitTrue(m, k)
        {
          assert {k} in db + iset{{l}} + Units(facts);
          assert ClauseTrue(m, {k});
        }
        assert FormulaTrue(m, db);
        ClosureSound(db, Set(facts + [l]), m);
        forall k | k in facts'
          ensures ClauseTrue(m, {k})
        {
          assert k in Set(facts');
          assert k in {k};
        }
      }
      if !conflict && FormulaTrue(m, db + Units(facts')) {
        forall k | k in facts + [l]
          ensures ClauseTrue(m, {k})
        {
          assert k in facts';
          assert {k} in db + Units(facts');
        }
        assert l in facts + [l];
      }
    }
  }

  lemma AddedThen(before: Formula, c: Clause, mid: Formula, ok: bool, after: Formula)
    requires Added(before, c, true, mid) && (if ok then SameModels(mid, after) else NoModel(mid))
    ensures Added(before, c, ok, after)
  {
  }

  // ----- adding it -----

  /** The two literals of a clause that has two. */
  lemma TwoUndef(e: PropEngine, c: Clause, ps: seq<Lit>)
    requires Lits(ps) == NotFalse(c, e.assigns) && !Dropped(c, e.assigns)
    ensures forall l {:trigger l in ps} :: l in ps ==> l in c && Value(e.assigns, l) == Undef
  {
    forall l | l in ps
      ensures l in c && Value(e.assigns, l) == Undef
    {
      assert l in Lits(ps);
    }
  }

  lemma FactEntailed(facts: seq<Lit>, l: Lit)
    requires l in facts
    ensures Entails(Units(facts), {l})
  {
    assert {l} in Units(facts);
  }

  lemma DroppedEntailed(facts: seq<Lit>, lim: seq<nat>, a: Assigns, level: map<nat, nat>, n: nat, c: Clause)
    requires TrailOk(facts, lim, a, level, n) && Dropped(c, a)
    ensures Entails(Units(facts), c)
  {
    forall m: Model | FormulaTrue(m, Units(facts))
      ensures ClauseTrue(m, c)
    {
      CleanedMeans(facts, lim, a, level, n, c, m);
    }
  }

  lemma EntailsMore(f: Formula, c: Clause, d: Clause)
    ensures Entails(f, c) && c <= d ==> Entails(f, d)
  {
    if Entails(f, c) && c <= d {
      forall m: Model | FormulaTrue(m, f)
        ensures ClauseTrue(m, d)
      {
        assert ClauseTrue(m, c);
      }
    }
  }

  lemma NotFalseAmong(c: Clause, a: Assigns)
    ensures NotFalse(c, a) <= c
  {
  }

  lemma AddedEmpty(before: Formula, c: Clause, db: Formula, facts: seq<Lit>)
    requires Added(before, c, true, db + iset{{}} + Units(facts))
    ensures forall after :: Added(before, c, false, after)
  {
    forall m: Model
      ensures !FormulaTrue(m, db + iset{{}} + Units(facts))
    {
      assert {} in db + iset{{}} + Units(facts);
      assert !ClauseTrue(m, {});
    }
  }

  lemma NothingBacked(e: PropEngine, c: seq<Lit>)
    requires |c| >= 2 && e.TrailValid() && Value(e.assigns, c[0]) == Undef && Value(e.assigns, c[1]) == Undef
    ensures e.Backed(c)
  {
    forall i | 0 <= i < e.qhead && i < |e.trail|
      ensures e.trail[i].Neg() != c[0] && e.trail[i].Neg() != c[1]
    {
      e.NegFalse(i);
    }
  }

  /** A clause of one literal becomes a fact. */
  method AddUnit(e: PropEngine, ghost c: Clause, l: Lit) returns (ok: bool)
    requires e.Valid() && AtZero(e) && l.v < e.nVars && Value(e.assigns, l) == Undef
    requires Added(Known(e), c, true, e.Db() + iset{{l}} + Units(e.trail))
    modifies e
    ensures AtZero(e) && old(e.trail) <= e.trail && l in e.trail && (ok ==> e.Valid()) && SameClauses(old(e.cls), e.cls)
    ensures Added(old(Known(e)), c, ok, Known(e)) && e.Binaries() == old(e.Binaries())
  {
    hide TrailOk, ClausesOk, TwoWatched, LitsBelow, Symmetric, BlockedOk, Good, ReasonsOk, ReasonOk, Clauses2, BinKinds,
      Added,
      Outcome, SameModels, NoModel, SameClauses;
    ghost var db, facts := e.Db(), e.trail;
    e.Decide(l);
    assert e.trail[|facts|] == l;
    var confl := e.PropagateAnyOrderFast();
    assert e.trail[|facts|] == l;
    ok := confl.None?;
    AddedFact(db, facts, l, confl.Some?, e.trail);
    AddedThen(db + Units(facts), c, db + iset{{l}} + Units(facts), ok, Known(e));
  }

  /** One of two literals goes on the watch lists. */
  method AddBin(e: PropEngine, ghost c: Clause, a: Lit, b: Lit, red: bool)
    requires e.Valid() && AtZero(e) && a != b && a.v < e.nVars && b.v < e.nVars
    requires Value(e.assigns, a) == Undef && Value(e.assigns, b) == Undef
    requires Added(Known(e), c, true, e.Db() + iset{{a, b}} + Units(e.trail))
    modifies e`watches, e`lists
    ensures e.Valid() && AtZero(e) && Added(old(Known(e)), c, true, Known(e)) && {a, b} in e.Db()
    ensures e.Binaries() == WithOne(old(e.Binaries()), {a, b}, red)
  {
    hide TrailOk, ClausesOk, TwoWatched, LitsBelow, Symmetric, BlockedOk, Good, ReasonsOk, ReasonOk, Clauses2, BinKinds,
      Added,
      WithBin;
    assert e.Promise(e.qhead, 1);
    e.AttachBinClause(a, b, red);
  }

  /** One of three literals or more is stored at `end`. */
  method AddLong(e: PropEngine, ghost c: Clause, ps: seq<Lit>, end: nat)
    requires e.Valid() && AtZero(e) && ClauseOk(ps) && end !in e.cls
    requires forall l {:trigger l in ps} :: l in ps ==> l.v < e.nVars && Value(e.assigns, l) == Undef
    requires Added(Known(e), c, true, e.Db() + iset{Lits(ps)} + Units(e.trail))
    modifies e`cls, e`watches, e`lists
    ensures e.Valid() && AtZero(e) && Added(old(Known(e)), c, true, Known(e)) && e.cls == old(e.cls)[end := ps]
    ensures Lits(ps) in e.Db() && e.Binaries() == old(e.Binaries())
  {
    hide TrailOk, ClausesOk, TwoWatched, LitsBelow, Symmetric, BlockedOk, Good, ReasonsOk, ReasonOk, Clauses2, BinKinds,
      Added,
      Attached;
    assert ps[0] in ps && ps[1] in ps;
    NothingBacked(e, ps);
    e.AttachClause(end, ps);
  }

  /** What is left of the clause, by its size. */
  method AddCleaned(e: PropEngine, ghost c: Clause, ps: seq<Lit>, red: bool, end: nat)
    returns (ok: bool, off: Option<nat>)
    requires e.Valid() && AtZero(e) && NoDuplicates(ps) && end !in e.cls
    requires forall l {:trigger l in ps} :: l in ps ==> l.v < e.nVars && Value(e.assigns, l) == Undef
    requires Added(Known(e), c, true, e.Db() + iset{Lits(ps)} + Units(e.trail))
    modifies e
    ensures AtZero(e) && old(e.trail) <= e.trail && (ok ==> e.Valid()) && Added(old(Known(e)), c, ok, Known(e))
    ensures ok ==> (|ps| >= 2 && Lits(ps) in e.Db()) || Entails(Units(e.trail), Lits(ps))
    ensures e.Binaries() == if |ps| == 2 then WithOne(old(e.Binaries()), Lits(ps), red) else old(e.Binaries())
    ensures if |ps| >= 3 then off == Some(end) && e.cls == old(e.cls)[end := ps]
      else off == None && SameClauses(old(e.cls), e.cls)
  {
    hide TrailOk, ClausesOk, TwoWatched, LitsBelow, Symmetric, BlockedOk, Good, ReasonsOk, ReasonOk, Clauses2, BinKinds,
      Added,
      SameClauses, Entails, Units;
    SameClausesRefl(e.cls);
    ok, off := true, None;
    if |ps| == 0 {
      ok := false;
      assert Lits(ps) == {};
      AddedEmpty(Known(e), c, e.Db(), e.trail);
    } else if |ps| == 1 {
      assert Lits(ps) == {ps[0]} && ps[0] in ps;
      ok := AddUnit(e, c, ps[0]);
      FactEntailed(e.trail, ps[0]);
    } else if |ps| == 2 {
      assert Lits(ps) == {ps[0], ps[1]} && ps[0] in ps && ps[1] in ps;
      AddBin(e, c, ps[0], ps[1], red);
    } else {
      AddLong(e, c, ps, end);
      off := Some(end);
    }
  }

  /**
   `add_clause_int` for a clause whose variables are in use, with the arena ending at `end`: a clause of three literals
   or more is allocated there. The models are those that satisfy the clause as well.
   */
  method AddClauseInt(e: PropEngine, lits: seq<Lit>, red: bool, end: nat) returns (ok: bool, off: Option<nat>)
    requires e.Valid() && AtZero(e) && (forall l {:trigger l in lits} :: l in lits ==> l.v < e.nVars) && end !in e.cls
    modifies e
    ensures AtZero(e) && old(e.trail) <= e.trail && (ok ==> e.Valid())
    ensures Added(old(Known(e)), Lits(lits), ok, Known(e))
    ensures var c := NotFalse(Lits(lits), old(e.assigns));
      && (off.Some? <==> !Dropped(Lits(lits), old(e.assigns)) && |c| >= 3)
      && (off.Some? ==> off.value == end && end in e.cls && Lits(e.cls[end]) == c)
    ensures var c := NotFalse(Lits(lits), old(e.assigns));
      && (ok ==>
        (!Dropped(Lits(lits), old(e.assigns)) && |c| >= 2 && c in e.Db()) || Entails(Units(e.trail), Lits(lits)))
      && e.Binaries() ==
         if !Dropped(Lits(lits), old(e.assigns)) && |c| == 2 then WithOne(old(e.Binaries()), c, red)
         else old(e.Binaries())
    ensures OthersKept(old(e.cls), e.cls, end) && e.cls.Keys == old(e.cls).Keys + if off.Some? then {end} else {}
  {
    hide TrailOk, ClausesOk, TwoWatched, LitsBelow, Symmetric, BlockedOk, Good, ReasonsOk, ReasonOk, Clauses2, BinKinds,
      Dropped,
      NotFalse, Added, SortedLits, Entails, Units;
    ghost var c, facts, db := Lits(lits), e.trail, e.Db();
    var keep, ps := SortAndCleanClause(lits, e.assigns);
    if keep {
      AddedClause(facts, e.trailLim, e.assigns, e.level, e.nVars, db, c);
      TwoUndef(e, c, ps);
      LitsSize(ps);
      ok, off := AddCleaned(e, c, ps, red, end);
      EntailsMore(Units(e.trail), Lits(ps), c);
      NotFalseAmong(c, old(e.assigns));
    } else {
      AddedNothing(facts, e.trailLim, e.assigns, e.level, e.nVars, db, c);
      DroppedEntailed(facts, e.trailLim, e.assigns, e.level, e.nVars, c);
      ok, off := true, None;
    }
  }
}
