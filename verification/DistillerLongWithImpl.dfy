/**
 Distillation of long clauses with binary ones and with cached implications: literals that imply another literal
 of the clause are dropped, and clauses that follow from irredundant binary clauses are dropped as a whole, after
 having been extended by literals that may be added to them. (cryptoms/distillerlongwithimpl.cpp:94-345, 420-452)
 */
module DistillerLongWithImpl {
  import opened Literals
  import opened Watches
  import opened Elimination
  import opened OccTheory

  datatype LongClause = LongClause(lits: seq<Lit>, red: bool)
  type LongClauses = map<nat, LongClause>

  /**
   A cached implication: `lit`, or the literal whose list this is in; `onlyIrredBin` if irredundant binary clauses
   suffice for that.
   */
  datatype LitExtra = LitExtra(lit: Lit, onlyIrredBin: bool)
  type Cache = map<Lit, seq<LitExtra>>

  function CacheOf(cache: Cache, l: Lit): seq<LitExtra> {
    if l in cache then cache[l] else []
  }

  // ----- formulas -----

  ghost function Longs(cs: LongClauses, red: bool): Formula {
    iset o: nat | o in cs && cs[o].red == red :: Lits(cs[o].lits)
  }

  ghost function IrredDb(ws: WatchLists, cs: LongClauses, units: seq<Lit>): Formula {
    BinClauses(ws, false) + Longs(cs, false) + Units(units)
  }

  ghost function WholeDb(ws: WatchLists, cs: LongClauses, units: seq<Lit>): Formula {
    IrredDb(ws, cs, units) + BinClauses(ws, true) + Longs(cs, true)
  }

  ghost predicate Implied(f: Formula, g: Formula) {
    forall m: Model {:trigger FormulaTrue(m, f)} {:trigger FormulaTrue(m, g)} :: FormulaTrue(m, f) ==> FormulaTrue(m, g)
  }

  ghost predicate SameModels(f: Formula, g: Formula) {
    Implied(f, g) && Implied(g, f)
  }

  lemma ImpliedTrans(f: Formula, g: Formula, h: Formula)
    requires Implied(f, g) && Implied(g, h)
    ensures Implied(f, h)
  {
  }

  lemma ImpliedPart(f: Formula, g: Formula)
    requires g <= f
    ensures Implied(f, g)
  {
  }

  lemma EntailsMore(f: Formula, g: Formula, c: Clause)
    requires Implied(f, g) && Entails(g, c)
    ensures Entails(f, c)
  {
  }

  /** A clause that follows may be added. */
  lemma AddedImplied(f: Formula, c: Clause)
    requires Entails(f, c)
    ensures SameModels(f, f + iset{c})
  {
    forall m: Model | FormulaTrue(m, f)
      ensures FormulaTrue(m, f + iset{c})
    {
      assert ClauseTrue(m, c);
    }
    ImpliedPart(f + iset{c}, f);
  }

  // ----- what makes a literal, or a clause, superfluous -----

  /** `x` implies `y`. */
  ghost predicate Leads(f: Formula, x: Lit, y: Lit) {
    Entails(f, {x.Neg(), y})
  }

  lemma LeadsTrans(f: Formula, x: Lit, y: Lit, z: Lit)
    requires Leads(f, x, y) && Leads(f, y, z)
    ensures Leads(f, x, z)
  {
    forall m: Model | FormulaTrue(m, f)
      ensures ClauseTrue(m, {x.Neg(), z})
    {
      assert ClauseTrue(m, {x.Neg(), y}) && ClauseTrue(m, {y.Neg(), z});
      assert LitTrue(m, x.Neg()) || LitTrue(m, y);
      assert LitTrue(m, y.Neg()) || LitTrue(m, z);
      assert x.Neg() in {x.Neg(), z} && z in {x.Neg(), z};
    }
  }

  /** Every literal no longer marked implies one that is. */
  ghost predicate Remaining(f: Formula, cl: seq<Lit>, seen: set<Lit>) {
    seen <= Lits(cl) && forall x {:trigger x in cl} :: x in cl && x !in seen ==> LeadsInto(f, x, seen)
  }

  ghost predicate LeadsInto(f: Formula, x: Lit, seen: set<Lit>) {
    exists y :: y in seen && Leads(f, x, y)
  }

  /** A literal may be unmarked if it implies another marked one; whatever led to it leads on from there. */
  lemma Unmarked(f: Formula, cl: seq<Lit>, seen: set<Lit>, x: Lit, y: Lit)
    requires Remaining(f, cl, seen) && x in seen && y in seen && x != y && Leads(f, x, y)
    ensures Remaining(f, cl, seen - {x})
  {
    hide Leads;
    forall z | z in cl && z !in seen - {x}
      ensures LeadsInto(f, z, seen - {x})
    {
      if z == x {
        assert y in seen - {x};
      } else {
        var k :| k in seen && Leads(f, z, k);
        if k == x {
          LeadsTrans(f, z, x, y);
          assert y in seen - {x};
        } else {
          assert k in seen - {x};
        }
      }
    }
  }

  /** What remains is as strong as the clause. */
  lemma RemainingEntailed(f: Formula, cl: seq<Lit>, seen: set<Lit>)
    requires Remaining(f, cl, seen) && Entails(f, Lits(cl))
    ensures Entails(f, seen)
  {
    forall m: Model | FormulaTrue(m, f)
      ensures ClauseTrue(m, seen)
    {
      assert ClauseTrue(m, Lits(cl));
      var x :| x in Lits(cl) && LitTrue(m, x);
      if x !in seen {
        assert x in cl;
        var y :| y in seen && Leads(f, x, y);
        assert ClauseTrue(m, {x.Neg(), y});
        assert !LitTrue(m, x.Neg());
        assert LitTrue(m, y);
      }
    }
  }

  lemma SomethingRemains(f: Formula, cl: seq<Lit>, seen: set<Lit>)
    requires Remaining(f, cl, seen) && cl != []
    ensures seen != {}
  {
    assert cl[0] in cl;
  }

  /** Adding any of the literals to the clause changes nothing, as long as the binary clauses hold. */
  ghost predicate Extended(b: Formula, cl: seq<Lit>, seen2: set<Lit>) {
    forall y: Lit {:trigger y in seen2} :: y in seen2 ==> Entails(b, Lits(cl) + {y.Neg()})
  }

  lemma OwnLit(b: Formula, cl: seq<Lit>, y: Lit)
    requires y in cl
    ensures Entails(b, Lits(cl) + {y.Neg()})
  {
    forall m: Model | FormulaTrue(m, b)
      ensures ClauseTrue(m, Lits(cl) + {y.Neg()})
    {
      assert LitTrue(m, y) || LitTrue(m, y.Neg());
      assert y in Lits(cl) + {y.Neg()} && y.Neg() in Lits(cl) + {y.Neg()};
    }
  }

  /** A binary clause on one of the literals lets the negation of its other literal be added. */
  lemma ExtendedByBin(b: Formula, cl: seq<Lit>, seen2: set<Lit>, l: Lit, l2: Lit)
    requires Extended(b, cl, seen2) && l in cl && {l, l2} in b
    ensures Extended(b, cl, seen2 + {l2.Neg()})
  {
    assert l2.Neg().Neg() == l2;
    forall m: Model | FormulaTrue(m, b)
      ensures ClauseTrue(m, Lits(cl) + {l2})
    {
      assert ClauseTrue(m, {l, l2});
      assert l in Lits(cl) + {l2} && l2 in Lits(cl) + {l2};
    }
  }

  /** A clause within the extended clause makes the original one superfluous. */
  lemma SubsumedByExtended(b: Formula, b': Formula, cl: seq<Lit>, seen2: set<Lit>, l: Lit, l2: Lit)
    requires Extended(b, cl, seen2) && Implied(b', b) && l in cl && l2 in seen2 && Entails(b', {l, l2})
    ensures Entails(b', Lits(cl))
  {
    forall m: Model | FormulaTrue(m, b')
      ensures ClauseTrue(m, Lits(cl))
    {
      assert FormulaTrue(m, b);
      assert ClauseTrue(m, {l, l2}) && ClauseTrue(m, Lits(cl) + {l2.Neg()});
      var x :| x in {l, l2} && LitTrue(m, x);
      var y :| y in Lits(cl) + {l2.Neg()} && LitTrue(m, y);
      assert x == l ==> x in Lits(cl);
      assert y != l2.Neg() ==> y in Lits(cl);
    }
  }

  // ----- the state -----

  /** Every cached entry is an implication of the formula, on another variable. */
  ghost predicate CacheOk(cache: Cache, ws: WatchLists, whole: Formula) {
    forall l: Lit, e {:trigger e in CacheOf(cache, l)} :: e in CacheOf(cache, l) ==>
      e.lit.v != l.v && Entails(whole, {l, e.lit}) && (e.onlyIrredBin ==> Entails(BinClauses(ws, false), {l, e.lit}))
  }

  lemma CacheKept(cache: Cache, ws: WatchLists, whole: Formula, ws': WatchLists, whole': Formula)
    requires CacheOk(cache, ws, whole) && Implied(whole', whole) && BinClauses(ws, false) <= BinClauses(ws', false)
    ensures CacheOk(cache, ws', whole')
  {
    hide Entails, Implied, BinClauses;
    ImpliedPart(BinClauses(ws', false), BinClauses(ws, false));
    forall l: Lit, e | e in CacheOf(cache, l)
      ensures e.lit.v != l.v && Entails(whole', {l, e.lit})
        && (e.onlyIrredBin ==> Entails(BinClauses(ws', false), {l, e.lit}))
    {
      EntailsMore(whole', whole, {l, e.lit});
      if e.onlyIrredBin {
        EntailsMore(BinClauses(ws', false), BinClauses(ws, false), {l, e.lit});
      }
    }
  }

  ghost predicate LongsValid(cs: LongClauses, n: nat) {
    forall o {:trigger o in cs} :: o in cs ==> o < n && |cs[o].lits| >= 3 && DistinctVarsOf(cs[o].lits)
  }

  /** No binary clause lies within the clause, and among the marked literals none implies another by a binary clause. */
  ghost predicate NoneDirect(ws: WatchLists, cl: seq<Lit>, k: nat, seen: set<Lit>, also: bool) {
    forall q: nat, w {:trigger w in W(ws, cl[q])} :: q < k && k <= |cl| && w in W(ws, cl[q]) && w.Bin? ==>
      w.lit2 !in cl && (also && cl[q] in seen ==> w.lit2.Neg() !in seen)
  }

  /** The binary clause at entry `i` of the list of `lit` is irredundant now, in both of its lists. */
  ghost predicate MadeIrred(ws: WatchLists, ws': WatchLists, lit: Lit, i: nat) {
    exists k: nat :: MadeIrredAt(ws, ws', lit, i, k)
  }

  ghost predicate MadeIrredAt(ws: WatchLists, ws': WatchLists, lit: Lit, i: nat, k: nat) {
    i < |W(ws, lit)| && W(ws, lit)[i].Bin?
    && var b := W(ws, lit)[i].lit2;
      b != lit && k < |W(ws, b)| && W(ws, b)[k] == Bin(lit, true)
      && ws' == ws[lit := W(ws, lit)[i := Bin(b, false)]][b := W(ws, b)[k := Bin(lit, false)]]
  }

  // ----- what is to be found for one clause -----

  /** The negated other literals of the binary clauses in a list: of all of them, or of the irredundant ones. */
  ghost function NegBins(list: seq<Watched>, all: bool): set<Lit> {
    set w | w in list && w.Bin? && (all || !w.red) :: w.lit2.Neg()
  }

  ghost function NegCached(c: seq<LitExtra>): set<Lit> {
    set e | e in c :: e.lit.Neg()
  }

  /** Some cached implication that rests on irredundant binary clauses ends in a marked literal. */
  ghost predicate CacheHit(c: seq<LitExtra>, marked: set<Lit>) {
    exists k {:trigger c[k]} :: 0 <= k < |c| && c[k].onlyIrredBin && c[k].lit in marked
  }

  /** Some binary clause has its other literal marked, the marks being extended by the irredundant ones before it. */
  ghost predicate WatchHit(list: seq<Watched>, marked: set<Lit>) {
    exists i {:trigger list[i]} ::
      0 <= i < |list| && list[i].Bin? && list[i].lit2 in marked + NegBins(list[..i], false)
  }

  /** The clause extended by the binary clauses of its first `q` literals. */
  ghost function ExtendedTo(ws: WatchLists, cl: seq<Lit>, q: nat): set<Lit>
    requires q <= |cl|
  {
    if q == 0 then Lits(cl) else ExtendedTo(ws, cl, q - 1) + NegBins(W(ws, cl[q - 1]), false)
  }

  /** The literals left when the first `q` have been used to take out those that imply them. */
  ghost function LeftOf(ws: WatchLists, cache: Cache, cl: seq<Lit>, q: nat, also: bool): set<Lit>
    requires q <= |cl|
  {
    if q == 0 then Lits(cl)
    else
      var s, l := LeftOf(ws, cache, cl, q - 1, also), cl[q - 1];
      if also && l in s then s - NegCached(CacheOf(cache, l)) - NegBins(W(ws, l), true) else s
  }

  /** At its literal `q` the clause is found to be subsumed. */
  ghost predicate HitAt(ws: WatchLists, cache: Cache, cl: seq<Lit>, q: nat, also: bool) {
    q < |cl|
    && ((cl[q] in LeftOf(ws, cache, cl, q, also) && CacheHit(CacheOf(cache, cl[q]), ExtendedTo(ws, cl, q)))
        || WatchHit(W(ws, cl[q]), ExtendedTo(ws, cl, q)))
  }

  ghost predicate SubsumedBy(ws: WatchLists, cache: Cache, cl: seq<Lit>, also: bool) {
    exists q: nat :: HitAt(ws, cache, cl, q, also)
  }

  lemma NegBinsNext(list: seq<Watched>, i: nat, all: bool)
    requires i < |list|
    ensures NegBins(list[..i + 1], all)
      == NegBins(list[..i], all) + if list[i].Bin? && (all || !list[i].red) then {list[i].lit2.Neg()} else {}
  {
    assert list[..i + 1] == list[..i] + [list[i]];
  }

  /**
   What becomes of a clause: it goes if it is subsumed or fewer than three literals are left; otherwise what is left
   takes its place.
   */
  ghost predicate Outcome(ws: WatchLists, cache: Cache, cl: seq<Lit>, also: bool, remove: bool, left: Option<Clause>) {
    var s := LeftOf(ws, cache, cl, |cl|, also);
    && (remove <==> SubsumedBy(ws, cache, cl, also) || (s != Lits(cl) && |s| < 3))
    && (!remove ==> left == Some(s))
  }

  datatype Database = Database(ws: WatchLists, cs: LongClauses, units: seq<Lit>)

  /** One clause distilled: the clauses before and after, and the offset at which it is found now, if it is. */
  datatype Step = Step(before: Database, off: nat, result: Option<nat>, after: Database)

  ghost predicate StepOk(s: Step, cache: Cache, also: bool) {
    && s.off in s.before.cs && (s.result.Some? ==> s.result.value in s.after.cs)
    && Outcome(s.before.ws, cache, s.before.cs[s.off].lits, also, s.result == None,
               if s.result.Some? then Some(Lits(s.after.cs[s.result.value].lits)) else None)
    && match s.result
       case None => s.after.cs == s.before.cs - {s.off}
       case Some(o) => s.after.cs == if o == s.off then s.before.cs else s.before.cs[o := s.after.cs[o]] - {s.off}
  }

  /** What the first `k` steps lead to. */
  ghost function Reached(steps: seq<Step>, from: Database, k: nat): Database
    requires k <= |steps|
  {
    if k == 0 then from else steps[k - 1].after
  }

  /** The clauses of a list, distilled one after the other. */
  ghost predicate StepsOf(steps: seq<Step>, offs: seq<nat>, cache: Cache, also: bool, from: Database, to: Database) {
    && |steps| <= |offs|
    && (forall k {:trigger steps[k]} :: 0 <= k < |steps| ==> StepOk(steps[k], cache, also) && steps[k].off == offs[k])
    && (forall k: nat {:trigger Reached(steps, from, k)} :: k < |steps| ==> steps[k].before == Reached(steps, from, k))
    && to == Reached(steps, from, |steps|)
  }

  ghost function Results(steps: seq<Step>): seq<nat> {
    if steps == [] then []
    else
      var r := steps[|steps| - 1].result;
      Results(steps[..|steps| - 1]) + if r.Some? then [r.value] else []
  }

  lemma StepsNext(steps: seq<Step>, offs: seq<nat>, cache: Cache, also: bool, from: Database, to: Database, s: Step)
    requires StepsOf(steps, offs, cache, also, from, to) && |steps| < |offs|
      && StepOk(s, cache, also) && s.off == offs[|steps|] && s.before == to
    ensures StepsOf(steps + [s], offs, cache, also, from, s.after)
  {
    hide StepOk;
    var next := steps + [s];
    forall k | 0 <= k < |next|
      ensures StepOk(next[k], cache, also) && next[k].off == offs[k]
      ensures next[k].before == Reached(next, from, k)
    {
      assert Reached(next, from, k) == Reached(steps, from, k);
      if k < |steps| {
        assert next[k] == steps[k];
      }
    }
  }

  lemma ResultsNext(steps: seq<Step>, s: Step)
    ensures Results(steps + [s]) == Results(steps) + if s.result.Some? then [s.result.value] else []
  {
    assert (steps + [s])[..|steps|] == steps;
  }

  lemma NoSteps(offs: seq<nat>, cache: Cache, also: bool, now: Database)
    ensures StepsOf([], offs, cache, also, now, now) && Results([]) == []
  {
  }

  lemma NoBins(list: seq<Watched>)
    ensures NegBins(list[..0], false) == NegBins(list[..0], true) == {}
  {
  }

  lemma NoneCached(c: seq<LitExtra>)
    ensures NegCached(c[..0]) == {}
  {
  }

  lemma NoneDirectYet(ws: WatchLists, cl: seq<Lit>, seen: set<Lit>, also: bool)
    ensures NoneDirect(ws, cl, 0, seen, also)
  {
  }

  lemma DirectLess(ws: WatchLists, cl: seq<Lit>, k: nat, seen: set<Lit>, also: bool)
    requires NoneDirect(ws, cl, k, seen, also)
    ensures forall s: set<Lit> {:trigger NoneDirect(ws, cl, k, s, also)} :: s <= seen ==> NoneDirect(ws, cl, k, s, also)
  {
  }

  lemma NoHit(ws: WatchLists, cache: Cache, cl: seq<Lit>, also: bool)
    requires forall k: nat {:trigger HitAt(ws, cache, cl, k, also)} :: k < |cl| ==> !HitAt(ws, cache, cl, k, also)
    ensures !SubsumedBy(ws, cache, cl, also)
  {
  }

  lemma NegCachedNext(c: seq<LitExtra>, k: nat)
    requires k < |c|
    ensures NegCached(c[..k + 1]) == NegCached(c[..k]) + {c[k].lit.Neg()}
  {
    assert c[..k + 1] == c[..k] + [c[k]];
  }

  class DistillerLongWithImpl {
    /** Binary clauses; entries for long ones are passed over. */
    var watches: WatchLists
    var clauses: LongClauses
    var units: seq<Lit>
    var nextOffset: nat
    var implCache: Cache
    var seen: set<Lit>
    var seen2: set<Lit>
    var lits: seq<Lit>
    var lits2: seq<Lit>
    var isSubsumed: bool

    ghost function Irred(): Formula
      reads `watches, `clauses, `units
    {
      IrredDb(watches, clauses, units)
    }

    ghost function Whole(): Formula
      reads `watches, `clauses, `units
    {
      WholeDb(watches, clauses, units)
    }

    /** The redundant clauses follow from the irredundant ones, and the cache from all of them. */
    ghost predicate Ok()
      reads `watches, `clauses, `units, `nextOffset, `implCache
    {
      && BinsOk(watches) && LongsValid(clauses, nextOffset)
      && Implied(Irred(), Whole()) && CacheOk(implCache, watches, Whole())
    }

    // ----- one binary clause -----

    method StrengthenClauseWithWatch(lit: Lit, w: Watched, ghost cl: seq<Lit>)
      requires Ok() && w in W(watches, lit) && Remaining(Whole(), cl, seen)
      modifies `seen
      ensures Remaining(Whole(), cl, seen) && seen <= old(seen) && (w.Bin? && lit in seen ==> w.lit2.Neg() !in seen)
      ensures lit in old(seen) ==> lit in seen
      ensures seen == if w.Bin? && lit in old(seen) then old(seen) - {w.lit2.Neg()} else old(seen)
    {
      hide Remaining, Implied, CacheOk;
      if w.Bin? && lit in seen {
        if w.lit2.Neg() in seen {
          BinLeads(watches, clauses, units, lit, w);
          Unmarked(Whole(), cl, seen, w.lit2.Neg(), lit);
          seen := seen - {w.lit2.Neg()};
        }
      }
    }

    /** A redundant binary clause becomes irredundant, in both of its lists. */
    method SetIrred(lit: Lit, i: nat)
      requires Ok() && i < |W(watches, lit)| && W(watches, lit)[i].Bin? && W(watches, lit)[i].red
      modifies `watches
      ensures Ok() && SameModels(old(Irred()), Irred()) && BinClauses(old(watches), false) <= BinClauses(watches, false)
      ensures {lit, W(old(watches), lit)[i].lit2} in BinClauses(watches, false)
      ensures MadeIrred(old(watches), watches, lit, i)
    {
      hide CacheOk, Implied, LongsValid, BinsOk;
      ghost var ws := watches;
      var b := W(watches, lit)[i].lit2;
      assert W(watches, lit)[i] == Bin(b, true);
      assert Bin(b, true) in W(watches, lit);
      assert lit.v != b.v && Bin(lit, true) in W(watches, b) by { BinBack(watches, lit, b, true); }
      var k := FindWatchedOfBin(b, Bin(lit, true));
      Promoted(ws, lit, i, b, k);
      watches := watches[lit := W(watches, lit)[i := Bin(b, false)]];
      watches := watches[b := W(watches, b)[k := Bin(lit, false)]];
      assert MadeIrredAt(ws, watches, lit, i, k);
      PromotedKeeps(ws, watches, clauses, units, implCache, lit, b);
    }

    method FindWatchedOfBin(b: Lit, w: Watched) returns (k: nat)
      requires w in W(watches, b)
      ensures k < |W(watches, b)| && W(watches, b)[k] == w
    {
      k := 0;
      ghost var at :| 0 <= at < |W(watches, b)| && W(watches, b)[at] == w;
      while W(watches, b)[k] != w
        invariant k <= at
        decreases at - k
      {
        k := k + 1;
      }
    }

    /** Subsumes the clause with a binary one, or extends it. */
    method SubsumeClauseWithWatch(lit: Lit, i: nat, cl: seq<Lit>, red: bool) returns (subsumed: bool)
      requires Ok() && i < |W(watches, lit)| && lit in cl && Lits(cl) <= seen2 == Lits(lits2)
        && Extended(BinClauses(watches, false), cl, seen2)
      modifies `watches, `seen2, `lits2, `isSubsumed
      ensures Ok() && SameModels(old(Irred()), Irred()) && isSubsumed == (subsumed || old(isSubsumed))
      ensures !subsumed ==>
        watches == old(watches) && old(seen2) <= seen2 && Extended(BinClauses(watches, false), cl, seen2)
      ensures subsumed <==> W(old(watches), lit)[i].Bin? && W(old(watches), lit)[i].lit2 in old(seen2)
      ensures var w := W(old(watches), lit)[i];
        seen2 == old(seen2) + if !subsumed && w.Bin? && !w.red then {w.lit2.Neg()} else {}
      ensures !subsumed && W(watches, lit)[i].Bin? ==> W(watches, lit)[i].lit2 !in cl
      ensures subsumed && !red ==> Entails(BinClauses(watches, false), Lits(cl))
      ensures BinClauses(old(watches), false) <= BinClauses(watches, false) && seen2 == Lits(lits2)
      ensures if subsumed && !red && W(old(watches), lit)[i].red then MadeIrred(old(watches), watches, lit, i)
        else watches == old(watches)
    {
      hide MadeIrred, CacheOk, LongsValid, BinsOk, Extended, Entails, BinClauses, Implied;
      var w := W(watches, lit)[i];
      ghost var b := BinClauses(watches, false);
      SameRefl(Irred());
      if w.Bin? && w.lit2 in seen2 {
        if w.red && !red {
          SetIrred(lit, i);
        }
        if !red {
          assert {lit, w.lit2} in BinClauses(watches, false) by { if !w.red { BinIn(watches, lit, w); } }
          ClauseEntailed(BinClauses(watches, false), {lit, w.lit2});
          ImpliedPart(BinClauses(watches, false), b);
          SubsumedByExtended(b, BinClauses(watches, false), cl, seen2, lit, w.lit2);
        }
        isSubsumed := true;
        return true;
      }
      if w.Bin? && !w.red && w.lit2.Neg() !in seen2 {
        BinIn(watches, lit, w);
        ExtendedByBin(b, cl, seen2, lit, w.lit2);
        seen2 := seen2 + {w.lit2.Neg()};
        lits2 := lits2 + [w.lit2.Neg()];
      }
      subsumed := false;
    }

    method StrAndSubUsingWatch(cl: seq<Lit>, red: bool, q: nat, also: bool)
      requires Ok() && q < |cl| && Lits(cl) <= seen2 && Extended(BinClauses(watches, false), cl, seen2)
        && Remaining(Whole(), cl, seen) && !isSubsumed
      requires NoneDirect(watches, cl, q, seen, also) && (!also ==> seen == Lits(cl)) && seen2 == Lits(lits2)
      modifies `watches, `seen, `seen2, `lits2, `isSubsumed
      ensures Ok() && SameModels(old(Irred()), Irred()) && BinClauses(old(watches), false) <= BinClauses(watches, false)
      ensures !isSubsumed ==>
        watches == old(watches) && Lits(cl) <= seen2 && Extended(BinClauses(watches, false), cl, seen2)
      ensures seen2 == Lits(lits2) && seen <= old(seen)
      ensures !isSubsumed ==>
        Remaining(Whole(), cl, seen) && NoneDirect(watches, cl, q + 1, seen, also) && (!also ==> seen == Lits(cl))
      ensures isSubsumed && !red ==> Entails(BinClauses(watches, false), Lits(cl))
      ensures isSubsumed <==> WatchHit(W(old(watches), cl[q]), old(seen2))
      ensures red ==> watches == old(watches)
      ensures !isSubsumed ==> seen2 == old(seen2) + NegBins(W(watches, cl[q]), false)
      ensures !isSubsumed ==>
        seen == if also && cl[q] in old(seen) then old(seen) - NegBins(W(watches, cl[q]), true) else old(seen)
    {
      hide CacheOk, LongsValid, BinsOk, Extended, Entails, BinClauses, Implied, Remaining, NegBins;
      var lit := cl[q];
      assert lit in cl;
      ghost var ws, irred := watches, Irred();
      ghost var list := W(watches, lit);
      SameRefl(irred);
      NoBins(list);
      var n := |W(watches, lit)|;
      for i := 0 to n
        modifies `watches, `seen, `seen2, `lits2, `isSubsumed
        invariant Ok() && Irred() == irred && watches == ws && !isSubsumed && seen2 == Lits(lits2)
        invariant Lits(cl) <= seen2 && Extended(BinClauses(watches, false), cl, seen2) && Remaining(Whole(), cl, seen)
          && seen <= old(seen)
        invariant NoneDirect(watches, cl, q, seen, also) && (!also ==> seen == Lits(cl))
        invariant forall a {:trigger W(watches, lit)[a]} :: 0 <= a < i && W(watches, lit)[a].Bin? ==>
          W(watches, lit)[a].lit2 !in cl && (also && lit in seen ==> W(watches, lit)[a].lit2.Neg() !in seen)
        invariant seen2 == old(seen2) + NegBins(list[..i], false)
        invariant seen == (if also && lit in old(seen) then old(seen) - NegBins(list[..i], true) else old(seen))
          && (lit in old(seen) ==> lit in seen)
        invariant forall a {:trigger list[a]} ::
          0 <= a < i && list[a].Bin? ==> list[a].lit2 !in old(seen2) + NegBins(list[..a], false)
      {
        var w := W(watches, lit)[i];
        NegBinsNext(list, i, false);
        NegBinsNext(list, i, true);
        if !w.Bin? {
          continue;
        }
        if also {
          StrengthenClauseWithWatch(lit, w, cl);
        }
        var subsumed := SubsumeClauseWithWatch(lit, i, cl, red);
        if subsumed {
          assert list[i].Bin?;
          return;
        }
      }
      assert list[..|list|] == list;
    }

    // ----- cached implications -----

    method StrAndSubClauseWithCache(lit: Lit, cl: seq<Lit>, also: bool) returns (subsumed: bool)
      requires Ok() && lit in cl && Extended(BinClauses(watches, false), cl, seen2) && Remaining(Whole(), cl, seen)
      modifies `seen, `isSubsumed
      ensures Remaining(Whole(), cl, seen) && seen <= old(seen) && (!also ==> seen == old(seen))
      ensures isSubsumed == (subsumed || old(isSubsumed))
      ensures subsumed ==> Entails(BinClauses(watches, false), Lits(cl))
      ensures subsumed <==> lit in old(seen) && CacheHit(CacheOf(implCache, lit), seen2)
      ensures !subsumed ==>
        seen == (if also && lit in old(seen) then old(seen) - NegCached(CacheOf(implCache, lit)) else old(seen))
        && (lit in old(seen) ==> lit in seen)
    {
      hide LongsValid, BinsOk, Extended, Entails, BinClauses, Implied, Remaining, NegCached;
      subsumed := false;
      if lit in seen {
        var c := CacheOf(implCache, lit);
        NoneCached(c);
        for k := 0 to |c|
          modifies `seen, `isSubsumed
          invariant Remaining(Whole(), cl, seen) && seen <= old(seen) && lit in seen && (!also ==> seen == old(seen))
            && isSubsumed == old(isSubsumed)
          invariant also ==> seen == old(seen) - NegCached(c[..k])
          invariant forall a {:trigger c[a]} :: 0 <= a < k ==> !(c[a].onlyIrredBin && c[a].lit in seen2)
        {
          NegCachedNext(c, k);
          var e := c[k];
          assert e in CacheOf(implCache, lit);
          if also && e.lit.Neg() in seen {
            assert e.lit.Neg().Neg() == e.lit;
            EitherOrder(Whole(), lit, e.lit);
            Unmarked(Whole(), cl, seen, e.lit.Neg(), lit);
            seen := seen - {e.lit.Neg()};
          }
          if e.lit in seen2 && e.onlyIrredBin {
            ImpliedPart(BinClauses(watches, false), BinClauses(watches, false));
            SubsumedByExtended(BinClauses(watches, false), BinClauses(watches, false), cl, seen2, lit, e.lit);
            isSubsumed := true;
            return true;
          }
        }
        assert c[..|c|] == c;
      }
    }

    /** What one literal of the clause gives: cached implications first, then its binary clauses. */
    method StrsubAt(q: nat, also: bool, cl: seq<Lit>, red: bool)
      requires Ok() && q < |cl| && !isSubsumed && seen2 == Lits(lits2) && Lits(cl) <= seen2
        && Extended(BinClauses(watches, false), cl, seen2) && Remaining(Whole(), cl, seen)
        && NoneDirect(watches, cl, q, seen, also) && (!also ==> seen == Lits(cl))
      requires seen2 == ExtendedTo(watches, cl, q) && seen == LeftOf(watches, implCache, cl, q, also)
      modifies `watches, `seen, `seen2, `lits2, `isSubsumed
      ensures Ok() && SameModels(old(Irred()), Irred()) && BinClauses(old(watches), false) <= BinClauses(watches, false)
      ensures seen2 == Lits(lits2) && seen <= old(seen)
      ensures !isSubsumed ==>
        watches == old(watches) && Lits(cl) <= seen2 && Extended(BinClauses(watches, false), cl, seen2)
        && Remaining(Whole(), cl, seen) && NoneDirect(watches, cl, q + 1, seen, also) && (!also ==> seen == Lits(cl))
      ensures isSubsumed && !red ==> Entails(BinClauses(watches, false), Lits(cl))
      ensures isSubsumed <==> HitAt(old(watches), implCache, cl, q, also)
      ensures red ==> watches == old(watches)
      ensures !isSubsumed ==>
        seen2 == ExtendedTo(watches, cl, q + 1) && seen == LeftOf(watches, implCache, cl, q + 1, also)
    {
      hide CacheOk, LongsValid, BinsOk, Entails, BinClauses, Implied, NegBins, NegCached, CacheHit, WatchHit, CacheOf,
        NoneDirect, Extended, Remaining;
      assert cl[q] in cl;
      ghost var irred, seen0 := Irred(), seen;
      SameRefl(irred);
      DirectLess(watches, cl, q, seen, also);
      var subsumed := StrAndSubClauseWithCache(cl[q], cl, also);
      if subsumed {
        return;
      }
      StrAndSubUsingWatch(cl, red, q, also);
    }

    method StrsubWithCacheAndWatch(also: bool, cl: seq<Lit>, red: bool)
      requires Ok() && Lits(cl) == seen == seen2 == Lits(lits2) && !isSubsumed
      modifies `watches, `seen, `seen2, `lits2, `isSubsumed
      ensures Ok() && SameModels(old(Irred()), Irred()) && BinClauses(old(watches), false) <= BinClauses(watches, false)
      ensures seen2 == Lits(lits2) && seen <= old(seen)
      ensures !isSubsumed ==>
        watches == old(watches) && Remaining(Whole(), cl, seen) && NoneDirect(watches, cl, |cl|, seen, also)
        && (!also ==> seen == Lits(cl))
      ensures isSubsumed && !red ==> Entails(BinClauses(watches, false), Lits(cl))
      ensures isSubsumed <==> SubsumedBy(old(watches), implCache, cl, also)
      ensures red ==> watches == old(watches)
      ensures !isSubsumed ==>
        seen2 == ExtendedTo(watches, cl, |cl|) && seen == LeftOf(watches, implCache, cl, |cl|, also)
    {
      hide CacheOk, LongsValid, BinsOk, Entails, BinClauses, Implied, NegBins, NegCached, HitAt, NoneDirect;
      ghost var ws, irred := watches, Irred();
      NoneDirectYet(watches, cl, seen, also);
      SameRefl(irred);
      forall y | y in seen2
        ensures Entails(BinClauses(watches, false), Lits(cl) + {y.Neg()})
      {
        OwnLit(BinClauses(watches, false), cl, y);
      }
      hide Extended, Remaining, LeftOf, ExtendedTo;
      var q: nat := 0;
      while q < |cl| && !isSubsumed
        modifies `watches, `seen, `seen2, `lits2, `isSubsumed
        invariant q <= |cl| && Ok() && SameModels(irred, Irred()) && BinClauses(ws, false) <= BinClauses(watches, false)
        invariant !isSubsumed ==> watches == ws && Lits(cl) <= seen2 && Extended(BinClauses(watches, false), cl, seen2)
        invariant seen2 == Lits(lits2) && seen <= Lits(cl)
        invariant !isSubsumed ==>
          Remaining(Whole(), cl, seen) && NoneDirect(watches, cl, q, seen, also) && (!also ==> seen == Lits(cl))
        invariant isSubsumed && !red ==> Entails(BinClauses(watches, false), Lits(cl))
        invariant isSubsumed ==> SubsumedBy(ws, implCache, cl, also)
        invariant red ==> watches == ws
        invariant !isSubsumed ==> seen2 == ExtendedTo(ws, cl, q) && seen == LeftOf(ws, implCache, cl, q, also)
        invariant !isSubsumed ==> forall k: nat {:trigger HitAt(ws, implCache, cl, k, also)} ::
          k < q ==> !HitAt(ws, implCache, cl, k, also)
        decreases |cl| - q, !isSubsumed
      {
        StrsubAt(q, also, cl, red);
        q := q + 1;
      }
      if !isSubsumed {
        NoHit(ws, implCache, cl, also);
      }
    }

    // ----- one clause -----

    /** `add_clause_int`, as a set: one literal is set, two are attached, more are stored. */
    method AddClauseInt(c: seq<Lit>, red: bool) returns (off: Option<nat>)
      requires Ok() && c != [] && DistinctVarsOf(c) && Entails(Whole(), Lits(c))
      modifies `watches, `clauses, `units, `nextOffset
      ensures Ok() && SameModels(old(Irred()), Irred()) && Whole() == old(Whole()) + iset{Lits(c)}
      ensures !red ==> Lits(c) in Irred()
      ensures off.Some? <==> |c| >= 3
      ensures if off.Some? then
        off.value !in old(clauses) && clauses == old(clauses)[off.value := LongClause(c, red)] && watches
        == old(watches) && units == old(units) else clauses == old(clauses)
    {
      hide CacheOk, Entails, Implied, DistinctVarsOf, BinsOk, LongsValid, BinClauses, Longs, Units;
      ghost var ws, cs, us, n := watches, clauses, units, nextOffset;
      ghost var irred, whole := Irred(), Whole();
      off := None;
      if |c| == 1 {
        units := units + c;
        UnitAdded(us, c);
      } else if |c| == 2 {
        FirstTwo(c);
        BinAdded(ws, c[0], c[1], red);
        watches := watches[c[0] := W(watches, c[0]) + [Bin(c[1], red)]];
        watches := watches[c[1] := W(watches, c[1]) + [Bin(c[0], red)]];
        TwoLits(c);
      } else {
        LongAddedDb(cs, n, c, red);
        clauses := clauses[nextOffset := LongClause(c, red)];
        off := Some(nextOffset);
        nextOffset := nextOffset + 1;
      }
      assert irred <= Irred() <= irred + iset{Lits(c)} && Whole() == whole + iset{Lits(c)};
      Added(irred, whole, Irred(), Whole(), Lits(c));
      CacheKept(implCache, ws, whole, watches, Whole());
    }

    /**
     Distills one clause. The models stay the same; if `remove`, also without the clause. Otherwise the clause at the
     offset returned is the old one or a proper part of it. A clause that is neither removed nor changed does
     not contain a binary clause, and with strengthening none of its literals implies another directly. It is
     removed if it is found to be subsumed, or if fewer than three literals are left.
     */
    method SubStrClWithCacheWatch(off: nat, also: bool) returns (remove: bool, off': nat)
      requires Ok() && off in clauses && seen == {} && seen2 == {}
      modifies `watches, `clauses, `units, `nextOffset, `seen, `seen2, `lits, `lits2, `isSubsumed
      ensures Ok() && SameModels(old(Irred()), Irred()) && seen == {} && seen2 == {}
      ensures remove ==> off' == off && clauses == old(clauses) && Redundant(watches, clauses, units, off)
      ensures !remove ==> off' in clauses && clauses[off'].red == old(clauses)[off].red
      ensures !remove && off' == off ==> clauses == old(clauses) && watches == old(watches) && units == old(units)
      ensures !remove && off' == off ==>
        NoneDirect(watches, clauses[off].lits, |clauses[off].lits|, Lits(clauses[off].lits), also)
      ensures !remove && off' != off ==>
        also && off' !in old(clauses) && Lits(clauses[off'].lits) < Lits(old(clauses)[off].lits)
      ensures !remove && off' != off ==> clauses == old(clauses)[off' := clauses[off']] - {off}
      ensures Outcome(old(watches), implCache, old(clauses)[off].lits, also, remove,
          if !remove then Some(Lits(clauses[off'].lits)) else None)
    {
      hide CacheOk, Entails, Implied, BinsOk, NoneDirect, Redundant, LongsValid, Remaining, DistinctVarsOf, BinClauses,
        Longs, Units, SubsumedBy, LeftOf, ExtendedTo;
      var cl, red := clauses[off].lits, clauses[off].red;
      LongEnough(clauses, nextOffset, off);
      FillSeen(cl);
      StrsubWithCacheAndWatch(also, cl, red);
      ghost var left, irred1 := seen, Irred();
      ClearSeen2();
      CollectLits(cl);
      if isSubsumed {
        SubsumedRedundant(watches, clauses, units, off);
        return true, off;
      }
      if |lits| == |cl| {
        return false, off;
      }
      ShrunkLess(cl, lits);
      DistinctSize(lits);
      remove, off' := RemoveOrShrinkClause(off);
      SameTrans(old(Irred()), irred1, Irred());
    }

    /** Marks the literals of the clause. */
    method FillSeen(cl: seq<Lit>)
      requires seen == {} && seen2 == {}
      modifies `seen, `seen2, `lits2, `isSubsumed
      ensures seen == seen2 == Lits(lits2) == Lits(cl) && !isSubsumed
    {
      isSubsumed := false;
      lits2 := [];
      for k := 0 to |cl|
        modifies `seen, `seen2, `lits2
        invariant seen == seen2 == Lits(cl[..k]) && lits2 == cl[..k]
      {
        assert cl[..k + 1] == cl[..k] + [cl[k]];
        seen := seen + {cl[k]};
        seen2 := seen2 + {cl[k]};
        lits2 := lits2 + [cl[k]];
      }
      assert cl[..|cl|] == cl;
    }

    method ClearSeen2()
      requires seen2 == Lits(lits2)
      modifies `seen2
      ensures seen2 == {}
    {
      for k := 0 to |lits2|
        invariant seen2 == Lits(lits2) - Lits(lits2[..k])
      {
        assert lits2[..k + 1] == lits2[..k] + [lits2[k]];
        seen2 := seen2 - {lits2[k]};
      }
      assert lits2[..|lits2|] == lits2;
    }

    /** The literals still marked, in the order of the clause; the marks are cleared. */
    method CollectLits(cl: seq<Lit>)
      requires DistinctVarsOf(cl) && seen <= Lits(cl)
      modifies `seen, `lits
      ensures seen == {} && DistinctVarsOf(lits)
      ensures !isSubsumed ==> Lits(lits) == old(seen) && |lits| <= |cl| && (|lits| == |cl| ==> lits == cl)
    {
      lits := [];
      for k := 0 to |cl|
        modifies `seen, `lits
        invariant seen == old(seen) - Lits(cl[..k]) && DistinctVarsOf(lits)
        invariant forall l :: l in lits <==> !isSubsumed && l in old(seen) && l in cl[..k]
        invariant |lits| <= k && (|lits| == k ==> lits == cl[..k])
      {
        assert cl[..k + 1] == cl[..k] + [cl[k]];
        NotYet(cl, k);
        if !isSubsumed && cl[k] in seen {
          KeptDistinct(cl, k, lits);
          lits := lits + [cl[k]];
        }
        seen := seen - {cl[k]};
      }
      assert cl[..|cl|] == cl;
    }

    method RemoveOrShrinkClause(off: nat) returns (remove: bool, off': nat)
      requires Ok() && off in clauses && Remaining(Whole(), clauses[off].lits, Lits(lits)) && DistinctVarsOf(lits)
        && Lits(lits) < Lits(clauses[off].lits)
      modifies `watches, `clauses, `units, `nextOffset
      ensures Ok() && SameModels(old(Irred()), Irred())
      ensures remove <==> |lits| < 3
      ensures remove ==> off' == off && clauses == old(clauses) && Redundant(watches, clauses, units, off)
      ensures !remove ==>
        off' !in old(clauses) && clauses == old(clauses)[off' := LongClause(lits, old(clauses)[off].red)] - {off}
        && off' != off
    {
      hide CacheOk, Entails, Implied, BinsOk, Redundant, LongsValid;
      var cl, red := clauses[off].lits, clauses[off].red;
      ghost var irred0 := Irred();
      StoredEntailed(watches, clauses, units, off);
      RemainingEntailed(Whole(), cl, Lits(lits));
      assert cl != [] by { LongEnough(clauses, nextOffset, off); }
      SomethingRemains(Whole(), cl, Lits(lits));
      var c2 := AddClauseInt(lits, red);
      ghost var irred1 := Irred();
      ShrunkRedundant(watches, clauses, units, off, Lits(lits));
      if c2.Some? {
        Detach(off);
        SameTrans(irred0, irred1, Irred());
        return false, c2.value;
      }
      return true, off;
    }

    /** `detachClause` and `clauseFree` */
    method Detach(off: nat)
      requires Ok() && off in clauses && Redundant(watches, clauses, units, off)
      modifies `clauses
      ensures Ok() && SameModels(old(Irred()), Irred()) && clauses == old(clauses) - {off}
    {
      hide CacheOk, Entails, Implied, BinsOk;
      ghost var cs := clauses;
      clauses := clauses - {off};
      Detached(watches, cs, units, off);
      CacheKept(implCache, watches, WholeDb(watches, cs, units), watches, Whole());
    }

    ghost function Now(): Database
      reads `watches, `clauses, `units
    {
      Database(watches, clauses, units)
    }

    /** Distills one clause of a list, which names the shorter one afterwards or no longer names it. */
    method DistillOne(kept: seq<nat>, offs: seq<nat>, i: nat, red: bool, also: bool) returns (remove: bool, off': nat)
      requires Ok() && seen == {} && seen2 == {} && i < |offs| && ListOf(kept + offs[i..], clauses, red)
      modifies `watches, `clauses, `units, `nextOffset, `seen, `seen2, `lits, `lits2, `isSubsumed
      ensures Ok() && SameModels(old(Irred()), Irred()) && seen == {} && seen2 == {}
      ensures ListOf(kept + (if remove then [] else [off']) + offs[i + 1..], clauses, red)
      ensures StepOk(Step(old(Now()), offs[i], if remove then None else Some(off'), Now()), implCache, also)
    {
      hide CacheOk, Entails, Implied, BinsOk, NoneDirect, Redundant, LongsValid, ListOf, SameModels, IrredDb;
      ghost var irred0, cs := Irred(), clauses;
      ListNext(kept, offs, i, clauses, red);
      remove, off' := SubStrClWithCacheWatch(offs[i], also);
      if remove {
        ghost var irred1 := Irred();
        Detach(offs[i]);
        SameTrans(irred0, irred1, Irred());
        ListDropped(kept, offs, i, cs, red);
        assert kept + [] + offs[i + 1..] == kept + offs[i + 1..];
      } else {
        ListReplaced(kept, offs, i, cs, clauses, red, off');
      }
    }

    /**
     Distills the clauses of a list, dropping from it the ones removed; after `effort` clauses the time is up.
     However it goes, the irredundant formula keeps its models, the redundant clauses still follow from it, and the
     list names clauses of its kind: what became of those distilled, and the others.
     */
    method ShortenAllClWithCacheWatch(offs: seq<nat>, red: bool, also: bool, effort: nat)
      returns (kept: seq<nat>, ghost steps: seq<Step>)
      requires Ok() && seen == {} && seen2 == {} && ListOf(offs, clauses, red)
      modifies `watches, `clauses, `units, `nextOffset, `seen, `seen2, `lits, `lits2, `isSubsumed
      ensures Ok() && SameModels(old(Irred()), Irred()) && seen == {} && seen2 == {}
      ensures ListOf(kept, clauses, red)
      ensures StepsOf(steps, offs, implCache, also, old(Now()), Now())
      ensures |steps| == (if effort < |offs| then effort else |offs|) && kept == Results(steps) + offs[|steps|..]
    {
      hide CacheOk, Entails, Implied, BinsOk, LongsValid, ListOf, SameModels, IrredDb, StepsOf, StepOk, Results;
      kept, steps := [], [];
      ghost var irred0, from := Irred(), Now();
      SameRefl(irred0);
      NoSteps(offs, implCache, also, from);
      var needToFinish, left := false, effort;
      var i: nat := 0;
      ListSplit(offs, clauses, red);
      while i < |offs|
        modifies `watches, `clauses, `units, `nextOffset, `seen, `seen2, `lits, `lits2, `isSubsumed
        invariant i <= |offs| && Ok() && SameModels(irred0, Irred()) && seen == {} && seen2 == {}
        invariant ListOf(kept + offs[i..], clauses, red)
        invariant |steps| <= i && StepsOf(steps, offs, implCache, also, from, Now())
          && kept == Results(steps) + offs[|steps|..i]
        invariant left == effort - |steps| && if needToFinish then left == 0 else |steps| == i
        decreases |offs| - i
      {
        if left == 0 {
          needToFinish := true;
        }
        var off := offs[i];
        ListNext(kept, offs, i, clauses, red);
        if needToFinish {
          assert kept + [off] + offs[i + 1..] == (kept + [off]) + offs[i + 1..];
          assert offs[|steps|..i + 1] == offs[|steps|..i] + [off];
          kept := kept + [off];
          i := i + 1;
          continue;
        }
        left := left - 1;
        ghost var irred1, now := Irred(), Now();
        var remove, off' := DistillOne(kept, offs, i, red, also);
        SameTrans(irred0, irred1, Irred());
        ghost var step := Step(now, off, if remove then None else Some(off'), Now());
        StepsNext(steps, offs, implCache, also, from, now, step);
        ResultsNext(steps, step);
        steps := steps + [step];
        if remove {
          assert kept + [] + offs[i + 1..] == kept + offs[i + 1..];
          i := i + 1;
          continue;
        }
        off := off';
        assert kept + [off] + offs[i + 1..] == (kept + [off]) + offs[i + 1..];
        kept := kept + [off];
        i := i + 1;
      }
      assert kept + offs[i..] == kept;
    }
  }

  // ----- lists of offsets -----

  ghost predicate ListOf(offs: seq<nat>, cs: LongClauses, red: bool) {
    && (forall k {:trigger offs[k]} :: 0 <= k < |offs| ==> offs[k] in cs && cs[offs[k]].red == red)
    && forall i, j {:trigger offs[i], offs[j]} :: 0 <= i < j < |offs| ==> offs[i] != offs[j]
  }

  lemma ListSplit(offs: seq<nat>, cs: LongClauses, red: bool)
    requires ListOf(offs, cs, red)
    ensures ListOf([] + offs[0..], cs, red)
  {
    assert [] + offs[0..] == offs;
  }

  lemma ListNext(kept: seq<nat>, offs: seq<nat>, i: nat, cs: LongClauses, red: bool)
    requires i < |offs| && ListOf(kept + offs[i..], cs, red)
    ensures offs[i] in cs && cs[offs[i]].red == red && ListOf(kept + [offs[i]] + offs[i + 1..], cs, red)
  {
    assert kept + offs[i..] == kept + [offs[i]] + offs[i + 1..];
    assert (kept + offs[i..])[|kept|] == offs[i];
  }

  lemma ListDropped(kept: seq<nat>, offs: seq<nat>, i: nat, cs: LongClauses, red: bool)
    requires i < |offs| && ListOf(kept + offs[i..], cs, red)
    ensures ListOf(kept + offs[i + 1..], cs - {offs[i]}, red)
  {
    var a, b := kept + offs[i..], kept + offs[i + 1..];
    assert a[|kept|] == offs[i];
    assert forall k :: 0 <= k < |b| ==> b[k] == a[if k < |kept| then k else k + 1];
  }

  lemma ListReplaced(kept: seq<nat>, offs: seq<nat>, i: nat, cs: LongClauses, cs': LongClauses, red: bool, off': nat)
    requires i < |offs| && ListOf(kept + offs[i..], cs, red) && offs[i] in cs && off' in cs' && cs'[off'].red == red
    requires if off' == offs[i] then cs' == cs else off' !in cs && cs' == cs[off' := cs'[off']] - {offs[i]}
    ensures ListOf(kept + [off'] + offs[i + 1..], cs', red)
  {
    var a, b := kept + offs[i..], kept + [off'] + offs[i + 1..];
    assert a[|kept|] == offs[i];
    assert forall k :: 0 <= k < |b| ==> b[k] == if k == |kept| then off' else a[k];
  }

  // ----- formulas under change -----

  lemma SameRefl(f: Formula)
    ensures SameModels(f, f)
  {
  }

  lemma SameTrans(f: Formula, g: Formula, h: Formula)
    requires SameModels(f, g) && SameModels(g, h)
    ensures SameModels(f, h)
  {
  }

  lemma BinIn(ws: WatchLists, l: Lit, w: Watched)
    requires w in W(ws, l) && w.Bin?
    ensures {l, w.lit2} in BinClauses(ws, w.red)
  {
    assert w == Bin(w.lit2, w.red);
  }

  lemma ClauseEntailed(f: Formula, c: Clause)
    requires c in f
    ensures Entails(f, c)
  {
  }

  lemma EitherOrder(f: Formula, a: Lit, b: Lit)
    requires Entails(f, {a, b})
    ensures Leads(f, b.Neg(), a)
  {
    assert b.Neg().Neg() == b;
    assert {b, a} == {a, b};
  }

  lemma BinLeads(ws: WatchLists, cs: LongClauses, units: seq<Lit>, l: Lit, w: Watched)
    requires w in W(ws, l) && w.Bin? && BinsOk(ws)
    ensures Leads(WholeDb(ws, cs, units), w.lit2.Neg(), l) && w.lit2.Neg() != l
  {
    BinIn(ws, l, w);
    assert {l, w.lit2} in WholeDb(ws, cs, units);
    ClauseEntailed(WholeDb(ws, cs, units), {l, w.lit2});
    EitherOrder(WholeDb(ws, cs, units), l, w.lit2);
  }

  /** Without the clause at `off` the irredundant formula says the same. */
  ghost predicate Redundant(ws: WatchLists, cs: LongClauses, units: seq<Lit>, off: nat)
    requires off in cs
  {
    cs[off].red || Entails(IrredDb(ws, cs - {off}, units), Lits(cs[off].lits))
  }

  lemma Detached(ws: WatchLists, cs: LongClauses, units: seq<Lit>, off: nat)
    requires off in cs && Redundant(ws, cs, units, off) && Implied(IrredDb(ws, cs, units), WholeDb(ws, cs, units))
    ensures SameModels(IrredDb(ws, cs, units), IrredDb(ws, cs - {off}, units))
    ensures Implied(IrredDb(ws, cs - {off}, units), WholeDb(ws, cs - {off}, units))
      && Implied(WholeDb(ws, cs - {off}, units), WholeDb(ws, cs, units))
  {
    var f, f', g, g' :=
      IrredDb(ws, cs, units), IrredDb(ws, cs - {off}, units), WholeDb(ws, cs, units), WholeDb(ws, cs - {off}, units);
    var c := Lits(cs[off].lits);
    forall red
      ensures Longs(cs - {off}, red) <= Longs(cs, red)
        && Longs(cs, red) <= Longs(cs - {off}, red) + (if red == cs[off].red then iset{c} else iset{})
    {
      forall o: nat | o in cs && cs[o].red == red && o != off
        ensures Lits(cs[o].lits) in Longs(cs - {off}, red)
      {
        assert o in cs - {off};
      }
    }
    forall m: Model | FormulaTrue(m, f')
      ensures FormulaTrue(m, f)
    {
      if !cs[off].red {
        assert ClauseTrue(m, c);
      }
    }
    ImpliedPart(f, f');
    ImpliedPart(g, g');
    ImpliedPart(g', f');
    ImpliedTrans(f', f, g);
    ImpliedTrans(f', g, g');
    ImpliedTrans(g', f', f);
    ImpliedTrans(g', f, g);
  }

  lemma SubsumedRedundant(ws: WatchLists, cs: LongClauses, units: seq<Lit>, off: nat)
    requires off in cs && (!cs[off].red ==> Entails(BinClauses(ws, false), Lits(cs[off].lits)))
    ensures Redundant(ws, cs, units, off)
  {
    hide Entails;
    if !cs[off].red {
      ImpliedPart(IrredDb(ws, cs - {off}, units), BinClauses(ws, false));
      EntailsMore(IrredDb(ws, cs - {off}, units), BinClauses(ws, false), Lits(cs[off].lits));
    }
  }

  /** With a part of it in the formula, a clause may go. */
  lemma ShrunkRedundant(ws: WatchLists, cs: LongClauses, units: seq<Lit>, off: nat, c: Clause)
    requires off in cs && c < Lits(cs[off].lits) && (!cs[off].red ==> c in IrredDb(ws, cs, units))
    ensures Redundant(ws, cs, units, off)
  {
    if !cs[off].red {
      var f' := IrredDb(ws, cs - {off}, units);
      if c in Longs(cs, false) {
        var o: nat :| o in cs && !cs[o].red && c == Lits(cs[o].lits);
        assert o in cs - {off};
      }
      assert c in f';
      forall m: Model | FormulaTrue(m, f')
        ensures ClauseTrue(m, Lits(cs[off].lits))
      {
        assert ClauseTrue(m, c);
      }
    }
  }

  lemma StoredEntailed(ws: WatchLists, cs: LongClauses, units: seq<Lit>, off: nat)
    requires off in cs
    ensures Entails(WholeDb(ws, cs, units), Lits(cs[off].lits))
  {
    assert Lits(cs[off].lits) in Longs(cs, cs[off].red);
    ClauseEntailed(WholeDb(ws, cs, units), Lits(cs[off].lits));
  }

  /** An entailed clause has come in, as an irredundant or as a redundant one. */
  lemma Added(irred: Formula, whole: Formula, irred': Formula, whole': Formula, c: Clause)
    requires Implied(irred, whole) && irred <= whole && Entails(whole, c)
    requires irred <= irred' <= irred + iset{c} && whole' == whole + iset{c} && irred' <= whole'
    ensures SameModels(irred, irred') && Implied(irred', whole') && Implied(whole', whole)
  {
    AddedImplied(whole, c);
    ImpliedPart(whole', irred');
    ImpliedPart(irred', irred);
    ImpliedTrans(irred, whole, whole');
    ImpliedTrans(irred, whole', irred');
    ImpliedTrans(irred', irred, whole);
    ImpliedTrans(irred', whole, whole');
  }

  lemma UnitAdded(units: seq<Lit>, c: seq<Lit>)
    requires |c| == 1
    ensures Units(units + c) == Units(units) + iset{Lits(c)}
  {
    assert Lits(c) == {c[0]};
    forall d
      ensures d in Units(units + c) <==> d in Units(units) || d == Lits(c)
    {
      if d in Units(units) {
        var l :| l in units && d == {l};
        assert l in units + c;
      }
      if d == Lits(c) {
        assert c[0] in units + c;
      }
    }
  }

  lemma LongAddedDb(cs: LongClauses, n: nat, c: seq<Lit>, red: bool)
    requires LongsValid(cs, n) && |c| >= 3 && DistinctVarsOf(c)
    ensures LongsValid(cs[n := LongClause(c, red)], n + 1) && n !in cs
    ensures forall r ::
      Longs(cs[n := LongClause(c, red)], r) == Longs(cs, r) + if r == red then iset{Lits(c)} else iset{}
  {
    var cs' := cs[n := LongClause(c, red)];
    forall r, d: Clause
      ensures d in Longs(cs', r) <==> d in Longs(cs, r) || (r == red && d == Lits(c))
    {
      if d in Longs(cs, r) {
        var o: nat :| o in cs && cs[o].red == r && d == Lits(cs[o].lits);
        assert o in cs' && cs'[o] == cs[o];
      }
      if r == red && d == Lits(c) {
        assert n in cs' && cs'[n].red == r;
      }
    }
  }

  lemma Exchanged(s: seq<Watched>, i: nat, x: Watched, w: Watched)
    requires i < |s|
    ensures Cnt(s[i := x], w) == Cnt(s, w) - (if s[i] == w then 1 else 0) + if x == w then 1 else 0
    ensures w in s[i := x] ==> w in s || w == x
    ensures w in s && w != s[i] ==> w in s[i := x]
  {
    assert s == s[..i] + [s[i]] + s[i + 1..];
    assert s[i := x] == s[..i] + [x] + s[i + 1..];
  }

  lemma Promoted(ws: WatchLists, a: Lit, i: nat, b: Lit, k: nat)
    requires BinsOk(ws) && a.v != b.v
    requires i < |W(ws, a)| && W(ws, a)[i] == Bin(b, true) && k < |W(ws, b)| && W(ws, b)[k] == Bin(a, true)
    ensures var ws1 := ws[a := W(ws, a)[i := Bin(b, false)]]; var ws2 := ws1[b := W(ws1, b)[k := Bin(a, false)]];
      && BinsOk(ws2) && BinClauses(ws, false) + iset{{a, b}} == BinClauses(ws2, false)
      && BinClauses(ws2, true) <= BinClauses(ws, true) && BinClauses(ws, true) <= BinClauses(ws2, true) + iset{{a, b}}
      && {a, b} in BinClauses(ws, true)
  {
    var ws1 := ws[a := W(ws, a)[i := Bin(b, false)]];
    var ws2 := ws1[b := W(ws1, b)[k := Bin(a, false)]];
    assert forall y: Lit {:trigger W(ws2, y)} ::
      W(ws2, y) == if y == a then W(ws, a)[i := Bin(b, false)] else if y == b then W(ws, b)[k := Bin(a, false)]
      else W(ws, y);
    PromotedOk(ws, ws2, a, i, b, k);
    PromotedClauses(ws, ws2, a, i, b, k);
  }

  lemma PromotedOk(ws: WatchLists, ws2: WatchLists, a: Lit, i: nat, b: Lit, k: nat)
    requires BinsOk(ws) && a.v != b.v
    requires i < |W(ws, a)| && W(ws, a)[i] == Bin(b, true) && k < |W(ws, b)| && W(ws, b)[k] == Bin(a, true)
    requires forall y: Lit {:trigger W(ws2, y)} ::
      W(ws2, y) == if y == a then W(ws, a)[i := Bin(b, false)] else if y == b then W(ws, b)[k := Bin(a, false)]
      else W(ws, y)
    ensures BinsOk(ws2)
  {
    hide Cnt;
    forall y: Lit, z: Lit, r: bool
      ensures Cnt(W(ws2, y), Bin(z, r)) == Cnt(W(ws2, z), Bin(y, r))
    {
      assert Cnt(W(ws, y), Bin(z, r)) == Cnt(W(ws, z), Bin(y, r));
      Exchanged(W(ws, a), i, Bin(b, false), Bin(z, r));
      Exchanged(W(ws, b), k, Bin(a, false), Bin(z, r));
      Exchanged(W(ws, a), i, Bin(b, false), Bin(y, r));
      Exchanged(W(ws, b), k, Bin(a, false), Bin(y, r));
    }
    forall y: Lit, w | w in W(ws2, y) && w.Bin?
      ensures w.lit2.v != y.v
    {
      Exchanged(W(ws, a), i, Bin(b, false), w);
      Exchanged(W(ws, b), k, Bin(a, false), w);
      assert w in W(ws, y) || (y == a && w.lit2 == b) || (y == b && w.lit2 == a);
    }
  }

  lemma PromotedClauses(ws: WatchLists, ws2: WatchLists, a: Lit, i: nat, b: Lit, k: nat)
    requires i < |W(ws, a)| && W(ws, a)[i] == Bin(b, true) && k < |W(ws, b)| && W(ws, b)[k] == Bin(a, true) && a != b
    requires forall y: Lit {:trigger W(ws2, y)} ::
      W(ws2, y) == if y == a then W(ws, a)[i := Bin(b, false)] else if y == b then W(ws, b)[k := Bin(a, false)]
      else W(ws, y)
    ensures BinClauses(ws, false) + iset{{a, b}} == BinClauses(ws2, false)
    ensures BinClauses(ws2, true) <= BinClauses(ws, true)
      && BinClauses(ws, true) <= BinClauses(ws2, true) + iset{{a, b}}
    ensures {a, b} in BinClauses(ws, true)
  {
    hide Cnt;
    forall y: Lit, w: Watched
      ensures w in W(ws2, y) ==> w in W(ws, y) || (y == a && w == Bin(b, false)) || (y == b && w == Bin(a, false))
      ensures w in W(ws, y) ==> w in W(ws2, y) || (y == a && w == Bin(b, true)) || (y == b && w == Bin(a, true))
    {
      Exchanged(W(ws, a), i, Bin(b, false), w);
      Exchanged(W(ws, b), k, Bin(a, false), w);
    }
    assert W(ws2, a)[i] == Bin(b, false);
    assert Bin(b, false) in W(ws2, a);
    assert Bin(b, true) in W(ws, a);
    forall r, c: Clause
      ensures c in BinClauses(ws2, r) ==> c in BinClauses(ws, r) || (!r && c == {a, b})
      ensures c in BinClauses(ws, r) ==> c in BinClauses(ws2, r) || (r && c == {a, b})
    {
      if c in BinClauses(ws2, r) {
        var y: Lit, z: Lit :| Bin(z, r) in W(ws2, y) && c == {y, z};
        assert Bin(z, r) in W(ws, y) || (y == a && z == b && !r) || (y == b && z == a && !r);
      }
      if c in BinClauses(ws, r) {
        var y: Lit, z: Lit :| Bin(z, r) in W(ws, y) && c == {y, z};
        assert Bin(z, r) in W(ws2, y) || (y == a && z == b && r) || (y == b && z == a && r);
      }
    }
  }

  lemma PromotedKeeps(ws: WatchLists, ws2: WatchLists, cs: LongClauses, units: seq<Lit>, cache: Cache, a: Lit, b: Lit)
    requires BinClauses(ws, false) + iset{{a, b}} == BinClauses(ws2, false) && {a, b} in BinClauses(ws, true)
    requires BinClauses(ws2, true) <= BinClauses(ws, true)
      && BinClauses(ws, true) <= BinClauses(ws2, true) + iset{{a, b}}
    requires Implied(IrredDb(ws, cs, units), WholeDb(ws, cs, units)) && CacheOk(cache, ws, WholeDb(ws, cs, units))
    ensures SameModels(IrredDb(ws, cs, units), IrredDb(ws2, cs, units))
      && Implied(IrredDb(ws2, cs, units), WholeDb(ws2, cs, units))
    ensures CacheOk(cache, ws2, WholeDb(ws2, cs, units))
  {
    hide CacheOk, Implied, Entails, BinClauses;
    var whole := WholeDb(ws, cs, units);
    assert {a, b} in whole;
    ClauseEntailed(whole, {a, b});
    assert WholeDb(ws2, cs, units) == whole + iset{{a, b}};
    Added(IrredDb(ws, cs, units), whole, IrredDb(ws2, cs, units), WholeDb(ws2, cs, units), {a, b});
    CacheKept(cache, ws, whole, ws2, WholeDb(ws2, cs, units));
  }

  // ----- the literals kept -----

  lemma TwoLits(c: seq<Lit>)
    requires |c| == 2
    ensures Lits(c) == {c[0], c[1]}
  {
  }

  lemma FirstTwo(c: seq<Lit>)
    requires DistinctVarsOf(c) && |c| >= 2
    ensures c[0].v != c[1].v
  {
  }

  lemma LongEnough(cs: LongClauses, n: nat, off: nat)
    requires LongsValid(cs, n) && off in cs
    ensures |cs[off].lits| >= 3 && DistinctVarsOf(cs[off].lits)
  {
  }

  lemma NotYet(cl: seq<Lit>, k: nat)
    requires DistinctVarsOf(cl) && k < |cl|
    ensures cl[k] !in Lits(cl[..k])
  {
    forall j | 0 <= j < k
      ensures cl[..k][j] != cl[k]
    {
      assert cl[j].v != cl[k].v;
    }
  }

  lemma KeptDistinct(cl: seq<Lit>, k: nat, lits: seq<Lit>)
    requires DistinctVarsOf(cl) && k < |cl| && DistinctVarsOf(lits) && forall l :: l in lits ==> l in cl[..k]
    ensures DistinctVarsOf(lits + [cl[k]]) && cl[k] !in lits
  {
    forall j | 0 <= j < |lits|
      ensures lits[j].v != cl[k].v
    {
      assert lits[j] in cl[..k];
    }
  }

  lemma ShrunkLess(cl: seq<Lit>, lits: seq<Lit>)
    requires DistinctVarsOf(cl) && DistinctVarsOf(lits) && Lits(lits) <= Lits(cl) && |lits| < |cl|
    ensures Lits(lits) < Lits(cl)
  {
    DistinctSize(cl);
    DistinctSize(lits);
    assert Lits(lits) != Lits(cl);
  }
}
