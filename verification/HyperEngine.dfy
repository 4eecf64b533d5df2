/**
 Breadth-first propagation at decision level 1 with ancestor information: hyper-binary resolution and
 on-the-fly transitive reduction. (cryptoms/hyperengine.cpp)
 */
module HyperEngine {
  import opened Literals
  import opened Watches
  import opened Forest
  import opened HyperTheory
  import opened Trail
  import opened UnitClosure
  import opened WatchTheory
  import opened BinLists

  datatype PropResult = Fail | Nothing | Something

  // ----- the trail -----

  /** What lies before `rootAt` was set at level 0, the rest at level 1. */
  lemma TrueOnTrail(trail: seq<Lit>, rootAt: nat, assigns: Assigns, level: map<nat, nat>, n: nat, l: Lit)
    requires TrailOk(trail, [rootAt], assigns, level, n) && Value(assigns, l) == True
    ensures l in trail && l.v in level && rootAt <= |trail|
    ensures level[l.v] == 0 ==> l in trail[..rootAt]
    ensures level[l.v] != 0 ==> level[l.v] == 1 && l in trail[rootAt..]
  {
    assert [rootAt][0] <= |trail|;
    var i := OnTrail(trail, [rootAt], assigns, level, n, l);
    assert [rootAt][0] == rootAt;
    if i < rootAt {
      assert trail[..rootAt][i] == l;
    } else {
      assert trail[rootAt..][i - rootAt] == l;
    }
  }

  // ----- what follows by the unit rule -----

  /** Everything on `trail` follows from the literals of `trail0` by the unit rule. */
  ghost predicate Derived(db: Formula, trail0: seq<Lit>, trail: seq<Lit>) {
    Set(trail) <= Closure(db, Set(trail0))
  }

  /** A clause has `l` and beside it only literals negated on the trail. */
  ghost predicate Forced(db: Formula, trail: seq<Lit>, l: Lit) {
    exists c {:trigger c in db} :: c in db && l in c && OthersNegated(c, l, Set(trail))
  }

  lemma DerivedRefl(db: Formula, trail: seq<Lit>)
    ensures Derived(db, trail, trail)
  {
    ClosureIsClosed(db, Set(trail));
  }

  lemma DerivedNext(db: Formula, trail: seq<Lit>, l: Lit)
    requires Forced(db, trail, l)
    ensures Derived(db, trail, trail + [l])
  {
    var c :| c in db && l in c && OthersNegated(c, l, Set(trail));
    ClosureIsClosed(db, Set(trail));
    assert OthersNegated(c, l, Closure(db, Set(trail)));
    UnitStep(db, Set(trail), c, l);
  }

  lemma PairForces(db: Formula, trail: seq<Lit>, p: Lit, l: Lit)
    requires {p.Neg(), l} in db && p in trail
    ensures Forced(db, trail, l)
  {
    assert p.Neg().Neg() == p && OthersNegated({p.Neg(), l}, l, Set(trail));
  }

  lemma DerivedTrans(db: Formula, trail0: seq<Lit>, trail1: seq<Lit>, trail2: seq<Lit>)
    requires Derived(db, trail0, trail1) && Derived(db, trail1, trail2)
    ensures Derived(db, trail0, trail2)
  {
    var s := Closure(db, Set(trail0));
    ClosureIsClosed(db, Set(trail0));
    forall l | l in Set(trail2)
      ensures l in s
    {
      assert InEveryClosed(db, Set(trail1), l) && ClosedAbove(db, Set(trail1), s);
    }
  }

  // ----- counting threads -----

  /** How many threads, started at `starts` and now standing at path length `lens`, have passed through `x`. */
  ghost function Passed(ps: Paths, starts: seq<Lit>, lens: seq<nat>, x: Lit): nat
    requires |starts| == |lens| && x in ps && forall s :: s in starts ==> s in ps
  {
    if starts == [] then 0
    else (if OnPath(ps, x, starts[0]) && lens[0] < |ps[x]| then 1 else 0) + Passed(ps, starts[1..], lens[1..], x)
  }

  ghost function Sum(lens: seq<nat>): nat {
    if lens == [] then 0 else lens[0] + Sum(lens[1..])
  }

  lemma {:induction false} PassedBounds(ps: Paths, starts: seq<Lit>, lens: seq<nat>, x: Lit)
    requires |starts| == |lens| && x in ps && forall s :: s in starts ==> s in ps
    ensures Passed(ps, starts, lens, x) <= |starts|
    ensures Passed(ps, starts, lens, x) == |starts|
       <==> forall t :: 0 <= t < |starts| ==> OnPath(ps, x, starts[t]) && lens[t] < |ps[x]|
  {
    if starts != [] {
      PassedBounds(ps, starts[1..], lens[1..], x);
      assert forall t :: 1 <= t < |starts| ==> starts[t] == starts[1..][t - 1] && lens[t] == lens[1..][t - 1];
    }
  }

  /** A thread that moves one step up has passed through the literal it stood at, and nothing else changes. */
  lemma {:induction false} PassedStep(ps: Paths, starts: seq<Lit>, lens: seq<nat>, t: nat, y: Lit, x: Lit)
    requires |starts| == |lens| && x in ps && y in ps && forall s :: s in starts ==> s in ps
    requires t < |starts| && OnPath(ps, y, starts[t]) && lens[t] == |ps[y]|
    requires OnPath(ps, x, starts[t]) && |ps[x]| == |ps[y]| ==> x == y
    ensures Passed(ps, starts, lens[t := (lens[t] - 1) as nat], x) == Passed(ps, starts, lens, x) + if x == y then 1
      else 0
    ensures Sum(lens[t := (lens[t] - 1) as nat]) + 1 == Sum(lens)
  {
    var lens' := lens[t := (lens[t] - 1) as nat];
    if t == 0 {
      assert lens'[1..] == lens[1..];
    } else {
      PassedStep(ps, starts[1..], lens[1..], t - 1, y, x);
      assert lens'[1..] == lens[1..][t - 1 := lens[t] - 1];
    }
  }

  lemma {:induction false} PassedNone(ps: Paths, starts: seq<Lit>, lens: seq<nat>, x: Lit)
    requires |starts| == |lens| && x in ps && forall s :: s in starts ==> s in ps
    requires forall t :: 0 <= t < |starts| ==> lens[t] == |ps[starts[t]]|
    ensures Passed(ps, starts, lens, x) == 0
  {
    if starts != [] {
      assert lens[0] == |ps[starts[0]]|;
      assert forall t :: 0 <= t < |starts[1..]| ==> lens[1..][t] == lens[t + 1] && starts[1..][t] == starts[t + 1];
      PassedNone(ps, starts[1..], lens[1..], x);
    }
  }

  function Seen(seen: map<Lit, nat>, l: Lit): nat {
    if l in seen then seen[l] else 0
  }

  /** `x` lies on the path to every start, and no deeper literal does. */
  ghost predicate DeepestIn(ps: Paths, starts: seq<Lit>, x: Lit) {
    && x in ps && (forall s :: s in starts ==> s in ps)
    && (forall t :: 0 <= t < |starts| ==> OnPath(ps, x, starts[t]))
    && forall y :: y in ps && (forall t :: 0 <= t < |starts| ==> OnPath(ps, y, starts[t])) ==> |ps[y]| <= |ps[x]|
  }

  /** The same for a set of literals: `x` is above all of them, and no deeper literal is. */
  ghost predicate DeepestAbove(ps: Paths, ls: set<Lit>, x: Lit) {
    && x in ps && (forall l {:trigger l in ls} :: l in ls ==> l in ps && OnPath(ps, x, l))
    && forall y {:trigger y in ps} ::
      y in ps && (forall l {:trigger l in ls} :: l in ls ==> l in ps && OnPath(ps, y, l)) ==> |ps[y]| <= |ps[x]|
  }

  lemma DeepestSame(ps: Paths, starts: seq<Lit>, ls: set<Lit>, x: Lit)
    requires DeepestIn(ps, starts, x) && Lits(starts) == ls
    ensures DeepestAbove(ps, ls, x)
  {
    hide OnPath;
    forall l
      ensures l in ls <==> l in starts
    {
    }
    forall l | l in ls
      ensures l in ps && OnPath(ps, x, l)
    {
      var t :| 0 <= t < |starts| && starts[t] == l;
    }
    forall y | y in ps && forall l {:trigger l in ls} :: l in ls ==> l in ps && OnPath(ps, y, l)
      ensures |ps[y]| <= |ps[x]|
    {
      forall t | 0 <= t < |starts|
        ensures OnPath(ps, y, starts[t])
      {
        assert starts[t] in ls;
      }
    }
  }

  /** The negations of the literals of a clause that have a level other than zero. */
  ghost function OpposedAt(level: map<nat, nat>, c: Clause): set<Lit> {
    set l | l in c && l.v in level && level[l.v] != 0 :: l.Neg()
  }

  /** Every literal with a non-zero count is on the list of those to clear. */
  ghost predicate SeenListed(seen: map<Lit, nat>, toClear: seq<Lit>) {
    forall l :: Seen(seen, l) > 0 ==> l in toClear
  }

  function Values(ats: seq<Option<Lit>>): (ls: seq<Lit>)
    requires forall a :: a in ats ==> a.Some?
    ensures |ls| == |ats| && forall t :: 0 <= t < |ats| ==> ls[t] == ats[t].value
  {
    seq(|ats|, t requires 0 <= t < |ats| => ats[t].value)
  }

  ghost predicate AllPastRoot(ats: seq<Option<Lit>>) {
    forall t :: 0 <= t < |ats| ==> ats[t].None?
  }

  ghost predicate ThreadsOk(ps: Paths, starts: seq<Lit>, lens: seq<nat>, ats: seq<Option<Lit>>) {
    && |starts| == |lens| == |ats|
    && (forall s :: s in starts ==> s in ps)
    && forall t {:trigger ats[t]} :: 0 <= t < |ats| ==>
      if ats[t].Some? then ats[t].value in ps && OnPath(ps, ats[t].value, starts[t]) && lens[t] == |ps[ats[t].value]|
      else lens[t] == 0
  }

  /** The literals of the forest are those set at level 1. */
  ghost predicate NodesAre(ps: Paths, ls: seq<Lit>) {
    forall l {:trigger l in ps} :: l in ps <==> l in ls
  }

  /** The recorded depths, which re-parenting leaves stale below the moved literal, are lower bounds. */
  ghost predicate DepthsOk(depth: map<nat, nat>, ps: Paths) {
    forall l {:trigger l in ps} :: l in ps ==> l.v in depth && depth[l.v] < |ps[l]|
  }

  /** What was true stays true. */
  ghost predicate ValuesKept(a: Assigns, a': Assigns) {
    forall l {:trigger Value(a', l)} :: Value(a, l) == True ==> Value(a', l) == True
  }

  /** The ancestor relation of `ps` is kept in `ps'`. */
  ghost predicate AncestorsGrow(ps: Paths, ps': Paths) {
    && (forall l {:trigger l in ps'} :: l in ps ==> l in ps')
    && forall a, l {:trigger OnPath(ps', a, l)} ::
      a in ps && l in ps && a in ps' && l in ps' && OnPath(ps, a, l) ==> OnPath(ps', a, l)
  }

  /**
   The climb from `from` reaches `look`: no literal on the way is `conflict`, and every step is of an
   acceptable kind and, under the depth trick, not recorded as shallower than `look`.
   */
  ghost predicate Climbs(rs: Edges, ps: Paths, depth: map<nat, nat>, useDepth: bool, conflict: Lit, from: Lit,
                         look: Lit, onlyIrred: bool)
    requires from in ps && look in ps
  {
    && OnPath(ps, look, from) && look != conflict
    && forall i {:trigger ps[from][i]} ::
      |ps[look]| <= i < |ps[from]| ==> HopOk(rs, depth, useDepth, conflict, ps[from][i], look, onlyIrred)
  }

  ghost predicate HopOk(rs: Edges, depth: map<nat, nat>, useDepth: bool, conflict: Lit, x: Lit, look: Lit,
                        onlyIrred: bool)
  {
    && x != conflict && x.v in rs && x.v in depth && look.v in depth
    && !(onlyIrred && rs[x.v].red) && !rs[x.v].notAdded
    && (useDepth ==> depth[look.v] <= depth[x.v])
  }

  /** The test behind transitive reduction: the clause (~look or conflict) is replaceable by the way through `from`. */
  ghost predicate Replaceable(rs: Edges, ps: Paths, depth: map<nat, nat>, useDepth: bool,
                              conflict: Lit, from: Lit, fromRed: bool, look: Lit, onlyIrred: bool)
    requires from in ps && look in ps
  {
    look != from && !(onlyIrred && fromRed) && Climbs(rs, ps, depth, useDepth, conflict, from, look, onlyIrred)
  }

  lemma ClimbsStep(root: Lit, rs: Edges, ps: Paths, depth: map<nat, nat>, useDepth: bool, conflict: Lit, from: Lit,
                   look: Lit, onlyIrred: bool)
    requires ForestOk(root, rs, ps) && from in ps && look in ps && from != look
    ensures NodeOk(root, rs, ps, from)
    ensures from == root ==> !Climbs(rs, ps, depth, useDepth, conflict, from, look, onlyIrred)
    ensures from != root ==>
      (Climbs(rs, ps, depth, useDepth, conflict, from, look, onlyIrred)
       <==> HopOk(rs, depth, useDepth, conflict, from, look, onlyIrred)
            && Climbs(rs, ps, depth, useDepth, conflict, rs[from.v].anc.value, look, onlyIrred))
  {
    assert NodeOk(root, rs, ps, from);
    assert NodeOk(root, rs, ps, look);
    var n := |ps[from]| - 1;
    assert ps[from][n] == from;
    if from == root {
      assert |ps[look]| >= 1;
    } else {
      var o := rs[from.v].anc.value;
      assert NodeOk(root, rs, ps, o);
      assert ps[from] == ps[o] + [from];
      assert OnPath(ps, look, from) <==> OnPath(ps, look, o);
      if Climbs(rs, ps, depth, useDepth, conflict, from, look, onlyIrred) {
        assert HopOk(rs, depth, useDepth, conflict, ps[from][n], look, onlyIrred);
        forall i | |ps[look]| <= i < |ps[o]|
          ensures HopOk(rs, depth, useDepth, conflict, ps[o][i], look, onlyIrred)
        {
          assert ps[o][i] == ps[from][i];
        }
      }
    }
  }

  // ----- what a scan does to the lists -----

  /** Clauses are permuted, and no list of a false literal but `np` is changed; none is in its binary part. */
  ghost predicate RearrangedTo(lists0: WatchLists, cls0: Clauses, a: Assigns, np: Lit, lists: WatchLists, cls: Clauses)
  {
    && SameBins(lists0, lists) && SameClauses(cls0, cls)
    && forall l {:trigger W(lists, l)} :: Value(a, l) == False && l != np ==> W(lists, l) == W(lists0, l)
  }

  lemma RearrangedRefl(lists: WatchLists, cls: Clauses, a: Assigns, np: Lit)
    ensures RearrangedTo(lists, cls, a, np, lists, cls)
  {
    SameBinsRefl(lists);
    SameClausesRefl(cls);
  }

  lemma RearrangedTrans(lists0: WatchLists, cls0: Clauses, a0: Assigns, lists1: WatchLists, cls1: Clauses, a1: Assigns,
                        np: Lit, lists2: WatchLists, cls2: Clauses)
    requires RearrangedTo(lists0, cls0, a0, np, lists1, cls1) && RearrangedTo(lists1, cls1, a1, np, lists2, cls2)
      && ValuesKept(a0, a1)
    ensures RearrangedTo(lists0, cls0, a0, np, lists2, cls2)
  {
    SameBinsTrans(lists0, lists1, lists2);
    SameClausesTrans(cls0, cls1, cls2);
    hide SameBins, SameClauses;
    forall l | Value(a0, l) == False && l != np
      ensures W(lists2, l) == W(lists0, l)
    {
      assert Value(a0, l.Neg()) == True ==> Value(a1, l.Neg()) == True;
    }
  }

  lemma ValuesKeptRefl(a: Assigns)
    ensures ValuesKept(a, a)
  {
  }

  /** The binary clauses of one kind in a list, with the literal they are met by. */
  ghost function BinsMet(p: Lit, ws: seq<Watched>, red: bool): seq<(Lit, Watched)> {
    if ws == [] then []
    else
      var w := ws[|ws| - 1];
      BinsMet(p, ws[..|ws| - 1], red) + if w.Bin? && w.red == red then [(p, w)] else []
  }

  /** Those of the lists of several literals, one list after the other. */
  ghost function TrailMet(ws: WatchLists, ls: seq<Lit>, red: bool): seq<(Lit, Watched)> {
    if ls == [] then []
    else
      var p := ls[|ls| - 1];
      TrailMet(ws, ls[..|ls| - 1], red) + BinsMet(p, W(ws, p.Neg()), red)
  }

  /** The clauses of a list have been met up to entry `k`, which is of the kind asked for. */
  ghost predicate MetUntil(p: Lit, ws: seq<Watched>, red: bool, met0: seq<(Lit, Watched)>, met: seq<(Lit, Watched)>,
                           k: nat)
  {
    k < |ws| && ws[k].Bin? && ws[k].red == red && met == met0 + BinsMet(p, ws[..k + 1], red)
  }

  ghost predicate BinsScanned(p: Lit, ws: seq<Watched>, red: bool, met0: seq<(Lit, Watched)>,
                              met: seq<(Lit, Watched)>) {
    met == met0 + BinsMet(p, ws, red)
  }

  ghost predicate ScanStopped(p: Lit, ws: seq<Watched>, red: bool, met0: seq<(Lit, Watched)>,
                              met: seq<(Lit, Watched)>) {
    exists k: nat :: MetUntil(p, ws, red, met0, met, k)
  }

  ghost predicate TrailScanned(ws: WatchLists, ls: seq<Lit>, red: bool, met0: seq<(Lit, Watched)>,
                               met: seq<(Lit, Watched)>) {
    met == met0 + TrailMet(ws, ls, red)
  }

  /** The lists of all of `ls`, and that of `p` up to some entry. */
  ghost predicate TrailStopped(ws: WatchLists, ls: seq<Lit>, p: Lit, red: bool, met0: seq<(Lit, Watched)>,
                               met: seq<(Lit, Watched)>) {
    ScanStopped(p, W(ws, p.Neg()), red, met0 + TrailMet(ws, ls, red), met)
  }

  lemma NothingScanned(p: Lit, ws: seq<Watched>, red: bool, met: seq<(Lit, Watched)>)
    ensures BinsScanned(p, ws[..0], red, met, met)
  {
  }

  lemma NoListScanned(ws: WatchLists, red: bool, met: seq<(Lit, Watched)>)
    ensures TrailScanned(ws, [], red, met, met)
  {
  }

  /** One more entry: met if it is of the kind, and nothing to do otherwise. */
  lemma ScanNext(p: Lit, ws: seq<Watched>, red: bool, met0: seq<(Lit, Watched)>, met: seq<(Lit, Watched)>, k: nat)
    requires k < |ws| && BinsScanned(p, ws[..k], red, met0, met)
    ensures if ws[k].Bin? && ws[k].red == red then
        BinsScanned(p, ws[..k + 1], red, met0, met + [(p, ws[k])])
        && ScanStopped(p, ws, red, met0, met + [(p, ws[k])])
      else BinsScanned(p, ws[..k + 1], red, met0, met)
  {
    assert ws[..k + 1][..k] == ws[..k];
    if ws[k].Bin? && ws[k].red == red {
      assert MetUntil(p, ws, red, met0, met + [(p, ws[k])], k);
    }
  }

  lemma TrailScanNext(ws: WatchLists, ls: seq<Lit>, p: Lit, red: bool, met0: seq<(Lit, Watched)>,
                      met1: seq<(Lit, Watched)>, met: seq<(Lit, Watched)>)
    requires TrailScanned(ws, ls, red, met0, met1)
    ensures BinsScanned(p, W(ws, p.Neg()), red, met1, met) ==>
      TrailScanned(ws, ls + [p], red, met0, met) && AllMet(Bins(W(ws, p.Neg())), red, p, met) && met1 <= met
    ensures ScanStopped(p, W(ws, p.Neg()), red, met1, met) ==> TrailStopped(ws, ls, p, red, met0, met) && met1 <= met
  {
    hide BinsMet, TrailMet, AllMet;
    TrailMetNext(ws, ls, p, red);
    ListMet(p, W(ws, p.Neg()), red, met1);
  }

  ghost predicate AllMet(bs: seq<Watched>, red: bool, p: Lit, met: seq<(Lit, Watched)>) {
    forall w {:trigger w in bs} :: w in bs && w.Bin? && w.red == red ==> (p, w) in met
  }

  lemma {:induction false} ListMet(p: Lit, ws: seq<Watched>, red: bool, met0: seq<(Lit, Watched)>)
    ensures AllMet(Bins(ws), red, p, met0 + BinsMet(p, ws, red))
  {
    forall w | w in Bins(ws) && w.Bin? && w.red == red
      ensures (p, w) in BinsMet(p, ws, red)
    {
      InBins(ws, w);
      OneMet(p, ws, red, w);
    }
  }

  lemma {:induction false} OneMet(p: Lit, ws: seq<Watched>, red: bool, w: Watched)
    requires w in ws && w.Bin? && w.red == red
    ensures (p, w) in BinsMet(p, ws, red)
  {
    var n := |ws| - 1;
    if w != ws[n] {
      assert w in ws[..n];
      OneMet(p, ws[..n], red, w);
    }
  }

  lemma MetLater(bs: seq<Watched>, red: bool, p: Lit, met: seq<(Lit, Watched)>, met': seq<(Lit, Watched)>)
    requires AllMet(bs, red, p, met) && met <= met'
    ensures AllMet(bs, red, p, met')
  {
    forall w | w in bs && w.Bin? && w.red == red
      ensures (p, w) in met'
    {
      assert (p, w) in met;
      var i :| 0 <= i < |met| && met[i] == (p, w);
      assert met'[i] == met[i];
    }
  }

  lemma TrailMetNext(ws: WatchLists, ls: seq<Lit>, p: Lit, red: bool)
    ensures TrailMet(ws, ls + [p], red) == TrailMet(ws, ls, red) + BinsMet(p, W(ws, p.Neg()), red)
  {
    assert (ls + [p])[..|ls|] == ls;
  }

  class HyperEngine {
    const nVars: nat
    var assigns: Assigns
    var level: map<nat, nat>
    var trail: seq<Lit>
    var rootAt: nat
    var qhead: nat
    var watches: WatchLists
    var cls: Clauses
    var reason: Edges
    var depth: map<nat, nat>
    var uselessBin: set<BinClause>
    var needToAddBinClause: set<BinClause>
    var currAncestors: seq<Option<Lit>>
    var seen: map<Lit, nat>
    var toClear: seq<Lit>
    var useDepthTrick: bool
    var performTransitiveReduction: bool
    var failBinLit: Lit
    var timedOutPropagateFull: bool
    ghost var paths: Paths
    /** The watch lists; while one of them is being compacted, with the hole in it closed. */
    ghost var lists: WatchLists
    /** The binary clauses met in this pass, in order, each with the literal it was met by. */
    ghost var met: seq<(Lit, Watched)>

    ghost function Root(): Lit
      reads `rootAt, `trail
      requires rootAt < |trail|
    {
      trail[rootAt]
    }

    /** Long clauses and the facts of level 0: what a discarded binary clause is never part of. */
    ghost function Rest(): Formula
      reads `rootAt, `trail, `cls
      requires rootAt < |trail|
    {
      LongClauses(cls) + Units(trail[..rootAt])
    }

    /** The clauses the solver holds during the run; no step changes it. */
    ghost function Db(): Formula
      reads `rootAt, `trail, `cls, `lists
      requires rootAt < |trail|
    {
      DbOf(lists, Rest())
    }

    ghost predicate TrailValid()
      reads `rootAt, `trail, `assigns, `level
    {
      rootAt < |trail| && TrailOk(trail, [rootAt], assigns, level, nVars)
    }

    ghost predicate WatchesValid()
      reads `cls, `lists
    {
      ClausesOk(cls) && TwoWatched(lists, cls) && LitsBelow(lists, cls, nVars) && Symmetric(lists)
        && BlockedOk(lists, cls)
    }

    /** The propagated literals form a forest under the decision, with a recorded depth that never overstates. */
    ghost predicate ForestValid()
      reads `rootAt, `trail, `reason, `paths, `depth
      requires rootAt < |trail|
    {
      && ForestOk(Root(), reason, paths)
      && NodesAre(paths, trail[rootAt..])
      && DepthsOk(depth, paths)
    }

    /**
     Every edge is justified, every clause to be added follows and can be attached at level 0, every clause to be
     removed is bypassed and attached.
     */
    ghost predicate ClausesValid()
      reads `rootAt, `trail, `cls, `lists, `reason, `paths, `needToAddBinClause, `uselessBin
      requires rootAt < |trail|
    {
      && RunOk(lists, Rest(), needToAddBinClause, uselessBin, Root(), reason, paths)
      && AllListed(lists, uselessBin) && AllAttachable(needToAddBinClause, trail[..rootAt], nVars)
    }

    /** The watch promise for the literals falsified at trail positions below `q`. */
    ghost predicate Promise(q: nat)
      reads `trail, `assigns, `level, `cls, `lists
    {
      Good(lists, cls, trail, assigns, level, q, 2)
    }

    ghost predicate ScratchClean()
      reads `toClear, `seen
    {
      toClear == [] && forall l :: Seen(seen, l) == 0
    }

    ghost predicate Valid()
      reads `rootAt, `trail, `assigns, `level, `cls, `lists, `reason, `paths, `depth, `needToAddBinClause, `uselessBin,
        `toClear, `seen
    {
      TrailValid() && WatchesValid() && ForestValid() && ClausesValid() && ScratchClean()
    }

    lemma LevelOneInForest(l: Lit)
      requires TrailValid() && ForestValid() && Value(assigns, l) == True && level[l.v] != 0
      ensures l in paths
    {
      TrueOnTrail(trail, rootAt, assigns, level, nVars, l);
    }

    lemma LevelZeroHolds(l: Lit, m: Model)
      requires TrailValid() && Value(assigns, l) == True && level[l.v] == 0
      requires FormulaTrue(m, Units(trail[..rootAt]))
      ensures LitTrue(m, l)
    {
      TrueOnTrail(trail, rootAt, assigns, level, nVars, l);
      assert {l} in Units(trail[..rootAt]);
      assert ClauseTrue(m, {l});
    }

    /**
     The deepest literal that lies on the path to every literal of `currAncestors`: one thread per literal
     climbs towards the root, and the first literal passed by all of them is returned.
     */
    method DeepestCommonAncestor() returns (found: Lit)
      requires rootAt < |trail| && ForestValid() && ScratchClean()
      requires currAncestors != []
      requires forall a :: a in currAncestors ==> a.Some? && a.value in paths
      modifies this`currAncestors, this`seen, this`toClear
      ensures Deepest(Values(old(currAncestors)), found)
      ensures ScratchClean()
    {
      ghost var starts := Values(currAncestors);
      ghost var ps := paths;
      ghost var lens: seq<nat> := seq(|starts|, i requires 0 <= i < |starts| && starts[i] in ps => |ps[starts[i]]|);
      CountsInitially(starts, lens);
      var foundLit: Option<Lit> := None;
      while foundLit == None
        invariant |currAncestors| == |starts|
        invariant SeenListed(seen, toClear)
        invariant foundLit == None ==> ThreadsOk(paths, starts, lens, currAncestors) && CountsOk(starts, lens)
        invariant foundLit.Some? ==> Deepest(starts, foundLit.value)
        decreases if foundLit == None then 1 else 0, Sum(lens)
      {
        foundLit, lens := ClimbOnce(starts, lens);
      }
      found := foundLit.value;
      ClearSeen();
    }

    /** One step of every thread, or as many as it takes for the first literal to be passed by all. */
    method ClimbOnce(ghost starts: seq<Lit>, ghost lens0: seq<nat>)
      returns (foundLit: Option<Lit>, ghost lens: seq<nat>)
      requires rootAt < |trail| && ForestValid()
      requires ThreadsOk(paths, starts, lens0, currAncestors) && CountsOk(starts, lens0)
      requires SeenListed(seen, toClear)
      modifies this`currAncestors, this`seen, this`toClear
      ensures |currAncestors| == |starts|
      ensures SeenListed(seen, toClear)
      ensures foundLit == None ==> ThreadsOk(paths, starts, lens, currAncestors) && CountsOk(starts, lens)
      ensures foundLit == None ==> Sum(lens) < Sum(lens0)
      ensures foundLit.Some? ==> Deepest(starts, foundLit.value)
    {
      foundLit := None;
      lens := lens0;
      var numUndef := 0;
      var it := 0;
      while it < |currAncestors|
        invariant 0 <= it <= |currAncestors|
        invariant ThreadsOk(paths, starts, lens, currAncestors) && CountsOk(starts, lens)
        invariant SeenListed(seen, toClear)
        invariant 0 <= numUndef <= it && Sum(lens) + (it - numUndef) == Sum(lens0)
        invariant numUndef == it ==> AllPastRoot(currAncestors[..it])
        invariant numUndef == |currAncestors| ==> it == 0
      {
        if currAncestors[it].None? {
          numUndef := numUndef + 1;
          if numUndef == |currAncestors| {
            // every thread is past the root, so all of them have passed through it
            AllPassedRoot(starts, lens, currAncestors);
            assert false;
          }
        } else {
          var all;
          all, lens := PassThrough(it, starts, lens);
          if all {
            return currAncestors[it], lens;
          }
        }
        it := it + 1;
      }
    }

    /** Thread `it` passes through the literal it stands at, and unless it is the last to do so moves to its reason. */
    method PassThrough(it: nat, ghost starts: seq<Lit>, ghost lens0: seq<nat>) returns (all: bool, ghost lens: seq<nat>)
      requires rootAt < |trail| && ForestValid()
      requires ThreadsOk(paths, starts, lens0, currAncestors) && CountsOk(starts, lens0)
      requires SeenListed(seen, toClear)
      requires it < |currAncestors| && currAncestors[it].Some?
      modifies this`currAncestors, this`seen, this`toClear
      ensures |currAncestors| == |starts| == |lens| && SeenListed(seen, toClear)
      ensures Seen(seen, old(currAncestors[it].value)) == old(Seen(seen, currAncestors[it].value)) + 1 <= |starts|
      ensures all ==> currAncestors == old(currAncestors) && Deepest(starts, currAncestors[it].value)
      ensures !all ==>
        ThreadsOk(paths, starts, lens, currAncestors) && CountsOk(starts, lens) && Sum(lens) + 1 == Sum(lens0)
    {
      hide ForestOk, NodesAre, DepthsOk, Deepest, Passed, OnPath, Sum;
      lens := lens0;
      var x := currAncestors[it].value;
      StepUp(starts, lens, currAncestors, it);
      CountersFit(starts, lens, x);
      seen := seen[x := Seen(seen, x) + 1];
      if seen[x] == 1 {
        toClear := toClear + [x];
      }
      all := seen[x] == |currAncestors|;
      if all {
        FirstIsDeepest(starts, lens, currAncestors, it, x);
      } else {
        lens := lens[it := lens[it] - 1];
        currAncestors := currAncestors[it := reason[x.v].anc];
      }
    }

    method ClearSeen()
      requires SeenListed(seen, toClear)
      modifies this`seen, this`toClear
      ensures ScratchClean()
    {
      for k := 0 to |toClear|
        invariant toClear == old(toClear)
        invariant SeenListed(seen, toClear[k..])
      {
        ghost var before := seen;
        seen := seen[toClear[k] := 0];
        forall l | Seen(seen, l) > 0
          ensures l in toClear[k + 1..]
        {
          assert Seen(before, l) > 0;
          var i :| k <= i < |toClear| && toClear[i] == l;
          assert toClear[k + 1..][i - k - 1] == l;
        }
      }
      toClear := [];
    }

    /** `seen` counts, for every literal of the forest, the threads that have passed through it: not all yet. */
    ghost predicate CountsOk(starts: seq<Lit>, lens: seq<nat>)
      reads `paths, `seen
    {
      && 0 < |starts| == |lens| && (forall s :: s in starts ==> s in paths)
      && forall l {:trigger Seen(seen, l)} {:trigger Passed(paths, starts, lens, l)} :: l in paths ==>
           Seen(seen, l) == Passed(paths, starts, lens, l) < |starts|
    }

    /**
     A counter is raised to the number of threads at most, so one of 16 bits raised in its place has the same value
     as long as there are fewer than 65536 threads.
     */
    lemma CountersFit(starts: seq<Lit>, lens: seq<nat>, l: Lit)
      requires CountsOk(starts, lens) && l in paths
      ensures Seen(seen, l) + 1 <= |starts|
      ensures |starts| < 0x1_0000 ==> (Seen(seen, l) + 1) % 0x1_0000 == Seen(seen, l) + 1
    {
      assert Seen(seen, l) == Passed(paths, starts, lens, l) < |starts|;
    }

    lemma CountsInitially(starts: seq<Lit>, lens: seq<nat>)
      requires rootAt < |trail| && ForestValid() && ScratchClean()
      requires starts != [] && |starts| == |lens| && forall s :: s in starts ==> s in paths
      requires forall t :: 0 <= t < |starts| ==> lens[t] == |paths[starts[t]]|
      ensures CountsOk(starts, lens)
      ensures forall t :: 0 <= t < |starts| ==> OnPath(paths, starts[t], starts[t])
    {
      forall x | x in paths
        ensures Passed(paths, starts, lens, x) == 0
      {
        PassedNone(paths, starts, lens, x);
      }
      forall t | 0 <= t < |starts|
        ensures OnPath(paths, starts[t], starts[t])
      {
        assert NodeOk(Root(), reason, paths, starts[t]);
      }
    }

    /** `x` lies on the path to every start, and no deeper literal does. */
    ghost predicate Deepest(starts: seq<Lit>, x: Lit)
      reads `paths
    {
      DeepestIn(paths, starts, x)
    }

    lemma AllPassedRoot(starts: seq<Lit>, lens: seq<nat>, ats: seq<Option<Lit>>)
      requires rootAt < |trail| && ForestValid()
      requires ThreadsOk(paths, starts, lens, ats) && |ats| > 0
      requires AllPastRoot(ats[..|ats| - 1]) && ats[|ats| - 1].None?
      ensures Passed(paths, starts, lens, Root()) == |starts|
    {
      forall t | 0 <= t < |starts|
        ensures OnPath(paths, Root(), starts[t])
      {
        RootOnPath(Root(), reason, paths, starts[t]);
      }
      forall t | 0 <= t < |starts|
        ensures lens[t] == 0
      {
        assert t < |ats| - 1 ==> ats[..|ats| - 1][t].None?;
        assert ats[t].None?;
      }
      PassedBounds(paths, starts, lens, Root());
    }

    /** The step of thread `t`: its new position, and the count of every literal. */
    lemma StepUp(starts: seq<Lit>, lens: seq<nat>, ats: seq<Option<Lit>>, t: nat)
      requires rootAt < |trail| && ForestValid()
      requires ThreadsOk(paths, starts, lens, ats) && t < |ats| && ats[t].Some?
      ensures var x := ats[t].value;
        && x.v in reason && lens[t] > 0
        && ThreadsOk(paths, starts, lens[t := (lens[t] - 1) as nat], ats[t := reason[x.v].anc])
        && Sum(lens[t := (lens[t] - 1) as nat]) + 1 == Sum(lens)
        && forall y :: y in paths ==> Passed(paths, starts, lens[t := (lens[t] - 1) as nat], y)
                                      == Passed(paths, starts, lens, y) + if y == x then 1 else 0
    {
      var x := ats[t].value;
      assert NodeOk(Root(), reason, paths, x);
      var lens' := lens[t := (lens[t] - 1) as nat];
      var ats' := ats[t := reason[x.v].anc];
      if x != Root() {
        AncestorIsPrevious(Root(), reason, paths, x);
        OnPathTransitive(Root(), reason, paths, reason[x.v].anc.value, x, starts[t]);
      }
      forall y | y in paths
        ensures Passed(paths, starts, lens', y) == Passed(paths, starts, lens, y) + if y == x then 1 else 0
      {
        assert NodeOk(Root(), reason, paths, y);
        PassedStep(paths, starts, lens, t, x, y);
      }
      PassedStep(paths, starts, lens, t, x, x);
    }

    /** The literal whose count first reaches the number of threads is the deepest common one. */
    lemma FirstIsDeepest(starts: seq<Lit>, lens: seq<nat>, ats: seq<Option<Lit>>, t: nat, x: Lit)
      requires rootAt < |trail| && ForestValid()
      requires ThreadsOk(paths, starts, lens, ats) && t < |ats| && ats[t] == Some(x)
      requires Passed(paths, starts, lens, x) + 1 == |starts|
      requires forall y :: y in paths ==> Passed(paths, starts, lens, y) < |starts|
      ensures Deepest(starts, x)
    {
      StepUp(starts, lens, ats, t);
      var lens' := lens[t := (lens[t] - 1) as nat];
      PassedBounds(paths, starts, lens', x);
      forall y | y in paths && forall t :: 0 <= t < |starts| ==> OnPath(paths, y, starts[t])
        ensures |paths[y]| <= |paths[x]|
      {
        if |paths[y]| > |paths[x]| {
          assert forall t :: 0 <= t < |starts| ==> lens[t] <= lens'[t] + 1 <= |paths[x]|;
          PassedBounds(paths, starts, lens, y);
          assert false;
        }
      }
    }

    /** Climbs from `thisAncestor0` and decides whether the way to `lookingForAncestor` is acceptable. */
    method IsAncestorOf(conflict: Lit, thisAncestor0: Lit, thisStepRed: bool, onlyIrred: bool,
                        lookingForAncestor: Option<Lit>) returns (found: bool)
      requires rootAt < |trail| && ForestValid()
      requires thisAncestor0 in paths && (lookingForAncestor.Some? ==> lookingForAncestor.value in paths)
      ensures found <==>
        (lookingForAncestor.Some?
         && Replaceable(reason, paths, depth, useDepthTrick, conflict, thisAncestor0, thisStepRed,
           lookingForAncestor.value, onlyIrred))
    {
      if lookingForAncestor == None {
        return false;
      }
      var look := lookingForAncestor.value;
      if look == thisAncestor0 {
        return false;
      }
      if onlyIrred && thisStepRed {
        return false;
      }
      var bottom := depth[look.v];
      var thisAncestor := Some(thisAncestor0);
      assert NodeOk(Root(), reason, paths, look);
      while thisAncestor != None && (!useDepthTrick || bottom <= depth[thisAncestor.value.v])
        invariant thisAncestor.Some? ==> thisAncestor.value in paths
        invariant Climbs(reason, paths, depth, useDepthTrick, conflict, thisAncestor0, look, onlyIrred)
             <==>
               thisAncestor.Some?
               && Climbs(reason, paths, depth, useDepthTrick, conflict, thisAncestor.value, look, onlyIrred)
        decreases if thisAncestor.Some? then |paths[thisAncestor.value]| else 0
      {
        var x := thisAncestor.value;
        assert NodeOk(Root(), reason, paths, x);
        if x != look {
          ClimbsStep(Root(), reason, paths, depth, useDepthTrick, conflict, x, look, onlyIrred);
        }
        if x == conflict {
          return false;
        }
        if x == look {
          return true;
        }
        var data := reason[x.v];
        if (onlyIrred && data.red) || data.notAdded {
          return false;
        }
        if x != Root() {
          AncestorIsPrevious(Root(), reason, paths, x);
        }
        thisAncestor := data.anc;
      }
      if thisAncestor.Some? && thisAncestor.value != look {
        ClimbsStep(Root(), reason, paths, depth, useDepthTrick, conflict, thisAncestor.value, look, onlyIrred);
      }
      return false;
    }

    /**
     Which of the two clauses that imply `l` goes: that of the old edge if the way from its origin to `p` replaces it,
     or else that of `p`. With the depth trick only the deeper way is looked at.
     */
    ghost function WhichGoes(l: Lit, p: Lit, red: bool): Option<Lit>
      requires rootAt < |trail| && ForestValid() && l in paths && p in paths
      reads `rootAt, `trail, `reason, `paths, `depth, `useDepthTrick
    {
      assert NodeOk(Root(), reason, paths, l);
      var r := reason[l.v];
      if r.anc.None? then None else
      var o := r.anc.value;
      if (!useDepthTrick || depth[p.v] >= depth[o.v])
        && Replaceable(reason, paths, depth, useDepthTrick, l, p, red, o, !r.red) then Some(p)
      else if (!useDepthTrick || depth[p.v] <= depth[o.v])
        && Replaceable(reason, paths, depth, useDepthTrick, l, o, r.red, p, !red) then Some(o)
      else None
    }

    /** `conflict` is already implied by its reason and `p` implies it as well: which of the two clauses can go? */
    method RemoveWhichBinDueToTransRed(conflict: Lit, p: Lit, thisStepRed: bool) returns (remove: Option<Lit>)
      requires rootAt < |trail| && ForestValid() && ClausesValid()
      requires conflict in paths && p in paths
      ensures remove == WhichGoes(conflict, p, thisStepRed)
      ensures conflict == Root() ==> remove == None
      ensures conflict != Root() ==>
        NodeOk(Root(), reason, paths, conflict)
        && (remove == None || remove == Some(p) || remove == reason[conflict.v].anc)
      // the old edge can go: its origin is strictly above `p`, which is not below `conflict`
      ensures remove == Some(p) ==>
        var o := reason[conflict.v].anc.value;
        && o != p && OnPath(paths, o, p) && !OnPath(paths, conflict, p)
        && (!reason[conflict.v].red ==> !thisStepRed && IrredPath(reason, paths, o, p))
      // the clause of `p` can go
      ensures remove.Some? && remove != Some(p) ==> Bypassed(reason, paths, p, conflict, thisStepRed)
      // without the depth trick, nothing removable is missed
      ensures !useDepthTrick && conflict != Root() && remove == None ==>
        var r := reason[conflict.v];
        && !Replaceable(reason, paths, depth, false, conflict, p, thisStepRed, r.anc.value, !r.red)
        && !Replaceable(reason, paths, depth, false, conflict, r.anc.value, r.red, p, !thisStepRed)
    {
      hide RunOk, AllListed, AllAttachable, Climbs, NodesAre;
      assert NodeOk(Root(), reason, paths, conflict);
      assert NodeOk(Root(), reason, paths, p);
      var data := reason[conflict.v];
      if data.anc == None {
        return None;
      }
      var o := data.anc.value;
      AncestorIsPrevious(Root(), reason, paths, conflict);
      assert o.v in depth && p.v in depth && o in paths && paths[conflict] == paths[o] + [conflict];
      hide ForestOk, NodeOk, DepthsOk, IrredPath;
      var secondIsDeeper := false;
      var ambivalent := true;
      if useDepthTrick {
        ambivalent := depth[p.v] == depth[o.v];
        if depth[p.v] < depth[o.v] {
          secondIsDeeper := true;
        }
      }
      if ambivalent || !secondIsDeeper {
        var first := IsAncestorOf(conflict, p, thisStepRed, !data.red, data.anc);
        if first {
          ReplaceableOld(conflict, p, thisStepRed, useDepthTrick);
          return Some(p);
        }
      }
      if ambivalent || secondIsDeeper {
        var second := IsAncestorOf(conflict, o, data.red, !thisStepRed, Some(p));
        if second {
          ReplaceableNew(conflict, p, thisStepRed, useDepthTrick);
          return Some(o);
        }
      }
      return None;
    }

    lemma ReplaceableOld(conflict: Lit, p: Lit, red: bool, useDepth: bool)
      requires rootAt < |trail| && ForestValid() && ClausesValid()
      requires conflict in paths && p in paths && conflict != Root() && NodeOk(Root(), reason, paths, conflict)
      requires Replaceable(reason, paths, depth, useDepth, conflict, p, red, reason[conflict.v].anc.value,
        !reason[conflict.v].red)
      ensures OnPath(paths, reason[conflict.v].anc.value, p) && !OnPath(paths, conflict, p)
      ensures !reason[conflict.v].red ==> !red && IrredPath(reason, paths, reason[conflict.v].anc.value, p)
    {
      var o := reason[conflict.v].anc.value;
      AncestorIsPrevious(Root(), reason, paths, conflict);
      assert NodeOk(Root(), reason, paths, p);
      assert !HopOk(reason, depth, useDepth, conflict, conflict, o, !reason[conflict.v].red);
      assert !OnPath(paths, conflict, p);
      if !reason[conflict.v].red {
        IrredHops(conflict, p, o, useDepth);
      }
    }

    lemma ReplaceableNew(conflict: Lit, p: Lit, red: bool, useDepth: bool)
      requires rootAt < |trail| && ForestValid() && ClausesValid()
      requires conflict in paths && p in paths && conflict != Root() && NodeOk(Root(), reason, paths, conflict)
      requires Replaceable(reason, paths, depth, useDepth, conflict, reason[conflict.v].anc.value,
        reason[conflict.v].red, p, !red)
      ensures Bypassed(reason, paths, p, conflict, red)
    {
      var o := reason[conflict.v].anc.value;
      AncestorIsPrevious(Root(), reason, paths, conflict);
      assert NodeOk(Root(), reason, paths, o);
      OnPathTransitive(Root(), reason, paths, p, o, conflict);
      assert NodeOk(Root(), reason, paths, p);
      if !red {
        IrredHops(conflict, o, p, useDepth);
        assert EdgeBacked(lists, Rest(), needToAddBinClause, reason, conflict);
        forall i | |paths[p]| <= i < |paths[conflict]|
          ensures IrredStep(reason, paths[conflict][i])
        {
          if i < |paths[o]| {
            assert paths[conflict][i] == paths[o][i];
          }
        }
      }
    }

    /** Acceptable hops over irredundant reasons are irredundant steps: a hyper-binary reason is always redundant. */
    lemma IrredHops(conflict: Lit, from: Lit, look: Lit, useDepth: bool)
      requires rootAt < |trail| && ForestValid() && ClausesValid()
      requires from in paths && look in paths && Climbs(reason, paths, depth, useDepth, conflict, from, look, true)
      ensures IrredPath(reason, paths, look, from)
    {
      assert NodeOk(Root(), reason, paths, from);
      assert NodeOk(Root(), reason, paths, look);
      forall i | |paths[look]| <= i < |paths[from]|
        ensures IrredStep(reason, paths[from][i])
      {
        var x := paths[from][i];
        assert HopOk(reason, depth, useDepth, conflict, x, look, true);
        assert paths[x] == paths[from][..i + 1];
        assert x != Root();
        assert EdgeBacked(lists, Rest(), needToAddBinClause, reason, x);
      }
    }

    /** What every step keeps: the decision, the database, what is on the trail and who is above whom. */
    ghost predicate Since(rootAt0: nat, trail0: seq<Lit>, assigns0: Assigns, db0: Formula, paths0: Paths)
      reads `rootAt, `trail, `assigns, `cls, `lists, `paths
    {
      && rootAt == rootAt0 < |trail0| <= |trail| && trail0 <= trail
      && ValuesKept(assigns0, assigns) && Db() == db0 && AncestorsGrow(paths0, paths) && Derived(db0, trail0, trail)
    }

    /** `l` becomes true with the given reason, one step below its ancestor. */
    method EnqueueWithAncestorInfo(l: Lit, r: Edge)
      requires Valid() && Value(assigns, l) == Undef && l.v < nVars && Forced(Db(), trail, l)
      requires r.anc.Some? && r.anc.value in paths
      requires EdgeEntailed(Db(), reason[l.v := r], l)
        && EdgeBacked(lists, Rest(), needToAddBinClause, reason[l.v := r], l)
      modifies this`assigns, this`level, this`trail, this`reason, this`depth, this`paths
      ensures Valid() && Since(old(rootAt), old(trail), old(assigns), old(Db()), old(paths))
      ensures trail == old(trail) + [l] && Value(assigns, l) == True && reason == old(reason)[l.v := r]
      ensures paths == old(paths)[l := old(paths)[r.anc.value] + [l]]
    {
      hide RunOk, AllListed, AllAttachable, TrailOk, TwoWatched, ClausesOk, LitsBelow, Symmetric, Good, ListGood,
        EntryGood, TrueBy, BlockedOk, NodesAre, DepthsOk, ForestOk, DbOf, EdgeEntailed, EdgeBacked, AncestorsGrow,
        Derived, LongClauses, Units, BinClauses, W, ThreadsOk, SeenListed;
      EnqueueReady(l, r);
      var a := r.anc.value;
      Enqueue(l, r, if useDepthTrick then depth[a.v] + 1 else 0, paths[a] + [l]);
    }

    method Enqueue(l: Lit, r: Edge, d: nat, ghost path: seq<Lit>)
      modifies this`assigns, this`level, this`trail, this`reason, this`depth, this`paths
      ensures assigns == old(assigns)[l.v := !l.sign] && level == old(level)[l.v := 1] && trail == old(trail) + [l]
      ensures reason == old(reason)[l.v := r] && depth == old(depth)[l.v := d] && paths == old(paths)[l := path]
    {
      assigns := assigns[l.v := !l.sign];
      level := level[l.v := 1];
      trail := trail + [l];
      reason := reason[l.v := r];
      depth := depth[l.v := d];
      paths := paths[l := path];
    }

    lemma EnqueueReady(l: Lit, r: Edge)
      requires Valid() && Value(assigns, l) == Undef && l.v < nVars && Forced(Db(), trail, l)
      requires r.anc.Some? && r.anc.value in paths
      requires EdgeEntailed(Db(), reason[l.v := r], l)
        && EdgeBacked(lists, Rest(), needToAddBinClause, reason[l.v := r], l)
      ensures r.anc.value.v in depth
      ensures var ps' := paths[l := paths[r.anc.value] + [l]];
        && TrailOk(trail + [l], [rootAt], assigns[l.v := !l.sign], level[l.v := 1], nVars)
        && (trail + [l])[..rootAt] == trail[..rootAt]
        && RunOk(lists, Rest(), needToAddBinClause, uselessBin, Root(), reason[l.v := r], ps')
        && ForestOk(Root(), reason[l.v := r], ps')
        && NodesAre(ps', (trail + [l])[rootAt..])
        && DepthsOk(depth[l.v := if useDepthTrick then depth[r.anc.value.v] + 1 else 0], ps')
        && AncestorsGrow(paths, ps') && ValuesKept(assigns, assigns[l.v := !l.sign])
          && Derived(Db(), trail, trail + [l])
    {
      hide TrailOk, TwoWatched, ClausesOk, LitsBelow, Symmetric, Good, ListGood, EntryGood, TrueBy, BlockedOk, NodesAre,
        DepthsOk, ForestOk, DbOf, EdgeEntailed, EdgeBacked, AncestorsGrow, Derived, LongClauses, Units, BinClauses;
      var a := r.anc.value;
      DerivedNext(Db(), trail, l);
      NodesGrow(paths, trail[rootAt..], l, a, depth, useDepthTrick);
      TrailGrows(trail, [rootAt], assigns, level, nVars, l);
      assert (trail + [l])[rootAt..] == trail[rootAt..] + [l];
      FreshVar(l);
      GrowsByOne(paths, l, a);
      EnqueueKeeps(lists, Rest(), needToAddBinClause, needToAddBinClause, uselessBin, Root(), reason, paths, l, r);
    }

    /** The clause of the edge into `l` is dropped: discarded if it is attached, forgotten if it was yet to be added. */
    method RemoveBinClause(l: Lit)
      requires l.v in reason && reason[l.v].anc.Some?
      modifies this`uselessBin, this`needToAddBinClause
      ensures var r := reason[l.v];
        var b := BinClause({r.anc.value.Neg(), l}, r.red);
        && uselessBin == old(uselessBin) + (if r.hyper then {} else {b})
        && needToAddBinClause == old(needToAddBinClause) - (if r.hyper && !r.notAdded then {b} else {})
    {
      var r := reason[l.v];
      var clauseToRemove := BinClause({r.anc.value.Neg(), l}, r.red);
      if !r.hyper {
        uselessBin := uselessBin + {clauseToRemove};
      } else if !r.notAdded {
        if clauseToRemove in needToAddBinClause {
          needToAddBinClause := needToAddBinClause - {clauseToRemove};
        }
      }
    }

    /** A clause all of whose literals are false, at least one of them through level 1. */
    ghost predicate ConflictOk(confl: Conflict)
      reads `assigns, `level, `cls, `failBinLit, `lists, `rootAt, `trail
      requires rootAt < |trail|
    {
      match confl
      case BinConfl(lit2) =>
        && {lit2, failBinLit} in Db()
        && Value(assigns, lit2) == False && Value(assigns, failBinLit) == False
        && lit2.v in level && failBinLit.v in level && level[lit2.v] != 0
      case LongConfl(off) =>
        && off in cls
        && (forall l :: l in cls[off] ==> Value(assigns, l) == False && l.v in level)
        && exists l :: l in cls[off] && level[l.v] != 0
    }

    ghost method Record(p: Lit, w: Watched)
      modifies this`met
      ensures met == old(met) + [(p, w)]
    {
      met := met + [(p, w)];
    }

    /** The true literal `p` meets the binary clause (~p or w.lit2). */
    method PropBinWithAncestorInfo(p: Lit, w: Watched) returns (ret: PropResult, confl: Conflict)
      requires Valid() && p in paths && w.Bin? && w in W(lists, p.Neg())
      modifies this`assigns, this`level, this`trail, this`reason, this`depth, this`paths,
               this`uselessBin, this`needToAddBinClause, this`failBinLit, this`met
      ensures Valid() && Since(old(rootAt), old(trail), old(assigns), old(Db()), old(paths))
      ensures met == old(met) + [(p, w)]
      ensures ret == if old(Value(assigns, w.lit2)) == Undef then Something
        else if old(Value(assigns, w.lit2)) == False then Fail else Nothing
      ensures ret == Something ==>
        trail == old(trail) + [w.lit2] && w.lit2.v in reason && reason[w.lit2.v] == Edge(Some(p), w.red, false, false)
      ensures ret != Something ==> trail == old(trail)
      ensures ret == Fail ==> ConflictOk(confl) && paths == old(paths)
      ensures ret != Fail ==> Value(assigns, w.lit2) == True
      ensures ret == Nothing && (!performTransitiveReduction || (w.lit2.v in level && level[w.lit2.v] == 0)) ==>
        uselessBin == old(uselessBin) && reason == old(reason) && needToAddBinClause == old(needToAddBinClause)
      ensures ret == Nothing && performTransitiveReduction && w.lit2.v in level && level[w.lit2.v] != 0 ==>
        w.lit2 in old(paths)
        && Reduced(old(WhichGoes(w.lit2, p, w.red)), p, w.lit2, w.red, old(reason), old(paths), old(depth),
          old(uselessBin), old(needToAddBinClause))
    {
      hide RunOk, AllListed, AllAttachable, TrailOk, TwoWatched, ClausesOk, LitsBelow, Symmetric, Good, ListGood,
        EntryGood, TrueBy, BlockedOk, NodesAre, ForestOk, DbOf, DepthsOk, AncestorsGrow, Derived, HyperEngine.WhichGoes,
        HyperEngine.Reduced, HyperEngine.Valid, HyperEngine.Since, HyperEngine.ConflictOk;
      var l := w.lit2;
      confl := BinConfl(p.Neg());
      if Value(assigns, l) == Undef {
        MeetUndef(p, w);
        ret := Something;
      } else if Value(assigns, l) == False {
        MeetFalse(p, w);
        ret := Fail;
      } else {
        MeetTrue(p, l, w.red);
        ret := Nothing;
      }
      Record(p, w);
    }

    /** The other literal gets its value, one step below `p`. */
    method MeetUndef(p: Lit, w: Watched)
      requires Valid() && p in paths && w.Bin? && w in W(lists, p.Neg()) && Value(assigns, w.lit2) == Undef
      modifies this`assigns, this`level, this`trail, this`reason, this`depth, this`paths
      ensures Valid() && Since(old(rootAt), old(trail), old(assigns), old(Db()), old(paths))
      ensures trail == old(trail) + [w.lit2] && Value(assigns, w.lit2) == True
      ensures w.lit2.v in reason && reason[w.lit2.v] == Edge(Some(p), w.red, false, false)
    {
      hide RunOk, AllListed, AllAttachable, TrailOk, TwoWatched, ClausesOk, LitsBelow, Symmetric, Good, ListGood,
        EntryGood, TrueBy, BlockedOk, NodesAre, ForestOk, DbOf, DepthsOk, AncestorsGrow, Derived;
      BinInDb(lists, Rest(), p, w.lit2, w.red);
      TrailLevelOne(p);
      BinBelow(lists, cls, nVars, p.Neg(), w);
      BinForces(p, w.lit2, w.red);
      EnqueueWithAncestorInfo(w.lit2, Edge(Some(p), w.red, false, false));
    }

    /** The clause is falsified. */
    method MeetFalse(p: Lit, w: Watched)
      requires Valid() && p in paths && w.Bin? && w in W(lists, p.Neg()) && Value(assigns, w.lit2) == False
      modifies this`failBinLit
      ensures Valid() && Since(old(rootAt), old(trail), old(assigns), old(Db()), old(paths))
      ensures ConflictOk(BinConfl(p.Neg()))
    {
      hide RunOk, AllListed, AllAttachable, TrailOk, TwoWatched, ClausesOk, LitsBelow, Symmetric, Good, ListGood,
        EntryGood, TrueBy, BlockedOk, NodesAre, ForestOk, DbOf, DepthsOk, AncestorsGrow, Derived;
      BinInDb(lists, Rest(), p, w.lit2, w.red);
      AncestorsGrowRefl(paths);
      DerivedRefl(Db(), trail);
      TrailLevelOne(p);
      TrueOnTrail(trail, rootAt, assigns, level, nVars, w.lit2.Neg());
      BinForces(p, w.lit2, w.red);
      failBinLit := w.lit2;
    }

    /** The other literal is true already: one of two ways to it may be superfluous. */
    method MeetTrue(p: Lit, l: Lit, red: bool)
      requires Valid() && p in paths && Bin(l, red) in W(lists, p.Neg()) && Value(assigns, l) == True
      modifies this`reason, this`depth, this`paths, this`uselessBin, this`needToAddBinClause
      ensures Valid() && Since(old(rootAt), old(trail), old(assigns), old(Db()), old(paths)) && l.v in level
      ensures !performTransitiveReduction || level[l.v] == 0 ==>
        uselessBin == old(uselessBin) && reason == old(reason) && needToAddBinClause == old(needToAddBinClause)
      ensures performTransitiveReduction && level[l.v] != 0 ==>
        l in old(paths)
        && Reduced(old(WhichGoes(l, p, red)), p, l, red, old(reason), old(paths), old(depth), old(uselessBin),
          old(needToAddBinClause))
    {
      hide RunOk, AllListed, AllAttachable, TrailOk, TwoWatched, ClausesOk, LitsBelow, Symmetric, Good, ListGood,
        EntryGood, TrueBy, BlockedOk, NodesAre, ForestOk, DbOf, DepthsOk, AncestorsGrow, Derived, HyperEngine.WhichGoes,
        HyperEngine.Reduced;
      AncestorsGrowRefl(paths);
      DerivedRefl(Db(), trail);
      TrueOnTrail(trail, rootAt, assigns, level, nVars, l);
      if level[l.v] != 0 && performTransitiveReduction {
        LevelOneInForest(l);
        Reduce(p, l, red);
      }
    }

    lemma BinForces(p: Lit, l: Lit, red: bool)
      requires TrailValid() && ForestValid() && p in paths && Bin(l, red) in W(lists, p.Neg())
      ensures {p.Neg(), l} in Db() && Forced(Db(), trail, l)
    {
      var i :| rootAt <= i < |trail| && trail[i] == p;
      assert {p.Neg(), l} in BinClauses(lists, red);
      PairForces(Db(), trail, p, l);
    }

    lemma FreshVar(l: Lit)
      requires TrailValid() && ForestValid() && Value(assigns, l) == Undef
      ensures forall k :: k in paths ==> k.v != l.v
    {
      forall k | k in paths
        ensures k.v != l.v
      {
        TrailLevelOne(k);
      }
    }

    /** The old edge into `l`: a hyper-binary step is always redundant. */
    lemma OldEdge(l: Lit)
      requires rootAt < |trail| && ClausesValid() && l in paths && l != Root()
      ensures l.v in reason && reason[l.v].anc.Some? && (reason[l.v].hyper ==> reason[l.v].red)
    {
      assert EdgeBacked(lists, Rest(), needToAddBinClause, reason, l);
    }

    /** If the old edge is discarded, its clause is attached. */
    lemma OldEdgeListed(l: Lit)
      requires rootAt < |trail| && ClausesValid() && l in paths && l != Root()
      ensures l.v in reason && reason[l.v].anc.Some?
      ensures !reason[l.v].hyper ==>
        AllListed(lists, uselessBin + {BinClause({reason[l.v].anc.value.Neg(), l}, reason[l.v].red)})
    {
      assert EdgeBacked(lists, Rest(), needToAddBinClause, reason, l);
      if !reason[l.v].hyper {
        OneMoreListed(lists, uselessBin, reason[l.v].anc.value.Neg(), l, reason[l.v].red);
      }
    }

    lemma TrailLevelOne(p: Lit)
      requires TrailValid() && ForestValid() && p in paths
      ensures Value(assigns, p) == True && p.v in level && level[p.v] == 1 && p.v in depth
    {
      var i :| rootAt <= i < |trail| && trail[i] == p;
      assert EntryOk(trail, [rootAt], assigns, level, nVars, i);
      assert [rootAt][0] == rootAt;
    }

    /** What happens to the two clauses that imply `l`, by which of them goes. */
    ghost predicate Reduced(remove: Option<Lit>, p: Lit, l: Lit, red: bool, rs: Edges, ps: Paths, ds: map<nat, nat>,
                            useless: set<BinClause>, need: set<BinClause>)
      reads `reason, `paths, `depth, `uselessBin, `needToAddBinClause
    {
      if remove == None then
        reason == rs && paths == ps && depth == ds && uselessBin == useless && needToAddBinClause == need
      else if remove == Some(p) then
        && l in ps && p in ps && l.v in rs && rs[l.v].anc.Some? && p.v in ds
        && reason == rs[l.v := Edge(Some(p), red, false, false)] && paths == Moved(ps, l, p)
        && depth == ds[l.v := ds[p.v] + 1]
        && var b := BinClause({rs[l.v].anc.value.Neg(), l}, rs[l.v].red);
          && uselessBin == useless + (if rs[l.v].hyper then {} else {b})
          && needToAddBinClause == need - (if rs[l.v].hyper && !rs[l.v].notAdded then {b} else {})
      else
        && reason == rs && paths == ps && depth == ds && needToAddBinClause == need
        && uselessBin == useless + {BinClause({p.Neg(), l}, red)}
    }

    /** `l` is already implied and `p` implies it too: discard one of the two clauses if the other way suffices. */
    method Reduce(p: Lit, l: Lit, red: bool)
      requires Valid() && p in paths && l in paths && Bin(l, red) in W(lists, p.Neg())
      modifies this`reason, this`depth, this`paths, this`uselessBin, this`needToAddBinClause
      ensures Valid() && Since(old(rootAt), old(trail), old(assigns), old(Db()), old(paths))
      ensures Reduced(old(WhichGoes(l, p, red)), p, l, red, old(reason), old(paths), old(depth), old(uselessBin),
        old(needToAddBinClause))
    {
      hide HyperEngine.WhichGoes, RunOk, AllListed, AllAttachable, TrailOk, TwoWatched, ClausesOk, LitsBelow, Symmetric,
        Good, ListGood,
        EntryGood, TrueBy, BlockedOk, NodesAre, ForestOk, DbOf, DepthsOk, AncestorsGrow, Derived, OnPath, IrredPath,
        Moved, Bypassed;
      AncestorsGrowRefl(paths);
      DerivedRefl(Db(), trail);
      var remove := RemoveWhichBinDueToTransRed(l, p, red);
      if remove == Some(p) {
        Reparent(p, l, red);
      } else if remove.Some? {
        DiscardKeeps(lists, Rest(), needToAddBinClause, uselessBin, Root(), reason, paths, p, l, red);
        OneMoreListed(lists, uselessBin, p.Neg(), l, red);
        uselessBin := uselessBin + {BinClause({p.Neg(), l}, red)};
      }
    }

    /** The reason of `l` becomes `p`, which lies below the old one; the clause of the old edge is dropped. */
    method Reparent(p: Lit, l: Lit, red: bool)
      requires Valid() && p in paths && l in paths && l != Root() && Bin(l, red) in W(lists, p.Neg())
      requires NodeOk(Root(), reason, paths, l) && reason[l.v].anc.value != p
      requires OnPath(paths, reason[l.v].anc.value, p) && !OnPath(paths, l, p)
      requires !reason[l.v].red ==> !red && IrredPath(reason, paths, reason[l.v].anc.value, p)
      modifies this`reason, this`depth, this`paths, this`uselessBin, this`needToAddBinClause
      ensures Valid() && Since(old(rootAt), old(trail), old(assigns), old(Db()), old(paths))
      ensures Reduced(Some(p), p, l, red, old(reason), old(paths), old(depth), old(uselessBin), old(needToAddBinClause))
    {
      hide RunOk, AllListed, AllAttachable, TrailOk, TwoWatched, ClausesOk, LitsBelow, Symmetric, Good, ListGood,
        EntryGood, TrueBy, BlockedOk, NodesAre, ForestOk, DbOf, DepthsOk, AncestorsGrow, Derived, OnPath, IrredPath,
        Moved;
      ghost var need, useless := needToAddBinClause, uselessBin;
      ghost var r := Edge(Some(p), red, false, false);
      DepthsAfterMove(l, r);
      OldEdge(l);
      TrailLevelOne(p);
      GrowsAfterMove(Root(), reason, paths, l, r);
      DerivedRefl(Db(), trail);
      OldEdgeListed(l);
      ghost var hyper := reason[l.v].hyper;
      RemoveBinClause(l);
      assert hyper ==> uselessBin == useless;
      FewerAttachable(need, needToAddBinClause, trail[..rootAt], nVars);
      ReparentKeeps(lists, Rest(), need, useless, Root(), reason, paths, l, p, red, needToAddBinClause, uselessBin);
      SetAncestor(l, Edge(Some(p), red, false, false), depth[p.v] + 1, Moved(paths, l, p));
    }

    method SetAncestor(l: Lit, r: Edge, d: nat, ghost ps: Paths)
      modifies this`reason, this`depth, this`paths
      ensures reason == old(reason)[l.v := r] && depth == old(depth)[l.v := d] && paths == ps
    {
      reason := reason[l.v := r];
      depth := depth[l.v := d];
      paths := ps;
    }

    lemma DepthsAfterMove(l: Lit, r: Edge)
      requires rootAt < |trail| && ForestValid()
      requires l in paths && l != Root() && r.anc.Some? && r.anc.value in paths && !OnPath(paths, l, r.anc.value)
      requires NodeOk(Root(), reason, paths, l) && OnPath(paths, reason[l.v].anc.value, r.anc.value)
      ensures DepthsOk(depth[l.v := depth[r.anc.value.v] + 1], Moved(paths, l, r.anc.value))
    {
      var q := Moved(paths, l, r.anc.value);
      forall x | x in q
        ensures x.v in depth && |q[x]| >= |paths[x]|
      {
        RootOnPath(Root(), reason, paths, x);
        MoveGrows(Root(), reason, paths, l, r, Root(), x);
        assert !OnPath(paths, l, Root()) by {
          assert NodeOk(Root(), reason, paths, l);
        }
        assert q[Root()] == paths[Root()];
      }
      assert |q[l]| == |paths[r.anc.value]| + 1;
      forall x | x in q && x.v == l.v
        ensures x == l
      {
        assert SameVar(x, l);
      }
    }

    // ----- hyper-binary resolution -----

    /** Under `f`, the literals of `ats` together force `p`. */
    ghost predicate Force(f: Formula, ats: seq<Option<Lit>>, p: Lit) {
      forall m: Model :: FormulaTrue(m, f) && AllTrue(m, ats) ==> LitTrue(m, p)
    }

    ghost predicate AllTrue(m: Model, ats: seq<Option<Lit>>) {
      forall a :: a in ats ==> a.Some? && LitTrue(m, a.value)
    }

    /** The true literals opposite to the false level-1 literals of `c`, leaving out `skip`. */
    ghost predicate Opposite(c: seq<Lit>, skip: Option<Lit>, ats: seq<Option<Lit>>)
      reads `paths, `level
    {
      && (forall a :: a in ats ==> a.Some? && a.value in paths && a.value.Neg() in c)
      && forall l :: l in c && Some(l) != skip && l.v in level && level[l.v] != 0 ==> Some(l.Neg()) in ats
    }

    lemma CollectedOpposed(c: seq<Lit>, skip: Option<Lit>, ats: seq<Option<Lit>>, l: Lit)
      requires TrailValid() && ForestValid() && Opposite(c, skip, ats) && Some(l) in ats
      requires skip.Some? ==> Value(assigns, skip.value) == Undef
      ensures l in OpposedAt(level, Lits(c) - (if skip.Some? then {skip.value} else {}))
    {
      TrailLevelOne(l);
      assert l.Neg().Neg() == l && l.Neg() in Lits(c);
    }

    method CollectAncestors(c: seq<Lit>, skip: Option<Lit>)
      requires TrailValid() && ForestValid()
      requires forall l :: l in c && Some(l) != skip ==> Value(assigns, l) == False && l.v in level
      modifies this`currAncestors
      ensures Opposite(c, skip, currAncestors) && (NoDuplicates(c) ==> NoDuplicates(currAncestors))
    {
      hide TrailOk, ForestOk, DepthsOk, NodesAre;
      currAncestors := [];
      for i := 0 to |c|
        invariant Opposite(c[..i], skip, currAncestors) && (NoDuplicates(c) ==> NoDuplicates(currAncestors))
      {
        ghost var before := currAncestors;
        if Some(c[i]) != skip && level[c[i].v] != 0 {
          LevelOneInForest(c[i].Neg());
          NotCollected(c, i, skip, before);
          currAncestors := currAncestors + [Some(c[i].Neg())];
        }
        assert c[..i + 1] == c[..i] + [c[i]];
      }
      assert c[..|c|] == c;
    }

    lemma NotCollected(c: seq<Lit>, i: nat, skip: Option<Lit>, ats: seq<Option<Lit>>)
      requires i < |c| && Opposite(c[..i], skip, ats)
      ensures Some(c[i].Neg()) in ats ==> !NoDuplicates(c)
    {
      assert c[i].Neg().Neg() == c[i];
      if Some(c[i].Neg()) in ats {
        var j :| 0 <= j < i && c[..i][j] == c[i];
        assert c[j] == c[i];
      }
    }

    /** The literals collected are the negations of those of level 1, as many as there are. */
    lemma Collected(c: seq<Lit>, skip: Option<Lit>, ats: seq<Option<Lit>>)
      requires TrailValid() && ForestValid() && Opposite(c, skip, ats)
      requires skip.Some? ==> Value(assigns, skip.value) == Undef
      ensures var ls := OpposedAt(level, Lits(c) - (if skip.Some? then {skip.value} else {}));
        Lits(Values(ats)) == ls && (NoDuplicates(ats) ==> |ats| == |ls|)
    {
      hide TrailOk, ForestOk, NodesAre, DepthsOk, OnPath;
      var ls := OpposedAt(level, Lits(c) - (if skip.Some? then {skip.value} else {}));
      var starts := Values(ats);
      forall l
        ensures l in ls <==> l in starts
      {
        assert l.Neg().Neg() == l;
        if l in ls {
          assert Some(l) in ats;
          var t :| 0 <= t < |ats| && ats[t] == Some(l);
          assert starts[t] == l;
        }
        if l in starts {
          var t :| 0 <= t < |starts| && starts[t] == l;
          assert ats[t] in ats;
          CollectedOpposed(c, skip, ats, l);
        }
      }
      assert Lits(starts) == ls;
      if NoDuplicates(ats) {
        LitsSize(starts);
      }
    }

    /** A long clause with all literals false but `p` forces `p` from the collected ancestors. */
    lemma ClauseForces(off: nat, p: Lit, ats: seq<Option<Lit>>)
      requires TrailValid() && off in cls && Opposite(cls[off], Some(p), ats)
      requires forall l :: l in cls[off] && l != p ==> Value(assigns, l) == False && l.v in level
      ensures Force(Rest(), ats, p)
    {
      forall m: Model | FormulaTrue(m, Rest()) && AllTrue(m, ats)
        ensures LitTrue(m, p)
      {
        assert Lits(cls[off]) in Rest();
        var l :| l in Lits(cls[off]) && LitTrue(m, l);
        if l != p {
          OthersFalse(cls[off], Some(p), ats, l, m);
          assert false;
        }
      }
    }

    lemma OthersFalse(c: seq<Lit>, skip: Option<Lit>, ats: seq<Option<Lit>>, l: Lit, m: Model)
      requires TrailValid() && Opposite(c, skip, ats) && FormulaTrue(m, Rest()) && AllTrue(m, ats)
      requires l in c && Some(l) != skip && Value(assigns, l) == False && l.v in level
      ensures !LitTrue(m, l)
    {
      if level[l.v] == 0 {
        assert FormulaTrue(m, Units(trail[..rootAt]));
        LevelZeroHolds(l.Neg(), m);
      } else {
        assert Some(l.Neg()) in ats;
        assert LitTrue(m, l.Neg());
      }
    }

    /** What a literal above all of `ats` implies: all of `ats`. */
    lemma AncestorImpliesAll(found: Lit, ats: seq<Option<Lit>>, m: Model)
      requires rootAt < |trail| && ForestValid() && ClausesValid()
      requires forall a :: a in ats ==> a.Some? && a.value in paths
      requires Deepest(Values(ats), found) && FormulaTrue(m, Db()) && LitTrue(m, found)
      ensures AllTrue(m, ats)
    {
      forall a | a in ats
        ensures LitTrue(m, a.value)
      {
        var t :| 0 <= t < |ats| && ats[t] == a;
        assert Values(ats)[t] == a.value;
        PathImplies(Db(), Root(), reason, paths, found, a.value, m);
      }
    }

    lemma AncestorForces(found: Lit, ats: seq<Option<Lit>>, p: Lit)
      requires rootAt < |trail| && ForestValid() && ClausesValid()
      requires forall a :: a in ats ==> a.Some? && a.value in paths
      requires Deepest(Values(ats), found) && Force(Rest(), ats, p)
      ensures Entails(Db(), {found.Neg(), p})
      ensures |ats| == 1 ==> Entails(Rest(), {ats[0].value.Neg(), p})
    {
      forall m: Model | FormulaTrue(m, Db())
        ensures ClauseTrue(m, {found.Neg(), p})
      {
        assert FormulaTrue(m, Rest());
        if LitTrue(m, found) {
          AncestorImpliesAll(found, ats, m);
          assert LitTrue(m, p);
        } else {
          assert LitTrue(m, found.Neg());
        }
      }
      if |ats| == 1 {
        var a := ats[0].value;
        forall m: Model | FormulaTrue(m, Rest())
          ensures ClauseTrue(m, {a.Neg(), p})
        {
          if LitTrue(m, a) {
            assert AllTrue(m, ats);
            assert LitTrue(m, p);
          } else {
            assert LitTrue(m, a.Neg());
          }
        }
      }
    }

    /**
     `p` is forced by the literals of `currAncestors`: it is enqueued under their deepest common ancestor, and
     unless there is only one of them the hyper-binary clause (~ancestor or p) is to be added.
     */
    method AddHyperBin(p: Lit)
      requires Valid() && Value(assigns, p) == Undef && p.v < nVars
      requires currAncestors != [] && (forall a :: a in currAncestors ==> a.Some? && a.value in paths)
      requires Force(Rest(), currAncestors, p) && Forced(Db(), trail, p)
      modifies this`assigns, this`level, this`trail, this`reason, this`depth, this`paths,
               this`needToAddBinClause, this`currAncestors, this`seen, this`toClear
      ensures Valid() && Since(old(rootAt), old(trail), old(assigns), old(Db()), old(paths))
      ensures trail == old(trail) + [p] && p.v in reason && reason[p.v].anc.Some?
      ensures var a := reason[p.v].anc.value;
        && reason[p.v] == Edge(Some(a), true, true, |old(currAncestors)| == 1)
        && DeepestIn(old(paths), Values(old(currAncestors)), a)
        && Entails(Db(), {a.Neg(), p})
        && needToAddBinClause == old(needToAddBinClause) + if |old(currAncestors)| == 1 then {}
          else {BinClause({a.Neg(), p}, true)}
    {
      hide RunOk, AllListed, AllAttachable, TrailOk, TwoWatched, ClausesOk, LitsBelow, Symmetric, Good, ListGood,
        EntryGood, TrueBy, BlockedOk, NodesAre, ForestOk, DbOf, DepthsOk, AncestorsGrow, Derived, Entails, SeenListed,
        HyperEngine.Force, EdgeEntailed, EdgeBacked, Deepest, W, ThreadsOk;
      var deepestAncestor, hyperBinNotAdded := ForcingAncestor(p);
      EnqueueWithAncestorInfo(p, Edge(Some(deepestAncestor), true, true, hyperBinNotAdded));
    }

    /**
     The deepest common ancestor of the literals that force `p`; the clause with it is to be added unless there is one
     such literal only.
     */
    method ForcingAncestor(p: Lit) returns (deepestAncestor: Lit, hyperBinNotAdded: bool)
      requires Valid() && Value(assigns, p) == Undef && p.v < nVars
      requires currAncestors != [] && (forall a :: a in currAncestors ==> a.Some? && a.value in paths)
      requires Force(Rest(), currAncestors, p) && Forced(Db(), trail, p)
      modifies this`needToAddBinClause, this`currAncestors, this`seen, this`toClear
      ensures Valid() && deepestAncestor in paths && DeepestIn(paths, Values(old(currAncestors)), deepestAncestor)
      ensures hyperBinNotAdded <==> |old(currAncestors)| == 1
      ensures needToAddBinClause == old(needToAddBinClause) + if hyperBinNotAdded then {}
        else {BinClause({deepestAncestor.Neg(), p}, true)}
      ensures Entails(Db(), {deepestAncestor.Neg(), p})
      ensures var r := Edge(Some(deepestAncestor), true, true, hyperBinNotAdded);
        EdgeEntailed(Db(), reason[p.v := r], p) && EdgeBacked(lists, Rest(), needToAddBinClause, reason[p.v := r], p)
    {
      hide RunOk, AllListed, AllAttachable, TrailOk, TwoWatched, ClausesOk, LitsBelow, Symmetric, Good, ListGood,
        EntryGood, TrueBy, BlockedOk, NodesAre, ForestOk, DbOf, DepthsOk, AncestorsGrow, Derived, Entails, SeenListed,
        HyperEngine.Force;
      ghost var ats := currAncestors;
      hyperBinNotAdded := true;
      if |currAncestors| > 1 {
        deepestAncestor := DeepestCommonAncestor();
        AncestorForces(deepestAncestor, ats, p);
        NeedHyperBin(deepestAncestor, p);
        hyperBinNotAdded := false;
      } else {
        deepestAncestor := currAncestors[0].value;
        OnlyOne(ats);
        AncestorForces(deepestAncestor, ats, p);
      }
    }

    method NeedHyperBin(a: Lit, p: Lit)
      requires Valid() && a in paths && Value(assigns, p) == Undef && p.v < nVars && Entails(Db(), {a.Neg(), p})
      modifies this`needToAddBinClause
      ensures Valid() && needToAddBinClause == old(needToAddBinClause) + {BinClause({a.Neg(), p}, true)}
    {
      hide RunOk, AllListed, AllAttachable, TrailOk, TwoWatched, ClausesOk, LitsBelow, Symmetric, BlockedOk, NodesAre,
        ForestOk, DbOf, DepthsOk, Entails;
      NeedKeeps(lists, Rest(), needToAddBinClause, uselessBin, Root(), reason, paths, {a.Neg(), p});
      HyperAttachable(a, p);
      needToAddBinClause := needToAddBinClause + {BinClause({a.Neg(), p}, true)};
    }

    /** The ancestor and the forced literal are no facts of level 0. */
    lemma HyperAttachable(a: Lit, p: Lit)
      requires TrailValid() && ForestValid() && AllAttachable(needToAddBinClause, trail[..rootAt], nVars)
      requires a in paths && Value(assigns, p) == Undef && p.v < nVars
      ensures AllAttachable(needToAddBinClause + {BinClause({a.Neg(), p}, true)}, trail[..rootAt], nVars)
    {
      TrailLevelOne(a);
      TrueOnTrail(trail, rootAt, assigns, level, nVars, a);
      var facts := trail[..rootAt];
      forall f | f in facts
        ensures f.v != a.v && f.v != p.v
      {
        var i :| 0 <= i < rootAt && facts[i] == f;
        assert trail[i] == f && EntryOk(trail, [rootAt], assigns, level, nVars, i);
        assert [rootAt][0] == rootAt;
      }
      var j :| rootAt <= j < |trail| && trail[j] == a;
      assert EntryOk(trail, [rootAt], assigns, level, nVars, j);
      hide AllAttachable;
      OneMoreAttachable(needToAddBinClause, facts, nVars, a.Neg(), p, true);
    }

    lemma OnlyOne(ats: seq<Option<Lit>>)
      requires rootAt < |trail| && ForestValid()
      requires |ats| == 1 && ats[0].Some? && ats[0].value in paths
      ensures Deepest(Values(ats), ats[0].value)
    {
      assert NodeOk(Root(), reason, paths, ats[0].value);
    }

    /**
     `p` hangs below the deepest literal above all of `ls`; the hyper-binary clause of the two is to be added unless
     there is only one of them.
     */
    ghost predicate HyperEdge(ps: Paths, ls: set<Lit>, p: Lit, need: set<BinClause>)
      reads `reason, `needToAddBinClause
    {
      && p.v in reason && reason[p.v].anc.Some? && DeepestAbove(ps, ls, reason[p.v].anc.value)
      && reason[p.v] == Edge(reason[p.v].anc, true, true, |ls| == 1)
      && needToAddBinClause == need + if |ls| == 1 then {} else {BinClause({reason[p.v].anc.value.Neg(), p}, true)}
    }

    /**
     All literals of a clause but `p` were false, and it has forced `p`, which hangs below the deepest literal above
     those of level one.
     */
    ghost predicate ForcedBy(db: Formula, c: Clause, p: Lit, a: Assigns, lv: map<nat, nat>, ps: Paths,
                             need: set<BinClause>)
      reads `reason, `needToAddBinClause
    {
      && c in db && p in c && (forall l {:trigger l in c} :: l in c && l != p ==> Value(a, l) == False)
      && HyperEdge(ps, OpposedAt(lv, c - {p}), p, need)
    }

    /** One literal has been forced by a clause, or nothing has been set. */
    ghost predicate AtMostForced(some: bool, db: Formula, t: seq<Lit>, a: Assigns, lv: map<nat, nat>,
                                 r: map<nat, Edge>, ps: Paths, need: set<BinClause>)
      reads `trail, `assigns, `level, `reason, `paths, `needToAddBinClause
    {
      if some then |trail| == |t| + 1 && t <= trail && exists c: Clause :: ForcedBy(db, c, trail[|t|], a, lv, ps, need)
      else trail == t && assigns == a && level == lv && reason == r && paths == ps && needToAddBinClause == need
    }

    /** A long clause has become unit under the assignment: its first literal is forced. */
    method AddHyperBinOfClause(off: nat)
      requires Valid() && off in cls && Value(assigns, cls[off][0]) == Undef
      requires forall l :: l in cls[off] && l != cls[off][0] ==> Value(assigns, l) == False && l.v in level
      requires exists l :: l in cls[off] && l != cls[off][0] && l.v in level && level[l.v] != 0
      modifies this`assigns, this`level, this`trail, this`reason, this`depth, this`paths,
               this`needToAddBinClause, this`currAncestors, this`seen, this`toClear
      ensures Valid() && Since(old(rootAt), old(trail), old(assigns), old(Db()), old(paths))
      ensures trail == old(trail) + [old(cls[off][0])]
      ensures HyperEdge(old(paths), OpposedAt(old(level), Lits(cls[off]) - {cls[off][0]}), cls[off][0],
        old(needToAddBinClause))
    {
      hide RunOk, AllListed, AllAttachable, TrailOk, TwoWatched, Symmetric, Good, ListGood, EntryGood, TrueBy,
        BlockedOk, ForestOk, DbOf, DepthsOk, AncestorsGrow, Derived, Entails, SeenListed, NodesAre;
      var p := cls[off][0];
      assert p in cls[off];
      CollectAncestors(cls[off], Some(p));
      ClauseForces(off, p, currAncestors);
      UnitForced(off, p);
      ghost var ps, ats, ls := paths, currAncestors, OpposedAt(level, Lits(cls[off]) - {p});
      Collected(cls[off], Some(p), ats);
      AddHyperBin(p);
      DeepestSame(ps, Values(ats), ls, reason[p.v].anc.value);
    }

    lemma StoredLong(off: nat)
      requires off in cls && rootAt < |trail|
      ensures Lits(cls[off]) in Db()
    {
      assert Lits(cls[off]) in LongClauses(cls);
    }

    lemma OneForced(c: Clause, p: Lit, db: Formula, t: seq<Lit>, a: Assigns, lv: map<nat, nat>, r: map<nat, Edge>,
                    ps: Paths, need: set<BinClause>)
      requires c in db && p in c && (forall l {:trigger l in c} :: l in c && l != p ==> Value(a, l) == False)
      requires HyperEdge(ps, OpposedAt(lv, c - {p}), p, need) && trail == t + [p]
      ensures AtMostForced(true, db, t, a, lv, r, ps, need)
    {
      hide HyperEngine.HyperEdge;
      assert trail[|t|] == p;
      assert ForcedBy(db, c, p, a, lv, ps, need);
    }

    lemma NoneForced(db: Formula)
      ensures AtMostForced(false, db, trail, assigns, level, reason, paths, needToAddBinClause)
    {
    }

    lemma UnitForced(off: nat, p: Lit)
      requires TrailValid() && off in cls && p in cls[off]
        && forall l :: l in cls[off] && l != p ==> Value(assigns, l) == False
      ensures Forced(Db(), trail, p)
    {
      var c := Lits(cls[off]);
      assert c in LongClauses(cls) && c in Db();
      forall k | k in c && k != p
        ensures k.Neg() in Set(trail)
      {
        TrueOnTrail(trail, rootAt, assigns, level, nVars, k.Neg());
      }
    }

    /** The literals of the clause that a conflict names. */
    ghost function ConflictLits(confl: Conflict): Clause
      reads `cls, `failBinLit
    {
      match confl
      case BinConfl(lit2) => {lit2, failBinLit}
      case LongConfl(off) => if off in cls then Lits(cls[off]) else {}
    }

    /** All literals of a clause of the database are false, and `x` is the deepest literal above those of level 1. */
    ghost predicate FailedBy(c: Clause, x: Lit)
      requires rootAt < |trail|
      reads `rootAt, `trail, `assigns, `level, `cls, `lists, `paths
    {
      && c in Db() && (forall l {:trigger l in c} :: l in c ==> Value(assigns, l) == False && l.v in level)
      && OpposedAt(level, c) != {} && DeepestAbove(paths, OpposedAt(level, c), x)
    }

    /**
     The failed literal: the deepest one above every literal of the falsified clause, so that its negation follows.
     */
    method AnalyzeFail(confl: Conflict) returns (foundLit: Lit)
      requires Valid() && ConflictOk(confl)
      modifies this`currAncestors, this`seen, this`toClear
      ensures Valid() && foundLit in paths && Entails(Db(), {foundLit.Neg()}) && FailedBy(ConflictLits(confl), foundLit)
    {
      hide RunOk, AllListed, AllAttachable, TrailOk, TwoWatched, ForestOk, DepthsOk, DbOf, AncestorsGrow, Derived,
        SeenListed, NodesAre, Entails, ClausesOk, LitsBelow, Symmetric, Good, ListGood, EntryGood, TrueBy, BlockedOk,
          DeepestAbove, OpposedAt, DeepestIn, HyperEngine.ConflictLits;
      ghost var c := CollectConflict(confl);
      ghost var ats := currAncestors;
      foundLit := DeepestCommonAncestor();
      FalsifiedFails(c, ats, foundLit);
      FailedHolds(c, ats, foundLit);
    }

    lemma FailedHolds(c: seq<Lit>, ats: seq<Option<Lit>>, found: Lit)
      requires TrailValid() && ForestValid() && Opposite(c, None, ats) && ats != [] && Deepest(Values(ats), found)
      requires Lits(c) in Db() && forall l :: l in c ==> Value(assigns, l) == False && l.v in level
      ensures FailedBy(Lits(c), found) && found in paths
    {
      hide TrailOk, ForestOk, NodesAre, DepthsOk, OnPath, DbOf;
      assert Lits(c) - {} == Lits(c);
      Collected(c, None, ats);
      DeepestSame(paths, Values(ats), OpposedAt(level, Lits(c)), found);
      SomeOpposed(c, ats);
    }

    /** The literals opposite to those of the falsified clause. */
    method CollectConflict(confl: Conflict) returns (ghost c: seq<Lit>)
      requires TrailValid() && ForestValid() && ConflictOk(confl)
      modifies this`currAncestors
      ensures Opposite(c, None, currAncestors) && currAncestors != [] && Entails(Db(), Lits(c))
      ensures forall l :: l in c ==> Value(assigns, l) == False && l.v in level
      ensures Lits(c) == ConflictLits(confl) && Lits(c) in Db()
    {
      hide TrailOk, ForestOk, DepthsOk, DbOf, NodesAre, Entails;
      match confl {
        case BinConfl(lit2) =>
          c := [lit2, failBinLit];
          CollectAncestors([lit2, failBinLit], None);
          assert Lits(c) == {lit2, failBinLit};
          InDbEntailed(Lits(c));
          assert Some(lit2.Neg()) in currAncestors;
        case LongConfl(off) =>
          c := cls[off];
          CollectAncestors(cls[off], None);
          ClauseInDb(off);
      }
    }

    lemma SomeOpposed(c: seq<Lit>, ats: seq<Option<Lit>>)
      requires TrailValid() && ForestValid() && Opposite(c, None, ats) && ats != []
      ensures OpposedAt(level, Lits(c)) != {}
    {
      assert ats[0] in ats;
      CollectedOpposed(c, None, ats, ats[0].value);
      assert Lits(c) - {} == Lits(c);
    }

    lemma ClauseInDb(off: nat)
      requires rootAt < |trail| && off in cls
      ensures Entails(Db(), Lits(cls[off])) && Lits(cls[off]) in Db()
    {
      assert Lits(cls[off]) in Db();
    }

    lemma InDbEntailed(c: Clause)
      requires rootAt < |trail| && c in Db()
      ensures Entails(Db(), c)
    {
    }

    lemma FalsifiedFails(c: seq<Lit>, ats: seq<Option<Lit>>, found: Lit)
      requires TrailValid() && ForestValid() && ClausesValid()
      requires Entails(Db(), Lits(c)) && Opposite(c, None, ats) && Deepest(Values(ats), found)
      requires forall l :: l in c ==> Value(assigns, l) == False && l.v in level
      ensures Entails(Db(), {found.Neg()})
    {
      forall m: Model | FormulaTrue(m, Db())
        ensures ClauseTrue(m, {found.Neg()})
      {
        if LitTrue(m, found) {
          AncestorImpliesAll(found, ats, m);
          assert FormulaTrue(m, Rest());
          var l :| l in Lits(c) && LitTrue(m, l);
          OthersFalse(c, None, ats, l, m);
          assert false;
        } else {
          assert LitTrue(m, found.Neg());
        }
      }
    }

    // ----- long clauses -----

    /** List `np` is being compacted: `j` entries kept, `i` read. All other lists are as they are. */
    ghost predicate ScanOk(np: Lit, i: nat, j: nat)
      reads `watches, `lists
    {
      np in watches && j <= i <= |watches[np]| && lists == watches[np := View(watches[np], i, j)]
    }

    lemma Rewired(ws': WatchLists, cls': Clauses)
      requires rootAt < |trail| && WatchesValid() && ClausesValid()
      requires SameBins(lists, ws') && SameClauses(cls, cls')
      ensures LitsBelow(ws', cls', nVars) && Symmetric(ws')
      ensures var rest' := LongClauses(cls') + Units(trail[..rootAt]);
        && rest' == Rest()
        && RunOk(ws', rest', needToAddBinClause, uselessBin, Root(), reason, paths)
        && AllListed(ws', uselessBin) && DbOf(ws', rest') == Db()
    {
      LitsBelowKeep(lists, ws', cls, cls', nVars);
      SymmetricKept(lists, ws');
      SameBinsListed(lists, ws', uselessBin);
      SameLongClauses(cls, cls');
      ListsKeep(lists, ws', Rest(), needToAddBinClause, uselessBin, Root(), reason, paths);
    }

    ghost predicate Rearranged(lists0: WatchLists, cls0: Clauses, assigns0: Assigns, np: Lit)
      reads `lists, `cls
    {
      RearrangedTo(lists0, cls0, assigns0, np, lists, cls)
    }

    /** Entry `i` is kept, with `w` in place of it. */
    method KeepEntry(np: Lit, i: nat, j: nat, w: Watched)
      requires Valid() && ScanOk(np, i, j) && i < |watches[np]|
      requires w == watches[np][i]
        || (watches[np][i].Long? && w.Long? && w.off == watches[np][i].off && w.off in cls && w.blocked in cls[w.off])
      modifies this`watches, this`lists
      ensures Valid() && Since(old(rootAt), old(trail), old(assigns), old(Db()), old(paths))
      ensures ScanOk(np, i + 1, j + 1) && |watches[np]| == old(|watches[np]|)
        && watches[np][i + 1..] == old(watches[np][i + 1..])
      ensures watches[np][..j + 1] == old(watches[np][..j]) + [w] && Rearranged(old(lists), cls, assigns, np)
    {
      hide RunOk, AllListed, AllAttachable, TrailOk, TwoWatched, ForestOk, DepthsOk, DbOf, AncestorsGrow, Derived,
        NodesAre, ClausesOk, LitsBelow, Symmetric, Good, ListGood, EntryGood, TrueBy, BlockedOk, View, Bins, LongOffs;
      var ws := watches[np];
      ViewKeep(ws, i, j, w);
      AncestorsGrowRefl(paths);
      DerivedRefl(Db(), trail);
      ghost var view := lists[np := ws[..j] + [w] + ws[i + 1..]];
      if w == ws[i] {
        assert view == lists;
      } else {
        RelabelKeeps(lists, cls, np, ws[..j], ws[i], w, ws[i + 1..]);
        BlockedRelabelled(lists, cls, np, ws[..j], ws[i], w, ws[i + 1..]);
      }
      SameClausesRefl(cls);
      SameBinsRefl(lists);
      Rewired(view, cls);
      SetList(np, ws[j := w], view);
    }

    method SetList(np: Lit, ws: seq<Watched>, ghost view: WatchLists)
      modifies this`watches, this`lists
      ensures watches == old(watches)[np := ws] && lists == view
    {
      watches := watches[np := ws];
      lists := view;
    }

    /** The watched literal `np` of a clause is brought to position 1. */
    method SwapWatched(np: Lit, off: nat)
      requires Valid() && WatchesLit(cls, off, np)
      modifies this`cls
      ensures Valid() && Since(old(rootAt), old(trail), old(assigns), old(Db()), old(paths))
      ensures cls == old(cls)[off := FalseLitSecond(old(cls)[off], np)] && cls[off][1] == np
      ensures ClauseOk(cls[off]) && multiset(cls[off]) == multiset(old(cls[off])) && SameClauses(old(cls), cls)
    {
      hide RunOk, AllListed, AllAttachable, TrailOk, TwoWatched, ForestOk, DepthsOk, DbOf, AncestorsGrow, Derived,
        NodesAre, LitsBelow, Symmetric, Good, ListGood, EntryGood, TrueBy, BlockedOk, SameClauses;
      assert ClauseOk(cls[off]);
      hide ClausesOk, FalseLitSecond;
      AncestorsGrowRefl(paths);
      DerivedRefl(Db(), trail);
      SwapReady(np, off);
      SetClause(off, FalseLitSecond(cls[off], np));
    }

    lemma SwapReady(np: Lit, off: nat)
      requires rootAt < |trail| && WatchesValid() && ClausesValid() && WatchesLit(cls, off, np)
      ensures var d := FalseLitSecond(cls[off], np); ClauseOk(d) && multiset(d) == multiset(cls[off]) && d[1] == np
      ensures var cls' := cls[off := FalseLitSecond(cls[off], np)];
        ClausesOk(cls') && TwoWatched(lists, cls') && BlockedOk(lists, cls') && LitsBelow(lists, cls', nVars)
          && SameClauses(cls, cls')
      ensures var rest' := LongClauses(cls[off := FalseLitSecond(cls[off], np)]) + Units(trail[..rootAt]);
        rest' == Rest() && RunOk(lists, rest', needToAddBinClause, uselessBin, Root(), reason, paths)
          && DbOf(lists, rest') == Db()
    {
      hide RunOk, AllListed, AllAttachable, TwoWatched, DbOf, LitsBelow, Symmetric, BlockedOk, SameClauses, SameBins;
      ghost var cls' := cls[off := FalseLitSecond(cls[off], np)];
      SwapKeeps(cls[off], np);
      SwapKeepsTwoWatched(lists, cls, off, np);
      SameBinsRefl(lists);
      BlockedPermuted(lists, cls, cls');
      Rewired(lists, cls');
    }

    method SetClause(off: nat, c: seq<Lit>)
      modifies this`cls
      ensures cls == old(cls)[off := c]
    {
      cls := cls[off := c];
    }

    /** The entry at `i` leaves the list: its clause is watched by the literal at `k` from now on. */
    method MoveWatch(np: Lit, i: nat, j: nat, k: nat)
      requires Valid() && ScanOk(np, i, j) && i < |watches[np]| && watches[np][i].Long?
      requires var off := watches[np][i].off;
        off in cls && ClauseOk(cls[off]) && cls[off][1] == np && 2 <= k < |cls[off]|
        && Value(assigns, cls[off][k]) != False
      requires Value(assigns, np) == False
      modifies this`watches, this`lists, this`cls
      ensures Valid() && Since(old(rootAt), old(trail), old(assigns), old(Db()), old(paths))
      ensures ScanOk(np, i + 1, j) && watches[np] == old(watches[np]) && Rearranged(old(lists), old(cls), assigns, np)
    {
      hide ClauseOk, RearrangedTo, RunOk, AllListed, AllAttachable, TrailOk, TwoWatched, ForestOk, DepthsOk, DbOf,
        AncestorsGrow, Derived, NodesAre, ClausesOk, LitsBelow, Symmetric, Good, ListGood, EntryGood, TrueBy, BlockedOk,
        SameClauses, View, Bins, LongOffs;
      var ws := watches[np];
      var off := ws[i].off;
      var c := cls[off];
      var q := c[k];
      var w := Long(off, c[0]);
      ViewKeep(ws, i, j, ws[i]);
      AncestorsGrowRefl(paths);
      DerivedRefl(Db(), trail);
      MoveEntry(lists, cls, np, ws[..j], ws[i], ws[i + 1..], k, c[0]);
      BlockedMoved(lists, cls, np, ws[..j], ws[i], ws[i + 1..], k);
      ghost var view := lists[np := ws[..j] + ws[i + 1..]][q := W(lists, q) + [w]];
      Rewired(view, cls[off := c[1 := q][k := np]]);
      assert W(watches, q) == W(lists, q);
      MovedElsewhere(np, ws[..j] + ws[i + 1..], q, w, view, cls[off := c[1 := q][k := np]]);
      SetWatches(np, q, W(watches, q) + [w], view, off, c[1 := q][k := np]);
      assert watches[np := View(watches[np], i + 1, j)] == lists;
    }

    lemma MovedElsewhere(np: Lit, rest: seq<Watched>, q: Lit, w: Watched, view: WatchLists, cls': Clauses)
      requires SameBins(lists, view) && SameClauses(cls, cls') && Value(assigns, q) != False
      requires view == lists[np := rest][q := W(lists, q) + [w]]
      ensures RearrangedTo(lists, cls, assigns, np, view, cls')
    {
      hide SameBins, SameClauses;
    }

    method SetWatches(np: Lit, q: Lit, ws: seq<Watched>, ghost view: WatchLists, off: nat, c: seq<Lit>)
      modifies this`watches, this`lists, this`cls
      ensures watches == old(watches)[q := ws] && lists == view && cls == old(cls)[off := c]
    {
      watches := watches[q := ws];
      lists := view;
      cls := cls[off := c];
    }

    /**
     The long clause at entry `i` of the list of `np`: satisfied or re-watched (`Nothing`), or left for the
     caller (`None`) with all literals but the first false.
     */
    method PropNormalHelper(np: Lit, i: nat, j: nat) returns (ret: Option<PropResult>, j': nat)
      requires Valid() && ScanOk(np, i, j) && i < |watches[np]| && watches[np][i].Long? && Value(assigns, np) == False
      requires np.v in level && level[np.v] == 1 && ListGood(watches[np][..j], cls, assigns, level, np)
      modifies this`watches, this`lists, this`cls
      ensures Valid() && Since(old(rootAt), old(trail), old(assigns), old(Db()), old(paths))
      ensures np in watches && |watches[np]| == old(|watches[np]|) && watches[np][i + 1..] == old(watches[np][i + 1..])
      ensures Rearranged(old(lists), old(cls), assigns, np)
      ensures j' <= |watches[np]| && ListGood(watches[np][..j'], cls, assigns, level, np)
      ensures ret.Some? ==> ret.value == Nothing && j <= j' <= j + 1 && ScanOk(np, i + 1, j')
      ensures ret.None? ==>
        ScanOk(np, i, j) && watches == old(watches) && j' == j && watches[np][i].Long?
        && RestFalse(watches[np][i].off, np)
    {
      hide RunOk, AllListed, AllAttachable, TrailOk, TwoWatched, ForestOk, DepthsOk, DbOf, AncestorsGrow, Derived,
        NodesAre, LitsBelow, Symmetric, Good, ListGood, EntryGood, TrueBy, BlockedOk, Bins, LongOffs, RearrangedTo,
        SameClauses, ClausesOk, View;
      var off := watches[np][i].off;
      EntryOfScan(np, i, j);
      SwapWatched(np, off);
      SwapRearranges(np, old(cls), watches[np][..j]);
      var c := cls[off];
      if Value(assigns, c[0]) == True {
        ghost var lists1, cls1 := lists, cls;
        KeepSatisfied(np, i, j, off);
        ValuesKeptRefl(assigns);
        RearrangedTrans(old(lists), old(cls), assigns, lists1, cls1, assigns, np, lists, cls);
        return Some(Nothing), j + 1;
      }
      var k := FindNewWatch(c, assigns);
      if k < |c| {
        ghost var lists1, cls1 := lists, cls;
        MoveWatch(np, i, j, k);
        RearrangedGood(lists1, cls1, np, watches[np][..j]);
        ValuesKeptRefl(assigns);
        RearrangedTrans(old(lists), old(cls), assigns, lists1, cls1, assigns, np, lists, cls);
        return Some(Nothing), j;
      }
      return None, j;
    }

    lemma RearrangedGood(lists0: WatchLists, cls0: Clauses, np: Lit, ws: seq<Watched>)
      requires Rearranged(lists0, cls0, assigns, np) && ListGood(ws, cls0, assigns, level, np)
      ensures ListGood(ws, cls, assigns, level, np)
    {
      ListGoodPermuted(ws, cls0, cls, assigns, level, np);
    }

    lemma SwapRearranges(np: Lit, cls0: Clauses, ws: seq<Watched>)
      requires SameClauses(cls0, cls) && ListGood(ws, cls0, assigns, level, np)
      ensures RearrangedTo(lists, cls0, assigns, np, lists, cls) && ListGood(ws, cls, assigns, level, np)
    {
      SameBinsRefl(lists);
      ListGoodPermuted(ws, cls0, cls, assigns, level, np);
    }

    /** The clause at entry `i` is satisfied by its first literal, which becomes the blocked literal of the entry. */
    method KeepSatisfied(np: Lit, i: nat, j: nat, off: nat)
      requires Valid() && ScanOk(np, i, j) && i < |watches[np]| && watches[np][i].Long? && watches[np][i].off == off
      requires off in cls && |cls[off]| > 0 && Value(assigns, cls[off][0]) == True
      requires np.v in level && level[np.v] == 1 && ListGood(watches[np][..j], cls, assigns, level, np)
      modifies this`watches, this`lists
      ensures Valid() && Since(old(rootAt), old(trail), old(assigns), old(Db()), old(paths))
      ensures ScanOk(np, i + 1, j + 1) && |watches[np]| == old(|watches[np]|)
        && watches[np][i + 1..] == old(watches[np][i + 1..])
      ensures Rearranged(old(lists), cls, assigns, np) && ListGood(watches[np][..j + 1], cls, assigns, level, np)
    {
      hide RunOk, AllListed, AllAttachable, TrailOk, TwoWatched, ForestOk, DepthsOk, DbOf, AncestorsGrow, Derived,
        NodesAre, ClausesOk, LitsBelow, Symmetric, Good, ListGood, EntryGood, TrueBy, BlockedOk, Bins, LongOffs, View,
        RearrangedTo;
      var first := cls[off][0];
      assert first in cls[off];
      SatisfiedEntry(np, off, first, first);
      ghost var read := watches[np][..j];
      KeepEntry(np, i, j, Long(off, first));
      ListGoodNext(read, Long(off, first), cls, assigns, level, np);
    }

    /** Every literal that is true was set at level 1 at the latest. */
    lemma SatisfiedEntry(np: Lit, off: nat, t: Lit, blocked: Lit)
      requires TrailValid() && np.v in level && level[np.v] == 1
      requires off in cls && t in cls[off] && Value(assigns, t) == True
      ensures EntryGood(cls, assigns, level, np, Long(off, blocked))
    {
      TrueOnTrail(trail, rootAt, assigns, level, nVars, t);
      assert TrueBy(assigns, level, np, t);
    }

    lemma SatisfiedBin(np: Lit, k: Lit, red: bool)
      requires TrailValid() && np.v in level && level[np.v] == 1 && Value(assigns, k) == True
      ensures EntryGood(cls, assigns, level, np, Bin(k, red))
    {
      TrueOnTrail(trail, rootAt, assigns, level, nVars, k);
    }

    /**
     The clause, whose second literal is `np`, is not satisfied by its first literal and has no other non-false one.
     */
    ghost predicate RestFalse(off: nat, np: Lit)
      reads `cls, `assigns
    {
      && off in cls && |cls[off]| >= 2 && cls[off][1] == np
      && Value(assigns, cls[off][0]) != True
      && forall l :: l in cls[off] && l != cls[off][0] ==> Value(assigns, l) == False
    }

    lemma EntryOfScan(np: Lit, i: nat, j: nat)
      requires WatchesValid() && ScanOk(np, i, j) && i < |watches[np]| && watches[np][i].Long?
      ensures WatchesLit(cls, watches[np][i].off, np) && watches[np][i].blocked in cls[watches[np][i].off]
    {
      assert W(lists, np)[j] == watches[np][i] && watches[np][i] in W(lists, np);
      EntryWatches(lists, cls, np, j);
    }

    /** The long clause at entry `i` of the list of ~p, met by the true literal `p`. */
    method PropNormalClWithAncestorInfo(p: Lit, i: nat, j: nat) returns (ret: PropResult, confl: Conflict, j': nat)
      requires Valid() && p in paths && ScanOk(p.Neg(), i, j) && i < |watches[p.Neg()]| && watches[p.Neg()][i].Long?
      requires ListGood(watches[p.Neg()][..j], cls, assigns, level, p.Neg())
      modifies this`watches, this`lists, this`cls, this`assigns, this`level, this`trail, this`reason, this`depth,
        this`paths,
               this`needToAddBinClause, this`currAncestors, this`seen, this`toClear
      ensures Valid() && Since(old(rootAt), old(trail), old(assigns), old(Db()), old(paths))
      ensures ScanOk(p.Neg(), i + 1, j') && j <= j' <= j + 1
      ensures |watches[p.Neg()]| == old(|watches[p.Neg()]|)
        && watches[p.Neg()][i + 1..] == old(watches[p.Neg()][i + 1..])
      ensures Rearranged(old(lists), old(cls), old(assigns), p.Neg())
      ensures |trail| == |old(trail)| + if ret == Something then 1 else 0
      ensures ret == Fail ==> ConflictOk(confl)
      ensures ret == Nothing ==> ListGood(watches[p.Neg()][..j'], cls, assigns, level, p.Neg())
      // a satisfied clause stays as it is
      ensures old(Value(assigns, watches[p.Neg()][i].blocked)) == True ==>
        ret == Nothing && cls == old(cls) && j' == j + 1
        && watches[p.Neg()][..j + 1] == old(watches[p.Neg()][..j] + [watches[p.Neg()][i]])
      ensures AtMostForced(ret == Something, old(Db()), old(trail), old(assigns), old(level), old(reason), old(paths),
        old(needToAddBinClause))
    {
      hide RunOk, AllListed, AllAttachable, TrailOk, TwoWatched, ForestOk, DepthsOk, DbOf, AncestorsGrow, Derived,
        NodesAre, ClausesOk, LitsBelow, Symmetric, Good, ListGood, EntryGood, TrueBy, BlockedOk, Bins, LongOffs,
        ValuesKept, View, RearrangedTo;
      var np := p.Neg();
      TrailLevelOne(p);
      var w := watches[np][i];
      confl := LongConfl(w.off);
      EntryOfScan(np, i, j);
      if Value(assigns, w.blocked) == True {
        SatisfiedEntry(np, w.off, w.blocked, w.blocked);
        KeepEntry(np, i, j, w);
        ListGoodNext(old(watches[np][..j]), w, cls, assigns, level, np);
        return Nothing, confl, j + 1;
      }
      var done;
      done, j' := PropNormalHelper(np, i, j);
      if done.Some? {
        return Nothing, confl, j';
      }
      ghost var lists1, cls1, assigns1 := lists, cls, assigns;
      ret, confl := PropUnit(np, i, j, w.off);
      ValuesKeptRefl(assigns1);
      RearrangedTrans(old(lists), old(cls), assigns1, lists1, cls1, assigns1, np, lists, cls);
      j' := j + 1;
    }

    /** All literals of the clause but the first are false: so is the first, or it is enqueued. The entry stays. */
    method PropUnit(np: Lit, i: nat, j: nat, off: nat) returns (ret: PropResult, confl: Conflict)
      requires Valid() && ScanOk(np, i, j) && i < |watches[np]| && watches[np][i].Long? && watches[np][i].off == off
      requires RestFalse(off, np) && np.v in level && level[np.v] == 1
      modifies this`watches, this`lists, this`assigns, this`level, this`trail, this`reason, this`depth, this`paths,
               this`needToAddBinClause, this`currAncestors, this`seen, this`toClear
      ensures Valid() && Since(old(rootAt), old(trail), old(assigns), old(Db()), old(paths))
      ensures ScanOk(np, i + 1, j + 1) && |watches[np]| == old(|watches[np]|)
        && watches[np][i + 1..] == old(watches[np][i + 1..])
      ensures Rearranged(old(lists), cls, old(assigns), np)
      ensures ret != Nothing && |trail| == |old(trail)| + if ret == Something then 1 else 0
      ensures ret == Fail ==> ConflictOk(confl)
      ensures AtMostForced(ret == Something, old(Db()), old(trail), old(assigns), old(level), old(reason), old(paths),
        old(needToAddBinClause))
    {
      hide RunOk, AllListed, AllAttachable, TrailOk, TwoWatched, ForestOk, DepthsOk, DbOf, AncestorsGrow, Derived,
        NodesAre, ClausesOk, LitsBelow, Symmetric, Good, ListGood, EntryGood, TrueBy, BlockedOk, Bins, LongOffs,
        ValuesKept, View, RearrangedTo, HyperEngine.AtMostForced, HyperEngine.HyperEdge, OpposedAt;
      KeepEntry(np, i, j, watches[np][i]);
      UnitOrFalse(off, np);
      confl := LongConfl(off);
      NoneForced(old(Db()));
      if Value(assigns, cls[off][0]) == False {
        ret := Fail;
      } else {
        ghost var c, a, lv, r, ps, need := cls[off], assigns, level, reason, paths, needToAddBinClause;
        StoredLong(off);
        AddHyperBinOfClause(off);
        OneForced(Lits(c), c[0], old(Db()), old(trail), a, lv, r, ps, need);
        ret := Something;
      }
    }

    /** All literals of the clause but the first were set, at least one of them at level 1. */
    lemma UnitOrFalse(off: nat, np: Lit)
      requires Valid() && RestFalse(off, np) && np.v in level && level[np.v] != 0
      ensures Value(assigns, cls[off][0]) == False ==> ConflictOk(LongConfl(off))
      ensures forall l :: l in cls[off] && l != cls[off][0] ==> Value(assigns, l) == False && l.v in level
      ensures exists l :: l in cls[off] && l != cls[off][0] && l.v in level && level[l.v] != 0
    {
      assert ClauseOk(cls[off]);
      assert cls[off][1] in cls[off] && cls[off][1] != cls[off][0];
      forall l | l in cls[off] && Value(assigns, l) == False
        ensures l.v in level
      {
        TrueOnTrail(trail, rootAt, assigns, level, nVars, l.Neg());
      }
    }

    // ----- the breadth-first loop -----

    ghost predicate Settled()
      reads `watches, `lists
    {
      watches == lists
    }

    /** Binary clauses of the given kind have been propagated from the trail positions `from` up to `to`. */
    ghost predicate BinsDone(red: bool, from: nat, to: nat)
      reads `lists, `trail, `assigns, `met
    {
      to <= |trail|
        && forall i {:trigger trail[i]} ::
        from <= i < to ==>
          AllPropagated(Bins(W(lists, trail[i].Neg())), red, assigns)
          && AllMet(Bins(W(lists, trail[i].Neg())), red, trail[i], met)
    }

    lemma TrailInForest(i: nat)
      requires TrailValid() && ForestValid() && rootAt <= i < |trail|
      ensures trail[i] in paths
    {
      assert trail[rootAt..][i - rootAt] == trail[i];
    }

    lemma SinceRefl()
      requires TrailValid()
      ensures Since(rootAt, trail, assigns, Db(), paths)
    {
      DerivedRefl(Db(), trail);
    }

    /** Meets every binary clause of the given kind in the list of ~p; stops at the first new literal if `stop`. */
    method ScanBins(p: Lit, red: bool, stop: bool) returns (ret: PropResult, confl: Conflict)
      requires Valid() && Settled() && p in paths
      modifies this`assigns, this`level, this`trail, this`reason, this`depth, this`paths,
               this`uselessBin, this`needToAddBinClause, this`failBinLit, this`met
      ensures Valid() && Since(old(rootAt), old(trail), old(assigns), old(Db()), old(paths))
      ensures ret == Fail ==> ConflictOk(confl)
      ensures if ret == Nothing then BinsScanned(p, W(watches, p.Neg()), red, old(met), met)
        else ScanStopped(p, W(watches, p.Neg()), red, old(met), met)
      ensures ret == Something ==> stop && |trail| > old(|trail|)
      ensures ret == Nothing ==> AllPropagated(Bins(W(lists, p.Neg())), red, assigns) && (stop ==> trail == old(trail))
    {
      hide RunOk, AllListed, AllAttachable, TrailOk, TwoWatched, ForestOk, DepthsOk, DbOf, NodesAre, ClausesOk,
        LitsBelow, Symmetric, Good, ListGood, EntryGood, TrueBy, BlockedOk, Bins, LongOffs, AncestorsGrow, Derived,
        ValuesKept, AllPropagated, BinsScanned, ScanStopped;
      var ws := W(watches, p.Neg());
      ret := Nothing;
      confl := LongConfl(0);
      SinceRefl();
      PropagatedNone(red, assigns);
      NothingScanned(p, ws, red, met);
      assert ws[..0] == [];
      for k := 0 to |ws|
        invariant Valid() && Since(old(rootAt), old(trail), old(assigns), old(Db()), old(paths))
        invariant p in paths && ret == Nothing && (stop ==> trail == old(trail))
        invariant AllPropagated(ws[..k], red, assigns) && BinsScanned(p, ws[..k], red, old(met), met)
      {
        assert ws[..k + 1] == ws[..k] + [ws[k]];
        ScanNext(p, ws, red, old(met), met, k);
        if ws[k].Bin? && ws[k].red == red {
          ghost var trail0, assigns0, paths0 := trail, assigns, paths;
          ret, confl := PropBinWithAncestorInfo(p, ws[k]);
          StillThere(paths0, paths, p);
          SinceTrans(old(rootAt), old(trail), old(assigns), old(Db()), old(paths), trail0, assigns0, paths0);
          if ret == Fail {
            return;
          } else if ret == Something && stop {
            return;
          }
          ret := Nothing;
          PropagatedNext(ws[..k], ws[k], red, assigns0, assigns);
        } else {
          PropagatedSkip(ws[..k], ws[k], red, assigns);
        }
      }
      assert ws[..|ws|] == ws;
      PropagatedBins(ws, red, assigns);
    }

    lemma SinceTrans(rootAt0: nat, trail0: seq<Lit>, assigns0: Assigns, db0: Formula, paths0: Paths,
                     trail1: seq<Lit>, assigns1: Assigns, paths1: Paths)
      requires rootAt0 < |trail0| <= |trail1| && trail0 <= trail1 && ValuesKept(assigns0, assigns1)
        && AncestorsGrow(paths0, paths1)
      requires Derived(db0, trail0, trail1)
      requires Since(rootAt0, trail1, assigns1, db0, paths1)
      ensures Since(rootAt0, trail0, assigns0, db0, paths0)
    {
      AncestorsGrowTrans(paths0, paths1, paths);
      DerivedTrans(db0, trail0, trail1, trail);
      assert trail1 == trail[..|trail1|];
    }

    /** The irredundant binary clauses of one literal. */
    method PropIrredOf(head0: nat, head: nat) returns (ret: PropResult, confl: Conflict)
      requires Valid() && Settled() && rootAt <= head0 <= head < |trail| && BinsDone(false, head0, head)
      modifies this`assigns, this`level, this`trail, this`reason, this`depth, this`paths,
               this`uselessBin, this`needToAddBinClause, this`failBinLit, this`met
      ensures Valid() && Since(old(rootAt), old(trail), old(assigns), old(Db()), old(paths)) && ret != Something
      ensures ret == Fail ==> ConflictOk(confl)
      ensures ret == Nothing ==> BinsDone(false, head0, head + 1)
      ensures var p := old(trail[head]);
        if ret == Nothing then BinsScanned(p, W(watches, p.Neg()), false, old(met), met)
        else ScanStopped(p, W(watches, p.Neg()), false, old(met), met)
    {
      hide RunOk, AllListed, AllAttachable, TrailOk, TwoWatched, ForestOk, DepthsOk, DbOf, AncestorsGrow, Derived,
        NodesAre, ClausesOk, LitsBelow, Symmetric, Good, ListGood, EntryGood, TrueBy, BlockedOk, Bins, LongOffs,
        ValuesKept, AllPropagated, AllMet, BinsScanned, ScanStopped, TrailScanned;
      TrailInForest(head);
      ghost var trail0, assigns0, met0 := trail, assigns, met;
      ret, confl := ScanBins(trail[head], false, false);
      NoListScanned(watches, false, met0);
      TrailScanNext(watches, [], trail0[head], false, met0, met0, met);
      if ret == Nothing {
        BinsDoneKept(false, head0, head, lists, trail0, assigns0, met0);
      }
    }

    /** Every irredundant binary clause of the literals from `head0` on is propagated, before anything else. */
    method PropIrredBins(head0: nat) returns (head: nat, ret: PropResult, confl: Conflict)
      requires Valid() && Settled() && rootAt <= head0 <= |trail|
      modifies this`assigns, this`level, this`trail, this`reason, this`depth, this`paths,
               this`uselessBin, this`needToAddBinClause, this`failBinLit, this`met
      ensures Valid() && Since(old(rootAt), old(trail), old(assigns), old(Db()), old(paths))
      ensures head0 <= head <= |trail| && (ret == Fail ==> ConflictOk(confl))
      ensures ret != Fail ==> head == |trail| && BinsDone(false, head0, head)
      ensures ret != Fail ==> TrailScanned(watches, trail[head0..], false, old(met), met)
      ensures old(met) <= met
    {
      hide RunOk, AllListed, AllAttachable, TrailOk, TwoWatched, ForestOk, DepthsOk, DbOf, AncestorsGrow, Derived,
        NodesAre, ClausesOk, LitsBelow, Symmetric, Good, ListGood, EntryGood, TrueBy, BlockedOk, Bins, LongOffs,
        ValuesKept, AllPropagated, AllMet, BinsScanned, ScanStopped, TrailScanned, TrailStopped,
        HyperEngine.BinsDone;
      ret := Nothing;
      confl := LongConfl(0);
      head := head0;
      SinceRefl();
      NoListScanned(watches, false, met);
      NoneToDo(head0);
      assert trail[head0..head] == [];
      while head < |trail|
        invariant Valid() && Since(old(rootAt), old(trail), old(assigns), old(Db()), old(paths))
        invariant head0 <= head <= |trail| && ret == Nothing && BinsDone(false, head0, head)
        invariant TrailScanned(watches, trail[head0..head], false, old(met), met) && old(met) <= met
        decreases nVars - head
      {
        TrailBounded(trail, [rootAt], assigns, level, nVars);
        ghost var trail0, assigns0, paths0, met0 := trail, assigns, paths, met;
        ret, confl := PropIrredOf(head0, head);
        TrailScanNext(watches, trail0[head0..head], trail0[head], false, old(met), met0, met);
        SinceTrans(old(rootAt), old(trail), old(assigns), old(Db()), old(paths), trail0, assigns0, paths0);
        if ret == Fail {
          return;
        }
        assert trail[head0..head + 1] == trail0[head0..head + 1] == trail0[head0..head] + [trail0[head]];
        head := head + 1;
      }
      assert trail[head0..head] == trail[head0..];
    }

    /** What was propagated stays propagated. */
    lemma BinsDoneKept(red: bool, from: nat, to: nat, lists0: WatchLists, trail0: seq<Lit>, assigns0: Assigns,
                       met0: seq<(Lit, Watched)>)
      requires met0 <= met && to <= |trail0| <= |trail| && trail0 <= trail && ValuesKept(assigns0, assigns)
        && SameBins(lists0, lists)
      requires forall i {:trigger trail0[i]} ::
        from <= i < to ==>
          AllPropagated(Bins(W(lists0, trail0[i].Neg())), red, assigns0)
          && AllMet(Bins(W(lists0, trail0[i].Neg())), red, trail0[i], met0)
      ensures BinsDone(red, from, to)
    {
      forall i | from <= i < to
        ensures AllPropagated(Bins(W(lists, trail[i].Neg())), red, assigns)
        ensures AllMet(Bins(W(lists, trail[i].Neg())), red, trail[i], met)
      {
        assert trail[i] == trail0[i];
        MetLater(Bins(W(lists0, trail0[i].Neg())), red, trail0[i], met0, met);
        assert Bins(W(lists0, trail0[i].Neg())) == Bins(W(lists, trail0[i].Neg()));
      }
    }

    /** The redundant binary clauses of one literal. */
    method PropRedOf(head0: nat, head: nat) returns (ret: PropResult, confl: Conflict)
      requires Valid() && Settled() && rootAt <= head0 <= head < |trail| && BinsDone(true, head0, head)
      modifies this`assigns, this`level, this`trail, this`reason, this`depth, this`paths,
               this`uselessBin, this`needToAddBinClause, this`failBinLit, this`met
      ensures Valid() && Since(old(rootAt), old(trail), old(assigns), old(Db()), old(paths))
      ensures ret == Fail ==> ConflictOk(confl)
      ensures ret == Something ==> |trail| > old(|trail|)
      ensures ret == Nothing ==> trail == old(trail)
      ensures BinsDone(true, head0, if ret == Nothing then head + 1 else head)
      ensures var p := old(trail[head]);
        if ret == Nothing then BinsScanned(p, W(watches, p.Neg()), true, old(met), met)
        else ScanStopped(p, W(watches, p.Neg()), true, old(met), met)
    {
      hide RunOk, AllListed, AllAttachable, TrailOk, TwoWatched, ForestOk, DepthsOk, DbOf, AncestorsGrow, Derived,
        NodesAre, ClausesOk, LitsBelow, Symmetric, Good, ListGood, EntryGood, TrueBy, BlockedOk, Bins, LongOffs,
        ValuesKept, AllPropagated, AllMet, BinsScanned, ScanStopped, TrailScanned, TrailStopped;
      TrailInForest(head);
      ghost var trail0, assigns0, met0 := trail, assigns, met;
      ret, confl := ScanBins(trail[head], true, true);
      NoListScanned(watches, true, met0);
      TrailScanNext(watches, [], trail0[head], true, met0, met0, met);
      BinsDoneKept(true, head0, head, lists, trail0, assigns0, met0);
    }

    /** Redundant binary clauses, up to the first literal they enqueue. */
    method PropRedBins(head0: nat) returns (head: nat, ret: PropResult, confl: Conflict)
      requires Valid() && Settled() && rootAt <= head0 <= |trail|
      modifies this`assigns, this`level, this`trail, this`reason, this`depth, this`paths,
               this`uselessBin, this`needToAddBinClause, this`failBinLit, this`met
      ensures Valid() && Since(old(rootAt), old(trail), old(assigns), old(Db()), old(paths))
      ensures head0 <= head <= |trail| && BinsDone(true, head0, head) && (ret == Fail ==> ConflictOk(confl))
      ensures ret == Something ==> |trail| > old(|trail|)
      ensures ret == Nothing ==> head == |trail| && trail == old(trail)
      ensures ret == Nothing ==> TrailScanned(watches, trail[head0..], true, old(met), met)
      ensures ret != Nothing ==>
        head < |trail| && TrailStopped(watches, trail[head0..head], trail[head], true, old(met), met)
      ensures old(met) <= met
    {
      hide RunOk, AllListed, AllAttachable, TrailOk, TwoWatched, ForestOk, DepthsOk, DbOf, AncestorsGrow, Derived,
        NodesAre, ClausesOk, LitsBelow, Symmetric, Good, ListGood, EntryGood, TrueBy, BlockedOk, Bins, LongOffs,
        ValuesKept, AllPropagated, AllMet, BinsScanned, ScanStopped, TrailScanned, TrailStopped,
        HyperEngine.BinsDone;
      ret := Nothing;
      confl := LongConfl(0);
      head := head0;
      SinceRefl();
      NoListScanned(watches, true, met);
      NoneToDo(head0);
      assert trail[head0..head] == [];
      while head < |trail|
        invariant Valid() && Since(old(rootAt), old(trail), old(assigns), old(Db()), old(paths))
        invariant head0 <= head <= |trail| && ret == Nothing && BinsDone(true, head0, head) && trail == old(trail)
        invariant TrailScanned(watches, trail[head0..head], true, old(met), met) && old(met) <= met
        decreases |trail| - head
      {
        ghost var trail0, assigns0, paths0, met0 := trail, assigns, paths, met;
        ret, confl := PropRedOf(head0, head);
        TrailScanNext(watches, trail0[head0..head], trail0[head], true, old(met), met0, met);
        SinceTrans(old(rootAt), old(trail), old(assigns), old(Db()), old(paths), trail0, assigns0, paths0);
        assert trail[head0..head] == trail0[head0..head] && trail[head] == trail0[head];
        if ret != Nothing {
          return;
        }
        assert trail[head0..head + 1] == trail[head0..head] + [trail[head]];
        head := head + 1;
      }
      assert trail[head0..head] == trail[head0..];
    }

    /** A binary entry, which has been propagated before, stays; a long one is dealt with. */
    method ScanEntry(p: Lit, i: nat, j: nat) returns (ret: PropResult, confl: Conflict, j': nat)
      requires Valid() && p in paths && ScanOk(p.Neg(), i, j) && i < |watches[p.Neg()]|
      requires ListGood(watches[p.Neg()][..j], cls, assigns, level, p.Neg())
      requires watches[p.Neg()][i].Bin? ==> EntryGood(cls, assigns, level, p.Neg(), watches[p.Neg()][i])
      modifies this`watches, this`lists, this`cls, this`assigns, this`level, this`trail, this`reason, this`depth,
        this`paths,
               this`needToAddBinClause, this`currAncestors, this`seen, this`toClear
      ensures Valid() && Since(old(rootAt), old(trail), old(assigns), old(Db()), old(paths))
      ensures ScanOk(p.Neg(), i + 1, j') && j <= j' <= j + 1 && |watches[p.Neg()]| == old(|watches[p.Neg()]|)
      ensures Rearranged(old(lists), old(cls), old(assigns), p.Neg())
      ensures |trail| == |old(trail)| + if ret == Something then 1 else 0
      ensures ret == Fail ==> ConflictOk(confl)
      ensures ret == Nothing ==> ListGood(watches[p.Neg()][..j'], cls, assigns, level, p.Neg())
      ensures AtMostForced(ret == Something, old(Db()), old(trail), old(assigns), old(level), old(reason), old(paths),
        old(needToAddBinClause))
    {
      hide RunOk, AllListed, AllAttachable, TrailOk, TwoWatched, ForestOk, DepthsOk, DbOf, NodesAre, ClausesOk,
        LitsBelow, Symmetric, Good, ListGood, EntryGood, TrueBy, BlockedOk, Bins, LongOffs, AncestorsGrow, Derived,
        ValuesKept, View, RearrangedTo, HyperEngine.AtMostForced;
      var np := p.Neg();
      NoneForced(Db());
      if watches[np][i].Bin? {
        ghost var read, w := watches[np][..j], watches[np][i];
        KeepEntry(np, i, j, watches[np][i]);
        ListGoodNext(read, w, cls, assigns, level, np);
        return Nothing, LongConfl(0), j + 1;
      }
      ret, confl, j' := PropNormalClWithAncestorInfo(p, i, j);
    }

    /** The list of ~p is compacted while its long clauses are met, up to the first literal they enqueue. */
    method ScanLongs(p: Lit) returns (ret: PropResult, confl: Conflict)
      requires Valid() && Settled() && p in paths
      requires AllPropagated(Bins(W(lists, p.Neg())), false, assigns)
        && AllPropagated(Bins(W(lists, p.Neg())), true, assigns)
      modifies this`watches, this`lists, this`cls, this`assigns, this`level, this`trail, this`reason, this`depth,
        this`paths,
               this`needToAddBinClause, this`currAncestors, this`seen, this`toClear
      ensures Valid() && Settled() && Since(old(rootAt), old(trail), old(assigns), old(Db()), old(paths))
      ensures Rearranged(old(lists), old(cls), old(assigns), p.Neg())
      ensures ret == Nothing ==> ListGood(W(lists, p.Neg()), cls, assigns, level, p.Neg())
      ensures ret == Fail ==> ConflictOk(confl)
      ensures if ret == Something then |trail| > old(|trail|) else |trail| == old(|trail|)
      ensures AtMostForced(ret == Something, old(Db()), old(trail), old(assigns), old(level), old(reason), old(paths),
        old(needToAddBinClause))
    {
      hide RunOk, AllListed, AllAttachable, TrailOk, TwoWatched, ForestOk, DepthsOk, DbOf, NodesAre, ClausesOk,
        LitsBelow, Symmetric, Good, ListGood, EntryGood, TrueBy, BlockedOk, Bins, LongOffs, AncestorsGrow, Derived,
        ValuesKept, View, RearrangedTo, HyperEngine.AtMostForced;
      var np := p.Neg();
      ret := Nothing;
      confl := LongConfl(0);
      SinceRefl();
      NoneForced(Db());
      TrailLevelOne(p);
      RearrangedRefl(lists, cls, assigns, np);
      ListGoodNone([], cls, assigns, level, np);
      if np !in watches {
        return;
      }
      var i, j := 0, 0;
      var end := |watches[np]|;
      ViewWhole(watches, np);
      assert watches[np][..0] == [];
      while i < end && ret == Nothing
        invariant Valid() && ScanOk(np, i, j) && |watches[np]| == end && i <= end && j <= i
        invariant Since(old(rootAt), old(trail), old(assigns), old(Db()), old(paths))
        invariant Rearranged(old(lists), old(cls), old(assigns), np)
        invariant ret == Nothing ==> ListGood(watches[np][..j], cls, assigns, level, np)
        invariant ret == Fail ==> ConflictOk(confl)
        invariant AtMostForced(ret == Something, old(Db()), old(trail), old(assigns), old(level), old(reason),
          old(paths), old(needToAddBinClause))
        decreases end - i
      {
        ghost var assigns0, lists0, cls0 := assigns, lists, cls;
        NothingForced(old(Db()), old(trail), old(assigns), old(level), old(reason), old(paths),
          old(needToAddBinClause));
        if watches[np][i].Bin? {
          BinHolds(np, i, j, old(lists), old(cls), old(assigns));
        }
        ret, confl, j := ScanEntry(p, i, j);
        RearrangedTrans(old(lists), old(cls), old(assigns), lists0, cls0, assigns0, np, lists, cls);
        i := i + 1;
      }
      ForcedSize(ret == Something, old(Db()), old(trail), old(assigns), old(level), old(reason), old(paths),
        old(needToAddBinClause));
      ghost var assigns0, lists0, cls0 := assigns, lists, cls;
      CopyRest(np, i, j, confl, ret);
      RearrangedTrans(old(lists), old(cls), old(assigns), lists0, cls0, assigns0, np, lists, cls);
    }

    lemma ForcedSize(some: bool, db: Formula, t: seq<Lit>, a: Assigns, lv: map<nat, nat>, r: map<nat, Edge>, ps: Paths,
                     need: set<BinClause>)
      requires AtMostForced(some, db, t, a, lv, r, ps, need)
      ensures |trail| == |t| + if some then 1 else 0
    {
    }

    lemma NothingForced(db: Formula, t: seq<Lit>, a: Assigns, lv: map<nat, nat>, r: map<nat, Edge>, ps: Paths,
                        need: set<BinClause>)
      requires AtMostForced(false, db, t, a, lv, r, ps, need)
      ensures trail == t && assigns == a && level == lv && reason == r && paths == ps && needToAddBinClause == need
    {
    }

    /** The unread rest of the list is copied down and the list cut to its new length. */
    method CopyRest(np: Lit, i0: nat, j0: nat, ghost confl: Conflict, ghost ret: PropResult)
      requires Valid() && ScanOk(np, i0, j0)
      requires ret == Fail ==> ConflictOk(confl)
      requires ret == Nothing ==> i0 == |watches[np]| && ListGood(watches[np][..j0], cls, assigns, level, np)
      modifies this`watches, this`lists
      ensures Valid() && Settled() && Since(old(rootAt), old(trail), old(assigns), old(Db()), old(paths))
      ensures Rearranged(old(lists), cls, assigns, np)
      ensures ret == Fail ==> ConflictOk(confl)
      ensures ret == Nothing ==> ListGood(W(lists, np), cls, assigns, level, np)
    {
      hide RunOk, AllListed, AllAttachable, TrailOk, TwoWatched, ForestOk, DepthsOk, DbOf, NodesAre, ClausesOk,
        LitsBelow, Symmetric, Good, ListGood, EntryGood, TrueBy, BlockedOk, Bins, LongOffs, AncestorsGrow, Derived,
        ValuesKept, View, Entails;
      var i: nat, j: nat := i0, j0;
      SinceRefl();
      RearrangedRefl(lists, cls, assigns, np);
      while i < |watches[np]|
        invariant Valid() && ScanOk(np, i, j)
        invariant Since(old(rootAt), old(trail), old(assigns), old(Db()), old(paths))
        invariant Rearranged(old(lists), cls, assigns, np)
        invariant ret == Nothing ==> i == |watches[np]| && ListGood(watches[np][..j], cls, assigns, level, np)
        decreases |watches[np]| - i
      {
        ghost var lists0 := lists;
        KeepEntry(np, i, j, watches[np][i]);
        RearrangedTrans(old(lists), cls, assigns, lists0, cls, assigns, np, lists, cls);
        i, j := i + 1, j + 1;
      }
      ViewEnd(watches[np], j);
      assert W(lists, np) == watches[np][..j];
      watches := watches[np := watches[np][..j]];
    }

    /** A binary entry that is met during the scan has been propagated before. */
    lemma BinHolds(np: Lit, i: nat, j: nat, lists0: WatchLists, cls0: Clauses, assigns0: Assigns)
      requires TrailValid() && ScanOk(np, i, j) && i < |watches[np]| && watches[np][i].Bin? && np.v in level
        && level[np.v] == 1
      requires Rearranged(lists0, cls0, assigns0, np) && ValuesKept(assigns0, assigns)
      requires AllPropagated(Bins(W(lists0, np)), false, assigns0) && AllPropagated(Bins(W(lists0, np)), true, assigns0)
      ensures EntryGood(cls, assigns, level, np, watches[np][i])
    {
      hide TrailOk, EntryGood, Bins, SameClauses;
      var w := watches[np][i];
      assert W(lists, np)[j] == w && w in W(lists, np);
      InBins(W(lists, np), w);
      assert Bins(W(lists0, np)) == Bins(W(lists, np));
      assert Value(assigns0, w.lit2) == True;
      SatisfiedBin(np, w.lit2, w.red);
    }

    /** One pair of lists, clauses, trail and values has kept its promise, and what came after breaks none. */
    lemma PromiseKept(q: nat, lists0: WatchLists, cls0: Clauses, trail0: seq<Lit>, assigns0: Assigns,
                      level0: map<nat, nat>)
      requires TrailValid() && TrailOk(trail0, [rootAt], assigns0, level0, nVars) && trail0 <= trail && q < |trail0|
      requires Rearranged(lists0, cls0, assigns0, trail0[q].Neg())
      requires Good(lists0, cls0, trail0, assigns0, level0, q, 2)
      ensures Promise(q)
    {
      hide Good, SameBins, SameClauses;
      forall i | 0 <= i < q
        ensures W(lists, trail0[i].Neg()) == W(lists0, trail0[i].Neg())
      {
        assert EntryOk(trail0, [rootAt], assigns0, level0, nVars, i);
        assert trail0[i].v != trail0[q].v;
      }
      GoodRewired(lists0, cls0, lists, cls, trail0, assigns0, level0, q, 2);
      PromiseExtends(q, trail0, assigns0, level0);
    }

    /** A longer trail keeps the promises: the level of a literal depends on its place only. */
    lemma PromiseExtends(q: nat, trail0: seq<Lit>, assigns0: Assigns, level0: map<nat, nat>)
      requires TrailValid() && TrailOk(trail0, [rootAt], assigns0, level0, nVars) && trail0 <= trail && q <= |trail0|
      requires Good(lists, cls, trail0, assigns0, level0, q, 2)
      ensures Promise(q)
    {
      hide TrailOk;
      forall i | 0 <= i < q && trail[i].v in level && level[trail[i].v] < 2
        ensures ListGood(W(lists, trail[i].Neg()), cls, assigns, level, trail[i].Neg())
      {
        assert trail[i] == trail0[i];
        SameLevel(trail0, assigns0, level0, i);
        var np := trail[i].Neg();
        assert ListGood(W(lists, np), cls, assigns0, level0, np);
        forall w | w in W(lists, np)
          ensures EntryGood(cls, assigns, level, np, w)
        {
          assert EntryGood(cls, assigns0, level0, np, w);
          var t :| (w.Bin? ==> t == w.lit2) && (w.Long? ==> t in cls[w.off]) && TrueBy(assigns0, level0, np, t);
          var j := OnTrail(trail0, [rootAt], assigns0, level0, nVars, t);
          SameLevel(trail0, assigns0, level0, j);
          assert TrueBy(assigns, level, np, t);
        }
      }
    }

    lemma SameLevel(trail0: seq<Lit>, assigns0: Assigns, level0: map<nat, nat>, i: nat)
      requires TrailValid() && TrailOk(trail0, [rootAt], assigns0, level0, nVars) && trail0 <= trail && i < |trail0|
      ensures var v := trail0[i].v;
        Value(assigns0, trail0[i]) == True && Value(assigns, trail0[i]) == True && v in level0 && v in level
          && level[v] == level0[v] < 2
    {
      assert EntryOk(trail0, [rootAt], assigns0, level0, nVars, i);
      assert trail[i] == trail0[i] && [rootAt][0] == rootAt;
      assert EntryOk(trail, [rootAt], assigns, level, nVars, i);
    }

    lemma PromiseNext(q: nat)
      requires Promise(q) && q < |trail| && ListGood(W(lists, trail[q].Neg()), cls, assigns, level, trail[q].Neg())
      ensures Promise(q + 1)
    {
    }

    /** With the promise for the whole trail, no clause of the database is unit or falsified. */
    lemma NothingLeft(c: Clause)
      requires TrailValid() && WatchesValid() && Promise(|trail|) && c in Db()
      ensures Quiet(assigns, c)
    {
      if c in Units(trail[..rootAt]) {
        var l :| l in trail[..rootAt] && c == {l};
        var i :| 0 <= i < rootAt && trail[..rootAt][i] == l;
        assert EntryOk(trail, [rootAt], assigns, level, nVars, i);
      } else {
        NoneUnitNoneFalse(lists, cls, trail, [rootAt], assigns, level, nVars, c);
      }
    }

    /** Nothing but consequences was set: all of them, or enough to falsify a clause. */
    lemma OutcomeHolds(trail0: seq<Lit>, failed: bool, confl: Conflict)
      requires TrailValid() && WatchesValid() && Derived(Db(), trail0, trail) && trail0 <= trail
      requires if failed then ConflictOk(confl) else Promise(|trail|)
      ensures Outcome(Db(), Set(trail0), failed, Set(trail))
    {
      hide TwoWatched, Symmetric, BlockedOk, LitsBelow, Good, DbOf, ClausesOk, Closure;
      if failed {
        var c := match confl { case BinConfl(k) => {k, failBinLit} case LongConfl(off) => Lits(cls[off]) };
        ClauseOfConflict(confl);
        forall k | k in c
          ensures k.Neg() in Set(trail)
        {
          var i := OnTrail(trail, [rootAt], assigns, level, nVars, k.Neg());
        }
        FalsifiedGrows(Db(), c, Set(trail), Closure(Db(), Set(trail0)));
      } else {
        forall c | c in Db()
          ensures Quiet(assigns, c)
        {
          NothingLeft(c);
        }
        QuietIsClosed(Db(), trail, [rootAt], assigns, level, nVars);
        forall l | l in Set(trail0)
          ensures l in Set(trail)
        {
          var i :| 0 <= i < |trail0| && trail0[i] == l;
          assert trail[i] == l;
        }
        ClosedInsideIsClosure(Db(), Set(trail0), Set(trail));
      }
    }

    lemma ClauseOfConflict(confl: Conflict)
      requires rootAt < |trail| && ConflictOk(confl)
      ensures match confl { case BinConfl(k) => {k, failBinLit} in Db() case LongConfl(off) =>
        off in cls && Lits(cls[off]) in Db() }
    {
      if confl.LongConfl? {
        assert Lits(cls[confl.off]) in LongClauses(cls);
      }
    }

    lemma FreshForest()
      requires TrailValid() && |trail| == rootAt + 1 && Root().v in depth && depth[Root().v] == 0
      requires Root().v in reason && reason[Root().v] == Edge(None, false, false, false)
        && paths == map[Root() := [Root()]]
      ensures ForestValid() && RunOk(lists, Rest(), {}, {}, Root(), reason, paths)
    {
      hide TrailOk, DbOf, LongClauses, Units, BinClauses, Entails;
      assert trail[rootAt..] == [Root()];
      assert NodeOk(Root(), reason, paths, Root());
    }

    lemma BinsDoneJoin(red: bool, from: nat, mid: nat, to: nat)
      requires BinsDone(red, from, mid) && BinsDone(red, mid, to) && from <= mid <= to
      ensures BinsDone(red, from, to)
    {
    }

    /** One pass over irredundant binaries, redundant binaries and long clauses, in this order of preference. */
    method Round(head0: nat, nl0: nat, lb0: nat)
      returns (nlBinQHead: nat, lBinQHead: nat, ret: PropResult, confl: Conflict)
      requires Valid() && Settled() && rootAt <= head0 <= nl0 <= |trail| && head0 <= lb0 <= |trail|
        && head0 <= qhead <= |trail|
      requires BinsDone(false, head0, nl0) && BinsDone(true, head0, lb0)
      modifies this`watches, this`lists, this`cls, this`assigns, this`level, this`trail, this`reason, this`depth,
        this`paths,
               this`needToAddBinClause, this`uselessBin, this`failBinLit, this`currAncestors, this`seen, this`toClear,
                 this`qhead, this`met
      ensures Valid() && Settled() && Since(old(rootAt), old(trail), old(assigns), old(Db()), old(paths))
      ensures head0 <= nlBinQHead <= |trail| && head0 <= lBinQHead <= |trail| && old(qhead) <= qhead <= |trail|
      ensures BinsDone(false, head0, nlBinQHead) && BinsDone(true, head0, lBinQHead)
      ensures ret == Fail ==> ConflictOk(confl)
      ensures ret == Something ==> |trail| > old(|trail|)
      ensures ret == Nothing ==> nlBinQHead == |trail| == lBinQHead == qhead
      ensures SameBins(old(lists), lists)
      ensures ret != Fail && old(Promise(qhead)) ==> Promise(qhead)
    {
      hide RunOk, AllListed, AllAttachable, TrailOk, TwoWatched, ForestOk, DepthsOk, DbOf, NodesAre, ClausesOk,
        LitsBelow, Symmetric, Good, ListGood, EntryGood, TrueBy, BlockedOk, Bins, LongOffs, AncestorsGrow, Derived,
        ValuesKept, Entails, AllPropagated, SeenListed, SameBins;
      ghost var level0 := level;
      var done;
      nlBinQHead, done, ret, confl := PropBins(head0, nl0, lb0);
      lBinQHead := done;
      SameBinsRefl(lists);
      if old(Promise(qhead)) {
        PromiseExtends(qhead, old(trail), old(assigns), level0);
      }
      if ret != Nothing {
        return;
      }
      ghost var lists0, trail0, assigns0, paths0 := lists, trail, assigns, paths;
      ret, confl := PropLongs();
      BinsDoneKept(false, head0, nlBinQHead, lists0, trail0, assigns0, met);
      BinsDoneKept(true, head0, lBinQHead, lists0, trail0, assigns0, met);
      SinceTrans(old(rootAt), old(trail), old(assigns), old(Db()), old(paths), trail0, assigns0, paths0);
    }

    /** Long clauses, from `qhead` on, up to the first literal they enqueue. */
    method PropLongs() returns (ret: PropResult, confl: Conflict)
      requires Valid() && Settled() && rootAt <= qhead <= |trail| && BinsDone(false, qhead, |trail|)
        && BinsDone(true, qhead, |trail|)
      modifies this`watches, this`lists, this`cls, this`assigns, this`level, this`trail, this`reason, this`depth,
        this`paths,
               this`needToAddBinClause, this`currAncestors, this`seen, this`toClear, this`qhead
      ensures Valid() && Settled() && Since(old(rootAt), old(trail), old(assigns), old(Db()), old(paths))
      ensures old(qhead) <= qhead <= |trail| && SameBins(old(lists), lists)
      ensures ret == Fail ==> ConflictOk(confl)
      ensures ret == Something ==> |trail| > old(|trail|)
      ensures ret == Nothing ==> |trail| == old(|trail|) == qhead
      ensures ret != Fail && old(Promise(qhead)) ==> Promise(qhead)
      ensures AtMostForced(ret == Something, old(Db()), old(trail), old(assigns), old(level), old(reason), old(paths),
        old(needToAddBinClause))
    {
      hide RunOk, AllListed, AllAttachable, TrailOk, TwoWatched, ForestOk, DepthsOk, DbOf, NodesAre, ClausesOk,
        LitsBelow, Symmetric, Good, ListGood, EntryGood, TrueBy, BlockedOk, Bins, LongOffs, AncestorsGrow, Derived,
        ValuesKept, Entails, SeenListed, SameBins, HyperEngine.BinsDone, HyperEngine.Promise, HyperEngine.AtMostForced;
      ret := Nothing;
      confl := LongConfl(0);
      SinceRefl();
      SameBinsRefl(lists);
      NoneForced(Db());
      var head := qhead;
      while head < |trail| && ret == Nothing
        invariant Valid() && Settled() && Since(old(rootAt), old(trail), old(assigns), old(Db()), old(paths))
        invariant old(qhead) <= head <= |trail| && SameBins(old(lists), lists)
        invariant ret == Nothing ==> BinsDone(false, head, |trail|) && BinsDone(true, head, |trail|)
        invariant ret != Fail && old(Promise(qhead)) ==> Promise(head)
        invariant ret == Fail ==> ConflictOk(confl)
        invariant if ret == Something then |trail| > old(|trail|) else |trail| == old(|trail|)
        invariant AtMostForced(ret == Something, old(Db()), old(trail), old(assigns), old(level), old(reason),
          old(paths), old(needToAddBinClause))
        decreases ret == Nothing, |trail| - head
      {
        ghost var lists0 := lists;
        NothingForced(old(Db()), old(trail), old(assigns), old(level), old(reason), old(paths),
          old(needToAddBinClause));
        ghost var kept := Promise(head);
        ret, confl := PropLongsOf(head, kept);
        SameBinsTrans(old(lists), lists0, lists);
        if ret == Nothing {
          head := head + 1;
        }
      }
      qhead := if ret == Fail then |trail| else head;
    }

    /** The long clauses of one falsified literal, whose binary clauses have been dealt with. */
    method PropLongsOf(head: nat, ghost kept: bool) returns (ret: PropResult, confl: Conflict)
      requires Valid() && Settled() && rootAt <= head < |trail| && BinsDone(false, head, |trail|)
        && BinsDone(true, head, |trail|)
      requires kept ==> Promise(head)
      modifies this`watches, this`lists, this`cls, this`assigns, this`level, this`trail, this`reason, this`depth,
        this`paths,
               this`needToAddBinClause, this`currAncestors, this`seen, this`toClear
      ensures Valid() && Settled() && Since(old(rootAt), old(trail), old(assigns), old(Db()), old(paths))
        && SameBins(old(lists), lists)
      ensures ret == Fail ==> ConflictOk(confl)
      ensures if ret == Something then |trail| > old(|trail|) else |trail| == old(|trail|)
      ensures ret == Nothing ==> BinsDone(false, head + 1, |trail|) && BinsDone(true, head + 1, |trail|)
      ensures kept ==> Promise(if ret == Nothing then head + 1 else head)
      ensures AtMostForced(ret == Something, old(Db()), old(trail), old(assigns), old(level), old(reason), old(paths),
        old(needToAddBinClause))
    {
      hide RunOk, AllListed, AllAttachable, TrailOk, TwoWatched, ForestOk, DepthsOk, DbOf, NodesAre, ClausesOk,
        LitsBelow, Symmetric, Good, ListGood, EntryGood, TrueBy, BlockedOk, Bins, LongOffs, AncestorsGrow, Derived,
        ValuesKept, AllPropagated, SameClauses, HyperEngine.AtMostForced;
      TrailInForest(head);
      ghost var lists0, trail0, assigns0, cls0, level0 := lists, trail, assigns, cls, level;
      ret, confl := ScanLongs(trail[head]);
      BinsDoneKept(false, head + 1, |trail0|, lists0, trail0, assigns0, met);
      BinsDoneKept(true, head + 1, |trail0|, lists0, trail0, assigns0, met);
      if kept {
        PromiseKept(head, lists0, cls0, trail0, assigns0, level0);
        if ret == Nothing {
          PromiseNext(head);
        }
      }
    }

    method PropBins(head0: nat, nl0: nat, lb0: nat)
      returns (nlBinQHead: nat, lBinQHead: nat, ret: PropResult, confl: Conflict)
      requires Valid() && Settled() && rootAt <= head0 <= nl0 <= |trail| && head0 <= lb0 <= |trail|
      requires BinsDone(false, head0, nl0) && BinsDone(true, head0, lb0)
      modifies this`assigns, this`level, this`trail, this`reason, this`depth, this`paths,
               this`uselessBin, this`needToAddBinClause, this`failBinLit, this`met
      ensures Valid() && Settled() && Since(old(rootAt), old(trail), old(assigns), old(Db()), old(paths))
      ensures head0 <= nlBinQHead <= |trail| && head0 <= lBinQHead <= |trail|
      ensures BinsDone(false, head0, nlBinQHead) && BinsDone(true, head0, lBinQHead)
      ensures ret == Fail ==> ConflictOk(confl)
      ensures ret == Something ==> |trail| > old(|trail|)
      ensures ret == Nothing ==> nlBinQHead == |trail| == lBinQHead
      // the irredundant ones of all literals first, then the redundant ones
      ensures old(met) <= met
      ensures ret != Fail ==>
        nl0 <= nlBinQHead && lb0 <= lBinQHead
        && exists met1 {:trigger TrailScanned(watches, trail[nl0..nlBinQHead], false, old(met), met1)} ::
          TrailScanned(watches, trail[nl0..nlBinQHead], false, old(met), met1)
          && if ret == Nothing then TrailScanned(watches, trail[lb0..], true, met1, met)
             else lBinQHead < |trail| && TrailStopped(watches, trail[lb0..lBinQHead], trail[lBinQHead], true, met1, met)
    {
      hide RunOk, AllListed, AllAttachable, TrailOk, TwoWatched, ForestOk, DepthsOk, DbOf, NodesAre, ClausesOk,
        LitsBelow, Symmetric, Good, ListGood, EntryGood, TrueBy, BlockedOk, Bins, LongOffs, AncestorsGrow, Derived,
        ValuesKept, Entails, AllPropagated, SeenListed, SameBins, TrailScanned, TrailStopped, AllMet;
      nlBinQHead, lBinQHead := nl0, lb0;
      ghost var trail0, assigns0, paths0, met0 := trail, assigns, paths, met;
      SameBinsRefl(lists);
      var head;
      head, ret, confl := PropIrredBins(nl0);
      BinsDoneKept(false, head0, nl0, lists, trail0, assigns0, met0);
      BinsDoneKept(true, head0, lb0, lists, trail0, assigns0, met0);
      if ret == Fail {
        return;
      }
      nlBinQHead := head;
      BinsDoneJoin(false, head0, nl0, head);
      ghost var trail1, assigns1, paths1, met1 := trail, assigns, paths, met;
      head, ret, confl := PropRedBins(lb0);
      BinsDoneKept(false, head0, nlBinQHead, lists, trail1, assigns1, met1);
      BinsDoneKept(true, head0, lb0, lists, trail1, assigns1, met1);
      assert trail[nl0..nlBinQHead] == trail1[nl0..];
      lBinQHead := head;
      BinsDoneJoin(true, head0, lb0, head);
      SinceTrans(rootAt, trail0, assigns0, old(Db()), paths0, trail1, assigns1, paths1);
    }

    /** The forest of a decision that has just been made: the decision alone. */
    method SetUpRoot()
      requires TrailValid() && WatchesValid() && ScratchClean() && uselessBin == {} && rootAt <= qhead <= |trail|
      requires |trail| == rootAt + 1 ==> qhead == rootAt && Root().v in depth && depth[Root().v] == 0
      requires |trail| > rootAt + 1 ==> ForestValid() && RunOk(lists, Rest(), {}, {}, Root(), reason, paths)
      modifies this`needToAddBinClause, this`reason, this`paths, this`met
      ensures met == [] && Valid() && (|trail| > rootAt + 1 ==> paths == old(paths))
    {
      hide RunOk, AllListed, AllAttachable, TrailOk, TwoWatched, ForestOk, DepthsOk, DbOf, NodesAre, ClausesOk,
        LitsBelow, Symmetric, Good, ListGood, EntryGood, TrueBy, BlockedOk, SeenListed;
      needToAddBinClause, met := {}, [];
      NonePending(lists, trail[..rootAt], nVars);
      if |trail| - rootAt == 1 {
        var root := trail[qhead];
        reason := reason[root.v := Edge(None, false, false, false)];
        paths := map[root := [root]];
        FreshForest();
      }
    }

    /**
     Breadth-first propagation of the decision: irredundant binaries first, then redundant ones, then long
     clauses. Returns the failed literal if a clause was falsified.
     */
    method PropagateBfs(timeout: nat) returns (failed: Option<Lit>)
      requires TrailValid() && WatchesValid() && ScratchClean() && Settled()
      requires rootAt <= qhead <= |trail| && uselessBin == {}
      // the decision has just been made, or this is a return to level 1 with the forest still standing
      requires |trail| == rootAt + 1 ==> qhead == rootAt && Root().v in depth && depth[Root().v] == 0
      requires |trail| > rootAt + 1 ==> ForestValid() && RunOk(lists, Rest(), {}, {}, Root(), reason, paths)
      modifies this
      ensures rootAt == old(rootAt) < |trail| && old(trail) <= trail && Db() == old(Db())
      ensures Valid() && Settled()
      ensures |old(trail)| > rootAt + 1 ==> AncestorsGrow(old(paths), paths)
      ensures failed.Some? ==> failed.value in paths && Entails(Db(), {failed.value.Neg()})
      // it is the deepest literal above those of a falsified clause
      ensures failed.Some? ==> exists c: Clause :: FailedBy(c, failed.value)
      ensures failed.None? && !timedOutPropagateFull ==>
        BinsDone(false, old(qhead), |trail|) && BinsDone(true, old(qhead), |trail|)
      // when time has not run out, the outcome is that of unit propagation: all that follows by it,
      // or a clause it falsifies
      ensures failed.None? && !timedOutPropagateFull ==> qhead == |trail| && (old(Promise(qhead)) ==> Promise(|trail|))
      ensures !timedOutPropagateFull && (failed.Some? || old(Promise(qhead))) ==>
        Outcome(Db(), Set(old(trail)), failed.Some?, Set(trail))
      ensures failed.Some? ==> !timedOutPropagateFull
      // a round for each variable is time enough
      ensures timedOutPropagateFull ==> timeout < nVars
      // each binary clause stays in its lists as often as before, which is what carrying the outcome out relies on
      ensures SameBins(old(lists), lists) && (old(OccTheory.BinsOk(lists)) ==> OccTheory.BinsOk(lists))
    {
      hide RunOk, AllListed, AllAttachable, TrailOk, TwoWatched, ForestOk, DepthsOk, DbOf, NodesAre, ClausesOk,
        LitsBelow, Symmetric, Good, ListGood, EntryGood, TrueBy, BlockedOk, Bins, LongOffs, AncestorsGrow, Derived,
        ValuesKept, Entails, AllPropagated, SeenListed, SameBins, OccTheory.BinsOk, Outcome, HyperEngine.FailedBy;
      SetUpRoot();
      ghost var paths1 := paths;
      var ret, confl := PropagateAll(timeout);
      PathsGrown(old(rootAt), old(trail), old(assigns), old(Db()), paths1);
      BinsOkKept(old(lists));
      if ret == Fail || (!timedOutPropagateFull && old(Promise(qhead))) {
        OutcomeHolds(old(trail), ret == Fail, confl);
      }
      if ret == Fail {
        var l := AnalyzeFail(confl);
        failed := Some(l);
      } else {
        failed := None;
      }
    }

    lemma BinsOkKept(lists0: WatchLists)
      requires SameBins(lists0, lists)
      ensures OccTheory.BinsOk(lists0) ==> OccTheory.BinsOk(lists)
    {
      if OccTheory.BinsOk(lists0) {
        SameBinsOk(lists0, lists);
      }
    }

    lemma PathsGrown(rootAt0: nat, trail0: seq<Lit>, assigns0: Assigns, db0: Formula, paths0: Paths)
      requires Since(rootAt0, trail0, assigns0, db0, paths0)
      ensures AncestorsGrow(paths0, paths) && Derived(db0, trail0, trail)
    {
    }

    lemma NoneToDo(head: nat)
      requires head <= |trail|
      ensures BinsDone(false, head, head) && BinsDone(true, head, head)
    {
    }

    /**
     Rounds of propagation until nothing is enqueued any more, a clause is falsified or time is up, which is after
     `timeout` rounds.
     */
    method PropagateAll(timeout: nat) returns (ret: PropResult, confl: Conflict)
      requires Valid() && Settled() && rootAt <= qhead <= |trail|
      modifies this`watches, this`lists, this`cls, this`assigns, this`level, this`trail, this`reason, this`depth,
        this`paths,
               this`needToAddBinClause, this`uselessBin, this`failBinLit, this`currAncestors, this`seen, this`toClear,
                 this`qhead, this`timedOutPropagateFull, this`met
      ensures Valid() && Settled() && Since(old(rootAt), old(trail), old(assigns), old(Db()), old(paths))
      ensures ret == Fail ==> ConflictOk(confl)
      ensures ret == Fail ==> !timedOutPropagateFull
      ensures timedOutPropagateFull ==> timeout < nVars
      ensures SameBins(old(lists), lists)
      ensures ret != Fail && !timedOutPropagateFull ==>
        BinsDone(false, old(qhead), |trail|) && BinsDone(true, old(qhead), |trail|)
      ensures ret != Fail && !timedOutPropagateFull ==> qhead == |trail| && (old(Promise(qhead)) ==> Promise(|trail|))
    {
      hide RunOk, AllListed, AllAttachable, TrailOk, TwoWatched, ForestOk, DepthsOk, DbOf, NodesAre, ClausesOk,
        LitsBelow, Symmetric, Good, ListGood, EntryGood, TrueBy, BlockedOk, Bins, LongOffs, AncestorsGrow, Derived,
        ValuesKept, Entails, AllPropagated, SeenListed, HyperEngine.BinsDone, HyperEngine.Promise;
      timedOutPropagateFull := false;
      var head0 := qhead;
      NoneToDo(head0);
      SinceRefl();
      SameBinsRefl(lists);
      var nlBinQHead, lBinQHead := qhead, qhead;
      confl := LongConfl(0);
      ret := Something;
      var left := timeout;
      TrailBounded(trail, [rootAt], assigns, level, nVars);
      while ret == Something
        invariant Valid() && Settled() && Since(old(rootAt), old(trail), old(assigns), old(Db()), old(paths))
        invariant rootAt <= head0 <= nlBinQHead <= |trail| && head0 <= lBinQHead <= |trail| && head0 <= qhead <= |trail|
        invariant ret != Fail && old(Promise(qhead)) ==> Promise(qhead)
        invariant !timedOutPropagateFull && SameBins(old(lists), lists)
        invariant BinsDone(false, head0, nlBinQHead) && BinsDone(true, head0, lBinQHead)
        invariant ret == Fail ==> ConflictOk(confl)
        invariant ret == Nothing ==> nlBinQHead == |trail| == lBinQHead == qhead
        invariant |trail| <= nVars && (ret == Something ==> timeout - left <= |trail| - |old(trail)|)
        decreases ret == Something, nVars - |trail|
      {
        ghost var trail0, assigns0, paths0, lists0 := trail, assigns, paths, lists;
        // early abort if too much time was used
        if left == 0 {
          timedOutPropagateFull := true;
          return;
        }
        left := left - 1;
        nlBinQHead, lBinQHead, ret, confl := Round(head0, nlBinQHead, lBinQHead);
        SameBinsTrans(old(lists), lists0, lists);
        TrailBounded(trail, [rootAt], assigns, level, nVars);
        SinceTrans(old(rootAt), old(trail), old(assigns), old(Db()), old(paths), trail0, assigns0, paths0);
      }
    }

    /**
     What the caller may do with the outcome of a pass: remove the clauses of `uselessBin` and attach those of
     `needToAddBinClause`. The models stay the same, for the whole database and for its irredundant binaries alone.
     */
    lemma PassKeepsModels(m: Model)
      requires Valid()
      ensures FormulaTrue(m, Kept(lists, Rest(), needToAddBinClause, uselessBin)) <==> FormulaTrue(m, Db())
      ensures FormulaTrue(m, BinClauses(lists, false) - Discarded(uselessBin, false)) <==>
        FormulaTrue(m, BinClauses(lists, false))
    {
      ReductionKeepsModels(lists, Rest(), needToAddBinClause, uselessBin, Root(), reason, paths, m);
      IrredReductionKeepsModels(lists, Rest(), needToAddBinClause, uselessBin, Root(), reason, paths, m);
    }

    // ----- carrying it out -----

    /** Undoes the decision and all that was propagated. */
    method CancelUntilZero()
      requires TrailValid()
      modifies this`assigns, this`trail, this`qhead
      ensures trail == old(trail)[..rootAt] && qhead == rootAt && TrailOk(trail, [], assigns, level, nVars)
      ensures old(Good(lists, cls, trail, assigns, level, rootAt, 1)) ==>
        Good(lists, cls, trail, assigns, level, rootAt, 1)
    {
      hide TrailOk, Good;
      var a := assigns;
      var i := |trail|;
      AllOnTrail();
      while i > rootAt
        modifies {}
        invariant rootAt <= i <= |trail|
        invariant forall v :: v in a <==> v in assigns && exists j :: 0 <= j < i && trail[j].v == v
        invariant forall v :: v in a ==> a[v] == assigns[v]
      {
        i := i - 1;
        OneLess(a, i);
        a := a - {trail[i].v};
      }
      FactsStay(a);
      assigns := a;
      trail := trail[..rootAt];
      qhead := rootAt;
    }

    lemma AllOnTrail()
      requires TrailValid()
      ensures forall v :: v in assigns ==> exists j :: 0 <= j < |trail| && trail[j].v == v
    {
    }

    lemma OneLess(a: Assigns, i: nat)
      requires TrailValid() && i < |trail|
      requires forall v :: v in a <==> v in assigns && exists j :: 0 <= j < i + 1 && trail[j].v == v
      ensures forall v :: v in a - {trail[i].v} <==> v in assigns && exists j :: 0 <= j < i && trail[j].v == v
    {
      forall v | v in assigns && exists j :: 0 <= j < i && trail[j].v == v
        ensures v in a - {trail[i].v}
      {
        var j :| 0 <= j < i && trail[j].v == v;
        assert trail[j].v != trail[i].v;
      }
    }

    lemma FactsStay(a: Assigns)
      requires TrailValid()
      requires forall v :: v in a <==> v in assigns && exists j :: 0 <= j < rootAt && trail[j].v == v
      requires forall v :: v in a ==> a[v] == assigns[v]
      ensures TrailOk(trail[..rootAt], [], a, level, nVars)
      ensures Good(lists, cls, trail, assigns, level, rootAt, 1) ==>
        Good(lists, cls, trail[..rootAt], a, level, rootAt, 1)
    {
      var lim := [rootAt];
      forall i | 0 <= i < rootAt
        ensures trail[i].v in a
      {
        assert EntryOk(trail, lim, assigns, level, nVars, i);
      }
      TrailPrefix(trail, lim, assigns, a, level, nVars, 0);
      assert lim[..0] == [] && lim[0] == rootAt;
      if Good(lists, cls, trail, assigns, level, rootAt, 1) {
        GoodAfterUndo(lists, cls, trail, lim, assigns, a, level, nVars, rootAt, 0, 1);
      }
    }

    /** `attach_bin_clause` */
    method AttachBinClause(a: Lit, b: Lit, red: bool)
      requires Settled()
      modifies this`watches, this`lists
      ensures Settled() && watches == WithBin(old(watches), a, b, red)
    {
      watches := watches[a := W(watches, a) + [Bin(b, red)]];
      watches := watches[b := W(watches, b) + [Bin(a, red)]];
      lists := watches;
    }

    /** `removeWBin`: the first such entry goes, the later ones move down. */
    method RemoveWBin(lit1: Lit, lit2: Lit, red: bool) returns (ghost rest: seq<Watched>)
      requires Settled() && Bin(lit2, red) in W(watches, lit1)
      modifies this`watches, this`lists
      ensures Settled() && watches == old(watches)[lit1 := rest]
        && OccTheory.WithoutOne(W(old(watches), lit1), rest, Bin(lit2, red))
    {
      var ws := W(watches, lit1);
      var i: nat := 0;
      ghost var at :| 0 <= at < |ws| && ws[at] == Bin(lit2, red);
      while ws[i] != Bin(lit2, red)
        invariant i <= at
        decreases |ws| - i
      {
        i := i + 1;
      }
      OccTheory.TakenOut(ws, i);
      rest := ws[..i] + ws[i + 1..];
      watches := watches[lit1 := ws[..i] + ws[i + 1..]];
      lists := watches;
    }

    /** Attaches the hyper-binary clauses, leaving out, if asked to, those that are satisfied already. */
    method HyperBinResAll(checkForSetValues: bool) returns (added: nat)
      requires WatchesValid() && Settled() && OccTheory.BinsOk(watches)
      requires AllAttachable(needToAddBinClause, [], nVars) && forall b :: b in needToAddBinClause ==> b.red
      requires checkForSetValues ==>
        forall b :: b in needToAddBinClause && !TrueClause(assigns, b) ==> forall l ::
        l in b.lits ==> Value(assigns, l) == Undef
      modifies this`watches, this`lists, this`needToAddBinClause
      ensures WatchesValid() && Settled() && OccTheory.BinsOk(watches) && needToAddBinClause == {}
      ensures var more := ToAttach(old(needToAddBinClause), assigns, checkForSetValues);
        added == |more| && Counted(old(watches), watches, more, {}) && SameLongs(old(watches), watches)
    {
      hide TwoWatched, LitsBelow, Symmetric, BlockedOk, OccTheory.BinsOk, Counted, SameLongs, TrueClause, W, WithBin,
        LongOffs, ToAttach;
      ghost var done: set<BinClause> := {};
      added := 0;
      NoneToAttach(needToAddBinClause, assigns, checkForSetValues);
      CountedRefl(watches);
      var todo := needToAddBinClause;
      while todo != {}
        modifies this`watches, this`lists
        invariant todo <= needToAddBinClause && done == ToAttach(needToAddBinClause - todo, assigns, checkForSetValues)
        invariant Settled() && OccTheory.BinsOk(watches) && added == |done|
        invariant Counted(old(watches), watches, done, {}) && SameLongs(old(watches), watches)
        decreases |todo|
      {
        var b :| b in todo;
        var attached;
        attached, done := AttachUnlessTrue(b, checkForSetValues, old(watches), done, todo);
        added := if attached then added + 1 else added;
        todo := todo - {b};
      }
      assert needToAddBinClause - todo == needToAddBinClause;
      AttachedAmong(needToAddBinClause, assigns, checkForSetValues);
      AttachableBelow(done, needToAddBinClause, nVars);
      ListsStayValid(old(watches), watches, cls, nVars, done, {});
      needToAddBinClause := {};
    }

    /** One clause of those that are still waiting. `done` are the ones attached so far. */
    method AttachUnlessTrue(b: BinClause, checkForSetValues: bool, ghost ws0: WatchLists, ghost done: set<BinClause>,
                            ghost todo: set<BinClause>)
      returns (attached: bool, ghost done': set<BinClause>)
      requires Settled() && OccTheory.BinsOk(watches) && Attachable(b, [], nVars) && b.red
      requires b in todo && todo <= needToAddBinClause
        && done == ToAttach(needToAddBinClause - todo, assigns, checkForSetValues)
      requires Counted(ws0, watches, done, {}) && SameLongs(ws0, watches)
      modifies this`watches, this`lists
      ensures Settled() && OccTheory.BinsOk(watches) && attached == !(checkForSetValues && TrueClause(assigns, b))
      ensures done' == ToAttach(needToAddBinClause - (todo - {b}), assigns, checkForSetValues)
      ensures |done'| == |done| + (if attached then 1 else 0) && Counted(ws0, watches, done', {})
        && SameLongs(ws0, watches)
    {
      hide OccTheory.BinsOk, Counted, SameLongs, TrueClause, W, WithBin, ToAttach;
      NextToAttach(needToAddBinClause, todo, assigns, checkForSetValues, b);
      var lit1, lit2 := LitsOfClause(b);
      NotTrue(assigns, b, lit1, lit2);
      attached := !(checkForSetValues && (Value(assigns, lit1) == True || Value(assigns, lit2) == True));
      if attached {
        assert b == BinClause({lit1, lit2}, true);
        WithBinCounts(ws0, watches, done, {}, lit1, lit2, true);
        AttachBinClause(lit1, lit2, true);
      }
      done' := if attached then done + {b} else done;
    }

    /** Takes every clause recorded as useless out of both of its lists, once. */
    method RemoveUselessBins() returns (removedIrred: nat, removedRed: nat)
      requires WatchesValid() && Settled() && OccTheory.BinsOk(watches) && AllListed(watches, uselessBin)
      modifies this`watches, this`lists, this`uselessBin
      ensures WatchesValid() && Settled() && OccTheory.BinsOk(watches) && uselessBin == {}
      ensures Counted(old(watches), watches, {}, old(uselessBin)) && SameLongs(old(watches), watches)
      ensures removedIrred == |Kind(old(uselessBin), false)| && removedRed == |Kind(old(uselessBin), true)|
    {
      hide TwoWatched, LitsBelow, Symmetric, BlockedOk, OccTheory.BinsOk, OccTheory.WithoutOne, OccTheory.Cnt, Counted,
        SameLongs, W, Listed, LongOffs, Kind;
      removedIrred, removedRed := 0, 0;
      CountedRefl(watches);
      var todo := uselessBin;
      ghost var gone: set<BinClause> := {};
      NoKind();
      while todo != {}
        modifies this`watches, this`lists
        invariant todo <= uselessBin && gone == uselessBin - todo
        invariant removedIrred == |Kind(gone, false)| && removedRed == |Kind(gone, true)|
        invariant Settled() && OccTheory.BinsOk(watches)
        invariant Counted(old(watches), watches, {}, gone) && SameLongs(old(watches), watches)
        decreases |todo|
      {
        var b :| b in todo;
        var lit1, lit2 := RemoveBin(b, old(watches), gone);
        KindNext(gone, b, false);
        KindNext(gone, b, true);
        if b.red {
          removedRed := removedRed + 1;
        } else {
          removedIrred := removedIrred + 1;
        }
        todo := todo - {b};
        gone := gone + {b};
      }
      assert gone == uselessBin;
      ListsStayValid(old(watches), watches, cls, nVars, {}, gone);
      uselessBin := {};
    }

    method RemoveBin(b: BinClause, ghost ws0: WatchLists, ghost gone: set<BinClause>) returns (lit1: Lit, lit2: Lit)
      requires Settled() && OccTheory.BinsOk(ws0) && OccTheory.BinsOk(watches) && Listed(ws0, b) && b !in gone
      requires Counted(ws0, watches, {}, gone) && SameLongs(ws0, watches)
      modifies this`watches, this`lists
      ensures Settled() && OccTheory.BinsOk(watches)
      ensures Counted(ws0, watches, {}, gone + {b}) && SameLongs(ws0, watches)
    {
      hide OccTheory.BinsOk, OccTheory.WithoutOne, OccTheory.Cnt, Counted, SameLongs, LongOffs, Listed, WithoutBin;
      ghost var ws := watches;
      StillListed(ws0, watches, {}, gone, b);
      ListedIsPair(watches, b);
      lit1, lit2 := LitsOfClause(b);
      ListedPair(watches, b, lit1, lit2);
      ListedPair(watches, b, lit2, lit1);
      assert b == BinClause({lit1, lit2}, b.red);
      ghost var la := RemoveWBin(lit1, lit2, b.red);
      assert W(watches, lit2) == W(ws, lit2);
      ghost var lb := RemoveWBin(lit2, lit1, b.red);
      TakenFromBoth(ws, lit1, lit2, b.red, la, lb);
      WithoutBinOk(ws, watches, lit1, lit2, b.red);
      WithoutBinCounts(ws0, ws, watches, {}, gone, lit1, lit2, b.red);
      WithoutBinLongs(ws0, ws, watches, lit1, lit2, b.red);
    }

    /**
     What a caller does with the outcome of a pass: undoes it, attaches the clauses of `needToAddBinClause` and takes
     out those of `uselessBin`. The watch lists hold equivalent clauses afterwards, and so do their irredundant ones.
     */
    method CarryOut()
      requires Valid() && Settled() && OccTheory.BinsOk(lists)
      modifies this`assigns, this`trail, this`qhead, this`watches, this`lists, this`needToAddBinClause, this`uselessBin
      ensures trail == old(trail)[..rootAt] && qhead == rootAt && TrailOk(trail, [], assigns, level, nVars)
      ensures WatchesValid() && Settled() && OccTheory.BinsOk(watches) && needToAddBinClause == {} && uselessBin == {}
      ensures Counted(old(watches), watches, old(needToAddBinClause), old(uselessBin))
        && SameLongs(old(watches), watches)
      ensures forall m: Model :: FormulaTrue(m, Database(watches, cls, trail)) <==> FormulaTrue(m, old(Db()))
      ensures forall m: Model ::
        FormulaTrue(m, BinClauses(watches, false)) <==> FormulaTrue(m, old(BinClauses(watches, false)))
      ensures old(Good(lists, cls, trail, assigns, level, rootAt, 1)) ==>
        Good(lists, cls, trail, assigns, level, rootAt, 1)
    {
      hide RunOk, TrailOk, TwoWatched, ForestOk, DepthsOk, NodesAre, ClausesOk, LitsBelow, Symmetric, BlockedOk, Good,
        OccTheory.BinsOk;
      hide Counted, SameLongs, AllListed, AllAttachable, BinClauses, LongClauses, Units, TrueClause, Kept, DbOf,
        FormulaTrue;
      ghost var need, useless, root, rest, ws0 := needToAddBinClause, uselessBin, Root(), Rest(), watches;
      ghost var facts := trail[..rootAt];
      PendingRed(ws0, rest, need, useless, root, reason, paths);
      CancelUntilZero();
      Attachable0(need, facts, assigns, level, nVars);
      var added := HyperBinResAll(true);
      ghost var ws1 := watches;
      ListedStill(ws0, ws1, need, useless);
      var removedIrred, removedRed := RemoveUselessBins();
      CountedBoth(ws0, ws1, watches, need, useless);
      SameLongsTrans(ws0, ws1, watches);
      forall m: Model
        ensures FormulaTrue(m, Database(watches, cls, trail)) <==> FormulaTrue(m, DbOf(ws0, rest))
        ensures FormulaTrue(m, BinClauses(watches, false)) <==> FormulaTrue(m, BinClauses(ws0, false))
      {
        CarriedOut(ws0, watches, cls, facts, need, useless, nVars, root, reason, paths, m);
      }
      if old(Good(lists, cls, trail, assigns, level, rootAt, 1)) {
        FactsTrue(facts, assigns, level, nVars);
        GoodCounted(ws0, watches, cls, need, useless, facts, assigns, level, rootAt, 1);
      }
    }
  }

  lemma PendingRed(ws: WatchLists, rest: Formula, need: set<BinClause>, useless: set<BinClause>, root: Lit, rs: Edges,
                   ps: Paths)
    requires RunOk(ws, rest, need, useless, root, rs, ps)
    ensures forall b :: b in need ==> b.red
  {
  }

  /** Lists that have gained the clauses of `need` and lost one copy of each of `useless`: what they hold. */
  lemma CarriedBetween(ws: WatchLists, ws': WatchLists, cls: Clauses, facts: seq<Lit>, need: set<BinClause>,
                       useless: set<BinClause>)
    requires OccTheory.BinsOk(ws) && OccTheory.BinsOk(ws') && Counted(ws, ws', need, useless) && AllListed(ws, useless)
    requires forall b {:trigger b in need} :: b in need ==> b.red && exists a: Lit, k: Lit :: PairOf(b, a, k)
    ensures var rest := LongClauses(cls) + Units(facts);
      Kept(ws, rest, need, useless) <= Database(ws', cls, facts) <= DbOf(ws, rest) + Added(need)
    ensures BinClauses(ws, false) - Discarded(useless, false) <= BinClauses(ws', false) <= BinClauses(ws, false)
  {
    hide Counted, OccTheory.BinsOk, AllListed, BinClauses, LongClauses, Units;
    CountedClauses(ws, ws', need, useless, false);
    CountedClauses(ws, ws', need, useless, true);
    assert OfKind(need, false) == iset{};
    assert OfKind(need, true) == Added(need);
    assert OfKind(useless, false) == Discarded(useless, false) && OfKind(useless, true) == Discarded(useless, true);
  }

  /** They mean the same, and so do the irredundant ones. */
  lemma CarriedOut(ws: WatchLists, ws': WatchLists, cls: Clauses, facts: seq<Lit>, need: set<BinClause>,
                   useless: set<BinClause>,
                   n: nat, root: Lit, rs: Edges, ps: Paths, m: Model)
    requires RunOk(ws, LongClauses(cls) + Units(facts), need, useless, root, rs, ps)
    requires OccTheory.BinsOk(ws) && OccTheory.BinsOk(ws') && Counted(ws, ws', need, useless)
    requires AllListed(ws, useless) && AllAttachable(need, facts, n)
    ensures FormulaTrue(m, Database(ws', cls, facts)) <==> FormulaTrue(m, DbOf(ws, LongClauses(cls) + Units(facts)))
    ensures FormulaTrue(m, BinClauses(ws', false)) <==> FormulaTrue(m, BinClauses(ws, false))
  {
    var rest := LongClauses(cls) + Units(facts);
    AttachablePairs(need, facts, n);
    PendingRed(ws, rest, need, useless, root, rs, ps);
    hide RunOk, Counted, OccTheory.BinsOk, AllListed, AllAttachable, BinClauses, LongClauses, Units, Kept, Database,
      DbOf, Added, Discarded;
    CarriedBetween(ws, ws', cls, facts, need, useless);
    ReductionKeepsModels(ws, rest, need, useless, root, rs, ps, m);
    IrredReductionKeepsModels(ws, rest, need, useless, root, rs, ps, m);
    if FormulaTrue(m, DbOf(ws, rest)) {
      NeedFollows(ws, rest, need, useless, root, rs, ps, m);
    }
  }

  lemma NeedFollows(ws: WatchLists, rest: Formula, need: set<BinClause>, useless: set<BinClause>, root: Lit, rs: Edges,
                    ps: Paths, m: Model)
    requires RunOk(ws, rest, need, useless, root, rs, ps) && FormulaTrue(m, DbOf(ws, rest))
    ensures FormulaTrue(m, Added(need))
  {
  }

  /** Every binary clause of the given kind among `bs` has a true other literal. */
  ghost predicate AllPropagated(bs: seq<Watched>, red: bool, a: Assigns) {
    forall w {:trigger w in bs} :: w in bs && w.Bin? && w.red == red ==> Value(a, w.lit2) == True
  }

  lemma PropagatedNone(red: bool, a: Assigns)
    ensures AllPropagated([], red, a)
  {
  }

  lemma PropagatedNext(bs: seq<Watched>, w: Watched, red: bool, a0: Assigns, a: Assigns)
    requires AllPropagated(bs, red, a0) && ValuesKept(a0, a) && w.Bin? && Value(a, w.lit2) == True
    ensures AllPropagated(bs + [w], red, a)
  {
  }

  lemma PropagatedSkip(bs: seq<Watched>, w: Watched, red: bool, a: Assigns)
    requires AllPropagated(bs, red, a) && !(w.Bin? && w.red == red)
    ensures AllPropagated(bs + [w], red, a)
  {
  }

  lemma PropagatedBins(ws: seq<Watched>, red: bool, a: Assigns)
    requires AllPropagated(ws, red, a)
    ensures AllPropagated(Bins(ws), red, a)
  {
    forall w | w in Bins(ws) && w.Bin? && w.red == red
      ensures Value(a, w.lit2) == True
    {
      InBins(ws, w);
    }
  }

  lemma StillThere(ps: Paths, ps': Paths, l: Lit)
    requires AncestorsGrow(ps, ps') && l in ps
    ensures l in ps'
  {
  }

  lemma AncestorsGrowRefl(ps: Paths)
    ensures AncestorsGrow(ps, ps)
  {
  }

  lemma AncestorsGrowTrans(ps: Paths, ps': Paths, ps'': Paths)
    requires AncestorsGrow(ps, ps') && AncestorsGrow(ps', ps'')
    ensures AncestorsGrow(ps, ps'')
  {
    forall a, l | a in ps && l in ps && OnPath(ps, a, l)
      ensures OnPath(ps'', a, l)
    {
      assert OnPath(ps', a, l);
    }
  }

  lemma BinBelow(ws: WatchLists, cls: Clauses, n: nat, l: Lit, w: Watched)
    requires LitsBelow(ws, cls, n) && w in W(ws, l) && w.Bin?
    ensures w.lit2.v < n
  {
  }

  lemma NodesGrow(ps: Paths, ls: seq<Lit>, l: Lit, a: Lit, depth: map<nat, nat>, useDepth: bool)
    requires NodesAre(ps, ls) && DepthsOk(depth, ps) && a in ps
    ensures a.v in depth
    ensures NodesAre(ps[l := ps[a] + [l]], ls + [l])
    ensures (forall k :: k in ps ==> k.v != l.v) ==>
      DepthsOk(depth[l.v := if useDepth then depth[a.v] + 1 else 0], ps[l := ps[a] + [l]])
  {
  }

  lemma GrowsByOne(ps: Paths, l: Lit, a: Lit)
    requires l !in ps && a in ps
    ensures AncestorsGrow(ps, ps[l := ps[a] + [l]])
  {
  }

  lemma GrowsAfterMove(root: Lit, rs: Edges, ps: Paths, l: Lit, r: Edge)
    requires ForestOk(root, rs, ps)
    requires l in ps && l != root && r.anc.Some? && r.anc.value in ps && !OnPath(ps, l, r.anc.value)
    requires NodeOk(root, rs, ps, l) && OnPath(ps, rs[l.v].anc.value, r.anc.value)
    ensures AncestorsGrow(ps, Moved(ps, l, r.anc.value))
    ensures forall ls :: NodesAre(ps, ls) ==> NodesAre(Moved(ps, l, r.anc.value), ls)
  {
    forall a, x | a in ps && x in ps && OnPath(ps, a, x)
      ensures OnPath(Moved(ps, l, r.anc.value), a, x)
    {
      MoveGrows(root, rs, ps, l, r, a, x);
    }
  }
}
