/**
 The propagation procedures of the solver against each other. (cryptoms/propengine.cpp, cryptoms/hyperengine.cpp)
 */
module Refinement {
  import opened Literals
  import opened UnitClosure
  import opened Watches
  import opened Trail
  import PropEngine
  import OccurEngine
  import HyperEngine
  import HyperTheory

  /**
   From the same clauses and the same literals, propagation over watch lists and propagation over occurrence
   lists either both report a conflict or both end with the same literals set.
   */
  method PropagateBothWays(w: PropEngine.PropEngine, o: OccurEngine.OccurEngine) returns (conflict: bool)
    requires w.Valid() && o.Valid() && o.ok
    requires w.Db() == o.Db() && Set(w.trail) == Set(o.trail)
    modifies w, o
    ensures conflict <==> !o.ok
    ensures !conflict ==> Set(w.trail) == Set(o.trail) == Closure(o.Db(), old(Set(o.trail)))
    ensures conflict ==> Falsified(o.Db(), Closure(o.Db(), old(Set(o.trail))))
  {
    ghost var db, from := w.Db(), Set(w.trail);
    var confl := w.PropagateAnyOrderFast();
    var b := o.PropagateOccur();
    conflict := confl.Some?;
    OutcomesAgree(db, from, conflict, Set(w.trail), !b, Set(o.trail));
  }

  /** No literal with its negation. */
  ghost predicate Consistent(s: iset<Lit>) {
    forall l {:trigger l in s} :: l in s ==> l.Neg() !in s
  }

  lemma ClosureWithUnits(f: Formula, us: seq<Lit>, from: iset<Lit>)
    requires Set(us) <= from
    ensures Closure(f + Units(us), from) == Closure(f, from)
  {
    forall s: iset<Lit>
      ensures ClosedAbove(f + Units(us), from, s) <==> ClosedAbove(f, from, s)
    {
      if ClosedAbove(f, from, s) {
        forall c, l | c in f + Units(us) && l in c && OthersNegated(c, l, s)
          ensures l in s
        {
          if c in Units(us) {
            assert l in us && l in Set(us);
          }
        }
      }
    }
    forall l
      ensures InEveryClosed(f + Units(us), from, l) <==> InEveryClosed(f, from, l)
    {
    }
  }

  /** What is in the closure but not in the beginning was obtained from some clause. */
  lemma Obtained(f: Formula, from: iset<Lit>, x: Lit) returns (c: Clause)
    requires x in Closure(f, from) && x !in from
    ensures c in f && x in c && OthersNegated(c, x, Closure(f, from))
  {
    var s := Closure(f, from);
    var s' := s - iset{x};
    ClosureIsClosed(f, from);
    assert !ClosedAbove(f, from, s') by {
      assert InEveryClosed(f, from, x);
    }
    c := Firing(f, s', s, x);
  }

  /** The clause has all literals but `l` negated, and `l` is missing. */
  ghost predicate Fires(f: Formula, s: iset<Lit>, c: Clause, l: Lit) {
    c in f && l in c && OthersNegated(c, l, s) && l !in s
  }

  lemma Firing(f: Formula, s': iset<Lit>, s: iset<Lit>, x: Lit) returns (c: Clause)
    requires !Closed(f, s') && Closed(f, s) && s' == s - iset{x}
    ensures c in f && x in c && OthersNegated(c, x, s)
  {
    if !exists c, l :: Fires(f, s', c, l) {
      forall c, l | c in f && l in c && OthersNegated(c, l, s')
        ensures l in s'
      {
        assert !Fires(f, s', c, l);
      }
    }
    var l: Lit;
    c, l :| Fires(f, s', c, l);
    assert OthersNegated(c, l, s);
  }

  /** Facts that are already set add nothing to what is propagated, nor to what is falsified. */
  lemma UnitsAddNothing(f: Formula, us: seq<Lit>, from: iset<Lit>, conflict: bool, to: iset<Lit>)
    requires Outcome(f + Units(us), from, conflict, to) && Set(us) <= from && Consistent(from)
    ensures Outcome(f, from, conflict, to)
  {
    var s := Closure(f, from);
    ClosureWithUnits(f, us, from);
    ClosureIsClosed(f, from);
    if conflict {
      var c :| c in f + Units(us) && AllNegated(c, s);
      if c in Units(us) {
        var l :| l in us && c == {l};
        assert l in Set(us) && l in c && l.Neg() in s;
        var d := Obtained(f, from, l.Neg());
        assert l.Neg().Neg() == l;
        assert AllNegated(d, s);
      }
    } else {
      forall c | c in f
        ensures !AllNegated(c, to)
      {
      }
    }
  }

  lemma TrailConsistent(trail: seq<Lit>, lim: seq<nat>, a: Assigns, level: map<nat, nat>, n: nat)
    requires TrailOk(trail, lim, a, level, n)
    ensures Consistent(Set(trail))
  {
    forall l | l in trail
      ensures Value(a, l) == True
    {
      var i :| 0 <= i < |trail| && trail[i] == l;
      assert EntryOk(trail, lim, a, level, n, i);
    }
  }

  /**
   Breadth-first propagation, with its hyper-binary clauses and changing reasons, ends like the ordinary one from
   the same clauses and literals, unless it runs out of time: both in a conflict or both with the same literals set.
   */
  method PropagateBreadthFirst(w: PropEngine.PropEngine, h: HyperEngine.HyperEngine, timeout: nat)
    returns (conflict: bool, failed: Option<Lit>)
    requires w.Valid()
    requires h.TrailValid() && h.WatchesValid() && h.ScratchClean() && h.Settled() && h.rootAt <= h.qhead <= |h.trail|
      && h.uselessBin == {}
    requires |h.trail| == h.rootAt + 1 ==> h.qhead == h.rootAt && h.Root().v in h.depth && h.depth[h.Root().v] == 0
    requires |h.trail| > h.rootAt + 1 ==>
      h.ForestValid() && HyperTheory.RunOk(h.lists, h.Rest(), {}, {}, h.Root(), h.reason, h.paths)
    requires h.Promise(h.qhead)
    requires h.Db() == w.Db() + Units(h.trail[..h.rootAt]) && Set(w.trail) == Set(h.trail)
    modifies w, h
    ensures !h.timedOutPropagateFull ==> (conflict <==> failed.Some?) && (!conflict ==> Set(w.trail) == Set(h.trail))
    ensures timeout >= h.nVars ==> !h.timedOutPropagateFull
    ensures failed.Some? ==> conflict && h.rootAt < |h.trail| && Entails(h.Db(), {failed.value.Neg()})
  {
    ghost var db, from, us := w.Db(), Set(w.trail), h.trail[..h.rootAt];
    FactsFirst(h.trail, h.rootAt);
    TrailConsistent(h.trail, [h.rootAt], h.assigns, h.level, h.nVars);
    var confl := w.PropagateAnyOrderFast();
    failed := h.PropagateBfs(timeout);
    conflict := confl.Some?;
    if !h.timedOutPropagateFull {
      UnitsAddNothing(db, us, from, failed.Some?, Set(h.trail));
      OutcomesAgree(db, from, conflict, Set(w.trail), failed.Some?, Set(h.trail));
    }
  }

  lemma FactsFirst(trail: seq<Lit>, n: nat)
    requires n <= |trail|
    ensures Set(trail[..n]) <= Set(trail)
  {
  }
}
