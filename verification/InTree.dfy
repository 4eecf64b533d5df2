/**
 In-tree probing: the literals are put into a queue so that each one comes right after one it implies, and are
 then tried on a stack of decisions that only ever grows and shrinks by one.
 (cryptoms/intree.cpp:69-78, 102-120, 221-421)
 */
module InTree {
  import opened Literals
  import opened Watches
  import opened UnitClosure
  import opened Trail
  import opened WatchTheory
  import opened Reasons
  import opened PropEngine

  /** A literal to be tried below `otherLit`, which it implies, or the end of the literals below one. */
  datatype QueueElem = Visit(propagated: Lit, otherLit: Option<Lit>, red: bool) | Close

  /** The reason to be put back when a level is left, if one was changed. */
  datatype ResetReason = NoReset | Reset(v: nat, orig: Option<Reason>)

  function Last<T>(s: seq<T>): T
    requires s != []
  {
    s[|s| - 1]
  }

  // ----- nesting of the queue -----

  /** The visits that binary clauses allow. */
  ghost function Links(ws: WatchLists): iset<QueueElem> {
    iset l: Lit, o: Lit, r: bool | Bin(l.Neg(), r) in W(ws, o) :: Visit(l, Some(o), r)
  }

  /** A visit belongs below the literal on top of the stack. */
  ghost predicate LinkOk(links: iset<QueueElem>, stack: seq<Lit>, e: QueueElem)
    requires e.Visit?
  {
    if stack == [] then e.otherLit == None else e.otherLit == Some(Last(stack)) && e in links
  }

  ghost predicate Nested(links: iset<QueueElem>, q: seq<QueueElem>, stack: seq<Lit>) {
    q == [] ||
    match q[0]
    case Visit(l, _, _) => LinkOk(links, stack, q[0]) && Nested(links, q[1..], stack + [l])
    case Close => stack != [] && Nested(links, q[1..], stack[..|stack| - 1])
  }

  ghost function End(q: seq<QueueElem>, stack: seq<Lit>): seq<Lit> {
    if q == [] then stack else
      match q[0]
      case Visit(l, _, _) => End(q[1..], stack + [l])
      case Close => End(q[1..], if stack == [] then [] else stack[..|stack| - 1])
  }

  /** How often a literal is visited. */
  ghost function Visits(q: seq<QueueElem>): multiset<Lit> {
    if q == [] then multiset{} else (if q[0].Visit? then multiset{q[0].propagated} else multiset{}) + Visits(q[1..])
  }

  lemma {:induction false} NestedConcat(links: iset<QueueElem>, a: seq<QueueElem>, b: seq<QueueElem>, stack: seq<Lit>)
    requires Nested(links, a, stack)
    ensures Nested(links, a + b, stack) <==> Nested(links, b, End(a, stack))
    ensures End(a + b, stack) == End(b, End(a, stack)) && Visits(a + b) == Visits(a) + Visits(b)
  {
    if a == [] {
      assert a + b == b;
    } else {
      assert (a + b)[0] == a[0] && (a + b)[1..] == a[1..] + b;
      NestedConcat(links, a[1..], b, if a[0].Visit? then stack + [a[0].propagated] else stack[..|stack| - 1]);
    }
  }

  /** Every literal is visited once if it is marked, and otherwise not at all. */
  ghost predicate Counted(q: seq<QueueElem>, seen: set<Lit>) {
    forall l: Lit {:trigger Visits(q)[l]} {:trigger l in seen} :: Visits(q)[l] == if l in seen then 1 else 0
  }

  ghost predicate Below(q: seq<QueueElem>, n: nat) {
    forall k {:trigger q[k]} :: 0 <= k < |q| && q[k].Visit? ==> q[k].propagated.v < n
  }

  /** The queue visits the literals of `s`, which are the negated roots and all that imply one of `s`. */
  ghost predicate QueuedFrom(q: seq<QueueElem>, ws: WatchLists, a: Assigns, roots: seq<Lit>, s: set<Lit>) {
    && Counted(q, s) && (forall l {:trigger l in roots} :: l in roots ==> l.Neg() in s)
    && forall l: Lit {:trigger l in s} :: l in s ==> Explored(ws, a, l, s)
  }

  /** What the subtree of one literal looks like. */
  ghost predicate Subtree(links: iset<QueueElem>, seg: seq<QueueElem>, stack: seq<Lit>) {
    Nested(links, seg, stack) && End(seg, stack) == stack
  }

  lemma SubtreeStarts(links: iset<QueueElem>, stack: seq<Lit>)
    ensures Subtree(links, [], stack)
  {
  }

  lemma SubtreeMore(links: iset<QueueElem>, seg: seq<QueueElem>, next: seq<QueueElem>, stack: seq<Lit>)
    requires Subtree(links, seg, stack) && Subtree(links, next, stack)
    ensures Subtree(links, seg + next, stack)
  {
    NestedConcat(links, seg, next, stack);
  }

  lemma SubtreeClosed(links: iset<QueueElem>, v: QueueElem, seg: seq<QueueElem>, stack: seq<Lit>)
    requires v.Visit? && LinkOk(links, stack, v) && Subtree(links, seg, stack + [v.propagated])
    ensures Subtree(links, [v] + seg + [Close], stack)
  {
    var q := [v] + seg + [Close];
    assert q[0] == v && q[1..] == seg + [Close];
    NestedConcat(links, seg, [Close], stack + [v.propagated]);
    assert (stack + [v.propagated])[..|stack|] == stack && [Close][1..] == [];
  }

  // ----- exploring -----

  /** All undecided literals that imply `l` by a binary clause are marked. */
  ghost predicate Explored(ws: WatchLists, a: Assigns, l: Lit, seen: set<Lit>) {
    forall w {:trigger w in W(ws, l)} :: w in W(ws, l) && w.Bin? && Value(a, w.lit2) == Undef ==> w.lit2.Neg() in seen
  }

  ghost predicate HasBin(ws: WatchLists, l: Lit) {
    exists w :: w in W(ws, l) && w.Bin?
  }

  /** A literal the search starts from: undecided, of a variable in use, and in no binary clause. */
  ghost predicate IsRoot(ws: WatchLists, a: Assigns, removed: set<nat>, n: nat, l: Lit) {
    l.v < n && l.v !in removed && Value(a, l) == Undef && !HasBin(ws, l)
  }

  /** `l` is undecided and implies `o` by a binary clause. */
  ghost predicate Implying(ws: WatchLists, a: Assigns, o: Lit, l: Lit) {
    Value(a, l.Neg()) == Undef && exists r :: Bin(l.Neg(), r) in W(ws, o)
  }

  /** From the negation of a root on, each literal implies the one before it; the last one is `l`. */
  ghost predicate FromRoot(ws: WatchLists, a: Assigns, removed: set<nat>, n: nat, path: seq<Lit>, l: Lit) {
    && path != [] && IsRoot(ws, a, removed, n, path[0].Neg()) && Last(path) == l
    && forall i {:trigger path[i]} :: 0 < i < |path| ==> Implying(ws, a, path[i - 1], path[i])
  }

  /** `l` implies the negation of a root by binary clauses. */
  ghost predicate Reached(ws: WatchLists, a: Assigns, removed: set<nat>, n: nat, l: Lit) {
    exists path: seq<Lit> :: FromRoot(ws, a, removed, n, path, l)
  }

  /** What is queued holds the negated roots and is closed under implying. */
  lemma {:induction false} PathQueued(ws: WatchLists, a: Assigns, removed: set<nat>, n: nat, roots: seq<Lit>,
                                      q: seq<QueueElem>, s: set<Lit>, path: seq<Lit>)
    requires path != []
    requires FromRoot(ws, a, removed, n, path, Last(path))
    requires forall l: Lit {:trigger l in roots} :: IsRoot(ws, a, removed, n, l) ==> l in roots
    requires QueuedFrom(q, ws, a, roots, s)
    ensures Last(path) in s
  {
    if |path| == 1 {
      assert path[0].Neg() in roots && path[0].Neg().Neg() == path[0];
    } else {
      var k := |path| - 1;
      PathQueued(ws, a, removed, n, roots, q, s, path[..k]);
      assert Implying(ws, a, path[k - 1], path[k]);
      var r :| Bin(path[k].Neg(), r) in W(ws, path[k - 1]);
      assert path[k].Neg().Neg() == path[k];
    }
  }

  ghost function AllLits(n: nat): set<Lit> {
    set v, s {:trigger Lit(v, s)} | v in UpTo(n) && s in {false, true} :: Lit(v, s)
  }

  // ----- models -----

  ghost predicate AllTrue(m: Model, ls: seq<Lit>) {
    forall l {:trigger l in ls} :: l in ls ==> LitTrue(m, l)
  }

  /** Where level `i` ends on the trail. */
  function EndAt(trail: seq<Lit>, lim: seq<nat>, i: nat): nat {
    if i < |lim| then lim[i] else |trail|
  }

  ghost predicate ImpliesPrefix(base: Formula, l: Lit, trail: seq<Lit>, n: nat) {
    n <= |trail|
      && forall m: Model {:trigger FormulaTrue(m, base)} ::
      FormulaTrue(m, base) && LitTrue(m, l) ==> AllTrue(m, trail[..n])
  }

  ghost predicate Fixed(base: Formula, trail: seq<Lit>, n: nat) {
    n <= |trail| && forall m: Model {:trigger FormulaTrue(m, base)} :: FormulaTrue(m, base) ==> AllTrue(m, trail[..n])
  }

  /** Each decision implies everything set up to its level. */
  ghost predicate Means(base: Formula, trail: seq<Lit>, lim: seq<nat>, stack: seq<Lit>) {
    && |lim| == |stack| && Fixed(base, trail, EndAt(trail, lim, 0))
    && forall i {:trigger stack[i]} ::
      0 <= i < |stack| ==> ImpliesPrefix(base, stack[i], trail, EndAt(trail, lim, i + 1))
  }

  /** A decision is known one way or the other by the end of its level, unless the level has failed. */
  ghost predicate Known(trail: seq<Lit>, lim: seq<nat>, stack: seq<Lit>, depthFailed: seq<bool>) {
    && |depthFailed| == |stack| + 1 && |lim| == |stack|
      && (forall i {:trigger lim[i]} :: 0 <= i < |lim| ==> lim[i] <= |trail|)
    && forall i {:trigger stack[i]} :: 0 <= i < |stack| && !depthFailed[i + 1] ==>
         stack[i] in trail[..EndAt(trail, lim, i + 1)] || stack[i].Neg() in trail[..EndAt(trail, lim, i + 1)]
  }

  /** Below a failed decision all have failed, and the negation of a failed one follows from the formula. */
  ghost predicate Failing(base: Formula, stack: seq<Lit>, depthFailed: seq<bool>) {
    && |depthFailed| == |stack| + 1 && !depthFailed[0]
    && (forall i {:trigger depthFailed[i]} :: 0 <= i < |stack| && depthFailed[i] ==> depthFailed[i + 1])
    && forall i {:trigger stack[i]} :: 0 <= i < |stack| && depthFailed[i + 1] ==> Entails(base, {stack[i].Neg()})
  }

  // ----- which literals fail -----

  /** With the facts at hand, setting the literal leads to a false clause. */
  ghost predicate Fails(db: Formula, facts: iset<Lit>, l: Lit) {
    Falsified(db, Closure(db, facts + iset{l}))
  }

  /** The literals set at level zero. */
  ghost function FactsOf(trail: seq<Lit>, lim: seq<nat>): seq<Lit> {
    if EndAt(trail, lim, 0) <= |trail| then trail[..EndAt(trail, lim, 0)] else trail
  }

  /** Every failing literal of the queue `q0` is still to be visited in `q`, or its negation is known. */
  ghost predicate FailingFound(db: Formula, facts: iset<Lit>, q0: seq<QueueElem>, q: seq<QueueElem>,
                               failed: seq<Lit>, fixed: seq<Lit>) {
    forall l: Lit {:trigger Visits(q0)[l]} ::
      Visits(q0)[l] > 0 && Fails(db, facts, l) ==> Visits(q)[l] > 0 || l.Neg() in failed || l.Neg() in fixed
  }

  lemma FailsGrows(db: Formula, facts: iset<Lit>, facts': iset<Lit>, l: Lit)
    requires Fails(db, facts, l) && facts <= facts'
    ensures Fails(db, facts', l)
  {
    var from, from' := facts + iset{l}, facts' + iset{l};
    forall k | k in Closure(db, from)
      ensures k in Closure(db, from')
    {
      forall s: iset<Lit> | ClosedAbove(db, from', s)
        ensures k in s
      {
        assert ClosedAbove(db, from, s);
      }
    }
    var c :| c in db && AllNegated(c, Closure(db, from));
    FalsifiedGrows(db, c, Closure(db, from), Closure(db, from'));
  }

  /** A literal that is set already, with nothing left to propagate, does not fail. */
  lemma SetOneHolds(db: Formula, facts: iset<Lit>, l: Lit)
    requires Outcome(db, facts, false, facts) && l in facts
    ensures !Fails(db, facts, l)
  {
    assert facts + iset{l} == facts;
  }

  lemma FailingFoundStarts(db: Formula, facts: iset<Lit>, q: seq<QueueElem>, failed: seq<Lit>, fixed: seq<Lit>)
    ensures FailingFound(db, facts, q, q, failed, fixed)
  {
  }

  lemma FailingFoundNext(db: Formula, facts: iset<Lit>, q0: seq<QueueElem>, q: seq<QueueElem>, failed: seq<Lit>,
                         fixed: seq<Lit>, failed': seq<Lit>)
    requires FailingFound(db, facts, q0, q, failed, fixed) && q != [] && failed <= failed'
      && (q[0].Visit? && Fails(db, facts, q[0].propagated) ==> q[0].propagated.Neg() in failed')
    ensures FailingFound(db, facts, q0, q[1..], failed', fixed)
  {
    hide Fails;
    forall l: Lit | Visits(q0)[l] > 0 && Fails(db, facts, l)
      ensures Visits(q[1..])[l] > 0 || l.Neg() in failed' || l.Neg() in fixed
    {
      if l.Neg() in failed {
        var i :| 0 <= i < |failed| && failed[i] == l.Neg();
        assert failed'[i] == l.Neg();
      } else if Visits(q[1..])[l] == 0 && l.Neg() !in fixed {
        assert Visits(q)[l] > 0;
        assert q[0].Visit? && q[0].propagated == l;
      }
    }
  }

  lemma FailingFoundSet(db: Formula, facts: iset<Lit>, q0: seq<QueueElem>, q: seq<QueueElem>, failed: seq<Lit>,
                        fixed: seq<Lit>, fixed': seq<Lit>)
    requires FailingFound(db, facts, q0, q, failed, fixed) && fixed <= fixed'
      && (forall l {:trigger l in failed} :: l in failed ==> l in fixed')
    ensures FailingFound(db, facts, q0, q, [], fixed')
  {
    hide Fails;
    forall l: Lit | Visits(q0)[l] > 0 && Fails(db, facts, l)
      ensures Visits(q)[l] > 0 || l.Neg() in fixed'
    {
      if l.Neg() in fixed {
        var i :| 0 <= i < |fixed| && fixed[i] == l.Neg();
        assert fixed'[i] == l.Neg();
      }
    }
  }

  lemma MeansOpened(base: Formula, trail: seq<Lit>, lim: seq<nat>, stack: seq<Lit>, l: Lit)
    requires Means(base, trail, lim, stack) && (stack != [] ==> Entails(base, {Last(stack), l.Neg()}))
    ensures Means(base, trail, lim + [|trail|], stack + [l])
  {
    var lim', stack' := lim + [|trail|], stack + [l];
    forall m: Model | FormulaTrue(m, base) && LitTrue(m, l)
      ensures AllTrue(m, trail[..|trail|])
    {
      assert trail[..|trail|] == trail;
      if stack != [] {
        assert ClauseTrue(m, {Last(stack), l.Neg()});
        assert !LitTrue(m, l.Neg());
        assert ImpliesPrefix(base, stack[|stack| - 1], trail, EndAt(trail, lim, |stack|));
      }
    }
    forall i | 0 <= i < |stack'|
      ensures ImpliesPrefix(base, stack'[i], trail, EndAt(trail, lim', i + 1))
    {
      if i < |stack| {
        assert stack'[i] == stack[i] && EndAt(trail, lim', i + 1) == EndAt(trail, lim, i + 1);
      }
    }
    assert EndAt(trail, lim', 0) == EndAt(trail, lim, 0);
  }

  /** Everything propagation adds at the top level follows from the top decision. */
  lemma MeansGrows(base: Formula, db: Formula, trail: seq<Lit>, trail': seq<Lit>, lim: seq<nat>, stack: seq<Lit>)
    requires Means(base, trail, lim, stack) && db <= base && stack != [] && trail <= trail'
      && (forall i :: 0 <= i < |lim| ==> lim[i] <= |trail|)
    requires Set(trail') <= Closure(db, Set(trail + [Last(stack)])) || Entails(base, {Last(stack).Neg()})
    ensures Means(base, trail', lim, stack)
  {
    var top := Last(stack);
    forall i: nat | i < |lim|
      ensures trail'[..lim[i]] == trail[..lim[i]]
    {
    }
    if Entails(base, {top.Neg()}) {
      forall m: Model | FormulaTrue(m, base)
        ensures !LitTrue(m, top)
      {
        assert ClauseTrue(m, {top.Neg()});
      }
    } else {
      forall m: Model | FormulaTrue(m, base) && LitTrue(m, top)
        ensures AllTrue(m, trail'[..|trail'|])
      {
        assert ImpliesPrefix(base, stack[|stack| - 1], trail, EndAt(trail, lim, |stack|));
        assert trail[..|trail|] == trail && trail'[..|trail'|] == trail';
        ClosureSound(db, Set(trail + [top]), m);
      }
    }
    forall i | 0 <= i < |stack|
      ensures ImpliesPrefix(base, stack[i], trail', EndAt(trail', lim, i + 1))
    {
      assert ImpliesPrefix(base, stack[i], trail, EndAt(trail, lim, i + 1));
      if i + 1 < |lim| {
        assert trail'[..lim[i + 1]] == trail[..lim[i + 1]];
      }
    }
  }

  lemma MeansClosed(base: Formula, trail: seq<Lit>, lim: seq<nat>, stack: seq<Lit>, k: nat)
    requires Means(base, trail, lim, stack) && k < |lim|
      && (forall i, j :: 0 <= i <= j < |lim| ==> lim[i] <= lim[j] <= |trail|)
    ensures Means(base, trail[..lim[k]], lim[..k], stack[..k])
  {
    var trail', lim', stack' := trail[..lim[k]], lim[..k], stack[..k];
    forall i: nat | i <= k
      ensures EndAt(trail', lim', i) == EndAt(trail, lim, i) <= |trail'|
        && trail'[..EndAt(trail', lim', i)] == trail[..EndAt(trail, lim, i)]
    {
    }
    forall i | 0 <= i < |stack'|
      ensures ImpliesPrefix(base, stack'[i], trail', EndAt(trail', lim', i + 1))
    {
      assert ImpliesPrefix(base, stack[i], trail, EndAt(trail, lim, i + 1));
      assert trail'[..EndAt(trail', lim', i + 1)] == trail[..EndAt(trail, lim, i + 1)];
    }
    assert trail'[..EndAt(trail', lim', 0)] == trail[..EndAt(trail, lim, 0)];
  }

  /** A decision whose negation is set already, or after which propagation ends in a conflict, has failed for good. */
  lemma DecisionFails(base: Formula, db: Formula, trail: seq<Lit>, lim: seq<nat>, stack: seq<Lit>)
    requires Means(base, trail, lim, stack) && db <= base && stack != []
    requires Last(stack).Neg() in trail || Falsified(db, Closure(db, Set(trail + [Last(stack)])))
    ensures Entails(base, {Last(stack).Neg()})
  {
    var top := Last(stack);
    forall m: Model | FormulaTrue(m, base)
      ensures LitTrue(m, top.Neg())
    {
      if LitTrue(m, top) {
        assert ImpliesPrefix(base, stack[|stack| - 1], trail, EndAt(trail, lim, |stack|));
        assert trail[..|trail|] == trail;
        ClosureSound(db, Set(trail + [top]), m);
      }
    }
    forall m: Model | FormulaTrue(m, base)
      ensures ClauseTrue(m, {top.Neg()})
    {
      assert top.Neg() in {top.Neg()};
    }
  }

  /** Whoever implies a failed literal fails too. */
  lemma FailsBelow(base: Formula, l: Lit, o: Lit)
    requires Entails(base, {o.Neg()}) && Entails(base, {o, l.Neg()})
    ensures Entails(base, {l.Neg()})
  {
    forall m: Model | FormulaTrue(m, base)
      ensures ClauseTrue(m, {l.Neg()})
    {
      assert ClauseTrue(m, {o.Neg()}) && ClauseTrue(m, {o, l.Neg()});
      assert !LitTrue(m, o);
      assert l.Neg() in {l.Neg()};
    }
  }

  // ----- reasons put back -----

  /** What is left of the changes when all that is on the stack has been put back, last first. */
  function UndoAll(changed: map<nat, Reason>, resets: seq<ResetReason>): map<nat, Reason>
    decreases |resets|
  {
    if resets == [] then changed else UndoAll(Undone(changed, Last(resets)), resets[..|resets| - 1])
  }

  function Undone(changed: map<nat, Reason>, r: ResetReason): map<nat, Reason> {
    match r
    case NoReset => changed
    case Reset(v, orig) => if orig.Some? then changed[v := orig.value] else changed - {v}
  }

  lemma UndoneNone(changed: map<nat, Reason>, resets: seq<ResetReason>)
    ensures UndoAll(changed, resets + [NoReset]) == UndoAll(changed, resets)
  {
    assert (resets + [NoReset])[..|resets|] == resets;
  }

  lemma UndoneSet(changed: map<nat, Reason>, resets: seq<ResetReason>, v: nat, r: Reason)
    ensures UndoAll(changed[v := r], resets + [Reset(v, if v in changed then Some(changed[v]) else None)])
      == UndoAll(changed, resets)
  {
    var x := Reset(v, if v in changed then Some(changed[v]) else None);
    assert (resets + [x])[..|resets|] == resets;
    assert Undone(changed[v := r], x) == changed;
  }

  class InTree {
    const e: PropEngine
    var roots: seq<Lit>
    var queue: seq<QueueElem>
    var seen: set<Lit>
    var failed: seq<Lit>
    var depthFailed: seq<bool>
    var resetReasonStack: seq<ResetReason>
    /** Where the recorded reason of a variable differs, for now, from the one it was set with. */
    var changed: map<nat, Reason>
    var ok: bool

    constructor (engine: PropEngine)
      ensures e == engine && queue == [] && seen == {} && failed == [] && resetReasonStack == [] && changed == map[]
        && ok
    {
      e := engine;
      roots, queue, seen, failed := [], [], {}, [];
      depthFailed, resetReasonStack, changed, ok := [], [], map[], true;
    }

    // ----- the queue -----

    /** The undecided literals in no binary clause, of variables still in use. */
    method FillRoots(removed: set<nat>)
      modifies `roots
      ensures forall l: Lit {:trigger l in roots} ::
        l in roots <==> l.v < e.nVars && l.v !in removed && Value(e.assigns, l) == Undef && !HasBin(e.watches, l)
      ensures forall i, j {:trigger roots[i], roots[j]} :: 0 <= i < j < |roots| ==> roots[i] != roots[j]
    {
      roots := [];
      for v := 0 to e.nVars
        modifies `roots
        invariant forall l: Lit {:trigger l in roots} ::
          l in roots <==> l.v < v && l.v !in removed && Value(e.assigns, l) == Undef && !HasBin(e.watches, l)
        invariant forall i, j {:trigger roots[i], roots[j]} :: 0 <= i < j < |roots| ==> roots[i] != roots[j]
      {
        ghost var before := roots;
        for sign := 0 to 2
          modifies `roots
          invariant forall l: Lit {:trigger l in roots} ::
            l in roots <==>
            l in before
            || (l.v == v && (l.sign ==> sign > 1) && (!l.sign ==> sign > 0) && v !in removed
            && Value(e.assigns, l) == Undef && !HasBin(e.watches, l))
          invariant forall i, j {:trigger roots[i], roots[j]} :: 0 <= i < j < |roots| ==> roots[i] != roots[j]
        {
          var lit := Lit(v, sign == 1);
          var only := WatchesOnlyContainsNonbin(lit);
          if v !in removed && Value(e.assigns, lit) == Undef && only {
            assert lit !in roots;
            roots := roots + [lit];
          }
        }
      }
    }

    method WatchesOnlyContainsNonbin(lit: Lit) returns (only: bool)
      ensures only <==> !HasBin(e.watches, lit)
    {
      var ws := W(e.watches, lit);
      for k := 0 to |ws|
        invariant forall w :: w in ws[..k] ==> !w.Bin?
      {
        assert ws[..k + 1] == ws[..k] + [ws[k]];
        if ws[k].Bin? {
          return false;
        }
      }
      assert ws[..|ws|] == ws;
      only := true;
    }

    method RandomizeRoots()
      modifies `roots
      ensures multiset(roots) == multiset(old(roots))
    {
      for i := 0 to |roots|
        invariant multiset(roots) == multiset(old(roots)) && |roots| == old(|roots|)
      {
        var r: nat :| i <= r < |roots|;
        roots := roots[i := roots[r]][r := roots[i]];
      }
    }

    /**
     Queues a literal and, below it, every unmarked undecided literal that implies it by a binary clause, and so on.
     Each is queued once; the queue is well nested.
     */
    method Enqueue(lit: Lit, otherLit: Option<Lit>, redCl: bool, ghost stack: seq<Lit>)
      requires e.Valid() && lit.v < e.nVars && Value(e.assigns, lit) == Undef && lit !in seen && Counted(queue, seen)
        && seen <= AllLits(e.nVars)
      requires LinkOk(Links(e.watches), stack, Visit(lit, otherLit, redCl))
      modifies `queue, `seen
      ensures old(queue) <= queue && Subtree(Links(e.watches), queue[old(|queue|)..], stack)
        && Below(queue[old(|queue|)..], e.nVars)
      ensures Counted(queue, seen) && old(seen) + {lit} <= seen <= AllLits(e.nVars)
      ensures forall l: Lit {:trigger l in seen} ::
        l in seen && l !in old(seen) ==>
        Explored(e.watches, e.assigns, l, seen) && (l == lit || HasBin(e.watches, l.Neg()))
      decreases AllLits(e.nVars) - seen
    {
      hide LinkOk, Subtree, Links, Explored, AllLits, HasBin, Counted, TwoWatched, LitsBelow, Symmetric, BlockedOk,
        ClausesOk, Good, ReasonsOk, Clauses2, BinKinds, TrailOk;
      var v := Visit(lit, otherLit, redCl);
      ghost var q0 := queue;
      ghost var seen0 := seen;
      AllLitsBelow(lit, e.nVars);
      VisitOnce(q0, seen, v);
      queue := queue + [v];
      seen := seen + {lit};
      SubtreeStarts(Links(e.watches), stack + [lit]);
      var ws := W(e.watches, lit);
      ghost var seg: seq<QueueElem> := [];
      assert queue == q0 + [v] + seg;
      for k := 0 to |ws|
        modifies `queue, `seen
        invariant queue == q0 + [v] + seg && Subtree(Links(e.watches), seg, stack + [lit]) && Below(seg, e.nVars)
        invariant Counted(queue, seen) && seen0 + {lit} <= seen <= AllLits(e.nVars)
        invariant forall l: Lit {:trigger l in seen} ::
          l in seen && l !in seen0 && l != lit ==> Explored(e.watches, e.assigns, l, seen) && HasBin(e.watches, l.Neg())
        invariant forall a {:trigger ws[a]} ::
          0 <= a < k && ws[a].Bin? && Value(e.assigns, ws[a].lit2) == Undef ==> ws[a].lit2.Neg() in seen
      {
        var w := ws[k];
        assert w in ws;
        if w.Bin? && w.lit2.Neg() !in seen && Value(e.assigns, w.lit2) == Undef {
          ghost var q1, seen1 := queue, seen;
          Child(e, lit, w, stack);
          Enqueue(w.lit2.Neg(), Some(lit), w.red, stack + [lit]);
          ghost var next := queue[|q1|..];
          SubtreeMore(Links(e.watches), seg, next, stack + [lit]);
          BelowBoth(seg, next, e.nVars);
          seg := seg + next;
          assert queue == q1 + next;
          forall l: Lit | l in seen && l !in seen0 && l != lit
            ensures Explored(e.watches, e.assigns, l, seen) && HasBin(e.watches, l.Neg())
          {
            if l in seen1 {
              ExploredMore(e.watches, e.assigns, l, seen1, seen);
            }
          }
        }
      }
      queue := queue + [Close];
      SubtreeClosed(Links(e.watches), v, seg, stack);
      CountedClose(q0 + [v] + seg, seen);
      AllExplored(e.watches, e.assigns, lit, ws, seen);
      assert queue[|q0|..] == [v] + seg + [Close];
      BelowTree(v, seg, e.nVars);
    }

    /** Queues everything from the roots; the marks are cleared again. */
    method QueueRoots()
      requires e.Valid() && queue == [] && seen == {}
      requires forall l: Lit {:trigger l in roots} ::
        l in roots ==> l.v < e.nVars && Value(e.assigns, l) == Undef && !HasBin(e.watches, l)
      requires forall i, j {:trigger roots[i], roots[j]} :: 0 <= i < j < |roots| ==> roots[i] != roots[j]
      modifies `queue, `seen
      ensures seen == {} && Subtree(Links(e.watches), queue, []) && Below(queue, e.nVars)
      ensures exists s: set<Lit> :: QueuedFrom(queue, e.watches, e.assigns, roots, s)
    {
      hide Subtree, Links, Explored, AllLits, HasBin, LinkOk, Counted, TwoWatched, LitsBelow, Symmetric, BlockedOk,
        ClausesOk, Good, ReasonsOk, Clauses2, BinKinds, TrailOk;
      assert Counted(queue, {}) by { NoVisits(); }
      SubtreeStarts(Links(e.watches), []);
      assert seen <= AllLits(e.nVars);
      for k := 0 to |roots|
        modifies `queue, `seen
        invariant Subtree(Links(e.watches), queue, []) && Below(queue, e.nVars) && Counted(queue, seen)
          && seen <= AllLits(e.nVars)
        invariant forall l: Lit {:trigger l in seen} ::
          l in seen ==> Explored(e.watches, e.assigns, l, seen) && (HasBin(e.watches, l.Neg()) || l.Neg() in roots[..k])
        invariant forall a {:trigger roots[a]} :: 0 <= a < k ==> roots[a].Neg() in seen
      {
        var lit := roots[k];
        assert lit in roots && lit.Neg().Neg() == lit;
        NotEarlier(roots, k);
        ghost var q0, seen0 := queue, seen;
        assert LinkOk(Links(e.watches), [], Visit(lit.Neg(), None, false)) by { RootLink(e.watches, lit); }
        Enqueue(lit.Neg(), None, false, []);
        assert queue == q0 + queue[|q0|..];
        SubtreeMore(Links(e.watches), q0, queue[|q0|..], []);
        BelowBoth(q0, queue[|q0|..], e.nVars);
        assert roots[..k + 1] == roots[..k] + [lit];
        forall l: Lit | l in seen
          ensures Explored(e.watches, e.assigns, l, seen) && (HasBin(e.watches, l.Neg()) || l.Neg() in roots[..k + 1])
        {
          if l in seen0 {
            ExploredMore(e.watches, e.assigns, l, seen0, seen);
          }
        }
      }
      ghost var s := seen;
      ClearSeen();
      AllQueued(queue, e.watches, e.assigns, roots, s);
    }

    method ClearSeen()
      requires Counted(queue, seen)
      modifies `seen
      ensures seen == {}
    {
      ghost var s := seen;
      for k := 0 to |queue|
        modifies `seen
        invariant seen <= s
          && forall l: Lit {:trigger l in seen} :: l in s && l !in seen <==> l in s && Visits(queue[..k])[l] > 0
      {
        VisitsSnoc(queue, k);
        if queue[k].Visit? {
          seen := seen - {queue[k].propagated};
        }
      }
      assert queue[..|queue|] == queue;
    }

    // ----- the search -----

    /** Promises of the watch lists hold for the levels that have not failed. */
    ghost predicate PromisesOk(df: seq<bool>)
      reads e`trail, e`assigns, e`level, e`cls, e`lists
    {
      forall lv: nat {:trigger e.Promise(|e.trail|, lv)} :: 0 < lv <= |df| && !df[lv - 1] ==> e.Promise(|e.trail|, lv)
    }

    ghost predicate EngineOk(base: Formula)
      reads e
    {
      e.Structure() && e.Settled() && e.qhead == |e.trail| && e.Db() <= base
    }

    /** The engine and its decisions: each implies what was set up to its level; failed ones are refuted. */
    ghost predicate Search(base: Formula, stack: seq<Lit>)
      reads this, e
    {
      && EngineOk(base) && PromisesOk(depthFailed)
      && Means(base, e.trail, e.trailLim, stack) && Known(e.trail, e.trailLim, stack, depthFailed)
        && Failing(base, stack, depthFailed)
    }

    /** The literals found to be consequences. */
    ghost predicate FailedOk(base: Formula)
      reads `failed
    {
      forall l {:trigger l in failed} :: l in failed ==> l.v < e.nVars && Entails(base, {l})
    }

    /** The reasons to be put back: one entry fewer than levels, and nothing stays changed once they are. */
    ghost predicate ResetsOk(n: nat)
      reads `resetReasonStack, `changed
    {
      |resetReasonStack| == (if n == 0 then 0 else n - 1) && UndoAll(changed, resetReasonStack) == map[]
    }

    lemma TopValid(base: Formula, stack: seq<Lit>)
      requires EngineOk(base) && PromisesOk(depthFailed) && |depthFailed| == |stack| + 1 == |e.trailLim| + 1
        && !depthFailed[|stack|]
      ensures e.Valid()
    {
      assert depthFailed[(|stack| + 1) - 1] == depthFailed[|stack|];
      assert e.Promise(|e.trail|, |stack| + 1);
    }

    lemma PromisesBelow(df: seq<bool>, lv: nat)
      requires e.Promise(|e.trail|, lv) && |df| >= lv && forall i {:trigger df[i]} :: lv <= i < |df| ==> df[i]
      ensures PromisesOk(df)
    {
      forall k: nat | 0 < k <= |df| && !df[k - 1]
        ensures e.Promise(|e.trail|, k)
      {
        assert k <= lv;
      }
    }

    /** A false literal is negated on the trail, a true one is on it. */
    lemma OnTheTrail(l: Lit)
      requires e.TrailValid()
      ensures Value(e.assigns, l) == True <==> l in e.trail
      ensures Value(e.assigns, l) == False <==> l.Neg() in e.trail
    {
      forall k: Lit
        ensures k in e.trail <==> Value(e.assigns, k) == True
      {
        if Value(e.assigns, k) == True {
          var i := OnTrail(e.trail, e.trailLim, e.assigns, e.level, e.nVars, k);
        }
        if k in e.trail {
          var i :| 0 <= i < |e.trail| && e.trail[i] == k;
          assert EntryOk(e.trail, e.trailLim, e.assigns, e.level, e.nVars, i);
        }
      }
      assert Value(e.assigns, l.Neg()) == True <==> Value(e.assigns, l) == False;
    }

    /** Below a literal that has not failed, a literal that is not false finds it true. */
    lemma ParentTrue(base: Formula, stack: seq<Lit>, lit: Lit)
      requires Search(base, stack) && stack != [] && !depthFailed[|stack|] && {Last(stack), lit.Neg()} in e.Db()
        && Value(e.assigns, lit) != False
      ensures Value(e.assigns, Last(stack)) == True
    {
      hide Means, Failing, TwoWatched, LitsBelow, Symmetric, BlockedOk, ClausesOk, Good, ReasonsOk, Clauses2, BinKinds,
        TrailOk;
      var o := Last(stack);
      TopValid(base, stack);
      assert stack[|stack| - 1] == o && EndAt(e.trail, e.trailLim, |stack|) == |e.trail|
        && e.trail[..|e.trail|] == e.trail;
      assert o in e.trail || o.Neg() in e.trail;
      OnTheTrail(o);
      e.NothingLeft({o, lit.Neg()});
      assert Value(e.assigns, lit.Neg()) == True <==> Value(e.assigns, lit) == False;
      if Value(e.assigns, o) == False {
        QuietPair(e.assigns, o, lit.Neg());
      }
    }

    /** The new level, marked as failed if the one above it is; nothing is set yet. */
    method OpenLevel(lit: Lit, otherLit: Option<Lit>, ghost base: Formula, ghost stack: seq<Lit>)
      returns (inherited: bool)
      requires Search(base, stack) && ResetsOk(|stack|) && lit.v < e.nVars
      requires if stack == [] then otherLit == None
        else otherLit == Some(Last(stack)) && {Last(stack), lit.Neg()} in e.Db()
      modifies e`trailLim, `depthFailed, `resetReasonStack
      ensures EngineOk(base) && PromisesOk(old(depthFailed)) && e.trailLim == old(e.trailLim) + [|e.trail|]
      ensures |old(depthFailed)| == |stack| + 1 == |old(e.trailLim)| + 1
        && depthFailed == old(depthFailed) + [inherited] && inherited == Last(old(depthFailed))
      ensures Means(base, e.trail, e.trailLim, stack + [lit])
        && Known(e.trail, old(e.trailLim), stack, old(depthFailed)) && Failing(base, stack, old(depthFailed))
      ensures inherited || e.Valid()
      ensures (Value(e.assigns, lit) == True <==> lit in e.trail)
        && (Value(e.assigns, lit) == False <==> lit.Neg() in e.trail)
      ensures stack != [] ==> Entails(base, {Last(stack), lit.Neg()})
      ensures !inherited && stack != [] && Value(e.assigns, lit) != False ==>
        Last(stack) in e.trail && Value(e.assigns, Last(stack)) == True
      ensures ResetsOk(|stack| + 1) && (otherLit.Some? ==> resetReasonStack != [] && Last(resetReasonStack) == NoReset)
    {
      hide Means, Known, Failing, Entails, PromisesOk, TwoWatched, LitsBelow, Symmetric, BlockedOk, ClausesOk, Good,
        ReasonsOk, Clauses2, BinKinds, TrailOk;
      Sizes(base, stack);
      LinkEntailed(base, e.Db(), stack, lit);
      MeansOpened(base, e.trail, e.trailLim, stack, lit);
      OnTheTrail(lit);
      inherited := depthFailed[|depthFailed| - 1];
      BeforeOpening(base, stack, lit, inherited);
      e.NewDecisionLevel();
      depthFailed := depthFailed + [inherited];
      PushReset(otherLit);
    }

    /** Opens a level for a literal: it fails, is true already, or is decided on and propagated. */
    method HandleLitPoppedFromQueue(lit: Lit, otherLit: Option<Lit>, red: bool, ghost base: Formula,
                                    ghost stack: seq<Lit>)
      requires Search(base, stack) && FailedOk(base) && ResetsOk(|stack|) && lit.v < e.nVars
      requires if stack == [] then otherLit == None
        else otherLit == Some(Last(stack)) && {Last(stack), lit.Neg()} in e.Db()
      modifies e, `depthFailed, `resetReasonStack, `failed, `changed
      ensures Search(base, stack + [lit]) && FailedOk(base) && ResetsOk(|stack| + 1)
      ensures e.Db() == old(e.Db()) && old(e.trail) <= e.trail && e.trailLim == old(e.trailLim) + [old(|e.trail|)]
      ensures old(|depthFailed|) > 0 && depthFailed == old(depthFailed) + [Last(old(depthFailed))
          || (old(Value(e.assigns, lit)) == Undef && Fails(e.Db(), Set(old(e.trail)), lit))]
      ensures failed == old(failed)
          + if Last(depthFailed) || Value(e.assigns, lit) == False then [lit.Neg()] else []
      ensures Last(old(depthFailed)) || old(Value(e.assigns, lit)) != Undef ==> e.trail == old(e.trail)
      ensures !Last(depthFailed) && old(Value(e.assigns, lit)) == Undef ==>
        Outcome(e.Db(), Set(old(e.trail)) + iset{lit}, false, Set(e.trail))
      ensures Fails(e.Db(), Set(old(e.trail)), lit) ==> lit.Neg() in failed
      ensures otherLit == None || Last(old(depthFailed)) || old(Value(e.assigns, lit)) == False ==>
        changed == old(changed)
      ensures otherLit.Some? && !Last(old(depthFailed)) && old(Value(e.assigns, lit)) != False ==>
        changed == old(changed)[otherLit.value.v := BinReason(lit.Neg(), red)]
          && Value(e.assigns, otherLit.value) == True
    {
      hide Means, Known, Failing, Entails, FailedOk, PromisesOk, TwoWatched, LitsBelow, Symmetric, BlockedOk, ClausesOk,
        Good, ReasonsOk, Clauses2, BinKinds, TrailOk;
      ghost var trail0, lim0, df0 := e.trail, e.trailLim, depthFailed;
      Sizes(base, stack);
      var inherited := OpenLevel(lit, otherLit, base, stack);
      if Value(e.assigns, lit) == False || inherited {
        Rejected(base, stack, lim0, df0, lit, inherited);
        AddFailed(lit.Neg(), base);
        return;
      }
      Redirect(otherLit, lit, red);
      if Value(e.assigns, lit) == Undef {
        TryLit(lit, base, stack, trail0, lim0, df0);
      } else {
        AtRest();
        AlreadyOnTrail(trail0, lit);
        SetOneHolds(e.Db(), Set(trail0), lit);
        AlreadyTrue(base, stack, lim0, df0, lit);
      }
    }

    /** With nothing left to propagate, the literals set are closed and falsify no clause. */
    lemma AtRest()
      requires e.Valid() && e.qhead == |e.trail|
      ensures Outcome(e.Db(), Set(e.trail), false, Set(e.trail))
    {
      hide TwoWatched, LitsBelow, Symmetric, Good, ReasonsOk, BlockedOk, ClausesOk, Outcome, Set, Clauses2, BinKinds,
        TrailOk;
      e.ExtendsRefl();
      e.OutcomeHolds(e.trail, e.reason, None);
    }

    /**
     Under a level that has not failed, propagation is complete and the decision above is true unless the literal is
     false.
     */
    lemma BeforeOpening(base: Formula, stack: seq<Lit>, lit: Lit, inherited: bool)
      requires Search(base, stack) && |depthFailed| == |stack| + 1 == |e.trailLim| + 1
        && inherited == depthFailed[|stack|]
      requires stack == [] || {Last(stack), lit.Neg()} in e.Db()
      ensures !inherited ==> e.Valid()
      ensures !inherited && stack != [] && Value(e.assigns, lit) != False ==>
        Last(stack) in e.trail && Value(e.assigns, Last(stack)) == True
    {
      hide Means, Known, Failing, TwoWatched, LitsBelow, Symmetric, BlockedOk, ClausesOk, Good, ReasonsOk, Clauses2,
        BinKinds,
        TrailOk;
      if !inherited {
        TopValid(base, stack);
        if stack != [] && Value(e.assigns, lit) != False {
          ParentTrue(base, stack, lit);
          OnTheTrail(Last(stack));
        }
      }
    }

    /** Below another decision, a level comes with a reason to be put back; none so far. */
    method PushReset(otherLit: Option<Lit>)
      modifies `resetReasonStack
      ensures resetReasonStack == old(resetReasonStack) + if otherLit.Some? then [NoReset] else []
      ensures UndoAll(changed, resetReasonStack) == old(UndoAll(changed, resetReasonStack))
    {
      if otherLit.Some? {
        UndoneNone(changed, resetReasonStack);
        resetReasonStack := resetReasonStack + [NoReset];
      }
    }

    method Redirect(otherLit: Option<Lit>, lit: Lit, red: bool)
      requires otherLit.Some? ==> resetReasonStack != [] && Last(resetReasonStack) == NoReset
      modifies `resetReasonStack, `changed
      ensures |resetReasonStack| == old(|resetReasonStack|)
        && UndoAll(changed, resetReasonStack) == old(UndoAll(changed, resetReasonStack))
      ensures changed
        == if otherLit.Some? then old(changed)[otherLit.value.v := BinReason(lit.Neg(), red)] else old(changed)
    {
      if otherLit.Some? {
        SetReason(otherLit.value, lit, red);
      }
    }

    /** Makes the new literal the ancestor of the one above it; the reason there is to be put back later. */
    method SetReason(o: Lit, lit: Lit, red: bool)
      requires resetReasonStack != [] && Last(resetReasonStack) == NoReset
      modifies `resetReasonStack, `changed
      ensures |resetReasonStack| == old(|resetReasonStack|)
        && UndoAll(changed, resetReasonStack) == old(UndoAll(changed, resetReasonStack))
      ensures changed == old(changed)[o.v := BinReason(lit.Neg(), red)]
    {
      var n := |resetReasonStack| - 1;
      UndoneLast(changed, resetReasonStack);
      var orig := if o.v in changed then Some(changed[o.v]) else None;
      UndoneSet(changed, resetReasonStack[..n], o.v, BinReason(lit.Neg(), red));
      resetReasonStack := resetReasonStack[..n] + [Reset(o.v, orig)];
      changed := changed[o.v := BinReason(lit.Neg(), red)];
    }

    lemma Rejected(base: Formula, stack: seq<Lit>, lim0: seq<nat>, df0: seq<bool>, lit: Lit, inherited: bool)
      requires EngineOk(base) && PromisesOk(df0) && e.trailLim == lim0 + [|e.trail|] && depthFailed == df0 + [inherited]
      requires Means(base, e.trail, e.trailLim, stack + [lit]) && Known(e.trail, lim0, stack, df0)
        && Failing(base, stack, df0)
      requires inherited == Last(df0) && (inherited || e.Valid()) && (inherited || lit.Neg() in e.trail)
      requires stack != [] ==> Entails(base, {Last(stack), lit.Neg()})
      ensures Search(base, stack + [lit]) && Entails(base, {lit.Neg()})
    {
      hide Means, Known, Failing, Entails, PromisesOk, TwoWatched, LitsBelow, Symmetric, BlockedOk, ClausesOk, Good,
        ReasonsOk, Clauses2, BinKinds, TrailOk;
      Refuted(base, e.Db(), e.trail, lim0, stack, df0, lit);
      KnownNext(e.trail, e.trail, lim0, stack, df0, lit, inherited);
      FailingNext(base, stack, df0, lit, inherited);
      KnownSizes(e.trail, lim0, stack, df0);
      PromisesNext(df0, inherited);
    }

    lemma AlreadyTrue(base: Formula, stack: seq<Lit>, lim0: seq<nat>, df0: seq<bool>, lit: Lit)
      requires EngineOk(base) && PromisesOk(df0) && e.trailLim == lim0 + [|e.trail|] && depthFailed == df0 + [false]
      requires Means(base, e.trail, e.trailLim, stack + [lit]) && Known(e.trail, lim0, stack, df0)
        && Failing(base, stack, df0)
      requires !Last(df0) && e.Valid() && lit in e.trail
      ensures Search(base, stack + [lit])
    {
      hide Means, Known, Failing, Entails, PromisesOk, TwoWatched, LitsBelow, Symmetric, BlockedOk, ClausesOk, Good,
        ReasonsOk, Clauses2, BinKinds, TrailOk;
      KnownNext(e.trail, e.trail, lim0, stack, df0, lit, false);
      FailingNext(base, stack, df0, lit, false);
      KnownSizes(e.trail, lim0, stack, df0);
      PromisesNext(df0, false);
    }

    method AddFailed(l: Lit, ghost base: Formula)
      requires FailedOk(base) && l.v < e.nVars && Entails(base, {l})
      modifies `failed
      ensures FailedOk(base) && failed == old(failed) + [l]
    {
      failed := failed + [l];
    }

    /** Decides on the literal and propagates. */
    method TryLit(lit: Lit, ghost base: Formula, ghost stack: seq<Lit>, ghost trail0: seq<Lit>, ghost lim0: seq<nat>,
                  ghost df0: seq<bool>)
      requires EngineOk(base) && e.Valid() && Value(e.assigns, lit) == Undef && lit.v < e.nVars && FailedOk(base)
      requires e.trail == trail0 && e.trailLim == lim0 + [|trail0|] && depthFailed == df0 + [false]
        && |df0| == |lim0| + 1 && !Last(df0)
      requires Means(base, trail0, e.trailLim, stack + [lit]) && Known(trail0, lim0, stack, df0)
        && Failing(base, stack, df0)
      modifies e, `depthFailed, `failed
      ensures Search(base, stack + [lit]) && FailedOk(base) && e.Db() == old(e.Db()) && trail0 <= e.trail
        && e.trailLim == old(e.trailLim)
      ensures Outcome(e.Db(), Set(trail0) + iset{lit}, Fails(e.Db(), Set(trail0), lit), Set(e.trail))
      ensures depthFailed == df0 + [Fails(e.Db(), Set(trail0), lit)]
      ensures failed == old(failed) + if Fails(e.Db(), Set(trail0), lit) then [lit.Neg()] else []
      ensures Value(e.assigns, lit) == True
      ensures forall l {:trigger l in trail0} :: l in trail0 ==> Value(e.assigns, l) == True
    {
      hide Means, Known, Failing, Entails, FailedOk, TwoWatched, LitsBelow, Symmetric, BlockedOk, ClausesOk, Good,
        ReasonsOk, Clauses2, BinKinds, TrailOk, Outcome, Set, Closure, Falsified;
      ghost var db, stack' := e.Db(), stack + [lit];
      assert Last(stack') == lit;
      LimsBelow(e.trail, e.trailLim, e.assigns, e.level, e.nVars);
      e.Decide(lit);
      ghost var trail1 := e.trail;
      var confl := e.PropagateAnyOrderFast();
      OutcomeTells(db, Set(trail1), confl.Some?, Set(e.trail));
      OneMoreSet(trail0, lit);
      OutcomeFails(db, Set(trail0), lit, confl.Some?, Set(e.trail));
      OnTheTrailAll(trail0);
      assert lit in trail1 && lit in e.trail;
      OnTheTrail(lit);
      if confl.Some? {
        PromisesBelow(df0 + [true], |e.trailLim|);
        DecisionFails(base, db, trail0, lim0 + [|trail0|], stack');
        depthFailed := depthFailed[|depthFailed| - 1 := true];
        assert depthFailed == df0 + [true];
        AddFailed(lit.Neg(), base);
      } else {
        PromisesBelow(df0 + [false], |e.trailLim| + 1);
      }
      KnownNext(trail0, e.trail, lim0, stack, df0, lit, confl.Some?);
      FailingNext(base, stack, df0, lit, confl.Some?);
      MeansGrows(base, db, trail0, e.trail, lim0 + [|trail0|], stack');
    }

    lemma OnTheTrailAll(ls: seq<Lit>)
      requires e.TrailValid() && ls <= e.trail
      ensures forall l {:trigger l in ls} :: l in ls ==> Value(e.assigns, l) == True
    {
      forall l | l in ls
        ensures Value(e.assigns, l) == True
      {
        var i :| 0 <= i < |ls| && ls[i] == l;
        assert e.trail[i] == l;
        OnTheTrail(l);
      }
    }

    lemma Sizes(base: Formula, stack: seq<Lit>)
      requires Search(base, stack)
      ensures |depthFailed| == |stack| + 1 && |e.trailLim| == |stack| && !depthFailed[0]
      ensures Known(e.trail, e.trailLim, stack, depthFailed) && Failing(base, stack, depthFailed)
        && Means(base, e.trail, e.trailLim, stack)
    {
    }

    lemma PromisesNext(df: seq<bool>, f: bool)
      requires PromisesOk(df) && (f || (e.Valid() && e.qhead == |e.trail| && |e.trailLim| == |df|))
      ensures PromisesOk(df + [f])
    {
      forall lv: nat | 0 < lv <= |df| + 1 && !(df + [f])[lv - 1]
        ensures e.Promise(|e.trail|, lv)
      {
        if lv <= |df| {
          assert !df[lv - 1];
        }
      }
    }

    /** Leaves a level: what was set there is undone, and a changed reason is put back. */
    method LeaveLevel(ghost base: Formula, ghost stack: seq<Lit>)
      requires Search(base, stack) && FailedOk(base) && ResetsOk(|stack|) && stack != []
      modifies e, `depthFailed, `resetReasonStack, `changed
      ensures Search(base, stack[..|stack| - 1]) && FailedOk(base) && ResetsOk(|stack| - 1) && e.Db() == old(e.Db())
      ensures old(|e.trailLim|) == |stack| && old(e.trailLim)[|stack| - 1] <= old(|e.trail|)
        && e.trail == old(e.trail)[..old(e.trailLim)[|stack| - 1]] && e.trailLim == old(e.trailLim)[..|stack| - 1]
      ensures old(|depthFailed|) == |stack| + 1 && depthFailed == old(depthFailed)[..|stack|]
    {
      hide Means, Known, Failing, Entails, FailedOk, TwoWatched, LitsBelow, Symmetric, BlockedOk, ClausesOk, Good,
        ReasonsOk, Clauses2, BinKinds, TrailOk;
      Sizes(base, stack);
      ghost var k := |stack| - 1;
      LimsBelow(e.trail, e.trailLim, e.assigns, e.level, e.nVars);
      MeansClosed(base, e.trail, e.trailLim, stack, k);
      KnownClosed(e.trail, e.trailLim, stack, depthFailed, k);
      FailingClosed(base, stack, depthFailed, k);
      e.CancelUntil(|e.trailLim| - 1);
      depthFailed := depthFailed[..|depthFailed| - 1];
      PromisesCut(old(depthFailed), k);
      if resetReasonStack != [] {
        var tmp := Last(resetReasonStack);
        resetReasonStack := resetReasonStack[..|resetReasonStack| - 1];
        if tmp.Reset? {
          changed := if tmp.orig.Some? then changed[tmp.v := tmp.orig.value] else changed - {tmp.v};
        }
      }
    }

    lemma PromisesCut(df: seq<bool>, k: nat)
      requires k + 1 <= |df|
        && forall lv: nat {:trigger e.Promise(|e.trail|, lv)} ::
        0 < lv <= k + 1 && !df[lv - 1] ==> e.Promise(|e.trail|, lv)
      ensures PromisesOk(df[..k + 1])
    {
      forall lv: nat | 0 < lv <= k + 1 && !df[..k + 1][lv - 1]
        ensures e.Promise(|e.trail|, lv)
      {
        assert !df[lv - 1];
      }
    }

    /** Sets the failed literals at level zero. `false` if that shows the formula to be unsatisfiable. */
    method EmptyFailedList(ghost base: Formula) returns (res: bool)
      requires Search(base, []) && FailedOk(base) && ok
      modifies e, `failed, `ok
      ensures e.Db() == old(e.Db()) && old(e.trail) <= e.trail && res == ok
      ensures res ==>
        Search(base, []) && FailedOk(base) && failed == [] && e.trailLim == []
        && forall l {:trigger l in e.trail} :: l in old(failed) ==> l in e.trail
      ensures !res ==> forall m: Model :: !FormulaTrue(m, base)
    {
      hide Means, Known, Failing, Entails, TwoWatched, LitsBelow, Symmetric, BlockedOk, ClausesOk, Good, ReasonsOk,
        Clauses2, BinKinds, TrailOk, Outcome, Set, Closure, Falsified;
      Sizes(base, []);
      TopValid(base, []);
      MeansNone(base, e.trail);
      ghost var db := e.Db();
      for k := 0 to |failed|
        modifies e, `ok
        invariant e.Valid() && e.qhead == |e.trail| && e.trailLim == [] && e.Db() == db && ok && failed == old(failed)
        invariant Fixed(base, e.trail, |e.trail|) && old(e.trail) <= e.trail
        invariant forall i {:trigger failed[i]} :: 0 <= i < k ==> failed[i] in e.trail
      {
        var lit := failed[k];
        assert lit in failed;
        OnTheTrail(lit);
        if Value(e.assigns, lit) == Undef {
          ghost var trail0 := e.trail;
          e.Decide(lit);
          ghost var trail1 := e.trail;
          var confl := e.PropagateAnyOrderFast();
          OutcomeTells(db, Set(trail1), confl.Some?, Set(e.trail));
          ok := confl.None?;
          if !ok {
            UnitConflict(base, db, trail0, lit);
            return false;
          }
          FixedGrows(base, db, trail0, lit, e.trail);
          assert lit in trail1;
          forall i | 0 <= i < k + 1
            ensures failed[i] in e.trail
          {
            InPrefix(failed[i], trail0, lit, e.trail);
          }
        } else if Value(e.assigns, lit) == False {
          ok := false;
          UnitClash(base, e.trail, lit);
          return false;
        }
      }
      MeansNone(base, e.trail);
      assert Known(e.trail, e.trailLim, [], depthFailed) by { KnownNone(e.trail, depthFailed); }
      PromisesBelow(depthFailed, 1);
      failed := [];
      res := true;
    }

    lemma SearchStarts(base: Formula)
      requires e.Valid() && e.qhead == |e.trail| && e.trailLim == [] && base == e.Db() + Units(e.trail)
        && depthFailed == [false]
      ensures Search(base, [])
    {
      forall m: Model | FormulaTrue(m, base)
        ensures AllTrue(m, e.trail[..|e.trail|])
      {
        forall l | l in e.trail
          ensures LitTrue(m, l)
        {
          assert {l} in base;
          assert ClauseTrue(m, {l});
        }
      }
      PromisesBelow(depthFailed, 1);
    }

    lemma NoneFailed(base: Formula)
      requires failed == []
      ensures FailedOk(base)
    {
    }

    /** Undoes all levels at once. */
    method Backtrack(ghost base: Formula, ghost stack: seq<Lit>)
      requires Search(base, stack) && stack != []
      modifies e, `depthFailed
      ensures Search(base, []) && e.Db() == old(e.Db()) && e.trail == old(e.trail)[..old(e.trailLim)[0]]
    {
      hide Means, Known, Failing, Entails, TwoWatched, LitsBelow, Symmetric, BlockedOk, ClausesOk, Good, ReasonsOk,
        Clauses2, BinKinds, TrailOk;
      Sizes(base, stack);
      LimsBelow(e.trail, e.trailLim, e.assigns, e.level, e.nVars);
      MeansClosed(base, e.trail, e.trailLim, stack, 0);
      KnownClosed(e.trail, e.trailLim, stack, depthFailed, 0);
      FailingClosed(base, stack, depthFailed, 0);
      ghost var df := depthFailed;
      e.CancelUntil(0);
      depthFailed := depthFailed[..1];
      PromisesCut(df, 0);
    }

    /** Between two steps: everything promised, the rest of the queue fitting the decisions. */
    ghost predicate Looking(base: Formula, links: iset<QueueElem>, stack: seq<Lit>, trail0: seq<Lit>,
                            queue0: seq<QueueElem>)
      reads this, e
    {
      && Search(base, stack) && FailedOk(base) && ResetsOk(|stack|) && ok && LevelZero(trail0, e.trail, e.trailLim)
        && (stack == [] ==> failed == [])
        && FailingFound(e.Db(), Set(trail0), queue0, queue, failed, FactsOf(e.trail, e.trailLim))
      && Nested(links, queue, stack) && End(queue, stack) == [] && Below(queue, e.nVars)
    }

    ghost predicate LinksFit(links: iset<QueueElem>)
      reads e
    {
      forall v {:trigger v in links} ::
        v in links ==> v.Visit? && v.otherLit.Some? && {v.otherLit.value, v.propagated.Neg()} in e.Db()
    }

    /** One element of the queue, and the failed literals if that leads back to level zero. */
    method LookAtNext(ghost base: Formula, ghost links: iset<QueueElem>, ghost stack: seq<Lit>,
                      ghost trail0: seq<Lit>, ghost queue0: seq<QueueElem>)
      returns (ghost stack': seq<Lit>)
      requires Looking(base, links, stack, trail0, queue0) && LinksFit(links) && queue != []
      modifies `queue, `failed, `depthFailed, `resetReasonStack, `changed, `ok, e
      ensures e.Db() == old(e.Db()) && queue == old(queue)[1..]
      ensures ok ==> Looking(base, links, stack', trail0, queue0)
      ensures !ok ==> (forall m: Model :: !FormulaTrue(m, base)) && trail0 <= e.trail
    {
      hide Means, Known, Failing, Entails, FailedOk, TwoWatched, LitsBelow, Symmetric, BlockedOk, ClausesOk, Good,
        ReasonsOk, Clauses2, BinKinds, TrailOk, Nested, End, PromisesOk, LevelZero, ResetsOk, FailingFound, Fails,
          FactsOf,
        Outcome, Set;
      Unnest(links, queue, stack);
      ghost var db, q1, failed1 := e.Db(), queue, failed;
      Sizes(base, stack);
      ghost var trail1, lim1 := e.trail, e.trailLim;
      LimsBelow(e.trail, e.trailLim, e.assigns, e.level, e.nVars);
      var elem := queue[0];
      queue := queue[1..];
      if elem.Visit? {
        HandleLitPoppedFromQueue(elem.propagated, elem.otherLit, elem.red, base, stack);
        LevelZeroOpened(trail0, trail1, e.trail, lim1);
        FailsLater(db, trail0, trail1, elem.propagated);
        stack' := stack + [elem.propagated];
      } else {
        LeaveLevel(base, stack);
        LevelZeroClosed(trail0, trail1, lim1, |stack| - 1);
        stack' := stack[..|stack| - 1];
      }
      FailingFoundNext(db, Set(trail0), queue0, q1, failed1, FactsOf(trail1, lim1), failed);
      Sizes(base, stack');
      if |e.trailLim| == 0 {
        ghost var trail2, failed2 := e.trail, failed;
        LevelZeroNone(trail0, e.trail);
        var res := EmptyFailedList(base);
        LevelZeroNone(trail0, e.trail);
        if res {
          FailingFoundSet(db, Set(trail0), queue0, queue, failed2, trail2, e.trail);
        }
      }
    }

    lemma FailsLater(db: Formula, trail0: seq<Lit>, trail1: seq<Lit>, l: Lit)
      requires Set(trail0) <= Set(trail1)
      ensures Fails(db, Set(trail0), l) ==> Fails(db, Set(trail1), l)
    {
      if Fails(db, Set(trail0), l) {
        FailsGrows(db, Set(trail0), Set(trail1), l);
      }
    }

    /**
     Works off the queue. Whatever is set at level zero in the end follows from the clauses and the facts at the
     beginning; if the run ends with `ok` false they are unsatisfiable. Unless it is cut short, the queue is used up,
     every changed reason has been put back, and the negation of every literal of the queue that failed with the
     facts at the beginning is set. `steps` elements of the queue can be looked at before the effort is used up.
     */
    method TreeLook(steps: nat, ghost links: iset<QueueElem>) returns (timeout: bool)
      requires e.Valid() && e.qhead == |e.trail| && e.trailLim == [] && ok && failed == [] && resetReasonStack == []
        && changed == map[]
      requires Nested(links, queue, []) && End(queue, []) == [] && Below(queue, e.nVars) && LinksFit(links)
      modifies `queue, `failed, `depthFailed, `resetReasonStack, `changed, `ok, e
      ensures e.Db() == old(e.Db()) && old(e.trail) <= e.trail
      ensures ok ==>
        e.Valid() && e.trailLim == [] && failed == [] && Fixed(old(e.Db() + Units(e.trail)), e.trail, |e.trail|)
      ensures !ok ==> forall m: Model :: !FormulaTrue(m, old(e.Db() + Units(e.trail)))
      ensures ok && !timeout ==> queue == [] && resetReasonStack == [] && changed == map[]
      ensures timeout ==> steps < old(|queue|)
      ensures ok && !timeout ==>
        forall l: Lit {:trigger Visits(old(queue))[l]} ::
          Visits(old(queue))[l] > 0 && Fails(old(e.Db()), Set(old(e.trail)), l) ==> l.Neg() in e.trail
    {
      hide Means, Known, Failing, Entails, FailedOk, TwoWatched, LitsBelow, Symmetric, BlockedOk, ClausesOk, Good,
        ReasonsOk, Clauses2, BinKinds, TrailOk, Fixed, Nested, End, PromisesOk, LevelZero, FailingFound,
        Fails, FactsOf, Set;
      ghost var base, db, trail0, queue0 := e.Db() + Units(e.trail), e.Db(), e.trail, queue;
      FailingFoundStarts(db, Set(trail0), queue0, failed, FactsOf(e.trail, []));
      depthFailed := [false];
      SearchStarts(base);
      NoneFailed(base);
      LevelZeroNone(trail0, e.trail);
      ghost var stack: seq<Lit> := [];
      timeout := false;
      var left := steps;
      while queue != [] && !timeout
        modifies `queue, `failed, `depthFailed, `resetReasonStack, `changed, `ok, e
        invariant Looking(base, links, stack, trail0, queue0) && e.Db() == db
        invariant |queue0| - |queue| == steps - left && !timeout
        decreases |queue|
      {
        if left == 0 {
          timeout := true;
          break;
        }
        left := left - 1;
        stack := LookAtNext(base, links, stack, trail0, queue0);
        if !ok {
          return;
        }
      }
      EndNone(stack);
      LookEnds(base, stack, trail0, queue0);
      if ok && !timeout {
        AllFound(db, Set(trail0), queue0, e.trail);
      }
    }

    /** Back to level zero at the end; what has failed by then is set. */
    method LookEnds(ghost base: Formula, ghost stack: seq<Lit>, ghost trail0: seq<Lit>, ghost queue0: seq<QueueElem>)
      requires Search(base, stack) && FailedOk(base) && ok && LevelZero(trail0, e.trail, e.trailLim)
        && FailingFound(e.Db(), Set(trail0), queue0, queue, failed, FactsOf(e.trail, e.trailLim))
      modifies e, `depthFailed, `failed, `ok
      ensures e.Db() == old(e.Db()) && trail0 <= e.trail
      ensures ok ==>
        e.Valid() && e.trailLim == [] && failed == [] && Fixed(base, e.trail, |e.trail|)
        && FailingFound(e.Db(), Set(trail0), queue0, queue, [], e.trail)
      ensures !ok ==> forall m: Model :: !FormulaTrue(m, base)
    {
      hide Means, Known, Failing, Entails, FailedOk, TwoWatched, LitsBelow, Symmetric, BlockedOk, ClausesOk, Good,
        ReasonsOk, Clauses2, BinKinds, TrailOk, Fixed, PromisesOk, FailingFound, FactsOf, Set;
      Sizes(base, stack);
      if |e.trailLim| > 0 {
        FactsBelow(e.trail, e.trailLim, trail0);
        Backtrack(base, stack);
      }
      Sizes(base, []);
      LevelZeroNone(trail0, e.trail);
      ghost var trail1, failed1 := e.trail, failed;
      var res := EmptyFailedList(base);
      if res {
        FailingFoundSet(e.Db(), Set(trail0), queue0, queue, failed1, trail1, e.trail);
        Sizes(base, []);
        TopValid(base, []);
        MeansNone(base, e.trail);
      }
    }

    /**
     A round of in-tree probing: roots, queue, search. Every fact it adds at level zero follows from the clauses
     and the earlier facts; it reports unsatisfiability only if there is no model. Unless it is cut short, each
     literal that leads to a root's negation by binary clauses, and to a conflict by propagation, ends up negated.
     */
    method IntreeProbe(removed: set<nat>, steps: nat) returns (timeout: bool)
      requires e.Valid() && e.qhead == |e.trail| && e.trailLim == [] && ok && queue == [] && seen == {} && failed == []
        && resetReasonStack == [] && changed == map[]
      modifies this, e
      ensures e.Db() == old(e.Db()) && old(e.trail) <= e.trail && seen == {}
      ensures ok ==>
        e.Valid() && e.trailLim == [] && failed == [] && Fixed(old(e.Db() + Units(e.trail)), e.trail, |e.trail|)
      ensures !ok ==> forall m: Model :: !FormulaTrue(m, old(e.Db() + Units(e.trail)))
      ensures ok && !timeout ==> queue == [] && changed == map[]
      ensures timeout ==> steps < 4 * e.nVars
      ensures ok && !timeout ==>
        forall l: Lit {:trigger l.Neg()} ::
          old(Reached(e.watches, e.assigns, removed, e.nVars, l)) && Fails(old(e.Db()), Set(old(e.trail)), l) ==>
          l.Neg() in e.trail
    {
      hide Fixed, Nested, End, TwoWatched, LitsBelow, Symmetric, BlockedOk, ClausesOk, Good, ReasonsOk, Clauses2,
        BinKinds,
        TrailOk, HasBin, Below, QueuedFrom, Set, Fails, Reached;
      ghost var ws, a, db, facts := e.watches, e.assigns, e.Db(), Set(e.trail);
      FillRoots(removed);
      ghost var roots0 := roots;
      RandomizeRoots();
      SameRoots(roots0, roots);
      QueueRoots();
      ghost var queue0 := queue;
      ghost var s: set<Lit> :| QueuedFrom(queue0, ws, a, roots, s);
      LinksOfEngine();
      QueueLength(Links(e.watches), queue, e.watches, e.assigns, roots, s, e.nVars);
      timeout := TreeLook(steps, Links(e.watches));
      if ok && !timeout {
        forall l: Lit | Reached(ws, a, removed, e.nVars, l) && Fails(db, facts, l)
          ensures l.Neg() in e.trail
        {
          ReachedQueued(ws, a, removed, e.nVars, roots, queue0, s, l);
        }
      }
    }

    lemma LinksOfEngine()
      requires e.Valid()
      ensures LinksFit(Links(e.watches))
    {
      forall l: Lit, o: Lit, r: bool | Bin(l.Neg(), r) in W(e.watches, o)
        ensures {o, l.Neg()} in e.Db()
      {
        assert {o, l.Neg()} in BinClauses(e.lists, r);
      }
    }
  }

  lemma SameRoots(a: seq<Lit>, b: seq<Lit>)
    requires multiset(a) == multiset(b) && forall i, j {:trigger a[i], a[j]} :: 0 <= i < j < |a| ==> a[i] != a[j]
    ensures (forall l {:trigger l in b} :: l in b <==> l in a) && forall i, j {:trigger b[i], b[j]} ::
      0 <= i < j < |b| ==> b[i] != b[j]
  {
    forall l
      ensures l in b <==> l in a
    {
      assert l in b <==> l in multiset(b);
      assert l in a <==> l in multiset(a);
    }
    forall l: Lit
      ensures multiset(a)[l] <= 1
    {
      OnceEach(a, l);
    }
    forall i, j | 0 <= i < j < |b|
      ensures b[i] != b[j]
    {
      assert b == b[..j] + [b[j]] + b[j + 1..];
      assert multiset(b)[b[j]] == multiset(b[..j])[b[j]] + 1 + multiset(b[j + 1..])[b[j]];
      assert b[j] !in multiset(b[..j]);
      assert b[..j][i] == b[i];
    }
  }

  lemma {:induction false} OnceEach(a: seq<Lit>, l: Lit)
    requires forall i, j {:trigger a[i], a[j]} :: 0 <= i < j < |a| ==> a[i] != a[j]
    ensures multiset(a)[l] <= 1
  {
    if a != [] {
      var n := |a| - 1;
      assert a == a[..n] + [a[n]];
      OnceEach(a[..n], l);
      assert a[n] !in a[..n];
    }
  }

  // ----- steps of the search, on values -----

  lemma QuietPair(a: Assigns, o: Lit, n: Lit)
    requires Quiet(a, {o, n}) && Value(a, o) == False
    ensures Value(a, n) == True
  {
  }

  lemma LinkEntailed(base: Formula, db: Formula, stack: seq<Lit>, lit: Lit)
    requires db <= base && (stack != [] ==> {Last(stack), lit.Neg()} in db)
    ensures stack != [] ==> Entails(base, {Last(stack), lit.Neg()})
  {
  }

  lemma KnownSizes(trail: seq<Lit>, lim: seq<nat>, stack: seq<Lit>, df: seq<bool>)
    requires Known(trail, lim, stack, df)
    ensures |df| == |stack| + 1 == |lim| + 1
  {
  }

  lemma KnownNext(trail: seq<Lit>, trail': seq<Lit>, lim: seq<nat>, stack: seq<Lit>, df: seq<bool>, l: Lit, f: bool)
    requires Known(trail, lim, stack, df) && trail <= trail' && (f || l in trail' || l.Neg() in trail')
    ensures Known(trail', lim + [|trail|], stack + [l], df + [f])
  {
    var lim', stack', df' := lim + [|trail|], stack + [l], df + [f];
    forall i | 0 <= i < |stack'| && !df'[i + 1]
      ensures stack'[i] in trail'[..EndAt(trail', lim', i + 1)]
        || stack'[i].Neg() in trail'[..EndAt(trail', lim', i + 1)]
    {
      if i < |stack| {
        assert stack'[i] == stack[i] && df'[i + 1] == df[i + 1];
        assert EndAt(trail', lim', i + 1) == EndAt(trail, lim, i + 1);
        assert trail'[..EndAt(trail, lim, i + 1)] == trail[..EndAt(trail, lim, i + 1)];
      } else {
        assert trail'[..|trail'|] == trail';
      }
    }
  }

  lemma FailingNext(base: Formula, stack: seq<Lit>, df: seq<bool>, l: Lit, f: bool)
    requires Failing(base, stack, df) && (Last(df) ==> f) && (f ==> Entails(base, {l.Neg()}))
    ensures Failing(base, stack + [l], df + [f])
  {
    hide Entails;
    var stack', df' := stack + [l], df + [f];
    forall i | 0 <= i < |stack'|
      ensures df'[i] ==> df'[i + 1]
      ensures df'[i + 1] ==> Entails(base, {stack'[i].Neg()})
    {
      if i < |stack| {
        assert stack'[i] == stack[i] && df'[i] == df[i] && df'[i + 1] == df[i + 1];
      }
    }
  }

  lemma KnownClosed(trail: seq<Lit>, lim: seq<nat>, stack: seq<Lit>, df: seq<bool>, k: nat)
    requires Known(trail, lim, stack, df) && k < |lim|
      && (forall i, j :: 0 <= i <= j < |lim| ==> lim[i] <= lim[j] <= |trail|)
    ensures Known(trail[..lim[k]], lim[..k], stack[..k], df[..k + 1])
  {
    var trail', lim', stack', df' := trail[..lim[k]], lim[..k], stack[..k], df[..k + 1];
    forall i | 0 <= i < |stack'| && !df'[i + 1]
      ensures stack'[i] in trail'[..EndAt(trail', lim', i + 1)]
        || stack'[i].Neg() in trail'[..EndAt(trail', lim', i + 1)]
    {
      assert stack'[i] == stack[i] && df'[i + 1] == df[i + 1];
      assert EndAt(trail', lim', i + 1) == EndAt(trail, lim, i + 1);
      assert trail'[..EndAt(trail, lim, i + 1)] == trail[..EndAt(trail, lim, i + 1)];
    }
  }

  lemma FailingClosed(base: Formula, stack: seq<Lit>, df: seq<bool>, k: nat)
    requires Failing(base, stack, df) && k < |stack|
    ensures Failing(base, stack[..k], df[..k + 1])
  {
    hide Entails;
    forall i | 0 <= i < k
      ensures df[..k + 1][i + 1] ==> Entails(base, {stack[..k][i].Neg()})
    {
      assert stack[..k][i] == stack[i] && df[..k + 1][i + 1] == df[i + 1];
    }
  }

  /** A literal that is false, or whose parent has failed, is refuted. */
  lemma Refuted(base: Formula, db: Formula, trail: seq<Lit>, lim: seq<nat>, stack: seq<Lit>, df: seq<bool>, lit: Lit)
    requires Means(base, trail, lim + [|trail|], stack + [lit]) && Failing(base, stack, df) && db <= base
    requires lit.Neg() in trail || Last(df)
    requires stack != [] ==> Entails(base, {Last(stack), lit.Neg()})
    ensures Entails(base, {lit.Neg()})
  {
    assert Last(stack + [lit]) == lit;
    if lit.Neg() in trail {
      DecisionFails(base, db, trail, lim + [|trail|], stack + [lit]);
    } else {
      assert stack != [] && df[|stack| - 1 + 1];
      assert Entails(base, {stack[|stack| - 1].Neg()});
      FailsBelow(base, lit, Last(stack));
    }
  }

  lemma UndoneLast(changed: map<nat, Reason>, resets: seq<ResetReason>)
    requires resets != [] && Last(resets) == NoReset
    ensures UndoAll(changed, resets[..|resets| - 1]) == UndoAll(changed, resets)
  {
  }

  lemma LimsBelow(trail: seq<Lit>, lim: seq<nat>, a: Assigns, level: map<nat, nat>, n: nat)
    requires TrailOk(trail, lim, a, level, n)
    ensures forall i, j :: 0 <= i <= j < |lim| ==> lim[i] <= lim[j] <= |trail|
  {
  }

  lemma OutcomeTells(db: Formula, from: iset<Lit>, conflict: bool, to: iset<Lit>)
    requires Outcome(db, from, conflict, to)
    ensures if conflict then Falsified(db, Closure(db, from)) else to <= Closure(db, from)
  {
  }

  lemma OneMoreSet(trail: seq<Lit>, lit: Lit)
    ensures Set(trail + [lit]) == Set(trail) + iset{lit}
  {
  }

  lemma OutcomeFails(db: Formula, facts: iset<Lit>, lit: Lit, conflict: bool, to: iset<Lit>)
    requires Outcome(db, facts + iset{lit}, conflict, to)
    ensures conflict == Fails(db, facts, lit)
  {
  }

  lemma AlreadyOnTrail(trail: seq<Lit>, lit: Lit)
    requires lit in trail
    ensures lit in Set(trail)
  {
  }

  lemma MeansNone(base: Formula, trail: seq<Lit>)
    ensures Means(base, trail, [], []) <==> Fixed(base, trail, |trail|)
  {
  }

  lemma KnownNone(trail: seq<Lit>, df: seq<bool>)
    requires |df| == 1
    ensures Known(trail, [], [], df)
  {
  }

  lemma UnitTrue(base: Formula, trail: seq<Lit>, lit: Lit, m: Model)
    requires Fixed(base, trail, |trail|) && Entails(base, {lit}) && FormulaTrue(m, base)
    ensures AllTrue(m, trail + [lit]) && forall l :: l in Set(trail + [lit]) ==> LitTrue(m, l)
  {
    assert ClauseTrue(m, {lit});
    assert trail[..|trail|] == trail;
  }

  lemma UnitConflict(base: Formula, db: Formula, trail: seq<Lit>, lit: Lit)
    requires Fixed(base, trail, |trail|) && Entails(base, {lit}) && db <= base
      && Falsified(db, Closure(db, Set(trail + [lit])))
    ensures forall m: Model :: !FormulaTrue(m, base)
  {
    forall m: Model
      ensures !FormulaTrue(m, base)
    {
      if FormulaTrue(m, base) {
        UnitTrue(base, trail, lit, m);
        ClosureSound(db, Set(trail + [lit]), m);
      }
    }
  }

  lemma UnitClash(base: Formula, trail: seq<Lit>, lit: Lit)
    requires Fixed(base, trail, |trail|) && Entails(base, {lit}) && lit.Neg() in trail
    ensures forall m: Model :: !FormulaTrue(m, base)
  {
    assert lit.Neg() in trail + [lit] && lit in trail + [lit];
    forall m: Model
      ensures !FormulaTrue(m, base)
    {
      if FormulaTrue(m, base) {
        UnitTrue(base, trail, lit, m);
      }
    }
  }

  lemma FixedGrows(base: Formula, db: Formula, trail: seq<Lit>, lit: Lit, trail': seq<Lit>)
    requires Fixed(base, trail, |trail|) && Entails(base, {lit}) && db <= base
      && Set(trail') <= Closure(db, Set(trail + [lit]))
    ensures Fixed(base, trail', |trail'|)
  {
    forall m: Model | FormulaTrue(m, base)
      ensures AllTrue(m, trail'[..|trail'|])
    {
      UnitTrue(base, trail, lit, m);
      ClosureSound(db, Set(trail + [lit]), m);
      assert trail'[..|trail'|] == trail';
    }
  }

  lemma InPrefix(l: Lit, trail: seq<Lit>, lit: Lit, trail': seq<Lit>)
    requires trail + [lit] <= trail' && (l in trail || l == lit)
    ensures l in trail'
  {
    assert l in trail + [lit];
    var i :| 0 <= i < |trail + [lit]| && (trail + [lit])[i] == l;
    assert trail'[i] == l;
  }

  /** What was on the trail at the beginning is still there, below the first level. */
  ghost predicate LevelZero(trail0: seq<Lit>, trail: seq<Lit>, lim: seq<nat>) {
    EndAt(trail, lim, 0) <= |trail| && trail0 <= trail[..EndAt(trail, lim, 0)]
  }

  lemma EndNone(stack: seq<Lit>)
    ensures End([], stack) == stack
  {
  }

  lemma LevelZeroNone(trail0: seq<Lit>, trail: seq<Lit>)
    ensures LevelZero(trail0, trail, []) <==> trail0 <= trail
    ensures FactsOf(trail, []) == trail
  {
    assert trail[..|trail|] == trail;
  }

  lemma LevelZeroOpened(trail0: seq<Lit>, trail: seq<Lit>, trail': seq<Lit>, lim: seq<nat>)
    requires LevelZero(trail0, trail, lim) && trail <= trail'
    ensures LevelZero(trail0, trail', lim + [|trail|]) && FactsOf(trail', lim + [|trail|]) == FactsOf(trail, lim)
    ensures Set(trail0) <= Set(trail)
  {
    var n := EndAt(trail, lim, 0);
    assert EndAt(trail', lim + [|trail|], 0) == n && trail'[..n] == trail[..n];
    forall l | l in trail0
      ensures l in trail
    {
      var i :| 0 <= i < |trail0| && trail0[i] == l;
      assert trail[..n][i] == l && trail[i] == l;
    }
  }

  lemma LevelZeroClosed(trail0: seq<Lit>, trail: seq<Lit>, lim: seq<nat>, k: nat)
    requires LevelZero(trail0, trail, lim) && k < |lim| && lim[k] <= |trail| && lim[0] <= lim[k]
    ensures LevelZero(trail0, trail[..lim[k]], lim[..k])
    ensures FactsOf(trail[..lim[k]], lim[..k]) == FactsOf(trail, lim)
  {
    var trail', n := trail[..lim[k]], EndAt(trail, lim, 0);
    assert EndAt(trail', lim[..k], 0) == n && trail'[..n] == trail[..n];
  }

  lemma FactsBelow(trail: seq<Lit>, lim: seq<nat>, trail0: seq<Lit>)
    requires lim != [] && LevelZero(trail0, trail, lim)
    ensures lim[0] <= |trail| && FactsOf(trail, lim) == trail[..lim[0]] && trail0 <= trail[..lim[0]]
  {
  }

  lemma AllFound(db: Formula, facts: iset<Lit>, q0: seq<QueueElem>, fixed: seq<Lit>)
    requires FailingFound(db, facts, q0, [], [], fixed)
    ensures forall l: Lit {:trigger Visits(q0)[l]} :: Visits(q0)[l] > 0 && Fails(db, facts, l) ==> l.Neg() in fixed
  {
  }

  lemma Unnest(links: iset<QueueElem>, q: seq<QueueElem>, stack: seq<Lit>)
    requires Nested(links, q, stack) && q != []
    ensures q[0].Visit? ==>
      LinkOk(links, stack, q[0]) && Nested(links, q[1..], stack + [q[0].propagated])
      && End(q[1..], stack + [q[0].propagated]) == End(q, stack)
    ensures q[0].Close? ==>
      stack != [] && Nested(links, q[1..], stack[..|stack| - 1]) && End(q[1..], stack[..|stack| - 1]) == End(q, stack)
  {
  }

  lemma AllLitsBelow(l: Lit, n: nat)
    ensures l in AllLits(n) <==> l.v < n
  {
    assert l == Lit(l.v, l.sign);
  }

  lemma VisitOnce(q: seq<QueueElem>, seen: set<Lit>, v: QueueElem)
    requires Counted(q, seen) && v.Visit? && v.propagated !in seen
    ensures Counted(q + [v], seen + {v.propagated})
  {
    VisitsConcat(q, [v]);
    assert [v][1..] == [];
    forall l: Lit
      ensures Visits(q + [v])[l] == if l in seen + {v.propagated} then 1 else 0
    {
      assert Visits(q)[l] == if l in seen then 1 else 0;
    }
  }

  lemma {:induction false} VisitsConcat(a: seq<QueueElem>, b: seq<QueueElem>)
    ensures Visits(a + b) == Visits(a) + Visits(b)
  {
    if a == [] {
      assert a + b == b;
    } else {
      assert (a + b)[0] == a[0] && (a + b)[1..] == a[1..] + b;
      VisitsConcat(a[1..], b);
    }
  }

  lemma VisitsClose(q: seq<QueueElem>)
    ensures Visits(q + [Close]) == Visits(q)
  {
    VisitsConcat(q, [Close]);
    assert [Close][1..] == [];
  }

  lemma CountedClose(q: seq<QueueElem>, seen: set<Lit>)
    requires Counted(q, seen)
    ensures Counted(q + [Close], seen)
  {
    VisitsClose(q);
    forall l: Lit
      ensures Visits(q + [Close])[l] == if l in seen then 1 else 0
    {
      assert Visits(q)[l] == if l in seen then 1 else 0;
    }
  }

  lemma ReachedQueued(ws: WatchLists, a: Assigns, removed: set<nat>, n: nat, roots: seq<Lit>, q: seq<QueueElem>,
                      s: set<Lit>, l: Lit)
    requires Reached(ws, a, removed, n, l) && QueuedFrom(q, ws, a, roots, s)
    requires forall l: Lit {:trigger l in roots} :: IsRoot(ws, a, removed, n, l) ==> l in roots
    ensures Visits(q)[l] == 1
  {
    var path: seq<Lit> :| FromRoot(ws, a, removed, n, path, l);
    PathQueued(ws, a, removed, n, roots, q, s, path);
  }

  lemma AllQueued(q: seq<QueueElem>, ws: WatchLists, a: Assigns, roots: seq<Lit>, s: set<Lit>)
    requires Counted(q, s) && (forall k {:trigger roots[k]} :: 0 <= k < |roots| ==> roots[k].Neg() in s)
    requires forall l: Lit {:trigger l in s} :: l in s ==> Explored(ws, a, l, s)
    ensures QueuedFrom(q, ws, a, roots, s)
  {
    hide Counted, Explored;
  }

  /** Every literal queued has one visit and one end. */
  lemma QueueLength(links: iset<QueueElem>, q: seq<QueueElem>, ws: WatchLists, a: Assigns, roots: seq<Lit>,
                    s: set<Lit>, n: nat)
    requires Subtree(links, q, []) && Below(q, n) && QueuedFrom(q, ws, a, roots, s)
    ensures |q| <= 4 * n
  {
    hide Below, Nested, End, Visits, Explored, AllLits, Counted;
    TwoEach(links, q, []);
    CountedBelow(q, s, n);
    AllLitsSize(n);
    SubsetSize(s, AllLits(n));
    CountedSize(q, s);
  }

  lemma CountedBelow(q: seq<QueueElem>, s: set<Lit>, n: nat)
    requires Counted(q, s) && Below(q, n)
    ensures s <= AllLits(n)
  {
    hide Visits, AllLits;
    VisitsBelow(q, n);
    forall l | l in s
      ensures l in AllLits(n)
    {
      assert Visits(q)[l] == 1;
      AllLitsBelow(l, n);
    }
  }

  lemma CountedSize(q: seq<QueueElem>, s: set<Lit>)
    requires Counted(q, s)
    ensures |Visits(q)| == |s|
  {
    hide Visits;
    forall l: Lit
      ensures Visits(q)[l] == multiset(s)[l]
    {
      assert Visits(q)[l] == if l in s then 1 else 0;
    }
    assert Visits(q) == multiset(s);
  }

  lemma {:induction false} TwoEach(links: iset<QueueElem>, q: seq<QueueElem>, stack: seq<Lit>)
    requires Nested(links, q, stack)
    ensures |q| + |End(q, stack)| == 2 * |Visits(q)| + |stack|
  {
    if q != [] {
      TwoEach(links, q[1..], if q[0].Visit? then stack + [q[0].propagated] else stack[..|stack| - 1]);
    }
  }

  lemma {:induction false} VisitsBelow(q: seq<QueueElem>, n: nat)
    requires Below(q, n)
    ensures forall l {:trigger Visits(q)[l]} :: l in Visits(q) ==> l.v < n
  {
    if q != [] {
      forall k | 0 <= k < |q[1..]| && q[1..][k].Visit?
        ensures q[1..][k].propagated.v < n
      {
        assert q[1..][k] == q[k + 1];
      }
      VisitsBelow(q[1..], n);
    }
  }

  lemma {:induction false} AllLitsSize(n: nat)
    ensures |AllLits(n)| == 2 * n
  {
    hide AllLits;
    if n == 0 {
      forall l: Lit
        ensures l !in AllLits(0)
      {
        AllLitsBelow(l, 0);
      }
      assert AllLits(0) == {};
    } else {
      AllLitsSize(n - 1);
      var top := {Lit(n - 1, false), Lit(n - 1, true)};
      forall l: Lit
        ensures l in AllLits(n) <==> l in AllLits(n - 1) + top
        ensures l in top ==> l !in AllLits(n - 1)
      {
        AllLitsBelow(l, n);
        AllLitsBelow(l, n - 1);
        assert l == Lit(l.v, l.sign);
      }
      assert AllLits(n) == AllLits(n - 1) + top && AllLits(n - 1) !! top;
    }
  }

  lemma NoVisits()
    ensures Counted([], {})
  {
  }

  lemma VisitsSnoc(q: seq<QueueElem>, k: nat)
    requires k < |q|
    ensures Visits(q[..k + 1]) == Visits(q[..k]) + if q[k].Visit? then multiset{q[k].propagated} else multiset{}
  {
    assert q[..k + 1] == q[..k] + [q[k]];
    VisitsConcat(q[..k], [q[k]]);
    assert [q[k]][1..] == [];
  }

  lemma BelowBoth(a: seq<QueueElem>, b: seq<QueueElem>, n: nat)
    requires Below(a, n) && Below(b, n)
    ensures Below(a + b, n)
  {
  }

  lemma BelowTree(v: QueueElem, seg: seq<QueueElem>, n: nat)
    requires Below(seg, n) && v.Visit? && v.propagated.v < n
    ensures Below([v] + seg + [Close], n)
  {
  }

  lemma ExploredMore(ws: WatchLists, a: Assigns, l: Lit, seen: set<Lit>, seen': set<Lit>)
    requires Explored(ws, a, l, seen) && seen <= seen'
    ensures Explored(ws, a, l, seen')
  {
  }

  lemma AllExplored(ws: WatchLists, a: Assigns, l: Lit, list: seq<Watched>, seen: set<Lit>)
    requires list == W(ws, l)
    requires forall k {:trigger list[k]} ::
      0 <= k < |list| && list[k].Bin? && Value(a, list[k].lit2) == Undef ==> list[k].lit2.Neg() in seen
    ensures Explored(ws, a, l, seen)
  {
  }

  lemma RootLink(ws: WatchLists, l: Lit)
    ensures LinkOk(Links(ws), [], Visit(l.Neg(), None, false))
  {
  }

  lemma NotEarlier(roots: seq<Lit>, k: nat)
    requires k < |roots| && forall i, j {:trigger roots[i], roots[j]} :: 0 <= i < j < |roots| ==> roots[i] != roots[j]
    ensures roots[k] !in roots[..k]
  {
  }

  /** The literal that implies `lit` by the binary clause may be queued below it. */
  lemma Child(e: PropEngine, lit: Lit, w: Watched, stack: seq<Lit>)
    requires e.Valid() && w in W(e.watches, lit) && w.Bin?
    ensures LinkOk(Links(e.watches), stack + [lit], Visit(w.lit2.Neg(), Some(lit), w.red))
    ensures w.lit2.v < e.nVars && HasBin(e.watches, w.lit2)
    ensures Value(e.assigns, w.lit2) == Undef ==> Value(e.assigns, w.lit2.Neg()) == Undef
    ensures w.lit2.Neg().Neg() == w.lit2
  {
    assert w == Bin(w.lit2, w.red);
    assert w.lit2.Neg().Neg() == w.lit2;
    assert Visit(w.lit2.Neg(), Some(lit), w.red) in Links(e.watches);
    InBins(W(e.lists, lit), w);
    assert Bin(lit, w.red) in Bins(W(e.lists, w.lit2));
    InBins(W(e.lists, w.lit2), Bin(lit, w.red));
    assert Bin(lit, w.red) in W(e.watches, w.lit2);
  }
}
