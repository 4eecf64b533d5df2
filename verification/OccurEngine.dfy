/**
 Unit propagation over full occurrence lists, used while simplifying: the plain counterpart of the
 two-watched-literal scheme. (cryptoms/propengine.cpp)
 */
module OccurEngine {
  import opened Literals
  import opened Watches
  import opened UnitClosure
  import opened Trail
  import opened WatchTheory

  /** Every long clause is listed under each of its literals, every binary one under both. */
  ghost predicate OccursOk(ws: WatchLists, cls: Clauses, n: nat) {
    && ClausesOk(cls)
    && (forall l, w {:trigger w in W(ws, l)} :: w in W(ws, l) ==> OccurrenceOk(cls, n, l, w))
    && (forall off, l {:trigger l in cls[off]} :: off in cls && l in cls[off] ==> Listed(ws, off, l))
    && (forall l, k, red {:trigger Bin(k, red) in W(ws, l)} :: Bin(k, red) in W(ws, l) ==> Bin(l, red) in W(ws, k))
  }

  ghost predicate OccurrenceOk(cls: Clauses, n: nat, l: Lit, w: Watched) {
    match w
    case Bin(k, _) => k.v < n && k != l
    case Long(off, _) => off in cls && l in cls[off] && forall k :: k in cls[off] ==> k.v < n
  }

  ghost predicate Listed(ws: WatchLists, off: nat, l: Lit) {
    exists b :: Long(off, b) in W(ws, l)
  }

  /** Satisfied, or with two different literals that the first `q` trail literals do not falsify. */
  ghost predicate Handled(a: Assigns, trail: seq<Lit>, q: nat, c: Clause)
    requires q <= |trail|
  {
    || (exists t :: t in c && Value(a, t) == True)
    || exists l, k :: l in c && k in c && l != k && l.Neg() !in trail[..q] && k.Neg() !in trail[..q]
  }

  /** The clause that entry `w` in the list of `l` stands for. */
  ghost function ClauseOf(cls: Clauses, l: Lit, w: Watched): Clause {
    match w
    case Bin(k, _) => {l, k}
    case Long(off, _) => if off in cls then Lits(cls[off]) else {}
  }

  lemma ClauseOfInDb(ws: WatchLists, cls: Clauses, n: nat, l: Lit, w: Watched)
    requires OccursOk(ws, cls, n) && w in W(ws, l)
    ensures ClauseOf(cls, l, w) in Clauses2(ws, cls) && l in ClauseOf(cls, l, w)
    ensures forall k :: k in ClauseOf(cls, l, w) && k != l ==> k.v < n
  {
    assert OccurrenceOk(cls, n, l, w);
    if w.Bin? {
      assert w == Bin(w.lit2, w.red);
      assert {l, w.lit2} in BinClauses(ws, w.red);
    } else {
      assert Lits(cls[w.off]) in LongClauses(cls);
    }
  }

  /** A clause of the database that contains `l` is the clause of some entry in the list of `l`. */
  lemma EntryOf(ws: WatchLists, cls: Clauses, n: nat, l: Lit, c: Clause) returns (w: Watched)
    requires OccursOk(ws, cls, n) && c in Clauses2(ws, cls) && l in c
    ensures w in W(ws, l) && ClauseOf(cls, l, w) == c
  {
    if c in LongClauses(cls) {
      var off :| off in cls && c == Lits(cls[off]);
      assert l in cls[off];
      assert Listed(ws, off, l);
      var b :| Long(off, b) in W(ws, l);
      w := Long(off, b);
    } else {
      var red :| c in BinClauses(ws, red);
      var x, y :| Bin(y, red) in W(ws, x) && c == {x, y};
      assert Bin(x, red) in W(ws, y);
      w := if l == x then Bin(y, red) else Bin(x, red);
    }
  }

  lemma QuietIsHandled(a: Assigns, trail: seq<Lit>, q: nat, c: Clause, level: map<nat, nat>, n: nat)
    requires TrailOk(trail, [], a, level, n) && q <= |trail| && Quiet(a, c)
    ensures Handled(a, trail, q, c)
  {
    forall i | 0 <= i < |trail|
      ensures Value(a, trail[i].Neg()) == False
    {
      assert EntryOk(trail, [], a, level, n, i);
    }
    forall l: Lit | Value(a, l) != False
      ensures l.Neg() !in trail[..q]
    {
      assert l.Neg().Neg() == l;
    }
  }

  lemma HandledIsQuiet(a: Assigns, trail: seq<Lit>, c: Clause, level: map<nat, nat>, n: nat)
    requires TrailOk(trail, [], a, level, n) && Handled(a, trail, |trail|, c)
    ensures Quiet(a, c)
  {
    forall l: Lit | l.Neg() !in trail[..|trail|]
      ensures Value(a, l) != False
    {
      assert trail[..|trail|] == trail;
      if Value(a, l) == False {
        var i := OnTrail(trail, [], a, level, n, l.Neg());
      }
    }
  }

  /** One more trail literal does not matter to clauses that do not contain its negation. */
  lemma HandledNext(a: Assigns, trail: seq<Lit>, q: nat, c: Clause)
    requires q < |trail| && Handled(a, trail, q, c) && trail[q].Neg() !in c
    ensures Handled(a, trail, q + 1, c)
  {
    assert trail[..q + 1] == trail[..q] + [trail[q]];
    if !exists t :: t in c && Value(a, t) == True {
      var l, k :| l in c && k in c && l != k && l.Neg() !in trail[..q] && k.Neg() !in trail[..q];
      assert l.Neg() != trail[q] && k.Neg() != trail[q];
      assert l.Neg() !in trail[..q + 1] && k.Neg() !in trail[..q + 1];
    }
  }

  /** Setting another variable keeps handled clauses handled. */
  lemma HandledGrows(a: Assigns, trail: seq<Lit>, q: nat, c: Clause, l: Lit)
    requires q <= |trail| && Handled(a, trail, q, c) && Value(a, l) == Undef
    ensures Handled(a[l.v := !l.sign], trail + [l], q, c)
  {
    var a' := a[l.v := !l.sign];
    assert (trail + [l])[..q] == trail[..q];
    if t :| t in c && Value(a, t) == True {
      assert Value(a', t) == True;
    }
  }

  class OccurEngine {
    const nVars: nat
    var ok: bool
    var assigns: Assigns
    var level: map<nat, nat>
    var trail: seq<Lit>
    var qhead: nat
    var watches: WatchLists
    var cls: Clauses

    ghost function Db(): Formula
      reads `cls, `watches
    {
      Clauses2(watches, cls)
    }

    ghost predicate Structure()
      reads `assigns, `level, `trail, `watches, `cls
    {
      TrailOk(trail, [], assigns, level, nVars) && OccursOk(watches, cls, nVars)
    }

    ghost predicate HandledTo(q: nat)
      reads `assigns, `trail, `watches, `cls
      requires q <= |trail|
    {
      forall c :: c in Db() ==> Handled(assigns, trail, q, c)
    }

    ghost predicate Valid()
      reads `assigns, `level, `trail, `watches, `cls, `qhead
    {
      Structure() && qhead <= |trail| && HandledTo(qhead)
    }

    ghost predicate Implied(from: iset<Lit>)
      reads `trail, `watches, `cls
    {
      Set(trail) <= Closure(Db(), from)
    }

    method Enqueue(l: Lit)
      requires Structure() && Value(assigns, l) == Undef && l.v < nVars
      modifies this`assigns, this`level, this`trail
      ensures Structure() && trail == old(trail) + [l]
      ensures assigns == old(assigns)[l.v := !l.sign]
    {
      TrailGrows(trail, [], assigns, level, nVars, l);
      assigns := assigns[l.v := !l.sign];
      level := level[l.v := 0];
      trail := trail + [l];
    }

    /** Enqueues a literal whose clause has become unit. */
    method EnqueueUnit(c: Clause, l: Lit, ghost q: nat, ghost from: iset<Lit>, ghost done: iset<Clause>)
      requires Structure() && Value(assigns, l) == Undef && l.v < nVars && q <= |trail| && Implied(from)
      requires c in Db() && l in c && forall k :: k in c && k != l ==> Value(assigns, k) == False
      requires forall d :: d in done ==> Handled(assigns, trail, q, d)
      modifies this`assigns, this`level, this`trail
      ensures Structure() && trail == old(trail) + [l] && Implied(from) && Quiet(assigns, c)
      ensures assigns == old(assigns)[l.v := !l.sign]
      ensures forall d :: d in done ==> Handled(assigns, trail, q, d)
    {
      hide TrailOk, OccursOk, Handled, Closure;
      forall d | d in done
        ensures Handled(assigns[l.v := !l.sign], trail + [l], q, d)
      {
        HandledGrows(assigns, trail, q, d, l);
      }
      UnitImplied(c, l, from);
      Enqueue(l);
      assert Value(assigns, l) == True;
    }

    lemma UnitImplied(c: Clause, l: Lit, from: iset<Lit>)
      requires Structure() && Implied(from) && c in Db() && l in c
      requires forall k :: k in c && k != l ==> Value(assigns, k) == False
      ensures Set(trail + [l]) <= Closure(Db(), from)
    {
      forall k | k in c && k != l
        ensures k.Neg() in Closure(Db(), from)
      {
        var i := OnTrail(trail, [], assigns, level, nVars, k.Neg());
        assert k.Neg() in Set(trail);
      }
      UnitStep(Db(), from, c, l);
      forall x | x in Set(trail + [l])
        ensures x in Closure(Db(), from)
      {
        assert x == l || x in Set(trail);
      }
    }

    lemma FalseImplied(c: Clause, from: iset<Lit>)
      requires Structure() && Implied(from) && c in Db()
      requires forall k :: k in c ==> Value(assigns, k) == False
      ensures Falsified(Db(), Closure(Db(), from))
    {
      forall k | k in c
        ensures k.Neg() in Set(trail)
      {
        var i := OnTrail(trail, [], assigns, level, nVars, k.Neg());
      }
      FalsifiedGrows(Db(), c, Set(trail), Closure(Db(), from));
    }

    /** The binary clause (np or w.lit2), `np` being false. */
    method PropagateBinaryClauseOccur(np: Lit, w: Watched, ghost q: nat, ghost from: iset<Lit>,
                                      ghost done: iset<Clause>) returns (b: bool)
      requires Structure() && w.Bin? && w in W(watches, np) && Value(assigns, np) == False
      requires q <= |trail| && Implied(from) && forall d :: d in done ==> Handled(assigns, trail, q, d)
      modifies this`ok, this`assigns, this`level, this`trail
      ensures Structure() && old(trail) <= trail && Implied(from) && Value(assigns, np) == False && ok == (old(ok) && b)
      ensures forall d :: d in done ==> Handled(assigns, trail, q, d)
      ensures b ==> Quiet(assigns, ClauseOf(cls, np, w))
      ensures !b ==> Falsified(Db(), Closure(Db(), from))
    {
      hide TrailOk, OccursOk, Handled, Closure, Falsified, Clauses2;
      ClauseOfInDb(watches, cls, nVars, np, w);
      ghost var c := ClauseOf(cls, np, w);
      var val := Value(assigns, w.lit2);
      if val == False {
        FalseImplied(c, from);
        ok := false;
        return false;
      }
      if val == Undef {
        BinDistinct(np, w);
        EnqueueUnit({np, w.lit2}, w.lit2, q, from, done);
      } else {
        assert w.lit2 in c;
      }
      return true;
    }

    lemma LongDistinct(np: Lit, w: Watched)
      requires Structure() && w.Long? && w in W(watches, np) && w.off in cls
      ensures ClauseOk(cls[w.off])
    {
    }

    lemma BinDistinct(np: Lit, w: Watched)
      requires Structure() && w.Bin? && w in W(watches, np)
      ensures w.lit2 != np && w.lit2.v < nVars
    {
      assert OccurrenceOk(cls, nVars, np, w);
    }

    /** All of `ls` is false except for the unset literal `u`. */
    ghost predicate OnlyUndef(ls: seq<Lit>, u: Option<Lit>)
      reads `assigns
    {
      && u.Some? && u.value in ls && Value(assigns, u.value) == Undef
      && forall k :: k in ls && k != u.value ==> Value(assigns, k) == False
    }

    lemma TwoUndef(cl: seq<Lit>, i: nat, u: Option<Lit>)
      requires ClauseOk(cl) && i < |cl| && Value(assigns, cl[i]) == Undef && OnlyUndef(cl[..i], u)
      ensures Quiet(assigns, Lits(cl))
    {
      var k :| 0 <= k < i && cl[..i][k] == u.value;
      assert cl[k] == u.value && cl[k] != cl[i];
      assert u.value in Lits(cl) && cl[i] in Lits(cl);
    }

    /** The long clause `off`, read until it is seen to be satisfied or to have two unset literals. */
    method PropagateLongClauseOccur(np: Lit, w: Watched, ghost q: nat, ghost from: iset<Lit>, ghost done: iset<Clause>)
      returns (b: bool)
      requires Structure() && w.Long? && w in W(watches, np) && w.off in cls && Value(assigns, np) == False
      requires q <= |trail| && Implied(from) && forall d :: d in done ==> Handled(assigns, trail, q, d)
      modifies this`ok, this`assigns, this`level, this`trail
      ensures Structure() && old(trail) <= trail && Implied(from) && Value(assigns, np) == False && ok == (old(ok) && b)
      ensures forall d :: d in done ==> Handled(assigns, trail, q, d)
      ensures b ==> Quiet(assigns, ClauseOf(cls, np, w))
      ensures !b ==> Falsified(Db(), Closure(Db(), from))
    {
      hide TrailOk, OccursOk, Handled, Closure, Falsified, Clauses2;
      ClauseOfInDb(watches, cls, nVars, np, w);
      LongDistinct(np, w);
      var cl := cls[w.off];
      ghost var c := ClauseOf(cls, np, w);
      var lastUndef: Option<Lit> := None;
      var numUndef := 0;
      var satisfied := false;
      var i := 0;
      while i < |cl|
        invariant 0 <= i <= |cl| && 0 <= numUndef <= 1
        invariant numUndef == 0 ==> forall k :: k in cl[..i] ==> Value(assigns, k) == False
        invariant numUndef == 1 ==> OnlyUndef(cl[..i], lastUndef)
        modifies {}
      {
        var lit := cl[i];
        assert lit in c;
        assert cl[..i + 1] == cl[..i] + [lit];
        var val := Value(assigns, lit);
        if val == True {
          satisfied := true;
          break;
        }
        if val == Undef {
          numUndef := numUndef + 1;
          if numUndef > 1 {
            TwoUndef(cl, i, lastUndef);
            break;
          }
          lastUndef := Some(lit);
        }
        i := i + 1;
      }
      if satisfied {
        return true;
      }
      if numUndef == 0 {
        assert cl[..|cl|] == cl;
        FalseImplied(c, from);
        ok := false;
        return false;
      }
      if numUndef > 1 {
        return true;
      }
      assert cl[..|cl|] == cl;
      EnqueueUnit(Lits(cl), lastUndef.value, q, from, done);
      return true;
    }

    /** All clauses with the literal falsified by trail position `h` are met. */
    method PropagateList(h: nat, ghost from: iset<Lit>) returns (b: bool)
      requires Structure() && h < |trail| && HandledTo(h) && Implied(from)
      modifies this`ok, this`assigns, this`level, this`trail
      ensures Structure() && old(trail) <= trail && Implied(from) && ok == (old(ok) && b)
      ensures b ==> h < |trail| && HandledTo(h + 1)
      ensures !b ==> Falsified(Db(), Closure(Db(), from))
    {
      hide TrailOk, OccursOk, Handled, Closure, Falsified, Clauses2;
      var np := trail[h].Neg();
      NegFalse(h);
      var ws := W(watches, np);
      ghost var done := iset c | c in Db() && np !in c;
      Untouched(h);
      for k := 0 to |ws|
        invariant Structure() && old(trail) <= trail && Implied(from) && Value(assigns, np) == False && ok == old(ok)
        invariant forall d :: d in done ==> Handled(assigns, trail, h + 1, d)
        invariant forall c :: c in Db() && np !in c ==> c in done
        invariant forall i :: 0 <= i < k ==> ClauseOf(cls, np, ws[i]) in done
      {
        if ws[k].Long? {
          LongListed(np, ws[k]);
          b := PropagateLongClauseOccur(np, ws[k], h + 1, from, done);
        } else {
          b := PropagateBinaryClauseOccur(np, ws[k], h + 1, from, done);
        }
        if !b {
          return;
        }
        QuietIsHandled(assigns, trail, h + 1, ClauseOf(cls, np, ws[k]), level, nVars);
        done := done + iset{ClauseOf(cls, np, ws[k])};
      }
      AllDone(h, np, done);
      return true;
    }

    lemma NegFalse(h: nat)
      requires Structure() && h < |trail|
      ensures Value(assigns, trail[h].Neg()) == False
    {
      assert EntryOk(trail, [], assigns, level, nVars, h);
    }

    lemma LongListed(np: Lit, w: Watched)
      requires Structure() && w in W(watches, np) && w.Long?
      ensures w.off in cls
    {
      assert OccurrenceOk(cls, nVars, np, w);
    }

    lemma Untouched(h: nat)
      requires h < |trail| && HandledTo(h)
      ensures forall c :: c in Db() && trail[h].Neg() !in c ==> Handled(assigns, trail, h + 1, c)
    {
      forall c | c in Db() && trail[h].Neg() !in c
        ensures Handled(assigns, trail, h + 1, c)
      {
        HandledNext(assigns, trail, h, c);
      }
    }

    lemma AllDone(h: nat, np: Lit, done: iset<Clause>)
      requires Structure() && h < |trail|
      requires forall d :: d in done ==> Handled(assigns, trail, h + 1, d)
      requires forall c :: c in Db() && np !in c ==> c in done
      requires forall i :: 0 <= i < |W(watches, np)| ==> ClauseOf(cls, np, W(watches, np)[i]) in done
      ensures HandledTo(h + 1)
    {
      forall c | c in Db()
        ensures Handled(assigns, trail, h + 1, c)
      {
        if np in c {
          var w := EntryOf(watches, cls, nVars, np, c);
          var i :| 0 <= i < |W(watches, np)| && W(watches, np)[i] == w;
        }
      }
    }

    /**
     Propagates the queue at decision level 0. The outcome is the same least closure that the watched scheme
     computes, or a conflict exactly when that closure falsifies a clause.
     */
    method PropagateOccur() returns (b: bool)
      requires Valid()
      modifies this`ok, this`assigns, this`level, this`trail, this`qhead
      ensures !old(ok) ==> !b && trail == old(trail)
      ensures ok == b && Db() == old(Db())
      ensures old(ok) ==> Structure() && old(trail) <= trail && Outcome(Db(), Set(old(trail)), !b, Set(trail))
      ensures b ==> Valid() && qhead == |trail|
    {
      hide TrailOk, OccursOk, Handled, Closure, Falsified, Clauses2, Outcome, Set;
      if !ok {
        return false;
      }
      ghost var from := Set(trail);
      ClosureIsClosed(Db(), from);
      var head: nat := qhead;
      b := true;
      while head < |trail| && b
        invariant Structure() && head <= |trail| && old(trail) <= trail && Implied(from) && ok == b && Db() == old(Db())
        invariant b ==> HandledTo(head)
        invariant !b ==> Falsified(Db(), Closure(Db(), from))
        decreases b, nVars - head
      {
        TrailBounded(trail, [], assigns, level, nVars);
        head := head + 1;
        b := PropagateList(head - 1, from);
        TrailBounded(trail, [], assigns, level, nVars);
      }
      if b {
        QuietOutcome(old(trail));
      } else {
        ConflictOutcome(from);
      }
      qhead := head;
    }

    lemma ConflictOutcome(from: iset<Lit>)
      requires Falsified(Db(), Closure(Db(), from))
      ensures Outcome(Db(), from, true, Set(trail))
    {
    }

    lemma QuietOutcome(trail0: seq<Lit>)
      requires Structure() && HandledTo(|trail|) && Implied(Set(trail0)) && trail0 <= trail
      ensures Outcome(Db(), Set(trail0), false, Set(trail))
    {
      forall c | c in Db()
        ensures Quiet(assigns, c)
      {
        HandledIsQuiet(assigns, trail, c, level, nVars);
      }
      QuietIsClosed(Db(), trail, [], assigns, level, nVars);
      ClosedInsideIsClosure(Db(), Set(trail0), Set(trail));
    }
  }
}
