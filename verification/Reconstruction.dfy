/**
 The stack of clauses removed by variable elimination, and replaying it in reverse.
 (cryptoms/occsimplifier.h:60-101, cryptoms/occsimplifier.cpp:180-240, 1094-1150, cryptoms/solutionextender.cpp)
 */
module Reconstruction {
  import opened Literals
  import opened Watches
  import opened Elimination

  /** A clause removed with a variable, or the mark (`dummy`) that opens the entries of a variable. */
  datatype Blocked = Blocked(blockedOn: Lit, lits: seq<Lit>, dummy: bool, toRemove: bool)

  predicate Active(e: Blocked) {
    !e.dummy && !e.toRemove
  }

  predicate Opens(e: Blocked, v: nat) {
    e.dummy && !e.toRemove && e.blockedOn.v == v
  }

  /** Some entry from `i` on opens the variable. */
  ghost predicate OpenedFrom(es: seq<Blocked>, i: nat, v: nat) {
    exists q: nat {:trigger es[q]} :: i <= q < |es| && Opens(es[q], v)
  }

  /** The clauses on the stack from entry `i` on. */
  ghost function StoredFrom(es: seq<Blocked>, i: nat): Formula {
    iset q: nat | i <= q < |es| && Active(es[q]) :: Lits(es[q].lits)
  }

  ghost function Stored(es: seq<Blocked>): Formula {
    StoredFrom(es, 0)
  }

  // ----- what the stack promises -----

  ghost predicate EntryOk(es: seq<Blocked>, elimed: set<nat>, pending: set<nat>, i: nat)
    requires i < |es|
  {
    && (!es[i].toRemove ==> es[i].blockedOn.v in elimed + pending)
    && (Active(es[i]) ==>
          && es[i].blockedOn in es[i].lits && es[i].blockedOn.Neg() !in es[i].lits && DistinctVarsOf(es[i].lits)
          && !OpenedFrom(es, i, es[i].blockedOn.v)
          && forall l {:trigger l in es[i].lits} ::
            l in es[i].lits && l.v != es[i].blockedOn.v && l.v in elimed ==> OpenedFrom(es, i, l.v))
  }

  /**
   Later entries have the variable of an earlier one only if they belong to the same variable; opposite ones cover
   each other.
   */
  ghost predicate PairOk(g: Formula, es: seq<Blocked>, i: nat, j: nat)
    requires i < j < |es|
  {
    Active(es[i]) && Active(es[j]) ==>
      && (HasVar(Lits(es[j].lits), es[i].blockedOn.v) ==> es[j].blockedOn.v == es[i].blockedOn.v)
      && (es[j].blockedOn == es[i].blockedOn.Neg() ==>
        Covers(g + StoredFrom(es, j + 1), Lits(es[i].lits), Lits(es[j].lits), es[i].blockedOn))
  }

  /** No clause in use has an eliminated variable. */
  ghost predicate NoneElimed(g: Formula, elimed: set<nat>) {
    forall c, v {:trigger HasVar(c, v), c in g} :: c in g && v in elimed ==> !HasVar(c, v)
  }

  /** `g` is the formula in use, `elimed` the eliminated variables, `pending` those just being put back. */
  ghost predicate StackOk(g: Formula, es: seq<Blocked>, elimed: set<nat>, pending: set<nat>) {
    && (forall i: nat {:trigger EntryOk(es, elimed, pending, i)} :: i < |es| ==> EntryOk(es, elimed, pending, i))
    && (forall i: nat, j: nat {:trigger PairOk(g, es, i, j)} :: i < j < |es| ==> PairOk(g, es, i, j))
  }

  lemma CoversMore(h: Formula, h': Formula, c: Clause, d: Clause, l: Lit)
    requires Covers(h, c, d, l) && forall k :: k in h ==> k in h'
    ensures Covers(h', c, d, l)
  {
    forall t: Valuation | Consistent(t) && SatAll(t, h') && AllFalse(t, d - {l.Neg()})
      ensures HasTrue(t, c - {l})
    {
      assert SatAll(t, h);
    }
  }

  // ----- replay -----

  /** The literals the model makes true. */
  ghost function TrueLits(a: Assigns): Valuation {
    iset l: Lit | Value(a, l) == True
  }

  lemma TrueLitsOk(a: Assigns)
    ensures Consistent(TrueLits(a))
  {
  }

  ghost predicate Extends(a: Assigns, a': Assigns) {
    forall v {:trigger v in a} :: v in a ==> v in a' && a'[v] == a[v]
  }

  lemma ExtendsKeeps(a: Assigns, a': Assigns, f: Formula)
    requires Extends(a, a') && SatAll(TrueLits(a), f)
    ensures SatAll(TrueLits(a'), f)
  {
    forall c | c in f
      ensures HasTrue(TrueLits(a'), c)
    {
      var l :| l in c && l in TrueLits(a);
      assert l.v in a;
    }
  }

  lemma ExtendsFalse(a: Assigns, a': Assigns, c: Clause)
    requires Extends(a, a') && AllFalse(TrueLits(a), c)
    ensures AllFalse(TrueLits(a'), c)
  {
    forall l | l in c
      ensures l.Neg() in TrueLits(a')
    {
      assert l.v in a;
    }
  }

  /** The entry forced its variable: its other literals are false. */
  ghost predicate Forced(a: Assigns, e: Blocked) {
    Active(e) && Value(a, e.blockedOn) == True && AllFalse(TrueLits(a), Lits(e.lits) - {e.blockedOn})
  }

  ghost predicate ForcedFrom(es: seq<Blocked>, a: Assigns, i: nat, v: nat) {
    exists q: nat {:trigger es[q]} :: i <= q < |es| && es[q].blockedOn.v == v && Forced(a, es[q])
  }

  /**
   Halfway through the replay: an eliminated variable has a value, or may be given one, only through entries already
   seen.
   */
  ghost predicate Replaying(g: Formula, es: seq<Blocked>, elimed: set<nat>, a: Assigns, free: set<nat>, i: nat) {
    && i <= |es|
    && SatAll(TrueLits(a), g) && SatAll(TrueLits(a), StoredFrom(es, i))
    && (forall v {:trigger v in free} :: v in free ==> OpenedFrom(es, i, v))
    && (forall v {:trigger v in a} :: v in a && v in elimed ==> OpenedFrom(es, i, v) || ForcedFrom(es, a, i, v))
    && (forall v {:trigger OpenedFrom(es, i, v)} :: OpenedFrom(es, i, v) ==> v in a || v in free)
  }

  lemma ReplayStarts(g: Formula, es: seq<Blocked>, elimed: set<nat>, a: Assigns)
    requires SatAll(TrueLits(a), g) && forall v :: v in elimed ==> v !in a
    ensures Replaying(g, es, elimed, a, {}, |es|)
  {
  }

  ghost predicate NoneTrue(a: Assigns, lits: seq<Lit>) {
    forall l {:trigger l in lits} :: l in lits ==> Value(a, l) != True
  }

  /** Every variable without a value is eliminated and has not been opened. */
  ghost predicate NothingSettable(a: Assigns, free: set<nat>, elimed: set<nat>, lits: seq<Lit>) {
    forall l {:trigger l in lits} :: l in lits && l.v !in a ==> l.v !in free && l.v in elimed
  }

  /** When only the variable of the entry could still satisfy it, that variable has no value yet. */
  lemma BlockedUndef(g: Formula, es: seq<Blocked>, elimed: set<nat>, a: Assigns, free: set<nat>, i: nat)
    requires StackOk(g, es, elimed, {}) && i < |es| && Active(es[i]) && Replaying(g, es, elimed, a, free, i + 1)
    requires NoneTrue(a, es[i].lits) && NothingSettable(a, free, elimed, es[i].lits)
    ensures es[i].blockedOn.v !in a
    ensures forall l {:trigger l in es[i].lits} :: l in es[i].lits && l != es[i].blockedOn ==> Value(a, l) == False
  {
    var e := es[i];
    var x := e.blockedOn.v;
    assert EntryOk(es, elimed, {}, i);
    forall l | l in e.lits && l != e.blockedOn
      ensures Value(a, l) == False
    {
      assert l.v != x || l == e.blockedOn.Neg() by {
        assert l == Lit(l.v, l.sign) && e.blockedOn == Lit(x, e.blockedOn.sign);
      }
      if l.v !in a {
        OpenedLater(es, i, l.v);
      }
    }
    if x in a {
      OpenedEarlier(es, i, x);
      if ForcedFrom(es, a, i + 1, x) {
        var q: nat :| i + 1 <= q < |es| && es[q].blockedOn.v == x && Forced(a, es[q]);
        ForcedOpposite(g, es, elimed, a, i, q);
      }
    }
  }

  lemma OpenedEarlier(es: seq<Blocked>, i: nat, v: nat)
    requires i < |es|
    ensures OpenedFrom(es, i + 1, v) ==> OpenedFrom(es, i, v)
  {
    if OpenedFrom(es, i + 1, v) {
      var q: nat :| i + 1 <= q < |es| && Opens(es[q], v);
      assert i <= q && Opens(es[q], v);
    }
  }

  lemma StoredLess(es: seq<Blocked>, i: nat, j: nat)
    requires i <= j
    ensures StoredFrom(es, j) <= StoredFrom(es, i)
  {
  }

  lemma OpenedLater(es: seq<Blocked>, i: nat, v: nat)
    requires i < |es| && OpenedFrom(es, i, v) && !es[i].dummy
    ensures OpenedFrom(es, i + 1, v)
  {
    var q: nat :| i <= q < |es| && Opens(es[q], v);
    assert q != i;
  }

  lemma ForcedOpposite(g: Formula, es: seq<Blocked>, elimed: set<nat>, a: Assigns, i: nat, q: nat)
    requires StackOk(g, es, elimed, {}) && i < q < |es| && Active(es[i]) && Forced(a, es[q])
      && es[q].blockedOn.v == es[i].blockedOn.v
    requires SatAll(TrueLits(a), g) && SatAll(TrueLits(a), StoredFrom(es, i + 1))
    ensures exists l :: l in es[i].lits && Value(a, l) == True
  {
    var e, d := es[i], es[q];
    assert EntryOk(es, elimed, {}, i);
    if d.blockedOn == e.blockedOn {
      assert e.blockedOn in e.lits;
    } else {
      assert d.blockedOn == e.blockedOn.Neg();
      assert PairOk(g, es, i, q);
      var h := g + StoredFrom(es, q + 1);
      StoredLess(es, i + 1, q + 1);
      assert SatAll(TrueLits(a), h);
      TrueLitsOk(a);
      assert Covers(h, Lits(e.lits), Lits(d.lits), e.blockedOn);
      var l :| l in Lits(e.lits) - {e.blockedOn} && l in TrueLits(a);
    }
  }

  /** One entry dealt with. */
  lemma ReplayStep(g: Formula, es: seq<Blocked>, elimed: set<nat>, a: Assigns, free: set<nat>, i: nat, a': Assigns,
                   free': set<nat>)
    requires i < |es| && Replaying(g, es, elimed, a, free, i + 1) && Extends(a, a') && free <= free'
    requires Active(es[i]) ==> HasTrue(TrueLits(a'), Lits(es[i].lits))
    requires forall v {:trigger v in a'} ::
      v in a' && v !in a && v in elimed ==>
      v in free || Opens(es[i], v) || (es[i].blockedOn.v == v && Forced(a', es[i]))
    requires forall v {:trigger v in free'} :: v in free' && v !in free ==> Opens(es[i], v)
    requires forall v {:trigger Opens(es[i], v)} :: Opens(es[i], v) ==> v in a' || v in free'
    ensures Replaying(g, es, elimed, a', free', i)
  {
    ExtendsKeeps(a, a', g);
    ExtendsKeeps(a, a', StoredFrom(es, i + 1));
    forall c | c in StoredFrom(es, i)
      ensures HasTrue(TrueLits(a'), c)
    {
      var q: nat :| i <= q < |es| && Active(es[q]) && c == Lits(es[q].lits);
      assert q > i ==> c in StoredFrom(es, i + 1);
    }
    forall v | v in a' && v in elimed
      ensures OpenedFrom(es, i, v) || ForcedFrom(es, a', i, v)
    {
      ReplayKnown(es, a, a', i, v);
      if v in a {
        assert OpenedFrom(es, i + 1, v) || ForcedFrom(es, a, i + 1, v);
      } else if v in free {
        assert OpenedFrom(es, i + 1, v);
      } else {
        var e := es[i];
      }
    }
    forall v | v in free'
      ensures OpenedFrom(es, i, v)
    {
      OpenedEarlier(es, i, v);
      var e := es[i];
    }
    forall v | OpenedFrom(es, i, v)
      ensures v in a' || v in free'
    {
      if !Opens(es[i], v) {
        var q: nat :| i <= q < |es| && Opens(es[q], v);
        assert q != i;
        assert OpenedFrom(es, i + 1, v);
      }
    }
  }

  lemma ReplayKnown(es: seq<Blocked>, a: Assigns, a': Assigns, i: nat, v: nat)
    requires i < |es| && Extends(a, a')
    ensures OpenedFrom(es, i + 1, v) ==> OpenedFrom(es, i, v)
    ensures ForcedFrom(es, a, i + 1, v) ==> ForcedFrom(es, a', i, v)
  {
    OpenedEarlier(es, i, v);
    if ForcedFrom(es, a, i + 1, v) {
      var q: nat :| i + 1 <= q < |es| && es[q].blockedOn.v == v && Forced(a, es[q]);
      ExtendsFalse(a, a', Lits(es[q].lits) - {es[q].blockedOn});
      assert Forced(a', es[q]);
    }
  }
}

/** Extending a model of the remaining formula to the eliminated variables. (cryptoms/solutionextender.cpp) */
module SolutionExtender {
  import opened Literals
  import opened Watches
  import opened Elimination
  import opened Reconstruction

  // ----- what a replay gives -----

  /** A literal without a value whose variable was opened before or, if `flagged` is false, never eliminated. */
  ghost predicate CanSet(m: Assigns, free: set<nat>, elimed: set<nat>, flagged: bool, l: Lit) {
    l.v !in m && if flagged then l.v in free else l.v !in elimed
  }

  ghost function FirstSettable(m: Assigns, free: set<nat>, elimed: set<nat>, flagged: bool, lits: seq<Lit>)
    : Option<Lit> {
    if lits == [] then None
    else if CanSet(m, free, elimed, flagged, lits[0]) then Some(lits[0])
    else FirstSettable(m, free, elimed, flagged, lits[1..])
  }

  /** The literal by which a clause without a true literal is made true. */
  ghost function SetLit(m: Assigns, free: set<nat>, elimed: set<nat>, lits: seq<Lit>, blockedOn: Lit): Lit {
    var a, b := FirstSettable(m, free, elimed, true, lits), FirstSettable(m, free, elimed, false, lits);
    if a.Some? then a.value else if b.Some? then b.value else blockedOn
  }

  ghost function WithClause(m: Assigns, free: set<nat>, elimed: set<nat>, lits: seq<Lit>, blockedOn: Lit): Assigns {
    if exists l :: l in lits && Value(m, l) == True then m
    else m[SetLit(m, free, elimed, lits, blockedOn).v := !SetLit(m, free, elimed, lits, blockedOn).sign]
  }

  datatype Extension = Extension(model: Assigns, free: set<nat>)

  /** One entry replayed: passed over if marked off or made superfluous by a unit clause. */
  ghost function ReplayedOne(e: Blocked, units: seq<Lit>, elimed: set<nat>, greedy: bool, x: Extension): Extension {
    if e.toRemove then x
    else if e.dummy then
      if e.blockedOn.v in x.model then x
      else if greedy then Extension(x.model, x.free + {e.blockedOn.v})
      else Extension(x.model[e.blockedOn.v := false], x.free)
    else if exists l :: l in e.lits && l in units then x
    else Extension(WithClause(x.model, x.free, elimed, e.lits, e.blockedOn), x.free)
  }

  /** The entries from the end down to entry `i`. */
  ghost function ReplayedTo(es: seq<Blocked>, i: nat, units: seq<Lit>, elimed: set<nat>, greedy: bool, model: Assigns)
    : Extension
    requires i <= |es|
    decreases |es| - i
  {
    if i == |es| then Extension(model, {})
    else ReplayedOne(es[i], units, elimed, greedy, ReplayedTo(es, i + 1, units, elimed, greedy, model))
  }

  lemma {:induction false} FirstFound(m: Assigns, free: set<nat>, elimed: set<nat>, flagged: bool, lits: seq<Lit>,
                                      k: nat)
    requires k <= |lits| && forall a {:trigger lits[a]} :: 0 <= a < k ==> !CanSet(m, free, elimed, flagged, lits[a])
    ensures FirstSettable(m, free, elimed, flagged, lits)
      == if k < |lits| && CanSet(m, free, elimed, flagged, lits[k]) then Some(lits[k])
         else FirstSettable(m, free, elimed, flagged, lits[k..])
  {
    if k == 0 {
      assert lits[0..] == lits;
    } else {
      FirstFound(m, free, elimed, flagged, lits[1..], k - 1);
      assert lits[1..][k - 1..] == lits[k..];
    }
  }

  class SolutionExtender {
    var model: Assigns
    /** Eliminated variables that may still be given either value. */
    var varHasBeenBlocked: set<nat>
    const greedyUndef: bool
    const elimed: set<nat>

    constructor (m: Assigns, greedy: bool, elimedVars: set<nat>)
      ensures model == m && varHasBeenBlocked == {} && elimed == elimedVars && greedyUndef == greedy
    {
      model := m;
      varHasBeenBlocked := {};
      greedyUndef := greedy;
      elimed := elimedVars;
    }

    method DummyBlocked(blockedOn: Lit)
      modifies this
      ensures if blockedOn.v in old(model) then model == old(model) && varHasBeenBlocked == old(varHasBeenBlocked)
        else if greedyUndef then model == old(model) && varHasBeenBlocked == old(varHasBeenBlocked) + {blockedOn.v}
        else model == old(model)[blockedOn.v := false] && varHasBeenBlocked == old(varHasBeenBlocked)
    {
      if Value(model, blockedOn) != Undef {
        return;
      }
      if !greedyUndef {
        model := model[blockedOn.v := false];
      } else {
        varHasBeenBlocked := varHasBeenBlocked + {blockedOn.v};
      }
    }

    method Satisfied(lits: seq<Lit>) returns (b: bool)
      ensures b <==> exists l :: l in lits && Value(model, l) == True
    {
      for i := 0 to |lits|
        invariant forall k :: 0 <= k < i ==> Value(model, lits[k]) != True
      {
        if Value(model, lits[i]) == True {
          assert lits[i] in lits;
          return true;
        }
      }
      return false;
    }

    /** The first literal without a value whose variable is free to be set: opened before, or never eliminated. */
    method FindSettable(lits: seq<Lit>, flagged: bool) returns (r: Option<Lit>)
      ensures r.Some? ==>
        r.value in lits && r.value.v !in model
        && (if flagged then r.value.v in varHasBeenBlocked else r.value.v !in elimed)
      ensures r.None? ==>
        forall l {:trigger l in lits} ::
        l in lits && l.v !in model ==> if flagged then l.v !in varHasBeenBlocked else l.v in elimed
      ensures r == FirstSettable(model, varHasBeenBlocked, elimed, flagged, lits)
    {
      for i := 0 to |lits|
        invariant forall k {:trigger lits[k]} ::
          0 <= k < i && lits[k].v !in model ==> if flagged then lits[k].v !in varHasBeenBlocked else lits[k].v in elimed
      {
        var l := lits[i];
        FirstFound(model, varHasBeenBlocked, elimed, flagged, lits, i);
        if Value(model, l) == Undef && (if flagged then l.v in varHasBeenBlocked else l.v !in elimed) {
          return Some(l);
        }
      }
      FirstFound(model, varHasBeenBlocked, elimed, flagged, lits, |lits|);
      return None;
    }

    /**
     Makes the clause true: a variable opened before or never eliminated is preferred, the variable the clause
     is blocked on comes last. That it then has no value yet is what the stack promises.
     */
    method AddClause(lits: seq<Lit>, blockedOn: Lit)
      requires blockedOn in lits
      requires NoneTrue(model, lits) && NothingSettable(model, varHasBeenBlocked, elimed, lits) ==>
        blockedOn.v !in model
      modifies `model
      ensures HasTrue(TrueLits(model), Lits(lits)) && Extends(old(model), model)
      ensures forall v {:trigger v in model} ::
        v in model && v !in old(model) && v in elimed && v !in varHasBeenBlocked ==>
        && v == blockedOn.v && Value(model, blockedOn) == True
        && NoneTrue(old(model), lits) && NothingSettable(old(model), varHasBeenBlocked, elimed, lits)
      ensures model == WithClause(old(model), varHasBeenBlocked, elimed, lits, blockedOn)
    {
      var satisfied := Satisfied(lits);
      if satisfied {
        var l :| l in lits && Value(model, l) == True;
        assert l in Lits(lits) && l in TrueLits(model);
        return;
      }
      var r := FindSettable(lits, true);
      if r == None {
        r := FindSettable(lits, false);
      }
      var l := if r.Some? then r.value else blockedOn;
      model := model[l.v := !l.sign];
      assert l in Lits(lits) && l in TrueLits(model);
    }
  }
}
