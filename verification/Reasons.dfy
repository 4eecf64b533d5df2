/**
 Why literals were set. (cryptoms/propby.h, cryptoms/propengine.cpp)
 */
module Reasons {
  import opened Literals
  import opened Watches
  import opened UnitClosure
  import opened WatchTheory

  /** Why a literal was set: a decision or fact, a binary clause with its other literal, or a long clause. */
  datatype Reason = NoReason | BinReason(other: Lit, red: bool) | LongReason(off: nat)

  // ----- reasons -----

  /** The reason clause of the literal at position `i`: it contains the literal, and negates only earlier ones. */
  ghost predicate ReasonOk(f: Formula, ws: WatchLists, cls: Clauses, trail: seq<Lit>, reason: map<nat, Reason>, i: nat)
    requires i < |trail|
  {
    var l := trail[i];
    l.v in reason &&
    match reason[l.v]
    case NoReason => true
    case BinReason(k, red) => {l, k} in f && k.Neg() in trail[..i]
    case LongReason(off) =>
      off in cls && Lits(cls[off]) in f && l in cls[off]
      && forall k :: k in cls[off] && k != l ==> k.Neg() in trail[..i]
  }

  /** The reasons of all literals from position `from` on. Nobody asks for those of older facts. */
  ghost predicate ReasonsOk(f: Formula, ws: WatchLists, cls: Clauses, trail: seq<Lit>, reason: map<nat, Reason>,
                            from: nat)
  {
    forall i {:trigger ReasonOk(f, ws, cls, trail, reason, i)} ::
      from <= i < |trail| ==> ReasonOk(f, ws, cls, trail, reason, i)
  }

  /** Rearranging long watches and the literals inside clauses changes neither the clauses nor the reasons. */
  lemma RewiringKeeps(ws: WatchLists, ws': WatchLists, cls: Clauses, cls': Clauses, trail: seq<Lit>,
                      reason: map<nat, Reason>, from: nat)
    requires Symmetric(ws) && SameBins(ws, ws') && SameClauses(cls, cls')
    requires ReasonsOk(Clauses2(ws, cls), ws, cls, trail, reason, from)
    ensures Symmetric(ws') && Clauses2(ws', cls') == Clauses2(ws, cls) && BinKinds(ws') == BinKinds(ws)
    ensures ReasonsOk(Clauses2(ws', cls'), ws', cls', trail, reason, from)
  {
    SymmetricKept(ws, ws');
    SameDatabase(ws, ws', cls, cls', []);
    SameLongClauses(cls, cls');
    forall i | from <= i < |trail|
      ensures ReasonOk(Clauses2(ws', cls'), ws', cls', trail, reason, i)
    {
      assert ReasonOk(Clauses2(ws, cls), ws, cls, trail, reason, i);
      var l := trail[i];
      if reason[l.v].LongReason? {
        SameMultisetSameLits(cls[reason[l.v].off], cls'[reason[l.v].off]);
      }
    }
  }

  /** Literals with a reason follow from those before them by the unit rule. */
  lemma {:induction false} ReasonsInClosure(f: Formula, ws: WatchLists, cls: Clauses, trail: seq<Lit>,
                                            reason: map<nat, Reason>, from: nat, i: nat)
    requires ReasonsOk(f, ws, cls, trail, reason, from) && from <= i <= |trail|
    requires forall k :: from <= k < |trail| ==> trail[k].v in reason && reason[trail[k].v] != NoReason
    ensures Set(trail[..i]) <= Closure(f, Set(trail[..from]))
    decreases i
  {
    var s := Closure(f, Set(trail[..from]));
    ClosureIsClosed(f, Set(trail[..from]));
    if i > from {
      ReasonsInClosure(f, ws, cls, trail, reason, from, i - 1);
      var l := trail[i - 1];
      assert ReasonOk(f, ws, cls, trail, reason, i - 1);
      var c :=
        match reason[l.v] { case BinReason(k, _) => {l, k} case LongReason(off) => Lits(cls[off]) case NoReason => {} };
      forall k | k in c && k != l
        ensures k.Neg() in s
      {
        assert k.Neg() in trail[..i - 1];
        assert k.Neg() in Set(trail[..i - 1]);
      }
      UnitStep(f, Set(trail[..from]), c, l);
      forall x | x in Set(trail[..i])
        ensures x in s
      {
        assert trail[..i] == trail[..i - 1] + [l];
        assert x == l || x in Set(trail[..i - 1]);
      }
    }
  }

  lemma ReasonsPrefix(f: Formula, ws: WatchLists, cls: Clauses, trail: seq<Lit>, reason: map<nat, Reason>, from: nat,
                      q: nat)
    requires ReasonsOk(f, ws, cls, trail, reason, from) && q <= |trail|
    ensures ReasonsOk(f, ws, cls, trail[..q], reason, from)
  {
    forall i | from <= i < q
      ensures ReasonOk(f, ws, cls, trail[..q], reason, i)
    {
      assert ReasonOk(f, ws, cls, trail, reason, i);
      assert trail[..q][..i] == trail[..i];
    }
  }

  lemma ReasonsAttached(f: Formula, f': Formula, ws: WatchLists, ws': WatchLists, cls: Clauses, cls': Clauses,
                        trail: seq<Lit>, reason: map<nat, Reason>, from: nat)
    requires ReasonsOk(f, ws, cls, trail, reason, from) && f <= f'
    requires forall o :: o in cls ==> o in cls' && cls'[o] == cls[o]
    ensures ReasonsOk(f', ws', cls', trail, reason, from)
  {
    forall i | from <= i < |trail|
      ensures ReasonOk(f', ws', cls', trail, reason, i)
    {
      assert ReasonOk(f, ws, cls, trail, reason, i);
    }
  }

  /** Reasons survive the loss of a clause that is none of them. */
  lemma ReasonsDetached(f: Formula, f': Formula, ws: WatchLists, ws': WatchLists, cls: Clauses, off: nat,
                        trail: seq<Lit>, reason: map<nat, Reason>, from: nat)
    requires ReasonsOk(f, ws, cls, trail, reason, from) && off in cls && ClauseOk(cls[off])
    requires f == f' + iset{Lits(cls[off])} && forall o :: o in cls && o != off ==> Lits(cls[o]) in f'
    requires forall i {:trigger trail[i]} ::
      from <= i < |trail| && trail[i].v in reason ==> reason[trail[i].v] != LongReason(off)
    ensures ReasonsOk(f', ws', cls - {off}, trail, reason, from)
  {
    var c := Lits(cls[off]);
    forall i | from <= i < |trail|
      ensures ReasonOk(f', ws', cls - {off}, trail, reason, i)
    {
      assert ReasonOk(f, ws, cls, trail, reason, i);
      var l := trail[i];
      if reason[l.v].BinReason? {
        assert cls[off][0] in c && cls[off][1] in c && cls[off][2] in c;
        assert {l, reason[l.v].other} != c;
      }
    }
  }
}
