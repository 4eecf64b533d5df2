/**
 What trying to eliminate a variable comes to: which pairs of clauses are resolved, which gate lets pairs be left out,
 and when the elimination is worthwhile. (cryptoms/occsimplifier.cpp:1483-1685)
 */
module Resolvents {
  import opened Literals
  import opened Watches
  import opened Elimination
  import opened OccTheory

  // ----- the pairs -----

  /** There is a gate, and the two long clauses are both outside it. */
  ghost predicate OutsideGate(gate: Option<nat>, p: Watched, q: Watched) {
    gate.Some? && p.Long? && q.Long? && p.off != gate.value && q.off != gate.value
  }

  /** The resolvent of a pair, if there is one to be kept. */
  ghost function PairOut(cs: OccClauses, gate: Option<nat>, l: Lit, p: Watched, q: Watched): seq<Clause> {
    var c, d := Lits(ClauseOf(cs, l, p)), Lits(ClauseOf(cs, l.Neg(), q));
    if !Live(cs, p) || !Live(cs, q) || OutsideGate(gate, p, q) || Clashes(c, d, l) then [] else [Resolvent(c, d, l)]
  }

  /** The resolvents of one clause with the clauses of a list. */
  ghost function RowOut(cs: OccClauses, gate: Option<nat>, l: Lit, p: Watched, qs: seq<Watched>): seq<Clause> {
    if qs == [] then [] else RowOut(cs, gate, l, p, qs[..|qs| - 1]) + PairOut(cs, gate, l, p, qs[|qs| - 1])
  }

  /** The resolvents of the clauses of two lists. */
  ghost function AllOut(cs: OccClauses, gate: Option<nat>, l: Lit, ps: seq<Watched>, qs: seq<Watched>): seq<Clause> {
    if ps == [] then [] else AllOut(cs, gate, l, ps[..|ps| - 1], qs) + RowOut(cs, gate, l, ps[|ps| - 1], qs)
  }

  /** The resolvents on `x`. */
  ghost function ResolventsOn(ws: WatchLists, cs: OccClauses, gate: Option<nat>, x: nat): seq<Clause> {
    AllOut(cs, gate, Lit(x, false), W(ws, Lit(x, false)), W(ws, Lit(x, true)))
  }

  ghost predicate AreOuts(rs: seq<seq<Lit>>, outs: seq<Clause>) {
    |rs| == |outs| && forall j {:trigger rs[j]} {:trigger outs[j]} :: 0 <= j < |rs| ==> Lits(rs[j]) == outs[j]
  }

  lemma RowNext(cs: OccClauses, gate: Option<nat>, l: Lit, p: Watched, qs: seq<Watched>, k: nat)
    requires k < |qs|
    ensures RowOut(cs, gate, l, p, qs[..k + 1]) == RowOut(cs, gate, l, p, qs[..k]) + PairOut(cs, gate, l, p, qs[k])
  {
    assert qs[..k + 1][..k] == qs[..k];
  }

  lemma AllNext(cs: OccClauses, gate: Option<nat>, l: Lit, ps: seq<Watched>, qs: seq<Watched>, i: nat)
    requires i < |ps|
    ensures AllOut(cs, gate, l, ps[..i + 1], qs)
      == AllOut(cs, gate, l, ps[..i], qs) + RowOut(cs, gate, l, ps[i], qs)
  {
    assert ps[..i + 1][..i] == ps[..i];
  }

  lemma {:induction false} DeadRow(cs: OccClauses, gate: Option<nat>, l: Lit, p: Watched, qs: seq<Watched>)
    requires !Live(cs, p)
    ensures RowOut(cs, gate, l, p, qs) == []
  {
    if qs != [] {
      DeadRow(cs, gate, l, p, qs[..|qs| - 1]);
    }
  }

  lemma {:induction false} RowPrefix(cs: OccClauses, gate: Option<nat>, l: Lit, p: Watched, qs: seq<Watched>, k: nat)
    requires k <= |qs|
    ensures RowOut(cs, gate, l, p, qs[..k]) <= RowOut(cs, gate, l, p, qs)
  {
    if k < |qs| {
      var n := |qs| - 1;
      RowPrefix(cs, gate, l, p, qs[..n], k);
      assert qs[..n][..k] == qs[..k];
    } else {
      assert qs[..k] == qs;
    }
  }

  lemma {:induction false} AllPrefix(cs: OccClauses, gate: Option<nat>, l: Lit, ps: seq<Watched>, qs: seq<Watched>,
                                     i: nat)
    requires i <= |ps|
    ensures AllOut(cs, gate, l, ps[..i], qs) <= AllOut(cs, gate, l, ps, qs)
  {
    if i < |ps| {
      var n := |ps| - 1;
      AllPrefix(cs, gate, l, ps[..n], qs, i);
      assert ps[..n][..i] == ps[..i];
    } else {
      assert ps[..i] == ps;
    }
  }

  /** What has been collected at some point of the double loop is there in the end. */
  lemma OutsSoFar(cs: OccClauses, gate: Option<nat>, l: Lit, ps: seq<Watched>, qs: seq<Watched>, i: nat, k: nat)
    requires i < |ps| && k <= |qs|
    ensures AllOut(cs, gate, l, ps[..i], qs) + RowOut(cs, gate, l, ps[i], qs[..k]) <= AllOut(cs, gate, l, ps, qs)
  {
    RowPrefix(cs, gate, l, ps[i], qs, k);
    AllNext(cs, gate, l, ps, qs, i);
    AllPrefix(cs, gate, l, ps, qs, i + 1);
  }

  /** A resolvent collected comes from a pair that is not left out. */
  lemma {:induction false} OutFromRow(cs: OccClauses, gate: Option<nat>, l: Lit, p: Watched, qs: seq<Watched>,
                                      c: Clause)
    requires c in RowOut(cs, gate, l, p, qs)
    ensures exists q {:trigger PairOut(cs, gate, l, p, q)} :: q in qs && PairOut(cs, gate, l, p, q) == [c]
  {
    var n := |qs| - 1;
    if c in PairOut(cs, gate, l, p, qs[n]) {
      assert PairOut(cs, gate, l, p, qs[n]) == [c];
    } else {
      OutFromRow(cs, gate, l, p, qs[..n], c);
      var q :| q in qs[..n] && PairOut(cs, gate, l, p, q) == [c];
      assert q in qs;
    }
  }

  lemma {:induction false} OutFromPair(cs: OccClauses, gate: Option<nat>, l: Lit, ps: seq<Watched>, qs: seq<Watched>,
                                       c: Clause)
    requires c in AllOut(cs, gate, l, ps, qs)
    ensures exists p, q {:trigger PairOut(cs, gate, l, p, q)} ::
      p in ps && q in qs && PairOut(cs, gate, l, p, q) == [c]
  {
    var n := |ps| - 1;
    if c in RowOut(cs, gate, l, ps[n], qs) {
      OutFromRow(cs, gate, l, ps[n], qs, c);
    } else {
      OutFromPair(cs, gate, l, ps[..n], qs, c);
      var p, q :| p in ps[..n] && q in qs && PairOut(cs, gate, l, p, q) == [c];
      assert p in ps;
    }
  }

  // ----- gates -----

  /** An irredundant long clause whose literals but `~l` are all negated in binary clauses of `l`. */
  ghost predicate GateAt(ws: WatchLists, cs: OccClauses, l: Lit, w: Watched) {
    w.Long? && w.off in cs && !cs[w.off].removed && !cs[w.off].red && GateBins(ws, cs[w.off].lits, l)
  }

  ghost predicate FirstAt(ws: WatchLists, cs: OccClauses, l: Lit, o: nat, k: nat) {
    && k < |W(ws, l.Neg())| && W(ws, l.Neg())[k].Long? && W(ws, l.Neg())[k].off == o
    && GateAt(ws, cs, l, W(ws, l.Neg())[k])
    && forall j {:trigger W(ws, l.Neg())[j]} :: 0 <= j < k ==> !GateAt(ws, cs, l, W(ws, l.Neg())[j])
  }

  /** The first gate clause in the list of `~l`, or none if there is none. */
  ghost predicate FirstGate(ws: WatchLists, cs: OccClauses, l: Lit, g: Option<nat>) {
    match g
    case None => forall w {:trigger w in W(ws, l.Neg())} :: w in W(ws, l.Neg()) ==> !GateAt(ws, cs, l, w)
    case Some(o) => exists k: nat :: FirstAt(ws, cs, l, o, k)
  }

  /** The gate used for a variable: one of the positive literal if there is one, else one of the negative. */
  ghost predicate ChosenGate(ws: WatchLists, cs: OccClauses, l: Lit, g: Option<nat>) {
    if g.Some? && FirstGate(ws, cs, l, g) then true
    else FirstGate(ws, cs, l, None) && FirstGate(ws, cs, l.Neg(), g)
  }

  /** The marked negations tell which long clauses are gates. */
  lemma GateSeen(ws: WatchLists, cs: OccClauses, l: Lit, w: Watched, seen: set<Lit>)
    requires forall y: Lit {:trigger y in seen} :: y in seen <==> Bin(y.Neg(), false) in W(ws, l)
    ensures GateAt(ws, cs, l, w) <==>
      w.Long? && w.off in cs && !cs[w.off].removed && !cs[w.off].red
      && forall y {:trigger y in cs[w.off].lits} :: y in cs[w.off].lits && y != l.Neg() ==> y in seen
  {
  }

  lemma FoundFirst(ws: WatchLists, cs: OccClauses, l: Lit, k: nat)
    requires k < |W(ws, l.Neg())| && GateAt(ws, cs, l, W(ws, l.Neg())[k])
      && forall j {:trigger W(ws, l.Neg())[j]} :: 0 <= j < k ==> !GateAt(ws, cs, l, W(ws, l.Neg())[j])
    ensures W(ws, l.Neg())[k].Long? && FirstGate(ws, cs, l, Some(W(ws, l.Neg())[k].off))
  {
    assert FirstAt(ws, cs, l, W(ws, l.Neg())[k].off, k);
  }

  lemma FoundNone(ws: WatchLists, cs: OccClauses, l: Lit)
    requires forall j {:trigger W(ws, l.Neg())[j]} ::
      0 <= j < |W(ws, l.Neg())| ==> !GateAt(ws, cs, l, W(ws, l.Neg())[j])
    ensures FirstGate(ws, cs, l, None)
  {
  }

  lemma SomeGate(ws: WatchLists, cs: OccClauses, l: Lit, g: Option<nat>, w: Watched)
    requires ChosenGate(ws, cs, l, g)
    requires (w in W(ws, l.Neg()) && GateAt(ws, cs, l, w)) || (w in W(ws, l) && GateAt(ws, cs, l.Neg(), w))
    ensures g.Some?
  {
    hide GateAt, FirstAt;
    assert l.Neg().Neg() == l;
  }

  /** With a gate on either side, every resolvent has a parent that is binary or the gate's clause. */
  lemma GateKeepsFew(ws: WatchLists, cs: OccClauses, x: nat, g: Option<nat>, w: Watched, c: Clause)
    requires var l := Lit(x, false);
      && ChosenGate(ws, cs, l, g)
      && ((w in W(ws, Lit(x, true)) && GateAt(ws, cs, l, w)) || (w in W(ws, l) && GateAt(ws, cs, Lit(x, true), w)))
    requires c in ResolventsOn(ws, cs, g, x)
    ensures g.Some?
    ensures exists p, q ::
      && p in W(ws, Lit(x, false)) && q in W(ws, Lit(x, true))
      && c == Resolvent(Lits(ClauseOf(cs, Lit(x, false), p)), Lits(ClauseOf(cs, Lit(x, true), q)), Lit(x, false))
      && (p.Bin? || q.Bin? || p.off == g.value || q.off == g.value)
  {
    hide GateAt, FirstAt, AllOut, Clashes;
    var l := Lit(x, false);
    assert l.Neg() == Lit(x, true) && l.Neg().Neg() == l;
    SomeGate(ws, cs, l, g, w);
    hide ChosenGate;
    OutFromPair(cs, g, l, W(ws, l), W(ws, Lit(x, true)), c);
    var p, q :| p in W(ws, l) && q in W(ws, Lit(x, true)) && PairOut(cs, g, l, p, q) == [c];
    assert !OutsideGate(g, p, q);
  }

  // ----- worthwhile or not -----

  /** How many irredundant binary, or long, clauses a list has. */
  ghost function LiveOf(cs: OccClauses, ws: seq<Watched>, bin: bool): nat {
    if ws == [] then 0
    else
      LiveOf(cs, ws[..|ws| - 1], bin)
      + if Live(cs, ws[|ws| - 1]) && ws[|ws| - 1].Bin? == bin then 1 else 0
  }

  /** How many have two literals, or at least three. */
  ghost function SizedOf(outs: seq<Clause>, two: bool): nat {
    if outs == [] then 0
    else
      var c := outs[|outs| - 1];
      SizedOf(outs[..|outs| - 1], two) + if (two && |c| == 2) || (!two && |c| >= 3) then 1 else 0
  }

  /** More resolvents than clauses, or a resolvent that is too large; -1 stands for no limit. */
  ghost predicate TooMuch(outs: seq<Clause>, before: nat, tooLarge: int) {
    |outs| > before || (tooLarge != -1 && exists j {:trigger outs[j]} :: 0 <= j < |outs| && |outs[j]| > tooLarge)
  }

  /** The clauses of the variable: how many of them have the literal, and how many its negation. */
  ghost function Pos(ws: WatchLists, cs: OccClauses, x: nat): nat {
    LiveOf(cs, W(ws, Lit(x, false)), true) + LiveOf(cs, W(ws, Lit(x, false)), false)
  }

  ghost function Negs(ws: WatchLists, cs: OccClauses, x: nat): nat {
    LiveOf(cs, W(ws, Lit(x, true)), true) + LiveOf(cs, W(ws, Lit(x, true)), false)
  }

  ghost predicate IsPure(ws: WatchLists, cs: OccClauses, x: nat) {
    Pos(ws, cs, x) == 0 || Negs(ws, cs, x) == 0
  }

  /** Given the time, the variable is eliminated. */
  ghost predicate Worthwhile(ws: WatchLists, cs: OccClauses, x: nat, gate: Option<nat>, cutoff: nat, tooLarge: int) {
    || IsPure(ws, cs, x)
    || (Negs(ws, cs, x) * Pos(ws, cs, x) < cutoff
        && !TooMuch(ResolventsOn(ws, cs, gate, x), Pos(ws, cs, x) + Negs(ws, cs, x), tooLarge))
  }

  /** The gate the pairs are chosen by. */
  ghost predicate GateFor(ws: WatchLists, cs: OccClauses, x: nat, skipSome: bool, gate: Option<nat>) {
    if skipSome then ChosenGate(ws, cs, Lit(x, false), gate) else gate == None
  }

  /** A gate is looked for only if that can matter. */
  ghost predicate GateRight(ws: WatchLists, cs: OccClauses, x: nat, skipSome: bool, cutoff: nat, gate: Option<nat>) {
    IsPure(ws, cs, x) || Negs(ws, cs, x) * Pos(ws, cs, x) >= cutoff || GateFor(ws, cs, x, skipSome, gate)
  }

  /** Long clauses gained less those lost, and three for a binary one. */
  ghost function CostOf(ws: WatchLists, cs: OccClauses, x: nat, gate: Option<nat>): int {
    var outs, ps, qs := ResolventsOn(ws, cs, gate, x), W(ws, Lit(x, false)), W(ws, Lit(x, true));
    SizedOf(outs, false) + 3 * SizedOf(outs, true)
    - LiveOf(cs, ps, false) - LiveOf(cs, qs, false) - 3 * LiveOf(cs, ps, true) - 3 * LiveOf(cs, qs, true)
  }

  /** The resolvents are those on `x`; none are needed if a literal does not occur. */
  ghost predicate FilledWith(ws: WatchLists, cs: OccClauses, x: nat, gate: Option<nat>, rs: seq<seq<Lit>>) {
    if IsPure(ws, cs, x) then rs == [] else AreOuts(rs, ResolventsOn(ws, cs, gate, x))
  }

  /** The result of trying a variable. */
  ghost predicate TriedWith(ws: WatchLists, cs: OccClauses, x: nat, skipSome: bool, cutoff: nat, tooLarge: int,
                            gate: Option<nat>, limit: int, cost: Option<int>, rs: seq<seq<Lit>>)
  {
    if cost == None then
      limit < 0 || (GateRight(ws, cs, x, skipSome, cutoff, gate) && !Worthwhile(ws, cs, x, gate, cutoff, tooLarge))
    else
      && GateRight(ws, cs, x, skipSome, cutoff, gate) && Worthwhile(ws, cs, x, gate, cutoff, tooLarge)
      && FilledWith(ws, cs, x, gate, rs)
      && cost.value == if IsPure(ws, cs, x) then -100 else CostOf(ws, cs, x, gate)
  }

  /** With time left, the variable is eliminated exactly if that is worthwhile, by its resolvents. */
  ghost predicate RightlyDone(ws: WatchLists, cs: OccClauses, x: nat, skipSome: bool, cutoff: nat, tooLarge: int,
                              gate: Option<nat>, done: bool, rs: seq<seq<Lit>>)
  {
    && GateRight(ws, cs, x, skipSome, cutoff, gate) && (done <==> Worthwhile(ws, cs, x, gate, cutoff, tooLarge))
    && (done ==> FilledWith(ws, cs, x, gate, rs))
  }

  lemma TriedRightly(ws: WatchLists, cs: OccClauses, x: nat, skipSome: bool, cutoff: nat, tooLarge: int,
                     gate: Option<nat>, limit: int, cost: Option<int>, rs: seq<seq<Lit>>)
    requires TriedWith(ws, cs, x, skipSome, cutoff, tooLarge, gate, limit, cost, rs)
    ensures limit >= 0 ==> RightlyDone(ws, cs, x, skipSome, cutoff, tooLarge, gate, cost.Some?, rs)
  {
  }

  lemma OutOfTime(ws: WatchLists, cs: OccClauses, x: nat, skipSome: bool, cutoff: nat, tooLarge: int, limit: int,
                  rs: seq<seq<Lit>>)
    requires limit < 0
    ensures TriedWith(ws, cs, x, skipSome, cutoff, tooLarge, None, limit, None, rs)
  {
  }

  lemma PureTried(ws: WatchLists, cs: OccClauses, x: nat, skipSome: bool, cutoff: nat, tooLarge: int, limit: int)
    requires IsPure(ws, cs, x)
    ensures TriedWith(ws, cs, x, skipSome, cutoff, tooLarge, None, limit, Some(-100), [])
  {
  }

  lemma CutOff(ws: WatchLists, cs: OccClauses, x: nat, skipSome: bool, cutoff: nat, tooLarge: int, limit: int)
    requires !IsPure(ws, cs, x) && Negs(ws, cs, x) * Pos(ws, cs, x) >= cutoff
    ensures TriedWith(ws, cs, x, skipSome, cutoff, tooLarge, None, limit, None, [])
  {
  }

  lemma TriedFully(ws: WatchLists, cs: OccClauses, x: nat, skipSome: bool, cutoff: nat, tooLarge: int,
                   gate: Option<nat>, limit: int, cost: Option<int>, rs: seq<seq<Lit>>)
    requires !IsPure(ws, cs, x) && Negs(ws, cs, x) * Pos(ws, cs, x) < cutoff && GateFor(ws, cs, x, skipSome, gate)
    requires var outs, before := ResolventsOn(ws, cs, gate, x), Pos(ws, cs, x) + Negs(ws, cs, x);
      if cost == None then limit < 0 || TooMuch(outs, before, tooLarge)
      else !TooMuch(outs, before, tooLarge) && AreOuts(rs, outs) && cost.value == CostOf(ws, cs, x, gate)
    ensures TriedWith(ws, cs, x, skipSome, cutoff, tooLarge, gate, limit, cost, rs)
  {
  }

  /** Marks make no difference. */
  lemma {:induction false} SameRow(cs: OccClauses, cs': OccClauses, gate: Option<nat>, l: Lit, p: Watched,
                                   qs: seq<Watched>)
    requires forall w {:trigger Live(cs', w)} :: Live(cs', w) <==> Live(cs, w)
    requires forall y: Lit, w {:trigger ClauseOf(cs', y, w)} :: ClauseOf(cs', y, w) == ClauseOf(cs, y, w)
    ensures RowOut(cs', gate, l, p, qs) == RowOut(cs, gate, l, p, qs)
  {
    hide Live, ClauseOf;
    if qs != [] {
      SameRow(cs, cs', gate, l, p, qs[..|qs| - 1]);
    }
  }

  lemma {:induction false} SameAll(cs: OccClauses, cs': OccClauses, gate: Option<nat>, l: Lit, ps: seq<Watched>,
                                   qs: seq<Watched>)
    requires forall w {:trigger Live(cs', w)} :: Live(cs', w) <==> Live(cs, w)
    requires forall y: Lit, w {:trigger ClauseOf(cs', y, w)} :: ClauseOf(cs', y, w) == ClauseOf(cs, y, w)
    ensures AllOut(cs', gate, l, ps, qs) == AllOut(cs, gate, l, ps, qs)
  {
    hide Live, ClauseOf;
    if ps != [] {
      SameAll(cs, cs', gate, l, ps[..|ps| - 1], qs);
      SameRow(cs, cs', gate, l, ps[|ps| - 1], qs);
    }
  }

  /** Where the double loop stands: what has been collected, and that it is not too much. */
  ghost predicate OutsAre(outs: seq<Clause>, rs: seq<seq<Lit>>, before: nat, tooLarge: int, long: nat, bin: nat) {
    && AreOuts(rs, outs) && !TooMuch(outs, before, tooLarge)
    && long == SizedOf(outs, false) && bin == SizedOf(outs, true)
  }

  lemma OutsNext(outs: seq<Clause>, rs: seq<seq<Lit>>, before: nat, tooLarge: int, long: nat, bin: nat, r: seq<Lit>)
    requires OutsAre(outs, rs, before, tooLarge, long, bin) && DistinctVarsOf(r)
    ensures |rs| == |outs| && |r| == |Lits(r)|
    ensures TooMuch(outs + [Lits(r)], before, tooLarge) <==> |rs| + 1 > before || (tooLarge != -1 && |r| > tooLarge)
    ensures !TooMuch(outs + [Lits(r)], before, tooLarge) ==>
      OutsAre(outs + [Lits(r)], rs + [r], before, tooLarge, if |r| >= 3 then long + 1 else long,
              if |r| == 2 then bin + 1 else bin)
  {
    hide TooMuch, SizedOf, DistinctVarsOf;
    DistinctSize(r);
    TooMuchNext(outs, Lits(r), before, tooLarge);
    SizedNext(outs, Lits(r), false);
    SizedNext(outs, Lits(r), true);
  }

  lemma FewEnough(outs: seq<Clause>, rs: seq<seq<Lit>>, before: nat, tooLarge: int, long: nat, bin: nat)
    requires OutsAre(outs, rs, before, tooLarge, long, bin)
    ensures |rs| <= before
  {
  }

  lemma SizedNext(outs: seq<Clause>, c: Clause, two: bool)
    ensures SizedOf(outs + [c], two) == SizedOf(outs, two) + if (two && |c| == 2) || (!two && |c| >= 3) then 1 else 0
  {
    assert (outs + [c])[..|outs|] == outs;
  }

  /** Too much at some point of the double loop is too much in the end. */
  lemma StaysTooMuch(outs: seq<Clause>, all: seq<Clause>, before: nat, tooLarge: int)
    requires outs <= all && TooMuch(outs, before, tooLarge)
    ensures TooMuch(all, before, tooLarge)
  {
    if |outs| <= before {
      var j :| 0 <= j < |outs| && |outs[j]| > tooLarge;
      assert all[j] == outs[j];
    }
  }

  lemma TooMuchNext(outs: seq<Clause>, c: Clause, before: nat, tooLarge: int)
    requires !TooMuch(outs, before, tooLarge)
    ensures TooMuch(outs + [c], before, tooLarge) <==> |outs| + 1 > before || (tooLarge != -1 && |c| > tooLarge)
  {
    var next := outs + [c];
    assert next[|outs|] == c;
    forall j | 0 <= j < |outs|
      ensures next[j] == outs[j]
    {
    }
  }
}
