/**
 Unit propagation without an algorithm: the least set of literals that contains the given ones and is closed
 under the unit rule. Both propagation procedures of the solver are measured against it.
 */
module UnitClosure {
  import opened Literals

  /** If all other literals of a clause are negated in `s`, the remaining one is in `s`. */
  ghost predicate Closed(f: Formula, s: iset<Lit>) {
    forall c, l {:trigger c in f, l in c} :: c in f && l in c && OthersNegated(c, l, s) ==> l in s
  }

  ghost predicate OthersNegated(c: Clause, l: Lit, s: iset<Lit>) {
    forall k :: k in c && k != l ==> k.Neg() in s
  }

  /** Some clause has all its literals negated in `s`. */
  ghost predicate Falsified(f: Formula, s: iset<Lit>) {
    exists c :: c in f && AllNegated(c, s)
  }

  ghost predicate AllNegated(c: Clause, s: iset<Lit>) {
    forall k :: k in c ==> k.Neg() in s
  }

  ghost predicate ClosedAbove(f: Formula, from: iset<Lit>, s: iset<Lit>) {
    from <= s && Closed(f, s)
  }

  /** The literals that belong to every closed set above `from`. */
  ghost function Closure(f: Formula, from: iset<Lit>): iset<Lit> {
    iset l: Lit | InEveryClosed(f, from, l)
  }

  ghost predicate InEveryClosed(f: Formula, from: iset<Lit>, l: Lit) {
    forall s: iset<Lit> :: ClosedAbove(f, from, s) ==> l in s
  }

  ghost function Set(ls: seq<Lit>): iset<Lit> {
    iset l | l in ls
  }

  /** The result of a propagation from `from`: either a conflict, or all of `to` and nothing more to do. */
  ghost predicate Outcome(f: Formula, from: iset<Lit>, conflict: bool, to: iset<Lit>) {
    if conflict then Falsified(f, Closure(f, from)) else to == Closure(f, from) && !Falsified(f, to)
  }

  lemma ClosureIsClosed(f: Formula, from: iset<Lit>)
    ensures from <= Closure(f, from) && Closed(f, Closure(f, from))
  {
    forall c, l | c in f && l in c && OthersNegated(c, l, Closure(f, from))
      ensures l in Closure(f, from)
    {
      forall s: iset<Lit> | ClosedAbove(f, from, s)
        ensures l in s
      {
        forall k | k in c && k != l
          ensures k.Neg() in s
        {
          assert k.Neg() in Closure(f, from);
        }
        assert OthersNegated(c, l, s);
      }
    }
  }

  /** One more literal obtained by the unit rule stays inside the closure. */
  lemma UnitStep(f: Formula, from: iset<Lit>, c: Clause, l: Lit)
    requires c in f && l in c && OthersNegated(c, l, Closure(f, from))
    ensures l in Closure(f, from)
  {
    ClosureIsClosed(f, from);
  }

  /**
   Two procedures that start from the same clauses and the same literals agree: both report a conflict, or
   both end with the same literals. Which of the two happens does not depend on the order of propagation.
   */
  lemma OutcomesAgree(f: Formula, from: iset<Lit>, conflict1: bool, to1: iset<Lit>, conflict2: bool, to2: iset<Lit>)
    requires Outcome(f, from, conflict1, to1) && Outcome(f, from, conflict2, to2)
    ensures conflict1 == conflict2
    ensures !conflict1 ==> to1 == to2
  {
  }

  /** A set that is closed, above `from` and inside the closure is the closure. */
  lemma ClosedInsideIsClosure(f: Formula, from: iset<Lit>, s: iset<Lit>)
    requires ClosedAbove(f, from, s) && s <= Closure(f, from)
    ensures s == Closure(f, from)
  {
  }

  lemma FalsifiedGrows(f: Formula, c: Clause, s: iset<Lit>, s': iset<Lit>)
    requires c in f && AllNegated(c, s) && s <= s'
    ensures Falsified(f, s')
  {
    assert AllNegated(c, s');
  }

  /** The unit rule is sound: every model of the clauses and the starting literals satisfies the closure. */
  lemma ClosureSound(f: Formula, from: iset<Lit>, m: Model)
    requires FormulaTrue(m, f) && forall l :: l in from ==> LitTrue(m, l)
    ensures forall l :: l in Closure(f, from) ==> LitTrue(m, l)
    ensures !Falsified(f, Closure(f, from))
  {
    var s := iset l: Lit | LitTrue(m, l);
    forall c, l | c in f && l in c && OthersNegated(c, l, s)
      ensures l in s
    {
      var k :| k in c && LitTrue(m, k);
      assert k.Neg() !in s;
    }
    assert ClosedAbove(f, from, s);
    forall l | l in Closure(f, from)
      ensures LitTrue(m, l)
    {
      assert InEveryClosed(f, from, l);
    }
    forall c | c in f
      ensures !AllNegated(c, Closure(f, from))
    {
      var k :| k in c && LitTrue(m, k);
      assert !LitTrue(m, k.Neg());
    }
  }
}
