/**
 Literals, clauses, assignments and entailment: the vocabulary every other module speaks.

 A model is the set of variables it makes true. It is an `iset`, so that entailment quantifies over
 all assignments of all variables, however many the solver has created.
 */
module Literals {

  /** A variable with a sign; `sign` means "inverted", as in the solver. */
  datatype Lit = Lit(v: nat, sign: bool) {
    function Neg(): Lit {
      Lit(v, !sign)
    }
  }

  datatype Option<+T> = None | Some(value: T)

  type Clause = set<Lit>
  type Formula = iset<Clause>
  type Model = iset<nat>

  ghost predicate LitTrue(m: Model, l: Lit) {
    (l.v in m) != l.sign
  }

  ghost predicate ClauseTrue(m: Model, c: Clause) {
    exists l :: l in c && LitTrue(m, l)
  }

  ghost predicate FormulaTrue(m: Model, f: Formula) {
    forall c :: c in f ==> ClauseTrue(m, c)
  }

  /** Every model of `f` satisfies `c`. */
  ghost predicate Entails(f: Formula, c: Clause) {
    forall m: Model :: FormulaTrue(m, f) ==> ClauseTrue(m, c)
  }

  /** The literals of a clause stored as a sequence. */
  function Lits(c: seq<Lit>): Clause {
    set l | l in c
  }

  ghost predicate NoDuplicates<T>(s: seq<T>) {
    forall i, j {:trigger s[i], s[j]} :: 0 <= i < j < |s| ==> s[i] != s[j]
  }

  lemma {:induction false} LitsSize(s: seq<Lit>)
    requires NoDuplicates(s)
    ensures |Lits(s)| == |s|
  {
    if s != [] {
      var n := |s| - 1;
      LitsSize(s[..n]);
      assert s == s[..n] + [s[n]];
      assert Lits(s) == Lits(s[..n]) + {s[n]};
    }
  }
}
