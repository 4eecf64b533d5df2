/**
 Bounded variable addition: replacing a product of clauses by clauses over a fresh variable.
 (cryptoms/bva.cpp)
 */
module BvaTheory {
  import opened Literals
  import opened Watches
  import opened Elimination
  import opened OccTheory

  // ----- the product -----

  /** `lit_pair`: one literal or two, or none at all. */
  datatype LitPair = LitPair(lit1: Option<Lit>, lit2: Option<Lit>)

  const NO_LITS: LitPair := LitPair(None, None)

  function OneLit(l: Lit): LitPair {
    LitPair(Some(l), None)
  }

  function PairLits(p: LitPair): Clause {
    (if p.lit1.Some? then {p.lit1.value} else {}) + (if p.lit2.Some? then {p.lit2.value} else {})
  }

  /** Matching literals and clause bodies have nothing in common, and no two of either are the same. */
  ghost predicate Factors(ms: seq<Clause>, bs: seq<Clause>) {
    && (forall i, j {:trigger ms[i], bs[j]} :: 0 <= i < |ms| && 0 <= j < |bs| ==> ms[i] !! bs[j])
    && (forall i, j {:trigger ms[i], ms[j]} :: 0 <= i < j < |ms| ==> ms[i] != ms[j])
    && (forall i, j {:trigger bs[i], bs[j]} :: 0 <= i < j < |bs| ==> bs[i] != bs[j])
  }

  /** Product clauses are pairwise distinct. */
  lemma ProductDistinct(ms: seq<Clause>, bs: seq<Clause>, i: nat, j: nat, i': nat, j': nat)
    requires Factors(ms, bs) && i < |ms| && j < |bs| && i' < |ms| && j' < |bs|
    requires ms[i] + bs[j] == ms[i'] + bs[j']
    ensures i == i' && j == j'
  {
    var c := ms[i] + bs[j];
    assert ms[i] !! bs[j] && ms[i] !! bs[j'] && ms[i'] !! bs[j] && ms[i'] !! bs[j'];
    forall l
      ensures l in ms[i] <==> l in ms[i']
      ensures l in bs[j] <==> l in bs[j']
    {
      assert l in c <==> l in ms[i] || l in bs[j];
      assert l in c <==> l in ms[i'] || l in bs[j'];
    }
    assert ms[i] == ms[i'] && bs[j] == bs[j'];
  }

  /** One row of the product: the clauses of one matching literal. */
  ghost function Row(m: Clause, bs: seq<Clause>): multiset<Clause> {
    if bs == [] then multiset{} else Row(m, bs[..|bs| - 1]) + multiset{m + bs[|bs| - 1]}
  }

  ghost function Product(ms: seq<Clause>, bs: seq<Clause>): multiset<Clause> {
    if ms == [] then multiset{} else Product(ms[..|ms| - 1], bs) + Row(ms[|ms| - 1], bs)
  }

  lemma {:induction false} RowSize(m: Clause, bs: seq<Clause>)
    ensures |Row(m, bs)| == |bs|
  {
    if bs != [] {
      RowSize(m, bs[..|bs| - 1]);
    }
  }

  lemma {:induction false} ProductSize(ms: seq<Clause>, bs: seq<Clause>)
    ensures |Product(ms, bs)| == |ms| * |bs|
  {
    if ms != [] {
      ProductSize(ms[..|ms| - 1], bs);
      RowSize(ms[|ms| - 1], bs);
      assert |ms| * |bs| == (|ms| - 1) * |bs| + |bs|;
    }
  }

  lemma {:induction false} InRow(m: Clause, bs: seq<Clause>, c: Clause)
    ensures c in Row(m, bs) <==> exists j {:trigger bs[j]} :: 0 <= j < |bs| && c == m + bs[j]
  {
    if bs != [] {
      InRow(m, bs[..|bs| - 1], c);
      if c in Row(m, bs) {
        if c in Row(m, bs[..|bs| - 1]) {
          var j :| 0 <= j < |bs| - 1 && c == m + bs[..|bs| - 1][j];
          assert c == m + bs[j];
        }
      }
      if j :| 0 <= j < |bs| && c == m + bs[j] {
        if j < |bs| - 1 {
          assert c == m + bs[..|bs| - 1][j];
        }
      }
    }
  }

  // ----- models -----

  /** The clauses over the fresh variable. */
  ghost function NewClauses(ms: seq<Clause>, bs: seq<Clause>, x: nat): Formula {
    (iset i: nat | i < |ms| :: ms[i] + {Lit(x, false)}) + (iset j: nat | j < |bs| :: bs[j] + {Lit(x, true)})
  }

  /** All product clauses are there, and at most they have gone in exchange for the new ones. */
  ghost predicate Replaced(f: Formula, f': Formula, ms: seq<Clause>, bs: seq<Clause>, x: nat) {
    && (forall i: nat, j: nat {:trigger ms[i], bs[j]} :: i < |ms| && j < |bs| ==> ms[i] + bs[j] in f)
    && (forall c {:trigger c in f'} :: c in f' ==> c in f || c in NewClauses(ms, bs, x))
    && (forall c {:trigger c in NewClauses(ms, bs, x)} :: c in NewClauses(ms, bs, x) ==> c in f')
    && (forall c {:trigger c in f} :: c in f && c !in f' ==> exists i: nat, j: nat ::
      i < |ms| && j < |bs| && c == ms[i] + bs[j])
  }

  ghost predicate NoVar(f: Formula, x: nat) {
    forall c {:trigger c in f} :: c in f ==> !HasVar(c, x)
  }

  lemma SameModel(m: Model, m': Model, c: Clause, x: nat)
    requires !HasVar(c, x) && forall v: nat :: v != x ==> (v in m <==> v in m')
    ensures ClauseTrue(m, c) <==> ClauseTrue(m', c)
  {
    assert forall l {:trigger l in c} :: l in c ==> l == Lit(l.v, l.sign) && l.v != x;
    if ClauseTrue(m, c) {
      var l :| l in c && LitTrue(m, l);
      assert LitTrue(m', l);
    }
    if ClauseTrue(m', c) {
      var l :| l in c && LitTrue(m', l);
      assert LitTrue(m, l);
    }
  }

  /** Every model of the old formula gets a value for the fresh variable. */
  lemma AdditionComplete(f: Formula, f': Formula, ms: seq<Clause>, bs: seq<Clause>, x: nat, m: Model)
    returns (m': Model)
    requires Replaced(f, f', ms, bs, x) && NoVar(f, x) && |ms| > 0 && |bs| > 0 && FormulaTrue(m, f)
    ensures FormulaTrue(m', f') && forall v: nat :: v != x ==> (v in m' <==> v in m)
  {
    FactorsPlain(f, f', ms, bs, x);
    if i: nat :| i < |ms| && !ClauseTrue(m, ms[i]) {
      m' := m + iset{x};
      forall j: nat | j < |bs|
        ensures ClauseTrue(m', bs[j])
      {
        assert ms[i] + bs[j] in f;
        var l :| l in ms[i] + bs[j] && LitTrue(m, l);
        assert l in bs[j];
        SameModel(m, m', bs[j], x);
      }
      forall c | c in f'
        ensures ClauseTrue(m', c)
      {
        if c in f {
          SameModel(m, m', c, x);
        } else if Lit(x, false) in c {
          assert LitTrue(m', Lit(x, false));
        } else {
          var j: nat :| j < |bs| && c == bs[j] + {Lit(x, true)};
          var l :| l in bs[j] && LitTrue(m', l);
          assert l in c;
        }
      }
    } else {
      m' := m - iset{x};
      forall c | c in f'
        ensures ClauseTrue(m', c)
      {
        if c in f {
          SameModel(m, m', c, x);
        } else if Lit(x, true) in c {
          assert LitTrue(m', Lit(x, true));
        } else {
          var i: nat :| i < |ms| && c == ms[i] + {Lit(x, false)};
          SameModel(m, m', ms[i], x);
          var l :| l in ms[i] && LitTrue(m', l);
          assert l in c;
        }
      }
    }
  }

  lemma FactorsPlain(f: Formula, f': Formula, ms: seq<Clause>, bs: seq<Clause>, x: nat)
    requires Replaced(f, f', ms, bs, x) && NoVar(f, x) && |ms| > 0 && |bs| > 0
    ensures (forall i {:trigger ms[i]} :: 0 <= i < |ms| ==> !HasVar(ms[i], x)) && forall j {:trigger bs[j]} ::
      0 <= j < |bs| ==> !HasVar(bs[j], x)
  {
    forall i: nat | i < |ms|
      ensures !HasVar(ms[i], x)
    {
      assert ms[i] + bs[0] in f;
    }
    forall j: nat | j < |bs|
      ensures !HasVar(bs[j], x)
    {
      assert ms[0] + bs[j] in f;
    }
  }

  /** Every model of the new formula is one of the old. */
  lemma AdditionSound(f: Formula, f': Formula, ms: seq<Clause>, bs: seq<Clause>, x: nat, m: Model)
    requires Replaced(f, f', ms, bs, x) && FormulaTrue(m, f')
    ensures FormulaTrue(m, f)
  {
    forall c | c in f
      ensures ClauseTrue(m, c)
    {
      if c !in f' {
        var i: nat, j: nat :| i < |ms| && j < |bs| && c == ms[i] + bs[j];
        var p, n := ms[i] + {Lit(x, false)}, bs[j] + {Lit(x, true)};
        assert p in NewClauses(ms, bs, x) && n in NewClauses(ms, bs, x);
        var y :| y in p && LitTrue(m, y);
        var z :| z in n && LitTrue(m, z);
        assert y in c || z in c;
      }
    }
  }

  /** Exactly the models over the old variables are kept. */
  lemma AdditionKeepsModels(f: Formula, f': Formula, ms: seq<Clause>, bs: seq<Clause>, x: nat, m: Model)
    requires Replaced(f, f', ms, bs, x) && NoVar(f, x) && |ms| > 0 && |bs| > 0
    ensures FormulaTrue(m, f) <==>
      exists m': Model :: FormulaTrue(m', f') && forall v: nat :: v != x ==> (v in m' <==> v in m)
  {
    if FormulaTrue(m, f) {
      var m' := AdditionComplete(f, f', ms, bs, x, m);
    }
    if m': Model :| FormulaTrue(m', f') && forall v: nat :: v != x ==> (v in m' <==> v in m) {
      AdditionSound(f, f', ms, bs, x, m');
      forall c | c in f
        ensures ClauseTrue(m, c)
      {
        SameModel(m, m', c, x);
      }
    }
  }

  // ----- clauses with multiplicity -----

  ghost function OffsOf(cs: OccClauses, c: Clause): set<nat> {
    set o | o in cs && !cs[o].red && Lits(cs[o].lits) == c
  }

  /**
   `bag` holds the irredundant clauses of the lists, each as often as it is stored; no clause is marked as removed.
   */
  ghost predicate BagOk(ws: WatchLists, cs: OccClauses, bag: multiset<Clause>) {
    && (forall o {:trigger cs[o]} :: o in cs ==> !cs[o].removed)
    && (forall a: Lit, b: Lit {:trigger {a, b}} :: a.v != b.v ==> bag[{a, b}] == Cnt(W(ws, a), Bin(b, false)))
    && (forall c: Clause {:trigger bag[c]} :: |c| >= 3 ==> bag[c] == |OffsOf(cs, c)|)
    && forall c: Clause {:trigger bag[c]} :: bag[c] > 0 ==> |c| >= 3 || exists a: Lit, b: Lit ::
      a.v != b.v && c == {a, b}
  }

  /** The bag has exactly the clauses of the formula. */
  lemma BagFormula(ws: WatchLists, cs: OccClauses, bag: multiset<Clause>, c: Clause)
    requires OccOk(ws, cs) && BagOk(ws, cs, bag)
    ensures c in bag <==> c in BinClauses(ws, false) || c in LongFormula(cs)
  {
    if c in BinClauses(ws, false) {
      var a: Lit, b: Lit :| Bin(b, false) in W(ws, a) && c == {a, b};
      InCnt(W(ws, a), Bin(b, false));
      assert a.v != b.v;
      assert bag[{a, b}] > 0;
    }
    if c in LongFormula(cs) {
      var o: nat :| o in cs && !cs[o].red && !cs[o].removed && c == Lits(cs[o].lits);
      assert OccClauseOk(ws, cs, o);
      DistinctSize(cs[o].lits);
      assert o in OffsOf(cs, c);
      assert bag[c] == |OffsOf(cs, c)|;
    }
    if c in bag {
      if |c| >= 3 {
        assert bag[c] == |OffsOf(cs, c)|;
        var o :| o in OffsOf(cs, c);
        assert !cs[o].removed;
        assert c in LongFormula(cs);
      } else {
        var a: Lit, b: Lit :| a.v != b.v && c == {a, b};
        assert bag[{a, b}] > 0;
        InCnt(W(ws, a), Bin(b, false));
        assert c in BinClauses(ws, false);
      }
    }
  }

  /** One more binary clause in both lists. */
  lemma BagAttach(ws: WatchLists, cs: OccClauses, bag: multiset<Clause>, a: Lit, b: Lit)
    requires BagOk(ws, cs, bag) && a.v != b.v
    ensures var ws1 := ws[a := W(ws, a) + [Bin(b, false)]];
      BagOk(ws1[b := W(ws1, b) + [Bin(a, false)]], cs, bag + multiset{{a, b}})
  {
    var ws1 := ws[a := W(ws, a) + [Bin(b, false)]];
    var ws2 := ws1[b := W(ws1, b) + [Bin(a, false)]];
    var bag' := bag + multiset{{a, b}};
    hide Cnt;
    forall y: Lit, z: Lit | y.v != z.v
      ensures bag'[{y, z}] == Cnt(W(ws2, y), Bin(z, false))
    {
      SamePair(a, b, y, z);
      assert bag[{y, z}] == Cnt(W(ws, y), Bin(z, false));
      Snoc(W(ws, y), if y == a then Bin(b, false) else Bin(a, false), Bin(z, false));
    }
    PairSize(a, b);
    hide W, OffsOf;
    forall c: Clause | |c| >= 3
      ensures bag'[c] == |OffsOf(cs, c)|
    {
      assert bag[c] == |OffsOf(cs, c)|;
    }
  }

  lemma SamePair(a: Lit, b: Lit, y: Lit, z: Lit)
    requires a.v != b.v && y.v != z.v
    ensures {a, b} == {y, z} <==> (a == y && b == z) || (a == z && b == y)
  {
    if {a, b} == {y, z} {
      assert a in {y, z} && b in {y, z} && y in {a, b} && z in {a, b};
    }
  }

  lemma PairSize(a: Lit, b: Lit)
    requires a.v != b.v
    ensures |{a, b}| == 2
  {
    assert a != b && b !in {a};
    assert {a, b} == {a} + {b};
  }

  /** A new long clause. */
  lemma BagLink(ws: WatchLists, ws': WatchLists, cs: OccClauses, bag: multiset<Clause>, o: nat, lits: seq<Lit>)
    requires BagOk(ws, cs, bag) && o !in cs && |lits| >= 3 && DistinctVarsOf(lits)
    requires forall a: Lit, b: Lit {:trigger Cnt(W(ws', a), Bin(b, false))} ::
      Cnt(W(ws', a), Bin(b, false)) == Cnt(W(ws, a), Bin(b, false))
    ensures BagOk(ws', cs[o := OccClause(lits, false, false, false)], bag + multiset{Lits(lits)})
  {
    var cs' := cs[o := OccClause(lits, false, false, false)];
    var bag' := bag + multiset{Lits(lits)};
    DistinctSize(lits);
    forall c: Clause | |c| >= 3
      ensures bag'[c] == |OffsOf(cs', c)|
    {
      assert bag[c] == |OffsOf(cs, c)|;
      if c == Lits(lits) {
        assert OffsOf(cs', c) == OffsOf(cs, c) + {o};
      } else {
        assert OffsOf(cs', c) == OffsOf(cs, c);
      }
    }
    forall a: Lit, b: Lit | a.v != b.v
      ensures bag'[{a, b}] == Cnt(W(ws', a), Bin(b, false))
    {
      PairSize(a, b);
      assert bag[{a, b}] == Cnt(W(ws, a), Bin(b, false));
    }
  }

  /** A binary clause taken out of both lists. */
  lemma BagDetach(ws: WatchLists, cs: OccClauses, bag: multiset<Clause>, a: Lit, b: Lit, la: seq<Watched>,
                  lb: seq<Watched>)
    requires BagOk(ws, cs, bag) && a.v != b.v && WithoutOne(W(ws, a), la, Bin(b, false))
      && WithoutOne(W(ws, b), lb, Bin(a, false))
    ensures BagOk(ws[a := la][b := lb], cs, bag - multiset{{a, b}})
  {
    hide Cnt, LongOffs;
    var ws' := ws[a := la][b := lb];
    var bag' := bag - multiset{{a, b}};
    assert forall y: Lit :: W(ws', y) == if y == b then lb else if y == a then la else W(ws, y);
    InCnt(W(ws, a), Bin(b, false));
    assert bag[{a, b}] > 0;
    forall y: Lit, z: Lit | y.v != z.v
      ensures bag'[{y, z}] == Cnt(W(ws', y), Bin(z, false))
    {
      SamePair(a, b, y, z);
      assert bag[{y, z}] == Cnt(W(ws, y), Bin(z, false));
      var e := Bin(z, false);
      assert y == a ==> Cnt(la, e) == Cnt(W(ws, y), e) - if z == b then 1 else 0;
      assert y == b ==> Cnt(lb, e) == Cnt(W(ws, y), e) - if z == a then 1 else 0;
    }
    PairSize(a, b);
  }

  lemma DetachedOk(ws: WatchLists, cs: OccClauses, a: Lit, b: Lit, la: seq<Watched>, lb: seq<Watched>)
    requires OccOk(ws, cs) && a.v != b.v && WithoutOne(W(ws, a), la, Bin(b, false))
      && WithoutOne(W(ws, b), lb, Bin(a, false))
    ensures OccOk(ws[a := la][b := lb], cs)
  {
    hide LongOffs, Cnt;
    var ws' := ws[a := la][b := lb];
    assert forall y: Lit :: W(ws', y) == if y == b then lb else if y == a then la else W(ws, y);
    forall y: Lit, w | w in W(ws', y)
      ensures w in W(ws, y)
    {
      InCnt(W(ws', y), w);
      InCnt(W(ws, y), w);
      assert y == a ==> Cnt(la, w) <= Cnt(W(ws, a), w);
      assert y == b ==> Cnt(lb, w) <= Cnt(W(ws, b), w);
    }
    forall y: Lit, z: Lit, r: bool
      ensures Cnt(W(ws', y), Bin(z, r)) == Cnt(W(ws', z), Bin(y, r))
    {
      assert Cnt(W(ws, y), Bin(z, r)) == Cnt(W(ws, z), Bin(y, r));
      forall u: Lit, e
        ensures Cnt(W(ws', u), e) == Cnt(W(ws, u), e) - if (u == a && e == Bin(b, false)) || (u == b
          && e == Bin(a, false)) then 1 else 0
      {
        assert u == a ==> Cnt(la, e) == Cnt(W(ws, a), e) - if e == Bin(b, false) then 1 else 0;
        assert u == b ==> Cnt(lb, e) == Cnt(W(ws, b), e) - if e == Bin(a, false) then 1 else 0;
      }
    }
    DetachedLongs(ws, cs, a, b, la, lb);
  }

  lemma DetachedLongs(ws: WatchLists, cs: OccClauses, a: Lit, b: Lit, la: seq<Watched>, lb: seq<Watched>)
    requires LongsOk(ws, cs) && a.v != b.v && WithoutOne(W(ws, a), la, Bin(b, false))
      && WithoutOne(W(ws, b), lb, Bin(a, false))
    ensures LongsOk(ws[a := la][b := lb], cs)
  {
    hide LongOffs, Cnt;
    var ws' := ws[a := la][b := lb];
    assert forall y: Lit :: W(ws', y) == if y == b then lb else if y == a then la else W(ws, y);
    forall y: Lit, w: Watched | w.Long?
      ensures w in W(ws', y) <==> w in W(ws, y)
    {
      InCnt(W(ws', y), w);
      InCnt(W(ws, y), w);
      assert y == a ==> Cnt(la, w) == Cnt(W(ws, a), w);
      assert y == b ==> Cnt(lb, w) == Cnt(W(ws, b), w);
    }
    forall y: Lit, o: nat
      ensures LongOffs(W(ws', y))[o] <= 1
    {
      assert LongOffs(W(ws, y))[o] <= 1;
    }
    forall o | o in cs
      ensures OccClauseOk(ws', cs, o)
    {
      assert OccClauseOk(ws, cs, o);
      forall y | y in cs[o].lits && !cs[o].removed
        ensures InList(ws', y, o)
      {
        assert InList(ws, y, o);
        var z: Lit :| Long(o, z) in W(ws, y);
        var e := Long(o, z);
        assert e.Long? && (e in W(ws', y) <==> e in W(ws, y));
      }
    }
  }

  // ----- unlinking a long clause -----

  /** A list without the first entry of a clause. */
  function DropOff(s: seq<Watched>, o: nat): seq<Watched> {
    if s == [] then [] else if s[0].Long? && s[0].off == o then s[1..] else [s[0]] + DropOff(s[1..], o)
  }

  lemma {:induction false} DropOffOffs(s: seq<Watched>, o: nat)
    ensures LongOffs(DropOff(s, o)) == LongOffs(s) - multiset{o}
  {
    if s != [] {
      var t := DropOff(s[1..], o);
      DropOffOffs(s[1..], o);
      if !(s[0].Long? && s[0].off == o) {
        assert ([s[0]] + t)[1..] == t;
        assert LongOffs([s[0]] + t) == (if s[0].Long? then multiset{s[0].off} else multiset{}) + LongOffs(t);
      }
      assert LongOffs(s) == (if s[0].Long? then multiset{s[0].off} else multiset{}) + LongOffs(s[1..]);
    }
  }

  lemma {:induction false} DropOffCnt(s: seq<Watched>, o: nat, w: Watched)
    requires w.Bin?
    ensures Cnt(DropOff(s, o), w) == Cnt(s, w)
  {
    if s != [] {
      var t := DropOff(s[1..], o);
      DropOffCnt(s[1..], o, w);
      CntCons(s, w);
      if !(s[0].Long? && s[0].off == o) {
        assert ([s[0]] + t)[1..] == t;
        CntCons([s[0]] + t, w);
      }
    }
  }

  lemma {:induction false} DropOffIn(s: seq<Watched>, o: nat, w: Watched)
    ensures w in DropOff(s, o) ==> w in s
    ensures w in s && !(w.Long? && w.off == o) ==> w in DropOff(s, o)
  {
    if s != [] {
      assert s == [s[0]] + s[1..];
      DropOffIn(s[1..], o, w);
    }
  }

  lemma DropOffKeeps(s: seq<Watched>, o: nat)
    ensures forall w {:trigger w in DropOff(s, o)} :: w in DropOff(s, o) ==> w in s
    ensures forall w {:trigger w in DropOff(s, o)} :: w in s && !(w.Long? && w.off == o) ==> w in DropOff(s, o)
    ensures LongOffs(DropOff(s, o)) == LongOffs(s) - multiset{o}
    ensures forall w: Watched {:trigger Cnt(DropOff(s, o), w)} :: w.Bin? ==> Cnt(DropOff(s, o), w) == Cnt(s, w)
  {
    hide DropOff, Cnt, LongOffs;
    DropOffOffs(s, o);
    forall w
      ensures (w in DropOff(s, o) ==> w in s) && (w in s && !(w.Long? && w.off == o) ==> w in DropOff(s, o))
    {
      DropOffIn(s, o, w);
    }
    forall w: Watched | w.Bin?
      ensures Cnt(DropOff(s, o), w) == Cnt(s, w)
    {
      DropOffCnt(s, o, w);
    }
  }

  /** The clause is out of the lists of its first `k` literals. */
  ghost predicate Unlinked(ws: WatchLists, ws': WatchLists, o: nat, lits: seq<Lit>, k: nat) {
    k <= |lits| && forall y: Lit {:trigger W(ws', y)} :: W(ws', y) == if y in lits[..k] then DropOff(W(ws, y), o)
      else W(ws, y)
  }

  lemma UnlinkNext(ws: WatchLists, ws': WatchLists, o: nat, lits: seq<Lit>, k: nat)
    requires Unlinked(ws, ws', o, lits, k) && k < |lits| && DistinctVarsOf(lits)
    ensures Unlinked(ws, ws'[lits[k] := DropOff(W(ws', lits[k]), o)], o, lits, k + 1)
  {
    var ws2 := ws'[lits[k] := DropOff(W(ws', lits[k]), o)];
    assert lits[..k + 1] == lits[..k] + [lits[k]];
    assert lits[k] !in lits[..k];
    forall y: Lit
      ensures W(ws2, y) == if y in lits[..k + 1] then DropOff(W(ws, y), o) else W(ws, y)
    {
      assert W(ws', y) == if y in lits[..k] then DropOff(W(ws, y), o) else W(ws, y);
    }
  }

  lemma UnlinkDone(ws: WatchLists, ws': WatchLists, cs: OccClauses, bag: multiset<Clause>, o: nat)
    requires OccOk(ws, cs) && BagOk(ws, cs, bag) && o in cs && !cs[o].red
      && Unlinked(ws, ws', o, cs[o].lits, |cs[o].lits|)
    ensures OccOk(ws', cs - {o}) && BagOk(ws', cs - {o}, bag - multiset{Lits(cs[o].lits)})
  {
    hide Cnt, LongOffs, DropOff;
    var lits, cs' := cs[o].lits, cs - {o};
    assert lits[..|lits|] == lits;
    forall y: Lit
      ensures W(ws', y) == (if y in lits then DropOff(W(ws, y), o) else W(ws, y))
    {
    }
    forall y: Lit
      ensures (forall w :: w in W(ws', y) ==> w in W(ws, y))
        && (forall w: Watched :: w in W(ws, y) && !(w.Long? && w.off == o) ==> w in W(ws', y))
      ensures forall b: Lit, r: bool :: Cnt(W(ws', y), Bin(b, r)) == Cnt(W(ws, y), Bin(b, r))
      ensures LongOffs(W(ws', y)) == if y in lits then LongOffs(W(ws, y)) - multiset{o} else LongOffs(W(ws, y))
    {
      DropOffKeeps(W(ws, y), o);
    }
    UnlinkedBins(ws, ws');
    UnlinkedLongs(ws, ws', cs, o);
    UnlinkedBag(ws, ws', cs, bag, o);
  }

  lemma UnlinkedBins(ws: WatchLists, ws': WatchLists)
    requires BinsOk(ws)
    requires forall y: Lit {:trigger W(ws', y)} ::
      && (forall w :: w in W(ws', y) ==> w in W(ws, y))
      && forall b: Lit, r: bool :: Cnt(W(ws', y), Bin(b, r)) == Cnt(W(ws, y), Bin(b, r))
    ensures BinsOk(ws')
  {
    hide Cnt;
    forall a: Lit, b: Lit, r: bool
      ensures Cnt(W(ws', a), Bin(b, r)) == Cnt(W(ws', b), Bin(a, r))
    {
      assert Cnt(W(ws, a), Bin(b, r)) == Cnt(W(ws, b), Bin(a, r));
    }
  }

  lemma UnlinkedLongs(ws: WatchLists, ws': WatchLists, cs: OccClauses, o: nat)
    requires LongsOk(ws, cs) && o in cs
    requires forall y: Lit {:trigger W(ws', y)} ::
      && (forall w :: w in W(ws', y) ==> w in W(ws, y))
      && (forall w: Watched :: w in W(ws, y) && !(w.Long? && w.off == o) ==> w in W(ws', y))
      && LongOffs(W(ws', y)) == if y in cs[o].lits then LongOffs(W(ws, y)) - multiset{o} else LongOffs(W(ws, y))
    ensures LongsOk(ws', cs - {o})
  {
    hide LongOffs, W;
    var cs' := cs - {o};
    forall y: Lit, q: nat
      ensures LongOffs(W(ws', y))[q] <= 1
    {
      assert LongOffs(W(ws, y))[q] <= 1;
    }
    forall y: Lit, w | w in W(ws', y) && w.Long?
      ensures w.off in cs' && y in cs'[w.off].lits
    {
      assert w in W(ws, y);
      assert LongOffs(W(ws, y))[o] <= 1;
      if w.off == o {
        GoneFromList(W(ws', y), w);
      }
    }
    forall q | q in cs'
      ensures OccClauseOk(ws', cs', q)
    {
      assert OccClauseOk(ws, cs, q);
      forall y | y in cs[q].lits && !cs[q].removed
        ensures InList(ws', y, q)
      {
        assert InList(ws, y, q);
        var z: Lit :| Long(q, z) in W(ws, y);
        assert Long(q, z) in W(ws', y);
      }
    }
  }

  lemma GoneFromList(s: seq<Watched>, w: Watched)
    requires w in s && w.Long?
    ensures LongOffs(s)[w.off] > 0
  {
    var i :| 0 <= i < |s| && s[i] == w;
    InLongOffs(s, i);
  }

  lemma UnlinkedOffs(cs: OccClauses, o: nat, c: Clause)
    requires o in cs && !cs[o].red
    ensures |OffsOf(cs, c)| == |OffsOf(cs - {o}, c)| + if c == Lits(cs[o].lits) then 1 else 0
  {
    if c == Lits(cs[o].lits) {
      assert o in OffsOf(cs, c);
      assert OffsOf(cs - {o}, c) == OffsOf(cs, c) - {o};
    } else {
      assert OffsOf(cs - {o}, c) == OffsOf(cs, c);
    }
  }

  lemma UnlinkedBag(ws: WatchLists, ws': WatchLists, cs: OccClauses, bag: multiset<Clause>, o: nat)
    requires LongsOk(ws, cs) && BagOk(ws, cs, bag) && o in cs && !cs[o].red
    requires forall y: Lit {:trigger W(ws', y)} :: forall b: Lit, r: bool ::
      Cnt(W(ws', y), Bin(b, r)) == Cnt(W(ws, y), Bin(b, r))
    ensures BagOk(ws', cs - {o}, bag - multiset{Lits(cs[o].lits)})
  {
    var cs', c0 := cs - {o}, Lits(cs[o].lits);
    var bag' := bag - multiset{c0};
    assert OccClauseOk(ws, cs, o);
    hide Cnt, W, LongsOk, OccClauseOk, OffsOf;
    DistinctSize(cs[o].lits);
    forall c: Clause | |c| >= 3
      ensures bag'[c] == |OffsOf(cs', c)|
    {
      assert bag[c] == |OffsOf(cs, c)|;
      UnlinkedOffs(cs, o, c);
    }
    forall a: Lit, b: Lit | a.v != b.v
      ensures bag'[{a, b}] == Cnt(W(ws', a), Bin(b, false))
    {
      PairSize(a, b);
      assert bag[{a, b}] == Cnt(W(ws, a), Bin(b, false));
    }
  }

  // ----- the exchange, clause by clause -----

  /** Each clause with one more literal. */
  ghost function WithEach(cs: seq<Clause>, l: Lit): multiset<Clause> {
    if cs == [] then multiset{} else WithEach(cs[..|cs| - 1], l) + multiset{cs[|cs| - 1] + {l}}
  }

  lemma {:induction false} WithEachSize(cs: seq<Clause>, l: Lit)
    ensures |WithEach(cs, l)| == |cs|
  {
    if cs != [] {
      WithEachSize(cs[..|cs| - 1], l);
    }
  }

  lemma {:induction false} InWithEach(cs: seq<Clause>, l: Lit, c: Clause)
    ensures c in WithEach(cs, l) <==> exists i {:trigger cs[i]} :: 0 <= i < |cs| && c == cs[i] + {l}
  {
    if cs != [] {
      var n := |cs| - 1;
      InWithEach(cs[..n], l, c);
      if c in WithEach(cs[..n], l) {
        var i :| 0 <= i < n && c == cs[..n][i] + {l};
        assert c == cs[i] + {l};
      }
      if i :| 0 <= i < |cs| && c == cs[i] + {l} {
        assert i < n ==> c == cs[..n][i] + {l};
      }
    }
  }

  /** What has been removed when row `i` is done up to column `j`. */
  ghost function RemovedSoFar(ms: seq<Clause>, bs: seq<Clause>, i: nat, j: nat): multiset<Clause>
    requires i < |ms| && j <= |bs|
  {
    Product(ms[..i], bs) + Row(ms[i], bs[..j])
  }

  lemma RemovedNext(ms: seq<Clause>, bs: seq<Clause>, i: nat, j: nat)
    requires i < |ms| && j < |bs|
    ensures RemovedSoFar(ms, bs, i, j + 1) == RemovedSoFar(ms, bs, i, j) + multiset{ms[i] + bs[j]}
  {
    assert bs[..j + 1][..j] == bs[..j];
  }

  lemma RemovedRow(ms: seq<Clause>, bs: seq<Clause>, i: nat)
    requires i < |ms|
    ensures RemovedSoFar(ms, bs, i, |bs|) == Product(ms[..i + 1], bs)
  {
    hide Row;
    var more := ms[..i + 1];
    assert more[..|more| - 1] == ms[..i] && more[|more| - 1] == ms[i];
    assert bs[..|bs|] == bs;
  }

  lemma InProduct(ms: seq<Clause>, bs: seq<Clause>, c: Clause)
    ensures c in Product(ms, bs) <==>
      exists i, j {:trigger ms[i], bs[j]} :: 0 <= i < |ms| && 0 <= j < |bs| && c == ms[i] + bs[j]
  {
    if c in Product(ms, bs) {
      var i, j := ProductOnly(ms, bs, c);
      assert c == ms[i] + bs[j];
    }
    if i, j :| 0 <= i < |ms| && 0 <= j < |bs| && c == ms[i] + bs[j] {
      ProductHas(ms, bs, i, j);
    }
  }

  lemma {:induction false} ProductOnly(ms: seq<Clause>, bs: seq<Clause>, c: Clause) returns (i: nat, j: nat)
    requires c in Product(ms, bs)
    ensures i < |ms| && j < |bs| && c == ms[i] + bs[j]
  {
    var n := |ms| - 1;
    if c in Product(ms[..n], bs) {
      i, j := ProductOnly(ms[..n], bs, c);
    } else {
      InRow(ms[n], bs, c);
      i := n;
      j :| 0 <= j < |bs| && c == ms[n] + bs[j];
    }
  }

  lemma {:induction false} ProductHas(ms: seq<Clause>, bs: seq<Clause>, i: nat, j: nat)
    requires i < |ms| && j < |bs|
    ensures ms[i] + bs[j] in Product(ms, bs)
  {
    var n := |ms| - 1;
    if i < n {
      ProductHas(ms[..n], bs, i, j);
    } else {
      InRow(ms[n], bs, ms[n] + bs[j]);
    }
  }

  /** The next product clause has not been removed yet. */
  lemma NotYetRemoved(ms: seq<Clause>, bs: seq<Clause>, i: nat, j: nat)
    requires Factors(ms, bs) && i < |ms| && j < |bs|
    ensures ms[i] + bs[j] !in RemovedSoFar(ms, bs, i, j)
  {
    var c := ms[i] + bs[j];
    InProduct(ms[..i], bs, c);
    InRow(ms[i], bs[..j], c);
    forall i', j' | 0 <= i' < i && 0 <= j' < |bs|
      ensures c != ms[..i][i'] + bs[j']
    {
      if ms[i'] + bs[j'] == c {
        ProductDistinct(ms, bs, i, j, i', j');
      }
    }
    forall j' | 0 <= j' < j
      ensures c != ms[i] + bs[..j][j']
    {
      if ms[i] + bs[j'] == c {
        ProductDistinct(ms, bs, i, j, i, j');
      }
    }
  }

  /** The bag before and after the exchange. */
  ghost predicate Exchanged(bag: multiset<Clause>, bag': multiset<Clause>, ms: seq<Clause>, bs: seq<Clause>, x: nat) {
    bag' + Product(ms, bs) == bag + WithEach(ms, Lit(x, false)) + WithEach(bs, Lit(x, true))
  }

  /** The number of clauses drops by the size of the simplification. */
  lemma ExchangeCount(bag: multiset<Clause>, bag': multiset<Clause>, ms: seq<Clause>, bs: seq<Clause>, x: nat)
    requires Exchanged(bag, bag', ms, bs, x)
    ensures |bag'| == |bag| - (|ms| * |bs| - |ms| - |bs|)
  {
    ProductSize(ms, bs);
    WithEachSize(ms, Lit(x, false));
    WithEachSize(bs, Lit(x, true));
    assert |bag' + Product(ms, bs)| == |bag'| + |Product(ms, bs)|;
  }

  /** What the exchange does to the formula as a set. */
  lemma ExchangeReplaces(f: Formula, f': Formula, bag: multiset<Clause>, bag': multiset<Clause>, rest: Formula,
                         ms: seq<Clause>, bs: seq<Clause>, x: nat)
    requires Exchanged(bag, bag', ms, bs, x)
    requires forall c: Clause :: c in f <==> bag[c] > 0 || c in rest
    requires forall c: Clause :: c in f' <==> bag'[c] > 0 || c in rest
    requires NoVar(f, x) && |ms| > 0 && |bs| > 0
    requires forall i, j {:trigger ms[i], bs[j]} :: 0 <= i < |ms| && 0 <= j < |bs| ==> ms[i] + bs[j] in bag
    ensures Replaced(f, f', ms, bs, x)
  {
    var p, n := Lit(x, false), Lit(x, true);
    forall c: Clause
      ensures bag'[c] + Product(ms, bs)[c] == bag[c] + WithEach(ms, p)[c] + WithEach(bs, n)[c]
    {
      assert (bag' + Product(ms, bs))[c] == (bag + WithEach(ms, p) + WithEach(bs, n))[c];
    }
    forall c | c in f'
      ensures c in f || c in NewClauses(ms, bs, x)
    {
      InWithEach(ms, p, c);
      InWithEach(bs, n, c);
    }
    forall c | c in NewClauses(ms, bs, x)
      ensures c in f'
    {
      InWithEach(ms, p, c);
      InWithEach(bs, n, c);
      InProduct(ms, bs, c);
      NewHasVar(ms, bs, x, c);
      forall i, j | 0 <= i < |ms| && 0 <= j < |bs|
        ensures c != ms[i] + bs[j]
      {
        assert ms[i] + bs[j] in f;
      }
    }
    forall c | c in f && c !in f'
      ensures exists i: nat, j: nat :: i < |ms| && j < |bs| && c == ms[i] + bs[j]
    {
      InProduct(ms, bs, c);
    }
  }

  lemma NewHasVar(ms: seq<Clause>, bs: seq<Clause>, x: nat, c: Clause)
    requires c in NewClauses(ms, bs, x)
    ensures HasVar(c, x)
  {
  }
}
