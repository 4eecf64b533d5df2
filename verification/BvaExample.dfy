/**
 A formula of one clause with three literals and one with four, both with the same first literal: dropping
 duplicates loses the longer one. (cryptoms/bva.cpp)
 */
module BvaExample {
  import opened Literals
  import opened Watches
  import opened Elimination
  import opened OccTheory
  import opened OccSimplifier
  import opened BvaTheory
  import opened Bva

  function ThreeLits(): seq<Lit> {
    [Lit(0, false), Lit(1, false), Lit(2, false)]
  }

  function FourLits(): seq<Lit> {
    [Lit(0, false), Lit(3, false), Lit(4, false), Lit(5, false)]
  }

  function TwoClauses(): OccClauses {
    map[0 := OccClause(ThreeLits(), false, false, false), 1 := OccClause(FourLits(), false, false, false)]
  }

  function ListFor(l: Lit): seq<Watched> {
    if l == Lit(0, false) then [Long(0, l), Long(1, l)]
    else if l in ThreeLits() then [Long(0, l)]
    else if l in FourLits() then [Long(1, l)]
    else []
  }

  function TwoLists(): WatchLists {
    map l: Lit | l in ThreeLits() + FourLits() :: ListFor(l)
  }

  lemma ThreeHas(l: Lit)
    ensures l in ThreeLits() <==> !l.sign && l.v <= 2
    ensures DistinctVarsOf(ThreeLits()) && |Lits(ThreeLits())| == 3
  {
    var s := ThreeLits();
    assert s[0] in s && s[1] in s && s[2] in s;
    DistinctSize(s);
  }

  lemma FourHas(l: Lit)
    ensures l in FourLits() <==> !l.sign && (l.v == 0 || 3 <= l.v <= 5)
    ensures DistinctVarsOf(FourLits()) && |Lits(FourLits())| == 4
  {
    var s := FourLits();
    assert s[0] in s && s[1] in s && s[2] in s && s[3] in s;
    DistinctSize(s);
  }

  lemma ListIs(l: Lit)
    ensures W(TwoLists(), l) == ListFor(l)
  {
    ThreeHas(l);
    FourHas(l);
  }

  lemma ListOffs(l: Lit)
    ensures forall o: nat, b: Lit ::
      Long(o, b) in ListFor(l) <==> b == l && ((o == 0 && l in ThreeLits()) || (o == 1 && l in FourLits()))
    ensures forall b: Lit, r: bool :: Cnt(ListFor(l), Bin(b, r)) == 0
  {
    ThreeHas(l);
    FourHas(l);
    hide ThreeLits, FourLits;
    var ws := ListFor(l);
    forall b: Lit, r: bool
      ensures Cnt(ws, Bin(b, r)) == 0
    {
      InCnt(ws, Bin(b, r));
    }
  }

  lemma OffsOnce(l: Lit)
    ensures forall o: nat :: LongOffs(ListFor(l))[o] <= 1
  {
    hide ThreeLits, FourLits;
    var ws := ListFor(l);
    if |ws| == 2 {
      assert ws[1..] == [Long(1, l)] && ws[1..][1..] == [];
      assert LongOffs(ws[1..]) == multiset{1};
    } else if |ws| == 1 {
      assert ws[1..] == [];
    }
  }

  lemma BinsAndLists()
    ensures BinsOk(TwoLists())
    ensures forall l: Lit, w {:trigger w in W(TwoLists(), l)} ::
      w in W(TwoLists(), l) ==> w.Long? && w.off in TwoClauses() && l in TwoClauses()[w.off].lits
    ensures forall l: Lit, o: nat {:trigger LongOffs(W(TwoLists(), l))[o]} :: LongOffs(W(TwoLists(), l))[o] <= 1
  {
    hide ThreeLits, FourLits, TwoLists, W, Cnt, LongOffs;
    forall l: Lit
      ensures W(TwoLists(), l) == ListFor(l)
      ensures forall o: nat :: LongOffs(ListFor(l))[o] <= 1
      ensures forall b: Lit, r: bool :: Cnt(ListFor(l), Bin(b, r)) == 0
    {
      ListIs(l);
      ListOffs(l);
      OffsOnce(l);
    }
    forall l: Lit, w | w in W(TwoLists(), l)
      ensures w.Long? && w.off in TwoClauses() && l in TwoClauses()[w.off].lits
    {
      ThreeHas(l);
      FourHas(l);
    }
  }

  lemma TwoListsOk()
    ensures OccOk(TwoLists(), TwoClauses())
  {
    BinsAndLists();
    hide ThreeLits, FourLits, TwoLists, ListFor, W, Cnt, LongOffs, BinsOk;
    var ws, cs := TwoLists(), TwoClauses();
    forall o | o in cs
      ensures OccClauseOk(ws, cs, o)
    {
      ThreeHas(Lit(0, false));
      FourHas(Lit(0, false));
      SizesOf();
      forall l | l in cs[o].lits
        ensures InList(ws, l, o)
      {
        ListIs(l);
        ListOffs(l);
        assert Long(o, l) in W(ws, l);
      }
    }
  }

  lemma SizesOf()
    ensures |ThreeLits()| == 3 && |FourLits()| == 4 && ThreeLits()[0] == FourLits()[0] == Lit(0, false)
  {
  }

  ghost function TwoBag(): multiset<Clause> {
    multiset{Lits(ThreeLits()), Lits(FourLits())}
  }

  lemma TwoBagOk()
    ensures BagOk(TwoLists(), TwoClauses(), TwoBag()) && VarsBelow(TwoBag(), [], 6)
  {
    hide ThreeLits, FourLits, TwoLists, ListFor, W, Cnt, LongOffs;
    var ws, cs, bag := TwoLists(), TwoClauses(), TwoBag();
    ThreeHas(Lit(0, false));
    FourHas(Lit(0, false));
    forall a: Lit, b: Lit | a.v != b.v
      ensures bag[{a, b}] == Cnt(W(ws, a), Bin(b, false))
    {
      ListIs(a);
      ListOffs(a);
      assert |{a, b}| == 2;
    }
    forall c: Clause | |c| >= 3
      ensures bag[c] == |OffsOf(cs, c)|
    {
      if c == Lits(ThreeLits()) {
        assert OffsOf(cs, c) == {0};
      } else if c == Lits(FourLits()) {
        assert OffsOf(cs, c) == {1};
      } else {
        assert OffsOf(cs, c) == {};
      }
    }
    forall c: Clause, l | bag[c] > 0 && l in c
      ensures l.v < 6
    {
      ThreeHas(l);
      FourHas(l);
    }
  }

  lemma LongerNotShortest(cls: seq<OccurClause>, c: OccurClause, d: OccurClause)
    requires cls == [c, d] && c.ws.Long? && d.ws.Long? && c.ws.off == 0 && d.ws.off == 1
    ensures Shortest(TwoClauses(), cls, c) && !Shortest(TwoClauses(), cls, d)
    ensures Live(TwoClauses(), c.ws) && Live(TwoClauses(), d.ws) && ClausesSorted(TwoClauses())
  {
    SizesOf();
    assert Length(TwoClauses(), c) == 3 && Length(TwoClauses(), d) == 4;
    assert c in cls && d in cls;
  }

  /** The longer one of the two clauses with the first literal has no representative left. */
  method LongerClauseLost() returns (b: BVA)
    ensures fresh(b) && b.simplifier.clauses == TwoClauses()
    ensures Represented(TwoClauses(), b.mCls, OccurClause(Lit(0, false), Long(0, Lit(0, false))))
    ensures !Represented(TwoClauses(), b.mCls, OccurClause(Lit(0, false), Long(1, Lit(0, false))))
  {
    hide OccOk, BagOk, Represented, DistinctBodies, OneLength, VarsBelow, TwoBag, TwoLists, W, ListFor;
    var l := Lit(0, false);
    TwoListsOk();
    TwoBagOk();
    var s := new OccSimplifier(TwoLists(), TwoClauses(), [], 2, 0);
    b := new BVA(s, 6, 1, 1000, TwoBag());
    ListIs(l);
    ListOffs(l);
    var c, d := OccurClause(l, Long(0, l)), OccurClause(l, Long(1, l));
    var cls := [c, d];
    b.mCls := cls;
    assert c in cls && d in cls;
    LongerNotShortest(cls, c, d);
    hide Shortest, Length, TwoClauses;
    b.RemoveDuplicatesFromMCls(l);
  }
}
