/**
 Bounded variable addition over occurrence lists. (cryptoms/bva.cpp)
 */
module Bva {
  import opened Literals
  import opened Watches
  import opened Elimination
  import opened OccTheory
  import opened OccSimplifier
  import opened BvaTheory
  import opened Sorting

  /** A clause found in the list of `lit`. */
  datatype OccurClause = OccurClause(lit: Lit, ws: Watched)

  datatype PotentialClause = PotentialClause(lits: LitPair, occurCl: OccurClause)

  /** The literals of a matched clause but the one it was found with. */
  datatype ClsLits = ClsLits(lits: seq<Lit>, red: bool)

  /** The clause without the literal it was found with. */
  ghost function Body(cs: OccClauses, c: OccurClause): Clause {
    Lits(ClauseOf(cs, c.lit, c.ws)) - {c.lit}
  }

  ghost function Bodies(cs: OccClauses, cls: seq<OccurClause>): (bs: seq<Clause>)
    ensures |bs| == |cls| && forall i {:trigger bs[i]} :: 0 <= i < |cls| ==> bs[i] == Body(cs, cls[i])
  {
    seq(|cls|, i requires 0 <= i < |cls| => Body(cs, cls[i]))
  }

  ghost function Matches(ms: seq<LitPair>): (r: seq<Clause>)
    ensures |r| == |ms| && forall i {:trigger r[i]} :: 0 <= i < |ms| ==> r[i] == PairLits(ms[i])
  {
    seq(|ms|, i requires 0 <= i < |ms| => PairLits(ms[i]))
  }

  /** One literal, or two of different variables. */
  ghost predicate PairOk(p: LitPair) {
    p.lit1.Some? && (p.lit2.Some? ==> p.lit1.value.v != p.lit2.value.v)
  }

  /** The literals of a pair in order. */
  function PairSeq(p: LitPair): seq<Lit>
    requires p.lit1.Some?
  {
    if p.lit2.Some? then [p.lit1.value, p.lit2.value] else [p.lit1.value]
  }

  /** `bag` holds all product clauses, and the two factors are independent. */
  ghost predicate Matched(ws: WatchLists, cs: OccClauses, bag: multiset<Clause>, lit: Lit, ms: seq<LitPair>,
                          cls: seq<OccurClause>)
  {
    && |ms| >= 1 && ms[0] == OneLit(lit)
    && (forall i {:trigger ms[i]} :: 0 <= i < |ms| ==> PairOk(ms[i]) && PairSorted(ms[i]))
    && (forall j {:trigger cls[j]} ::
      0 <= j < |cls| ==> cls[j].lit == lit && cls[j].ws in W(ws, lit) && Live(cs, cls[j].ws))
    && Factors(Matches(ms), Bodies(cs, cls))
    && forall i, j {:trigger ms[i], cls[j]} ::
      0 <= i < |ms| && 0 <= j < |cls| ==> PairLits(ms[i]) + Body(cs, cls[j]) in bag
  }

  ghost predicate VarsBelow(bag: multiset<Clause>, units: seq<Lit>, n: nat) {
    && (forall c: Clause, l {:trigger l in c, bag[c]} :: bag[c] > 0 && l in c ==> l.v < n)
    && forall l {:trigger l in units} :: l in units ==> l.v < n
  }

  class BVA {
    const simplifier: OccSimplifier
    var nVars: nat
    var seen: set<Lit>
    /** Slots of `seen2` that are marked; lookups are by hash value. */
    var seen2: set<nat>
    const seen2Size: nat
    var mLits: seq<LitPair>
    var mCls: seq<OccurClause>
    var potential: seq<PotentialClause>
    /** `limit_to_decrease` */
    var limit: int
    var mClsLits: seq<ClsLits>
    /** The irredundant clauses of the lists, with multiplicity. */
    ghost var bag: multiset<Clause>

    constructor (s: OccSimplifier, n: nat, slots: nat, effort: int, ghost stored: multiset<Clause>)
      requires s.ListsOk() && s.OffsetsOk() && slots > 0 && BagOk(s.watches, s.clauses, stored)
        && VarsBelow(stored, s.units, n)
      ensures Valid() && seen2 == {} && simplifier == s && nVars == n && bag == stored
    {
      simplifier, nVars, seen2Size, bag := s, n, slots, stored;
      seen, seen2 := {}, {};
      mLits, mCls, potential, mClsLits, limit := [], [], [], [], effort;
    }

    ghost predicate Valid()
      reads this, simplifier
    {
      && simplifier.ListsOk() && simplifier.OffsetsOk() && seen2Size > 0
      && BagOk(simplifier.watches, simplifier.clauses, bag)
      && VarsBelow(bag, simplifier.units, nVars) && seen == {}
    }

    ghost predicate MatchedNow(lit: Lit)
      reads this, simplifier
    {
      Matched(simplifier.watches, simplifier.clauses, bag, lit, mLits, mCls)
    }

    // ----- adding and removing single clauses -----

    /** `add_clause_int` and, for a long clause, `linkInClause`. */
    method AddClause(lits: seq<Lit>)
      requires Valid() && |lits| >= 2 && DistinctVarsOf(lits) && forall l :: l in lits ==> l.v < nVars
      modifies simplifier`watches, simplifier`clauses, simplifier`nextOffset, `bag
      ensures Valid() && bag == old(bag) + multiset{Lits(lits)}
      ensures CsKept(old(simplifier.clauses), simplifier.clauses)
    {
      hide OccOk, BagOk, Cnt;
      ghost var ws, cs := simplifier.watches, simplifier.clauses;
      if |lits| == 2 {
        assert Lits(lits) == {lits[0], lits[1]};
        BagAttach(ws, cs, bag, lits[0], lits[1]);
        simplifier.AttachBin(lits[0], lits[1]);
      } else {
        ghost var o := simplifier.nextOffset;
        var sorted := simplifier.LinkInClause(lits);
        LinkedCounts(ws, simplifier.watches, o, sorted);
        BagLink(ws, simplifier.watches, cs, bag, o, sorted);
      }
      bag := bag + multiset{Lits(lits)};
    }

    /** `detach_bin_clause` */
    method DetachBinClause(a: Lit, b: Lit)
      requires Valid() && a.v != b.v && {a, b} in bag
      modifies simplifier`watches, `bag
      ensures Valid() && bag == old(bag) - multiset{{a, b}}
    {
      hide OccOk, BagOk, Cnt, WithoutOne;
      ghost var ws, cs := simplifier.watches, simplifier.clauses;
      BinPresent(ws, cs, bag, a, b);
      simplifier.DetachBin(a, Bin(b, false));
      ghost var la :| simplifier.watches == ws[a := la] && WithoutOne(W(ws, a), la, Bin(b, false));
      simplifier.DetachBin(b, Bin(a, false));
      ghost var lb :| simplifier.watches == ws[a := la][b := lb] && WithoutOne(W(ws[a := la], b), lb, Bin(a, false));
      BagDetach(ws, cs, bag, a, b, la, lb);
      DetachedOk(ws, cs, a, b, la, lb);
      bag := bag - multiset{{a, b}};
    }

    /** `unlink_clause`: out of all its lists, and given back. */
    method UnlinkClause(o: nat)
      requires Valid() && o in simplifier.clauses && !simplifier.clauses[o].red
      modifies simplifier`watches, simplifier`clauses, `bag
      ensures Valid() && bag == old(bag) - multiset{Lits(old(simplifier.clauses)[o].lits)}
    {
      hide OccOk, BagOk, DropOff;
      ghost var ws, cs := simplifier.watches, simplifier.clauses;
      var lits := simplifier.clauses[o].lits;
      ClauseDistinct(ws, cs, o);
      for k := 0 to |lits|
        modifies simplifier`watches
        invariant Unlinked(ws, simplifier.watches, o, lits, k)
      {
        UnlinkNext(ws, simplifier.watches, o, lits, k);
        simplifier.watches := simplifier.watches[lits[k] := DropOff(W(simplifier.watches, lits[k]), o)];
      }
      simplifier.clauses := simplifier.clauses - {o};
      UnlinkDone(ws, simplifier.watches, cs, bag, o);
      bag := bag - multiset{Lits(lits)};
    }

    /** The long clause with exactly these literals, from the list of the first. */
    method FindClForBva(torem: seq<Lit>, red: bool) returns (o: nat)
      requires Valid() && |torem| >= 3 && DistinctVarsOf(torem) && Lits(torem) in bag && !red
      modifies `seen
      ensures Valid() && o in simplifier.clauses && !simplifier.clauses[o].red
        && Lits(simplifier.clauses[o].lits) == Lits(torem)
    {
      hide BagOk, Cnt, LongOffs;
      var cs := simplifier.clauses;
      var ws := W(simplifier.watches, torem[0]);
      seen := Lits(torem);
      LongPresent(simplifier.watches, cs, bag, torem);
      ghost var at :| 0 <= at < |ws| && Wanted(cs, ws[at], torem, red);
      o := 0;
      var k: nat := 0;
      while k < |ws|
        modifies {}
        invariant k <= at
        decreases |ws| - k
      {
        var w := ws[k];
        assert w in ws;
        if w.Long? && cs[w.off].red == red && |cs[w.off].lits| == |torem| {
          o := w.off;
          var ok := AllIn(cs[w.off].lits, seen);
          if ok {
            ClauseDistinct(simplifier.watches, cs, o);
            SameSizeSubset(cs[o].lits, torem);
            break;
          }
        }
        k := k + 1;
      }
      seen := {};
    }

    // ----- the exchange -----

    /** The matched clause with the fresh literal in place of the one it was found with. */
    method AddLongerClause(newLit: Lit, c: OccurClause, ghost ws0: WatchLists, ghost cs0: OccClauses)
      requires Valid() && OccOk(ws0, cs0) && c.ws in W(ws0, c.lit) && CsKept(cs0, simplifier.clauses)
      requires newLit.v < nVars && forall l :: l in ClauseOf(cs0, c.lit, c.ws) ==> l.v < nVars && l.v != newLit.v
      modifies simplifier`watches, simplifier`clauses, simplifier`nextOffset, `bag
      ensures Valid() && CsKept(cs0, simplifier.clauses)
      ensures bag == old(bag) + multiset{Body(cs0, c) + {newLit}}
    {
      hide OccOk, BagOk;
      ClauseOfOk(ws0, cs0, c.lit, c.ws);
      EntryInside(ws0, cs0, c);
      var lits: seq<Lit> := [];
      if c.ws.Bin? {
        lits := [newLit, c.ws.lit2];
      } else {
        var orig := simplifier.clauses[c.ws.off].lits;
        for i := 0 to |orig|
          invariant |lits| == i && forall k {:trigger lits[k]} :: 0 <= k < i ==> lits[k] == if orig[k] == c.lit then
            newLit else orig[k]
        {
          lits := lits + [if orig[i] == c.lit then newLit else orig[i]];
        }
      }
      SwappedIn(cs0, c, newLit, lits);
      AddClause(lits);
    }

    /** The literals of the matched clauses, before any is removed. */
    method FillMClsLitsAndRed(lit: Lit, ghost ws0: WatchLists, ghost cs0: OccClauses)
      requires OccOk(ws0, cs0) && CsKept(cs0, simplifier.clauses)
      requires forall j {:trigger mCls[j]} ::
        0 <= j < |mCls| ==> mCls[j].lit == lit && mCls[j].ws in W(ws0, lit) && Live(cs0, mCls[j].ws)
      modifies `mClsLits
      ensures LitsFilled(cs0, mCls, mClsLits, |mCls|)
    {
      hide OccOk, BagOk;
      mClsLits := [];
      for j := 0 to |mCls|
        invariant LitsFilled(cs0, mCls, mClsLits, j)
      {
        var cl := mCls[j];
        var tmp, red := [], false;
        ClauseOfOk(ws0, cs0, lit, cl.ws);
        EntryInside(ws0, cs0, cl);
        if cl.ws.Bin? {
          tmp, red := [cl.ws.lit2], cl.ws.red;
        } else {
          tmp := Others(simplifier.clauses[cl.ws.off].lits, cl.lit);
          red := simplifier.clauses[cl.ws.off].red;
        }
        BodyNotEmpty(cs0, cl);
        assert Lits(tmp) == Body(cs0, cl);
        mClsLits := mClsLits + [ClsLits(tmp, red)];
      }
    }

    /** Takes one product clause out. */
    method RemoveMatchingClause(cl: ClsLits, p: LitPair)
      requires Valid() && PairOk(p) && !cl.red && cl.lits != [] && DistinctVarsOf(PairSeq(p) + cl.lits)
        && PairLits(p) + Lits(cl.lits) in bag
      modifies simplifier`watches, simplifier`clauses, `bag, `seen
      ensures Valid() && bag == old(bag) - multiset{PairLits(p) + Lits(cl.lits)}
    {
      hide OccOk, BagOk;
      var toRemove := PairSeq(p) + cl.lits;
      assert Lits(toRemove) == PairLits(p) + Lits(cl.lits);
      if |toRemove| == 2 {
        assert Lits(toRemove) == {toRemove[0], toRemove[1]};
        DetachBinClause(toRemove[0], toRemove[1]);
      } else {
        var o := FindClForBva(toRemove, cl.red);
        UnlinkClause(o);
      }
    }

    /** One clause for each matching literal: the literal or the fresh one. */
    method AddMatches(x: nat)
      requires Valid() && x + 1 == nVars
        && forall i {:trigger mLits[i]} :: 0 <= i < |mLits| ==> PairOk(mLits[i]) && forall l ::
        l in PairLits(mLits[i]) ==> l.v < x
      modifies simplifier`watches, simplifier`clauses, simplifier`nextOffset, `bag
      ensures Valid() && CsKept(old(simplifier.clauses), simplifier.clauses)
      ensures bag == old(bag) + WithEach(Matches(mLits), Lit(x, false))
    {
      hide OccOk, BagOk, VarsBelow, WithEach;
      ghost var ms := Matches(mLits);
      NoneWith(ms, Lit(x, false));
      for i := 0 to |mLits|
        modifies simplifier`watches, simplifier`clauses, simplifier`nextOffset, `bag
        invariant Valid() && CsKept(old(simplifier.clauses), simplifier.clauses)
        invariant bag == old(bag) + WithEach(ms[..i], Lit(x, false))
      {
        var p := mLits[i];
        var lits := PairSeq(p) + [Lit(x, false)];
        PairWith(p, Lit(x, false));
        WithEachNext(ms, Lit(x, false), i);
        assert forall l :: l in lits ==> l in Lits(lits);
        AddClause(lits);
      }
      assert ms[..|mLits|] == ms;
    }

    /** One clause for each body: the body or the fresh literal negated. */
    method AddBodies(lit: Lit, x: nat, ghost ws0: WatchLists, ghost cs0: OccClauses)
      requires Valid() && x + 1 == nVars && OccOk(ws0, cs0) && CsKept(cs0, simplifier.clauses)
      requires forall j {:trigger mCls[j]} :: 0 <= j < |mCls| ==> mCls[j].lit == lit && mCls[j].ws in W(ws0, lit)
      requires forall j, l {:trigger l in ClauseOf(cs0, lit, mCls[j].ws)} ::
        0 <= j < |mCls| && l in ClauseOf(cs0, lit, mCls[j].ws) ==> l.v < x
      modifies simplifier`watches, simplifier`clauses, simplifier`nextOffset, `bag
      ensures Valid() && CsKept(cs0, simplifier.clauses)
      ensures bag == old(bag) + WithEach(Bodies(cs0, mCls), Lit(x, true))
    {
      hide OccOk, BagOk, VarsBelow, WithEach, Body;
      ghost var bs := Bodies(cs0, mCls);
      NoneWith(bs, Lit(x, true));
      for j := 0 to |mCls|
        modifies simplifier`watches, simplifier`clauses, simplifier`nextOffset, `bag
        invariant Valid() && CsKept(cs0, simplifier.clauses)
        invariant bag == old(bag) + WithEach(bs[..j], Lit(x, true))
      {
        WithEachNext(bs, Lit(x, true), j);
        AddLongerClause(Lit(x, true), mCls[j], ws0, cs0);
      }
      assert bs[..|mCls|] == bs;
    }

    /** All product clauses out, row by row. */
    method RemoveProduct(ghost ms: seq<Clause>, ghost bs: seq<Clause>, ghost bag0: multiset<Clause>)
      requires Valid() && ms == Matches(mLits) && Factors(ms, bs) && |mClsLits| == |bs|
      requires forall i {:trigger mLits[i]} :: 0 <= i < |mLits| ==> PairOk(mLits[i])
      requires forall j {:trigger mClsLits[j]} ::
        0 <= j < |bs| ==>
        !mClsLits[j].red && DistinctVarsOf(mClsLits[j].lits) && mClsLits[j].lits != []
        && Lits(mClsLits[j].lits) == bs[j]
      requires forall i, j {:trigger ms[i], bs[j]} ::
        0 <= i < |ms| && 0 <= j < |bs| ==> bag0[ms[i] + bs[j]] > 0 && PlainClause(ms[i] + bs[j])
      requires bag == bag0
      modifies simplifier`watches, simplifier`clauses, `bag, `seen
      ensures Valid() && bag + Product(ms, bs) == bag0
    {
      hide OccOk, BagOk, Product, Row, VarsBelow, Factors;
      assert Product(ms[..0], bs) == multiset{} by {
        NoProduct(ms, bs);
      }
      for i := 0 to |mLits|
        modifies simplifier`watches, simplifier`clauses, `bag, `seen
        invariant Valid() && bag + Product(ms[..i], bs) == bag0
      {
        NoRow(ms, bs, i);
        for j := 0 to |mClsLits|
          modifies simplifier`watches, simplifier`clauses, `bag, `seen
          invariant Valid() && bag + RemovedSoFar(ms, bs, i, j) == bag0
        {
          var p, cl := mLits[i], mClsLits[j];
          ghost var c := ms[i] + bs[j];
          NotYetRemoved(ms, bs, i, j);
          RemovedNext(ms, bs, i, j);
          assert (bag + RemovedSoFar(ms, bs, i, j))[c] == bag0[c];
          FactorsApart(ms, bs, i, j);
          PairClauseOk(p, cl.lits);
          RemoveMatchingClause(cl, p);
        }
        RemovedRow(ms, bs, i);
      }
      assert ms[..|mLits|] == ms;
    }

    /**
     Replaces the product of matching literals and clause bodies by clauses over a fresh variable: one for each
     matching literal, one for each body.
     */
    method BvaSimplifySystem(lit: Lit)
      requires Valid() && MatchedNow(lit) && mCls != []
      modifies simplifier`watches, simplifier`clauses, simplifier`nextOffset, `bag, `seen, `nVars, `mClsLits
      ensures Valid() && nVars == old(nVars) + 1
      ensures Exchanged(old(bag), bag, Matches(mLits), old(Bodies(simplifier.clauses, mCls)), old(nVars))
      ensures Replaced(old(simplifier.Formula()), simplifier.Formula(), Matches(mLits),
        old(Bodies(simplifier.clauses, mCls)), old(nVars))
      ensures |bag| == |old(bag)| - (|mLits| * |mCls| - |mLits| - |mCls|)
    {
      hide OccOk, BagOk, Product, WithEach, Row, Replaced, Factors, VarsBelow;
      ghost var ws0, cs0, bag0, ms, bs :=
        simplifier.watches, simplifier.clauses, bag, Matches(mLits), Bodies(simplifier.clauses, mCls);
      ghost var f0 := simplifier.Formula();
      var newVar := nVars;
      MatchedVars(ws0, cs0, bag0, simplifier.units, lit, mLits, mCls, nVars);
      MoreVars(bag, simplifier.units, nVars);
      nVars := nVars + 1;
      AddMatches(newVar);
      AddBodies(lit, newVar, ws0, cs0);
      FillMClsLitsAndRed(lit, ws0, cs0);
      ghost var bag1 := bag;
      RemoveProduct(ms, bs, bag1);
      ExchangeCount(bag0, bag, ms, bs, newVar);
      ExchangeFormula(ws0, cs0, bag0, simplifier.watches, simplifier.clauses, bag, simplifier.units, ms, bs, newVar);
    }

    // ----- looking for a product -----

    /** The literals of `a` that `b` does not have, if they are one or two. */
    method LitDiffWatches(a: OccurClause, b: OccurClause) returns (diff: LitPair)
      requires Valid() && a.ws in W(simplifier.watches, a.lit) && b.ws in W(simplifier.watches, b.lit)
      modifies `seen
      ensures Valid()
        && diff == DiffOf(LitsOutside(ClauseOf(simplifier.clauses, a.lit, a.ws),
        ClauseOf(simplifier.clauses, b.lit, b.ws)))
    {
      var la, lb := ClauseOf(simplifier.clauses, a.lit, a.ws), ClauseOf(simplifier.clauses, b.lit, b.ws);
      seen := Lits(lb);
      var num: nat := 0;
      diff := NO_LITS;
      for k := 0 to |la|
        invariant num == |LitsOutside(la[..k], lb)|
        invariant num >= 1 ==> diff.lit1 == Some(LitsOutside(la[..k], lb)[0])
        invariant num == 0 ==> diff == NO_LITS
        invariant num == 1 ==> diff.lit2 == None
        invariant num == 2 ==> diff.lit2 == Some(LitsOutside(la[..k], lb)[1])
      {
        assert la[..k + 1][..k] == la[..k];
        var lit := la[k];
        if lit !in seen {
          if num == 0 {
            diff := LitPair(Some(lit), diff.lit2);
          } else {
            diff := LitPair(diff.lit1, Some(lit));
          }
          num := num + 1;
        }
      }
      assert la[..|la|] == la;
      seen := {};
      if !(1 <= num <= 2) {
        diff := NO_LITS;
      }
    }

    /**
     A literal of the clause, other than the one it was found with and not among the matching ones, with the shortest
     list; there is none only if every other literal of the clause is among the matching ones.
     */
    method LeastOccurringExcept(c: OccurClause) returns (r: Option<Lit>)
      requires Valid() && c.ws in W(simplifier.watches, c.lit)
      modifies `seen
      ensures Valid() && (r.Some? ==> r.value in Body(simplifier.clauses, c))
      ensures r.Some? ==> forall i {:trigger mLits[i]} :: 0 <= i < |mLits| ==> r.value !in PairLits(mLits[i])
      ensures r.Some? <==> HasFree(simplifier.clauses, mLits, c)
      ensures r.Some? ==> forall l {:trigger l in Body(simplifier.clauses, c)} ::
        l in Body(simplifier.clauses, c)
        && (forall i {:trigger mLits[i]} :: 0 <= i < |mLits| ==> l !in PairLits(mLits[i])) ==>
        |W(simplifier.watches, r.value)| <= |W(simplifier.watches, l)|
      ensures r.Some? ==>
        FirstShortest(simplifier.watches, ClauseOf(simplifier.clauses, c.lit, c.ws), c.lit, mLits, r.value)
    {
      hide OccOk, BagOk, VarsBelow, PairLits, Irred;
      for i := 0 to |mLits|
        invariant forall l :: l in seen <==> exists k {:trigger mLits[k]} :: 0 <= k < i && l in PairLits(mLits[k])
      {
        seen := seen + PairLits(mLits[i]);
      }
      r := None;
      var smallest: nat := 0;
      var lits := ClauseOf(simplifier.clauses, c.lit, c.ws);
      for k := 0 to |lits|
        invariant r.Some? ==>
          r.value in lits && r.value != c.lit && r.value !in seen && smallest == |W(simplifier.watches, r.value)|
        invariant forall a {:trigger lits[a]} ::
          0 <= a < k && lits[a] != c.lit && lits[a] !in seen ==>
          r.Some? && |W(simplifier.watches, r.value)| <= |W(simplifier.watches, lits[a])|
        invariant r.Some? ==>
          exists b: nat {:trigger lits[b]} ::
            b < k && lits[b] == r.value
            && forall a {:trigger lits[a]} ::
                 0 <= a < b && lits[a] != c.lit && lits[a] !in seen ==>
                   |W(simplifier.watches, r.value)| < |W(simplifier.watches, lits[a])|
      {
        if lits[k] != c.lit && lits[k] !in seen {
          var size := |W(simplifier.watches, lits[k])|;
          if r == None || size < smallest {
            r, smallest := Some(lits[k]), size;
          }
        }
      }
      seen := {};
    }

    /**
     One candidate: if it differs from the clause in just the literal against one or two others, those are recorded,
     unless a pair with the same hash value is there.
     */
    method ConsiderPair(c: OccurClause, d: OccurClause, lit: Lit, thisCl: seq<LitPair>, twoLit: bool)
      returns (thisCl': seq<LitPair>)
      requires Valid() && ClausesSorted(simplifier.clauses) && seen2 == HashesOf(thisCl, seen2Size)
      requires c.lit == lit && c.ws in W(simplifier.watches, lit) && Live(simplifier.clauses, c.ws)
      requires d.ws in W(simplifier.watches, d.lit) && d.lit in Body(simplifier.clauses, c)
      modifies `seen, `seen2, `limit, `potential
      ensures Valid() && limit == old(limit) - 3 * (|thisCl'| - |thisCl|) && seen2 == HashesOf(thisCl', seen2Size)
      ensures
        || (thisCl' == thisCl && potential == old(potential))
        || exists p ::
          p !in thisCl && Candidate(simplifier.clauses, bag, c, p, twoLit) && thisCl' == thisCl + [p]
          && potential == old(potential) + [PotentialClause(p, c)]
      ensures forall p: LitPair {:trigger Hash(p, seen2Size)} ::
        PartnerBy(simplifier.clauses, c, d, p, twoLit) ==> Hash(p, seen2Size) in HashesOf(thisCl', seen2Size)
    {
      hide OccOk, BagOk, VarsBelow, Matched, DiffPair, ClausesSorted, Hash, PartnerBy, ClauseOf;
      PartnerFits(simplifier.watches, simplifier.clauses, c, d, twoLit);
      thisCl' := thisCl;
      var cs := simplifier.clauses;
      var szC, szD := |ClauseOf(cs, c.lit, c.ws)|, |ClauseOf(cs, d.lit, d.ws)|;
      if c.ws == d.ws || !(szC == szD || (szC + 1 == szD && twoLit)) || !Live(cs, d.ws) {
        return;
      }
      var there := LitDiffWatches(c, d);
      if there != OneLit(lit) {
        return;
      }
      var diff := LitDiffWatches(d, c);
      DiffFound(simplifier.watches, cs, bag, c, d, diff);
      TwoOnlyLonger(simplifier.watches, cs, c, d, diff);
      if Hash(diff, seen2Size) !in seen2 {
        assert diff !in thisCl;
        limit := limit - 3;
        potential := potential + [PotentialClause(diff, c)];
        thisCl' := thisCl + [diff];
        seen2 := seen2 + {Hash(diff, seen2Size)};
      }
    }

    /** For each matched clause, the literals that could stand in place of `lit` in some other clause. */
    method FillPotential(lit: Lit, twoLit: bool)
      requires Valid() && ClausesSorted(simplifier.clauses) && MatchedNow(lit) && seen2 == {} && potential == []
      modifies `seen, `seen2, `limit, `potential
      ensures Valid() && seen2 == {} && limit <= old(limit) && (mCls != [] && old(limit) >= 0 ==> limit < old(limit))
      ensures PotentialOk(simplifier.clauses, bag, mLits, mCls, potential, |mCls|) && PairsAllowed(potential, twoLit)
      ensures limit >= 0 ==> AllFound(simplifier.clauses, bag, mLits, mCls, potential, twoLit, seen2Size, |mCls|)
    {
      hide OccOk, BagOk, VarsBelow, Factors, DiffPair, ClausesSorted, AllFound, PairsAllowed;
      NoneAllowed(twoLit);
      NoneFound(simplifier.clauses, bag, mLits, mCls, potential, twoLit, seen2Size);
      for j := 0 to |mCls|
        modifies `seen, `seen2, `limit, `potential
        invariant Valid() && seen2 == {} && limit <= old(limit) && (j > 0 && old(limit) >= 0 ==> limit < old(limit))
        invariant PotentialOk(simplifier.clauses, bag, mLits, mCls, potential, j) && PairsAllowed(potential, twoLit)
        invariant limit >= 0 ==> AllFound(simplifier.clauses, bag, mLits, mCls, potential, twoLit, seen2Size, j)
      {
        if limit < 0 {
          MorePotential(simplifier.clauses, bag, mLits, mCls, potential, j, |mCls|);
          break;
        }
        limit := limit - |mLits|;
        ghost var pots := potential;
        FillFor(lit, j, twoLit);
        if limit >= 0 {
          FoundNext(simplifier.clauses, bag, mLits, mCls, pots, potential, twoLit, seen2Size, j);
        }
      }
    }

    method FillFor(lit: Lit, j: nat, twoLit: bool)
      requires Valid() && ClausesSorted(simplifier.clauses) && MatchedNow(lit) && seen2 == {} && j < |mCls|
      requires PotentialOk(simplifier.clauses, bag, mLits, mCls, potential, j) && PairsAllowed(potential, twoLit)
      modifies `seen, `seen2, `limit, `potential
      ensures Valid() && seen2 == {} && limit <= old(limit) && old(potential) <= potential
      ensures PotentialOk(simplifier.clauses, bag, mLits, mCls, potential, j + 1) && PairsAllowed(potential, twoLit)
      ensures limit >= 0 ==> FoundFor(simplifier.clauses, bag, mLits, potential, mCls[j], twoLit, seen2Size)
    {
      hide OccOk, BagOk, VarsBelow, Factors, DiffPair, ClausesSorted, PairsAllowed, HasFree, Candidate, Taken;
      var c := mCls[j];
      StartPotential(simplifier.clauses, bag, mLits, mCls, potential, j);
      MorePotential(simplifier.clauses, bag, mLits, mCls, potential, j, j + 1);
      var lMin := LeastOccurringExcept(c);
      if lMin == None {
        return;
      }
      limit := limit - |mLits|;
      MarkPairs(mLits);
      var thisCl := ScanList(lit, j, lMin.value, twoLit);
      FoundThis(simplifier.clauses, bag, mLits, mCls, potential, j, twoLit, seen2Size, thisCl);
      UnmarkPairs(thisCl);
    }

    method MarkPairs(ps: seq<LitPair>)
      requires seen2Size > 0 && seen2 == {}
      modifies `seen2
      ensures seen2 == HashesOf(ps, seen2Size)
    {
      for i := 0 to |ps|
        invariant seen2 == HashesOf(ps[..i], seen2Size)
      {
        HashesNext(ps, i, seen2Size);
        seen2 := seen2 + {Hash(ps[i], seen2Size)};
      }
      assert ps[..|ps|] == ps;
    }

    method UnmarkPairs(ps: seq<LitPair>)
      requires seen2Size > 0 && seen2 == HashesOf(ps, seen2Size)
      modifies `seen2
      ensures seen2 == {}
    {
      for i := 0 to |ps|
        invariant seen2 <= HashesOf(ps[i..], seen2Size)
      {
        HashesRest(ps, i, seen2Size);
        seen2 := seen2 - {Hash(ps[i], seen2Size)};
      }
      assert ps[|ps|..] == [];
    }

    /** The candidates for clause `j` in one list; the result is what has been marked. */
    method ScanList(lit: Lit, j: nat, lMin: Lit, twoLit: bool) returns (thisCl: seq<LitPair>)
      requires Valid() && ClausesSorted(simplifier.clauses) && j < |mCls| && lMin in Body(simplifier.clauses, mCls[j])
        && seen2 == HashesOf(mLits, seen2Size)
      requires mCls[j].lit == lit && mCls[j].ws in W(simplifier.watches, lit) && Live(simplifier.clauses, mCls[j].ws)
      requires ThisClause(mLits, mCls, potential, j, mLits) && PairsAllowed(potential, twoLit)
        && PotentialOk(simplifier.clauses, bag, mLits, mCls, potential, j + 1)
      modifies `seen, `seen2, `limit, `potential
      ensures Valid() && limit <= old(limit) && seen2 == HashesOf(thisCl, seen2Size) && old(potential) <= potential
      ensures PotentialOk(simplifier.clauses, bag, mLits, mCls, potential, j + 1) && PairsAllowed(potential, twoLit)
        && ThisClause(mLits, mCls, potential, j, thisCl)
      ensures limit >= 0 ==>
        forall p: LitPair {:trigger Candidate(simplifier.clauses, bag, mCls[j], p, twoLit)} ::
          Candidate(simplifier.clauses, bag, mCls[j], p, twoLit) ==>
          Hash(p, seen2Size) in HashesOf(thisCl, seen2Size)
    {
      hide OccOk, BagOk, VarsBelow, PotentialOk, ThisClause, DiffPair, ClausesSorted, Live, Body, PairsAllowed, Hash,
        HashesOf, PartnerBy;
      thisCl := mLits;
      var ws := W(simplifier.watches, lMin);
      limit := limit - 3 * |ws|;
      for k := 0 to |ws|
        modifies `seen, `seen2, `limit, `potential
        invariant Valid() && limit <= old(limit) && seen2Size > 0 && seen2 == HashesOf(thisCl, seen2Size)
          && ThisClause(mLits, mCls, potential, j, thisCl) && old(potential) <= potential
        invariant PotentialOk(simplifier.clauses, bag, mLits, mCls, potential, j + 1) && PairsAllowed(potential, twoLit)
        invariant limit >= 0 ==> Scanned(simplifier.clauses, mCls[j], lMin, ws, k, twoLit, thisCl, seen2Size)
      {
        if limit < 0 {
          break;
        }
        ghost var pots, before := potential, thisCl;
        thisCl := ConsiderPair(mCls[j], OccurClause(lMin, ws[k]), lit, thisCl, twoLit);
        LongerDiffers(before);
        if thisCl != before {
          ghost var p :| p !in before && Candidate(simplifier.clauses, bag, mCls[j], p, twoLit)
            && thisCl == before + [p] && potential == pots + [PotentialClause(p, mCls[j])];
          PotentialNext(simplifier.clauses, bag, mLits, mCls, pots, j, before, p);
          AllowedNext(pots, p, mCls[j], twoLit);
        }
        ScannedNext(simplifier.clauses, mCls[j], lMin, ws, k, twoLit, before, thisCl, seen2Size);
      }
      if limit >= 0 {
        ScannedAll(simplifier.watches, simplifier.clauses, bag, mCls[j], lMin, twoLit, thisCl, seen2Size);
      }
    }

    // ----- the search -----

    method SortPotential()
      modifies `potential
      ensures Reordered(old(potential), potential) && RunsTogether(potential) && PairsInOrder(potential)
    {
      var pots := potential;
      var keys := seq(|pots|, i requires 0 <= i < |pots| => PairKey(pots[i].lits));
      var at := SortIndices(keys);
      potential := seq(|at|, i requires 0 <= i < |at| => pots[at[i]]);
      assert ReorderedBy(pots, potential, at);
      KeysGroup(pots, keys, at, potential);
    }

    /** Sorts the candidates and counts runs: the pair that occurs most often, the last of those. */
    method MostOccuringLitInPotential() returns (most: LitPair, largest: nat)
      requires forall a {:trigger potential[a]} :: 0 <= a < |potential| ==> potential[a].lits != NO_LITS
      modifies `potential
      ensures Reordered(old(potential), potential) && PairsInOrder(potential)
      ensures largest > 0 ==> LastBest(potential, most)
      ensures largest == CountOf(potential, most) && forall p :: CountOf(potential, p) <= largest
    {
      hide LastBestBut, PairsInOrder;
      SortPotential();
      NothingYet();
      SomeLits(old(potential), potential);
      var pots := potential;
      NoneCounted(pots);
      largest, most := 0, NO_LITS;
      var last, num: nat := NO_LITS, 0;
      for i := 0 to |pots|
        modifies {}
        invariant last == if i == 0 then NO_LITS else pots[i - 1].lits
        invariant i > 0 ==> most != last
        invariant num == CountOf(pots[..i], last) && largest == CountOf(pots[..i], most)
        invariant forall p {:trigger CountOf(pots[..i], p)} :: p != last ==> CountOf(pots[..i], p) <= largest
        invariant i == 0 ==> most == NO_LITS
        invariant LastBestBut(pots[..i], most, last)
      {
        CountNext(pots, i);
        var pot := pots[i];
        if last != pot.lits {
          NewRun(pots, i);
          RunEnds(pots, i, most, last);
          if num >= largest {
            largest, most := num, last;
          }
          last, num := pot.lits, 1;
        } else {
          num := num + 1;
        }
        RunGrows(pots, i, most);
      }
      assert pots[..|pots|] == pots;
      RunEnds(pots, |pots|, most, last);
      if num >= largest {
        largest, most := num, last;
      }
    }

    /** Sorts the clauses and drops each that equals its predecessor, and each long one of another length than it. */
    method RemoveDuplicatesFromMCls(lit: Lit)
      requires Valid() && ClausesSorted(simplifier.clauses)
        && forall c ::
        c in mCls ==> c.lit == lit && c.ws in W(simplifier.watches, lit) && Live(simplifier.clauses, c.ws)
      modifies `mCls
      ensures (forall c :: c in mCls ==> c in old(mCls)) && DistinctBodies(simplifier.clauses, mCls)
      ensures forall c ::
        c in old(mCls) ==> (Represented(simplifier.clauses, mCls, c) <==> Shortest(simplifier.clauses, old(mCls), c))
      ensures (forall c :: c in old(mCls) ==> Represented(simplifier.clauses, mCls, c)) <==>
        OneLength(simplifier.clauses, old(mCls))
    {
      hide OccOk, BagOk, VarsBelow, LexLess, LexLe, ClauseKey, KeysIncrease, KeysSorted, DropsNext, Live,
        DistinctBodies, ClausesSorted, Represented, Shortest, OneLength, ClauseOf;
      ShortestAll(simplifier.clauses, mCls);
      if |mCls| <= 1 {
        AtMostOne(simplifier.clauses, mCls);
        return;
      }
      var cs, cls := simplifier.clauses, mCls;
      var keys := seq(|cls|, i requires 0 <= i < |cls| => ClauseKey(cs, cls[i]));
      var at := SortIndices(keys);
      var sorted := seq(|at|, i requires 0 <= i < |at| => cls[at[i]]);
      SortedByKey(cs, cls, keys, at, sorted);
      var kept := DropDuplicates(sorted, lit);
      KeysDistinct(simplifier.watches, cs, bag, lit, kept);
      KeptBodies(simplifier.watches, cs, lit, cls, sorted, kept);
      mCls := kept;
    }

    method DropDuplicates(sorted: seq<OccurClause>, lit: Lit) returns (kept: seq<OccurClause>)
      requires sorted != [] && KeysSorted(simplifier.clauses, sorted) && forall c :: c in sorted ==> c.lit == lit
      ensures KeysIncrease(simplifier.clauses, kept) && KeepsBodies(simplifier.clauses, sorted, kept)
      ensures forall c :: c in kept ==> c in sorted
    {
      hide LexLess, LexLe, ClauseKey, KeysIncrease, KeysSorted, DropsNext, KeepsBodies, Represented;
      var cs := simplifier.clauses;
      kept := [sorted[0]];
      OneKey(cs, kept);
      assert sorted[..1] == kept;
      KeepsFirst(cs, kept);
      for i := 0 to |sorted| - 1
        invariant kept != [] && kept[|kept| - 1] in sorted[..i + 1] && (forall c :: c in kept ==> c in sorted)
        invariant KeysIncrease(cs, kept) && KeepsBodies(cs, sorted[..i + 1], kept)
      {
        var prev, next := kept[|kept| - 1], sorted[i + 1];
        assert sorted[..i + 2] == sorted[..i + 1] + [next];
        KeyBefore(cs, sorted, i + 1, prev);
        KeepsNext(cs, sorted[..i + 1], kept, next);
        if !DropsNext(cs, prev, next) {
          KeyDiffers(cs, prev, next);
          KeysNext(cs, kept, next);
          kept := kept + [next];
        }
      }
      assert sorted[..|sorted|] == sorted;
    }

    predicate SimplifiesSystem(numOccur: nat)
      reads `mLits, `mCls
    {
      if |mLits| == 1 then numOccur >= 2
      else
        var now, next := SimplificationSize(|mLits|, |mCls|), SimplificationSize(|mLits| + 1, numOccur);
        next > 0 && next >= now
    }

    /**
     Collects a product around the literal and, if that makes the formula smaller, replaces it: all models over the old
     variables are kept and there are fewer clauses. With effort left, the product is the one the search ends with, and
     nothing changes only if that saves no clause.
     */
    method TryBvaOnLit(lit: Lit, twoLit: bool) returns (ghost rounds: seq<Round>)
      requires Valid() && ClausesSorted(simplifier.clauses) && seen2 == {}
      modifies simplifier`watches, simplifier`clauses, simplifier`nextOffset, `bag, `seen, `seen2, `nVars, `mClsLits,
        `mLits, `mCls, `potential, `limit
      ensures Valid() && seen2 == {}
      ensures limit >= 0 ==>
        SearchRun(old(simplifier.watches), old(simplifier.clauses), old(bag), lit, twoLit, seen2Size, rounds)
        && rounds[|rounds| - 1] == Round(mLits, mCls, potential) && NoneSaves(potential, |mLits|, |mCls|)
      ensures if limit < 0 || SimplificationSize(|mLits|, |mCls|) <= 0 then
          simplifier.Formula() == old(simplifier.Formula()) && bag == old(bag) && nVars == old(nVars)
        else
          nVars == old(nVars) + 1 && |bag| < |old(bag)| && |bag| == |old(bag)| - SimplificationSize(|mLits|, |mCls|)
          && forall m: Model {:trigger FormulaTrue(m, old(simplifier.Formula()))} ::
               FormulaTrue(m, old(simplifier.Formula())) <==>
                 exists m': Model :: FormulaTrue(m', simplifier.Formula()) && SameBut(m, m', old(nVars))
    {
      hide OccOk, BagOk, VarsBelow, Matched, ClausesSorted, Replaced, Exchanged, SearchRun, FirstClauses, Follows,
        CandidatesOf, NoneSaves;
      ghost var ws, cs := simplifier.watches, simplifier.clauses;
      var late;
      late, rounds := FindProduct(lit, twoLit);
      if late || SimplificationSize(|mLits|, |mCls|) <= 0 {
        return;
      }
      ghost var f0, n0 := simplifier.Formula(), nVars;
      ghost var ms, bs := Matches(mLits), Bodies(cs, mCls);
      MatchesSome(ws, cs, bag, lit, mLits, mCls);
      NewVarUnused(simplifier.watches, cs, bag, simplifier.units, nVars);
      BvaSimplifySystem(lit);
      AllModels(f0, simplifier.Formula(), ms, bs, n0);
    }

    /** The search: the product grows as long as there is a pair that saves a clause. */
    method FindProduct(lit: Lit, twoLit: bool) returns (late: bool, ghost rounds: seq<Round>)
      requires Valid() && ClausesSorted(simplifier.clauses) && seen2 == {}
      modifies `seen, `seen2, `mLits, `mCls, `potential, `limit
      ensures Valid() && seen2 == {} && MatchedNow(lit) && (late <==> limit < 0)
      ensures !late ==>
        SearchRun(simplifier.watches, simplifier.clauses, bag, lit, twoLit, seen2Size, rounds)
        && rounds[|rounds| - 1] == Round(mLits, mCls, potential) && NoneSaves(potential, |mLits|, |mCls|)
    {
      hide OccOk, BagOk, VarsBelow, Matched, ClausesSorted, SearchRun, FirstClauses, Follows, CandidatesOf, NoneSaves,
        DistinctBodies, Represented, Shortest, OneLength;
      ghost var ws, cs := simplifier.watches, simplifier.clauses;
      mLits := [OneLit(lit)];
      CollectClauses(lit);
      ghost var all := mCls;
      RemoveDuplicatesFromMCls(lit);
      MatchedStarts(simplifier.watches, cs, bag, lit, mCls);
      FirstOf(ws, cs, lit, all, mCls);
      late, rounds := false, [];
      var grown := true;
      while grown
        modifies `seen, `seen2, `mLits, `mCls, `potential, `limit
        invariant Valid() && seen2 == {} && MatchedNow(lit) && (!grown ==> (late <==> limit < 0))
        invariant grown ==> Searching(ws, cs, bag, lit, twoLit, seen2Size, rounds, mLits, mCls)
        invariant !grown && !late ==>
          SearchRun(ws, cs, bag, lit, twoLit, seen2Size, rounds) && rounds != []
          && rounds[|rounds| - 1] == Round(mLits, mCls, potential) && NoneSaves(potential, |mLits|, |mCls|)
        decreases grown, if limit >= 0 then limit + 1 else 0
      {
        ghost var ms, cls := mLits, mCls;
        grown, late := GrowProduct(lit, twoLit);
        if !late {
          RunNext(ws, cs, bag, lit, twoLit, seen2Size, rounds, Round(ms, cls, potential));
          rounds := rounds + [Round(ms, cls, potential)];
        }
      }
    }

    /**
     One turn of the search: the candidates, and the best pair if it pays off. With effort left, the product stays as it
     is only if no pair saves a clause.
     */
    method GrowProduct(lit: Lit, twoLit: bool) returns (grown: bool, late: bool)
      requires Valid() && ClausesSorted(simplifier.clauses) && seen2 == {} && MatchedNow(lit)
      modifies `seen, `seen2, `mLits, `mCls, `potential, `limit
      ensures Valid() && seen2 == {} && MatchedNow(lit) && limit <= old(limit)
      ensures late <==> limit < 0
      ensures grown ==> !late && (old(limit) >= 0 ==> limit < old(limit))
      ensures !late ==>
        CandidatesOf(simplifier.clauses, bag, old(mLits), old(mCls), potential, twoLit, seen2Size)
      ensures grown ==>
        Follows(Round(old(mLits), old(mCls), potential), Round(mLits, mCls, []))
      ensures !grown ==> mLits == old(mLits) && mCls == old(mCls)
      ensures !grown && !late ==> NoneSaves(potential, |mLits|, |mCls|)
    {
      hide OccOk, BagOk, VarsBelow, Matched, DiffPair, ClausesSorted, PotentialOk, Reordered, CountOf, AllFound,
        PairsAllowed, CandidatesOf, RecordedWith, LastBest, PairsInOrder;
      ghost var cs := simplifier.clauses;
      potential := [];
      NoPotential(cs, bag, mLits, mCls);
      FillPotential(lit, twoLit);
      if limit < 0 {
        return false, true;
      }
      ghost var pots := potential;
      PotentialSome(cs, bag, mLits, mCls, potential);
      var lMax, numOccur := MostOccuringLitInPotential();
      ReorderedOk(cs, bag, mLits, mCls, pots, potential, |mCls|);
      FoundCandidates(simplifier.watches, cs, bag, lit, mLits, mCls, pots, potential, twoLit, seen2Size);
      SavesSome(simplifier.watches, cs, bag, lit, mLits, mCls, numOccur);
      if !SimplifiesSystem(numOccur) {
        FewerSave(potential, |mLits|, |mCls|, numOccur);
        return false, false;
      }
      PotentialDistinct(cs, bag, mLits, mCls, potential);
      var newCls := ClausesWith(lMax);
      RecordedIn(potential, lMax, newCls);
      MatchedNext(simplifier.watches, cs, bag, lit, mLits, mCls, potential, lMax, newCls);
      mLits := mLits + [lMax];
      mCls := newCls;
      assert NextRound(Round(old(mLits), old(mCls), potential), Round(mLits, mCls, []), lMax);
      return true, false;
    }

    /** The irredundant clauses of the list. */
    method CollectClauses(lit: Lit)
      modifies `mCls
      ensures forall c {:trigger c in mCls} ::
        c in mCls <==> c.lit == lit && c.ws in W(simplifier.watches, lit) && Live(simplifier.clauses, c.ws)
    {
      mCls := [];
      var ws := W(simplifier.watches, lit);
      for k := 0 to |ws|
        modifies `mCls
        invariant forall c {:trigger c in mCls} ::
          c in mCls <==> c.lit == lit && c.ws in ws[..k] && Live(simplifier.clauses, c.ws)
      {
        assert ws[..k + 1] == ws[..k] + [ws[k]];
        if Live(simplifier.clauses, ws[k]) {
          mCls := mCls + [OccurClause(lit, ws[k])];
        }
      }
      assert ws[..|ws|] == ws;
    }

    /** The clauses recorded with the pair. */
    method ClausesWith(p: LitPair) returns (cls: seq<OccurClause>)
      ensures RecordedWith(potential, p, cls)
      ensures (forall a, b {:trigger potential[a], potential[b]} ::
        0 <= a < b < |potential| ==> potential[a] != potential[b]) ==>
        forall a, b {:trigger cls[a], cls[b]} :: 0 <= a < b < |cls| ==> cls[a] != cls[b]
    {
      cls := [];
      ghost var from: seq<nat> := [];
      for k := 0 to |potential|
        invariant |cls| == |from| == CountOf(potential[..k], p)
        invariant forall a {:trigger from[a]} ::
          0 <= a < |from| ==> from[a] < k && potential[from[a]] == PotentialClause(p, cls[a])
        invariant forall a, b {:trigger from[a], from[b]} :: 0 <= a < b < |from| ==> from[a] < from[b]
        invariant forall a {:trigger potential[a]} ::
          0 <= a < k && potential[a].lits == p ==> potential[a].occurCl in cls
      {
        assert potential[..k + 1][..k] == potential[..k];
        if potential[k].lits == p {
          assert potential[k] == PotentialClause(p, potential[k].occurCl);
          cls := cls + [potential[k].occurCl];
          from := from + [k];
        }
      }
      assert potential[..|potential|] == potential;
      forall c
        ensures c in cls <==> PotentialClause(p, c) in potential
      {
        if c in cls {
          var a :| 0 <= a < |cls| && cls[a] == c;
          assert potential[from[a]] == PotentialClause(p, c);
        }
        if PotentialClause(p, c) in potential {
          var a :| 0 <= a < |potential| && potential[a] == PotentialClause(p, c);
        }
      }
      forall a, b | 0 <= a < b < |cls|
        && (forall a, b {:trigger potential[a], potential[b]} ::
        0 <= a < b < |potential| ==> potential[a] != potential[b])
        ensures cls[a] != cls[b]
      {
        assert potential[from[a]] != potential[from[b]];
      }
    }
  }

  // ----- duplicates -----

  /**
   The order in which clauses are compared: binary ones by their other literal, long ones by length, then literal by
   literal.
   */
  function ClauseKey(cs: OccClauses, c: OccurClause): seq<nat> {
    if c.ws.Bin? then [0, ToInt(c.ws.lit2)] else [1, |ClauseOf(cs, c.lit, c.ws)|] + LitInts(ClauseOf(cs, c.lit, c.ws))
  }

  function LitInts(s: seq<Lit>): (r: seq<nat>)
    ensures |r| == |s| && forall i {:trigger r[i]} :: 0 <= i < |s| ==> r[i] == ToInt(s[i])
  {
    seq(|s|, i requires 0 <= i < |s| => ToInt(s[i]))
  }

  ghost predicate DistinctBodies(cs: OccClauses, cls: seq<OccurClause>) {
    forall i, j {:trigger cls[i], cls[j]} :: 0 <= i < j < |cls| ==> Body(cs, cls[i]) != Body(cs, cls[j])
  }

  ghost predicate KeysIncrease(cs: OccClauses, cls: seq<OccurClause>) {
    forall i, j {:trigger cls[i], cls[j]} ::
      0 <= i < j < |cls| ==> LexLess(ClauseKey(cs, cls[i]), ClauseKey(cs, cls[j]))
  }

  ghost predicate KeysSorted(cs: OccClauses, cls: seq<OccurClause>) {
    forall i, j {:trigger cls[i], cls[j]} :: 0 <= i < j < |cls| ==> LexLe(ClauseKey(cs, cls[i]), ClauseKey(cs, cls[j]))
  }

  lemma SortedByKey(cs: OccClauses, cls: seq<OccurClause>, keys: seq<seq<nat>>, at: seq<nat>, sorted: seq<OccurClause>)
    requires |keys| == |cls| && (forall i {:trigger keys[i]} :: 0 <= i < |cls| ==> keys[i] == ClauseKey(cs, cls[i]))
      && Ordered(keys, at)
    requires |sorted| == |at| && forall i {:trigger sorted[i]} :: 0 <= i < |at| ==> sorted[i] == cls[at[i]]
    requires forall k: nat :: k < |keys| ==> k in at
    ensures KeysSorted(cs, sorted) && forall c :: c in sorted <==> c in cls
  {
    hide LexLess, LexLe, ClauseKey;
    forall c | c in cls
      ensures c in sorted
    {
      var k: nat :| k < |cls| && cls[k] == c;
      assert k in at;
      var i :| 0 <= i < |at| && at[i] == k;
      assert sorted[i] == c;
    }
    forall i, j | 0 <= i < j < |sorted|
      ensures LexLe(ClauseKey(cs, sorted[i]), ClauseKey(cs, sorted[j]))
    {
      assert LexLe(keys[at[i]], keys[at[j]]);
    }
  }

  lemma KeyBefore(cs: OccClauses, sorted: seq<OccurClause>, i: nat, prev: OccurClause)
    requires KeysSorted(cs, sorted) && i < |sorted| && prev in sorted[..i]
    ensures LexLe(ClauseKey(cs, prev), ClauseKey(cs, sorted[i]))
  {
    hide LexLess, LexLe, ClauseKey;
    var k :| 0 <= k < i && sorted[..i][k] == prev;
    assert LexLe(ClauseKey(cs, sorted[k]), ClauseKey(cs, sorted[i]));
  }

  /** Whether the next clause in the order is dropped: it equals the one before, or is a long one of another length. */
  predicate DropsNext(cs: OccClauses, prev: OccurClause, next: OccurClause) {
    if prev.ws.Bin? != next.ws.Bin? then false
    else if prev.ws.Bin? then prev.ws.lit2 == next.ws.lit2
    else
      var a, b := ClauseOf(cs, prev.lit, prev.ws), ClauseOf(cs, next.lit, next.ws);
      |a| != |b| || a == b
  }

  /** Some clause of the list has the same body. */
  ghost predicate Represented(cs: OccClauses, cls: seq<OccurClause>, c: OccurClause) {
    exists d {:trigger Body(cs, d)} :: d in cls && Body(cs, d) == Body(cs, c)
  }

  function Length(cs: OccClauses, c: OccurClause): nat {
    |ClauseOf(cs, c.lit, c.ws)|
  }

  /** A binary clause, or a long one that no long one of the list is shorter than. */
  ghost predicate Shortest(cs: OccClauses, cls: seq<OccurClause>, c: OccurClause) {
    c.ws.Long? ==> forall d {:trigger Length(cs, d)} :: d in cls && d.ws.Long? ==> Length(cs, c) <= Length(cs, d)
  }

  /** All long clauses of the list are equally long. */
  ghost predicate OneLength(cs: OccClauses, cls: seq<OccurClause>) {
    forall c, d {:trigger Length(cs, c), Length(cs, d)} ::
      c in cls && d in cls && c.ws.Long? && d.ws.Long? ==> Length(cs, c) == Length(cs, d)
  }

  lemma ShortestAll(cs: OccClauses, cls: seq<OccurClause>)
    ensures OneLength(cs, cls) <==> forall c :: c in cls ==> Shortest(cs, cls, c)
  {
    if forall c :: c in cls ==> Shortest(cs, cls, c) {
      forall c, d | c in cls && d in cls && c.ws.Long? && d.ws.Long?
        ensures Length(cs, c) == Length(cs, d)
      {
        assert Shortest(cs, cls, c) && Shortest(cs, cls, d);
      }
    }
  }

  /** What the clauses kept so far say about the ones looked at. */
  ghost predicate KeepsBodies(cs: OccClauses, seen: seq<OccurClause>, kept: seq<OccurClause>) {
    && kept != [] && (forall c :: c in kept ==> c in seen)
    && var prev := kept[|kept| - 1];
    && (forall c {:trigger Length(cs, c)} ::
      c in seen && c.ws.Long? ==> prev.ws.Long? && Length(cs, prev) <= Length(cs, c))
    && (forall c {:trigger Length(cs, c)} :: c in kept && c.ws.Long? ==> Length(cs, c) == Length(cs, prev))
    && forall c {:trigger Represented(cs, kept, c)} ::
      c in seen && (c.ws.Long? ==> Length(cs, c) == Length(cs, prev)) ==> Represented(cs, kept, c)
  }

  lemma KeepsFirst(cs: OccClauses, kept: seq<OccurClause>)
    requires |kept| == 1
    ensures KeepsBodies(cs, kept, kept)
  {
    assert Body(cs, kept[0]) == Body(cs, kept[0]) && kept[0] in kept;
  }

  lemma KeptLonger(cs: OccClauses, kept: seq<OccurClause>, next: OccurClause, c: OccurClause)
    requires Represented(cs, kept, c)
    ensures Represented(cs, kept + [next], c)
  {
    var d :| d in kept && Body(cs, d) == Body(cs, c);
    assert d in kept + [next];
  }

  lemma DroppedRepresented(cs: OccClauses, prev: OccurClause, next: OccurClause)
    requires DropsNext(cs, prev, next) && next.lit == prev.lit
      && (next.ws.Long? ==> Length(cs, next) == Length(cs, prev))
    ensures Body(cs, next) == Body(cs, prev)
  {
  }

  lemma KeysRise(cs: OccClauses, prev: OccurClause, next: OccurClause)
    requires LexLe(ClauseKey(cs, prev), ClauseKey(cs, next)) && prev.ws.Long?
    ensures next.ws.Long? && Length(cs, prev) <= Length(cs, next)
  {
    var k, n := ClauseKey(cs, prev), ClauseKey(cs, next);
    assert k[0] == 1 && k[1..][0] == Length(cs, prev) && n[0] <= 1;
    if k == n {
      assert k[1] == n[1];
    } else {
      assert n[0] == 1 && LexLess(k[1..], n[1..]);
      assert n[1..][0] == Length(cs, next);
    }
  }

  lemma KeepsNext(cs: OccClauses, seen: seq<OccurClause>, kept: seq<OccurClause>, next: OccurClause)
    requires KeepsBodies(cs, seen, kept) && next.lit == kept[|kept| - 1].lit
    requires LexLe(ClauseKey(cs, kept[|kept| - 1]), ClauseKey(cs, next))
    ensures KeepsBodies(cs, seen + [next], if DropsNext(cs, kept[|kept| - 1], next) then kept else kept + [next])
  {
    assert kept != [];
    hide LexLe, ClauseKey, KeepsBodies;
    if DropsNext(cs, kept[|kept| - 1], next) {
      KeepsDropped(cs, seen, kept, next);
    } else {
      KeepsAppended(cs, seen, kept, next);
    }
  }

  lemma KeepsDropped(cs: OccClauses, seen: seq<OccurClause>, kept: seq<OccurClause>, next: OccurClause)
    requires KeepsBodies(cs, seen, kept) && next.lit == kept[|kept| - 1].lit && DropsNext(cs, kept[|kept| - 1], next)
    requires LexLe(ClauseKey(cs, kept[|kept| - 1]), ClauseKey(cs, next))
    ensures KeepsBodies(cs, seen + [next], kept)
  {
    hide LexLe, ClauseKey, Represented, Body;
    var prev := kept[|kept| - 1];
    if prev.ws.Long? {
      KeysRise(cs, prev, next);
    }
    if next.ws.Long? ==> Length(cs, next) == Length(cs, prev) {
      DroppedRepresented(cs, prev, next);
      Represents(cs, kept, prev, next);
    }
    hide DropsNext, ClauseOf, Length;
    forall c | c in seen + [next] && (c.ws.Long? ==> Length(cs, c) == Length(cs, prev))
      ensures Represented(cs, kept, c)
    {
      assert c in seen || c == next;
    }
    forall c | c in seen + [next] && c.ws.Long?
      ensures prev.ws.Long? && Length(cs, prev) <= Length(cs, c)
    {
      assert c in seen || c == next;
    }
  }

  lemma KeepsAppended(cs: OccClauses, seen: seq<OccurClause>, kept: seq<OccurClause>, next: OccurClause)
    requires KeepsBodies(cs, seen, kept) && !DropsNext(cs, kept[|kept| - 1], next)
    requires LexLe(ClauseKey(cs, kept[|kept| - 1]), ClauseKey(cs, next))
    ensures KeepsBodies(cs, seen + [next], kept + [next])
  {
    hide LexLe, ClauseKey, Represented, Body;
    var prev, kept' := kept[|kept| - 1], kept + [next];
    if prev.ws.Long? {
      KeysRise(cs, prev, next);
    }
    Represents(cs, kept', next, next);
    assert prev.ws.Long? ==> Length(cs, next) == Length(cs, prev);
    hide DropsNext, ClauseOf, Length;
    forall c | c in seen + [next] && c.ws.Long?
      ensures next.ws.Long? && Length(cs, next) <= Length(cs, c)
    {
      if c != next {
        assert c in seen;
        assert Length(cs, prev) <= Length(cs, c) && prev.ws.Long?;
      }
    }
    forall c | c in kept' && c.ws.Long?
      ensures Length(cs, c) == Length(cs, next)
    {
      assert c in kept || c == next;
      assert c in kept ==> c in seen && prev.ws.Long?;
    }
    forall c | c in seen && (c.ws.Long? ==> Length(cs, c) == Length(cs, next))
      ensures Represented(cs, kept', c)
    {
      KeptLonger(cs, kept, next, c);
    }
  }

  lemma Represents(cs: OccClauses, kept: seq<OccurClause>, d: OccurClause, c: OccurClause)
    requires d in kept && Body(cs, d) == Body(cs, c)
    ensures Represented(cs, kept, c)
  {
  }

  lemma BodySize(ws: WatchLists, cs: OccClauses, lit: Lit, c: OccurClause)
    requires OccOk(ws, cs) && c.lit == lit && c.ws in W(ws, lit)
    ensures |Body(cs, c)| == Length(cs, c) - 1 && (Length(cs, c) >= 3 <==> c.ws.Long?)
  {
    ClauseOfOk(ws, cs, lit, c.ws);
    var a := ClauseOf(cs, lit, c.ws);
    DistinctSize(a);
    assert Lits(a) == Body(cs, c) + {lit} && lit !in Body(cs, c);
    if c.ws.Long? {
      assert OccClauseOk(ws, cs, c.ws.off);
    }
  }

  /** In the end the bodies of binary clauses and of the shortest long ones are there, and no others. */
  lemma KeptBodies(ws: WatchLists, cs: OccClauses, lit: Lit, cls: seq<OccurClause>, sorted: seq<OccurClause>,
                   kept: seq<OccurClause>)
    requires OccOk(ws, cs) && KeepsBodies(cs, sorted, kept) && forall c :: c in sorted <==> c in cls
    requires forall c :: c in cls ==> c.lit == lit && c.ws in W(ws, lit)
    ensures forall c :: c in cls ==> (Represented(cs, kept, c) <==> Shortest(cs, cls, c))
  {
    hide OccOk, Body, Represented;
    var prev := kept[|kept| - 1];
    assert prev in sorted;
    forall c | c in cls && Shortest(cs, cls, c)
      ensures Represented(cs, kept, c)
    {
      assert c.ws.Long? ==> Length(cs, prev) <= Length(cs, c) && Length(cs, c) <= Length(cs, prev);
    }
    forall c | c in cls && Represented(cs, kept, c)
      ensures Shortest(cs, cls, c)
    {
      SameLength(ws, cs, lit, cls, kept, c);
    }
  }

  /** A clause that is represented is as long as what represents it, and of the same kind. */
  lemma SameLength(ws: WatchLists, cs: OccClauses, lit: Lit, cls: seq<OccurClause>, kept: seq<OccurClause>,
                   c: OccurClause)
    requires OccOk(ws, cs) && Represented(cs, kept, c) && c in cls && forall d :: d in kept ==> d in cls
    requires forall c :: c in cls ==> c.lit == lit && c.ws in W(ws, lit)
    ensures exists d :: d in kept && Length(cs, d) == Length(cs, c) && (d.ws.Long? <==> c.ws.Long?)
  {
    hide OccOk, ClauseOf, Length, Body;
    var d :| d in kept && Body(cs, d) == Body(cs, c);
    BodySize(ws, cs, lit, c);
    BodySize(ws, cs, lit, d);
  }

  lemma AtMostOne(cs: OccClauses, cls: seq<OccurClause>)
    requires |cls| <= 1
    ensures DistinctBodies(cs, cls) && forall c :: c in cls ==> Represented(cs, cls, c) && Shortest(cs, cls, c)
  {
    hide Represented, Body;
    if |cls| == 1 {
      Represents(cs, cls, cls[0], cls[0]);
    }
  }

  lemma OneKey(cs: OccClauses, cls: seq<OccurClause>)
    requires |cls| == 1
    ensures KeysIncrease(cs, cls)
  {
  }

  lemma KeysNext(cs: OccClauses, cls: seq<OccurClause>, next: OccurClause)
    requires KeysIncrease(cs, cls) && cls != [] && LexLess(ClauseKey(cs, cls[|cls| - 1]), ClauseKey(cs, next))
    ensures KeysIncrease(cs, cls + [next])
  {
    hide LexLess, ClauseKey;
    var n := |cls| - 1;
    forall i | 0 <= i < n
      ensures LexLess(ClauseKey(cs, cls[i]), ClauseKey(cs, next))
    {
      LexTrans(ClauseKey(cs, cls[i]), ClauseKey(cs, cls[n]), ClauseKey(cs, next));
    }
  }

  lemma KeyDiffers(cs: OccClauses, prev: OccurClause, next: OccurClause)
    requires LexLe(ClauseKey(cs, prev), ClauseKey(cs, next))
    requires !DropsNext(cs, prev, next)
    ensures LexLess(ClauseKey(cs, prev), ClauseKey(cs, next))
  {
    hide LexLess;
    var k, n := ClauseKey(cs, prev), ClauseKey(cs, next);
    assert k != n by {
      if prev.ws.Long? && next.ws.Long? {
        var a, b := ClauseOf(cs, prev.lit, prev.ws), ClauseOf(cs, next.lit, next.ws);
        var i :| 0 <= i < |a| && a[i] != b[i];
        assert k[i + 2] == ToInt(a[i]) && n[i + 2] == ToInt(b[i]);
      } else {
        assert k[0] != n[0] || k[1] != n[1];
      }
    }
  }

  lemma KeysDistinct(ws: WatchLists, cs: OccClauses, bag: multiset<Clause>, lit: Lit, cls: seq<OccurClause>)
    requires OccOk(ws, cs) && BagOk(ws, cs, bag) && ClausesSorted(cs) && KeysIncrease(cs, cls)
    requires forall c :: c in cls ==> c.lit == lit && c.ws in W(ws, lit) && Live(cs, c.ws)
    ensures DistinctBodies(cs, cls)
  {
    hide OccOk, BagOk, LexLess, KeysIncrease, ClausesSorted;
    forall i, j | 0 <= i < j < |cls|
      ensures Body(cs, cls[i]) != Body(cs, cls[j])
    {
      assert cls[i] in cls && cls[j] in cls;
      KeysDiffer(cs, cls, i, j);
      SameBodySameKey(ws, cs, lit, cls[i], cls[j]);
    }
  }

  lemma KeysDiffer(cs: OccClauses, cls: seq<OccurClause>, i: nat, j: nat)
    requires KeysIncrease(cs, cls) && i < j < |cls|
    ensures ClauseKey(cs, cls[i]) != ClauseKey(cs, cls[j])
  {
    LexTotal(ClauseKey(cs, cls[i]), ClauseKey(cs, cls[j]));
  }

  lemma SameBodySameKey(ws: WatchLists, cs: OccClauses, lit: Lit, c: OccurClause, d: OccurClause)
    requires OccOk(ws, cs) && ClausesSorted(cs) && c.lit == lit == d.lit && c.ws in W(ws, lit) && d.ws in W(ws, lit)
    ensures Body(cs, c) == Body(cs, d) ==> ClauseKey(cs, c) == ClauseKey(cs, d)
  {
    hide OccOk, LongOffs, Cnt, ClauseOf, ClauseKey, ClausesSorted;
    if Body(cs, c) == Body(cs, d) {
      ClauseOfOk(ws, cs, lit, c.ws);
      ClauseOfOk(ws, cs, lit, d.ws);
      var a, b := ClauseOf(cs, lit, c.ws), ClauseOf(cs, lit, d.ws);
      assert Lits(a) == Body(cs, c) + {lit} && Lits(b) == Body(cs, d) + {lit};
      DistinctSize(a);
      DistinctSize(b);
      EntryLength(ws, cs, c);
      EntryLength(ws, cs, d);
      if c.ws.Bin? {
        SameBinKey(cs, c, d);
      } else {
        SortedUnique(a, b);
        SameLongKey(cs, c, d);
      }
    }
  }

  lemma SameBinKey(cs: OccClauses, c: OccurClause, d: OccurClause)
    requires c.ws.Bin? && d.ws.Bin? && c.lit == d.lit && c.ws.lit2 != c.lit && d.ws.lit2 != d.lit
      && Body(cs, c) == Body(cs, d)
    ensures ClauseKey(cs, c) == ClauseKey(cs, d)
  {
    assert c.ws.lit2 in Body(cs, c) && c.ws.lit2 in [d.lit, d.ws.lit2];
  }

  lemma SameLongKey(cs: OccClauses, c: OccurClause, d: OccurClause)
    requires c.ws.Long? && d.ws.Long? && ClauseOf(cs, c.lit, c.ws) == ClauseOf(cs, d.lit, d.ws)
    ensures ClauseKey(cs, c) == ClauseKey(cs, d)
  {
  }

  lemma EntryLength(ws: WatchLists, cs: OccClauses, c: OccurClause)
    requires OccOk(ws, cs) && ClausesSorted(cs) && c.ws in W(ws, c.lit)
    ensures c.ws.Bin? ==> |ClauseOf(cs, c.lit, c.ws)| == 2 && c.ws.lit2 != c.lit
    ensures c.ws.Long? ==> |ClauseOf(cs, c.lit, c.ws)| >= 3 && SortedLits(ClauseOf(cs, c.lit, c.ws))
  {
    if c.ws.Long? {
      assert OccClauseOk(ws, cs, c.ws.off);
    }
  }

  // ----- growing the product -----

  ghost predicate SameBut(m: Model, m': Model, x: nat) {
    forall v: nat :: v != x ==> (v in m' <==> v in m)
  }

  /** The clauses with the literal are the product with itself. */
  lemma MatchedStarts(ws: WatchLists, cs: OccClauses, bag: multiset<Clause>, lit: Lit, cls: seq<OccurClause>)
    requires OccOk(ws, cs) && BagOk(ws, cs, bag) && DistinctBodies(cs, cls)
    requires forall c {:trigger c in cls} :: c in cls ==> c.lit == lit && c.ws in W(ws, lit) && Live(cs, c.ws)
    ensures Matched(ws, cs, bag, lit, [OneLit(lit)], cls)
  {
    hide OccOk, BagOk;
    var ms := [OneLit(lit)];
    forall j | 0 <= j < |cls|
      ensures cls[j].lit == lit && cls[j].ws in W(ws, lit) && Live(cs, cls[j].ws)
      ensures PairLits(OneLit(lit)) + Body(cs, cls[j]) in bag
    {
      assert cls[j] in cls;
      LiveInBag(ws, cs, bag, cls[j]);
      ClauseOfOk(ws, cs, lit, cls[j].ws);
      assert PairLits(OneLit(lit)) + Body(cs, cls[j]) == Lits(ClauseOf(cs, lit, cls[j].ws));
    }
  }

  lemma NoPotential(cs: OccClauses, bag: multiset<Clause>, ms: seq<LitPair>, cls: seq<OccurClause>)
    ensures PotentialOk(cs, bag, ms, cls, [], 0)
  {
  }

  lemma PotentialSome(cs: OccClauses, bag: multiset<Clause>, ms: seq<LitPair>, cls: seq<OccurClause>,
                      pots: seq<PotentialClause>)
    requires PotentialOk(cs, bag, ms, cls, pots, |cls|)
    ensures forall a {:trigger pots[a]} :: 0 <= a < |pots| ==> pots[a].lits != NO_LITS
  {
  }

  lemma PotentialDistinct(cs: OccClauses, bag: multiset<Clause>, ms: seq<LitPair>, cls: seq<OccurClause>,
                          pots: seq<PotentialClause>)
    requires PotentialOk(cs, bag, ms, cls, pots, |cls|)
    ensures forall a, b {:trigger pots[a], pots[b]} :: 0 <= a < b < |pots| ==> pots[a] != pots[b]
    ensures pots != [] ==> cls != []
  {
    if pots != [] {
      var p := pots[0];
      assert p.occurCl in cls[..|cls|];
    }
  }

  lemma AllModels(f: Formula, f': Formula, ms: seq<Clause>, bs: seq<Clause>, x: nat)
    requires Replaced(f, f', ms, bs, x) && NoVar(f, x) && |ms| > 0 && |bs| > 0
    ensures forall m: Model {:trigger FormulaTrue(m, f)} :: FormulaTrue(m, f) <==> exists m': Model ::
      FormulaTrue(m', f') && SameBut(m, m', x)
  {
    hide Replaced;
    forall m: Model
      ensures FormulaTrue(m, f) <==> exists m': Model :: FormulaTrue(m', f') && SameBut(m, m', x)
    {
      AdditionKeepsModels(f, f', ms, bs, x, m);
    }
  }

  lemma PairLitsInjective(p: LitPair, q: LitPair)
    requires PairOk(p) && PairSorted(p) && PairOk(q) && PairSorted(q) && PairLits(p) == PairLits(q)
    ensures p == q
  {
    assert p.lit1.value in PairLits(q) && q.lit1.value in PairLits(p);
    assert p.lit2.Some? ==> p.lit2.value in PairLits(q);
    assert q.lit2.Some? ==> q.lit2.value in PairLits(p);
  }

  /** One more matching pair, and the clauses that go with it. */
  lemma MatchedNext(ws: WatchLists, cs: OccClauses, bag: multiset<Clause>, lit: Lit, ms: seq<LitPair>,
                    cls: seq<OccurClause>, pots: seq<PotentialClause>, p: LitPair, newCls: seq<OccurClause>)
    requires Matched(ws, cs, bag, lit, ms, cls) && PotentialOk(cs, bag, ms, cls, pots, |cls|)
    requires (forall c :: c in newCls ==> PotentialClause(p, c) in pots) && newCls != []
    requires forall a, b {:trigger newCls[a], newCls[b]} :: 0 <= a < b < |newCls| ==> newCls[a] != newCls[b]
    ensures Matched(ws, cs, bag, lit, ms + [p], newCls)
  {
    hide Factors;
    var ms' := ms + [p];
    forall c | c in newCls
      ensures c in cls && p !in ms && DiffPair(cs, bag, c, p)
    {
      var k :| 0 <= k < |pots| && pots[k] == PotentialClause(p, c);
      assert cls[..|cls|] == cls;
    }
    assert newCls[0] in newCls;
    forall j | 0 <= j < |newCls|
      ensures newCls[j].lit == lit && newCls[j].ws in W(ws, lit) && Live(cs, newCls[j].ws)
      ensures forall i {:trigger ms'[i]} :: 0 <= i < |ms'| ==> PairLits(ms'[i]) + Body(cs, newCls[j]) in bag
    {
      assert newCls[j] in newCls;
      var k :| 0 <= k < |cls| && cls[k] == newCls[j];
      forall i | 0 <= i < |ms'|
        ensures PairLits(ms'[i]) + Body(cs, newCls[j]) in bag
      {
        assert i < |ms| ==> PairLits(ms[i]) + Body(cs, cls[k]) in bag;
      }
    }
    FactorsNext(cs, bag, ms, cls, p, newCls);
  }

  lemma FactorsNext(cs: OccClauses, bag: multiset<Clause>, ms: seq<LitPair>, cls: seq<OccurClause>, p: LitPair,
                    newCls: seq<OccurClause>)
    requires Factors(Matches(ms), Bodies(cs, cls)) && p !in ms && PairOk(p) && PairSorted(p)
    requires forall i {:trigger ms[i]} :: 0 <= i < |ms| ==> PairOk(ms[i]) && PairSorted(ms[i])
    requires forall c {:trigger c in newCls} :: c in newCls ==> c in cls && DiffPair(cs, bag, c, p)
    requires forall a, b {:trigger newCls[a], newCls[b]} :: 0 <= a < b < |newCls| ==> newCls[a] != newCls[b]
    ensures Factors(Matches(ms + [p]), Bodies(cs, newCls))
  {
    var ms', rs, bs, rs', bs' := ms + [p], Matches(ms), Bodies(cs, cls), Matches(ms + [p]), Bodies(cs, newCls);
    forall i, j | 0 <= i < |rs'| && 0 <= j < |bs'|
      ensures rs'[i] !! bs'[j]
    {
      assert newCls[j] in newCls;
      var k :| 0 <= k < |cls| && cls[k] == newCls[j];
      if i < |ms| {
        assert rs'[i] == rs[i] && bs'[j] == bs[k] && rs[i] !! bs[k];
      } else {
        assert rs'[i] == PairLits(p);
      }
    }
    forall i, j | 0 <= i < j < |rs'|
      ensures rs'[i] != rs'[j]
    {
      if j < |ms| {
        assert rs'[i] == rs[i] && rs'[j] == rs[j];
      } else {
        assert ms[i] in ms && rs'[i] == PairLits(ms[i]) && rs'[j] == PairLits(p);
        if rs'[i] == rs'[j] {
          PairLitsInjective(ms[i], p);
        }
      }
    }
    forall i, j | 0 <= i < j < |bs'|
      ensures bs'[i] != bs'[j]
    {
      assert newCls[i] in newCls && newCls[j] in newCls && newCls[i] != newCls[j];
      var a :| 0 <= a < |cls| && cls[a] == newCls[i];
      var b :| 0 <= b < |cls| && cls[b] == newCls[j];
      assert bs'[i] == bs[a] && bs'[j] == bs[b] && (a < b || b < a);
    }
  }

  lemma NewVarUnused(ws: WatchLists, cs: OccClauses, bag: multiset<Clause>, units: seq<Lit>, n: nat)
    requires OccOk(ws, cs) && BagOk(ws, cs, bag) && VarsBelow(bag, units, n)
    ensures NoVar(Irred(ws, cs, units), n)
  {
    hide OccOk, BagOk, BinClauses, LongFormula, Units;
    forall c | c in Irred(ws, cs, units)
      ensures !HasVar(c, n)
    {
      BagFormula(ws, cs, bag, c);
      if c in Units(units) {
        UnitVar(units, c, n);
      }
      assert Lit(n, false).v == n && Lit(n, true).v == n;
    }
  }

  // ----- counting candidates -----

  function OptKey(l: Option<Lit>): seq<nat> {
    if l.Some? then [0, ToInt(l.value)] else [1, 0]
  }

  function PairKey(p: LitPair): seq<nat> {
    OptKey(p.lit1) + OptKey(p.lit2)
  }

  lemma PairKeyInjective(p: LitPair, q: LitPair)
    requires PairKey(p) == PairKey(q)
    ensures p == q
  {
    assert forall i :: 0 <= i < 4 ==> PairKey(p)[i] == PairKey(q)[i];
    assert OptKey(p.lit1) == PairKey(p)[..2] && OptKey(q.lit1) == PairKey(q)[..2];
    assert OptKey(p.lit2) == PairKey(p)[2..] && OptKey(q.lit2) == PairKey(q)[2..];
    OptKeyInjective(p.lit1, q.lit1);
    OptKeyInjective(p.lit2, q.lit2);
  }

  lemma OptKeyInjective(a: Option<Lit>, b: Option<Lit>)
    requires OptKey(a) == OptKey(b)
    ensures a == b
  {
    assert OptKey(a)[0] == OptKey(b)[0] && OptKey(a)[1] == OptKey(b)[1];
  }

  /** The same candidates in another order. */
  ghost predicate ReorderedBy(a: seq<PotentialClause>, b: seq<PotentialClause>, at: seq<nat>) {
    && |a| == |b| == |at|
    && (forall i {:trigger at[i]} :: 0 <= i < |at| ==> at[i] < |a| && b[i] == a[at[i]])
    && (forall i, j {:trigger at[i], at[j]} :: 0 <= i < j < |at| ==> at[i] != at[j])
    && forall k: nat :: k < |a| ==> k in at
  }

  ghost predicate Reordered(a: seq<PotentialClause>, b: seq<PotentialClause>) {
    exists at :: ReorderedBy(a, b, at)
  }

  /** Candidates with the same pair stand next to each other. */
  ghost predicate RunsTogether(pots: seq<PotentialClause>) {
    forall i, j, k {:trigger pots[i], pots[j], pots[k]} ::
      0 <= i < j < k < |pots| && pots[i].lits == pots[k].lits ==> pots[j].lits == pots[i].lits
  }

  /** The candidates sorted by their pairs. */
  ghost predicate PairsInOrder(pots: seq<PotentialClause>) {
    forall i, j {:trigger pots[i], pots[j]} ::
      0 <= i < j < |pots| ==> LexLe(PairKey(pots[i].lits), PairKey(pots[j].lits))
  }

  /** Among the pairs with the most candidates, the one that comes last. */
  ghost predicate LastBest(pots: seq<PotentialClause>, p: LitPair) {
    forall i, j {:trigger pots[i], pots[j]} ::
      0 <= i < j < |pots| && pots[i].lits == p && pots[j].lits != p ==> CountOf(pots, pots[j].lits) < CountOf(pots, p)
  }

  lemma KeysGroup(pots: seq<PotentialClause>, keys: seq<seq<nat>>, at: seq<nat>, b: seq<PotentialClause>)
    requires |keys| == |pots| && (forall i {:trigger keys[i]} :: 0 <= i < |pots| ==> keys[i] == PairKey(pots[i].lits))
      && Ordered(keys, at)
    requires |b| == |at| && forall i {:trigger b[i]} :: 0 <= i < |at| ==> b[i] == pots[at[i]]
    ensures RunsTogether(b) && PairsInOrder(b)
  {
    hide LexLe, PairKey;
    forall i, j | 0 <= i < j < |b|
      ensures LexLe(PairKey(b[i].lits), PairKey(b[j].lits))
    {
      assert LexLe(keys[at[i]], keys[at[j]]);
    }
    forall i, j, k | 0 <= i < j < k < |b| && b[i].lits == b[k].lits
      ensures b[j].lits == b[i].lits
    {
      assert LexLe(keys[at[i]], keys[at[j]]) && LexLe(keys[at[j]], keys[at[k]]);
      assert keys[at[i]] == keys[at[k]];
      LexLeSame(keys[at[i]], keys[at[j]]);
      PairKeyInjective(b[i].lits, b[j].lits);
    }
  }

  lemma LexLeSame(a: seq<nat>, b: seq<nat>)
    requires LexLe(a, b) && LexLe(b, a)
    ensures a == b
  {
    LexTotal(a, b);
  }

  ghost function CountOf(pots: seq<PotentialClause>, p: LitPair): nat {
    if pots == [] then 0 else CountOf(pots[..|pots| - 1], p) + if pots[|pots| - 1].lits == p then 1 else 0
  }

  lemma CountNext(pots: seq<PotentialClause>, i: nat)
    requires i < |pots|
    ensures forall p {:trigger CountOf(pots[..i + 1], p)} ::
      CountOf(pots[..i + 1], p) == CountOf(pots[..i], p) + if pots[i].lits == p then 1 else 0
  {
    assert pots[..i + 1][..i] == pots[..i];
  }

  lemma {:induction false} NotCounted(pots: seq<PotentialClause>, p: LitPair)
    ensures CountOf(pots, p) > 0 <==> exists k {:trigger pots[k]} :: 0 <= k < |pots| && pots[k].lits == p
  {
    if pots != [] {
      var n := |pots| - 1;
      NotCounted(pots[..n], p);
      if k :| 0 <= k < n && pots[..n][k].lits == p {
        assert pots[k].lits == p;
      }
      if k :| 0 <= k < |pots| && pots[k].lits == p {
        assert k < n ==> pots[..n][k].lits == p;
      }
    }
  }

  lemma NewRun(pots: seq<PotentialClause>, i: nat)
    requires RunsTogether(pots) && i < |pots| && (i > 0 ==> pots[i - 1].lits != pots[i].lits)
    ensures CountOf(pots[..i], pots[i].lits) == 0
  {
    NotCounted(pots[..i], pots[i].lits);
    forall k | 0 <= k < i
      ensures pots[..i][k].lits != pots[i].lits
    {
      var a, b, c := pots[k], pots[i - 1], pots[i];
      assert k == i - 1 || k < i - 1 < i;
    }
  }

  /** The same, the pair of the last run left aside. */
  ghost predicate LastBestBut(pots: seq<PotentialClause>, p: LitPair, last: LitPair) {
    forall i, j {:trigger pots[i], pots[j]} ::
      0 <= i < j < |pots| && pots[i].lits == p && pots[j].lits != p && pots[j].lits != last ==>
        CountOf(pots, pots[j].lits) < CountOf(pots, p)
  }

  lemma NothingYet()
    ensures LastBestBut([], NO_LITS, NO_LITS)
  {
  }

  /** At the end of a run its pair is the best, or the one before stays so. */
  lemma RunEnds(pots: seq<PotentialClause>, n: nat, most: LitPair, last: LitPair)
    requires RunsTogether(pots) && n <= |pots| && last == (if n == 0 then NO_LITS else pots[n - 1].lits)
      && LastBestBut(pots[..n], most, last)
    ensures CountOf(pots[..n], last) >= CountOf(pots[..n], most) ==> LastBest(pots[..n], last)
    ensures CountOf(pots[..n], last) < CountOf(pots[..n], most) ==> LastBest(pots[..n], most)
  {
    var s := pots[..n];
    forall i, j | 0 <= i < j < n && s[i].lits == last
      ensures s[j].lits == last
    {
      assert j == n - 1 || pots[j].lits == pots[i].lits by {
        assert s[i] == pots[i] && s[j] == pots[j];
        if j < n - 1 {
          assert i < j < n - 1 && pots[i].lits == pots[n - 1].lits;
        }
      }
    }
  }

  lemma RunGrows(pots: seq<PotentialClause>, n: nat, most: LitPair)
    requires n < |pots| && most != pots[n].lits
    requires LastBest(pots[..n], most) || LastBestBut(pots[..n], most, pots[n].lits)
    ensures LastBestBut(pots[..n + 1], most, pots[n].lits)
  {
    hide CountOf;
    CountNext(pots, n);
    var s, t := pots[..n], pots[..n + 1];
    forall i, j | 0 <= i < j < n + 1 && t[i].lits == most && t[j].lits != most && t[j].lits != pots[n].lits
      ensures CountOf(t, t[j].lits) < CountOf(t, most)
    {
      assert j < n && s[i] == t[i] && s[j] == t[j];
    }
  }

  lemma NoneCounted(pots: seq<PotentialClause>)
    requires forall a {:trigger pots[a]} :: 0 <= a < |pots| ==> pots[a].lits != NO_LITS
    ensures forall i: nat {:trigger pots[..i]} :: i <= |pots| ==> CountOf(pots[..i], NO_LITS) == 0
  {
    forall i: nat | i <= |pots|
      ensures CountOf(pots[..i], NO_LITS) == 0
    {
      NotCounted(pots[..i], NO_LITS);
    }
  }

  lemma SomeLits(a: seq<PotentialClause>, b: seq<PotentialClause>)
    requires Reordered(a, b) && forall k {:trigger a[k]} :: 0 <= k < |a| ==> a[k].lits != NO_LITS
    ensures forall k {:trigger b[k]} :: 0 <= k < |b| ==> b[k].lits != NO_LITS
  {
    var at :| ReorderedBy(a, b, at);
    forall k | 0 <= k < |b|
      ensures b[k].lits != NO_LITS
    {
      assert b[k] == a[at[k]];
    }
  }

  lemma ReorderedOk(cs: OccClauses, bag: multiset<Clause>, ms: seq<LitPair>, cls: seq<OccurClause>,
                    a: seq<PotentialClause>, b: seq<PotentialClause>, n: nat)
    requires PotentialOk(cs, bag, ms, cls, a, n) && Reordered(a, b)
    ensures PotentialOk(cs, bag, ms, cls, b, n)
  {
    hide DiffPair;
    var at :| ReorderedBy(a, b, at);
    forall k | 0 <= k < |b|
      ensures b[k].occurCl in cls[..n] && b[k].lits !in ms && DiffPair(cs, bag, b[k].occurCl, b[k].lits)
    {
      assert b[k] == a[at[k]];
    }
    forall i, j | 0 <= i < j < |b|
      ensures b[i] != b[j]
    {
      assert b[i] == a[at[i]] && b[j] == a[at[j]] && at[i] != at[j];
      assert at[i] < at[j] || at[j] < at[i];
    }
  }

  /** `lit_pair::hash` */
  function Hash(p: LitPair, n: nat): nat
    requires n > 0
  {
    var h := if p.lit1.Some? then ToInt(p.lit1.value) else 0;
    if p.lit2 == None then h % n else (h * 31 + ToInt(p.lit2.value)) % n
  }

  function HashesOf(ps: seq<LitPair>, n: nat): set<nat>
    requires n > 0
  {
    set p | p in ps :: Hash(p, n)
  }

  lemma HashesNext(ps: seq<LitPair>, i: nat, n: nat)
    requires n > 0 && i < |ps|
    ensures HashesOf(ps[..i + 1], n) == HashesOf(ps[..i], n) + {Hash(ps[i], n)}
  {
    hide Hash;
    assert ps[..i + 1] == ps[..i] + [ps[i]];
  }

  lemma HashesRest(ps: seq<LitPair>, i: nat, n: nat)
    requires n > 0 && i < |ps|
    ensures HashesOf(ps[i..], n) == HashesOf(ps[i + 1..], n) + {Hash(ps[i], n)}
  {
    hide Hash;
    assert ps[i..] == [ps[i]] + ps[i + 1..];
  }

  lemma LongerDiffers(s: seq<LitPair>)
    ensures forall p {:trigger s + [p]} :: s + [p] != s
  {
    assert forall p :: |s + [p]| == |s| + 1;
  }

  // ----- what the candidates promise -----

  ghost predicate ClausesSorted(cs: OccClauses) {
    forall o {:trigger cs[o]} :: o in cs ==> SortedLits(cs[o].lits)
  }

  /** The literals in order, so that equal sets of literals are equal pairs. */
  ghost predicate PairSorted(p: LitPair) {
    p.lit1.Some? && p.lit2.Some? ==> ToInt(p.lit1.value) < ToInt(p.lit2.value)
  }

  /** The pair put in place of the literal of `c` gives another clause of the bag, and shares nothing with `c`. */
  ghost predicate DiffPair(cs: OccClauses, bag: multiset<Clause>, c: OccurClause, p: LitPair) {
    && PairOk(p) && PairSorted(p) && PairLits(p) !! Lits(ClauseOf(cs, c.lit, c.ws))
    && PairLits(p) + Body(cs, c) in bag
  }

  /** The candidates found for the first `n` matched clauses: new pairs, each at most once for a clause. */
  ghost predicate PotentialOk(cs: OccClauses, bag: multiset<Clause>, ms: seq<LitPair>, cls: seq<OccurClause>,
                              pots: seq<PotentialClause>, n: nat)
  {
    && n <= |cls|
    && (forall a {:trigger pots[a]} ::
      0 <= a < |pots| ==>
      pots[a].occurCl in cls[..n] && pots[a].lits !in ms && DiffPair(cs, bag, pots[a].occurCl, pots[a].lits))
    && forall a, b {:trigger pots[a], pots[b]} :: 0 <= a < b < |pots| ==> pots[a] != pots[b]
  }

  /** The pairs that are taken for clause `j`: the matching ones and those found so far. */
  ghost predicate ThisClause(ms: seq<LitPair>, cls: seq<OccurClause>, pots: seq<PotentialClause>, j: nat,
                             thisCl: seq<LitPair>)
  {
    && j < |cls|
    && (forall m {:trigger m in ms} :: m in ms ==> m in thisCl)
    && (forall a {:trigger pots[a]} :: 0 <= a < |pots| && pots[a].occurCl == cls[j] ==> pots[a].lits in thisCl)
    && forall q {:trigger q in thisCl} :: q in thisCl ==> q in ms || PotentialClause(q, cls[j]) in pots
  }

  /** A pair that a clause could be matched with: two literals only if that is allowed. */
  ghost predicate Candidate(cs: OccClauses, bag: multiset<Clause>, c: OccurClause, p: LitPair, twoLit: bool) {
    DiffPair(cs, bag, c, p) && (p.lit2.Some? ==> twoLit)
  }

  /** `d` is the clause `c` with the pair in place of the literal `c` was found with. */
  ghost predicate PartnerBy(cs: OccClauses, c: OccurClause, d: OccurClause, p: LitPair, twoLit: bool) {
    && Live(cs, d.ws) && PairOk(p) && PairSorted(p) && (p.lit2.Some? ==> twoLit)
    && PairLits(p) !! Lits(ClauseOf(cs, c.lit, c.ws))
    && Lits(ClauseOf(cs, d.lit, d.ws)) == PairLits(p) + Body(cs, c)
  }

  /** A pair with the same hash value is matched already, or is a candidate for the same clause. */
  ghost predicate Taken(ms: seq<LitPair>, pots: seq<PotentialClause>, c: OccurClause, p: LitPair, slots: nat) {
    slots > 0 && exists q: LitPair {:trigger q in ms} {:trigger PotentialClause(q, c)} ::
      Hash(q, slots) == Hash(p, slots) && (q in ms || PotentialClause(q, c) in pots)
  }

  /** Some literal of the body is in none of the pairs. */
  ghost predicate HasFree(cs: OccClauses, ms: seq<LitPair>, c: OccurClause) {
    exists l: Lit {:trigger l in Body(cs, c)} ::
      l in Body(cs, c) && forall i {:trigger ms[i]} :: 0 <= i < |ms| ==> l !in PairLits(ms[i])
  }

  /** No free literal before this one has a list as short. */
  ghost predicate FirstShortest(ws: WatchLists, lits: seq<Lit>, but: Lit, ms: seq<LitPair>, l: Lit) {
    exists b: nat {:trigger lits[b]} ::
      b < |lits| && lits[b] == l
      && forall a {:trigger lits[a]} ::
           0 <= a < b && lits[a] != but
           && (forall i {:trigger ms[i]} :: 0 <= i < |ms| ==> lits[a] !in PairLits(ms[i])) ==>
             |W(ws, l)| < |W(ws, lits[a])|
  }

  ghost predicate FoundFor(cs: OccClauses, bag: multiset<Clause>, ms: seq<LitPair>, pots: seq<PotentialClause>,
                           c: OccurClause, twoLit: bool, slots: nat)
  {
    HasFree(cs, ms, c) ==>
      forall p: LitPair {:trigger Candidate(cs, bag, c, p, twoLit)} ::
        Candidate(cs, bag, c, p, twoLit) ==> Taken(ms, pots, c, p, slots)
  }

  /** No candidate for the first `n` matched clauses was missed. */
  ghost predicate AllFound(cs: OccClauses, bag: multiset<Clause>, ms: seq<LitPair>, cls: seq<OccurClause>,
                           pots: seq<PotentialClause>, twoLit: bool, slots: nat, n: nat)
  {
    n <= |cls| && forall j {:trigger cls[j]} :: 0 <= j < n ==> FoundFor(cs, bag, ms, pots, cls[j], twoLit, slots)
  }

  ghost predicate PairsAllowed(pots: seq<PotentialClause>, twoLit: bool) {
    forall a {:trigger pots[a]} :: 0 <= a < |pots| && pots[a].lits.lit2.Some? ==> twoLit
  }

  /**
   What a full search for candidates gives: each is one, each at most once, and none is missing unless one with the
   same hash value is there.
   */
  ghost predicate CandidatesOf(cs: OccClauses, bag: multiset<Clause>, ms: seq<LitPair>, cls: seq<OccurClause>,
                               pots: seq<PotentialClause>, twoLit: bool, slots: nat)
  {
    && PotentialOk(cs, bag, ms, cls, pots, |cls|) && PairsAllowed(pots, twoLit)
    && forall c, p: LitPair {:trigger c in cls, Candidate(cs, bag, c, p, twoLit)} ::
      c in cls && Candidate(cs, bag, c, p, twoLit) ==> Taken(ms, pots, c, p, slots)
  }

  /** One more pair, matching `n` clauses, for `l` pairs and `c` clauses: the first must match two, others gain. */
  ghost predicate Saves(l: nat, c: nat, n: nat) {
    if l == 1 then n >= 2 else (l + 1) * n - (l + 1) - n > 0 && (l + 1) * n - (l + 1) - n >= l * c - l - c
  }

  /** A pair that saves a clause with fewer matches saves one with more. */
  lemma FewerSave(pots: seq<PotentialClause>, l: nat, c: nat, most: nat)
    requires !Saves(l, c, most) && l >= 1
      && forall p: LitPair {:trigger CountOf(pots, p)} :: CountOf(pots, p) <= most
    ensures NoneSaves(pots, l, c)
  {
    hide CountOf, Saves;
    forall p: LitPair
      ensures !Saves(l, c, CountOf(pots, p))
    {
      MoreSave(l, c, CountOf(pots, p), most);
    }
  }

  lemma MoreSave(l: nat, c: nat, n: nat, m: nat)
    requires l >= 1 && n <= m
    ensures Saves(l, c, n) ==> Saves(l, c, m)
  {
    assert (l + 1) * m - m - ((l + 1) * n - n) == l * (m - n) >= 0;
  }

  lemma SavesSome(ws: WatchLists, cs: OccClauses, bag: multiset<Clause>, lit: Lit, ms: seq<LitPair>,
                  cls: seq<OccurClause>, n: nat)
    requires Matched(ws, cs, bag, lit, ms, cls)
    ensures |ms| >= 1 && (Saves(|ms|, |cls|, n) ==> n >= 1)
  {
  }

  /** The clauses recorded with the pair. */
  ghost predicate RecordedWith(pots: seq<PotentialClause>, p: LitPair, cls: seq<OccurClause>) {
    |cls| == CountOf(pots, p) && forall c {:trigger c in cls} :: c in cls <==> PotentialClause(p, c) in pots
  }

  /** A pair that no other has more candidates than, the last of those in the order of pairs, and with enough. */
  ghost predicate BestPair(pots: seq<PotentialClause>, l: nat, c: nat, p: LitPair) {
    && Saves(l, c, CountOf(pots, p)) && PairsInOrder(pots) && LastBest(pots, p)
    && forall q: LitPair {:trigger CountOf(pots, q)} :: CountOf(pots, q) <= CountOf(pots, p)
  }

  ghost predicate NoneSaves(pots: seq<PotentialClause>, l: nat, c: nat) {
    forall p: LitPair {:trigger CountOf(pots, p)} :: !Saves(l, c, CountOf(pots, p))
  }

  /** The irredundant clauses with the literal, one for each body. */
  ghost predicate FirstClauses(ws: WatchLists, cs: OccClauses, lit: Lit, cls: seq<OccurClause>) {
    exists all: seq<OccurClause> :: OneEach(ws, cs, lit, all, cls)
  }

  ghost predicate OneEach(ws: WatchLists, cs: OccClauses, lit: Lit, all: seq<OccurClause>, cls: seq<OccurClause>) {
    && (forall c {:trigger c in all} :: c in all <==> c.lit == lit && c.ws in W(ws, lit) && Live(cs, c.ws))
    && (forall c {:trigger c in cls} :: c in cls ==> c in all) && DistinctBodies(cs, cls)
    && forall c {:trigger c in all} :: c in all ==> (Represented(cs, cls, c) <==> Shortest(cs, all, c))
  }

  /** One turn of the search: the pairs and clauses matched, and the candidates found for them. */
  datatype Round = Round(ms: seq<LitPair>, cls: seq<OccurClause>, pots: seq<PotentialClause>)

  ghost predicate NextRound(r: Round, s: Round, p: LitPair) {
    s.ms == r.ms + [p] && BestPair(r.pots, |r.ms|, |r.cls|, p) && RecordedWith(r.pots, p, s.cls)
  }

  ghost predicate Follows(r: Round, s: Round) {
    exists p: LitPair :: NextRound(r, s, p)
  }

  /** A search from a literal: the best pair is taken as long as there is one. */
  ghost predicate SearchRun(ws: WatchLists, cs: OccClauses, bag: multiset<Clause>, lit: Lit, twoLit: bool, slots: nat,
                            rounds: seq<Round>)
  {
    && rounds != [] && rounds[0].ms == [OneLit(lit)] && FirstClauses(ws, cs, lit, rounds[0].cls)
    && (forall i {:trigger rounds[i]} ::
      0 <= i < |rounds| ==> CandidatesOf(cs, bag, rounds[i].ms, rounds[i].cls, rounds[i].pots, twoLit, slots))
    && (forall i {:trigger rounds[i]} :: 0 < i < |rounds| ==> Follows(rounds[i - 1], rounds[i]))
  }

  function SimplificationSize(l: nat, c: nat): int {
    l * c - l - c
  }

  /**
   When a search that could go on no further ends without a smaller formula, no pair takes the place of the literal in
   more than two of its clauses, and if one does in two, no third pair does so in both.
   */
  lemma LeftAlone(ws: WatchLists, cs: OccClauses, bag: multiset<Clause>, lit: Lit, twoLit: bool, slots: nat,
                  rounds: seq<Round>)
    requires SearchRun(ws, cs, bag, lit, twoLit, slots, rounds)
    requires var r := rounds[|rounds| - 1];
      NoneSaves(r.pots, |r.ms|, |r.cls|) && SimplificationSize(|r.ms|, |r.cls|) <= 0
    ensures |rounds| <= 2
    ensures forall p: LitPair {:trigger CountOf(rounds[0].pots, p)} :: CountOf(rounds[0].pots, p) <= |rounds|
    ensures forall p: LitPair {:trigger CountOf(rounds[|rounds| - 1].pots, p)} ::
      CountOf(rounds[|rounds| - 1].pots, p) <= 1
  {
    hide FirstClauses, CandidatesOf, Saves, SimplificationSize, Follows;
    var n := |rounds|;
    var r := rounds[n - 1];
    RoundPairs(ws, cs, bag, lit, twoLit, slots, rounds, n - 1);
    if n > 1 {
      RoundPairs(ws, cs, bag, lit, twoLit, slots, rounds, n - 2);
      ChosenSaves(rounds[n - 2], r);
      SmallProduct(n - 1, |rounds[n - 2].cls|, |r.cls|);
    }
    NoThird(r.pots, n, |r.cls|);
  }

  lemma ChosenSaves(r: Round, s: Round)
    requires Follows(r, s)
    ensures Saves(|r.ms|, |r.cls|, |s.cls|) && forall q {:trigger CountOf(r.pots, q)} :: CountOf(r.pots, q) <= |s.cls|
  {
    hide CountOf, Saves;
    var p :| NextRound(r, s, p);
  }

  lemma SmallProduct(l: nat, c: nat, n: nat)
    requires Saves(l, c, n) && SimplificationSize(l + 1, n) <= 0
    ensures l <= 1 && (l == 1 ==> n == 2)
  {
    assert SimplificationSize(l + 1, n) == (l + 1) * n - (l + 1) - n;
  }

  lemma NoThird(pots: seq<PotentialClause>, l: nat, c: nat)
    requires NoneSaves(pots, l, c) && 1 <= l <= 2 && (l == 2 ==> c == 2)
    ensures forall p: LitPair {:trigger CountOf(pots, p)} :: CountOf(pots, p) <= 1
  {
    hide CountOf;
    forall p: LitPair
      ensures CountOf(pots, p) <= 1
    {
      assert !Saves(l, c, CountOf(pots, p));
    }
  }

  lemma {:induction false} RoundPairs(ws: WatchLists, cs: OccClauses, bag: multiset<Clause>, lit: Lit, twoLit: bool,
                                      slots: nat, rounds: seq<Round>, i: nat)
    requires SearchRun(ws, cs, bag, lit, twoLit, slots, rounds) && i < |rounds|
    ensures |rounds[i].ms| == i + 1
  {
    hide FirstClauses, CandidatesOf, BestPair, RecordedWith;
    if i > 0 {
      RoundPairs(ws, cs, bag, lit, twoLit, slots, rounds, i - 1);
      assert Follows(rounds[i - 1], rounds[i]);
      var p :| NextRound(rounds[i - 1], rounds[i], p);
    }
  }

  /** Whatever the first `n` entries of the list give is taken. */
  ghost predicate Scanned(cs: OccClauses, c: OccurClause, l: Lit, ws: seq<Watched>, n: nat, twoLit: bool,
                          thisCl: seq<LitPair>, slots: nat)
  {
    slots > 0 && n <= |ws|
    && forall k, p: LitPair {:trigger PartnerBy(cs, c, OccurClause(l, ws[k]), p, twoLit)} ::
      0 <= k < n && PartnerBy(cs, c, OccurClause(l, ws[k]), p, twoLit) ==> Hash(p, slots) in HashesOf(thisCl, slots)
  }

  lemma ScannedNext(cs: OccClauses, c: OccurClause, l: Lit, ws: seq<Watched>, n: nat, twoLit: bool,
                    before: seq<LitPair>, thisCl: seq<LitPair>, slots: nat)
    requires slots > 0 && n < |ws| && before <= thisCl
    requires forall p: LitPair {:trigger Hash(p, slots)} ::
      PartnerBy(cs, c, OccurClause(l, ws[n]), p, twoLit) ==> Hash(p, slots) in HashesOf(thisCl, slots)
    ensures Scanned(cs, c, l, ws, n, twoLit, before, slots) ==> Scanned(cs, c, l, ws, n + 1, twoLit, thisCl, slots)
  {
    hide PartnerBy, Hash;
    assert HashesOf(before, slots) <= HashesOf(thisCl, slots) by {
      forall q | q in before
        ensures q in thisCl
      {
        var i :| 0 <= i < |before| && before[i] == q;
        assert thisCl[i] == q;
      }
    }
  }

  /** A clause that the pair gives stands in the list of every literal of the body. */
  lemma ScannedAll(ws: WatchLists, cs: OccClauses, bag: multiset<Clause>, c: OccurClause, l: Lit, twoLit: bool,
                   thisCl: seq<LitPair>, slots: nat)
    requires OccOk(ws, cs) && BagOk(ws, cs, bag) && l in Body(cs, c)
    requires Scanned(cs, c, l, W(ws, l), |W(ws, l)|, twoLit, thisCl, slots)
    ensures forall p: LitPair {:trigger Candidate(cs, bag, c, p, twoLit)} ::
      Candidate(cs, bag, c, p, twoLit) ==> Hash(p, slots) in HashesOf(thisCl, slots)
  {
    hide OccOk, BagOk, Hash, HashesOf, Body, ClauseOf;
    forall p: LitPair | Candidate(cs, bag, c, p, twoLit)
      ensures Hash(p, slots) in HashesOf(thisCl, slots)
    {
      var k := InItsList(ws, cs, bag, l, PairLits(p) + Body(cs, c));
      assert PartnerBy(cs, c, OccurClause(l, W(ws, l)[k]), p, twoLit);
    }
  }

  lemma InItsList(ws: WatchLists, cs: OccClauses, bag: multiset<Clause>, l: Lit, c: Clause) returns (k: nat)
    requires OccOk(ws, cs) && BagOk(ws, cs, bag) && c in bag && l in c
    ensures k < |W(ws, l)| && Live(cs, W(ws, l)[k]) && Lits(ClauseOf(cs, l, W(ws, l)[k])) == c
  {
    assert c in Irred(ws, cs, []) by {
      BagFormula(ws, cs, bag, c);
    }
    OccExact(ws, cs, [], l, c);
    var w :| w in W(ws, l) && Live(cs, w) && c == Lits(ClauseOf(cs, l, w));
    k :| 0 <= k < |W(ws, l)| && W(ws, l)[k] == w;
  }

  lemma FoundCandidates(ws: WatchLists, cs: OccClauses, bag: multiset<Clause>, lit: Lit, ms: seq<LitPair>,
                        cls: seq<OccurClause>, pots: seq<PotentialClause>, pots': seq<PotentialClause>, twoLit: bool,
                        slots: nat)
    requires OccOk(ws, cs) && Matched(ws, cs, bag, lit, ms, cls) && Reordered(pots, pots')
    requires AllFound(cs, bag, ms, cls, pots, twoLit, slots, |cls|) && PairsAllowed(pots, twoLit)
    requires PotentialOk(cs, bag, ms, cls, pots', |cls|)
    ensures CandidatesOf(cs, bag, ms, cls, pots', twoLit, slots)
  {
    hide OccOk, PotentialOk, Candidate, HasFree, ReorderedBy, Hash, Body, Factors, DiffPair;
    var at :| ReorderedBy(pots, pots', at);
    SameIn(pots, pots', at);
    forall a | 0 <= a < |pots'| && pots'[a].lits.lit2.Some?
      ensures twoLit
    {
      assert pots'[a] in pots;
    }
    forall c, p: LitPair | c in cls && Candidate(cs, bag, c, p, twoLit)
      ensures Taken(ms, pots', c, p, slots)
    {
      var j :| 0 <= j < |cls| && cls[j] == c;
      assert FoundFor(cs, bag, ms, pots, cls[j], twoLit, slots);
      BodyFree(ws, cs, ms, cls, j);
      assert Taken(ms, pots, c, p, slots);
      var q :| Hash(q, slots) == Hash(p, slots) && (q in ms || PotentialClause(q, c) in pots);
      assert q in ms || PotentialClause(q, c) in pots';
    }
  }

  lemma SameIn(a: seq<PotentialClause>, b: seq<PotentialClause>, at: seq<nat>)
    requires ReorderedBy(a, b, at)
    ensures forall x {:trigger x in a} {:trigger x in b} :: x in a <==> x in b
  {
    forall x
      ensures x in a <==> x in b
    {
      if x in a {
        var k :| 0 <= k < |a| && a[k] == x;
        assert k in at;
        var i :| 0 <= i < |at| && at[i] == k;
        assert b[i] == x;
      }
      if x in b {
        var i :| 0 <= i < |b| && b[i] == x;
        assert a[at[i]] == x;
      }
    }
  }

  /** The matching pairs have nothing in common with the bodies. */
  lemma BodyFree(ws: WatchLists, cs: OccClauses, ms: seq<LitPair>, cls: seq<OccurClause>, j: nat)
    requires OccOk(ws, cs) && j < |cls| && cls[j].ws in W(ws, cls[j].lit) && Factors(Matches(ms), Bodies(cs, cls))
    ensures HasFree(cs, ms, cls[j])
  {
    var c := cls[j];
    ClauseOfOk(ws, cs, c.lit, c.ws);
    BodyNotEmpty(cs, c);
    hide OccOk, ClauseOf, Body;
    var l :| l in Body(cs, c);
    forall i | 0 <= i < |ms|
      ensures l !in PairLits(ms[i])
    {
      assert Matches(ms)[i] !! Bodies(cs, cls)[j];
    }
  }

  lemma RecordedIn(pots: seq<PotentialClause>, p: LitPair, cls: seq<OccurClause>)
    requires RecordedWith(pots, p, cls) && CountOf(pots, p) >= 1
    ensures cls != [] && pots != [] && forall c :: c in cls ==> PotentialClause(p, c) in pots
  {
    assert cls[0] in cls;
  }

  /** The search up to now, which goes on with these pairs and clauses. */
  ghost predicate Searching(ws: WatchLists, cs: OccClauses, bag: multiset<Clause>, lit: Lit, twoLit: bool, slots: nat,
                            rounds: seq<Round>, ms: seq<LitPair>, cls: seq<OccurClause>)
  {
    if rounds == [] then ms == [OneLit(lit)] && FirstClauses(ws, cs, lit, cls)
    else
      SearchRun(ws, cs, bag, lit, twoLit, slots, rounds)
      && Follows(rounds[|rounds| - 1], Round(ms, cls, []))
  }

  lemma RunNext(ws: WatchLists, cs: OccClauses, bag: multiset<Clause>, lit: Lit, twoLit: bool, slots: nat,
                rounds: seq<Round>, r: Round)
    requires Searching(ws, cs, bag, lit, twoLit, slots, rounds, r.ms, r.cls)
      && CandidatesOf(cs, bag, r.ms, r.cls, r.pots, twoLit, slots)
    ensures SearchRun(ws, cs, bag, lit, twoLit, slots, rounds + [r])
  {
    hide FirstClauses, CandidatesOf, BestPair, RecordedWith;
    var next := rounds + [r];
    forall i | 0 < i < |next|
      ensures Follows(next[i - 1], next[i])
    {
      if i < |rounds| {
        assert next[i - 1] == rounds[i - 1] && next[i] == rounds[i];
      } else {
        var p :| NextRound(rounds[|rounds| - 1], Round(r.ms, r.cls, []), p);
        assert NextRound(next[i - 1], next[i], p);
      }
    }
  }

  lemma FirstOf(ws: WatchLists, cs: OccClauses, lit: Lit, all: seq<OccurClause>, cls: seq<OccurClause>)
    requires OneEach(ws, cs, lit, all, cls)
    ensures FirstClauses(ws, cs, lit, cls)
  {
  }

  lemma MatchesSome(ws: WatchLists, cs: OccClauses, bag: multiset<Clause>, lit: Lit, ms: seq<LitPair>,
                    cls: seq<OccurClause>)
    requires Matched(ws, cs, bag, lit, ms, cls) && SimplificationSize(|ms|, |cls|) > 0
    ensures |ms| > 0 && |cls| > 0
  {
  }

  lemma NoneAllowed(twoLit: bool)
    ensures PairsAllowed([], twoLit)
  {
  }

  lemma AllowedNext(pots: seq<PotentialClause>, p: LitPair, c: OccurClause, twoLit: bool)
    requires PairsAllowed(pots, twoLit) && (p.lit2.Some? ==> twoLit)
    ensures PairsAllowed(pots + [PotentialClause(p, c)], twoLit)
  {
  }

  lemma NoneFound(cs: OccClauses, bag: multiset<Clause>, ms: seq<LitPair>, cls: seq<OccurClause>,
                  pots: seq<PotentialClause>, twoLit: bool, slots: nat)
    ensures AllFound(cs, bag, ms, cls, pots, twoLit, slots, 0)
  {
  }

  lemma FoundNext(cs: OccClauses, bag: multiset<Clause>, ms: seq<LitPair>, cls: seq<OccurClause>,
                  pots: seq<PotentialClause>, pots': seq<PotentialClause>, twoLit: bool, slots: nat, j: nat)
    requires AllFound(cs, bag, ms, cls, pots, twoLit, slots, j) && j < |cls| && pots <= pots'
      && FoundFor(cs, bag, ms, pots', cls[j], twoLit, slots)
    ensures AllFound(cs, bag, ms, cls, pots', twoLit, slots, j + 1)
  {
    hide Candidate, HasFree, Hash;
    forall i, p: LitPair | 0 <= i < j && Taken(ms, pots, cls[i], p, slots)
      ensures Taken(ms, pots', cls[i], p, slots)
    {
      var q :| Hash(q, slots) == Hash(p, slots) && (q in ms || PotentialClause(q, cls[i]) in pots);
      if PotentialClause(q, cls[i]) in pots {
        var a :| 0 <= a < |pots| && pots[a] == PotentialClause(q, cls[i]);
        assert pots'[a] == pots[a];
      }
    }
    forall i | 0 <= i < j + 1
      ensures FoundFor(cs, bag, ms, pots', cls[i], twoLit, slots)
    {
      assert i < j ==> FoundFor(cs, bag, ms, pots, cls[i], twoLit, slots);
    }
  }

  lemma FoundThis(cs: OccClauses, bag: multiset<Clause>, ms: seq<LitPair>, cls: seq<OccurClause>,
                  pots: seq<PotentialClause>, j: nat, twoLit: bool, slots: nat, thisCl: seq<LitPair>)
    requires slots > 0 && ThisClause(ms, cls, pots, j, thisCl)
    ensures (forall p: LitPair {:trigger Candidate(cs, bag, cls[j], p, twoLit)} ::
        Candidate(cs, bag, cls[j], p, twoLit) ==> Hash(p, slots) in HashesOf(thisCl, slots)) ==>
      FoundFor(cs, bag, ms, pots, cls[j], twoLit, slots)
  {
    hide Candidate, HasFree, Hash;
    forall p: LitPair | Hash(p, slots) in HashesOf(thisCl, slots)
      ensures Taken(ms, pots, cls[j], p, slots)
    {
      var q :| q in thisCl && Hash(q, slots) == Hash(p, slots);
      assert q in ms || PotentialClause(q, cls[j]) in pots;
    }
  }

  /** The tests by length and by difference let every partner through, and find its pair. */
  lemma PartnerFits(ws: WatchLists, cs: OccClauses, c: OccurClause, d: OccurClause, twoLit: bool)
    requires OccOk(ws, cs) && ClausesSorted(cs) && c.ws in W(ws, c.lit) && d.ws in W(ws, d.lit)
      && d.lit in Body(cs, c)
    ensures forall p: LitPair {:trigger PartnerBy(cs, c, d, p, twoLit)} ::
      PartnerBy(cs, c, d, p, twoLit) ==>
      var lc, ld := ClauseOf(cs, c.lit, c.ws), ClauseOf(cs, d.lit, d.ws);
      && Live(cs, d.ws) && c.ws != d.ws && (|ld| == |lc| || (|lc| + 1 == |ld| && twoLit))
      && DiffOf(LitsOutside(lc, ld)) == OneLit(c.lit) && DiffOf(LitsOutside(ld, lc)) == p
  {
    hide OccOk, LitsOutside, ClausesSorted;
    forall p: LitPair | PartnerBy(cs, c, d, p, twoLit)
      ensures var lc, ld := ClauseOf(cs, c.lit, c.ws), ClauseOf(cs, d.lit, d.ws);
        && Live(cs, d.ws) && c.ws != d.ws && (|ld| == |lc| || (|lc| + 1 == |ld| && twoLit))
        && DiffOf(LitsOutside(lc, ld)) == OneLit(c.lit) && DiffOf(LitsOutside(ld, lc)) == p
    {
      PartnerEntry(ws, cs, c, d, p, twoLit);
      ClauseOfOk(ws, cs, c.lit, c.ws);
      ClauseOfOk(ws, cs, d.lit, d.ws);
      if |ClauseOf(cs, d.lit, d.ws)| >= 3 {
        LongSorted(ws, cs, d);
      }
      PartnerShape(ClauseOf(cs, c.lit, c.ws), ClauseOf(cs, d.lit, d.ws), c.lit, p);
    }
  }

  lemma PartnerEntry(ws: WatchLists, cs: OccClauses, c: OccurClause, d: OccurClause, p: LitPair, twoLit: bool)
    requires OccOk(ws, cs) && c.ws in W(ws, c.lit) && d.ws in W(ws, d.lit) && d.lit in Body(cs, c)
    requires PartnerBy(cs, c, d, p, twoLit)
    ensures c.ws != d.ws
  {
    assert p.lit1.value in PairLits(p);
    EntryInside(ws, cs, d);
    assert c.ws.Bin? ==> d.lit == c.ws.lit2;
  }

  lemma PartnerShape(lc: seq<Lit>, ld: seq<Lit>, l: Lit, p: LitPair)
    requires DistinctVarsOf(lc) && DistinctVarsOf(ld) && (|ld| >= 3 ==> SortedLits(ld)) && |lc| >= 2 && l in lc
    requires PairOk(p) && PairSorted(p) && PairLits(p) !! Lits(lc) && Lits(ld) == PairLits(p) + (Lits(lc) - {l})
    ensures |ld| == |lc| + if p.lit2.Some? then 1 else 0
    ensures DiffOf(LitsOutside(lc, ld)) == OneLit(l) && DiffOf(LitsOutside(ld, lc)) == p
  {
    hide LitsOutside, DistinctVarsOf, SortedLits, Lits, PairOk, PairSorted, PairLits;
    OutsideSet(lc, ld);
    OutsideSet(ld, lc);
    var s, r := LitsOutside(lc, ld), LitsOutside(ld, lc);
    DistinctSize(lc);
    DistinctSize(ld);
    DistinctSize(s);
    DistinctSize(r);
    LInLits(lc, l);
    PartnerSets(Lits(lc), Lits(ld), l, p);
    PartnerSize(Lits(lc), l, p);
    OneOfSeq(s, l);
    PairOfSeq(r);
    SortedPair(ld, lc);
    OneSorted(r);
    PairLitsInjective(DiffOf(r), p);
  }

  lemma LInLits(c: seq<Lit>, l: Lit)
    requires l in c
    ensures l in Lits(c)
  {
  }

  lemma OneSorted(r: seq<Lit>)
    ensures |r| == 1 ==> PairSorted(DiffOf(r))
  {
  }

  lemma PartnerSets(c: Clause, d: Clause, l: Lit, p: LitPair)
    requires PairOk(p) && PairLits(p) !! c && l in c && d == PairLits(p) + (c - {l})
    ensures c - d == {l} && d - c == PairLits(p)
  {
    assert l !in PairLits(p);
  }

  lemma PartnerSize(c: Clause, l: Lit, p: LitPair)
    requires PairOk(p) && PairLits(p) !! c && l in c
    ensures |PairLits(p)| == if p.lit2.Some? then 2 else 1
    ensures |PairLits(p) + (c - {l})| == |PairLits(p)| + |c| - 1
  {
    assert PairLits(p) !! (c - {l});
    assert |c - {l}| == |c| - 1;
    if p.lit2.Some? {
      assert PairLits(p) == {p.lit1.value, p.lit2.value};
    } else {
      assert PairLits(p) == {p.lit1.value};
    }
  }

  lemma OneOfSeq(s: seq<Lit>, l: Lit)
    requires |s| == 1 && Lits(s) == {l}
    ensures DiffOf(s) == OneLit(l)
  {
    assert s[0] in Lits(s);
  }

  lemma SortedPair(a: seq<Lit>, b: seq<Lit>)
    requires |a| >= 3 ==> SortedLits(a)
    ensures |a| >= 3 ==> PairSorted(DiffOf(LitsOutside(a, b)))
  {
    if |a| >= 3 {
      OutsideSorted(a, b);
    }
  }

  lemma TwoOnlyLonger(ws: WatchLists, cs: OccClauses, c: OccurClause, d: OccurClause, diff: LitPair)
    requires OccOk(ws, cs) && c.ws in W(ws, c.lit) && d.ws in W(ws, d.lit)
    requires var lc, ld := ClauseOf(cs, c.lit, c.ws), ClauseOf(cs, d.lit, d.ws);
      DiffOf(LitsOutside(lc, ld)) == OneLit(c.lit) && diff == DiffOf(LitsOutside(ld, lc))
    ensures diff.lit2.Some? ==> |ClauseOf(cs, d.lit, d.ws)| != |ClauseOf(cs, c.lit, c.ws)|
  {
    hide OccOk, LitsOutside, ClauseOf;
    var lc, ld := ClauseOf(cs, c.lit, c.ws), ClauseOf(cs, d.lit, d.ws);
    ClauseOfOk(ws, cs, c.lit, c.ws);
    ClauseOfOk(ws, cs, d.lit, d.ws);
    OutsideSet(lc, ld);
    OutsideSet(ld, lc);
    OnlyOne(LitsOutside(lc, ld), c.lit);
    DistinctSize(lc);
    DistinctSize(ld);
    DistinctSize(LitsOutside(ld, lc));
    DiffSizes(Lits(lc), Lits(ld), c.lit);
  }

  /**
   With a slot for every literal and single literals only, no two pairs share a hash value: every candidate is found.
   */
  lemma NoneLost(cs: OccClauses, bag: multiset<Clause>, units: seq<Lit>, n: nat, ms: seq<LitPair>,
                 cls: seq<OccurClause>, pots: seq<PotentialClause>, slots: nat, c: OccurClause, p: LitPair)
    requires CandidatesOf(cs, bag, ms, cls, pots, false, slots) && VarsBelow(bag, units, n) && slots >= 2 * n
    requires forall m {:trigger m in ms} :: m in ms ==> m.lit1.Some? && m.lit1.value.v < n && m.lit2 == None
    requires c in cls && Candidate(cs, bag, c, p, false)
    ensures p in ms || PotentialClause(p, c) in pots
  {
    CandidateBelow(cs, bag, units, n, c, p);
    var q :| Hash(q, slots) == Hash(p, slots) && (q in ms || PotentialClause(q, c) in pots);
    if q !in ms {
      var a :| 0 <= a < |pots| && pots[a] == PotentialClause(q, c);
      CandidateBelow(cs, bag, units, n, c, q);
    }
    SlotOf(p.lit1.value, n, slots);
    SlotOf(q.lit1.value, n, slots);
    assert ToInt(p.lit1.value) == ToInt(q.lit1.value);
  }

  lemma CandidateBelow(cs: OccClauses, bag: multiset<Clause>, units: seq<Lit>, n: nat, c: OccurClause, p: LitPair)
    requires VarsBelow(bag, units, n) && DiffPair(cs, bag, c, p)
    ensures p.lit1.Some? && p.lit1.value.v < n
  {
    assert p.lit1.value in PairLits(p) + Body(cs, c);
  }

  lemma SlotOf(l: Lit, n: nat, slots: nat)
    requires l.v < n && slots >= 2 * n
    ensures Hash(OneLit(l), slots) == ToInt(l)
  {
  }

  lemma MorePotential(cs: OccClauses, bag: multiset<Clause>, ms: seq<LitPair>, cls: seq<OccurClause>,
                      pots: seq<PotentialClause>, n: nat, n': nat)
    requires PotentialOk(cs, bag, ms, cls, pots, n) && n <= n' <= |cls|
    ensures PotentialOk(cs, bag, ms, cls, pots, n')
  {
    hide DiffPair;
    assert forall c :: c in cls[..n] ==> c in cls[..n'] by {
      assert cls[..n] == cls[..n'][..n];
    }
  }

  lemma StartPotential(cs: OccClauses, bag: multiset<Clause>, ms: seq<LitPair>, cls: seq<OccurClause>,
                       pots: seq<PotentialClause>, j: nat)
    requires PotentialOk(cs, bag, ms, cls, pots, j) && j < |cls| && Factors(Matches(ms), Bodies(cs, cls))
    ensures ThisClause(ms, cls, pots, j, ms)
  {
    hide DiffPair;
    forall a | 0 <= a < |pots|
      ensures pots[a].occurCl != cls[j]
    {
      var i :| 0 <= i < j && cls[..j][i] == pots[a].occurCl;
      assert Bodies(cs, cls)[i] != Bodies(cs, cls)[j];
    }
  }

  lemma PotentialNext(cs: OccClauses, bag: multiset<Clause>, ms: seq<LitPair>, cls: seq<OccurClause>,
                      pots: seq<PotentialClause>, j: nat, thisCl: seq<LitPair>, p: LitPair)
    requires PotentialOk(cs, bag, ms, cls, pots, j + 1) && ThisClause(ms, cls, pots, j, thisCl) && p !in thisCl
      && DiffPair(cs, bag, cls[j], p)
    ensures PotentialOk(cs, bag, ms, cls, pots + [PotentialClause(p, cls[j])], j + 1)
    ensures ThisClause(ms, cls, pots + [PotentialClause(p, cls[j])], j, thisCl + [p])
  {
    hide DiffPair;
    assert cls[..j + 1][j] == cls[j];
    assert p !in ms;
  }

  /** Both differences together: the other clause is the body with the pair. */
  lemma DiffFound(ws: WatchLists, cs: OccClauses, bag: multiset<Clause>, c: OccurClause, d: OccurClause, diff: LitPair)
    requires OccOk(ws, cs) && BagOk(ws, cs, bag) && ClausesSorted(cs)
    requires c.ws in W(ws, c.lit) && d.ws in W(ws, d.lit) && Live(cs, d.ws)
    requires var lc, ld := ClauseOf(cs, c.lit, c.ws), ClauseOf(cs, d.lit, d.ws);
      && (|ld| == |lc| || |ld| == |lc| + 1)
      && DiffOf(LitsOutside(lc, ld)) == OneLit(c.lit) && diff == DiffOf(LitsOutside(ld, lc))
    ensures DiffPair(cs, bag, c, diff)
  {
    hide OccOk, BagOk, LongOffs, Cnt, LitsOutside, ClauseOf;
    var lc, ld := ClauseOf(cs, c.lit, c.ws), ClauseOf(cs, d.lit, d.ws);
    ClauseOfOk(ws, cs, c.lit, c.ws);
    ClauseOfOk(ws, cs, d.lit, d.ws);
    if |ld| >= 3 {
      LongSorted(ws, cs, d);
    }
    DiffShape(lc, ld, c.lit, diff);
    LiveInBag(ws, cs, bag, d);
  }

  lemma DiffShape(lc: seq<Lit>, ld: seq<Lit>, l: Lit, diff: LitPair)
    requires DistinctVarsOf(lc) && DistinctVarsOf(ld) && (|ld| >= 3 ==> SortedLits(ld)) && |lc| >= 2
    requires |ld| == |lc| || |ld| == |lc| + 1
    requires DiffOf(LitsOutside(lc, ld)) == OneLit(l) && diff == DiffOf(LitsOutside(ld, lc))
    ensures PairOk(diff) && PairSorted(diff) && PairLits(diff) !! Lits(lc)
      && PairLits(diff) + (Lits(lc) - {l}) == Lits(ld)
  {
    hide LitsOutside, DistinctVarsOf;
    OutsideSet(lc, ld);
    OutsideSet(ld, lc);
    var s, r := LitsOutside(lc, ld), LitsOutside(ld, lc);
    OnlyOne(s, l);
    DistinctSize(lc);
    DistinctSize(ld);
    DistinctSize(r);
    DiffSizes(Lits(lc), Lits(ld), l);
    PairOfSeq(r);
    if |r| == 2 {
      OutsideSorted(ld, lc);
    }
  }

  lemma OnlyOne(s: seq<Lit>, l: Lit)
    requires DiffOf(s) == OneLit(l)
    ensures Lits(s) == {l}
  {
    assert s == [l];
  }

  lemma PairOfSeq(r: seq<Lit>)
    requires 1 <= |r| <= 2 && DistinctVarsOf(r)
    ensures PairLits(DiffOf(r)) == Lits(r) && PairOk(DiffOf(r))
  {
    assert r == if |r| == 1 then [r[0]] else [r[0], r[1]];
  }

  lemma {:induction false} OutsideSet(a: seq<Lit>, b: seq<Lit>)
    requires DistinctVarsOf(a)
    ensures Lits(LitsOutside(a, b)) == Lits(a) - Lits(b) && DistinctVarsOf(LitsOutside(a, b))
  {
    if a != [] {
      var n := |a| - 1;
      OutsideSet(a[..n], b);
      assert a == a[..n] + [a[n]];
      assert Lits(a) == Lits(a[..n]) + {a[n]};
      var r := LitsOutside(a[..n], b);
      assert Lits(r + [a[n]]) == Lits(r) + {a[n]};
      forall i | 0 <= i < |r|
        ensures r[i].v != a[n].v
      {
        assert r[i] in Lits(r);
        var k :| 0 <= k < n && a[..n][k] == r[i];
      }
    }
  }

  lemma {:induction false} OutsideSorted(a: seq<Lit>, b: seq<Lit>)
    requires SortedLits(a)
    ensures SortedLits(LitsOutside(a, b)) && forall l :: l in LitsOutside(a, b) ==> l in a
  {
    if a != [] {
      var n := |a| - 1;
      OutsideSorted(a[..n], b);
      assert a == a[..n] + [a[n]];
      var r := LitsOutside(a[..n], b);
      forall i | 0 <= i < |r|
        ensures ToInt(r[i]) < ToInt(a[n])
      {
        assert r[i] in r;
        var k :| 0 <= k < n && a[..n][k] == r[i];
      }
    }
  }

  lemma DiffSizes(c: Clause, d: Clause, l: Lit)
    requires c - d == {l}
    ensures |d - c| == |d| - |c| + 1
  {
    assert c == (c * d) + {l};
    assert l !in c * d;
    assert d == (c * d) + (d - c);
  }

  lemma LongSorted(ws: WatchLists, cs: OccClauses, d: OccurClause)
    requires OccOk(ws, cs) && ClausesSorted(cs) && d.ws in W(ws, d.lit) && |ClauseOf(cs, d.lit, d.ws)| >= 3
    ensures SortedLits(ClauseOf(cs, d.lit, d.ws))
  {
  }

  lemma LiveInBag(ws: WatchLists, cs: OccClauses, bag: multiset<Clause>, d: OccurClause)
    requires OccOk(ws, cs) && BagOk(ws, cs, bag) && d.ws in W(ws, d.lit) && Live(cs, d.ws)
    ensures Lits(ClauseOf(cs, d.lit, d.ws)) in bag
  {
    hide BagOk;
    var c := Lits(ClauseOf(cs, d.lit, d.ws));
    assert c in OccOf(ws, cs, d.lit);
    OccExact(ws, cs, [], d.lit, c);
    BagFormula(ws, cs, bag, c);
  }

  /** The literals of one clause outside another, in order. */
  ghost function LitsOutside(a: seq<Lit>, b: seq<Lit>): seq<Lit> {
    if a == [] then [] else LitsOutside(a[..|a| - 1], b) + if a[|a| - 1] in b then [] else [a[|a| - 1]]
  }

  ghost function DiffOf(s: seq<Lit>): LitPair {
    if |s| == 1 then LitPair(Some(s[0]), None) else if |s| == 2 then LitPair(Some(s[0]), Some(s[1])) else NO_LITS
  }

  /** The literals of the first `n` matched clauses. */
  ghost predicate LitsFilled(cs: OccClauses, cls: seq<OccurClause>, r: seq<ClsLits>, n: nat) {
    && |r| == n <= |cls|
    && forall j {:trigger r[j]} ::
      0 <= j < n ==> !r[j].red && DistinctVarsOf(r[j].lits) && r[j].lits != [] && Lits(r[j].lits) == Body(cs, cls[j])
  }

  /** A clause has each variable once. */
  ghost predicate PlainClause(c: Clause) {
    forall a: Lit, b: Lit {:trigger a in c, b in c} :: a in c && b in c && a.v == b.v ==> a == b
  }

  lemma NoProduct(ms: seq<Clause>, bs: seq<Clause>)
    ensures Product(ms[..0], bs) == multiset{}
  {
  }

  lemma NoRow(ms: seq<Clause>, bs: seq<Clause>, i: nat)
    requires i < |ms|
    ensures RemovedSoFar(ms, bs, i, 0) == Product(ms[..i], bs)
  {
  }

  lemma PairClauseOk(p: LitPair, lits: seq<Lit>)
    requires PairOk(p) && DistinctVarsOf(lits) && PlainClause(PairLits(p) + Lits(lits)) && PairLits(p) !! Lits(lits)
    ensures DistinctVarsOf(PairSeq(p) + lits)
  {
    var s := PairSeq(p);
    forall i, j | 0 <= i < |s| && 0 <= j < |lits|
      ensures s[i].v != lits[j].v
    {
      assert s[i] in PairLits(p) && lits[j] in Lits(lits);
    }
    assert DistinctVarsOf(s);
  }

  /** The literals of a matched product are those of clauses in the bag. */
  lemma MatchedVars(ws: WatchLists, cs: OccClauses, bag: multiset<Clause>, units: seq<Lit>, lit: Lit, ms: seq<LitPair>,
                    cls: seq<OccurClause>, n: nat)
    requires OccOk(ws, cs) && BagOk(ws, cs, bag) && Matched(ws, cs, bag, lit, ms, cls) && VarsBelow(bag, units, n)
      && cls != []
    ensures forall i {:trigger ms[i]} :: 0 <= i < |ms| ==> forall l :: l in PairLits(ms[i]) ==> l.v < n
    ensures forall j, l {:trigger l in ClauseOf(cs, lit, cls[j].ws)} ::
      0 <= j < |cls| && l in ClauseOf(cs, lit, cls[j].ws) ==> l.v < n
    ensures forall i, j {:trigger Matches(ms)[i], Bodies(cs, cls)[j]} ::
      0 <= i < |ms| && 0 <= j < |cls| ==> PlainClause(Matches(ms)[i] + Bodies(cs, cls)[j])
  {
    hide OccOk, BagOk, Factors;
    forall i, j | 0 <= i < |ms| && 0 <= j < |cls|
      ensures PairLits(ms[i]) + Body(cs, cls[j]) in bag
      ensures PlainClause(PairLits(ms[i]) + Body(cs, cls[j]))
    {
      BagPlain(ws, cs, bag, PairLits(ms[i]) + Body(cs, cls[j]));
    }
    forall i, l | 0 <= i < |ms| && l in PairLits(ms[i])
      ensures l.v < n
    {
      assert l in PairLits(ms[i]) + Body(cs, cls[0]);
    }
    forall j, l | 0 <= j < |cls| && l in ClauseOf(cs, lit, cls[j].ws)
      ensures l.v < n
    {
      assert l in PairLits(ms[0]) + Body(cs, cls[j]);
    }
  }

  lemma BagPlain(ws: WatchLists, cs: OccClauses, bag: multiset<Clause>, c: Clause)
    requires OccOk(ws, cs) && BagOk(ws, cs, bag) && c in bag
    ensures PlainClause(c)
  {
    hide Cnt, LongOffs;
    if |c| >= 3 {
      assert bag[c] == |OffsOf(cs, c)|;
      var o :| o in OffsOf(cs, c);
      ClauseDistinct(ws, cs, o);
      LitsPlain(cs[o].lits);
    } else {
      assert bag[c] > 0;
      var a: Lit, b: Lit :| a.v != b.v && c == {a, b};
      LitsPlain([a, b]);
      assert Lits([a, b]) == c;
    }
  }

  lemma LitsPlain(lits: seq<Lit>)
    requires DistinctVarsOf(lits)
    ensures PlainClause(Lits(lits))
  {
    forall a: Lit, b: Lit | a in Lits(lits) && b in Lits(lits) && a.v == b.v
      ensures a == b
    {
      var i :| 0 <= i < |lits| && lits[i] == a;
      var j :| 0 <= j < |lits| && lits[j] == b;
      assert i < j || j < i || i == j;
    }
  }

  lemma FactorsApart(ms: seq<Clause>, bs: seq<Clause>, i: nat, j: nat)
    requires Factors(ms, bs) && i < |ms| && j < |bs|
    ensures ms[i] !! bs[j]
  {
  }

  lemma NoneWith(cs: seq<Clause>, l: Lit)
    ensures WithEach(cs[..0], l) == multiset{}
  {
  }

  lemma WithEachNext(cs: seq<Clause>, l: Lit, i: nat)
    requires i < |cs|
    ensures WithEach(cs[..i + 1], l) == WithEach(cs[..i], l) + multiset{cs[i] + {l}}
  {
    assert cs[..i + 1][..i] == cs[..i];
  }

  lemma PairWith(p: LitPair, x: Lit)
    requires PairOk(p) && forall l :: l in PairLits(p) ==> l.v != x.v
    ensures var lits := PairSeq(p) + [x]; Lits(lits) == PairLits(p) + {x} && DistinctVarsOf(lits) && |lits| >= 2
  {
    var s := PairSeq(p);
    assert forall l :: l in s <==> l in PairLits(p);
    assert forall i :: 0 <= i < |s| ==> s[i] in s;
  }

  lemma ExchangeFormula(ws: WatchLists, cs: OccClauses, bag: multiset<Clause>, ws': WatchLists, cs': OccClauses,
                        bag': multiset<Clause>, units: seq<Lit>,
                        ms: seq<Clause>, bs: seq<Clause>, x: nat)
    requires OccOk(ws, cs) && BagOk(ws, cs, bag) && OccOk(ws', cs') && BagOk(ws', cs', bag')
      && Exchanged(bag, bag', ms, bs, x)
    requires VarsBelow(bag, units, x) && |ms| > 0 && |bs| > 0
    requires forall i, j {:trigger ms[i], bs[j]} :: 0 <= i < |ms| && 0 <= j < |bs| ==> ms[i] + bs[j] in bag
    ensures Replaced(Irred(ws, cs, units), Irred(ws', cs', units), ms, bs, x)
  {
    hide OccOk, BagOk, Exchanged, BinClauses, LongFormula, Units;
    var rest := Units(units);
    forall c: Clause
      ensures c in Irred(ws, cs, units) <==> bag[c] > 0 || c in rest
      ensures c in Irred(ws', cs', units) <==> bag'[c] > 0 || c in rest
    {
      BagFormula(ws, cs, bag, c);
      BagFormula(ws', cs', bag', c);
    }
    forall c | c in Irred(ws, cs, units)
      ensures !HasVar(c, x)
    {
      if c in rest {
        UnitVar(units, c, x);
      }
      assert Lit(x, false).v == x && Lit(x, true).v == x;
    }
    ExchangeReplaces(Irred(ws, cs, units), Irred(ws', cs', units), bag, bag', rest, ms, bs, x);
  }

  lemma UnitVar(units: seq<Lit>, c: Clause, x: nat)
    requires c in Units(units) && forall l {:trigger l in units} :: l in units ==> l.v < x
    ensures !HasVar(c, x)
  {
    var u: Lit :| u in units && c == {u};
    assert Lit(x, false) != u && Lit(x, true) != u;
  }

  lemma MoreVars(bag: multiset<Clause>, units: seq<Lit>, n: nat)
    requires VarsBelow(bag, units, n)
    ensures VarsBelow(bag, units, n + 1)
  {
  }

  /** The clauses of `cs` are still the same. */
  ghost predicate CsKept(cs: OccClauses, cs': OccClauses) {
    forall o {:trigger cs'[o]} {:trigger o in cs} :: o in cs ==> o in cs' && cs'[o] == cs[o]
  }

  method Others(lits: seq<Lit>, but: Lit) returns (r: seq<Lit>)
    requires DistinctVarsOf(lits)
    ensures Lits(r) == Lits(lits) - {but} && DistinctVarsOf(r)
  {
    r := [];
    for k := 0 to |lits|
      invariant (forall l :: l in r <==> l in lits[..k] && l != but) && DistinctVarsOf(r)
    {
      assert lits[..k + 1] == lits[..k] + [lits[k]];
      if lits[k] != but {
        forall i | 0 <= i < |r|
          ensures r[i].v != lits[k].v
        {
          assert r[i] in lits[..k];
        }
        r := r + [lits[k]];
      }
    }
    assert lits[..|lits|] == lits;
  }

  lemma BodyNotEmpty(cs: OccClauses, c: OccurClause)
    requires var orig := ClauseOf(cs, c.lit, c.ws); DistinctVarsOf(orig) && |orig| >= 2
    ensures Body(cs, c) != {}
  {
    var orig := ClauseOf(cs, c.lit, c.ws);
    assert orig[0] in orig && orig[1] in orig && orig[0].v != orig[1].v;
    assert orig[0] in Body(cs, c) || orig[1] in Body(cs, c);
  }

  lemma EntryInside(ws: WatchLists, cs: OccClauses, c: OccurClause)
    requires OccOk(ws, cs) && c.ws in W(ws, c.lit)
    ensures c.ws.Long? ==> c.ws.off in cs && c.lit in cs[c.ws.off].lits
    ensures c.ws.Bin? ==> c.ws.lit2.v != c.lit.v
  {
  }

  lemma SwappedIn(cs: OccClauses, c: OccurClause, x: Lit, lits: seq<Lit>)
    requires var orig := ClauseOf(cs, c.lit, c.ws);
      && c.lit in orig && DistinctVarsOf(orig) && |lits| == |orig| && |orig| >= 2
        && (forall l :: l in orig ==> l.v != x.v)
      && forall k {:trigger lits[k]} :: 0 <= k < |orig| ==> lits[k] == if orig[k] == c.lit then x else orig[k]
    ensures Lits(lits) == Body(cs, c) + {x} && DistinctVarsOf(lits)
  {
    var orig := ClauseOf(cs, c.lit, c.ws);
    forall l
      ensures l in lits <==> (l in orig && l != c.lit) || l == x
    {
      if l in lits {
        var k :| 0 <= k < |lits| && lits[k] == l;
        assert orig[k] in orig;
      }
      if l in orig && l != c.lit {
        var k :| 0 <= k < |orig| && orig[k] == l;
        assert lits[k] == l;
      }
      if l == x {
        var k :| 0 <= k < |orig| && orig[k] == c.lit;
        assert lits[k] == x;
      }
    }
    forall i, j | 0 <= i < j < |lits|
      ensures lits[i].v != lits[j].v
    {
      assert orig[i] in orig && orig[j] in orig && orig[i].v != orig[j].v;
      assert orig[i] == c.lit ==> orig[j] != c.lit;
    }
  }

  method AllIn(lits: seq<Lit>, s: set<Lit>) returns (ok: bool)
    ensures ok <==> forall l {:trigger l in lits} :: l in lits ==> l in s
  {
    for k := 0 to |lits|
      invariant forall i {:trigger lits[i]} :: 0 <= i < k ==> lits[i] in s
    {
      if lits[k] !in s {
        assert lits[k] in lits;
        return false;
      }
    }
    return true;
  }

  lemma LinkedCounts(ws: WatchLists, ws': WatchLists, o: nat, lits: seq<Lit>)
    requires lits != [] && Linked(ws, ws', o, lits, |lits|)
    ensures forall a: Lit, b: Lit {:trigger Cnt(W(ws', a), Bin(b, false))} ::
      Cnt(W(ws', a), Bin(b, false)) == Cnt(W(ws, a), Bin(b, false))
  {
    forall a: Lit, b: Lit
      ensures Cnt(W(ws', a), Bin(b, false)) == Cnt(W(ws, a), Bin(b, false))
    {
      Snoc(W(ws, a), Long(o, lits[0]), Bin(b, false));
      assert W(ws, a) + [] == W(ws, a);
    }
  }

  lemma BinPresent(ws: WatchLists, cs: OccClauses, bag: multiset<Clause>, a: Lit, b: Lit)
    requires BagOk(ws, cs, bag) && OccOk(ws, cs) && a.v != b.v && {a, b} in bag
    ensures Bin(b, false) in W(ws, a) && Bin(a, false) in W(ws, b)
  {
    assert bag[{a, b}] == Cnt(W(ws, a), Bin(b, false));
    InCnt(W(ws, a), Bin(b, false));
    BinBack(ws, a, b, false);
  }

  lemma ClauseDistinct(ws: WatchLists, cs: OccClauses, o: nat)
    requires OccOk(ws, cs) && o in cs
    ensures DistinctVarsOf(cs[o].lits) && |cs[o].lits| >= 3
  {
    assert OccClauseOk(ws, cs, o);
  }

  /** What the search is looking for. */
  ghost predicate Wanted(cs: OccClauses, w: Watched, torem: seq<Lit>, red: bool) {
    w.Long? && w.off in cs && cs[w.off].red == red && |cs[w.off].lits| == |torem|
      && forall l :: l in cs[w.off].lits ==> l in torem
  }

  lemma LongPresent(ws: WatchLists, cs: OccClauses, bag: multiset<Clause>, torem: seq<Lit>)
    requires OccOk(ws, cs) && BagOk(ws, cs, bag) && |torem| >= 3 && DistinctVarsOf(torem) && Lits(torem) in bag
    ensures exists i :: 0 <= i < |W(ws, torem[0])| && Wanted(cs, W(ws, torem[0])[i], torem, false)
  {
    var c := Lits(torem);
    DistinctSize(torem);
    assert bag[c] == |OffsOf(cs, c)|;
    var o :| o in OffsOf(cs, c);
    assert OccClauseOk(ws, cs, o) && !cs[o].removed;
    DistinctSize(cs[o].lits);
    assert torem[0] in c && torem[0] in cs[o].lits;
    assert InList(ws, torem[0], o);
    var b: Lit :| Long(o, b) in W(ws, torem[0]);
    var i :| 0 <= i < |W(ws, torem[0])| && W(ws, torem[0])[i] == Long(o, b);
    assert forall l :: l in cs[o].lits ==> l in Lits(cs[o].lits);
    assert Wanted(cs, W(ws, torem[0])[i], torem, false);
  }

  lemma SameSizeSubset(lits: seq<Lit>, torem: seq<Lit>)
    requires DistinctVarsOf(lits) && DistinctVarsOf(torem) && |lits| == |torem|
      && forall l {:trigger l in lits} :: l in lits ==> l in Lits(torem)
    ensures Lits(lits) == Lits(torem)
  {
    DistinctSize(lits);
    DistinctSize(torem);
    SubsetSameSize(Lits(lits), Lits(torem));
  }

  lemma SubsetSameSize(a: Clause, b: Clause)
    requires a <= b && |a| == |b|
    ensures a == b
  {
    assert b == a + (b - a);
  }
}
