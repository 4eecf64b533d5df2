/**
 Eliminating variables all of whose resolvents are tautologies. Whether that is so is not found out pair by pair:
 up to fifteen clauses of one side get a bit each, every literal gets the mask of the clauses it occurs in, and
 each clause of the other side is compared with all of them at once. (cryptoms/occsimplifier.cpp:648-695, 2175-2326)
 */
module EmptyResolvent {
  import opened Literals
  import opened Watches
  import opened Elimination
  import opened OccTheory
  import opened Reconstruction
  import opened EliminationStack
  import opened OccSimplifier
  import opened Masks

  // ----- masks of literals -----

  function MaskOf(seen: map<Lit, Mask>, l: Lit): Mask {
    if l in seen then seen[l] else 0
  }

  ghost predicate AllZero(seen: map<Lit, Mask>) {
    forall y: Lit {:trigger MaskOf(seen, y)} :: MaskOf(seen, y) == 0
  }

  /** The irredundant entries of a list, in order. */
  ghost function LiveOnes(cs: OccClauses, ws: seq<Watched>): seq<Watched> {
    if ws == [] then [] else LiveOnes(cs, ws[..|ws| - 1]) + if Live(cs, ws[|ws| - 1]) then [ws[|ws| - 1]] else []
  }

  /** A clause without the literal whose list it is in. */
  ghost function Rest(cs: OccClauses, l: Lit, w: Watched): Clause {
    Lits(ClauseOf(cs, l, w)) - {l}
  }

  /** Bit j of the mask of a literal says whether it occurs in the rest of clause j. */
  ghost predicate Marked(cs: OccClauses, l: Lit, cls: seq<Watched>, seen: map<Lit, Mask>) {
    forall y: Lit, j: nat {:trigger HasBit(MaskOf(seen, y), j)} ::
      HasBit(MaskOf(seen, y), j) <==> j < |cls| && y in Rest(cs, l, cls[j])
  }

  lemma NothingMarked(cs: OccClauses, l: Lit, seen: map<Lit, Mask>)
    requires AllZero(seen)
    ensures Marked(cs, l, [], seen)
  {
    forall y: Lit, j: nat
      ensures !HasBit(MaskOf(seen, y), j)
    {
      ZeroHasNone(j);
    }
  }

  lemma ZeroHasNone(j: nat)
    ensures !HasBit(0, j)
  {
    if j < 16 {
      ZeroAnd(Pos(j));
    }
  }

  lemma ZeroAnd(b: Mask)
    ensures 0 & b == 0
  {
  }

  ghost predicate MaskedBy(seen: map<Lit, Mask>, seen': map<Lit, Mask>, ls: Clause, at: Mask) {
    forall y: Lit {:trigger MaskOf(seen', y)} ::
      MaskOf(seen', y) == if y in ls then Or(MaskOf(seen, y), at) else MaskOf(seen, y)
  }

  lemma MarkedNext(cs: OccClauses, l: Lit, cls: seq<Watched>, seen: map<Lit, Mask>, seen': map<Lit, Mask>, w: Watched)
    requires Marked(cs, l, cls, seen) && |cls| < 16 && MaskedBy(seen, seen', Rest(cs, l, w), Pos(|cls|))
    ensures Marked(cs, l, cls + [w], seen')
  {
    hide HasBit, Pos, Rest, Or;
    forall y: Lit, j: nat
      ensures HasBit(MaskOf(seen', y), j) <==> j < |cls| + 1 && y in Rest(cs, l, (cls + [w])[j])
    {
      OrBit(MaskOf(seen, y), Pos(|cls|), j);
      PosBit(|cls|, j);
      assert HasBit(MaskOf(seen, y), j) <==> j < |cls| && y in Rest(cs, l, cls[j]);
    }
  }

  lemma LiveOnesNext(cs: OccClauses, ws: seq<Watched>, k: nat)
    requires k < |ws|
    ensures LiveOnes(cs, ws[..k + 1]) == LiveOnes(cs, ws[..k]) + if Live(cs, ws[k]) then [ws[k]] else []
  {
    assert ws[..k + 1][..k] == ws[..k];
  }

  lemma {:induction false} LiveOnesPrefix(cs: OccClauses, ws: seq<Watched>, k: nat)
    requires k <= |ws|
    ensures LiveOnes(cs, ws[..k]) <= LiveOnes(cs, ws)
  {
    if k < |ws| {
      var n := |ws| - 1;
      LiveOnesPrefix(cs, ws[..n], k);
      assert ws[..n][..k] == ws[..k];
    } else {
      assert ws[..k] == ws;
    }
  }

  lemma {:induction false} InLiveOnes(cs: OccClauses, ws: seq<Watched>, w: Watched)
    ensures w in LiveOnes(cs, ws) <==> w in ws && Live(cs, w)
  {
    if ws != [] {
      var n := |ws| - 1;
      InLiveOnes(cs, ws[..n], w);
      assert ws == ws[..n] + [ws[n]];
    }
  }

  /** The clauses that get a bit: all irredundant ones of the list, but no more than sixteen. */
  ghost predicate FirstOnes(cs: OccClauses, ws: seq<Watched>, cls: seq<Watched>) {
    cls <= LiveOnes(cs, ws) && |cls| <= 16 && (|cls| < 16 ==> cls == LiveOnes(cs, ws))
  }

  // ----- what the masks tell -----

  /** Every resolvent of `d` with one of the clauses is a tautology. */
  ghost predicate ClashesAll(cs: OccClauses, l: Lit, cls: seq<Watched>, d: Watched) {
    forall j: nat {:trigger cls[j]} ::
      j < |cls| ==> Clashes(Lits(ClauseOf(cs, l, cls[j])), Lits(ClauseOf(cs, l.Neg(), d)), l)
  }

  /** The union of the masks of the negated literals of a clause. */
  ghost predicate MaskUnion(seen: map<Lit, Mask>, ls: Clause, tmp: Mask) {
    forall j: nat {:trigger HasBit(tmp, j)} :: HasBit(tmp, j) <==> SomeNegated(seen, ls, j)
  }

  ghost predicate SomeNegated(seen: map<Lit, Mask>, ls: Clause, j: nat) {
    exists y: Lit :: y in ls && HasBit(MaskOf(seen, y.Neg()), j)
  }

  /** Bit j of the union says whether the resolvent with clause j is a tautology. */
  lemma UnionTells(cs: OccClauses, l: Lit, cls: seq<Watched>, seen: map<Lit, Mask>, d: Watched, tmp: Mask)
    requires Marked(cs, l, cls, seen) && |cls| < 16 && MaskUnion(seen, Rest(cs, l.Neg(), d), tmp)
    ensures PopCnt(tmp) <= |cls| && (PopCnt(tmp) == |cls| <==> ClashesAll(cs, l, cls, d))
  {
    forall j: nat
      ensures HasBit(tmp, j) <==> j < |cls| && Clashes(Lits(ClauseOf(cs, l, cls[j])), Lits(ClauseOf(cs, l.Neg(), d)), l)
    {
      if HasBit(tmp, j) {
        var y: Lit :| y in Rest(cs, l.Neg(), d) && HasBit(MaskOf(seen, y.Neg()), j);
        assert y.Neg().Neg() == y;
        assert y.Neg() in Rest(cs, l, cls[j]);
      }
      if j < |cls| && Clashes(Lits(ClauseOf(cs, l, cls[j])), Lits(ClauseOf(cs, l.Neg(), d)), l) {
        var y: Lit :| y in Rest(cs, l, cls[j]) && y.Neg() in Rest(cs, l.Neg(), d);
        assert y.Neg().Neg() == y;
        assert HasBit(MaskOf(seen, y), j);
        assert SomeNegated(seen, Rest(cs, l.Neg(), d), j);
      }
    }
    PopFull(tmp, |cls|);
    assert forall j: nat ::
      j < |cls| ==> (HasBit(tmp, j) <==> Clashes(Lits(ClauseOf(cs, l, cls[j])), Lits(ClauseOf(cs, l.Neg(), d)), l));
  }

  /** Every resolvent on the variable of `l` is a tautology. */
  ghost predicate AllTautological(ws: WatchLists, cs: OccClauses, l: Lit) {
    forall p, q {:trigger Live(cs, p), Live(cs, q)} ::
      p in W(ws, l) && q in W(ws, l.Neg()) && Live(cs, p) && Live(cs, q) ==>
      Clashes(Lits(ClauseOf(cs, l, p)), Lits(ClauseOf(cs, l.Neg(), q)), l)
  }

  lemma ClashesFlip(c: Clause, d: Clause, l: Lit)
    ensures Clashes(c, d, l) <==> Clashes(d, c, l.Neg())
  {
    assert l.Neg().Neg() == l;
    if Clashes(c, d, l) {
      var y: Lit :| y in c - {l} && y.Neg() in d - {l.Neg()};
      assert y.Neg().Neg() == y;
    }
    if Clashes(d, c, l.Neg()) {
      var y: Lit :| y in d - {l.Neg()} && y.Neg() in c - {l};
      assert y.Neg().Neg() == y;
    }
  }

  lemma TautologicalFlip(ws: WatchLists, cs: OccClauses, l: Lit)
    requires AllTautological(ws, cs, l)
    ensures AllTautological(ws, cs, l.Neg())
  {
    hide Clashes, Live, ClauseOf;
    assert l.Neg().Neg() == l;
    forall p, q | p in W(ws, l.Neg()) && q in W(ws, l) && Live(cs, p) && Live(cs, q)
      ensures Clashes(Lits(ClauseOf(cs, l.Neg(), p)), Lits(ClauseOf(cs, l, q)), l.Neg())
    {
      ClashesFlip(Lits(ClauseOf(cs, l, q)), Lits(ClauseOf(cs, l.Neg(), p)), l);
    }
  }

  lemma ListsTell(ws: WatchLists, cs: OccClauses, l: Lit, ds: seq<Watched>)
    requires ds == LiveOnes(cs, W(ws, l.Neg()))
    ensures AllTautological(ws, cs, l) <==>
      forall q {:trigger q in ds} :: q in ds ==> ClashesAll(cs, l, LiveOnes(cs, W(ws, l)), q)
  {
    hide Clashes, Live, ClauseOf;
    var cls := LiveOnes(cs, W(ws, l));
    if AllTautological(ws, cs, l) {
      forall q, j: nat | q in ds && j < |cls|
        ensures Clashes(Lits(ClauseOf(cs, l, cls[j])), Lits(ClauseOf(cs, l.Neg(), q)), l)
      {
        InLiveOnes(cs, W(ws, l.Neg()), q);
        InLiveOnes(cs, W(ws, l), cls[j]);
      }
    }
    if forall q {:trigger q in ds} :: q in ds ==> ClashesAll(cs, l, cls, q) {
      forall p, q | p in W(ws, l) && q in W(ws, l.Neg()) && Live(cs, p) && Live(cs, q)
        ensures Clashes(Lits(ClauseOf(cs, l, p)), Lits(ClauseOf(cs, l.Neg(), q)), l)
      {
        InLiveOnes(cs, W(ws, l.Neg()), q);
        InLiveOnes(cs, W(ws, l), p);
        var j :| 0 <= j < |cls| && cls[j] == p;
      }
    }
  }

  /** Without a resolvent that says something, nothing needs to be added for the variable. */
  lemma TautologicalCollected(ws: WatchLists, cs: OccClauses, x: nat)
    requires AllTautological(ws, cs, Lit(x, false))
    ensures Collected(ws, cs, x, [])
  {
    hide Clashes, Live, ClauseOf, Covers;
    assert Lit(x, false).Neg() == Lit(x, true);
    forall p, q, h: Formula | p in W(ws, Lit(x, false)) && q in W(ws, Lit(x, true)) && Live(cs, p) && Live(cs, q)
      ensures CoversPair(ws, cs, x, p, q, h)
    {
      ClashCovers(h, Lits(ClauseOf(cs, Lit(x, false), p)), Lits(ClauseOf(cs, Lit(x, true), q)), Lit(x, false));
    }
  }

  // ----- the procedure -----

  class EmptyResolvents {
    const s: OccSimplifier
    /** The masks; `seen` of the solver, 16 bits for each literal. */
    var seen: map<Lit, Mask>

    constructor (simplifier: OccSimplifier)
      ensures s == simplifier && AllZero(seen)
    {
      s := simplifier;
      seen := map[];
    }

    method MarkLits(cl: seq<Lit>, lit: Lit, at: Mask)
      modifies `seen
      ensures MaskedBy(old(seen), seen, Lits(cl) - {lit}, at)
    {
      hide MaskedBy;
      assert MaskedBy(old(seen), seen, Lits(cl[..0]) - {lit}, at) by { NoneMasked(seen, at);
        assert Lits(cl[..0]) - {lit} == {}; }
      for k := 0 to |cl|
        invariant MaskedBy(old(seen), seen, Lits(cl[..k]) - {lit}, at)
      {
        assert cl[..k + 1] == cl[..k] + [cl[k]];
        if cl[k] != lit {
          MaskedNext(old(seen), seen, Lits(cl[..k]) - {lit}, at, cl[k]);
          assert Lits(cl[..k + 1]) - {lit} == Lits(cl[..k]) - {lit} + {cl[k]};
          seen := seen[cl[k] := Or(MaskOf(seen, cl[k]), at)];
        } else {
          assert Lits(cl[..k + 1]) - {lit} == Lits(cl[..k]) - {lit};
        }
      }
      assert cl[..|cl|] == cl;
    }

    method ClearLits(cl: seq<Lit>, lit: Lit)
      modifies `seen
      ensures forall y: Lit {:trigger MaskOf(seen, y)} ::
        MaskOf(seen, y) == if y in Lits(cl) - {lit} then 0 else MaskOf(old(seen), y)
    {
      for k := 0 to |cl|
        invariant forall y: Lit {:trigger MaskOf(seen, y)} ::
          MaskOf(seen, y) == if y in Lits(cl[..k]) - {lit} then 0 else MaskOf(old(seen), y)
      {
        ghost var before := seen;
        assert forall y: Lit :: y in Lits(cl[..k + 1]) <==> y in Lits(cl[..k]) || y == cl[k];
        if cl[k] != lit {
          seen := seen[cl[k] := 0];
        }
        forall y: Lit
          ensures MaskOf(seen, y) == if y in Lits(cl[..k + 1]) - {lit} then 0 else MaskOf(old(seen), y)
        {
          assert MaskOf(before, y) == if y in Lits(cl[..k]) - {lit} then 0 else MaskOf(old(seen), y);
        }
      }
      assert cl[..|cl|] == cl;
    }

    method UnionOf(cl: seq<Lit>, lit: Lit) returns (tmp: Mask)
      ensures MaskUnion(seen, Lits(cl) - {lit}, tmp)
    {
      tmp := 0;
      UnionStarts(seen);
      for k := 0 to |cl|
        invariant MaskUnion(seen, Lits(cl[..k]) - {lit}, tmp)
      {
        assert Lits(cl[..k + 1]) == Lits(cl[..k]) + {cl[k]};
        if cl[k] != lit {
          UnionNext(seen, Lits(cl[..k]) - {lit}, tmp, cl[k]);
          assert Lits(cl[..k + 1]) - {lit} == Lits(cl[..k]) - {lit} + {cl[k]};
          tmp := Or(tmp, MaskOf(seen, cl[k].Neg()));
        } else {
          assert Lits(cl[..k + 1]) - {lit} == Lits(cl[..k]) - {lit};
        }
      }
      assert cl[..|cl|] == cl;
    }

    /** `check_empty_resolvent_action(lit, set)` */
    method SetMasks(lit: Lit) returns (numCls: nat, ghost cls: seq<Watched>)
      requires s.ListsOk() && AllZero(seen)
      modifies `seen
      ensures Marked(s.clauses, lit, cls, seen) && numCls == |cls| && FirstOnes(s.clauses, W(s.watches, lit), cls)
    {
      hide OccOk, Marked, MaskedBy;
      var watchList := W(s.watches, lit);
      var at: Mask := 1;
      var k := 0;
      numCls := 0;
      cls := [];
      NothingMarked(s.clauses, lit, seen);
      while k < |watchList| && numCls < 16
        invariant k <= |watchList| && numCls <= 16 && Marked(s.clauses, lit, cls, seen)
        invariant cls == LiveOnes(s.clauses, watchList[..k]) && numCls == |cls| && at == if numCls < 16 then Pos(numCls)
          else 0
      {
        var ws := watchList[k];
        LiveOnesNext(s.clauses, watchList, k);
        if Live(s.clauses, ws) {
          PosNext(numCls);
          ghost var before := seen;
          ClauseOfOk(s.watches, s.clauses, lit, ws);
          if ws.Bin? {
            OtherLit(s.watches, s.clauses, lit, ws);
            seen := seen[ws.lit2 := Or(MaskOf(seen, ws.lit2), at)];
            OneMasked(before, ws.lit2, at);
          } else {
            MarkLits(s.clauses[ws.off].lits, lit, at);
          }
          MarkedNext(s.clauses, lit, cls, before, seen, ws);
          cls := cls + [ws];
          at := at << 1;
          numCls := numCls + 1;
        }
        k := k + 1;
      }
      LiveOnesPrefix(s.clauses, watchList, k);
      assert watchList[..|watchList|] == watchList;
    }

    method ClearRest(lit: Lit, ws: Watched)
      requires s.ListsOk() && ws in W(s.watches, lit) && Live(s.clauses, ws)
      modifies `seen
      ensures forall y: Lit {:trigger MaskOf(seen, y)} ::
        MaskOf(seen, y) == if y in Rest(s.clauses, lit, ws) then 0 else old(MaskOf(seen, y))
    {
      hide OccOk;
      if ws.Bin? {
        OtherLit(s.watches, s.clauses, lit, ws);
        seen := seen[ws.lit2 := 0];
      } else {
        ClearLits(s.clauses[ws.off].lits, lit);
      }
    }

    /** `check_empty_resolvent_action(lit, unset)` */
    method UnsetMasks(lit: Lit, ghost cls: seq<Watched>)
      requires s.ListsOk() && Marked(s.clauses, lit, cls, seen) && FirstOnes(s.clauses, W(s.watches, lit), cls)
      modifies `seen
      ensures AllZero(seen)
    {
      var watchList := W(s.watches, lit);
      assert watchList[..0] == [] && LiveOnes(s.clauses, []) == [];
      hide OccOk, FirstOnes, Rest, LiveOnes;
      var k, numCls := 0, 0;
      while k < |watchList| && numCls < 16
        invariant k <= |watchList| && numCls <= 16 && numCls == |LiveOnes(s.clauses, watchList[..k])|
        invariant forall y: Lit {:trigger MaskOf(seen, y)} ::
          MaskOf(seen, y) == 0 || MaskOf(seen, y) == MaskOf(old(seen), y)
        invariant forall y: Lit, j: nat {:trigger y in Rest(s.clauses, lit, LiveOnes(s.clauses, watchList[..k])[j])} ::
            j < numCls && y in Rest(s.clauses, lit, LiveOnes(s.clauses, watchList[..k])[j]) ==> MaskOf(seen, y) == 0
      {
        var ws := watchList[k];
        LiveOnesNext(s.clauses, watchList, k);
        if Live(s.clauses, ws) {
          ghost var before := seen;
          ClearRest(lit, ws);
          ghost var now, was := LiveOnes(s.clauses, watchList[..k + 1]), LiveOnes(s.clauses, watchList[..k]);
          forall y: Lit, j: nat | j < |now| && y in Rest(s.clauses, lit, now[j])
            ensures MaskOf(seen, y) == 0
          {
            if j < |was| {
              assert now[j] == was[j];
              assert y in Rest(s.clauses, lit, was[j]);
              assert MaskOf(before, y) == 0;
            }
          }
          numCls := numCls + 1;
        }
        k := k + 1;
      }
      AllCleared(s.clauses, lit, watchList, k, cls, old(seen), seen);
    }

    /** `check_empty_resolvent_action(lit, count)`, where the other side has `otherSize` clauses. */
    method CountResolvents(lit: Lit, otherSize: nat, ghost cls: seq<Watched>) returns (count: nat)
      requires s.ListsOk() && Marked(s.clauses, lit.Neg(), cls, seen) && otherSize == |cls| < 16
      ensures count == 0 <==>
        forall q {:trigger q in LiveOnes(s.clauses, W(s.watches, lit))} ::
        q in LiveOnes(s.clauses, W(s.watches, lit)) ==> ClashesAll(s.clauses, lit.Neg(), cls, q)
    {
      hide OccOk, Marked, MaskUnion, ClashesAll;
      assert lit.Neg().Neg() == lit;
      var watchList := W(s.watches, lit);
      var k := 0;
      count := 0;
      while k < |watchList| && count == 0
        invariant k <= |watchList|
        invariant count == 0 <==>
          forall q {:trigger q in LiveOnes(s.clauses, watchList[..k])} ::
          q in LiveOnes(s.clauses, watchList[..k]) ==> ClashesAll(s.clauses, lit.Neg(), cls, q)
      {
        var ws := watchList[k];
        LiveOnesNext(s.clauses, watchList, k);
        if Live(s.clauses, ws) {
          var tmp: Mask;
          if ws.Bin? {
            OtherLit(s.watches, s.clauses, lit, ws);
            tmp := MaskOf(seen, ws.lit2.Neg());
            OneUnion(seen, ws.lit2);
          } else {
            tmp := UnionOf(s.clauses[ws.off].lits, lit);
          }
          UnionTells(s.clauses, lit.Neg(), cls, seen, ws, tmp);
          count := count + (otherSize - PopCnt(tmp));
          assert ws in LiveOnes(s.clauses, watchList[..k + 1]);
          assert forall q ::
            q in LiveOnes(s.clauses, watchList[..k + 1]) <==> q in LiveOnes(s.clauses, watchList[..k]) || q == ws;
        }
        k := k + 1;
      }
      if count == 0 {
        assert watchList[..k] == watchList;
      } else {
        LiveOnesPrefix(s.clauses, watchList, k);
        ghost var q :| q in LiveOnes(s.clauses, watchList[..k]) && !ClashesAll(s.clauses, lit.Neg(), cls, q);
        assert q in LiveOnes(s.clauses, watchList);
      }
    }

    /** The side that gets the bits. */
    function Smaller(lit0: Lit): Lit
      reads s
    {
      SmallerOf(s.watches, lit0)
    }

    /**
     True exactly if every resolvent on the variable is a tautology and the side with the shorter list has fewer
     than sixteen irredundant clauses. The masks are all zero again afterwards.
     */
    method CheckEmptyResolvent(lit0: Lit) returns (empty: bool)
      requires s.ListsOk() && AllZero(seen)
      modifies `seen
      ensures AllZero(seen)
      ensures empty <==>
        AllTautological(s.watches, s.clauses, lit0) && |LiveOnes(s.clauses, W(s.watches, Smaller(lit0)))| < 16
    {
      hide OccOk, Marked, AllTautological, ClashesAll;
      assert lit0.Neg().Neg() == lit0;
      var lit := Smaller(lit0);
      assert lit.Neg().Neg() == lit;
      var numBitsSet, cls := SetMasks(lit);
      empty := false;
      if numBitsSet < 16 {
        var numResolvents := CountResolvents(lit.Neg(), numBitsSet, cls);
        empty := numResolvents == 0;
        ListsTell(s.watches, s.clauses, lit, LiveOnes(s.clauses, W(s.watches, lit.Neg())));
      }
      UnsetMasks(lit, cls);
      if AllTautological(s.watches, s.clauses, lit) {
        TautologicalFlip(s.watches, s.clauses, lit);
      }
      if AllTautological(s.watches, s.clauses, lit.Neg()) {
        TautologicalFlip(s.watches, s.clauses, lit.Neg());
      }
    }

    /**
     Eliminates the variable if the masks say that no resolvent is left. The formula only loses clauses, and
     everything promised about elimination stays true, without a single resolvent having been built.
     */
    method EliminateEmpty(x: nat) returns (done: bool)
      requires s.Inv() && s.CanEliminateVar(x) && AllZero(seen)
      modifies `seen, s
      ensures s.Inv() && AllZero(seen)
      ensures done <==>
        old(AllTautological(s.watches, s.clauses, Lit(x, false))
        && |LiveOnes(s.clauses, W(s.watches, Smaller(Lit(x, false))))| < 16)
      ensures !done ==> s.Now() == old(s.Now()) && s.blockedClauses == old(s.blockedClauses)
      ensures done ==>
        s.elimed == old(s.elimed) + {x} && s.Formula() == Without(old(s.Formula()), x)
        && EliminatedTo(old(s.Formula()), s.Formula(), x)
    {
      hide StackOk, NoneElimed, AllOpened, SameMeaning, OccOk, Collected, OnlyMarked, LiveCount, EliminatedTo, Irred,
        Pushed, Dropped, AllTautological, AllZero;
      done := CheckEmptyResolvent(Lit(x, false));
      if done {
        ghost var ws0, cs0, es := s.watches, s.clauses, s.blockedClauses;
        TautologicalCollected(ws0, cs0, x);
        s.TakeOut(x);
        Eliminated(s.original, ws0, cs0, s.units, es, s.elimed, x, [], s.Formula(), s.Formula());
        s.elimed := s.elimed + {x};
      }
    }

    /**
     `eliminate_empty_resolvent_vars`: all variables once, from a random one on; after `effort` variables the time is
     up. The states passed through are recorded.
     */
    method EliminateEmptyResolventVars(start: nat, nVars: nat, effort: nat) returns (ghost states: seq<State>)
      requires s.Inv() && AllZero(seen) && start < nVars
      modifies `seen, s
      ensures s.Inv() && AllZero(seen) && old(s.elimed) <= s.elimed
      ensures forall c {:trigger c in s.Formula()} :: c in s.Formula() ==> c in old(s.Formula())
      ensures |states| == (if effort < nVars then effort else nVars) + 1
        && states[0] == old(s.Now()) && states[|states| - 1] == s.Now()
      ensures forall k: nat {:trigger Turn(start, k, nVars)} ::
        k < |states| - 1 ==> EmptyAttempt(states[k], states[k + 1], Turn(start, k, nVars))
    {
      hide AllZero, EmptyAttempt, OccSimplifier.Inv;
      var x: nat := start;
      var num := 0;
      states := [s.Now()];
      while num < nVars && num < effort
        invariant s.Inv() && AllZero(seen) && old(s.elimed) <= s.elimed
        invariant forall c {:trigger c in s.Formula()} :: c in s.Formula() ==> c in old(s.Formula())
        invariant num == |states| - 1 <= nVars && num <= effort && states[0] == old(s.Now()) && states[num] == s.Now()
        invariant num < nVars ==> x == Turn(start, num, nVars)
        invariant forall k: nat {:trigger Turn(start, k, nVars)} ::
          k < num ==> EmptyAttempt(states[k], states[k + 1], Turn(start, k, nVars))
        decreases nVars - num
      {
        TryEmpty(x);
        NextTurn(start, num, nVars);
        x := (x + 1) % nVars;
        num := num + 1;
        states := states + [s.Now()];
      }
    }

    /** One variable, unless it is set or eliminated. */
    method TryEmpty(x: nat)
      requires s.Inv() && AllZero(seen)
      modifies `seen, s
      ensures s.Inv() && AllZero(seen) && old(s.elimed) <= s.elimed && EmptyAttempt(old(s.Now()), s.Now(), x)
      ensures forall c {:trigger c in s.Formula()} :: c in s.Formula() ==> c in old(s.Formula())
    {
      hide AllZero, AllTautological, EliminatedTo, LiveOnes;
      if s.CanEliminateVar(x) {
        var done := EliminateEmpty(x);
      }
    }
  }

  /** The variable looked at after `k` others. */
  ghost function Turn(start: nat, k: nat, n: nat): nat {
    if start + k < n then start + k else start + k - n
  }

  lemma NextTurn(start: nat, k: nat, n: nat)
    requires start < n && k < n
    ensures k + 1 < n ==> (Turn(start, k, n) + 1) % n == Turn(start, k + 1, n)
  {
  }

  function SmallerOf(ws: WatchLists, lit0: Lit): Lit {
    if |W(ws, lit0.Neg())| < |W(ws, lit0)| then lit0.Neg() else lit0
  }

  /**
   One variable: eliminated exactly if it may be, all its resolvents are tautologies and fewer than sixteen clauses
   are on the shorter list.
   */
  ghost predicate EmptyAttempt(s: State, t: State, x: nat) {
    if Lit(x, false) !in s.units && Lit(x, true) !in s.units && x !in s.elimed
       && AllTautological(s.ws, s.cs, Lit(x, false))
       && |LiveOnes(s.cs, W(s.ws, SmallerOf(s.ws, Lit(x, false))))| < 16 then
      t.elimed == s.elimed + {x} && Irred(t.ws, t.cs, t.units) == Without(Irred(s.ws, s.cs, s.units), x)
    else t == s
  }

  lemma OtherLit(ws: WatchLists, cs: OccClauses, l: Lit, w: Watched)
    requires OccOk(ws, cs) && w in W(ws, l) && w.Bin?
    ensures Rest(cs, l, w) == {w.lit2}
  {
    assert w.lit2.v != l.v;
  }

  lemma NoneMasked(seen: map<Lit, Mask>, at: Mask)
    ensures MaskedBy(seen, seen, {}, at)
  {
  }

  lemma MaskedNext(seen0: map<Lit, Mask>, seen: map<Lit, Mask>, ls: Clause, at: Mask, y: Lit)
    requires MaskedBy(seen0, seen, ls, at)
    ensures MaskedBy(seen0, seen[y := Or(MaskOf(seen, y), at)], ls + {y}, at)
  {
    hide Or;
    OrTwice(MaskOf(seen0, y), at);
    var seen' := seen[y := Or(MaskOf(seen, y), at)];
    forall z: Lit
      ensures MaskOf(seen', z) == if z in ls + {y} then Or(MaskOf(seen0, z), at) else MaskOf(seen0, z)
    {
      assert MaskOf(seen, z) == if z in ls then Or(MaskOf(seen0, z), at) else MaskOf(seen0, z);
    }
  }

  lemma OneMasked(seen: map<Lit, Mask>, y: Lit, at: Mask)
    ensures MaskedBy(seen, seen[y := Or(MaskOf(seen, y), at)], {y}, at)
  {
  }

  lemma OneUnion(seen: map<Lit, Mask>, y: Lit)
    ensures MaskUnion(seen, {y}, MaskOf(seen, y.Neg()))
  {
    forall j: nat
      ensures HasBit(MaskOf(seen, y.Neg()), j) <==> SomeNegated(seen, {y}, j)
    {
      assert y in {y};
    }
  }

  lemma UnionStarts(seen: map<Lit, Mask>)
    ensures MaskUnion(seen, {}, 0)
  {
    forall j: nat
      ensures !HasBit(0, j)
    {
      ZeroHasNone(j);
    }
  }

  lemma UnionNext(seen: map<Lit, Mask>, ls: Clause, tmp: Mask, y: Lit)
    requires MaskUnion(seen, ls, tmp)
    ensures MaskUnion(seen, ls + {y}, Or(tmp, MaskOf(seen, y.Neg())))
  {
    hide HasBit, Or;
    forall j: nat
      ensures HasBit(Or(tmp, MaskOf(seen, y.Neg())), j) <==> SomeNegated(seen, ls + {y}, j)
    {
      OrBit(tmp, MaskOf(seen, y.Neg()), j);
      assert y in ls + {y};
      if SomeNegated(seen, ls, j) {
        var z: Lit :| z in ls && HasBit(MaskOf(seen, z.Neg()), j);
        assert z in ls + {y};
      }
    }
  }

  /** A literal that keeps a bit would occur in one of the clauses gone through. */
  lemma AllCleared(cs: OccClauses, l: Lit, ws: seq<Watched>, k: nat, cls: seq<Watched>, seen0: map<Lit, Mask>,
                   seen: map<Lit, Mask>)
    requires Marked(cs, l, cls, seen0) && FirstOnes(cs, ws, cls) && k <= |ws|
    requires k == |ws| || |LiveOnes(cs, ws[..k])| == 16
    requires forall y: Lit {:trigger MaskOf(seen, y)} :: MaskOf(seen, y) == 0 || MaskOf(seen, y) == MaskOf(seen0, y)
    requires forall y: Lit, j: nat {:trigger y in Rest(cs, l, LiveOnes(cs, ws[..k])[j])} ::
      j < |LiveOnes(cs, ws[..k])| && y in Rest(cs, l, LiveOnes(cs, ws[..k])[j]) ==> MaskOf(seen, y) == 0
    ensures AllZero(seen)
  {
    LiveOnesPrefix(cs, ws, k);
    if k == |ws| {
      assert ws[..k] == ws;
    }
    forall y: Lit
      ensures MaskOf(seen, y) == 0
    {
      if j: nat :| HasBit(MaskOf(seen0, y), j) {
        assert cls[j] == LiveOnes(cs, ws[..k])[j];
        assert y in Rest(cs, l, LiveOnes(cs, ws[..k])[j]);
      } else {
        NoBits(MaskOf(seen0, y));
      }
    }
  }
}
