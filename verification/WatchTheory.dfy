/**
 What the two-watched-literal scheme guarantees: the state a propagation leaves behind, stated on values.
 (cryptoms/propengine.cpp)
 */
module WatchTheory {
  import opened Literals
  import opened Watches
  import opened UnitClosure
  import opened Trail

  // ----- the watch lists carry binary clauses both ways and sensible blocked literals -----

  ghost predicate Symmetric(ws: WatchLists) {
    forall l, k, red {:trigger Bin(k, red) in Bins(W(ws, l))} ::
      Bin(k, red) in Bins(W(ws, l)) ==> Bin(l, red) in Bins(W(ws, k)) && k != l
  }

  lemma SymmetricKept(ws: WatchLists, ws': WatchLists)
    requires Symmetric(ws) && SameBins(ws, ws')
    ensures Symmetric(ws')
  {
    forall l, k, red | Bin(k, red) in Bins(W(ws', l))
      ensures Bin(l, red) in Bins(W(ws', k)) && k != l
    {
      assert Bins(W(ws, l)) == Bins(W(ws', l)) && Bins(W(ws, k)) == Bins(W(ws', k));
      assert Bin(k, red) in Bins(W(ws, l));
    }
  }

  ghost predicate BlockedOk(ws: WatchLists, cls: Clauses) {
    forall l, w {:trigger w in W(ws, l)} :: w in W(ws, l) && w.Long? ==> w.off in cls && w.blocked in cls[w.off]
  }

  lemma BlockedPermuted(ws: WatchLists, cls: Clauses, cls': Clauses)
    requires BlockedOk(ws, cls) && SameClauses(cls, cls')
    ensures BlockedOk(ws, cls')
  {
    forall l, w | w in W(ws, l) && w.Long?
      ensures w.off in cls' && w.blocked in cls'[w.off]
    {
      SameMultisetSameLits(cls[w.off], cls'[w.off]);
    }
  }

  lemma BlockedRelabelled(ws: WatchLists, cls: Clauses, p: Lit, pre: seq<Watched>, w: Watched, w': Watched,
                          post: seq<Watched>)
    requires BlockedOk(ws, cls) && W(ws, p) == pre + [w] + post
    requires w'.Long? ==> w'.off in cls && w'.blocked in cls[w'.off]
    ensures BlockedOk(ws[p := pre + [w'] + post], cls)
  {
    var ws' := ws[p := pre + [w'] + post];
    forall l, x | x in W(ws', l) && x.Long?
      ensures x.off in cls && x.blocked in cls[x.off]
    {
      if l == p && x != w' {
        assert x in W(ws, p);
      } else if l != p {
        assert x in W(ws, l);
      }
    }
  }

  lemma BlockedMoved(ws: WatchLists, cls: Clauses, p: Lit, pre: seq<Watched>, w: Watched, post: seq<Watched>, k: nat)
    requires BlockedOk(ws, cls) && W(ws, p) == pre + [w] + post && w.Long?
    requires w.off in cls && ClauseOk(cls[w.off]) && cls[w.off][1] == p && 2 <= k < |cls[w.off]|
    ensures var c := cls[w.off];
      BlockedOk(ws[p := pre + post][c[k] := W(ws, c[k]) + [Long(w.off, c[0])]], cls[w.off := c[1 := c[k]][k := p]])
  {
    var c := cls[w.off];
    var c' := c[1 := c[k]][k := p];
    var ws' := ws[p := pre + post][c[k] := W(ws, c[k]) + [Long(w.off, c[0])]];
    MoveKeeps(c, k);
    SameMultisetSameLits(c, c');
    assert c[0] in c;
    forall l, x | x in W(ws', l) && x.Long?
      ensures x.off in cls[w.off := c'] && x.blocked in cls[w.off := c'][x.off]
    {
      if x != Long(w.off, c[0]) {
        assert x in W(ws, l);
      }
    }
  }

  // ----- the promise of a watch -----

  /** The clause of entry `w` in the list of the false literal `l` is satisfied, and not later than `l` was set. */
  ghost predicate EntryGood(cls: Clauses, a: Assigns, level: map<nat, nat>, l: Lit, w: Watched) {
    match w
    case Bin(k, _) => TrueBy(a, level, l, k)
    case Long(off, _) => off in cls && exists t :: t in cls[off] && TrueBy(a, level, l, t)
  }

  ghost predicate TrueBy(a: Assigns, level: map<nat, nat>, l: Lit, t: Lit) {
    Value(a, t) == True && t.v in level && l.v in level && level[t.v] <= level[l.v]
  }

  ghost predicate ListGood(ws: seq<Watched>, cls: Clauses, a: Assigns, level: map<nat, nat>, l: Lit) {
    forall w {:trigger w in ws} :: w in ws ==> EntryGood(cls, a, level, l, w)
  }

  lemma ListGoodNone(ws: seq<Watched>, cls: Clauses, a: Assigns, level: map<nat, nat>, l: Lit)
    requires ws == []
    ensures ListGood(ws, cls, a, level, l)
  {
  }

  lemma ListGoodNext(ws: seq<Watched>, w: Watched, cls: Clauses, a: Assigns, level: map<nat, nat>, l: Lit)
    requires ListGood(ws, cls, a, level, l) && EntryGood(cls, a, level, l, w)
    ensures ListGood(ws + [w], cls, a, level, l)
  {
  }

  /** The watch promise for the falsified literals at trail positions below `q` whose level is below `lv`. */
  ghost predicate Good(ws: WatchLists, cls: Clauses, trail: seq<Lit>, a: Assigns, level: map<nat, nat>, q: nat, lv: nat)
  {
    forall i {:trigger trail[i]} :: 0 <= i < q && i < |trail| && trail[i].v in level && level[trail[i].v] < lv ==>
      ListGood(W(ws, trail[i].Neg()), cls, a, level, trail[i].Neg())
  }

  /** Setting another variable breaks no promise. */
  lemma GoodGrows(ws: WatchLists, cls: Clauses, trail: seq<Lit>, a: Assigns, level: map<nat, nat>, q: nat, lv: nat,
                  l: Lit, dl: nat)
    requires Good(ws, cls, trail, a, level, q, lv) && q <= |trail|
    requires Value(a, l) == Undef && forall i :: 0 <= i < |trail| ==> Value(a, trail[i]) == True
    ensures Good(ws, cls, trail + [l], a[l.v := !l.sign], level[l.v := dl], q, lv)
  {
    var a' := a[l.v := !l.sign];
    var level' := level[l.v := dl];
    forall i | 0 <= i < q && trail[i].v in level' && level'[trail[i].v] < lv
      ensures ListGood(W(ws, trail[i].Neg()), cls, a', level', trail[i].Neg())
    {
      assert Value(a, trail[i]) == True;
      ListGoodGrows(W(ws, trail[i].Neg()), cls, a, level, trail[i].Neg(), l, dl);
    }
  }

  lemma ListGoodGrows(ws: seq<Watched>, cls: Clauses, a: Assigns, level: map<nat, nat>, np: Lit, l: Lit, dl: nat)
    requires ListGood(ws, cls, a, level, np) && Value(a, l) == Undef && np.v != l.v
    ensures ListGood(ws, cls, a[l.v := !l.sign], level[l.v := dl], np)
  {
    var a' := a[l.v := !l.sign];
    var level' := level[l.v := dl];
    forall w | w in ws
      ensures EntryGood(cls, a', level', np, w)
    {
      assert EntryGood(cls, a, level, np, w);
      if w.Long? {
        var t :| t in cls[w.off] && TrueBy(a, level, np, t);
        assert TrueBy(a', level', np, t);
      }
    }
  }

  /** Permuting clauses and changing lists of literals that are not false breaks no promise. */
  lemma GoodRewired(ws: WatchLists, cls: Clauses, ws': WatchLists, cls': Clauses, trail: seq<Lit>, a: Assigns,
                    level: map<nat, nat>, q: nat, lv: nat)
    requires Good(ws, cls, trail, a, level, q, lv) && SameClauses(cls, cls') && q <= |trail|
    requires forall i :: 0 <= i < q ==> W(ws', trail[i].Neg()) == W(ws, trail[i].Neg())
    ensures Good(ws', cls', trail, a, level, q, lv)
  {
    forall i | 0 <= i < q && trail[i].v in level && level[trail[i].v] < lv
      ensures ListGood(W(ws', trail[i].Neg()), cls', a, level, trail[i].Neg())
    {
      ListGoodPermuted(W(ws, trail[i].Neg()), cls, cls', a, level, trail[i].Neg());
    }
  }

  lemma ListGoodPermuted(ws: seq<Watched>, cls: Clauses, cls': Clauses, a: Assigns, level: map<nat, nat>, np: Lit)
    requires ListGood(ws, cls, a, level, np) && SameClauses(cls, cls')
    ensures ListGood(ws, cls', a, level, np)
  {
    forall w | w in ws
      ensures EntryGood(cls', a, level, np, w)
    {
      assert EntryGood(cls, a, level, np, w);
      if w.Long? {
        SameMultisetSameLits(cls[w.off], cls'[w.off]);
        var t :| t in cls[w.off] && TrueBy(a, level, np, t);
        assert t in cls'[w.off];
      }
    }
  }

  /**
   Undoing the levels above `k` breaks no promise made up to there: the literal that satisfies a clause was set no
   later than the watch was falsified, so it survives whenever the watch does.
   */
  lemma GoodAfterUndo(ws: WatchLists, cls: Clauses, trail: seq<Lit>, lim: seq<nat>, a: Assigns, a': Assigns,
                      level: map<nat, nat>, n: nat, q: nat, k: nat, lv: nat)
    requires TrailOk(trail, lim, a, level, n) && k < |lim| && lim[k] <= q <= |trail|
    requires lv <= k + 1 && Good(ws, cls, trail, a, level, q, lv)
    requires forall l :: Value(a, l) == True && l in trail[..lim[k]] ==> Value(a', l) == True
    ensures Good(ws, cls, trail[..lim[k]], a', level, lim[k], lv)
    ensures lv == k + 1 ==> Good(ws, cls, trail[..lim[k]], a', level, lim[k], |lim| + 1)
  {
    var trail' := trail[..lim[k]];
    forall i | 0 <= i < lim[k]
      ensures trail'[i].v in level && level[trail'[i].v] <= k
    {
      assert trail'[i] == trail[i];
      assert EntryOk(trail, lim, a, level, n, i);
    }
    forall i | 0 <= i < lim[k] && trail'[i].v in level && level[trail'[i].v] < lv
      ensures ListGood(W(ws, trail'[i].Neg()), cls, a', level, trail'[i].Neg())
    {
      assert trail'[i] == trail[i];
      assert EntryOk(trail, lim, a, level, n, i);
      var l := trail[i].Neg();
      assert level[l.v] <= k;
      forall w | w in W(ws, l)
        ensures EntryGood(cls, a', level, l, w)
      {
        assert EntryGood(cls, a, level, l, w);
        var t :| (w.Bin? ==> t == w.lit2) && (w.Long? ==> t in cls[w.off]) && TrueBy(a, level, l, t);
        var j := OnTrail(trail, lim, a, level, n, t);
        assert j < lim[k];
        assert t == trail'[j];
        assert TrueBy(a', level, l, t);
      }
    }
  }

  // ----- what an empty queue means -----

  /** The clauses that propagation works on: binary and long ones. */
  ghost function Clauses2(ws: WatchLists, cls: Clauses): Formula {
    BinClauses(ws, false) + BinClauses(ws, true) + LongClauses(cls)
  }

  /** The irredundant and the redundant binary clauses. */
  ghost function BinKinds(ws: WatchLists): (Formula, Formula) {
    (BinClauses(ws, false), BinClauses(ws, true))
  }

  /** The same with one more. */
  ghost function WithOne(bins: (Formula, Formula), c: Clause, red: bool): (Formula, Formula) {
    if red then (bins.0, bins.1 + iset{c}) else (bins.0 + iset{c}, bins.1)
  }

  /** Satisfied, or with two different literals that are not false: neither unit nor falsified. */
  ghost predicate Quiet(a: Assigns, c: Clause) {
    || (exists t :: t in c && Value(a, t) == True)
    || exists l, k :: l in c && k in c && l != k && Value(a, l) != False && Value(a, k) != False
  }

  /** When every falsified watch keeps its promise, no clause is unit or falsified. */
  lemma NoneUnitNoneFalse(ws: WatchLists, cls: Clauses, trail: seq<Lit>, lim: seq<nat>, a: Assigns,
                          level: map<nat, nat>, n: nat, c: Clause)
    requires TrailOk(trail, lim, a, level, n) && ClausesOk(cls) && TwoWatched(ws, cls) && Symmetric(ws)
    requires Good(ws, cls, trail, a, level, |trail|, |lim| + 1)
    requires c in Clauses2(ws, cls)
    ensures Quiet(a, c)
  {
    if c in LongClauses(cls) {
      var off :| off in cls && c == Lits(cls[off]);
      var l, k := cls[off][0], cls[off][1];
      assert l in c && k in c && l != k;
      if Value(a, l) == False {
        LongQuiet(ws, cls, trail, lim, a, level, n, off, l);
      } else if Value(a, k) == False {
        LongQuiet(ws, cls, trail, lim, a, level, n, off, k);
      }
    } else {
      var red :| c in BinClauses(ws, red);
      var l, k :| Bin(k, red) in W(ws, l) && c == {l, k};
      InBins(W(ws, l), Bin(k, red));
      InBins(W(ws, k), Bin(l, red));
      assert k != l && Bin(l, red) in W(ws, k);
      if Value(a, l) == False {
        BinQuiet(ws, cls, trail, lim, a, level, n, l, k, red);
      } else if Value(a, k) == False {
        BinQuiet(ws, cls, trail, lim, a, level, n, k, l, red);
      }
    }
  }

  lemma LongQuiet(ws: WatchLists, cls: Clauses, trail: seq<Lit>, lim: seq<nat>, a: Assigns, level: map<nat, nat>,
                  n: nat, off: nat, l: Lit)
    requires TrailOk(trail, lim, a, level, n) && ClausesOk(cls) && TwoWatched(ws, cls)
    requires Good(ws, cls, trail, a, level, |trail|, |lim| + 1)
    requires WatchesLit(cls, off, l) && Value(a, l) == False
    ensures exists t :: t in Lits(cls[off]) && Value(a, t) == True
  {
    var i := OnTrail(trail, lim, a, level, n, l.Neg());
    assert trail[i].Neg() == l;
    assert WatchCount(ws, cls, l, off);
    assert off in LongOffs(W(ws, l));
    var j := LongOffWitness(W(ws, l), off);
    var w := W(ws, l)[j];
    assert ListGood(W(ws, l), cls, a, level, l);
    assert w in W(ws, l);
    assert EntryGood(cls, a, level, l, w);
    var t :| t in cls[off] && TrueBy(a, level, l, t);
    assert t in Lits(cls[off]);
  }

  lemma BinQuiet(ws: WatchLists, cls: Clauses, trail: seq<Lit>, lim: seq<nat>, a: Assigns, level: map<nat, nat>, n: nat,
                 l: Lit, k: Lit, red: bool)
    requires TrailOk(trail, lim, a, level, n)
    requires Good(ws, cls, trail, a, level, |trail|, |lim| + 1)
    requires Bin(k, red) in W(ws, l) && Value(a, l) == False
    ensures Value(a, k) == True
  {
    var i := OnTrail(trail, lim, a, level, n, l.Neg());
    assert trail[i].Neg() == l;
    assert ListGood(W(ws, l), cls, a, level, l);
    assert EntryGood(cls, a, level, l, Bin(k, red));
  }

  /** A trail on which every clause is quiet is closed under the unit rule and falsifies nothing. */
  lemma QuietIsClosed(f: Formula, trail: seq<Lit>, lim: seq<nat>, a: Assigns, level: map<nat, nat>, n: nat)
    requires TrailOk(trail, lim, a, level, n)
    requires forall c :: c in f ==> Quiet(a, c)
    ensures Closed(f, Set(trail)) && !Falsified(f, Set(trail))
  {
    forall l
      ensures l in Set(trail) <==> Value(a, l) == True
    {
      if Value(a, l) == True {
        var i := OnTrail(trail, lim, a, level, n, l);
      }
      if l in trail {
        var i :| 0 <= i < |trail| && trail[i] == l;
        assert EntryOk(trail, lim, a, level, n, i);
      }
    }
    forall c, l | c in f && l in c && OthersNegated(c, l, Set(trail))
      ensures l in Set(trail)
    {
      assert Quiet(a, c);
      forall k | k in c && k != l
        ensures Value(a, k) == False
      {
        assert k.Neg() in Set(trail);
      }
    }
    forall c | c in f
      ensures !AllNegated(c, Set(trail))
    {
      assert Quiet(a, c);
      if AllNegated(c, Set(trail)) {
        assert forall k :: k in c ==> k.Neg() in Set(trail);
      }
    }
  }

  // ----- attaching a clause -----

  /** The lists after a clause has been pushed on the lists of its first two literals. */
  function Attached(ws: WatchLists, c: seq<Lit>, off: nat): WatchLists
    requires ClauseOk(c)
  {
    var ws1 := ws[c[0] := W(ws, c[0]) + [Long(off, c[2])]];
    ws1[c[1] := W(ws1, c[1]) + [Long(off, c[2])]]
  }

  lemma AttachedLists(ws: WatchLists, c: seq<Lit>, off: nat, l: Lit)
    requires ClauseOk(c)
    ensures W(Attached(ws, c, off), l) == W(ws, l) + if l == c[0] || l == c[1] then [Long(off, c[2])] else []
    ensures Bins(W(Attached(ws, c, off), l)) == Bins(W(ws, l))
    ensures LongOffs(W(Attached(ws, c, off), l)) == LongOffs(W(ws, l)) + if l == c[0] || l == c[1] then multiset{off}
      else multiset{}
  {
    hide Bins, LongOffs;
    SingleLong(Long(off, c[2]));
    ListsConcat(W(ws, l), [Long(off, c[2])]);
  }

  lemma AttachKeeps(ws: WatchLists, cls: Clauses, c: seq<Lit>, off: nat, n: nat)
    requires ClausesOk(cls) && TwoWatched(ws, cls) && LitsBelow(ws, cls, n) && Symmetric(ws) && BlockedOk(ws, cls)
    requires ClauseOk(c) && off !in cls && forall l :: l in c ==> l.v < n
    ensures var ws', cls' := Attached(ws, c, off), cls[off := c];
      ClausesOk(cls') && TwoWatched(ws', cls') && LitsBelow(ws', cls', n) && Symmetric(ws') && BlockedOk(ws', cls')
        && SameBins(ws, ws')
  {
    hide Bins, LongOffs, Attached, SameBins, LitsBelow;
    var ws', cls' := Attached(ws, c, off), cls[off := c];
    assert ClausesOk(cls');
    forall l, o
      ensures WatchCount(ws', cls', l, o)
    {
      assert WatchCount(ws, cls, l, o);
      AttachedLists(ws, c, off, l);
    }
    forall l
      ensures Bins(W(ws', l)) == Bins(W(ws, l))
      ensures forall w :: w in W(ws', l) ==> w in W(ws, l) || w == Long(off, c[2])
    {
      AttachedLists(ws, c, off, l);
    }
    assert c[2] in c;
    AttachBelow(ws, cls, c, off, n);
    SameBinsBy(ws, ws');
    assert Symmetric(ws') by {
      forall l, k, red | Bin(k, red) in Bins(W(ws', l))
        ensures Bin(l, red) in Bins(W(ws', k)) && k != l
      {
        assert Bin(k, red) in Bins(W(ws, l));
      }
    }
  }

  lemma SameBinsBy(ws: WatchLists, ws': WatchLists)
    requires forall l :: Bins(W(ws', l)) == Bins(W(ws, l))
    ensures SameBins(ws, ws')
  {
  }

  lemma AttachBelow(ws: WatchLists, cls: Clauses, c: seq<Lit>, off: nat, n: nat)
    requires LitsBelow(ws, cls, n) && ClauseOk(c) && forall l :: l in c ==> l.v < n
    ensures LitsBelow(Attached(ws, c, off), cls[off := c], n)
  {
    var ws' := Attached(ws, c, off);
    forall l, w | w in W(ws', l) && w.Bin?
      ensures w.lit2.v < n
    {
      AttachedLists(ws, c, off, l);
      assert w in W(ws, l);
    }
  }

  /** A new clause breaks no promise as long as a false watch of it has a true literal set no later beside it. */
  lemma GoodAttached(ws: WatchLists, cls: Clauses, c: seq<Lit>, off: nat, trail: seq<Lit>, a: Assigns,
                     level: map<nat, nat>, q: nat, lv: nat)
    requires ClauseOk(c) && off !in cls && Good(ws, cls, trail, a, level, q, lv) && q <= |trail|
    requires forall i :: 0 <= i < q && (trail[i].Neg() == c[0] || trail[i].Neg() == c[1]) ==> exists t ::
      t in c && TrueBy(a, level, trail[i].Neg(), t)
    ensures Good(Attached(ws, c, off), cls[off := c], trail, a, level, q, lv)
  {
    var ws', cls' := Attached(ws, c, off), cls[off := c];
    forall i | 0 <= i < q && trail[i].v in level && level[trail[i].v] < lv
      ensures ListGood(W(ws', trail[i].Neg()), cls', a, level, trail[i].Neg())
    {
      var l := trail[i].Neg();
      AttachedLists(ws, c, off, l);
      forall w | w in W(ws', l)
        ensures EntryGood(cls', a, level, l, w)
      {
        if w in W(ws, l) {
          assert EntryGood(cls, a, level, l, w);
        } else {
          assert w == Long(off, c[2]);
        }
      }
    }
  }

  lemma DbAttached(ws: WatchLists, cls: Clauses, c: seq<Lit>, off: nat)
    requires ClauseOk(c) && off !in cls && SameBins(ws, Attached(ws, c, off))
    ensures Clauses2(Attached(ws, c, off), cls[off := c]) == Clauses2(ws, cls) + iset{Lits(c)}
    ensures BinKinds(Attached(ws, c, off)) == BinKinds(ws)
  {
    hide Attached, ClauseOk, LongClauses, BinClauses;
    var ws' := Attached(ws, c, off);
    SameBinClauses(ws, ws', false);
    SameBinClauses(ws', ws, false);
    SameBinClauses(ws, ws', true);
    SameBinClauses(ws', ws, true);
    assert BinClauses(ws, false) == BinClauses(ws', false) && BinClauses(ws, true) == BinClauses(ws', true);
    LongAttached(cls, c, off);
    assert Clauses2(ws', cls[off := c]) == BinClauses(ws, false) + BinClauses(ws,
      true) + (LongClauses(cls) + iset{Lits(c)});
  }

  lemma LongAttached(cls: Clauses, c: seq<Lit>, off: nat)
    requires off !in cls
    ensures LongClauses(cls[off := c]) == LongClauses(cls) + iset{Lits(c)}
  {
    var cls' := cls[off := c];
    forall d | d in LongClauses(cls) + iset{Lits(c)}
      ensures d in LongClauses(cls')
    {
      if d in LongClauses(cls) {
        var o :| o in cls && d == Lits(cls[o]);
        assert o in cls' && cls'[o] == cls[o];
      } else {
        assert off in cls' && cls'[off] == c;
      }
    }
  }

  // ----- attaching a binary clause -----

  /** The lists after a binary clause has been pushed on both of them. */
  function WithBin(ws: WatchLists, a: Lit, b: Lit, red: bool): WatchLists {
    var ws1 := ws[a := W(ws, a) + [Bin(b, red)]];
    ws1[b := W(ws1, b) + [Bin(a, red)]]
  }

  lemma WithBinLists(ws: WatchLists, a: Lit, b: Lit, red: bool, y: Lit)
    requires a != b
    ensures W(WithBin(ws, a, b, red), y) == W(ws, y) + if y == a then [Bin(b, red)] else if y == b then [Bin(a, red)]
      else []
  {
  }

  lemma InWithBin(ws: WatchLists, a: Lit, b: Lit, red: bool, l: Lit, w: Watched)
    requires a != b
    ensures w in W(WithBin(ws, a, b, red), l) <==>
      w in W(ws, l) || (l == a && w == Bin(b, red)) || (l == b && w == Bin(a, red))
  {
    hide WithBin;
    WithBinLists(ws, a, b, red, l);
  }

  lemma WithBinKeeps(ws: WatchLists, cls: Clauses, a: Lit, b: Lit, red: bool, n: nat)
    requires ClausesOk(cls) && TwoWatched(ws, cls) && LitsBelow(ws, cls, n) && Symmetric(ws) && BlockedOk(ws, cls)
    requires a != b && a.v < n && b.v < n
    ensures var ws' := WithBin(ws, a, b, red);
      TwoWatched(ws', cls) && LitsBelow(ws', cls, n) && Symmetric(ws') && BlockedOk(ws', cls)
  {
    hide LongOffs, Bins, WithBin, W;
    var ws' := WithBin(ws, a, b, red);
    forall l, w
      ensures w in W(ws', l) <==> w in W(ws, l) || (l == a && w == Bin(b, red)) || (l == b && w == Bin(a, red))
    {
      InWithBin(ws, a, b, red, l, w);
    }
    WithBinOffs(ws, cls, a, b, red);
    WithBinSymmetric(ws, a, b, red);
  }

  lemma WithBinOffs(ws: WatchLists, cls: Clauses, a: Lit, b: Lit, red: bool)
    requires ClausesOk(cls) && TwoWatched(ws, cls) && a != b
    ensures TwoWatched(WithBin(ws, a, b, red), cls)
  {
    hide LongOffs, WithBin, TwoWatched;
    var ws' := WithBin(ws, a, b, red);
    forall y
      ensures LongOffs(W(ws, y)) == LongOffs(W(ws', y))
    {
      WithBinLists(ws, a, b, red, y);
      OneBin(W(ws, y), if y == a then Bin(b, red) else Bin(a, red));
      assert W(ws, y) + [] == W(ws, y);
    }
    SameOffsKeep(ws, ws', cls);
  }

  lemma WithBinSymmetric(ws: WatchLists, a: Lit, b: Lit, red: bool)
    requires Symmetric(ws) && a != b
    ensures Symmetric(WithBin(ws, a, b, red))
  {
    hide Bins, WithBin, W;
    var ws' := WithBin(ws, a, b, red);
    forall l, k, r | Bin(k, r) in Bins(W(ws', l))
      ensures Bin(l, r) in Bins(W(ws', k)) && k != l
    {
      InBins(W(ws', l), Bin(k, r));
      InBins(W(ws', k), Bin(l, r));
      InWithBin(ws, a, b, red, l, Bin(k, r));
      InWithBin(ws, a, b, red, k, Bin(l, r));
      InBins(W(ws, l), Bin(k, r));
      InBins(W(ws, k), Bin(l, r));
    }
  }

  lemma OneBin(s: seq<Watched>, w: Watched)
    requires w.Bin?
    ensures LongOffs(s + [w]) == LongOffs(s)
  {
    LongOffsConcat(s, [w]);
  }

  lemma DbWithBin(ws: WatchLists, cls: Clauses, a: Lit, b: Lit, red: bool)
    requires a != b
    ensures Clauses2(WithBin(ws, a, b, red), cls) == Clauses2(ws, cls) + iset{{a, b}}
    ensures BinKinds(WithBin(ws, a, b, red)) == WithOne(BinKinds(ws), {a, b}, red)
  {
    hide WithBin, LongClauses, BinClauses;
    BinsWith(ws, a, b, red, false);
    BinsWith(ws, a, b, red, true);
    assert BinClauses(ws, !red) + iset{} == BinClauses(ws, !red);
  }

  lemma BinsWith(ws: WatchLists, a: Lit, b: Lit, red: bool, r: bool)
    requires a != b
    ensures BinClauses(WithBin(ws, a, b, red), r) == BinClauses(ws, r) + if r == red then iset{{a, b}} else iset{}
  {
    hide WithBin, W;
    var ws' := WithBin(ws, a, b, red);
    forall l, k
      ensures Bin(k, r) in W(ws', l) <==>
        Bin(k, r) in W(ws, l) || (r == red && ((l == a && k == b) || (l == b && k == a)))
    {
      InWithBin(ws, a, b, red, l, Bin(k, r));
    }
    forall c | c in BinClauses(ws, r)
      ensures c in BinClauses(ws', r)
    {
      var l, k :| Bin(k, r) in W(ws, l) && c == {l, k};
      assert Bin(k, r) in W(ws', l);
    }
    forall c | c in BinClauses(ws', r)
      ensures c in BinClauses(ws, r) || (r == red && c == {a, b})
    {
      var l, k :| Bin(k, r) in W(ws', l) && c == {l, k};
      assert {b, a} == {a, b};
    }
    assert r == red ==> Bin(b, r) in W(ws', a);
  }

  // ----- detaching a clause -----

  /** One entry of the clause is gone from the list. */
  ghost predicate WithoutLong(s: seq<Watched>, s': seq<Watched>, off: nat) {
    exists i {:trigger s[i]} :: 0 <= i < |s| && s[i].Long? && s[i].off == off && s' == s[..i] + s[i + 1..]
  }

  /** The lists after the clause has been taken out of those of its first two literals. */
  ghost predicate Detached(ws: WatchLists, ws': WatchLists, cls: Clauses, off: nat)
    requires ClausesOk(cls) && off in cls
  {
    forall l {:trigger W(ws', l)} ::
      if WatchesLit(cls, off, l) then WithoutLong(W(ws, l), W(ws', l), off) else W(ws', l) == W(ws, l)
  }

  lemma WithoutLongLists(s: seq<Watched>, s': seq<Watched>, off: nat)
    requires WithoutLong(s, s', off)
    ensures Bins(s') == Bins(s) && LongOffs(s) == LongOffs(s') + multiset{off} && forall w :: w in s' ==> w in s
  {
    hide Bins, LongOffs;
    var i :| 0 <= i < |s| && s[i].Long? && s[i].off == off && s' == s[..i] + s[i + 1..];
    AroundLong(s[..i], s[i], s[i + 1..]);
    assert s == s[..i] + [s[i]] + s[i + 1..];
  }

  lemma DetachedLists(ws: WatchLists, ws': WatchLists, cls: Clauses, off: nat, l: Lit)
    requires ClausesOk(cls) && off in cls && Detached(ws, ws', cls, off)
    ensures Bins(W(ws', l)) == Bins(W(ws, l))
    ensures LongOffs(W(ws, l)) == LongOffs(W(ws', l)) + if WatchesLit(cls, off, l) then multiset{off} else multiset{}
    ensures forall w :: w in W(ws', l) ==> w in W(ws, l)
  {
    hide Bins, LongOffs, WithoutLong;
    if WatchesLit(cls, off, l) {
      assert WithoutLong(W(ws, l), W(ws', l), off);
      WithoutLongLists(W(ws, l), W(ws', l), off);
    } else {
      assert W(ws', l) == W(ws, l);
    }
  }

  lemma DetachKeeps(ws: WatchLists, ws': WatchLists, cls: Clauses, off: nat, n: nat)
    requires ClausesOk(cls) && TwoWatched(ws, cls) && LitsBelow(ws, cls, n) && Symmetric(ws) && BlockedOk(ws, cls)
    requires off in cls && Detached(ws, ws', cls, off)
    ensures var cls' := cls - {off};
      ClausesOk(cls') && TwoWatched(ws', cls') && LitsBelow(ws', cls', n) && Symmetric(ws') && BlockedOk(ws', cls')
        && SameBins(ws, ws')
  {
    hide Bins, LongOffs, Detached;
    var cls' := cls - {off};
    forall l
      ensures Bins(W(ws, l)) == Bins(W(ws', l)) && forall w :: w in W(ws', l) ==> w in W(ws, l)
    {
      DetachedLists(ws, ws', cls, off, l);
    }
    SymmetricKept(ws, ws');
    forall l, o
      ensures WatchCount(ws', cls', l, o)
    {
      assert WatchCount(ws, cls, l, o);
      DetachedLists(ws, ws', cls, off, l);
    }
    forall l, w | w in W(ws', l) && w.Long?
      ensures w.off in cls' && w.blocked in cls'[w.off]
    {
      assert w in W(ws, l);
      StillWatched(ws', cls', l, w);
    }
  }

  lemma StillWatched(ws: WatchLists, cls: Clauses, l: Lit, w: Watched)
    requires ClausesOk(cls) && TwoWatched(ws, cls) && w in W(ws, l) && w.Long?
    ensures w.off in cls
  {
    var i :| 0 <= i < |W(ws, l)| && W(ws, l)[i] == w;
    EntryWatches(ws, cls, l, i);
  }

  /** A clause less is a promise less. */
  lemma GoodDetached(ws: WatchLists, ws': WatchLists, cls: Clauses, off: nat, trail: seq<Lit>, a: Assigns,
                     level: map<nat, nat>, q: nat, lv: nat)
    requires Good(ws, cls, trail, a, level, q, lv)
    requires ClausesOk(cls) && off in cls && Detached(ws, ws', cls, off) && TwoWatched(ws', cls - {off})
    ensures Good(ws', cls - {off}, trail, a, level, q, lv)
  {
    hide Detached, TwoWatched;
    forall i | 0 <= i < q && i < |trail| && trail[i].v in level && level[trail[i].v] < lv
      ensures ListGood(W(ws', trail[i].Neg()), cls - {off}, a, level, trail[i].Neg())
    {
      var l := trail[i].Neg();
      DetachedLists(ws, ws', cls, off, l);
      forall w | w in W(ws', l)
        ensures EntryGood(cls - {off}, a, level, l, w)
      {
        assert w in W(ws, l);
        assert EntryGood(cls, a, level, l, w);
        if w.Long? {
          StillWatched(ws', cls - {off}, l, w);
        }
      }
    }
  }

  lemma DbDetached(ws: WatchLists, ws': WatchLists, cls: Clauses, off: nat)
    requires off in cls && SameBins(ws, ws')
    ensures Clauses2(ws, cls) == Clauses2(ws', cls - {off}) + iset{Lits(cls[off])} && BinKinds(ws') == BinKinds(ws)
  {
    hide LongClauses, BinClauses, SameBins;
    SameBinClauses(ws, ws', false);
    SameBinClausesBack(ws, ws', false);
    SameBinClauses(ws, ws', true);
    SameBinClausesBack(ws, ws', true);
    assert BinClauses(ws, false) == BinClauses(ws', false) && BinClauses(ws, true) == BinClauses(ws', true);
    assert cls == (cls - {off})[off := cls[off]];
    LongAttached(cls - {off}, cls[off], off);
  }

  lemma SameBinClausesBack(ws: WatchLists, ws': WatchLists, red: bool)
    requires SameBins(ws, ws')
    ensures BinClauses(ws', red) <= BinClauses(ws, red)
  {
    SameBinClauses(ws', ws, red);
  }
}
