/**
 Binary clauses attached to and taken out of watch lists, counted entry by entry.
 (cryptoms/propengine.cpp, cryptoms/watchalgos.h)
 */
module BinLists {
  import opened Literals
  import opened Watches
  import opened Forest
  import opened OccTheory
  import opened Trail
  import opened WatchTheory

  /** Each pair as often as before, once more for a clause of `more` and once less for one of `less`. */
  ghost predicate Counted(ws: WatchLists, ws': WatchLists, more: set<BinClause>, less: set<BinClause>) {
    forall a: Lit, k: Lit, r: bool {:trigger Cnt(W(ws', a), Bin(k, r))} :: a.v != k.v ==>
      Cnt(W(ws', a), Bin(k, r)) == Cnt(W(ws, a), Bin(k, r)) + Once(more, a, k, r) - Once(less, a, k, r)
  }

  ghost function Once(bs: set<BinClause>, a: Lit, k: Lit, r: bool): nat {
    if BinClause({a, k}, r) in bs then 1 else 0
  }

  /** Entries of long clauses are as they were. */
  ghost predicate SameLongs(ws: WatchLists, ws': WatchLists) {
    forall y: Lit {:trigger W(ws', y)} :: LongOffs(W(ws', y)) == LongOffs(W(ws, y)) && SameLongsIn(W(ws, y), W(ws', y))
  }

  ghost predicate SameLongsIn(s: seq<Watched>, s': seq<Watched>) {
    forall w: Watched {:trigger w in s'} :: w.Long? ==> (w in s' <==> w in s)
  }

  /** Two literals of different variables, as a pair and as a clause of its kind. */
  ghost predicate PairOf(b: BinClause, a: Lit, k: Lit) {
    b.lits == {a, k} && a.v != k.v
  }

  ghost predicate LitsOf(b: BinClause, a: Lit, k: Lit) {
    b.lits == {a, k}
  }

  /** The clause is in the list of one of its literals. */
  ghost predicate Listed(ws: WatchLists, b: BinClause) {
    exists a: Lit, k: Lit {:trigger LitsOf(b, a, k)} :: LitsOf(b, a, k) && Bin(k, b.red) in W(ws, a)
  }

  ghost predicate AllListed(ws: WatchLists, bs: set<BinClause>) {
    forall b {:trigger b in bs} :: b in bs ==> Listed(ws, b)
  }

  /** A clause of two variables below `n` of which none is set by `facts`. */
  ghost predicate Attachable(b: BinClause, facts: seq<Lit>, n: nat) {
    exists a: Lit, k: Lit {:trigger PairOf(b, a, k)} ::
      PairOf(b, a, k) && a.v < n && k.v < n && NotSet(facts, a) && NotSet(facts, k)
  }

  ghost predicate NotSet(facts: seq<Lit>, l: Lit) {
    forall f {:trigger f in facts} :: f in facts ==> f.v != l.v
  }

  ghost predicate AllAttachable(bs: set<BinClause>, facts: seq<Lit>, n: nat) {
    forall b {:trigger b in bs} :: b in bs ==> Attachable(b, facts, n)
  }

  lemma OneMoreAttachable(bs: set<BinClause>, facts: seq<Lit>, n: nat, a: Lit, k: Lit, red: bool)
    requires AllAttachable(bs, facts, n) && a.v != k.v && a.v < n && k.v < n && NotSet(facts, a) && NotSet(facts, k)
    ensures AllAttachable(bs + {BinClause({a, k}, red)}, facts, n)
  {
    var b := BinClause({a, k}, red);
    assert PairOf(b, a, k);
    hide NotSet;
    assert Attachable(b, facts, n);
  }

  lemma NonePending(ws: WatchLists, facts: seq<Lit>, n: nat)
    ensures AllListed(ws, {}) && AllAttachable({}, facts, n)
  {
  }

  lemma FewerAttachable(bs: set<BinClause>, bs': set<BinClause>, facts: seq<Lit>, n: nat)
    requires AllAttachable(bs, facts, n) && bs' <= bs
    ensures AllAttachable(bs', facts, n)
  {
  }

  lemma OneMoreListed(ws: WatchLists, bs: set<BinClause>, a: Lit, k: Lit, red: bool)
    requires AllListed(ws, bs) && Bin(k, red) in W(ws, a)
    ensures AllListed(ws, bs + {BinClause({a, k}, red)})
  {
    var b := BinClause({a, k}, red);
    assert LitsOf(b, a, k);
    assert Listed(ws, b);
  }

  lemma PairUnique(a: Lit, k: Lit, y: Lit, z: Lit)
    requires a.v != k.v && y.v != z.v
    ensures {a, k} == {y, z} <==> (a == y && k == z) || (a == z && k == y)
  {
    if {a, k} == {y, z} {
      assert a in {y, z} && k in {y, z} && y in {a, k} && z in {a, k};
    }
  }

  lemma CountedRefl(ws: WatchLists)
    ensures Counted(ws, ws, {}, {}) && SameLongs(ws, ws)
  {
  }

  // ----- what is waiting -----

  ghost predicate TrueClause(a: Assigns, b: BinClause) {
    exists l {:trigger l in b.lits} :: l in b.lits && Value(a, l) == True
  }

  ghost function Kind(bs: set<BinClause>, red: bool): set<BinClause> {
    set b | b in bs && b.red == red
  }

  lemma NoKind()
    ensures Kind({}, false) == {} && Kind({}, true) == {}
  {
  }

  lemma KindNext(bs: set<BinClause>, b: BinClause, red: bool)
    requires b !in bs
    ensures |Kind(bs + {b}, red)| == |Kind(bs, red)| + if b.red == red then 1 else 0
  {
    assert Kind(bs + {b}, red) == if b.red == red then Kind(bs, red) + {b} else Kind(bs, red);
  }

  /** What is attached: everything, or everything that is not satisfied. */
  ghost function ToAttach(bs: set<BinClause>, a: Assigns, check: bool): set<BinClause> {
    set b | b in bs && !(check && TrueClause(a, b))
  }

  lemma NoneToAttach(bs: set<BinClause>, a: Assigns, check: bool)
    ensures ToAttach(bs - bs, a, check) == {}
  {
  }

  lemma AttachedAmong(bs: set<BinClause>, a: Assigns, check: bool)
    ensures ToAttach(bs, a, check) <= bs
  {
  }

  lemma NextToAttach(bs: set<BinClause>, todo: set<BinClause>, a: Assigns, check: bool, b: BinClause)
    requires todo <= bs && b in todo
    ensures b !in ToAttach(bs - todo, a, check)
    ensures ToAttach(bs - (todo - {b}), a, check) == ToAttach(bs - todo, a, check) + if check && TrueClause(a, b) then
      {} else {b}
  {
    hide TrueClause;
    assert bs - (todo - {b}) == (bs - todo) + {b};
  }

  lemma NotTrue(a: Assigns, b: BinClause, l: Lit, k: Lit)
    requires b.lits == {l, k}
    ensures TrueClause(a, b) <==> Value(a, l) == True || Value(a, k) == True
  {
    assert l in b.lits && k in b.lits;
  }

  /** The two literals of a clause, in any order. */
  method LitsOfClause(b: BinClause) returns (lit1: Lit, lit2: Lit)
    requires exists a: Lit, k: Lit {:trigger PairOf(b, a, k)} :: PairOf(b, a, k)
    ensures PairOf(b, lit1, lit2)
  {
    ghost var a: Lit, k: Lit :| PairOf(b, a, k);
    assert a in b.lits && k in b.lits;
    lit1 :| lit1 in b.lits;
    assert lit1 == a || lit1 == k;
    lit2 :| lit2 in b.lits && lit2 != lit1;
  }

  lemma AttachablePairs(bs: set<BinClause>, facts: seq<Lit>, n: nat)
    requires AllAttachable(bs, facts, n)
    ensures forall b {:trigger b in bs} :: b in bs ==> exists a: Lit, k: Lit :: PairOf(b, a, k)
  {
    forall b | b in bs
      ensures exists a: Lit, k: Lit :: PairOf(b, a, k)
    {
      assert Attachable(b, facts, n);
    }
  }

  lemma ListedIsPair(ws: WatchLists, b: BinClause)
    requires BinsOk(ws) && Listed(ws, b)
    ensures exists a: Lit, k: Lit {:trigger PairOf(b, a, k)} :: PairOf(b, a, k)
  {
    var a: Lit, k: Lit :| LitsOf(b, a, k) && Bin(k, b.red) in W(ws, a);
    assert k.v != a.v && PairOf(b, a, k);
  }

  /** At level 0 nothing that is waiting has a value. */
  lemma Attachable0(bs: set<BinClause>, facts: seq<Lit>, a: Assigns, level: map<nat, nat>, n: nat)
    requires AllAttachable(bs, facts, n) && TrailOk(facts, [], a, level, n)
    ensures AllAttachable(bs, [], n) && ToAttach(bs, a, true) == bs
    ensures forall b {:trigger b in bs} :: b in bs ==> forall l :: l in b.lits ==> Value(a, l) == Undef
  {
    forall b | b in bs
      ensures Attachable(b, [], n) && forall l :: l in b.lits ==> Value(a, l) == Undef
    {
      var x: Lit, y: Lit :| PairOf(b, x, y) && x.v < n && y.v < n && NotSet(facts, x) && NotSet(facts, y);
      assert PairOf(b, x, y) && NotSet([], x) && NotSet([], y);
      NotSetUndef(facts, a, level, n, x);
      NotSetUndef(facts, a, level, n, y);
    }
  }

  lemma NotSetUndef(facts: seq<Lit>, a: Assigns, level: map<nat, nat>, n: nat, l: Lit)
    requires TrailOk(facts, [], a, level, n) && NotSet(facts, l)
    ensures Value(a, l) == Undef
  {
    forall v | v in a
      ensures v != l.v
    {
      var i :| 0 <= i < |facts| && facts[i].v == v;
      assert facts[i] in facts;
    }
  }

  lemma FactsTrue(facts: seq<Lit>, a: Assigns, level: map<nat, nat>, n: nat)
    requires TrailOk(facts, [], a, level, n)
    ensures forall i {:trigger facts[i]} :: 0 <= i < |facts| ==> Value(a, facts[i]) == True
  {
    forall i | 0 <= i < |facts|
      ensures Value(a, facts[i]) == True
    {
      assert EntryOk(facts, [], a, level, n, i);
    }
  }

  lemma AttachableBelow(bs: set<BinClause>, all: set<BinClause>, n: nat)
    requires bs <= all && AllAttachable(all, [], n)
    ensures forall b {:trigger b in bs} :: b in bs ==> forall l :: l in b.lits ==> l.v < n
  {
    forall b, l | b in bs && l in b.lits
      ensures l.v < n
    {
      var a: Lit, k: Lit :| PairOf(b, a, k) && a.v < n && k.v < n;
    }
  }

  // ----- one clause -----

  lemma WithBinCounts(ws0: WatchLists, ws: WatchLists, more: set<BinClause>, less: set<BinClause>, a: Lit, b: Lit,
                      red: bool)
    requires Counted(ws0, ws, more, less) && SameLongs(ws0, ws) && BinsOk(ws) && a.v != b.v
      && BinClause({a, b}, red) !in more
    ensures var ws' := WithBin(ws, a, b, red);
      BinsOk(ws') && Counted(ws0, ws', more + {BinClause({a, b}, red)}, less) && SameLongs(ws0, ws')
  {
    hide Cnt, LongOffs, W;
    var ws' := WithBin(ws, a, b, red);
    forall y: Lit
      ensures W(ws', y) == W(ws, y) + if y == a then [Bin(b, red)] else if y == b then [Bin(a, red)] else []
    {
      WithBinLists(ws, a, b, red, y);
    }
    BinAdded(ws, a, b, red);
    hide WithBin;
    forall y: Lit, z: Lit, r: bool | y.v != z.v
      ensures Cnt(W(ws', y), Bin(z, r)) == Cnt(W(ws0, y), Bin(z, r)) + Once(more + {BinClause({a, b}, red)}, y, z,
        r) - Once(less, y, z, r)
    {
      assert Cnt(W(ws, y), Bin(z, r)) == Cnt(W(ws0, y), Bin(z, r)) + Once(more, y, z, r) - Once(less, y, z, r);
      PairUnique(a, b, y, z);
      Snoc(W(ws, y), if y == a then Bin(b, red) else Bin(a, red), Bin(z, r));
    }
    forall y: Lit
      ensures LongOffs(W(ws', y)) == LongOffs(W(ws0, y)) && SameLongsIn(W(ws0, y), W(ws', y))
    {
      assert LongOffs(W(ws, y)) == LongOffs(W(ws0, y)) && SameLongsIn(W(ws0, y), W(ws, y));
      SnocLongs(W(ws, y), if y == a then Bin(b, red) else Bin(a, red));
      assert W(ws, y) + [] == W(ws, y);
    }
  }

  lemma SnocLongs(s: seq<Watched>, w: Watched)
    requires w.Bin?
    ensures LongOffs(s + [w]) == LongOffs(s) && SameLongsIn(s, s + [w])
  {
    LongOffsConcat(s, [w]);
  }

  /** The lists after a binary clause has been taken out of both of them once. */
  ghost predicate WithoutBin(ws: WatchLists, ws': WatchLists, a: Lit, b: Lit, red: bool) {
    forall y: Lit, e: Watched {:trigger Cnt(W(ws', y), e)} ::
      Cnt(W(ws', y), e) == Cnt(W(ws, y), e) - if (y == a && e == Bin(b, red)) || (y == b && e == Bin(a, red)) then 1
        else 0
  }

  lemma TakenFromBoth(ws: WatchLists, a: Lit, b: Lit, red: bool, la: seq<Watched>, lb: seq<Watched>)
    requires a != b && WithoutOne(W(ws, a), la, Bin(b, red)) && WithoutOne(W(ws, b), lb, Bin(a, red))
    ensures WithoutBin(ws, ws[a := la][b := lb], a, b, red)
    ensures forall y: Lit :: LongOffs(W(ws[a := la][b := lb], y)) == LongOffs(W(ws, y))
  {
    hide Cnt, LongOffs;
    var ws' := ws[a := la][b := lb];
    forall y: Lit
      ensures W(ws', y) == if y == b then lb else if y == a then la else W(ws, y)
    {
    }
    hide W;
    forall y: Lit, e: Watched
      ensures Cnt(W(ws', y), e) == Cnt(W(ws, y), e) - if (y == a && e == Bin(b, red)) || (y == b
        && e == Bin(a, red)) then 1 else 0
    {
      assert y == a ==> Cnt(la, e) == Cnt(W(ws, a), e) - if e == Bin(b, red) then 1 else 0;
      assert y == b ==> Cnt(lb, e) == Cnt(W(ws, b), e) - if e == Bin(a, red) then 1 else 0;
    }
  }

  lemma WithoutBinOk(ws: WatchLists, ws': WatchLists, a: Lit, b: Lit, red: bool)
    requires BinsOk(ws) && WithoutBin(ws, ws', a, b, red)
    ensures BinsOk(ws')
  {
    hide Cnt, W;
    forall y: Lit, w | w in W(ws', y) && w.Bin?
      ensures w.lit2.v != y.v
    {
      InCnt(W(ws', y), w);
      InCnt(W(ws, y), w);
    }
    forall y: Lit, z: Lit, r: bool
      ensures Cnt(W(ws', y), Bin(z, r)) == Cnt(W(ws', z), Bin(y, r))
    {
      assert Cnt(W(ws, y), Bin(z, r)) == Cnt(W(ws, z), Bin(y, r));
    }
  }

  lemma WithoutBinCounts(ws0: WatchLists, ws: WatchLists, ws': WatchLists, more: set<BinClause>, less: set<BinClause>,
                         a: Lit, b: Lit, red: bool)
    requires Counted(ws0, ws, more, less) && WithoutBin(ws, ws', a, b, red) && a.v != b.v
      && BinClause({a, b}, red) !in less
    ensures Counted(ws0, ws', more, less + {BinClause({a, b}, red)})
  {
    hide Cnt, W;
    forall y: Lit, z: Lit, r: bool | y.v != z.v
      ensures Cnt(W(ws', y), Bin(z, r)) == Cnt(W(ws0, y), Bin(z, r)) + Once(more, y, z,
        r) - Once(less + {BinClause({a, b}, red)}, y, z, r)
    {
      assert Cnt(W(ws, y), Bin(z, r)) == Cnt(W(ws0, y), Bin(z, r)) + Once(more, y, z, r) - Once(less, y, z, r);
      PairUnique(a, b, y, z);
    }
  }

  lemma WithoutBinLongs(ws0: WatchLists, ws: WatchLists, ws': WatchLists, a: Lit, b: Lit, red: bool)
    requires SameLongs(ws0, ws) && WithoutBin(ws, ws', a, b, red)
      && forall y: Lit :: LongOffs(W(ws', y)) == LongOffs(W(ws, y))
    ensures SameLongs(ws0, ws')
  {
    hide Cnt, W, LongOffs;
    forall y: Lit
      ensures LongOffs(W(ws', y)) == LongOffs(W(ws0, y)) && SameLongsIn(W(ws0, y), W(ws', y))
    {
      assert LongOffs(W(ws, y)) == LongOffs(W(ws0, y)) && SameLongsIn(W(ws0, y), W(ws, y));
      forall w: Watched | w.Long?
        ensures w in W(ws', y) <==> w in W(ws, y)
      {
        InCnt(W(ws', y), w);
        InCnt(W(ws, y), w);
      }
    }
  }

  // ----- what the counts say about the clauses -----

  lemma InBinClauses(ws: WatchLists, a: Lit, k: Lit, r: bool)
    requires BinsOk(ws)
    ensures {a, k} in BinClauses(ws, r) <==> Cnt(W(ws, a), Bin(k, r)) > 0
  {
    hide W;
    InCnt(W(ws, a), Bin(k, r));
    if {a, k} in BinClauses(ws, r) {
      var y: Lit, z: Lit :| Bin(z, r) in W(ws, y) && {a, k} == {y, z};
      InCnt(W(ws, y), Bin(z, r));
      assert y.v != z.v;
      assert a in {y, z} && k in {y, z} && y in {a, k} && z in {a, k};
      assert Cnt(W(ws, y), Bin(z, r)) == Cnt(W(ws, z), Bin(y, r));
    }
  }

  /** The clauses of `bs` of one kind. */
  ghost function OfKind(bs: set<BinClause>, red: bool): Formula {
    iset b | b in bs && b.red == red :: b.lits
  }

  /** Attaching `more` and taking out `less`, all of which were there: nothing else comes, and nothing else goes. */
  lemma CountedClauses(ws: WatchLists, ws': WatchLists, more: set<BinClause>, less: set<BinClause>, red: bool)
    requires BinsOk(ws) && BinsOk(ws') && Counted(ws, ws', more, less) && AllListed(ws, less)
    requires forall b {:trigger b in more} :: b in more ==> exists a: Lit, k: Lit :: PairOf(b, a, k)
    ensures BinClauses(ws', red) <= BinClauses(ws, red) + OfKind(more, red)
    ensures (BinClauses(ws, red) - OfKind(less, red)) + OfKind(more, red) <= BinClauses(ws', red)
  {
    hide Cnt, W;
    forall c | c in BinClauses(ws', red)
      ensures c in BinClauses(ws, red) + OfKind(more, red)
    {
      var a: Lit, k: Lit :| Bin(k, red) in W(ws', a) && c == {a, k};
      InCnt(W(ws', a), Bin(k, red));
      assert a.v != k.v;
      InBinClauses(ws, a, k, red);
      assert Once(more, a, k, red) > 0 ==> BinClause({a, k}, red) in more;
    }
    forall c | c in BinClauses(ws, red) - OfKind(less, red)
      ensures c in BinClauses(ws', red)
    {
      var a: Lit, k: Lit :| Bin(k, red) in W(ws, a) && c == {a, k};
      InCnt(W(ws, a), Bin(k, red));
      assert a.v != k.v;
      InBinClauses(ws', a, k, red);
      assert BinClause({a, k}, red) in less ==> c in OfKind(less, red);
      assert Cnt(W(ws', a), Bin(k, red)) == Cnt(W(ws, a), Bin(k, red)) + Once(more, a, k, red) - Once(less, a, k, red);
    }
    forall c | c in OfKind(more, red)
      ensures c in BinClauses(ws', red)
    {
      var b :| b in more && b.red == red && b.lits == c;
      var a: Lit, k: Lit :| PairOf(b, a, k);
      assert b == BinClause({a, k}, red);
      InBinClauses(ws', a, k, red);
      if b in less {
        ListedPair(ws, b, a, k);
      }
      assert Cnt(W(ws', a), Bin(k, red)) == Cnt(W(ws, a), Bin(k, red)) + Once(more, a, k, red) - Once(less, a, k, red);
    }
  }

  lemma ListedPair(ws: WatchLists, b: BinClause, a: Lit, k: Lit)
    requires BinsOk(ws) && Listed(ws, b) && PairOf(b, a, k)
    ensures Cnt(W(ws, a), Bin(k, b.red)) > 0 && Bin(k, b.red) in W(ws, a)
  {
    hide Cnt, W;
    InCnt(W(ws, a), Bin(k, b.red));
    var y: Lit, z: Lit :| LitsOf(b, y, z) && Bin(z, b.red) in W(ws, y);
    InCnt(W(ws, y), Bin(z, b.red));
    assert z.v != y.v;
    PairUnique(a, k, y, z);
    assert Cnt(W(ws, y), Bin(z, b.red)) == Cnt(W(ws, z), Bin(y, b.red));
  }

  /** The other clauses to be taken out are still there. */
  lemma StillListed(ws: WatchLists, ws': WatchLists, more: set<BinClause>, less: set<BinClause>, b: BinClause)
    requires BinsOk(ws) && Counted(ws, ws', more, less) && Listed(ws, b) && b !in less
    ensures Listed(ws', b)
  {
    hide Cnt, W;
    var a: Lit, k: Lit :| LitsOf(b, a, k) && Bin(k, b.red) in W(ws, a);
    InCnt(W(ws, a), Bin(k, b.red));
    InCnt(W(ws', a), Bin(k, b.red));
    assert b == BinClause({a, k}, b.red) && k.v != a.v;
    assert Cnt(W(ws', a), Bin(k, b.red)) == Cnt(W(ws, a), Bin(k, b.red)) + Once(more, a, k, b.red) - Once(less, a, k,
      b.red);
  }

  lemma ListedStill(ws: WatchLists, ws': WatchLists, more: set<BinClause>, bs: set<BinClause>)
    requires BinsOk(ws) && Counted(ws, ws', more, {}) && AllListed(ws, bs)
    ensures AllListed(ws', bs)
  {
    hide Listed, Counted;
    forall b | b in bs
      ensures Listed(ws', b)
    {
      StillListed(ws, ws', more, {}, b);
    }
  }

  lemma CountedBoth(ws: WatchLists, ws1: WatchLists, ws2: WatchLists, more: set<BinClause>, less: set<BinClause>)
    requires Counted(ws, ws1, more, {}) && Counted(ws1, ws2, {}, less)
    ensures Counted(ws, ws2, more, less)
  {
    hide Cnt, W;
    forall a: Lit, k: Lit, r: bool | a.v != k.v
      ensures Cnt(W(ws2, a), Bin(k, r)) == Cnt(W(ws, a), Bin(k, r)) + Once(more, a, k, r) - Once(less, a, k, r)
    {
      assert Cnt(W(ws1, a), Bin(k, r)) == Cnt(W(ws, a), Bin(k, r)) + Once(more, a, k, r) - Once({}, a, k, r);
      assert Cnt(W(ws2, a), Bin(k, r)) == Cnt(W(ws1, a), Bin(k, r)) + Once({}, a, k, r) - Once(less, a, k, r);
    }
  }

  lemma SameLongsTrans(ws: WatchLists, ws1: WatchLists, ws2: WatchLists)
    requires SameLongs(ws, ws1) && SameLongs(ws1, ws2)
    ensures SameLongs(ws, ws2)
  {
    hide LongOffs, W;
    forall y: Lit
      ensures LongOffs(W(ws2, y)) == LongOffs(W(ws, y)) && SameLongsIn(W(ws, y), W(ws2, y))
    {
      assert LongOffs(W(ws1, y)) == LongOffs(W(ws, y)) && SameLongsIn(W(ws, y), W(ws1, y));
      assert LongOffs(W(ws2, y)) == LongOffs(W(ws1, y)) && SameLongsIn(W(ws1, y), W(ws2, y));
      forall w: Watched | w.Long?
        ensures w in W(ws2, y) <==> w in W(ws, y)
      {
        assert w in W(ws1, y) <==> w in W(ws, y);
      }
    }
  }

  lemma CntBins(s: seq<Watched>, s': seq<Watched>, w: Watched)
    requires Bins(s) == Bins(s') && w.Bin?
    ensures Cnt(s, w) == Cnt(s', w)
  {
    CntOfBins(s, w);
    CntOfBins(s', w);
  }

  lemma {:induction false} CntOfBins(s: seq<Watched>, w: Watched)
    requires w.Bin?
    ensures Cnt(s, w) == Cnt(Bins(s), w)
  {
    if s != [] {
      CntCons(s, w);
      CntOfBins(s[1..], w);
      if s[0].Bin? {
        assert Bins(s)[1..] == Bins(s[1..]);
        CntCons(Bins(s), w);
      } else {
        assert Bins(s) == Bins(s[1..]);
      }
    }
  }

  lemma SameBinsOk(ws: WatchLists, ws': WatchLists)
    requires SameBins(ws, ws') && BinsOk(ws)
    ensures BinsOk(ws')
  {
    hide Cnt, W, Bins;
    forall a: Lit, w | w in W(ws', a) && w.Bin?
      ensures w.lit2.v != a.v
    {
      InBins(W(ws', a), w);
      assert Bins(W(ws, a)) == Bins(W(ws', a));
      InBins(W(ws, a), w);
    }
    forall a: Lit, b: Lit, r: bool
      ensures Cnt(W(ws', a), Bin(b, r)) == Cnt(W(ws', b), Bin(a, r))
    {
      assert Bins(W(ws, a)) == Bins(W(ws', a)) && Bins(W(ws, b)) == Bins(W(ws', b));
      CntBins(W(ws, a), W(ws', a), Bin(b, r));
      CntBins(W(ws, b), W(ws', b), Bin(a, r));
      assert Cnt(W(ws, a), Bin(b, r)) == Cnt(W(ws, b), Bin(a, r));
    }
  }

  lemma SameBinsListed(ws: WatchLists, ws': WatchLists, bs: set<BinClause>)
    requires SameBins(ws, ws') && AllListed(ws, bs)
    ensures AllListed(ws', bs)
  {
    hide W, Bins;
    forall b | b in bs
      ensures Listed(ws', b)
    {
      var a: Lit, k: Lit :| LitsOf(b, a, k) && Bin(k, b.red) in W(ws, a);
      InBins(W(ws, a), Bin(k, b.red));
      InBins(W(ws', a), Bin(k, b.red));
      assert Bins(W(ws, a)) == Bins(W(ws', a));
    }
  }

  // ----- what stays in order -----

  lemma BinEntries(ws: WatchLists, ws': WatchLists, more: set<BinClause>, less: set<BinClause>, y: Lit, w: Watched)
    requires BinsOk(ws') && Counted(ws, ws', more, less) && w in W(ws', y) && w.Bin?
    ensures w in W(ws, y) || BinClause({y, w.lit2}, w.red) in more
  {
    hide Cnt, W;
    InCnt(W(ws', y), w);
    InCnt(W(ws, y), w);
    assert w == Bin(w.lit2, w.red) && w.lit2.v != y.v;
    assert Cnt(W(ws', y), Bin(w.lit2, w.red)) == Cnt(W(ws, y), Bin(w.lit2, w.red)) + Once(more, y, w.lit2,
      w.red) - Once(less, y, w.lit2, w.red);
  }

  lemma ListsStayValid(ws: WatchLists, ws': WatchLists, cls: Clauses, n: nat, more: set<BinClause>,
                       less: set<BinClause>)
    requires ClausesOk(cls) && TwoWatched(ws, cls) && LitsBelow(ws, cls, n) && BlockedOk(ws, cls)
    requires BinsOk(ws') && Counted(ws, ws', more, less) && SameLongs(ws, ws')
      && forall b {:trigger b in more} :: b in more ==> forall l :: l in b.lits ==> l.v < n
    ensures TwoWatched(ws', cls) && LitsBelow(ws', cls, n) && BlockedOk(ws', cls) && Symmetric(ws')
  {
    hide LongOffs, Cnt;
    forall l, off
      ensures WatchCount(ws', cls, l, off)
    {
      assert WatchCount(ws, cls, l, off);
      assert LongOffs(W(ws', l)) == LongOffs(W(ws, l));
    }
    forall l, w | w in W(ws', l) && w.Bin?
      ensures w.lit2.v < n
    {
      BinEntries(ws, ws', more, less, l, w);
      assert w.lit2 in BinClause({l, w.lit2}, w.red).lits;
    }
    forall l, w | w in W(ws', l) && w.Long?
      ensures w.off in cls && w.blocked in cls[w.off]
    {
      assert SameLongsIn(W(ws, l), W(ws', l));
      assert w in W(ws, l);
    }
    BinsSymmetric(ws');
  }

  lemma BinsSymmetric(ws: WatchLists)
    requires BinsOk(ws)
    ensures Symmetric(ws)
  {
    hide Cnt, W, Bins;
    forall l, k, red | Bin(k, red) in Bins(W(ws, l))
      ensures Bin(l, red) in Bins(W(ws, k)) && k != l
    {
      InBins(W(ws, l), Bin(k, red));
      InCnt(W(ws, l), Bin(k, red));
      InCnt(W(ws, k), Bin(l, red));
      InBins(W(ws, k), Bin(l, red));
      assert Cnt(W(ws, l), Bin(k, red)) == Cnt(W(ws, k), Bin(l, red));
    }
  }

  /** Clauses without a false literal may come and any may go: no watch breaks its promise. */
  lemma GoodCounted(ws: WatchLists, ws': WatchLists, cls: Clauses, more: set<BinClause>, less: set<BinClause>,
                    trail: seq<Lit>, a: Assigns, level: map<nat, nat>, q: nat, lv: nat)
    requires Good(ws, cls, trail, a, level, q, lv) && BinsOk(ws') && Counted(ws, ws', more, less) && SameLongs(ws, ws')
    requires forall b {:trigger b in more} :: b in more ==> forall l :: l in b.lits ==> Value(a, l) != False
    requires q <= |trail| && forall i {:trigger trail[i]} :: 0 <= i < q ==> Value(a, trail[i]) == True
    ensures Good(ws', cls, trail, a, level, q, lv)
  {
    hide Cnt, LongOffs, W;
    forall i | 0 <= i < q && trail[i].v in level && level[trail[i].v] < lv
      ensures ListGood(W(ws', trail[i].Neg()), cls, a, level, trail[i].Neg())
    {
      var np := trail[i].Neg();
      assert ListGood(W(ws, np), cls, a, level, np) && Value(a, np) == False;
      forall w | w in W(ws', np)
        ensures EntryGood(cls, a, level, np, w)
      {
        if w.Bin? {
          BinEntries(ws, ws', more, less, np, w);
          assert np in BinClause({np, w.lit2}, w.red).lits;
        } else {
          assert SameLongsIn(W(ws, np), W(ws', np));
        }
        assert w in W(ws, np);
      }
    }
  }
}
