/**
 Watch lists, the clauses they point to, and the clause database the two together represent.
 (cryptoms/watched.h, cryptoms/propengine.h, cryptoms/propengine.cpp)
 */
module Watches {
  import opened Literals

  datatype LBool = True | False | Undef

  /** One entry of a watch list: a binary clause in full, or a long clause with its blocked literal. */
  datatype Watched = Bin(lit2: Lit, red: bool) | Long(off: nat, blocked: Lit)

  type WatchLists = map<Lit, seq<Watched>>
  type Clauses = map<nat, seq<Lit>>
  type Assigns = map<nat, bool>

  function Value(a: Assigns, l: Lit): LBool {
    if l.v !in a then Undef else if a[l.v] != l.sign then True else False
  }

  function W(ws: WatchLists, l: Lit): seq<Watched> {
    if l in ws then ws[l] else []
  }

  // ----- what a list contains -----

  /** The binary entries of a list, in order. */
  ghost function Bins(ws: seq<Watched>): seq<Watched> {
    if ws == [] then [] else (if ws[0].Bin? then [ws[0]] else []) + Bins(ws[1..])
  }

  /** The long clauses a list watches, with multiplicity. */
  ghost function LongOffs(ws: seq<Watched>): multiset<nat> {
    if ws == [] then multiset{} else (if ws[0].Long? then multiset{ws[0].off} else multiset{}) + LongOffs(ws[1..])
  }

  lemma {:induction false} BinsConcat(a: seq<Watched>, b: seq<Watched>)
    ensures Bins(a + b) == Bins(a) + Bins(b)
  {
    if a == [] {
      assert a + b == b;
    } else {
      var first := if a[0].Bin? then [a[0]] else [];
      assert (a + b)[0] == a[0] && (a + b)[1..] == a[1..] + b;
      BinsConcat(a[1..], b);
      assert first + (Bins(a[1..]) + Bins(b)) == first + Bins(a[1..]) + Bins(b);
    }
  }

  lemma {:induction false} LongOffsConcat(a: seq<Watched>, b: seq<Watched>)
    ensures LongOffs(a + b) == LongOffs(a) + LongOffs(b)
  {
    if a == [] {
      assert a + b == b;
    } else {
      assert (a + b)[1..] == a[1..] + b;
      LongOffsConcat(a[1..], b);
    }
  }

  lemma ListsConcat(a: seq<Watched>, b: seq<Watched>)
    ensures Bins(a + b) == Bins(a) + Bins(b)
    ensures LongOffs(a + b) == LongOffs(a) + LongOffs(b)
  {
    BinsConcat(a, b);
    LongOffsConcat(a, b);
  }

  lemma {:induction false} InBins(ws: seq<Watched>, w: Watched)
    ensures w in Bins(ws) <==> w in ws && w.Bin?
  {
    if ws != [] {
      InBins(ws[1..], w);
      assert w in ws <==> w == ws[0] || w in ws[1..];
    }
  }

  lemma {:induction false} InLongOffs(ws: seq<Watched>, i: nat)
    requires i < |ws| && ws[i].Long?
    ensures ws[i].off in LongOffs(ws)
  {
    if i > 0 {
      InLongOffs(ws[1..], i - 1);
    }
  }

  lemma {:induction false} LongOffWitness(ws: seq<Watched>, off: nat) returns (i: nat)
    requires off in LongOffs(ws)
    ensures i < |ws| && ws[i].Long? && ws[i].off == off
  {
    if ws[0].Long? && ws[0].off == off {
      i := 0;
    } else {
      i := LongOffWitness(ws[1..], off);
      i := i + 1;
    }
  }

  // ----- the watch invariant -----

  /** Long clauses have at least three literals, all distinct. */
  ghost predicate ClausesOk(cls: Clauses) {
    forall off :: off in cls ==> ClauseOk(cls[off])
  }

  ghost predicate ClauseOk(c: seq<Lit>) {
    |c| >= 3 && forall i, j :: 0 <= i < j < |c| ==> c[i] != c[j]
  }

  predicate WatchesLit(cls: Clauses, off: nat, l: Lit)
    requires ClausesOk(cls)
  {
    off in cls && (cls[off][0] == l || cls[off][1] == l)
  }

  /** Each long clause sits exactly once in the lists of its first two literals, and in no other list. */
  ghost predicate TwoWatched(ws: WatchLists, cls: Clauses)
    requires ClausesOk(cls)
  {
    forall l, off :: WatchCount(ws, cls, l, off)
  }

  ghost predicate WatchCount(ws: WatchLists, cls: Clauses, l: Lit, off: nat)
    requires ClausesOk(cls)
  {
    LongOffs(W(ws, l))[off] == if WatchesLit(cls, off, l) then 1 else 0
  }

  /** Two clause stores that differ only in the order of literals inside clauses. */
  ghost predicate SameClauses(cls: Clauses, cls': Clauses) {
    cls.Keys == cls'.Keys && forall off :: off in cls ==> multiset(cls[off]) == multiset(cls'[off])
  }

  /** Two families of watch lists with the same binary entries in the same order. */
  ghost predicate SameBins(ws: WatchLists, ws': WatchLists) {
    forall l :: Bins(W(ws, l)) == Bins(W(ws', l))
  }

  lemma SameMultisetSameLits(c: seq<Lit>, c': seq<Lit>)
    requires multiset(c) == multiset(c')
    ensures Lits(c) == Lits(c') && |c| == |c'|
    ensures forall l :: l in c <==> l in c'
  {
    assert forall l :: l in c <==> l in multiset(c);
    assert forall l :: l in c' <==> l in multiset(c');
    assert |multiset(c)| == |c| && |multiset(c')| == |c'|;
  }

  // ----- the database -----

  /** The binary clauses of the given kind. */
  ghost function BinClauses(ws: WatchLists, red: bool): Formula {
    iset l: Lit, l2: Lit | Bin(l2, red) in W(ws, l) :: {l, l2}
  }

  ghost function LongClauses(cls: Clauses): Formula {
    iset off | off in cls :: Lits(cls[off])
  }

  ghost function Units(ls: seq<Lit>): Formula {
    iset l | l in ls :: {l}
  }

  /** Everything the solver knows: binary clauses, long clauses and the facts of decision level 0. */
  ghost function Database(ws: WatchLists, cls: Clauses, units: seq<Lit>): Formula {
    BinClauses(ws, false) + BinClauses(ws, true) + LongClauses(cls) + Units(units)
  }

  lemma SameBinClauses(ws: WatchLists, ws': WatchLists, red: bool)
    requires SameBins(ws, ws')
    ensures BinClauses(ws, red) <= BinClauses(ws', red)
  {
    forall c | c in BinClauses(ws, red)
      ensures c in BinClauses(ws', red)
    {
      var l, l2 :| Bin(l2, red) in W(ws, l) && c == {l, l2};
      InBins(W(ws, l), Bin(l2, red));
      InBins(W(ws', l), Bin(l2, red));
      assert Bins(W(ws, l)) == Bins(W(ws', l));
      assert Bin(l2, red) in W(ws', l);
    }
  }

  lemma SameDatabase(ws: WatchLists, ws': WatchLists, cls: Clauses, cls': Clauses, units: seq<Lit>)
    requires SameBins(ws, ws') && SameClauses(cls, cls')
    ensures forall red :: BinClauses(ws, red) == BinClauses(ws', red)
    ensures Database(ws, cls, units) == Database(ws', cls', units)
  {
    forall red
      ensures BinClauses(ws, red) == BinClauses(ws', red)
    {
      SameBinClauses(ws, ws', red);
      SameBinClauses(ws', ws, red);
    }
    SameLongClauses(cls, cls');
  }

  lemma SameLongClauses(cls: Clauses, cls': Clauses)
    requires SameClauses(cls, cls')
    ensures LongClauses(cls) == LongClauses(cls')
  {
    forall off | off in cls
      ensures Lits(cls[off]) == Lits(cls'[off])
    {
      SameMultisetSameLits(cls[off], cls'[off]);
    }
  }

  // ----- one step of the scan of a list -----

  /** Looks for a literal after the two watched ones that is not false. */
  method FindNewWatch(c: seq<Lit>, a: Assigns) returns (k: nat)
    requires |c| >= 2
    ensures 2 <= k <= |c|
    ensures forall i :: 2 <= i < k ==> Value(a, c[i]) == False
    ensures k < |c| ==> Value(a, c[k]) != False
  {
    k := 2;
    while k < |c|
      invariant 2 <= k <= |c|
      invariant forall i :: 2 <= i < k ==> Value(a, c[i]) == False
    {
      if Value(a, c[k]) != False {
        return;
      }
      k := k + 1;
    }
  }

  /** The clause with `p` moved out of position 0. */
  function FalseLitSecond(c: seq<Lit>, p: Lit): seq<Lit>
    requires |c| >= 2
  {
    if c[0] == p then c[0 := c[1]][1 := p] else c
  }

  lemma SwapKeeps(c: seq<Lit>, p: Lit)
    requires ClauseOk(c) && (c[0] == p || c[1] == p)
    ensures var d := FalseLitSecond(c, p);
      ClauseOk(d) && multiset(d) == multiset(c) && d[1] == p && {d[0], d[1]} == {c[0], c[1]}
  {
  }

  /** The clause after its second watch `p` has been exchanged with the literal at `k`. */
  lemma MoveKeeps(c: seq<Lit>, k: nat)
    requires ClauseOk(c) && 2 <= k < |c|
    ensures var d := c[1 := c[k]][k := c[1]]; ClauseOk(d) && multiset(d) == multiset(c)
  {
    var d := c[1 := c[k]][k := c[1]];
    forall i, j | 0 <= i < j < |d|
      ensures d[i] != d[j]
    {
      assert d[i] == (if i == 1 then c[k] else if i == k then c[1] else c[i]);
      assert d[j] == (if j == 1 then c[k] else if j == k then c[1] else c[j]);
    }
  }

  /** Swapping the two watched literals of a clause does not disturb the watch invariant. */
  lemma SwapKeepsTwoWatched(ws: WatchLists, cls: Clauses, off: nat, p: Lit)
    requires ClausesOk(cls) && TwoWatched(ws, cls)
    requires WatchesLit(cls, off, p)
    ensures var cls' := cls[off := FalseLitSecond(cls[off], p)];
      ClausesOk(cls') && TwoWatched(ws, cls') && SameClauses(cls, cls')
  {
    var cls' := cls[off := FalseLitSecond(cls[off], p)];
    SwapKeeps(cls[off], p);
    forall l, o
      ensures WatchCount(ws, cls', l, o)
    {
      assert WatchCount(ws, cls, l, o);
    }
  }

  /** How many times `l` lists the clause `o` once the watch of `off` has moved from `p` to `q`. */
  lemma MovedCount(ws: WatchLists, cls: Clauses, c': seq<Lit>, off: nat, p: Lit, rest: seq<Watched>, b: Lit, l: Lit,
                   o: nat)
    requires ClausesOk(cls) && WatchCount(ws, cls, l, o) && ClauseOk(c')
    requires off in cls && cls[off][1] == p && c'[0] == cls[off][0] && c'[1] != p && c'[1] != cls[off][0]
    requires LongOffs(W(ws, p)) == LongOffs(rest) + multiset{off}
    ensures LongOffs(W(ws[p := rest][c'[1] := W(ws, c'[1]) + [Long(off, b)]], l))[o]
         == if WatchesLit(cls[off := c'], o, l) then 1 else 0
  {
    hide LongOffs;
    SingleLong(Long(off, b));
    var q := c'[1];
    var ws' := ws[p := rest][q := W(ws, q) + [Long(off, b)]];
    var one := multiset{off};
    var cls' := cls[off := c'];
    assert ClausesOk(cls') && cls'[off] == c';
    assert o != off ==> WatchesLit(cls', o, l) == WatchesLit(cls, o, l);
    if l == p {
      assert W(ws', l) == rest;
      assert LongOffs(W(ws, p))[o] == LongOffs(rest)[o] + one[o];
    } else if l == q {
      ListsConcat(W(ws, q), [Long(off, b)]);
      assert W(ws', l) == W(ws, q) + [Long(off, b)];
      assert LongOffs(W(ws', l))[o] == LongOffs(W(ws, q))[o] + one[o];
    } else {
      assert W(ws', l) == W(ws, l);
    }
  }

  /**
   Giving up the watch `p` for the literal at `k`: the entry leaves the list of `p` and a new one is
   pushed on the list of the new watch. `rest` is what remains of the list of `p`.
   */
  lemma MoveKeepsTwoWatched(ws: WatchLists, cls: Clauses, off: nat, p: Lit, k: nat, rest: seq<Watched>, b: Lit)
    requires ClausesOk(cls) && TwoWatched(ws, cls)
    requires off in cls && cls[off][1] == p && 2 <= k < |cls[off]|
    requires LongOffs(W(ws, p)) == LongOffs(rest) + multiset{off}
    ensures var c := cls[off];
      var cls' := cls[off := c[1 := c[k]][k := p]];
      var ws' := ws[p := rest][c[k] := W(ws, c[k]) + [Long(off, b)]];
      && ClausesOk(cls')
      && TwoWatched(ws', cls')
      && SameClauses(cls, cls')
      && W(ws', p) == rest
      && Bins(W(ws', c[k])) == Bins(W(ws, c[k]))
  {
    var c := cls[off];
    var q := c[k];
    var c' := c[1 := q][k := p];
    MoveKeeps(c, k);
    var cls' := cls[off := c'];
    var ws' := ws[p := rest][q := W(ws, q) + [Long(off, b)]];
    ListsConcat(W(ws, q), [Long(off, b)]);
    assert Bins([Long(off, b)]) == [];
    forall l, o
      ensures WatchCount(ws', cls', l, o)
    {
      MovedCount(ws, cls, c', off, p, rest, b, l, o);
    }
  }

  /** A list with one long entry singled out. */
  lemma AroundLong(pre: seq<Watched>, w: Watched, post: seq<Watched>)
    requires w.Long?
    ensures Bins(pre + [w] + post) == Bins(pre + post)
    ensures LongOffs(pre + [w] + post) == LongOffs(pre + post) + multiset{w.off}
  {
    hide Bins, LongOffs;
    ListsConcat(pre, [w]);
    ListsConcat(pre + [w], post);
    ListsConcat(pre, post);
    SingleLong(w);
  }

  lemma SingleLong(w: Watched)
    requires w.Long?
    ensures Bins([w]) == [] && LongOffs([w]) == multiset{w.off}
  {
    assert [w][1..] == [];
  }

  /** Lists that watch the same clauses are equally good. */
  lemma SameOffsKeep(ws: WatchLists, ws': WatchLists, cls: Clauses)
    requires ClausesOk(cls) && TwoWatched(ws, cls)
    requires forall l :: LongOffs(W(ws, l)) == LongOffs(W(ws', l))
    ensures TwoWatched(ws', cls)
  {
    forall l, o
      ensures WatchCount(ws', cls, l, o)
    {
      assert WatchCount(ws, cls, l, o);
      assert LongOffs(W(ws, l)) == LongOffs(W(ws', l));
    }
  }

  /** Rewriting the blocked literal of one entry disturbs neither the watch invariant nor the binary entries. */
  lemma RelabelKeeps(ws: WatchLists, cls: Clauses, p: Lit, pre: seq<Watched>, w: Watched, w': Watched,
                     post: seq<Watched>)
    requires ClausesOk(cls) && TwoWatched(ws, cls)
    requires W(ws, p) == pre + [w] + post && w.Long? && w'.Long? && w.off == w'.off
    ensures TwoWatched(ws[p := pre + [w'] + post], cls) && SameBins(ws, ws[p := pre + [w'] + post])
  {
    hide TwoWatched, ClausesOk, LongOffs, Bins;
    var ws' := ws[p := pre + [w'] + post];
    AroundLong(pre, w, post);
    AroundLong(pre, w', post);
    forall l
      ensures LongOffs(W(ws, l)) == LongOffs(W(ws', l)) && Bins(W(ws, l)) == Bins(W(ws', l))
    {
      if l != p {
        assert W(ws', l) == W(ws, l);
      }
    }
    SameOffsKeep(ws, ws', cls);
  }

  /** A long entry is of a clause that watches the list's literal. */
  lemma EntryWatches(ws: WatchLists, cls: Clauses, p: Lit, i: nat)
    requires ClausesOk(cls) && TwoWatched(ws, cls)
    requires i < |W(ws, p)| && W(ws, p)[i].Long?
    ensures WatchesLit(cls, W(ws, p)[i].off, p)
  {
    InLongOffs(W(ws, p), i);
    assert WatchCount(ws, cls, p, W(ws, p)[i].off);
  }

  /** The move of a watch, stated for a list with the entry between `pre` and `post`. */
  lemma MoveEntry(ws: WatchLists, cls: Clauses, p: Lit, pre: seq<Watched>, w: Watched, post: seq<Watched>, k: nat,
                  b: Lit)
    requires ClausesOk(cls) && TwoWatched(ws, cls)
    requires W(ws, p) == pre + [w] + post && w.Long?
    requires w.off in cls && cls[w.off][1] == p && 2 <= k < |cls[w.off]|
    ensures var c := cls[w.off];
      var cls' := cls[w.off := c[1 := c[k]][k := p]];
      var ws' := ws[p := pre + post][c[k] := W(ws, c[k]) + [Long(w.off, b)]];
      ClausesOk(cls') && TwoWatched(ws', cls') && SameClauses(cls, cls') && SameBins(ws, ws') && W(ws', p) == pre + post
  {
    hide TwoWatched, LongOffs, Bins, SameClauses;
    var c := cls[w.off];
    var q := c[k];
    AroundLong(pre, w, post);
    MoveKeepsTwoWatched(ws, cls, w.off, p, k, pre + post, b);
    var ws' := ws[p := pre + post][q := W(ws, q) + [Long(w.off, b)]];
    forall l
      ensures Bins(W(ws', l)) == Bins(W(ws, l))
    {
      if l != p && l != q {
        assert W(ws', l) == W(ws, l);
      }
    }
  }

  lemma SameClausesRefl(a: Clauses)
    ensures SameClauses(a, a)
  {
  }

  lemma SameClausesTrans(a: Clauses, b: Clauses, c: Clauses)
    requires SameClauses(a, b) && SameClauses(b, c)
    ensures SameClauses(a, c)
  {
  }

  lemma SameBinsTrans(a: WatchLists, b: WatchLists, c: WatchLists)
    requires SameBins(a, b) && SameBins(b, c)
    ensures SameBins(a, c)
  {
    forall l
      ensures Bins(W(a, l)) == Bins(W(c, l))
    {
      assert Bins(W(a, l)) == Bins(W(b, l)) && Bins(W(b, l)) == Bins(W(c, l));
    }
  }

  // ----- in-place compaction of a list: `j` entries kept, everything before `i` read -----

  /** The list that compaction with write position `j` and read position `i` stands for. */
  function View(ws: seq<Watched>, i: nat, j: nat): seq<Watched>
    requires j <= i <= |ws|
  {
    ws[..j] + ws[i..]
  }

  lemma ViewKeep(ws: seq<Watched>, i: nat, j: nat, w: Watched)
    requires j <= i < |ws|
    ensures View(ws, i, j) == ws[..j] + [ws[i]] + ws[i + 1..]
    ensures View(ws[j := w], i + 1, j + 1) == ws[..j] + [w] + ws[i + 1..]
    ensures View(ws, i + 1, j) == ws[..j] + ws[i + 1..]
  {
  }

  /** Binary entries and the set of literals of each clause are kept, so literals stay in range. */
  lemma LitsBelowKeep(ws: WatchLists, ws': WatchLists, cls: Clauses, cls': Clauses, n: nat)
    requires LitsBelow(ws, cls, n) && SameBins(ws, ws') && SameClauses(cls, cls')
    ensures LitsBelow(ws', cls', n)
  {
    forall l, w: Watched | w in W(ws', l) && w.Bin?
      ensures w.lit2.v < n
    {
      InBins(W(ws', l), w);
      InBins(W(ws, l), w);
      assert Bins(W(ws, l)) == Bins(W(ws', l));
    }
    forall off, l | off in cls' && l in cls'[off]
      ensures l.v < n
    {
      SameMultisetSameLits(cls[off], cls'[off]);
    }
  }

  /** All literals of binary and long clauses are of variables below `n`. */
  ghost predicate LitsBelow(ws: WatchLists, cls: Clauses, n: nat) {
    && (forall l, w {:trigger w in W(ws, l)} :: w in W(ws, l) && w.Bin? ==> w.lit2.v < n)
    && forall off, l {:trigger l in cls[off]} :: off in cls && l in cls[off] ==> l.v < n
  }

  lemma SameBinsRefl(ws: WatchLists)
    ensures SameBins(ws, ws)
  {
  }

  lemma ViewWhole(ws: WatchLists, np: Lit)
    requires np in ws
    ensures ws == ws[np := View(ws[np], 0, 0)]
  {
    assert View(ws[np], 0, 0) == ws[np];
  }

  lemma ViewEnd(ws: seq<Watched>, j: nat)
    requires j <= |ws|
    ensures View(ws, |ws|, j) == ws[..j]
  {
  }

  // ----- a list of distinct variables below `n` has at most `n` entries -----

  lemma {:induction false} DistinctBounded(ls: seq<Lit>, n: nat)
    requires forall i :: 0 <= i < |ls| ==> ls[i].v < n
    requires forall i, j :: 0 <= i < j < |ls| ==> ls[i].v != ls[j].v
    ensures |ls| <= n
  {
    var vs := set i | 0 <= i < |ls| :: ls[i].v;
    VarsDistinct(ls);
    SubsetSize(vs, UpTo(n));
  }

  lemma {:induction false} VarsDistinct(ls: seq<Lit>)
    requires forall i, j :: 0 <= i < j < |ls| ==> ls[i].v != ls[j].v
    ensures |set i | 0 <= i < |ls| :: ls[i].v| == |ls|
  {
    if ls != [] {
      var k := |ls| - 1;
      VarsDistinct(ls[..k]);
      var before := set i | 0 <= i < k :: ls[..k][i].v;
      assert (set i | 0 <= i < |ls| :: ls[i].v) == before + {ls[k].v} by {
        assert forall i :: 0 <= i < k ==> ls[..k][i].v == ls[i].v;
      }
    }
  }

  ghost function UpTo(n: nat): (vs: set<nat>)
    ensures |vs| == n && forall v: nat :: v in vs <==> v < n
  {
    if n == 0 then {} else UpTo(n - 1) + {n - 1}
  }

  lemma {:induction false} SubsetSize<T>(a: set<T>, b: set<T>)
    requires a <= b
    ensures |a| <= |b|
  {
    assert b == a + (b - a);
  }
}
