/**
 Occurrence lists: every long clause in the list of each of its literals, every binary clause in both of its
 lists. What the lists say about the irredundant formula, and how the pairs to be resolved are found in them.
 (cryptoms/occsimplifier.cpp)
 */
module OccTheory {
  import opened Literals
  import opened Watches
  import opened Elimination

  datatype OccClause = OccClause(lits: seq<Lit>, red: bool, removed: bool, marked: bool)

  type OccClauses = map<nat, OccClause>

  /** `!redundant_or_removed` */
  predicate Live(cs: OccClauses, w: Watched) {
    if w.Bin? then !w.red else w.off in cs && !cs[w.off].red && !cs[w.off].removed
  }

  /** The clause an entry of the list of `l` stands for. */
  function ClauseOf(cs: OccClauses, l: Lit, w: Watched): seq<Lit> {
    if w.Bin? then [l, w.lit2] else if w.off in cs then cs[w.off].lits else [l]
  }

  // ----- the formula -----

  ghost function LongFormula(cs: OccClauses): Formula {
    iset o: nat | o in cs && !cs[o].red && !cs[o].removed :: Lits(cs[o].lits)
  }

  /** The irredundant clauses. */
  ghost function Irred(ws: WatchLists, cs: OccClauses, units: seq<Lit>): Formula {
    BinClauses(ws, false) + LongFormula(cs) + Units(units)
  }

  /** The irredundant clauses in the list of `l`. */
  ghost function OccOf(ws: WatchLists, cs: OccClauses, l: Lit): Formula {
    iset w | w in W(ws, l) && Live(cs, w) :: Lits(ClauseOf(cs, l, w))
  }

  // ----- well-formed lists -----

  /** How often an entry occurs in a list. */
  ghost function Cnt(s: seq<Watched>, w: Watched): nat {
    multiset(s)[w]
  }

  lemma InCnt(s: seq<Watched>, w: Watched)
    ensures w in s <==> Cnt(s, w) > 0
  {
  }

  lemma CntCons(s: seq<Watched>, w: Watched)
    requires s != []
    ensures Cnt(s, w) == Cnt(s[1..], w) + if s[0] == w then 1 else 0
  {
    assert s == [s[0]] + s[1..];
  }

  ghost predicate BinsOk(ws: WatchLists) {
    && (forall a: Lit, w {:trigger w in W(ws, a)} :: w in W(ws, a) && w.Bin? ==> w.lit2.v != a.v)
    && forall a: Lit, b: Lit, r: bool {:trigger Cnt(W(ws, a), Bin(b, r))} ::
      Cnt(W(ws, a), Bin(b, r)) == Cnt(W(ws, b), Bin(a, r))
  }

  ghost predicate InList(ws: WatchLists, l: Lit, o: nat) {
    exists b: Lit :: Long(o, b) in W(ws, l)
  }

  ghost predicate OccClauseOk(ws: WatchLists, cs: OccClauses, o: nat)
    requires o in cs
  {
    && |cs[o].lits| >= 3 && DistinctVarsOf(cs[o].lits)
    && (!cs[o].removed ==> forall l {:trigger l in cs[o].lits} :: l in cs[o].lits ==> InList(ws, l, o))
  }

  ghost predicate LongsOk(ws: WatchLists, cs: OccClauses) {
    && (forall l: Lit, w {:trigger w in W(ws, l)} :: w in W(ws, l) && w.Long? ==> w.off in cs && l in cs[w.off].lits)
    && (forall l: Lit, o: nat {:trigger LongOffs(W(ws, l))[o]} :: LongOffs(W(ws, l))[o] <= 1)
    && forall o {:trigger OccClauseOk(ws, cs, o)} :: o in cs ==> OccClauseOk(ws, cs, o)
  }

  ghost predicate OccOk(ws: WatchLists, cs: OccClauses) {
    BinsOk(ws) && LongsOk(ws, cs)
  }

  lemma BinBack(ws: WatchLists, a: Lit, b: Lit, r: bool)
    requires BinsOk(ws) && Bin(b, r) in W(ws, a)
    ensures Bin(a, r) in W(ws, b) && a.v != b.v
  {
    assert Cnt(W(ws, a), Bin(b, r)) > 0;
    assert Cnt(W(ws, b), Bin(a, r)) > 0;
  }

  /** The list of a literal holds exactly the irredundant clauses with it, unit clauses aside. */
  lemma OccExact(ws: WatchLists, cs: OccClauses, units: seq<Lit>, l: Lit, c: Clause)
    requires OccOk(ws, cs) && l !in units
    ensures c in OccOf(ws, cs, l) <==> c in Irred(ws, cs, units) && l in c
  {
    if c in OccOf(ws, cs, l) {
      var w :| w in W(ws, l) && Live(cs, w) && c == Lits(ClauseOf(cs, l, w));
      if w.Bin? {
        assert w == Bin(w.lit2, false);
        assert c == {l, w.lit2};
        assert c in BinClauses(ws, false);
      } else {
        assert c in LongFormula(cs);
      }
    }
    if c in Irred(ws, cs, units) && l in c {
      forall u | u in units
        ensures c != {u}
      {
        assert l !in {u};
      }
      if c in BinClauses(ws, false) {
        var a: Lit, b: Lit :| Bin(b, false) in W(ws, a) && c == {a, b};
        BinBack(ws, a, b, false);
        var o := if l == a then b else a;
        assert Bin(o, false) in W(ws, l);
        assert Lits(ClauseOf(cs, l, Bin(o, false))) == c;
      } else {
        var o: nat :| o in cs && !cs[o].red && !cs[o].removed && c == Lits(cs[o].lits);
        assert OccClauseOk(ws, cs, o);
        assert InList(ws, l, o);
        var b: Lit :| Long(o, b) in W(ws, l);
        assert Lits(ClauseOf(cs, l, Long(o, b))) == c;
      }
    }
  }

  /** Clauses have each variable once. */
  lemma ClauseOfOk(ws: WatchLists, cs: OccClauses, l: Lit, w: Watched)
    requires OccOk(ws, cs) && w in W(ws, l)
    ensures l in ClauseOf(cs, l, w) && DistinctVarsOf(ClauseOf(cs, l, w)) && |ClauseOf(cs, l, w)| >= 2
    ensures forall y: Lit :: y in ClauseOf(cs, l, w) ==> y.Neg() !in ClauseOf(cs, l, w)
  {
    if w.Long? {
      assert OccClauseOk(ws, cs, w.off);
    }
    var c := ClauseOf(cs, l, w);
    assert DistinctVarsOf(c);
    forall y: Lit | y in c
      ensures y.Neg() !in c
    {
      var i :| 0 <= i < |c| && c[i] == y;
      forall j | 0 <= j < |c|
        ensures c[j] != y.Neg()
      {
        assert i < j || j < i || c[j] == y;
      }
    }
  }

  lemma PlainFormula(ws: WatchLists, cs: OccClauses, units: seq<Lit>, x: nat)
    requires OccOk(ws, cs) && Lit(x, false) !in units
    ensures Plain(Irred(ws, cs, units), x)
  {
    forall c | c in Irred(ws, cs, units)
      ensures !(Lit(x, false) in c && Lit(x, true) in c)
    {
      if Lit(x, false) in c {
        OccExact(ws, cs, units, Lit(x, false), c);
        var w :| w in W(ws, Lit(x, false)) && Live(cs, w) && c == Lits(ClauseOf(cs, Lit(x, false), w));
        ClauseOfOk(ws, cs, Lit(x, false), w);
        assert Lit(x, false).Neg() == Lit(x, true);
      }
    }
  }

  // ----- pairs -----

  /** The gate clause is marked, every other is not. */
  ghost predicate OnlyMarked(cs: OccClauses, gate: Option<nat>) {
    (gate.Some? ==> gate.value in cs) && forall o {:trigger cs[o]} :: o in cs ==> (cs[o].marked <==> gate == Some(o))
  }

  /** A pair is skipped when there is a gate and neither clause belongs to it. */
  predicate Skipped(cs: OccClauses, gate: Option<nat>, p: Watched, q: Watched) {
    gate.Some? && p.Long? && q.Long? && p.off in cs && q.off in cs && !cs[p.off].marked && !cs[q.off].marked
  }

  /** What has been recorded for a pair. */
  ghost predicate PairDone(cs: OccClauses, gate: Option<nat>, l: Lit, p: Watched, q: Watched, rs: seq<seq<Lit>>) {
    Live(cs, p) && Live(cs, q) && !Skipped(cs, gate, p, q) ==>
      || Clashes(Lits(ClauseOf(cs, l, p)), Lits(ClauseOf(cs, l.Neg(), q)), l)
      || exists r :: r in rs && Lits(r) == Resolvent(Lits(ClauseOf(cs, l, p)), Lits(ClauseOf(cs, l.Neg(), q)), l)
  }

  /** A recorded resolvent comes from a pair and is not a tautology. */
  ghost predicate FromPair(ws: WatchLists, cs: OccClauses, l: Lit, r: seq<Lit>) {
    exists p, q :: p in W(ws, l) && q in W(ws, l.Neg()) && Live(cs, p) && Live(cs, q)
      && Lits(r) == Resolvent(Lits(ClauseOf(cs, l, p)), Lits(ClauseOf(cs, l.Neg(), q)), l)
      && !Clashes(Lits(ClauseOf(cs, l, p)), Lits(ClauseOf(cs, l.Neg(), q)), l)
  }

  ghost predicate Resolved(ws: WatchLists, cs: OccClauses, gate: Option<nat>, l: Lit, rs: seq<seq<Lit>>) {
    && (forall p, q {:trigger PairDone(cs, gate, l, p, q, rs)} ::
      p in W(ws, l) && q in W(ws, l.Neg()) ==> PairDone(cs, gate, l, p, q, rs))
    && forall r {:trigger r in rs} :: r in rs ==> FromPair(ws, cs, l, r)
  }

  /** The gate clause of `l` in the list of its negation, or the other way round. */
  ghost predicate GateFound(ws: WatchLists, cs: OccClauses, gate: Option<nat>, l: Lit) {
    gate.Some? ==>
      || (GateEntry(ws, cs, gate.value, l.Neg()) && GateBins(ws, cs[gate.value].lits, l))
      || (GateEntry(ws, cs, gate.value, l) && GateBins(ws, cs[gate.value].lits, l.Neg()))
  }

  ghost predicate GateEntry(ws: WatchLists, cs: OccClauses, o: nat, l: Lit) {
    InList(ws, l, o) && o in cs && !cs[o].red && !cs[o].removed
  }

  /** For each literal of the gate clause but `~l` there is a binary clause of `l` with its negation. */
  ghost predicate GateBins(ws: WatchLists, g: seq<Lit>, l: Lit) {
    forall y {:trigger y in g} :: y in g && y != l.Neg() ==> Bin(y.Neg(), false) in W(ws, l)
  }

  /** Every pair of irredundant clauses is covered by what is kept. */
  lemma AllCovered(ws: WatchLists, cs: OccClauses, gate: Option<nat>, l: Lit, rs: seq<seq<Lit>>, h: Formula, p: Watched,
                   q: Watched)
    requires OccOk(ws, cs) && OnlyMarked(cs, gate) && GateFound(ws, cs, gate, l) && Resolved(ws, cs, gate, l, rs)
    requires forall r :: r in rs ==> Lits(r) in h
    requires p in W(ws, l) && q in W(ws, l.Neg()) && Live(cs, p) && Live(cs, q)
    ensures Covers(h, Lits(ClauseOf(cs, l, p)), Lits(ClauseOf(cs, l.Neg(), q)), l)
  {
    hide Covers, OccOk, Clashes, FromPair;
    assert PairDone(cs, gate, l, p, q, rs);
    if Skipped(cs, gate, p, q) {
      SkippedCovered(ws, cs, gate, l, rs, h, p, q);
    } else {
      KeptCovers(h, Lits(ClauseOf(cs, l, p)), Lits(ClauseOf(cs, l.Neg(), q)), l);
    }
  }

  lemma KeptPair(ws: WatchLists, cs: OccClauses, gate: Option<nat>, l: Lit, rs: seq<seq<Lit>>, h: Formula, p: Watched,
                 q: Watched)
    requires Resolved(ws, cs, gate, l, rs) && forall r :: r in rs ==> Lits(r) in h
    requires p in W(ws, l) && q in W(ws, l.Neg()) && Live(cs, p) && Live(cs, q) && !Skipped(cs, gate, p, q)
    ensures Kept(h, Lits(ClauseOf(cs, l, p)), Lits(ClauseOf(cs, l.Neg(), q)), l)
  {
    hide Clashes, FromPair;
    assert PairDone(cs, gate, l, p, q, rs);
  }

  lemma SkippedCovered(ws: WatchLists, cs: OccClauses, gate: Option<nat>, l: Lit, rs: seq<seq<Lit>>, h: Formula,
                       p: Watched, q: Watched)
    requires OccOk(ws, cs) && OnlyMarked(cs, gate) && GateFound(ws, cs, gate, l) && Resolved(ws, cs, gate, l, rs)
    requires forall r :: r in rs ==> Lits(r) in h
    requires p in W(ws, l) && q in W(ws, l.Neg()) && Live(cs, p) && Live(cs, q) && Skipped(cs, gate, p, q)
    ensures Covers(h, Lits(ClauseOf(cs, l, p)), Lits(ClauseOf(cs, l.Neg(), q)), l)
  {
    hide Covers, Clashes, Resolved, OccOk, LongsOk;
    var c, d, o := Lits(ClauseOf(cs, l, p)), Lits(ClauseOf(cs, l.Neg(), q)), gate.value;
    var g := Lits(cs[o].lits);
    ClauseOfOk(ws, cs, l, p);
    ClauseOfOk(ws, cs, l.Neg(), q);
    assert l.Neg().Neg() == l;
    if GateEntry(ws, cs, o, l.Neg()) && GateBins(ws, cs[o].lits, l) {
      var b: Lit :| Long(o, b) in W(ws, l.Neg());
      ClauseOfOk(ws, cs, l.Neg(), Long(o, b));
      KeptPair(ws, cs, gate, l, rs, h, p, Long(o, b));
      forall y: Lit | y in g && y != l.Neg()
        ensures Kept(h, {l, y.Neg()}, d, l)
      {
        KeptPair(ws, cs, gate, l, rs, h, Bin(y.Neg(), false), q);
        assert Lits(ClauseOf(cs, l, Bin(y.Neg(), false))) == {l, y.Neg()};
      }
      GateFormula(ws, cs[o].lits, l);
      GateCovers(BinClauses(ws, false), h, g, c, d, l);
    } else {
      var b: Lit :| Long(o, b) in W(ws, l);
      ClauseOfOk(ws, cs, l, Long(o, b));
      KeptPair(ws, cs, gate, l, rs, h, Long(o, b), q);
      forall y: Lit | y in g && y != l
        ensures Kept(h, c, {l.Neg(), y.Neg()}, l)
      {
        KeptPair(ws, cs, gate, l, rs, h, p, Bin(y.Neg(), false));
        assert Lits(ClauseOf(cs, l.Neg(), Bin(y.Neg(), false))) == {l.Neg(), y.Neg()};
      }
      GateFormula(ws, cs[o].lits, l.Neg());
      GateCoversFlipped(BinClauses(ws, false), h, g, c, d, l);
    }
  }

  lemma GateFormula(ws: WatchLists, g: seq<Lit>, l: Lit)
    requires GateBins(ws, g, l) && l.Neg() in g
    ensures Gate(BinClauses(ws, false), Lits(g), l)
  {
    forall y: Lit | y in Lits(g) && y != l.Neg()
      ensures {l, y.Neg()} in BinClauses(ws, false)
    {
      assert Bin(y.Neg(), false) in W(ws, l);
    }
  }

  // ----- taking a variable's clauses out -----

  /** The lists while those of `l` are being worked off: its list is empty, `todo` is what is left of it. */
  ghost predicate Removing(ws: WatchLists, l: Lit, todo: seq<Watched>) {
    && W(ws, l) == []
    && (forall w {:trigger w in todo} :: w in todo && w.Bin? ==> w.lit2.v != l.v)
    && (forall a: Lit, w {:trigger w in W(ws, a)} :: w in W(ws, a) && w.Bin? ==> w.lit2.v != a.v)
    && (forall b: Lit, r: bool {:trigger Cnt(W(ws, b), Bin(l, r))} ::
      b != l ==> Cnt(W(ws, b), Bin(l, r)) == Cnt(todo, Bin(b, r)))
    && forall a: Lit, b: Lit, r: bool {:trigger Cnt(W(ws, a), Bin(b, r))} ::
      a != l && b != l ==> Cnt(W(ws, a), Bin(b, r)) == Cnt(W(ws, b), Bin(a, r))
  }

  lemma RemovingStarts(ws: WatchLists, l: Lit)
    requires BinsOk(ws)
    ensures Removing(ws[l := []], l, W(ws, l))
  {
    var ws' := ws[l := []];
    assert forall a: Lit :: a != l ==> W(ws', a) == W(ws, a);
    forall a: Lit, w | w in W(ws', a) && w.Bin?
      ensures w.lit2.v != a.v
    {
      assert w in W(ws, a);
    }
    forall b: Lit, r: bool | b != l
      ensures Cnt(W(ws', b), Bin(l, r)) == Cnt(W(ws, l), Bin(b, r))
    {
      assert Cnt(W(ws, b), Bin(l, r)) == Cnt(W(ws, l), Bin(b, r));
    }
    forall a: Lit, b: Lit, r: bool | a != l && b != l
      ensures Cnt(W(ws', a), Bin(b, r)) == Cnt(W(ws', b), Bin(a, r))
    {
      assert Cnt(W(ws, a), Bin(b, r)) == Cnt(W(ws, b), Bin(a, r));
    }
  }

  /** A list without one occurrence of an entry. */
  ghost predicate WithoutOne(ws: seq<Watched>, ws': seq<Watched>, w: Watched) {
    && w in ws && LongOffs(ws') == LongOffs(ws)
    && forall e {:trigger Cnt(ws', e)} :: Cnt(ws', e) == Cnt(ws, e) - if e == w then 1 else 0
  }

  lemma TakenOut(ws: seq<Watched>, i: nat)
    requires i < |ws| && ws[i].Bin?
    ensures WithoutOne(ws, ws[..i] + ws[i + 1..], ws[i])
  {
    assert ws == ws[..i] + [ws[i]] + ws[i + 1..];
    LongOffsConcat(ws[..i] + [ws[i]], ws[i + 1..]);
    LongOffsConcat(ws[..i], [ws[i]]);
    LongOffsConcat(ws[..i], ws[i + 1..]);
    assert [ws[i]][1..] == [];
    assert LongOffs([ws[i]]) == multiset{};
    forall e
      ensures Cnt(ws[..i] + ws[i + 1..], e) == Cnt(ws, e) - if e == ws[i] then 1 else 0
    {
      assert multiset(ws) == multiset(ws[..i]) + multiset{ws[i]} + multiset(ws[i + 1..]);
    }
  }

  lemma RemovingBin(ws: WatchLists, l: Lit, todo: seq<Watched>, l': seq<Watched>)
    requires Removing(ws, l, todo) && todo != [] && todo[0].Bin?
    requires WithoutOne(W(ws, todo[0].lit2), l', Bin(l, todo[0].red))
    ensures Removing(ws[todo[0].lit2 := l'], l, todo[1..])
  {
    hide Cnt;
    var w := todo[0];
    var o := w.lit2;
    var ws' := ws[o := l'];
    assert w in todo;
    assert forall a: Lit :: a != o ==> W(ws', a) == W(ws, a);
    assert forall e :: e in todo[1..] ==> e in todo;
    forall a: Lit, e | e in W(ws', a) && e.Bin?
      ensures e.lit2.v != a.v
    {
      InCnt(l', e);
      InCnt(W(ws, o), e);
      assert e in W(ws, a);
    }
    forall b: Lit, r: bool | b != l
      ensures Cnt(W(ws', b), Bin(l, r)) == Cnt(todo[1..], Bin(b, r))
    {
      CntCons(todo, Bin(b, r));
      assert Cnt(W(ws, b), Bin(l, r)) == Cnt(todo, Bin(b, r));
    }
    forall a: Lit, b: Lit, r: bool | a != l && b != l
      ensures Cnt(W(ws', a), Bin(b, r)) == Cnt(W(ws', b), Bin(a, r))
    {
      assert Cnt(W(ws, a), Bin(b, r)) == Cnt(W(ws, b), Bin(a, r));
    }
  }

  lemma RemovingLong(ws: WatchLists, l: Lit, todo: seq<Watched>)
    requires Removing(ws, l, todo) && todo != [] && todo[0].Long?
    ensures Removing(ws, l, todo[1..])
  {
    hide Cnt;
    assert forall e :: e in todo[1..] ==> e in todo;
    forall b: Lit, r: bool | b != l
      ensures Cnt(W(ws, b), Bin(l, r)) == Cnt(todo[1..], Bin(b, r))
    {
      CntCons(todo, Bin(b, r));
      assert Cnt(W(ws, b), Bin(l, r)) == Cnt(todo, Bin(b, r));
    }
  }

  lemma RemovingDone(ws: WatchLists, l: Lit)
    requires Removing(ws, l, [])
    ensures BinsOk(ws) && forall b: Lit, r: bool :: Bin(l, r) !in W(ws, b)
  {
    forall b: Lit, r: bool
      ensures Cnt(W(ws, b), Bin(l, r)) == 0 && Bin(l, r) !in W(ws, b)
    {
      InCnt(W(ws, b), Bin(l, r));
      if b != l {
        assert Cnt(W(ws, b), Bin(l, r)) == Cnt([], Bin(b, r));
      }
    }
    forall a: Lit, b: Lit, r: bool
      ensures Cnt(W(ws, a), Bin(b, r)) == Cnt(W(ws, b), Bin(a, r))
    {
      if a != l && b != l {
      } else if a == l {
        assert Cnt(W(ws, b), Bin(l, r)) == 0;
      } else {
        assert Cnt(W(ws, a), Bin(l, r)) == 0;
      }
    }
  }

  /** The clauses of the entries are marked as removed. */
  ghost function Dropped(cs: OccClauses, todo: seq<Watched>): OccClauses {
    map o | o in cs :: if HasOff(todo, o) then cs[o].(removed := true) else cs[o]
  }

  ghost predicate HasOff(ws: seq<Watched>, o: nat) {
    exists b: Lit :: Long(o, b) in ws
  }

  lemma HasOffCount(ws: seq<Watched>, o: nat)
    requires HasOff(ws, o)
    ensures LongOffs(ws)[o] > 0
  {
    var b: Lit :| Long(o, b) in ws;
    var i :| 0 <= i < |ws| && ws[i] == Long(o, b);
    InLongOffs(ws, i);
  }

  /** In a list with every clause once, an entry's clause does not occur before it. */
  lemma NotBefore(ws: seq<Watched>, k: nat)
    requires k < |ws| && ws[k].Long? && LongOffs(ws)[ws[k].off] <= 1
    ensures !HasOff(ws[..k], ws[k].off)
  {
    var o := ws[k].off;
    assert ws == ws[..k] + ws[k..];
    LongOffsConcat(ws[..k], ws[k..]);
    assert ws[k..][0] == ws[k];
    InLongOffs(ws[k..], 0);
    if HasOff(ws[..k], o) {
      HasOffCount(ws[..k], o);
    }
  }

  lemma DroppedNext(cs: OccClauses, ws: seq<Watched>, k: nat)
    requires k < |ws|
    ensures ws[k].Bin? ==> Dropped(cs, ws[..k + 1]) == Dropped(cs, ws[..k])
    ensures ws[k].Long? && ws[k].off in cs ==>
      var d := Dropped(cs, ws[..k]);
        ws[k].off in d && Dropped(cs, ws[..k + 1]) == d[ws[k].off := d[ws[k].off].(removed := true)]
  {
    assert ws[..k + 1] == ws[..k] + [ws[k]];
    assert forall o ::
      o in cs ==> (HasOff(ws[..k + 1], o) <==> HasOff(ws[..k], o) || (ws[k].Long? && ws[k].off == o)) by {
      forall o: nat
        ensures HasOff(ws[..k + 1], o) <==> HasOff(ws[..k], o) || (ws[k].Long? && ws[k].off == o)
      {
        if HasOff(ws[..k], o) {
          var b: Lit :| Long(o, b) in ws[..k];
          assert Long(o, b) in ws[..k + 1];
        }
        if ws[k].Long? && ws[k].off == o {
          assert Long(o, ws[k].blocked) in ws[..k + 1];
        }
      }
    }
  }

  /** Entries other than the binary ones with `l` stay in all other lists. */
  ghost predicate OthersKept(ws: WatchLists, ws': WatchLists, l: Lit) {
    && (forall a: Lit, w: Watched {:trigger w in W(ws', a)} {:trigger w in W(ws, a)} ::
      a != l && !(w.Bin? && w.lit2 == l) ==> (w in W(ws', a) <==> w in W(ws, a)))
    && (forall a: Lit {:trigger W(ws', a)} :: a != l ==> LongOffs(W(ws', a)) == LongOffs(W(ws, a)))
    && W(ws', l.Neg()) == W(ws, l.Neg())
  }

  /** The clauses of one literal are out. */
  lemma LiteralGone(ws: WatchLists, cs: OccClauses, units: seq<Lit>, l: Lit, ws': WatchLists)
    requires OccOk(ws, cs) && l !in units && OthersKept(ws, ws', l) && Removing(ws', l, [])
    ensures OccOk(ws', Dropped(cs, W(ws, l)))
    ensures forall c {:trigger c in Irred(ws', Dropped(cs, W(ws, l)), units)} ::
      c in Irred(ws', Dropped(cs, W(ws, l)), units) <==> c in Irred(ws, cs, units) && l !in c
  {
    hide Cnt;
    var cs' := Dropped(cs, W(ws, l));
    RemovingDone(ws', l);
    LongsAfter(ws, cs, l, ws');
    forall c
      ensures c in BinClauses(ws', false) <==> c in BinClauses(ws, false) && l !in c
    {
      BinsAfter(ws, l, ws', c);
    }
    forall c
      ensures c in LongFormula(cs') <==> c in LongFormula(cs) && l !in c
    {
      LongsGone(ws, cs, l, c);
    }
    forall u | u in units
      ensures l !in {u}
    {
    }
  }

  lemma BinsAfter(ws: WatchLists, l: Lit, ws': WatchLists, c: Clause)
    requires BinsOk(ws) && OthersKept(ws, ws', l) && W(ws', l) == []
      && forall b: Lit, r: bool :: Bin(l, r) !in W(ws', b)
    ensures c in BinClauses(ws', false) <==> c in BinClauses(ws, false) && l !in c
  {
    if c in BinClauses(ws', false) {
      var a: Lit, b: Lit :| Bin(b, false) in W(ws', a) && c == {a, b};
      assert a != l && b != l;
      assert Bin(b, false) in W(ws, a);
    }
    if c in BinClauses(ws, false) && l !in c {
      var a: Lit, b: Lit :| Bin(b, false) in W(ws, a) && c == {a, b};
      assert Bin(b, false) in W(ws', a);
    }
  }

  lemma LongsGone(ws: WatchLists, cs: OccClauses, l: Lit, c: Clause)
    requires LongsOk(ws, cs)
    ensures c in LongFormula(Dropped(cs, W(ws, l))) <==> c in LongFormula(cs) && l !in c
  {
    var cs' := Dropped(cs, W(ws, l));
    if c in LongFormula(cs') {
      var o: nat :| o in cs' && !cs'[o].red && !cs'[o].removed && c == Lits(cs'[o].lits);
      assert !HasOff(W(ws, l), o);
      assert OccClauseOk(ws, cs, o);
      assert l in cs[o].lits ==> InList(ws, l, o);
    }
    if c in LongFormula(cs) && l !in c {
      var o: nat :| o in cs && !cs[o].red && !cs[o].removed && c == Lits(cs[o].lits);
      forall b: Lit
        ensures Long(o, b) !in W(ws, l)
      {
        var occurs := Long(o, b) in W(ws, l);
      }
      assert cs'[o] == cs[o];
    }
  }

  lemma LongsAfter(ws: WatchLists, cs: OccClauses, l: Lit, ws': WatchLists)
    requires LongsOk(ws, cs) && OthersKept(ws, ws', l) && W(ws', l) == []
    ensures LongsOk(ws', Dropped(cs, W(ws, l)))
  {
    var cs' := Dropped(cs, W(ws, l));
    forall o | o in cs'
      ensures OccClauseOk(ws', cs', o)
    {
      assert OccClauseOk(ws, cs, o);
      if !cs'[o].removed {
        forall y | y in cs[o].lits
          ensures InList(ws', y, o)
        {
          assert InList(ws, y, o);
          var b: Lit :| Long(o, b) in W(ws, y);
          assert y != l ==> Long(o, b) in W(ws', y);
        }
      }
    }
    forall y: Lit, w | w in W(ws', y) && w.Long?
      ensures w.off in cs' && y in cs'[w.off].lits
    {
      assert w in W(ws, y);
    }
    forall y: Lit, o: nat
      ensures LongOffs(W(ws', y))[o] <= 1
    {
      assert LongOffs(W(ws, y))[o] <= 1;
    }
  }

  // ----- one more binary clause -----

  /** The binary clause in both lists. */
  lemma BinAdded(ws: WatchLists, a: Lit, b: Lit, red: bool)
    requires BinsOk(ws) && a.v != b.v
    ensures var ws1 := ws[a := W(ws, a) + [Bin(b, red)]]; var ws2 := ws1[b := W(ws1, b) + [Bin(a, red)]];
      BinsOk(ws2) && forall r :: BinClauses(ws2, r) == BinClauses(ws, r) + if r == red then iset{{a, b}} else iset{}
  {
    var ws1 := ws[a := W(ws, a) + [Bin(b, red)]];
    var ws2 := ws1[b := W(ws1, b) + [Bin(a, red)]];
    assert forall y: Lit {:trigger W(ws2, y)} ::
      W(ws2, y) == W(ws, y) + if y == a then [Bin(b, red)] else if y == b then [Bin(a, red)] else [];
    BinAddedOk(ws, ws2, a, b, red);
    BinAddedClauses(ws, ws2, a, b, red);
  }

  lemma BinAddedOk(ws: WatchLists, ws2: WatchLists, a: Lit, b: Lit, red: bool)
    requires BinsOk(ws) && a.v != b.v
    requires forall y: Lit {:trigger W(ws2, y)} ::
      W(ws2, y) == W(ws, y) + if y == a then [Bin(b, red)] else if y == b then [Bin(a, red)] else []
    ensures BinsOk(ws2)
  {
    hide Cnt, W;
    forall y: Lit, w | w in W(ws2, y) && w.Bin?
      ensures w.lit2.v != y.v
    {
      assert w in W(ws, y) || (y == a && w == Bin(b, red)) || (y == b && w == Bin(a, red));
    }
    forall y: Lit, z: Lit, r: bool
      ensures Cnt(W(ws2, y), Bin(z, r)) == Cnt(W(ws, y), Bin(z, r)) + if r
        == red && ((y == a && z == b) || (y == b && z == a)) then 1 else 0
    {
      Snoc(W(ws, y), Bin(b, red), Bin(z, r));
      Snoc(W(ws, y), Bin(a, red), Bin(z, r));
    }
    forall y: Lit, z: Lit, r: bool
      ensures Cnt(W(ws2, y), Bin(z, r)) == Cnt(W(ws2, z), Bin(y, r))
    {
      assert Cnt(W(ws, y), Bin(z, r)) == Cnt(W(ws, z), Bin(y, r));
    }
  }

  lemma BinAddedClauses(ws: WatchLists, ws2: WatchLists, a: Lit, b: Lit, red: bool)
    requires a != b
    requires forall y: Lit {:trigger W(ws2, y)} ::
      W(ws2, y) == W(ws, y) + if y == a then [Bin(b, red)] else if y == b then [Bin(a, red)] else []
    ensures forall r :: BinClauses(ws2, r) == BinClauses(ws, r) + if r == red then iset{{a, b}} else iset{}
  {
    forall y: Lit, w: Watched
      ensures w in W(ws2, y) <==> w in W(ws, y) || (y == a && w == Bin(b, red)) || (y == b && w == Bin(a, red))
    {
    }
    forall r, c: Clause
      ensures c in BinClauses(ws2, r) ==> c in BinClauses(ws, r) || (r == red && c == {a, b})
    {
      if c in BinClauses(ws2, r) {
        var y: Lit, z: Lit :| Bin(z, r) in W(ws2, y) && c == {y, z};
        assert Bin(z, r) in W(ws, y) || (y == a && z == b && r == red) || (y == b && z == a && r == red);
      }
    }
    forall r, c: Clause
      ensures c in BinClauses(ws, r) || (r == red && c == {a, b}) ==> c in BinClauses(ws2, r)
    {
      if c in BinClauses(ws, r) {
        var y: Lit, z: Lit :| Bin(z, r) in W(ws, y) && c == {y, z};
        assert Bin(z, r) in W(ws2, y);
      }
      if r == red && c == {a, b} {
        assert Bin(b, red) in W(ws2, a);
      }
    }
  }

  lemma Snoc(s: seq<Watched>, x: Watched, w: Watched)
    ensures Cnt(s + [x], w) == Cnt(s, w) + if x == w then 1 else 0
    ensures s + [] == s
  {
    assert s + [] == s;
  }
}
