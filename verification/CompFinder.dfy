/**
 Components: variables that occur together in irredundant clauses are put together, clause by clause.
 (cryptoms/compfinder.cpp:98-342)
 */
module CompFinder {
  import opened Literals
  import opened Watches
  import opened Sorting

  /** The variables of a clause. */
  type Edge = set<nat>

  function VarsOf(cl: seq<Lit>): Edge {
    set l | l in cl :: l.v
  }

  // ----- being connected -----

  /** An edge that meets the set lies in it. */
  ghost predicate ClosedUnder(edges: iset<Edge>, s: iset<nat>) {
    forall e, v, w {:trigger e in edges, v in e, w in e} :: e in edges && v in e && w in e && v in s ==> w in s
  }

  /** Whoever has `x` and keeps edges together has `y`. */
  ghost predicate Connected(edges: iset<Edge>, x: nat, y: nat) {
    forall s: iset<nat> {:trigger ClosedUnder(edges, s)} :: ClosedUnder(edges, s) && x in s ==> y in s
  }

  ghost predicate Occurs(edges: iset<Edge>, x: nat) {
    exists e :: e in edges && x in e
  }

  lemma ConnectedSym(edges: iset<Edge>, x: nat, y: nat)
    requires Connected(edges, x, y)
    ensures Connected(edges, y, x)
  {
    forall s: iset<nat> | ClosedUnder(edges, s) && y in s
      ensures x in s
    {
      var t := iset v: nat | v !in s;
      assert ClosedUnder(edges, t);
    }
  }

  lemma ConnectedTrans(edges: iset<Edge>, x: nat, y: nat, z: nat)
    requires Connected(edges, x, y) && Connected(edges, y, z)
    ensures Connected(edges, x, z)
  {
  }

  lemma ConnectedMore(edges: iset<Edge>, edges': iset<Edge>, x: nat, y: nat)
    requires Connected(edges, x, y) && edges <= edges'
    ensures Connected(edges', x, y)
  {
    forall s: iset<nat> | ClosedUnder(edges', s) && x in s
      ensures y in s
    {
      assert ClosedUnder(edges, s);
    }
  }

  lemma ConnectedByEdge(edges: iset<Edge>, e: Edge, x: nat, y: nat)
    requires e in edges && x in e && y in e
    ensures Connected(edges, x, y)
  {
  }

  // ----- the tables -----

  type Table = seq<Option<nat>>
  type ReverseTable = map<nat, seq<nat>>

  predicate In(table: Table, v: nat, c: nat) {
    v < |table| && table[v] == Some(c)
  }

  /** Each table is the inverse of the other, and no component lists a variable twice. */
  ghost predicate TablesOk(table: Table, rev: ReverseTable) {
    && (forall c: nat, v: nat {:trigger v in rev[c]} :: c in rev ==> (v in rev[c] <==> In(table, v, c)))
    && (forall v {:trigger table[v]} :: 0 <= v < |table| && table[v].Some? ==> table[v].value in rev)
    && forall c {:trigger rev[c]} :: c in rev ==> NoDuplicates(rev[c])
  }

  ghost predicate Together(table: Table, e: Edge) {
    forall v, w {:trigger v in e, w in e} ::
      v in e && w in e ==> v < |table| && w < |table| && table[v].Some? && table[v] == table[w]
  }

  /** The variables placed are those that occur; an edge lies within one component; a component is connected. */
  ghost predicate Found(table: Table, edges: iset<Edge>) {
    && (forall e {:trigger e in edges} :: e in edges ==> Together(table, e))
    && (forall v {:trigger table[v]} :: 0 <= v < |table| && table[v].Some? ==> Occurs(edges, v))
    && forall x, y {:trigger table[x], table[y]} ::
      0 <= x < |table| && 0 <= y < |table| && table[x].Some? && table[x] == table[y] ==> Connected(edges, x, y)
  }

  ghost function Placed(table: Table): set<nat> {
    set v | 0 <= v < |table| && table[v].Some?
  }

  /** Being in the same component is being connected. */
  lemma FoundExact(table: Table, edges: iset<Edge>, x: nat, y: nat)
    requires Found(table, edges) && x < |table|
    ensures table[x].Some? <==> Occurs(edges, x)
    ensures table[x].Some? ==> (Connected(edges, x, y) <==> y < |table| && table[y] == table[x])
  {
    if Occurs(edges, x) {
      var e :| e in edges && x in e;
      assert Together(table, e);
    }
    if table[x].Some? && Connected(edges, x, y) {
      var s := iset v: nat | v < |table| && table[v] == table[x];
      forall e, v, w | e in edges && v in e && w in e && v in s
        ensures w in s
      {
        assert Together(table, e);
      }
      assert ClosedUnder(edges, s);
    }
  }

  // ----- one more edge -----

  /** All that is put together because of the edge: its variables, and the components they are in. */
  ghost predicate InGroup(table: Table, e: Edge, v: nat) {
    v in e || exists w :: w in e && w < |table| && v < |table| && table[w].Some? && table[v] == table[w]
  }

  ghost predicate Regrouped(table: Table, table': Table, e: Edge, c: nat) {
    && |table'| == |table|
    && (forall v {:trigger table'[v]} ::
      0 <= v < |table| ==> table'[v] == if InGroup(table, e, v) then Some(c) else table[v])
    && forall v: nat {:trigger In(table, v, c)} :: In(table, v, c) ==> InGroup(table, e, v)
  }

  lemma GroupConnected(table: Table, edges: iset<Edge>, e: Edge, x: nat, z: nat)
    requires Found(table, edges) && z in e && InGroup(table, e, x)
    ensures Connected(edges + iset{e}, x, z)
  {
    var edges' := edges + iset{e};
    if x in e {
      ConnectedByEdge(edges', e, x, z);
    } else {
      var w :| w in e && w < |table| && x < |table| && table[w].Some? && table[x] == table[w];
      assert Connected(edges, x, w);
      ConnectedMore(edges, edges', x, w);
      ConnectedByEdge(edges', e, w, z);
      ConnectedTrans(edges', x, w, z);
    }
  }

  lemma RegroupedFound(table: Table, table': Table, edges: iset<Edge>, e: Edge, c: nat)
    requires Found(table, edges) && Regrouped(table, table', e, c) && e != {} && forall v :: v in e ==> v < |table|
    ensures Found(table', edges + iset{e})
  {
    hide Connected;
    var edges' := edges + iset{e};
    forall d | d in edges'
      ensures Together(table', d)
    {
      forall v, w | v in d && w in d
        ensures v < |table'| && w < |table'| && table'[v].Some? && table'[v] == table'[w]
      {
        if d != e {
          assert Together(table, d);
          SameGroup(table, e, v, w);
        }
      }
    }
    forall v | 0 <= v < |table'| && table'[v].Some?
      ensures Occurs(edges', v)
    {
      if InGroup(table, e, v) && v in e {
        assert e in edges';
      } else {
        assert table[v].Some?;
        var d :| d in edges && v in d;
        assert d in edges';
      }
    }
    var z :| z in e;
    forall x, y | 0 <= x < |table'| && 0 <= y < |table'| && table'[x].Some? && table'[x] == table'[y]
      ensures Connected(edges', x, y)
    {
      if InGroup(table, e, x) {
        NotOutside(table, table', e, c, y);
        GroupConnected(table, edges, e, x, z);
        GroupConnected(table, edges, e, y, z);
        ConnectedSym(edges', y, z);
        ConnectedTrans(edges', x, z, y);
      } else {
        if InGroup(table, e, y) {
          NotOutside(table, table', e, c, x);
        }
        assert table[x] == table[y];
        ConnectedMore(edges, edges', x, y);
      }
    }
  }

  lemma SameGroup(table: Table, e: Edge, v: nat, w: nat)
    requires v < |table| && w < |table| && table[v].Some? && table[v] == table[w]
    ensures InGroup(table, e, v) <==> InGroup(table, e, w)
  {
  }

  lemma NotOutside(table: Table, table': Table, e: Edge, c: nat, y: nat)
    requires Regrouped(table, table', e, c) && y < |table'| && table'[y] == Some(c)
    ensures InGroup(table, e, y)
  {
    if !InGroup(table, e, y) {
      assert In(table, y, c);
    }
  }

  // ----- the procedure -----

  class CompFinder {
    var table: Table
    var reverseTable: ReverseTable
    var compNo: nat
    var usedCompNo: nat
    var seen: set<nat>
    var newSet: seq<nat>
    var tomerge: seq<nat>
    var timedout: bool
    /** How many clauses and variables may still be looked at. */
    var effort: nat
    /** The clauses added so far. */
    ghost var edges: iset<Edge>

    /** Component numbers in use are below `compNo`, and stay below the number of variables placed. */
    ghost predicate Valid()
      reads `table, `reverseTable, `compNo, `usedCompNo, `seen, `edges
    {
      && TablesOk(table, reverseTable) && Found(table, edges) && seen == {}
      && usedCompNo == |reverseTable| && (forall c {:trigger c in reverseTable} :: c in reverseTable ==> c < compNo)
      && compNo + usedCompNo <= |Placed(table)|
    }

    predicate BelongToSameComponent(cl: seq<Lit>)
      requires cl != [] && forall k {:trigger cl[k]} :: 0 <= k < |cl| ==> cl[k].v < |table|
      reads `table
    {
      table[cl[0].v].Some? && forall k {:trigger cl[k]} :: 0 <= k < |cl| ==> table[cl[k].v] == table[cl[0].v]
    }

    /** Sorts the variables of the clause: new ones, and the components of the others, each once. */
    method FillNewsetAndTomerge(cl: seq<Lit>)
      requires (forall l {:trigger l in cl} :: l in cl ==> l.v < |table|) && seen == {} && newSet == [] && tomerge == []
      requires forall i, j {:trigger cl[i], cl[j]} :: 0 <= i < j < |cl| ==> cl[i].v != cl[j].v
      modifies `seen, `newSet, `tomerge
      ensures Sets(table, VarsOf(cl), newSet, tomerge) && (forall c: nat :: c in seen <==> c in tomerge)
    {
      for k := 0 to |cl|
        invariant Sets(table, VarsOf(cl[..k]), newSet, tomerge) && (forall c: nat :: c in seen <==> c in tomerge)
      {
        var lit := cl[k];
        assert lit in cl;
        assert cl[..k + 1] == cl[..k] + [lit];
        NewVar(cl, k);
        assert VarsOf(cl[..k + 1]) == VarsOf(cl[..k]) + {lit.v};
        SetsNext(table, VarsOf(cl[..k]), newSet, tomerge, lit.v);
        if table[lit.v].Some? {
          if table[lit.v].value !in seen {
            tomerge := tomerge + [table[lit.v].value];
            seen := seen + {table[lit.v].value};
          }
        } else {
          newSet := newSet + [lit.v];
        }
      }
      assert cl[..|cl|] == cl;
    }

    /** The new variables join the only component the clause meets. */
    method MergeNewsetIntoSingleComponent(ghost e: Edge)
      requires |tomerge| == 1 && seen == {tomerge[0]} && Sets(table, e, newSet, tomerge)
        && TablesOk(table, reverseTable)
      modifies `seen, `reverseTable, `table
      ensures seen == {} && TablesOk(table, reverseTable) && reverseTable.Keys == old(reverseTable.Keys)
      ensures Regrouped(old(table), table, e, tomerge[0])
    {
      var into := tomerge[0];
      ghost var table0, rev0 := table, reverseTable;
      SetsKnown(table, reverseTable, e, newSet, tomerge);
      seen := seen - {into};
      for k := 0 to |newSet|
        modifies `reverseTable, `table
        invariant reverseTable.Keys == rev0.Keys && TablesOk(table, reverseTable) && |table| == |table0|
        invariant forall v {:trigger table[v]} ::
          0 <= v < |table0| ==> table[v] == if v in newSet[..k] then Some(into) else table0[v]
      {
        var v := newSet[k];
        assert newSet[..k + 1] == newSet[..k] + [v];
        assert v in newSet;
        NotBefore(newSet, k);
        Joined(table, reverseTable, into, v);
        reverseTable := reverseTable[into := reverseTable[into] + [v]];
        table := table[v := Some(into)];
      }
      assert newSet[..|newSet|] == newSet;
      SingleRegrouped(table0, table, e, newSet, tomerge);
    }

    /**
     Adds a clause: its variables and all components they are in become one component, the only one met or else a new
     one. The other components stay, the tables stay inverse to each other, and component numbers stay below the number
     of placed variables.
     */
    method AddClauseToComponent(cl: seq<Lit>)
      requires Valid() && ClauseFits(cl, |table|)
      modifies `table, `reverseTable, `compNo, `usedCompNo, `seen, `newSet, `tomerge, `edges
      ensures Valid() && edges == old(edges) + iset{VarsOf(cl)} && |table| == old(|table|)
      ensures if Together(old(table), VarsOf(cl)) then
          table == old(table) && reverseTable == old(reverseTable) && compNo == old(compNo)
        else
          exists c: nat ::
            Regrouped(old(table), table, VarsOf(cl), c)
            && if |Met(old(table), VarsOf(cl))| == 1 then c in Met(old(table), VarsOf(cl)) && compNo == old(compNo)
               else c == old(compNo) && compNo == old(compNo) + 1
    {
      hide Found, TablesOk, Sets, Placed, Regrouped, Met;
      tomerge, newSet := [], [];
      ghost var e, edges0 := VarsOf(cl), edges;
      assert forall k {:trigger cl[k]} :: 0 <= k < |cl| ==> cl[k] in cl;
      edges := edges + iset{e};
      TogetherTold(table, cl);
      if BelongToSameComponent(cl) {
        AlreadyTogether(table, edges0, cl);
        return;
      }
      FillNewsetAndTomerge(cl);
      MetOne(table, e, newSet, tomerge);
      if |tomerge| == 1 {
        assert cl[0].v in e;
        MergeIntoOne(e, edges0);
        return;
      }
      MergeSeveral(cl, edges0);
    }

    method MergeIntoOne(ghost e: Edge, ghost edges0: iset<Edge>)
      requires |tomerge| == 1 && (forall c: nat :: c in seen <==> c in tomerge) && Sets(table, e, newSet, tomerge)
        && e != {}
      requires TablesOk(table, reverseTable) && Found(table, edges0)
      modifies `seen, `reverseTable, `table
      ensures seen == {} && TablesOk(table, reverseTable) && Found(table, edges0 + iset{e}) && |table| == old(|table|)
      ensures reverseTable.Keys == old(reverseTable.Keys) && |reverseTable| == |old(reverseTable)|
        && |Placed(old(table))| <= |Placed(table)|
      ensures Regrouped(old(table), table, e, tomerge[0])
    {
      hide Found, TablesOk, Regrouped, Placed;
      ghost var table0, rev0 := table, reverseTable;
      assert seen == {tomerge[0]};
      MergeNewsetIntoSingleComponent(e);
      assert |table| == |table0| by { assert Regrouped(table0, table, e, tomerge[0]);
        SameLength(table0, table, e, tomerge[0]); }
      RegroupedFound(table0, table, edges0, e, tomerge[0]);
      PlacedGrows(table0, table, e, tomerge[0]);
      assert |reverseTable.Keys| == |rev0.Keys|;
    }

    method MergeSeveral(cl: seq<Lit>, ghost edges0: iset<Edge>)
      requires |tomerge| != 1 && (forall c: nat :: c in seen <==> c in tomerge)
        && Sets(table, VarsOf(cl), newSet, tomerge) && ClauseFits(cl, |table|)
      requires TablesOk(table, reverseTable) && Found(table, edges0) && usedCompNo == |reverseTable|
      requires (forall c {:trigger c in reverseTable} :: c in reverseTable ==> c < compNo)
        && compNo + usedCompNo <= |Placed(table)|
      modifies `seen, `newSet, `reverseTable, `table, `compNo, `usedCompNo
      ensures seen == {} && TablesOk(table, reverseTable) && Found(table, edges0 + iset{VarsOf(cl)})
        && |table| == old(|table|)
      ensures usedCompNo == |reverseTable|
        && (forall c {:trigger c in reverseTable} :: c in reverseTable ==> c < compNo)
        && compNo + usedCompNo <= |Placed(table)|
      ensures Regrouped(old(table), table, VarsOf(cl), old(compNo)) && compNo == old(compNo) + 1
    {
      hide Found, TablesOk, Regrouped, Sets, Placed, Gathered;
      ghost var e := VarsOf(cl);
      ghost var table0, rev0, new0, comp := table, reverseTable, newSet, compNo;
      assert cl[0] in cl && cl[0].v in e;
      MergeAll(e);
      SetComponent(table0, rev0, e, new0);
      SameLength(table0, table, e, comp);
      RegroupedFound(table0, table, edges0, e, comp);
      if tomerge == [] {
        NoneMet(table0, e, new0, tomerge);
      }
      CountHolds(table0, table, cl, tomerge, comp);
    }

    /** Takes the components to be merged apart and collects their variables. */
    method MergeAll(ghost e: Edge)
      requires Sets(table, e, newSet, tomerge) && TablesOk(table, reverseTable)
        && (forall c: nat :: c in seen <==> c in tomerge)
      requires usedCompNo == |reverseTable|
      modifies `seen, `newSet, `reverseTable, `usedCompNo
      ensures seen == {} && Gathered(table, old(reverseTable), reverseTable, old(newSet), newSet, tomerge, |tomerge|)
      ensures usedCompNo == |reverseTable| && |reverseTable| + |tomerge| == |old(reverseTable)|
    {
      ghost var rev0, new0 := reverseTable, newSet;
      SetsKnown(table, rev0, e, new0, tomerge);
      GatherStarts(table, rev0, e, new0, tomerge);
      for k := 0 to |tomerge|
        invariant Gathered(table, rev0, reverseTable, new0, newSet, tomerge, k)
        invariant forall c: nat :: c in seen <==> c in tomerge[k..]
        invariant usedCompNo == |reverseTable| && |reverseTable| + k == |rev0|
      {
        var merge := tomerge[k];
        assert tomerge[k..] == [merge] + tomerge[k + 1..];
        assert merge in tomerge;
        NotAfter(tomerge, k);
        GatherNext(table, rev0, reverseTable, new0, newSet, tomerge, k);
        seen := seen - {merge};
        newSet := newSet + reverseTable[merge];
        ghost var keys := reverseTable.Keys;
        reverseTable := reverseTable - {merge};
        assert reverseTable.Keys == keys - {merge};
        usedCompNo := usedCompNo - 1;
      }
    }

    method PlaceNewset()
      requires forall v :: v in newSet ==> v < |table|
      modifies `table
      ensures |table| == old(|table|)
      ensures forall v {:trigger table[v]} ::
        0 <= v < |table| ==> table[v] == if v in newSet then Some(compNo) else old(table)[v]
    {
      for k := 0 to |newSet|
        modifies `table
        invariant |table| == old(|table|)
        invariant forall v {:trigger table[v]} ::
          0 <= v < |table| ==> table[v] == if v in newSet[..k] then Some(compNo) else old(table)[v]
      {
        assert newSet[..k + 1] == newSet[..k] + [newSet[k]];
        assert newSet[k] in newSet;
        table := table[newSet[k] := Some(compNo)];
      }
      assert newSet[..|newSet|] == newSet;
    }

    /** What has been collected, which is never nothing, becomes a component with a new number. */
    method SetComponent(ghost table0: Table, ghost rev0: ReverseTable, ghost e: Edge, ghost new0: seq<nat>)
      requires table == table0 && TablesOk(table0, rev0) && (forall c {:trigger c in rev0} :: c in rev0 ==> c < compNo)
      requires Sets(table0, e, new0, tomerge) && Gathered(table0, rev0, reverseTable, new0, newSet, tomerge, |tomerge|)
        && e != {}
      requires usedCompNo == |reverseTable|
      modifies `table, `reverseTable, `compNo, `usedCompNo
      ensures Regrouped(table0, table, e, old(compNo)) && TablesOk(table, reverseTable) && compNo == old(compNo) + 1
      ensures usedCompNo == |reverseTable| == old(usedCompNo) + 1
        && forall c {:trigger c in reverseTable} :: c in reverseTable ==> c < compNo
    {
      ghost var rev1 := reverseTable;
      hide TablesOk, Sets, Gathered, Regrouped;
      GatheredAll(table0, rev0, rev1, e, new0, newSet, tomerge);
      assert newSet != [];
      PlaceNewset();
      NewComponent(table0, rev0, rev1, table, e, newSet, compNo);
      reverseTable := reverseTable[compNo := newSet];
      compNo := compNo + 1;
      usedCompNo := usedCompNo + 1;
    }

    method AddClausesToComponent(cs: seq<seq<Lit>>)
      requires Valid() && forall k {:trigger cs[k]} :: 0 <= k < |cs| ==> ClauseFits(cs[k], |table|)
      modifies this
      ensures Valid() && |table| == old(|table|) && edges <= old(edges) + ClauseEdges(cs)
      ensures !timedout ==> !old(timedout) && edges == old(edges) + ClauseEdges(cs) && effort == old(effort) - |cs|
      ensures timedout ==> old(timedout) || old(effort) < |cs|
    {
      hide Found, TablesOk;
      for k := 0 to |cs|
        invariant Valid() && |table| == old(|table|) && edges == old(edges) + ClauseEdges(cs[..k])
          && timedout == old(timedout) && effort == old(effort) - k
      {
        if effort == 0 {
          timedout := true;
          EdgesUpTo(cs, k);
          return;
        }
        effort := effort - 1;
        AddClauseToComponent(cs[k]);
        EdgesNext(cs, k);
      }
      assert cs[..|cs|] == cs;
    }

    method LitsOfList(ws: WatchLists, x: nat, lit: Lit, lits0: seq<Lit>) returns (lits: seq<Lit>)
      requires BinsFit(ws, |table|) && lit.v == x && LitsFit(lits0, |table|) && x in VarsOf(lits0) && lits0 != []
        && seen == VarsOf(lits0) - {x}
      modifies `seen
      ensures LitsFit(lits, |table|) && lits0 <= lits && VarsOf(lits) == VarsOf(lits0) + Partners(lit, W(ws, lit))
        && seen == VarsOf(lits) - {x}
    {
      hide Partners;
      lits := lits0;
      var l := W(ws, lit);
      NoPartners(lit, l);
      for k := 0 to |l|
        invariant LitsFit(lits, |table|) && lits0 <= lits && VarsOf(lits) == VarsOf(lits0) + Partners(lit, l[..k])
          && seen == VarsOf(lits) - {x}
      {
        var w := l[k];
        PartnersNext(lit, l, k);
        if w.Bin? && !w.red && ToInt(lit) < ToInt(w.lit2) {
          BinFits(ws, |table|, lit, w);
          if w.lit2.v !in seen {
            FreshLit(lits, w.lit2, |table|);
            lits := lits + [w.lit2];
            seen := seen + {w.lit2.v};
          }
        }
      }
      assert l[..|l|] == l;
    }

    /** The variable and those it shares an irredundant binary clause with, if that clause is to be met from here. */
    method LitsOfVar(ws: WatchLists, x: nat) returns (lits: seq<Lit>)
      requires BinsFit(ws, |table|) && x < |table| && seen == {}
      modifies `seen
      ensures (|lits| > 1 ==> ClauseFits(lits, |table|)) && |lits| > 0 && VarsOf(lits) == Group(ws, x) && seen == {}
    {
      lits := [Lit(x, false)];
      seen := {};
      hide Partners, BinsFit;
      for sign := 0 to 2
        modifies `seen
        invariant LitsFit(lits, |table|) && lits != [] && VarsOf(lits) == {x} + Group1(ws, x, sign)
          && seen == VarsOf(lits) - {x}
      {
        var lit := Lit(x, sign == 1);
        ghost var lits0 := lits;
        lits := LitsOfList(ws, x, lit, lits);
        GroupNext(ws, x, sign);
      }
      GroupWhole(ws, x);
      ghost var vars := VarsOf(lits);
      for k := 0 to |lits|
        modifies `seen
        invariant seen == vars - {x} - VarsOf(lits[..k])
      {
        assert lits[..k + 1] == lits[..k] + [lits[k]];
        assert VarsOf(lits[..k + 1]) == VarsOf(lits[..k]) + {lits[k].v};
        seen := seen - {lits[k].v};
      }
      assert lits[..|lits|] == lits;
    }

    method AddToCompImplicits(ws: WatchLists)
      requires Valid() && BinsFit(ws, |table|)
      modifies this
      ensures Valid() && |table| == old(|table|)
      ensures !timedout ==> !old(timedout) && edges == old(edges) + GroupEdges(ws, |table|)
      ensures timedout ==> old(timedout) || old(effort) < |table|
    {
      hide Found, TablesOk, BinsFit, Group;
      for x := 0 to |table|
        invariant Valid() && |table| == old(|table|) && edges == old(edges) + GroupEdges(ws, x)
          && timedout == old(timedout) && effort == old(effort) - x
      {
        if effort == 0 {
          timedout := true;
          return;
        }
        effort := effort - 1;
        var lits := LitsOfVar(ws, x);
        GroupSize(ws, x, lits, |table|);
        if |lits| > 1 {
          AddClauseToComponent(lits);
        }
        GroupEdgesNext(ws, x);
      }
    }

    method Clear(nVars: nat, limit: nat)
      requires seen == {}
      modifies this
      ensures Valid() && |table| == nVars && edges == iset{} && !timedout && effort == limit
    {
      table := seq(nVars, _ => None);
      reverseTable := map[];
      compNo, usedCompNo := 0, 0;
      edges := iset{};
      timedout, effort := false, limit;
      assert Placed(table) == {};
    }

    /**
     Finds the components. Unless the effort ran out, two variables are in the same component iff they are
     connected by irredundant clauses, long or binary, and a variable is in a component iff it occurs in one.
     */
    method FindComponents(nVars: nat, longIrredCls: seq<seq<Lit>>, ws: WatchLists, limit: nat)
      requires (forall k {:trigger longIrredCls[k]} :: 0 <= k < |longIrredCls| ==> ClauseFits(longIrredCls[k], nVars))
        && BinsFit(ws, nVars) && seen == {}
      modifies this
      ensures |table| == nVars && seen == {} && (timedout ==> reverseTable == map[]) && (!timedout ==> Valid())
      ensures timedout ==> limit < |longIrredCls| + nVars
      ensures !timedout ==>
        forall x: nat {:trigger table[x]} ::
        x < nVars ==> (table[x].Some? <==> Occurs(ClauseEdges(longIrredCls) + BinEdges(ws), x))
      ensures !timedout ==>
        forall x: nat, y: nat {:trigger table[x], table[y]} :: x < nVars && y < nVars && table[x].Some? ==>
        (table[x] == table[y] <==> Connected(ClauseEdges(longIrredCls) + BinEdges(ws), x, y))
    {
      hide ClauseFits, BinsFit, Found, TablesOk, ClauseEdges, BinEdges, GroupEdges, Connected, Occurs, Placed;
      Clear(nVars, limit);
      AddClausesToComponent(longIrredCls);
      AddToCompImplicits(ws);
      if timedout {
        reverseTable := map[];
      } else {
        assert edges == ClauseEdges(longIrredCls) + GroupEdges(ws, nVars);
        SameEdges(ClauseEdges(longIrredCls), ws, nVars);
        Exact(table, edges, ClauseEdges(longIrredCls) + BinEdges(ws));
      }
    }
  }

  lemma Exact(table: Table, edges: iset<Edge>, f: iset<Edge>)
    requires Found(table, edges) && (forall x: nat :: Occurs(edges, x) <==> Occurs(f, x))
      && forall x: nat, y: nat :: Connected(edges, x, y) <==> Connected(f, x, y)
    ensures forall x: nat {:trigger table[x]} :: x < |table| ==> (table[x].Some? <==> Occurs(f, x))
    ensures forall x: nat, y: nat {:trigger table[x], table[y]} ::
      x < |table| && y < |table| && table[x].Some? ==> (table[x] == table[y] <==> Connected(f, x, y))
  {
    hide Found, Connected, Occurs;
    forall x: nat, y: nat | x < |table| && y < |table|
      ensures table[x].Some? <==> Occurs(f, x)
      ensures table[x].Some? ==> (table[x] == table[y] <==> Connected(f, x, y))
    {
      FoundExact(table, edges, x, y);
    }
  }

  /** Comparing with the first variable tells whether all variables of a clause are in one component. */
  lemma TogetherTold(table: Table, cl: seq<Lit>)
    requires cl != [] && forall k {:trigger cl[k]} :: 0 <= k < |cl| ==> cl[k].v < |table|
    ensures Together(table, VarsOf(cl)) <==>
      table[cl[0].v].Some? && forall k {:trigger cl[k]} :: 0 <= k < |cl| ==> table[cl[k].v] == table[cl[0].v]
  {
    var e := VarsOf(cl);
    forall k {:trigger cl[k]} | 0 <= k < |cl|
      ensures cl[k].v in e
    {
      assert cl[k] in cl;
    }
    if Together(table, e) {
      assert cl[0].v in e;
    }
  }

  /** The components met by an edge. */
  ghost function Met(table: Table, e: Edge): set<nat> {
    set v | v in e && v < |table| && table[v].Some? :: table[v].value
  }

  lemma TwoDiffer(s: seq<nat>)
    requires NoDuplicates(s)
    ensures |s| > 1 ==> s[0] != s[1]
  {
  }

  lemma MetOne(table: Table, e: Edge, newSet: seq<nat>, tomerge: seq<nat>)
    requires Sets(table, e, newSet, tomerge)
    ensures (|tomerge| == 1 <==> |Met(table, e)| == 1) && (|tomerge| == 1 ==> tomerge[0] in Met(table, e))
  {
    var met := Met(table, e);
    forall c: nat
      ensures c in met <==> c in tomerge
    {
      assert c in tomerge <==> Meets(table, e, c);
      if c in met {
        var v :| v in e && v < |table| && table[v] == Some(c);
        assert In(table, v, c);
      }
      if Meets(table, e, c) {
        var v :| v in e && In(table, v, c);
        assert table[v] == Some(c);
      }
    }
    if |tomerge| == 1 {
      assert met == {tomerge[0]};
    }
    if |met| == 1 {
      var c :| c in met;
      assert |met - {c}| == 0;
      forall k | 0 <= k < |tomerge|
        ensures tomerge[k] == c
      {
        assert tomerge[k] in tomerge && tomerge[k] !in met - {c};
      }
      assert c in tomerge;
      TwoDiffer(tomerge);
    }
  }

  // ----- what the steps compute -----

  /** The variables of an edge sorted into those that are new and the components of the others. */
  ghost predicate Sets(table: Table, e: Edge, newSet: seq<nat>, tomerge: seq<nat>) {
    && NoDuplicates(newSet) && NoDuplicates(tomerge) && (forall v: nat {:trigger v in e} :: v in e ==> v < |table|)
    && (forall v: nat {:trigger v in newSet} :: v in newSet <==> v in e && v < |table| && table[v].None?)
    && forall c: nat {:trigger c in tomerge} :: c in tomerge <==> Meets(table, e, c)
  }

  ghost predicate Meets(table: Table, e: Edge, c: nat) {
    exists v :: v in e && In(table, v, c)
  }

  lemma Snoc(s: seq<nat>, x: nat)
    requires NoDuplicates(s) && x !in s
    ensures NoDuplicates(s + [x])
  {
  }

  lemma SetsNext(table: Table, e: Edge, newSet: seq<nat>, tomerge: seq<nat>, v: nat)
    requires Sets(table, e, newSet, tomerge) && v < |table| && v !in e
    ensures table[v].None? ==> Sets(table, e + {v}, newSet + [v], tomerge)
    ensures table[v].Some? ==>
      Sets(table, e + {v}, newSet, if table[v].value in tomerge then tomerge else tomerge + [table[v].value])
  {
    var e' := e + {v};
    assert v !in newSet;
    if table[v].Some? {
      if table[v].value !in tomerge {
        Snoc(tomerge, table[v].value);
      }
      var tomerge' := if table[v].value in tomerge then tomerge else tomerge + [table[v].value];
      forall c: nat
        ensures c in tomerge' <==> Meets(table, e', c)
      {
        if Meets(table, e, c) {
          var w :| w in e && In(table, w, c);
          assert w in e';
        }
        assert v in e';
        if c == table[v].value {
          assert In(table, v, c);
        }
        assert c in tomerge <==> Meets(table, e, c);
      }
    } else {
      Snoc(newSet, v);
      forall c: nat
        ensures c in tomerge <==> Meets(table, e', c)
      {
        if Meets(table, e, c) {
          var w :| w in e && In(table, w, c);
          assert w in e';
        }
      }
    }
  }

  lemma SetsKnown(table: Table, rev: ReverseTable, e: Edge, newSet: seq<nat>, tomerge: seq<nat>)
    requires Sets(table, e, newSet, tomerge) && TablesOk(table, rev)
    ensures forall c :: c in tomerge ==> c in rev
    ensures forall v :: v in newSet ==> v < |table| && table[v].None?
  {
    forall c | c in tomerge
      ensures c in rev
    {
      var v :| v in e && In(table, v, c);
      assert table[v].value in rev;
    }
  }

  lemma NewVar(cl: seq<Lit>, k: nat)
    requires k < |cl| && forall i, j {:trigger cl[i], cl[j]} :: 0 <= i < j < |cl| ==> cl[i].v != cl[j].v
    ensures cl[k].v !in VarsOf(cl[..k])
  {
  }

  lemma NotBefore(s: seq<nat>, k: nat)
    requires NoDuplicates(s) && k < |s|
    ensures s[k] !in s[..k]
  {
  }

  lemma NotAfter(s: seq<nat>, k: nat)
    requires NoDuplicates(s) && k < |s|
    ensures s[k] !in s[k + 1..]
  {
  }

  lemma Joined(table: Table, rev: ReverseTable, c: nat, v: nat)
    requires TablesOk(table, rev) && c in rev && v < |table| && table[v].None?
    ensures TablesOk(table[v := Some(c)], rev[c := rev[c] + [v]])
  {
    var table', rev' := table[v := Some(c)], rev[c := rev[c] + [v]];
    assert !In(table, v, c);
    forall d: nat, w: nat | d in rev'
      ensures w in rev'[d] <==> In(table', w, d)
    {
      assert w in rev[d] <==> In(table, w, d);
    }
    assert v !in rev[c];
  }

  lemma SingleRegrouped(table: Table, table': Table, e: Edge, newSet: seq<nat>, tomerge: seq<nat>)
    requires Sets(table, e, newSet, tomerge) && |tomerge| == 1 && |table'| == |table|
    requires forall v {:trigger table'[v]} ::
      0 <= v < |table| ==> table'[v] == if v in newSet then Some(tomerge[0]) else table[v]
    ensures Regrouped(table, table', e, tomerge[0])
  {
    var c := tomerge[0];
    assert c in tomerge;
    var z :| z in e && In(table, z, c);
    forall v: nat | v < |table|
      ensures InGroup(table, e, v) <==> v in newSet || table[v] == Some(c)
    {
      if table[v] == Some(c) {
        assert z in e && table[v] == table[z];
      }
      if InGroup(table, e, v) && v !in newSet {
        if v in e {
          assert In(table, v, table[v].value);
          assert table[v].value in tomerge;
        } else {
          var w :| w in e && w < |table| && v < |table| && table[w].Some? && table[v] == table[w];
          assert In(table, w, table[w].value);
          assert table[w].value in tomerge;
        }
      }
    }
  }

  lemma AlreadyTogether(table: Table, edges: iset<Edge>, cl: seq<Lit>)
    requires Found(table, edges) && cl != [] && (forall k {:trigger cl[k]} :: 0 <= k < |cl| ==> cl[k].v < |table|)
    requires table[cl[0].v].Some? && forall k {:trigger cl[k]} :: 0 <= k < |cl| ==> table[cl[k].v] == table[cl[0].v]
    ensures Found(table, edges + iset{VarsOf(cl)})
  {
    var e := VarsOf(cl);
    assert cl[0].v in e by { assert cl[0] in cl; }
    forall v | v in e
      ensures v < |table| && table[v] == table[cl[0].v]
    {
      var l :| l in cl && l.v == v;
      var k :| 0 <= k < |cl| && cl[k] == l;
    }
    var c := table[cl[0].v].value;
    forall v: nat | v < |table|
      ensures InGroup(table, e, v) <==> table[v] == Some(c)
    {
      if table[v] == Some(c) {
        assert cl[0].v in e && table[v] == table[cl[0].v];
      }
    }
    RegroupedFound(table, table, edges, e, c);
  }

  /** `k` of the components to be merged have been taken apart. */
  ghost predicate Gathered(table: Table, rev0: ReverseTable, rev: ReverseTable, new0: seq<nat>, newSet: seq<nat>,
                           tomerge: seq<nat>, k: nat)
  {
    && k <= |tomerge| && NoDuplicates(newSet)
    && (forall c: nat {:trigger c in rev} :: c in rev <==> c in rev0 && c !in tomerge[..k])
    && (forall c {:trigger rev[c]} :: c in rev ==> rev[c] == rev0[c])
    && forall v: nat {:trigger v in newSet} ::
      v in newSet <==> v in new0 || (v < |table| && table[v].Some? && table[v].value in tomerge[..k])
  }

  lemma GatherStarts(table: Table, rev: ReverseTable, e: Edge, newSet: seq<nat>, tomerge: seq<nat>)
    requires Sets(table, e, newSet, tomerge)
    ensures Gathered(table, rev, rev, newSet, newSet, tomerge, 0)
  {
  }

  lemma GatherNext(table: Table, rev0: ReverseTable, rev: ReverseTable, new0: seq<nat>, newSet: seq<nat>,
                   tomerge: seq<nat>, k: nat)
    requires TablesOk(table, rev0) && Gathered(table, rev0, rev, new0, newSet, tomerge, k) && k < |tomerge|
      && NoDuplicates(tomerge) && tomerge[k] in rev0
    requires forall v {:trigger v in new0} :: v in new0 ==> v < |table| && table[v].None?
    ensures tomerge[k] in rev
      && Gathered(table, rev0, rev - {tomerge[k]}, new0, newSet + rev[tomerge[k]], tomerge, k + 1)
  {
    var c := tomerge[k];
    NotBefore(tomerge, k);
    assert tomerge[..k + 1] == tomerge[..k] + [c];
    assert c in rev;
    var new' := newSet + rev[c];
    forall v: nat
      ensures v in rev[c] <==> In(table, v, c)
    {
    }
    forall v: nat
      ensures v in new' <==> v in new0 || (v < |table| && table[v].Some? && table[v].value in tomerge[..k + 1])
    {
      assert v in new' <==> v in newSet || v in rev[c];
    }
    forall i, j | 0 <= i < j < |new'|
      ensures new'[i] != new'[j]
    {
      if i < |newSet| <= j {
        assert new'[i] in newSet && new'[j] in rev[c];
      }
    }
  }

  lemma GatheredAll(table: Table, rev0: ReverseTable, rev: ReverseTable, e: Edge, new0: seq<nat>, newSet: seq<nat>,
                    tomerge: seq<nat>)
    requires Sets(table, e, new0, tomerge) && TablesOk(table, rev0) && e != {}
      && Gathered(table, rev0, rev, new0, newSet, tomerge, |tomerge|)
    ensures forall v: nat {:trigger v in newSet} :: v in newSet <==> v < |table| && InGroup(table, e, v)
    ensures newSet != [] && NoDuplicates(newSet)
      && (forall c: nat {:trigger c in rev} :: c in rev <==> c in rev0 && !Meets(table, e, c))
    ensures forall c {:trigger rev[c]} :: c in rev ==> rev[c] == rev0[c]
  {
    assert tomerge[..|tomerge|] == tomerge;
    forall v: nat
      ensures v in newSet <==> v < |table| && InGroup(table, e, v)
    {
      if v < |table| && InGroup(table, e, v) && v !in new0 {
        if v in e {
          assert In(table, v, table[v].value);
          assert table[v].value in tomerge;
        } else {
          var w :| w in e && w < |table| && v < |table| && table[w].Some? && table[v] == table[w];
          assert In(table, w, table[w].value);
          assert table[w].value in tomerge;
        }
      }
      if v in newSet && v !in new0 {
        assert table[v].value in tomerge;
        var w :| w in e && In(table, w, table[v].value);
      }
    }
    var v :| v in e;
    assert v in newSet;
  }

  lemma NumberUnused(table: Table, rev: ReverseTable, c: nat)
    requires TablesOk(table, rev) && forall d: nat {:trigger d in rev} :: d in rev ==> d < c
    ensures forall v: nat {:trigger In(table, v, c)} :: !In(table, v, c)
  {
    forall v: nat
      ensures !In(table, v, c)
    {
      if v < |table| && table[v].Some? {
        assert table[v].value in rev;
      }
    }
  }

  lemma NewComponent(table: Table, rev0: ReverseTable, rev: ReverseTable, table': Table, e: Edge, newSet: seq<nat>,
                     c: nat)
    requires TablesOk(table, rev0) && (forall d {:trigger d in rev0} :: d in rev0 ==> d < c)
    requires forall v: nat {:trigger v in newSet} :: v in newSet <==> v < |table| && InGroup(table, e, v)
    requires NoDuplicates(newSet) && (forall d {:trigger d in rev} :: d in rev <==> d in rev0 && !Meets(table, e, d))
    requires forall d {:trigger rev[d]} :: d in rev ==> rev[d] == rev0[d]
    requires |table'| == |table| && forall v {:trigger table'[v]} :: 0 <= v < |table| ==>
      table'[v] == if v in newSet then Some(c) else table[v]
    ensures Regrouped(table, table', e, c) && TablesOk(table', rev[c := newSet])
    ensures |rev[c := newSet]| == |rev| + 1
      && forall d {:trigger d in rev[c := newSet]} :: d in rev[c := newSet] ==> d < c + 1
  {
    assert rev[c := newSet].Keys == rev.Keys + {c};
    NumberUnused(table, rev0, c);
    var rev' := rev[c := newSet];
    forall d: nat, v: nat | d in rev'
      ensures v in rev'[d] <==> In(table', v, d)
    {
      if d != c {
        assert v in rev0[d] <==> In(table, v, d);
        if In(table, v, d) && v in newSet {
          GroupMeets(table, e, v, d);
        }
      } else {
        assert !In(table, v, c);
      }
    }
    forall v | 0 <= v < |table'| && table'[v].Some?
      ensures table'[v].value in rev'
    {
      if v !in newSet {
        assert table[v].value in rev0;
        if Meets(table, e, table[v].value) {
          var w :| w in e && In(table, w, table[v].value);
          assert InGroup(table, e, v);
        }
      }
    }
  }

  lemma GroupMeets(table: Table, e: Edge, v: nat, d: nat)
    requires InGroup(table, e, v) && In(table, v, d)
    ensures Meets(table, e, d)
  {
    if v !in e {
      var w :| w in e && w < |table| && v < |table| && table[w].Some? && table[v] == table[w];
      assert In(table, w, d);
    }
  }

  // ----- counting -----

  lemma SameLength(table: Table, table': Table, e: Edge, c: nat)
    requires Regrouped(table, table', e, c)
    ensures |table'| == |table|
  {
  }

  lemma PlacedGrows(table: Table, table': Table, e: Edge, c: nat)
    requires Regrouped(table, table', e, c)
    ensures |Placed(table)| <= |Placed(table')|
  {
    assert Placed(table) <= Placed(table');
    SubsetSize(Placed(table), Placed(table'));
  }

  lemma NoneMet(table: Table, e: Edge, newSet: seq<nat>, tomerge: seq<nat>)
    requires Sets(table, e, newSet, tomerge) && tomerge == []
    ensures forall v :: v in e ==> v < |table| && table[v].None?
  {
    assert forall c: nat :: !Meets(table, e, c) by {
      forall c: nat
        ensures !Meets(table, e, c)
      {
        assert c in tomerge <==> Meets(table, e, c);
      }
    }
    forall v | v in e
      ensures v < |table| && table[v].None?
    {
      assert table[v].None? || (In(table, v, table[v].value) && Meets(table, e, table[v].value));
    }
  }

  /** Numbers given out and components in use stay below the number of variables placed. */
  lemma CountHolds(table: Table, table': Table, cl: seq<Lit>, tomerge: seq<nat>, c: nat)
    requires Regrouped(table, table', VarsOf(cl), c) && |cl| > 1
      && (forall l {:trigger l in cl} :: l in cl ==> l.v < |table|)
    requires forall i, j {:trigger cl[i], cl[j]} :: 0 <= i < j < |cl| ==> cl[i].v != cl[j].v
    requires |tomerge| != 1 && (tomerge == [] ==> forall v :: v in VarsOf(cl) ==> table[v].None?)
    ensures |Placed(table')| >= |Placed(table)| + if tomerge == [] then 2 else 0
  {
    PlacedGrows(table, table', VarsOf(cl), c);
    if tomerge == [] {
      var a, b := cl[0].v, cl[1].v;
      assert cl[0] in cl && cl[1] in cl;
      assert a in VarsOf(cl) && b in VarsOf(cl);
      var more := Placed(table) + {a, b};
      assert |more| == |Placed(table)| + 2;
      assert more <= Placed(table');
      SubsetSize(more, Placed(table'));
    }
  }

  // ----- clauses -----

  ghost predicate LitsFit(cl: seq<Lit>, n: nat) {
    && (forall l {:trigger l in cl} :: l in cl ==> l.v < n)
    && forall i, j {:trigger cl[i], cl[j]} :: 0 <= i < j < |cl| ==> cl[i].v != cl[j].v
  }

  ghost predicate ClauseFits(cl: seq<Lit>, n: nat) {
    |cl| > 1 && LitsFit(cl, n)
  }

  ghost function ClauseEdges(cs: seq<seq<Lit>>): iset<Edge> {
    iset k | 0 <= k < |cs| :: VarsOf(cs[k])
  }

  lemma EdgesNext(cs: seq<seq<Lit>>, k: nat)
    requires k < |cs|
    ensures ClauseEdges(cs[..k + 1]) == ClauseEdges(cs[..k]) + iset{VarsOf(cs[k])}
  {
    assert cs[..k + 1][k] == cs[k];
    forall q | 0 <= q < k
      ensures cs[..k + 1][q] == cs[..k][q]
    {
    }
  }

  lemma EdgesUpTo(cs: seq<seq<Lit>>, k: nat)
    requires k <= |cs|
    ensures ClauseEdges(cs[..k]) <= ClauseEdges(cs)
  {
    assert forall q :: 0 <= q < k ==> cs[..k][q] == cs[q];
  }

  // ----- binary clauses -----

  /** Irredundant binary clauses are in both lists and have two variables. */
  ghost predicate BinsFit(ws: WatchLists, n: nat) {
    forall l: Lit, l2: Lit {:trigger Bin(l2, false) in W(ws, l)} ::
      Bin(l2, false) in W(ws, l) ==> l.v < n && l2.v < n && l.v != l2.v && Bin(l, false) in W(ws, l2)
  }

  ghost function BinEdges(ws: WatchLists): iset<Edge> {
    iset l: Lit, l2: Lit | Bin(l2, false) in W(ws, l) :: {l.v, l2.v}
  }

  /** The variables of the later literals that `lit` shares a binary clause with. */
  function Partners(lit: Lit, l: seq<Watched>): set<nat> {
    set w | w in l && w.Bin? && !w.red && ToInt(lit) < ToInt(w.lit2) :: w.lit2.v
  }

  function Group1(ws: WatchLists, x: nat, signs: nat): set<nat> {
    (if signs > 0 then Partners(Lit(x, false), W(ws, Lit(x, false))) else {})
      + (if signs > 1 then Partners(Lit(x, true), W(ws, Lit(x, true))) else {})
  }

  function Group(ws: WatchLists, x: nat): set<nat> {
    {x} + Group1(ws, x, 2)
  }

  ghost function GroupEdges(ws: WatchLists, n: nat): iset<Edge> {
    iset x: nat | x < n && Group(ws, x) != {x} :: Group(ws, x)
  }

  lemma PartnersNext(lit: Lit, l: seq<Watched>, k: nat)
    requires k < |l|
    ensures Partners(lit, l[..k + 1]) == Partners(lit, l[..k]) + if l[k].Bin? && !l[k].red
      && ToInt(lit) < ToInt(l[k].lit2) then {l[k].lit2.v} else {}
  {
    assert l[..k + 1] == l[..k] + [l[k]];
  }

  lemma GroupNext(ws: WatchLists, x: nat, sign: nat)
    requires sign < 2
    ensures Group1(ws, x, sign + 1) == Group1(ws, x, sign) + Partners(Lit(x, sign == 1), W(ws, Lit(x, sign == 1)))
  {
  }

  lemma GroupWhole(ws: WatchLists, x: nat)
    ensures Group(ws, x) == {x} + Group1(ws, x, 2)
  {
  }

  lemma NoPartners(lit: Lit, l: seq<Watched>)
    ensures Partners(lit, l[..0]) == {}
  {
  }

  lemma BinFits(ws: WatchLists, n: nat, l: Lit, w: Watched)
    requires BinsFit(ws, n) && w in W(ws, l) && w.Bin? && !w.red
    ensures w.lit2.v < n && w.lit2.v != l.v
  {
    assert w == Bin(w.lit2, false);
  }

  lemma FreshLit(lits: seq<Lit>, l: Lit, n: nat)
    requires l.v !in VarsOf(lits) && LitsFit(lits, n) && l.v < n
    ensures LitsFit(lits + [l], n) && VarsOf(lits + [l]) == VarsOf(lits) + {l.v}
  {
    forall i | 0 <= i < |lits|
      ensures lits[i].v != l.v
    {
      assert lits[i] in lits;
    }
  }

  lemma GroupSize(ws: WatchLists, x: nat, lits: seq<Lit>, n: nat)
    requires lits != [] && VarsOf(lits) == Group(ws, x) && (|lits| > 1 ==> ClauseFits(lits, n))
    ensures Group(ws, x) == {x} <==> |lits| == 1
  {
    if |lits| == 1 {
      assert lits == [lits[0]];
      assert VarsOf(lits) == {lits[0].v};
      assert x in Group(ws, x);
    } else {
      assert lits[0] in lits && lits[1] in lits;
      assert lits[0].v in VarsOf(lits) && lits[1].v in VarsOf(lits);
    }
  }

  lemma GroupEdgesNext(ws: WatchLists, x: nat)
    ensures GroupEdges(ws, x + 1) == GroupEdges(ws, x) + if Group(ws, x) != {x} then iset{Group(ws, x)} else iset{}
  {
    hide Group;
    var es := GroupEdges(ws, x) + if Group(ws, x) != {x} then iset{Group(ws, x)} else iset{};
    forall g
      ensures g in GroupEdges(ws, x + 1) <==> g in es
    {
      if g in GroupEdges(ws, x + 1) {
        var y: nat :| y < x + 1 && Group(ws, y) != {y} && g == Group(ws, y);
        assert y < x || y == x;
      }
      if g in GroupEdges(ws, x) {
        var y: nat :| y < x && Group(ws, y) != {y} && g == Group(ws, y);
        assert y < x + 1;
      }
    }
  }

  /** Adding the groups connects the same variables as adding the binary clauses. */
  lemma SameEdges(long: iset<Edge>, ws: WatchLists, n: nat)
    requires BinsFit(ws, n)
    ensures forall x: nat :: Occurs(long + GroupEdges(ws, n), x) <==> Occurs(long + BinEdges(ws), x)
    ensures forall x: nat, y: nat :: Connected(long + GroupEdges(ws, n), x, y) <==> Connected(long + BinEdges(ws), x, y)
  {
    forall s: iset<nat>
      ensures ClosedUnder(long + GroupEdges(ws, n), s) <==> ClosedUnder(long + BinEdges(ws), s)
    {
      if ClosedUnder(long + GroupEdges(ws, n), s) {
        GroupsCloseBins(long, ws, n, s);
      }
      if ClosedUnder(long + BinEdges(ws), s) {
        BinsCloseGroups(long, ws, n, s);
      }
    }
    forall x: nat
      ensures Occurs(long + GroupEdges(ws, n), x) <==> Occurs(long + BinEdges(ws), x)
    {
      SameOccur(long, ws, n, x);
    }
  }

  lemma BinInGroup(ws: WatchLists, n: nat, l: Lit, l2: Lit) returns (x: nat)
    requires BinsFit(ws, n) && Bin(l2, false) in W(ws, l)
    ensures x < n && l.v in Group(ws, x) && l2.v in Group(ws, x) && Group(ws, x) in GroupEdges(ws, n)
  {
    var a, b := if ToInt(l) < ToInt(l2) then l else l2, if ToInt(l) < ToInt(l2) then l2 else l;
    assert Bin(b, false) in W(ws, a);
    x := a.v;
    assert b.v in Partners(a, W(ws, a));
    assert a == Lit(x, a.sign);
    assert b.v in Group(ws, x) && b.v != x;
  }

  lemma GroupMember(ws: WatchLists, x: nat, v: nat) returns (l: Lit, l2: Lit)
    requires v in Group(ws, x) && v != x
    ensures l.v == x && l2.v == v && Bin(l2, false) in W(ws, l)
  {
    if v in Partners(Lit(x, false), W(ws, Lit(x, false))) {
      l := Lit(x, false);
    } else {
      l := Lit(x, true);
    }
    var w :| w in W(ws, l) && w.Bin? && !w.red && ToInt(l) < ToInt(w.lit2) && w.lit2.v == v;
    l2 := w.lit2;
    assert w == Bin(l2, false);
  }

  lemma GroupsCloseBins(long: iset<Edge>, ws: WatchLists, n: nat, s: iset<nat>)
    requires BinsFit(ws, n) && ClosedUnder(long + GroupEdges(ws, n), s)
    ensures ClosedUnder(long + BinEdges(ws), s)
  {
    hide Group, GroupEdges;
    forall e, v, w | e in long + BinEdges(ws) && v in e && w in e && v in s
      ensures w in s
    {
      if e !in long {
        var l: Lit, l2: Lit :| Bin(l2, false) in W(ws, l) && e == {l.v, l2.v};
        var x := BinInGroup(ws, n, l, l2);
        assert Group(ws, x) in long + GroupEdges(ws, n);
      }
    }
  }

  lemma BinsCloseGroups(long: iset<Edge>, ws: WatchLists, n: nat, s: iset<nat>)
    requires BinsFit(ws, n) && ClosedUnder(long + BinEdges(ws), s)
    ensures ClosedUnder(long + GroupEdges(ws, n), s)
  {
    forall e, v, w | e in long + GroupEdges(ws, n) && v in e && w in e && v in s
      ensures w in s
    {
      if e !in long {
        var x: nat :| x < n && Group(ws, x) != {x} && e == Group(ws, x);
        if v != x {
          var l, l2 := GroupMember(ws, x, v);
          assert {l.v, l2.v} in BinEdges(ws);
          assert {l.v, l2.v} in long + BinEdges(ws);
          assert x in s;
        }
        if w != x {
          var l, l2 := GroupMember(ws, x, w);
          assert {l.v, l2.v} in BinEdges(ws);
          assert {l.v, l2.v} in long + BinEdges(ws);
        }
      }
    }
  }

  lemma SameOccur(long: iset<Edge>, ws: WatchLists, n: nat, x: nat)
    requires BinsFit(ws, n)
    ensures Occurs(long + GroupEdges(ws, n), x) <==> Occurs(long + BinEdges(ws), x)
  {
    if Occurs(long + BinEdges(ws), x) {
      var e :| e in long + BinEdges(ws) && x in e;
      if e !in long {
        var l: Lit, l2: Lit :| Bin(l2, false) in W(ws, l) && e == {l.v, l2.v};
        var g := BinInGroup(ws, n, l, l2);
        assert Group(ws, g) in long + GroupEdges(ws, n) && x in Group(ws, g);
      } else {
        assert e in long + GroupEdges(ws, n);
      }
    }
    if Occurs(long + GroupEdges(ws, n), x) {
      var e :| e in long + GroupEdges(ws, n) && x in e;
      if e !in long {
        var g: nat :| g < n && Group(ws, g) != {g} && e == Group(ws, g);
        var v :| v in Group(ws, g) && (v == x || x == g) && v != g;
        var l, l2 := GroupMember(ws, g, v);
        assert {l.v, l2.v} in BinEdges(ws);
        assert {l.v, l2.v} in long + BinEdges(ws) && x in {l.v, l2.v};
      } else {
        assert e in long + BinEdges(ws);
      }
    }
  }
}
