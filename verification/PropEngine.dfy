/**
 Unit propagation with two watched literals per clause, and the undoing of decision levels.
 (cryptoms/propengine.cpp, cryptoms/propengine.h, cryptoms/searcher.cpp)
 */
module PropEngine {
  import opened Literals
  import opened Watches
  import opened UnitClosure
  import opened Trail
  import opened WatchTheory
  import opened Reasons

  class PropEngine {
    const nVars: nat
    var assigns: Assigns
    var level: map<nat, nat>
    var reason: map<nat, Reason>
    var trail: seq<Lit>
    var trailLim: seq<nat>
    var qhead: nat
    var watches: WatchLists
    var cls: Clauses
    var failBinLit: Lit
    /** The watch lists; while one of them is being compacted, with the hole in it closed. */
    ghost var lists: WatchLists
    /** As many literals at the beginning of the trail are facts whose reasons need not be there any more. */
    ghost var facts: nat

    ghost predicate TrailValid()
      reads `trail, `trailLim, `assigns, `level
    {
      TrailOk(trail, trailLim, assigns, level, nVars)
    }

    /** Each long clause sits exactly in the lists of its first two literals, each binary one in both. */
    ghost predicate ListsValid()
      reads `cls, `lists
    {
      ClausesOk(cls) && TwoWatched(lists, cls) && LitsBelow(lists, cls, nVars) && Symmetric(lists)
        && BlockedOk(lists, cls)
    }

    /** The clauses being propagated. */
    ghost function Db(): Formula
      reads `cls, `lists
    {
      Clauses2(lists, cls)
    }

    /** The binary clauses among them, the irredundant and the redundant ones. */
    ghost function Binaries(): (Formula, Formula)
      reads `lists
    {
      BinKinds(lists)
    }

    ghost predicate ReasonsValid()
      reads `trail, `trailLim, `reason, `cls, `lists, `facts
    {
      facts <= |trail| && (forall k :: 0 <= k < |trailLim| ==> facts <= trailLim[k])
        && ReasonsOk(Db(), lists, cls, trail, reason, facts)
    }

    ghost predicate Structure()
      reads `trail, `trailLim, `assigns, `level, `reason, `cls, `lists, `facts
    {
      TrailValid() && ListsValid() && ReasonsValid()
    }

    /** The watch promise for falsified literals at positions below `q`, at levels below `lv`. */
    ghost predicate Promise(q: nat, lv: nat)
      reads `trail, `assigns, `level, `cls, `lists
    {
      Good(lists, cls, trail, assigns, level, q, lv)
    }

    ghost predicate Settled()
      reads `watches, `lists
    {
      watches == lists
    }

    /** The state between two calls: promises kept up to `qhead`, and only the current level still to propagate. */
    ghost predicate Valid()
      reads `trail, `trailLim, `assigns, `level, `reason, `cls, `lists, `facts, `watches, `qhead
    {
      && Structure() && Settled() && qhead <= |trail| && Promise(qhead, |trailLim| + 1)
      && (forall k :: 0 <= k < |trailLim| ==> trailLim[k] <= qhead)
    }

    ghost predicate ConflictOk(confl: Conflict)
      reads `assigns, `cls, `lists, `failBinLit
    {
      match confl
      case BinConfl(k) => {k, failBinLit} in Db() && Value(assigns, k) == False && Value(assigns, failBinLit) == False
      case LongConfl(off) =>
        off in cls && Lits(cls[off]) in Db() && forall l :: l in cls[off] ==> Value(assigns, l) == False
    }

    // ----- setting a literal -----

    method SetLit(l: Lit, r: Reason)
      modifies this`assigns, this`level, this`reason, this`trail
      ensures assigns == old(assigns)[l.v := !l.sign] && level == old(level)[l.v := |trailLim|]
      ensures reason == old(reason)[l.v := r] && trail == old(trail) + [l]
    {
      assigns := assigns[l.v := !l.sign];
      level := level[l.v := |trailLim|];
      reason := reason[l.v := r];
      trail := trail + [l];
    }

    method Enqueue(l: Lit, r: Reason)
      requires Structure() && Value(assigns, l) == Undef && l.v < nVars
      requires ReasonOk(Db(), lists, cls, trail + [l], reason[l.v := r], |trail|)
      modifies this`assigns, this`level, this`reason, this`trail
      ensures Structure() && trail == old(trail) + [l] && Value(assigns, l) == True && l.v in reason && reason[l.v] == r
      ensures assigns == old(assigns)[l.v := !l.sign] && level == old(level)[l.v := |trailLim|]
        && reason == old(reason)[l.v := r]
      ensures forall q: nat, lv: nat :: q <= old(|trail|) && old(Promise(q, lv)) ==> Promise(q, lv)
    {
      hide TrailOk, ClausesOk, TwoWatched, LitsBelow, Symmetric, BlockedOk, Good, ReasonsOk, ReasonOk, Clauses2,
        BinKinds;
      EnqueueReady(l, r);
      SetLit(l, r);
    }

    lemma EnqueueReady(l: Lit, r: Reason)
      requires Structure() && Value(assigns, l) == Undef && l.v < nVars
      requires ReasonOk(Db(), lists, cls, trail + [l], reason[l.v := r], |trail|)
      ensures TrailOk(trail + [l], trailLim, assigns[l.v := !l.sign], level[l.v := |trailLim|], nVars)
      ensures ReasonsOk(Db(), lists, cls, trail + [l], reason[l.v := r], facts)
      ensures forall q: nat, lv: nat {:trigger Good(lists, cls, trail, assigns, level, q, lv)} ::
        q <= |trail| && Good(lists, cls, trail, assigns, level, q, lv) ==>
        Good(lists, cls, trail + [l], assigns[l.v := !l.sign], level[l.v := |trailLim|], q, lv)
    {
      TrailGrows(trail, trailLim, assigns, level, nVars, l);
      var trail' := trail + [l];
      var reason' := reason[l.v := r];
      forall i | 0 <= i < |trail|
        ensures Value(assigns, trail[i]) == True
      {
        assert EntryOk(trail, trailLim, assigns, level, nVars, i);
      }
      forall i | facts <= i < |trail'|
        ensures ReasonOk(Db(), lists, cls, trail', reason', i)
      {
        if i < |trail| {
          assert ReasonOk(Db(), lists, cls, trail, reason, i);
          assert trail'[..i] == trail[..i];
          assert Value(assigns, trail[i]) == True;
        }
      }
      forall q: nat, lv: nat | q <= |trail| && Good(lists, cls, trail, assigns, level, q, lv)
        ensures Good(lists, cls, trail', assigns[l.v := !l.sign], level[l.v := |trailLim|], q, lv)
      {
        GoodGrows(lists, cls, trail, assigns, level, q, lv, l, |trailLim|);
      }
    }

    // ----- rewriting a list -----

    /** List `np` is being compacted: `j` entries kept, `i` read. All other lists are as they are. */
    ghost predicate ScanOk(np: Lit, i: nat, j: nat)
      reads `watches, `lists
    {
      np in watches && j <= i <= |watches[np]| && lists == watches[np := View(watches[np], i, j)]
    }

    /** The promises kept so far are those of the literals before position `h`, where the scanned literal stands. */
    ghost predicate Scanning(h: nat, np: Lit, i: nat, j: nat)
      reads `trail, `trailLim, `assigns, `level, `reason, `cls, `lists, `facts, `watches
    {
      && Structure() && ScanOk(np, i, j)
      && h < |trail| && trail[h] == np.Neg() && np.v in level && level[np.v] == |trailLim|
      && Promise(h, |trailLim| + 1)
    }

    lemma Rewired(ws': WatchLists, cls': Clauses, h: nat, np: Lit)
      requires Structure() && SameBins(lists, ws') && SameClauses(cls, cls')
      requires h < |trail| && trail[h] == np.Neg() && Promise(h, |trailLim| + 1)
      requires forall l :: Value(assigns, l) == False && l != np ==> W(ws', l) == W(lists, l)
      ensures LitsBelow(ws', cls', nVars) && Symmetric(ws') && Clauses2(ws', cls') == Db()
        && BinKinds(ws') == Binaries()
      ensures ReasonsOk(Clauses2(ws', cls'), ws', cls', trail, reason, facts)
      ensures Good(ws', cls', trail, assigns, level, h, |trailLim| + 1)
    {
      LitsBelowKeep(lists, ws', cls, cls', nVars);
      RewiringKeeps(lists, ws', cls, cls', trail, reason, facts);
      forall i | 0 <= i < h
        ensures W(ws', trail[i].Neg()) == W(lists, trail[i].Neg())
      {
        assert EntryOk(trail, trailLim, assigns, level, nVars, i);
        assert trail[i].v != trail[h].v;
      }
      GoodRewired(lists, cls, ws', cls', trail, assigns, level, h, |trailLim| + 1);
    }

    method SetList(np: Lit, ws: seq<Watched>, ghost view: WatchLists)
      modifies this`watches, this`lists
      ensures watches == old(watches)[np := ws] && lists == view
    {
      watches := watches[np := ws];
      lists := view;
    }

    /** Entry `i` is kept, with `w` in place of it. */
    method KeepEntry(ghost h: nat, np: Lit, i: nat, j: nat, w: Watched)
      requires Scanning(h, np, i, j) && i < |watches[np]|
      requires w == watches[np][i]
        || (watches[np][i].Long? && w.Long? && w.off == watches[np][i].off && w.off in cls && w.blocked in cls[w.off])
      modifies this`watches, this`lists
      ensures Scanning(h, np, i + 1, j + 1)
      ensures Db() == old(Db()) && Binaries() == old(Binaries())
      ensures |watches[np]| == old(|watches[np]|) && watches[np][i + 1..] == old(watches[np][i + 1..])
      ensures watches[np][..j + 1] == old(watches[np][..j]) + [w]
    {
      hide TrailOk, ClausesOk, TwoWatched, LitsBelow, Symmetric, Good, ReasonsOk, Clauses2, BinKinds, View, Bins,
        LongOffs,
        SameBins, SameClauses, BlockedOk;
      var ws := watches[np];
      ViewKeep(ws, i, j, w);
      SameClausesRefl(cls);
      SameBinsRefl(lists);
      ghost var view := lists[np := ws[..j] + [w] + ws[i + 1..]];
      if w == ws[i] {
        assert view == lists;
      } else {
        RelabelKeeps(lists, cls, np, ws[..j], ws[i], w, ws[i + 1..]);
        BlockedRelabelled(lists, cls, np, ws[..j], ws[i], w, ws[i + 1..]);
      }
      Rewired(view, cls, h, np);
      SetList(np, ws[j := w], view);
    }

    // ----- the scan of one list -----

    /** The false literal is brought to position 1 of its clause. */
    method SwapWatched(ghost h: nat, np: Lit, i: nat, j: nat, off: nat)
      requires Scanning(h, np, i, j) && WatchesLit(cls, off, np) && ListGood(watches[np][..j], cls, assigns, level, np)
      modifies this`cls
      ensures Scanning(h, np, i, j) && Db() == old(Db()) && Binaries() == old(Binaries())
        && ListGood(watches[np][..j], cls, assigns, level, np)
      ensures cls == old(cls)[off := FalseLitSecond(old(cls)[off], np)] && ClauseOk(cls[off]) && cls[off][1] == np
      ensures multiset(cls[off]) == multiset(old(cls[off])) && SameClauses(old(cls), cls)
    {
      hide TrailOk, TwoWatched, LitsBelow, Symmetric, Good, ReasonsOk, Clauses2, BinKinds, View, Bins, LongOffs,
        SameBins,
        SameClauses, BlockedOk, ListGood;
      ghost var cls' := cls[off := FalseLitSecond(cls[off], np)];
      SwapKeeps(cls[off], np);
      SwapKeepsTwoWatched(lists, cls, off, np);
      SameBinsRefl(lists);
      BlockedPermuted(lists, cls, cls');
      ListGoodPermuted(watches[np][..j], cls, cls', assigns, level, np);
      Rewired(lists, cls', h, np);
      cls := cls[off := FalseLitSecond(cls[off], np)];
    }

    method SetMoved(q: Lit, ws: seq<Watched>, off: nat, c: seq<Lit>, ghost view: WatchLists)
      modifies this`watches, this`lists, this`cls
      ensures watches == old(watches)[q := ws] && lists == view && cls == old(cls)[off := c]
    {
      watches := watches[q := ws];
      lists := view;
      cls := cls[off := c];
    }

    /** The clause of entry `i` is watched from now on by its literal at `k`, which is not false. */
    method MoveWatch(ghost h: nat, np: Lit, i: nat, j: nat, off: nat, k: nat)
      requires Scanning(h, np, i, j) && i < |watches[np]| && watches[np][i].Long? && watches[np][i].off == off
      requires off in cls && ClauseOk(cls[off]) && cls[off][1] == np && 2 <= k < |cls[off]|
        && Value(assigns, cls[off][k]) != False
      requires Value(assigns, np) == False && ListGood(watches[np][..j], cls, assigns, level, np)
      modifies this`watches, this`lists, this`cls
      ensures Scanning(h, np, i + 1, j) && Db() == old(Db()) && Binaries() == old(Binaries())
        && SameClauses(old(cls), cls)
        && watches[np] == old(watches[np])
      ensures ListGood(watches[np][..j], cls, assigns, level, np)
    {
      hide TrailOk, TwoWatched, LitsBelow, Symmetric, Good, ReasonsOk, Clauses2, BinKinds, View, Bins, LongOffs,
        SameBins,
        SameClauses, BlockedOk, ListGood, ClausesOk;
      var ws := watches[np];
      var c := cls[off];
      var q := c[k];
      var c' := c[1 := q][k := np];
      var w := Long(off, c[0]);
      ghost var view := lists[np := ws[..j] + ws[i + 1..]][q := W(lists, q) + [w]];
      ViewKeep(ws, i, j, ws[i]);
      MoveEntry(lists, cls, np, ws[..j], ws[i], ws[i + 1..], k, c[0]);
      BlockedMoved(lists, cls, np, ws[..j], ws[i], ws[i + 1..], k);
      ListGoodPermuted(ws[..j], cls, cls[off := c'], assigns, level, np);
      Rewired(view, cls[off := c'], h, np);
      assert W(watches, q) == W(lists, q);
      SetMoved(q, W(watches, q) + [w], off, c', view);
      assert watches[np := View(watches[np], i + 1, j)] == lists;
    }

    /** Whatever is true now was set no later than the literal being propagated. */
    lemma TrueNow(t: Lit, np: Lit)
      requires TrailValid() && Value(assigns, t) == True && np.v in level && level[np.v] == |trailLim|
      ensures TrueBy(assigns, level, np, t)
    {
      var i := OnTrail(trail, trailLim, assigns, level, nVars, t);
    }

    /** An enqueue keeps the promises of the part of the list that has been read. */
    method EnqueueWhileScanning(l: Lit, r: Reason, ghost h: nat, np: Lit, ghost i: nat, ghost j: nat, ghost g: nat)
      requires Scanning(h, np, i, j) && g <= j && Value(assigns, np) == False
        && ListGood(watches[np][..g], cls, assigns, level, np)
      requires Value(assigns, l) == Undef && l.v < nVars
      requires ReasonOk(Db(), lists, cls, trail + [l], reason[l.v := r], |trail|)
      modifies this`assigns, this`level, this`reason, this`trail
      ensures Scanning(h, np, i, j) && Value(assigns, np) == False
        && ListGood(watches[np][..g], cls, assigns, level, np)
      ensures trail == old(trail) + [l] && Value(assigns, l) == True && l.v in level && level[l.v] == |trailLim|
      ensures r != NoReason ==> Extends(old(trail), old(reason))
    {
      hide TrailOk, ClausesOk, TwoWatched, LitsBelow, Symmetric, BlockedOk, Good, ReasonsOk, ReasonOk, Clauses2,
        BinKinds,
        ListGood;
      ListGoodGrows(watches[np][..g], cls, assigns, level, np, l, |trailLim|);
      assert Promise(h, |trailLim| + 1);
      UndefNotOnTrail(l);
      Enqueue(l, r);
    }

    /** The long clause of entry `i` when its watch `np` has become false. */
    method ScanLong(ghost h: nat, np: Lit, i: nat, j: nat) returns (confl: Option<Conflict>, j': nat)
      requires Scanning(h, np, i, j) && i < |watches[np]| && watches[np][i].Long?
      requires Value(assigns, np) == False && ListGood(watches[np][..j], cls, assigns, level, np)
      modifies this`watches, this`lists, this`cls, this`assigns, this`level, this`reason, this`trail
      ensures Scanning(h, np, i + 1, j') && j <= j' <= j + 1 && Db() == old(Db()) && Binaries() == old(Binaries())
        && SameClauses(old(cls), cls)
      ensures Value(assigns, np) == False
      ensures |watches[np]| == old(|watches[np]|) && watches[np][i + 1..] == old(watches[np][i + 1..])
      ensures Extends(old(trail), old(reason))
      ensures confl.None? ==> ListGood(watches[np][..j'], cls, assigns, level, np)
      ensures confl.Some? ==> ConflictOk(confl.value) && trail == old(trail)
    {
      hide TrailOk, TwoWatched, LitsBelow, Symmetric, Good, ReasonsOk, ReasonOk, Clauses2, BinKinds, View, Bins,
        LongOffs,
        SameBins, SameClauses, BlockedOk, ListGood, ClausesOk, EntryGood, TrueBy;
      var off, blocked := watches[np][i].off, watches[np][i].blocked;
      EntryOfScan(np, i, j);
      confl := None;
      if Value(assigns, blocked) == True {
        SatisfiedEntry(np, off, blocked, blocked);
        SameClausesRefl(cls);
        KeepEntry(h, np, i, j, watches[np][i]);
        ListGoodNext(old(watches[np][..j]), Long(off, blocked), cls, assigns, level, np);
        return None, j + 1;
      }
      confl, j' := ScanClause(h, np, i, j);
    }

    /**
     Its blocked literal does not satisfy it: the first literal does, another watch is found, or it is unit or false.
     */
    method ScanClause(ghost h: nat, np: Lit, i: nat, j: nat) returns (confl: Option<Conflict>, j': nat)
      requires Scanning(h, np, i, j) && i < |watches[np]| && watches[np][i].Long?
      requires Value(assigns, watches[np][i].blocked) != True
      requires Value(assigns, np) == False && ListGood(watches[np][..j], cls, assigns, level, np)
      modifies this`watches, this`lists, this`cls, this`assigns, this`level, this`reason, this`trail
      ensures Scanning(h, np, i + 1, j') && j <= j' <= j + 1 && Db() == old(Db()) && Binaries() == old(Binaries())
        && SameClauses(old(cls), cls)
      ensures Value(assigns, np) == False
      ensures |watches[np]| == old(|watches[np]|) && watches[np][i + 1..] == old(watches[np][i + 1..])
      ensures Extends(old(trail), old(reason))
      ensures confl.None? ==> ListGood(watches[np][..j'], cls, assigns, level, np)
      ensures confl.Some? ==> ConflictOk(confl.value) && trail == old(trail)
    {
      hide TrailOk, TwoWatched, LitsBelow, Symmetric, Good, ReasonsOk, ReasonOk, Clauses2, BinKinds, View, Bins,
        LongOffs,
        SameBins, SameClauses, BlockedOk, ListGood, ClausesOk, EntryGood, TrueBy;
      var off, blocked := watches[np][i].off, watches[np][i].blocked;
      EntryOfScan(np, i, j);
      confl := None;
      SwapWatched(h, np, i, j, off);
      var c := cls[off];
      var first := c[0];
      var w := Long(off, first);
      if first != blocked && Value(assigns, first) == True {
        SatisfiedEntry(np, off, first, first);
        KeepEntry(h, np, i, j, w);
        ListGoodNext(old(watches[np][..j]), w, cls, assigns, level, np);
        return None, j + 1;
      }
      ghost var cls1 := cls;
      confl, j' := Rewatch(h, np, i, j, off);
      SameClausesTrans(old(cls), cls1, cls);
    }

    /** Another literal that is not false is watched instead of `np`; without one the clause is unit or false. */
    method Rewatch(ghost h: nat, np: Lit, i: nat, j: nat, off: nat) returns (confl: Option<Conflict>, j': nat)
      requires Scanning(h, np, i, j) && i < |watches[np]| && watches[np][i].Long? && watches[np][i].off == off
      requires Value(assigns, np) == False && ListGood(watches[np][..j], cls, assigns, level, np)
      requires off in cls && ClauseOk(cls[off]) && cls[off][1] == np && Value(assigns, cls[off][0]) != True
      modifies this`watches, this`lists, this`cls, this`assigns, this`level, this`reason, this`trail
      ensures Scanning(h, np, i + 1, j') && j <= j' <= j + 1 && Db() == old(Db()) && Binaries() == old(Binaries())
        && SameClauses(old(cls), cls)
      ensures Value(assigns, np) == False
      ensures |watches[np]| == old(|watches[np]|) && watches[np][i + 1..] == old(watches[np][i + 1..])
      ensures Extends(old(trail), old(reason))
      ensures confl.None? ==> ListGood(watches[np][..j'], cls, assigns, level, np)
      ensures confl.Some? ==> ConflictOk(confl.value) && trail == old(trail)
    {
      hide TrailOk, TwoWatched, LitsBelow, Symmetric, Good, ReasonsOk, ReasonOk, Clauses2, BinKinds, View, Bins,
        LongOffs,
        SameBins, SameClauses, BlockedOk, ListGood, ClausesOk, EntryGood, TrueBy;
      var k := FindNewWatch(cls[off], assigns);
      if k < |cls[off]| {
        MoveWatch(h, np, i, j, off, k);
        return None, j;
      }
      SameClausesRefl(cls);
      confl := UnitOrConflict(h, np, i, j, off);
      j' := j + 1;
    }

    /** All literals but the first are false: the first is enqueued, or the clause is falsified. */
    method UnitOrConflict(ghost h: nat, np: Lit, i: nat, j: nat, off: nat) returns (confl: Option<Conflict>)
      requires Scanning(h, np, i, j) && i < |watches[np]| && watches[np][i].Long? && watches[np][i].off == off
      requires Value(assigns, np) == False && ListGood(watches[np][..j], cls, assigns, level, np)
      requires off in cls && |cls[off]| > 0
        && forall l :: l in cls[off] && l != cls[off][0] ==> Value(assigns, l) == False
      requires Value(assigns, cls[off][0]) != True
      modifies this`watches, this`lists, this`assigns, this`level, this`reason, this`trail
      ensures Scanning(h, np, i + 1, j + 1) && Db() == old(Db()) && Binaries() == old(Binaries())
        && Value(assigns, np) == False
      ensures |watches[np]| == old(|watches[np]|) && watches[np][i + 1..] == old(watches[np][i + 1..])
      ensures Extends(old(trail), old(reason))
      ensures confl.None? ==> ListGood(watches[np][..j + 1], cls, assigns, level, np)
      ensures confl.Some? ==> ConflictOk(confl.value) && trail == old(trail)
    {
      hide TrailOk, TwoWatched, LitsBelow, Symmetric, Good, ReasonsOk, ReasonOk, Clauses2, BinKinds, View, Bins,
        LongOffs,
        SameBins, SameClauses, BlockedOk, ListGood, ClausesOk, EntryGood, TrueBy;
      var l := cls[off][0];
      var w := Long(off, l);
      assert l in cls[off];
      ghost var kept := watches[np][..j];
      KeepEntry(h, np, i, j, w);
      assert watches[np][..j] == watches[np][..j + 1][..j] == kept;
      confl := None;
      if Value(assigns, l) == False {
        FalseClause(off);
        confl := Some(LongConfl(off));
      } else {
        UnitClause(off, np);
        EnqueueWhileScanning(l, LongReason(off), h, np, i + 1, j + 1, j);
        SatisfiedEntry(np, off, l, l);
        ListGoodNext(kept, w, cls, assigns, level, np);
      }
    }

    lemma UndefNotOnTrail(l: Lit)
      requires TrailValid() && Value(assigns, l) == Undef
      ensures forall i :: 0 <= i < |trail| ==> trail[i].v != l.v
    {
      forall i | 0 <= i < |trail|
        ensures trail[i].v != l.v
      {
        assert EntryOk(trail, trailLim, assigns, level, nVars, i);
      }
    }

    lemma EntryOfScan(np: Lit, i: nat, j: nat)
      requires ListsValid() && ScanOk(np, i, j) && i < |watches[np]| && watches[np][i].Long?
      ensures WatchesLit(cls, watches[np][i].off, np) && ClauseOk(cls[watches[np][i].off])
      ensures watches[np][i].blocked in cls[watches[np][i].off]
    {
      assert W(lists, np)[j] == watches[np][i];
      assert watches[np][i] in W(lists, np);
      EntryWatches(lists, cls, np, j);
    }

    /** An entry whose clause contains a literal that is true now is good. */
    lemma SatisfiedEntry(np: Lit, off: nat, t: Lit, blocked: Lit)
      requires TrailValid() && np.v in level && level[np.v] == |trailLim|
      requires off in cls && t in cls[off] && Value(assigns, t) == True
      ensures EntryGood(cls, assigns, level, np, Long(off, blocked))
    {
      TrueNow(t, np);
    }

    lemma FalseClause(off: nat)
      requires off in cls && forall l :: l in cls[off] ==> Value(assigns, l) == False
      ensures ConflictOk(LongConfl(off))
    {
      assert Lits(cls[off]) in LongClauses(cls);
    }

    /** A clause with all literals false but its first is a reason for that literal. */
    lemma UnitClause(off: nat, np: Lit)
      requires Structure() && off in cls && Value(assigns, cls[off][0]) == Undef
      requires forall l :: l in cls[off] && l != cls[off][0] ==> Value(assigns, l) == False
      ensures ReasonOk(Db(), lists, cls, trail + [cls[off][0]], reason[cls[off][0].v := LongReason(off)], |trail|)
      ensures cls[off][0].v < nVars
    {
      var l := cls[off][0];
      assert l in cls[off];
      assert Lits(cls[off]) in LongClauses(cls);
      forall k | k in cls[off] && k != l
        ensures k.Neg() in (trail + [l])[..|trail|]
      {
        var i := OnTrail(trail, trailLim, assigns, level, nVars, k.Neg());
        assert (trail + [l])[..|trail|] == trail;
      }
    }

    /** The trail has only grown, the new literals have reasons and the old ones keep theirs. */
    ghost predicate Extends(trail0: seq<Lit>, reason0: map<nat, Reason>)
      reads `trail, `reason
    {
      && |trail0| <= |trail| && trail0 <= trail
      && (forall i {:trigger trail[i]} ::
        |trail0| <= i < |trail| ==> trail[i].v in reason && reason[trail[i].v] != NoReason)
      && forall i {:trigger trail0[i]} :: 0 <= i < |trail0| && trail0[i].v in reason0 ==>
           trail0[i].v in reason && reason[trail0[i].v] == reason0[trail0[i].v]
    }

    lemma ExtendsRefl()
      ensures Extends(trail, reason)
    {
    }

    lemma ExtendsTrans(trail0: seq<Lit>, reason0: map<nat, Reason>, trail1: seq<Lit>, reason1: map<nat, Reason>)
      requires Extends(trail1, reason1) && |trail0| <= |trail1| && trail0 <= trail1
      requires forall i {:trigger trail1[i]} ::
        |trail0| <= i < |trail1| ==> trail1[i].v in reason1 && reason1[trail1[i].v] != NoReason
      requires forall i {:trigger trail0[i]} :: 0 <= i < |trail0| && trail0[i].v in reason0 ==>
        trail0[i].v in reason1 && reason1[trail0[i].v] == reason0[trail0[i].v]
      ensures Extends(trail0, reason0)
    {
      forall i | 0 <= i < |trail|
        ensures i < |trail1| ==> trail[i] == trail1[i]
        ensures i < |trail0| ==> trail1[i] == trail0[i]
      {
      }
    }

    /** The binary clause of entry `i` when its literal `np` has become false. */
    method ScanBin(ghost h: nat, np: Lit, i: nat, j: nat) returns (confl: Option<Conflict>)
      requires Scanning(h, np, i, j) && i < |watches[np]| && watches[np][i].Bin?
      requires Value(assigns, np) == False && ListGood(watches[np][..j], cls, assigns, level, np)
      modifies this`watches, this`lists, this`assigns, this`level, this`reason, this`trail, this`failBinLit
      ensures Scanning(h, np, i + 1, j + 1) && Db() == old(Db()) && Binaries() == old(Binaries())
        && Value(assigns, np) == False
      ensures |watches[np]| == old(|watches[np]|) && watches[np][i + 1..] == old(watches[np][i + 1..])
      ensures Extends(old(trail), old(reason))
      ensures confl.None? ==> ListGood(watches[np][..j + 1], cls, assigns, level, np)
      ensures confl.Some? ==> ConflictOk(confl.value) && trail == old(trail)
    {
      hide TrailOk, TwoWatched, LitsBelow, Symmetric, Good, ReasonsOk, ReasonOk, Clauses2, BinKinds, View, Bins,
        LongOffs,
        SameBins, SameClauses, BlockedOk, ListGood, ClausesOk, TrueBy;
      var w := watches[np][i];
      var l := w.lit2;
      BinOfScan(np, i, j);
      ghost var kept := watches[np][..j];
      KeepEntry(h, np, i, j, w);
      assert watches[np][..j] == watches[np][..j + 1][..j] == kept;
      confl := None;
      if Value(assigns, l) == Undef {
        BinReasonOk(h, np, l, w.red);
        EnqueueWhileScanning(l, BinReason(np, w.red), h, np, i + 1, j + 1, j);
        TrueNow(l, np);
        ListGoodNext(kept, w, cls, assigns, level, np);
      } else if Value(assigns, l) == False {
        failBinLit := l;
        confl := Some(BinConfl(np));
      } else {
        TrueNow(l, np);
        ListGoodNext(kept, w, cls, assigns, level, np);
      }
    }

    lemma BinOfScan(np: Lit, i: nat, j: nat)
      requires ListsValid() && ScanOk(np, i, j) && i < |watches[np]| && watches[np][i].Bin?
      ensures watches[np][i].lit2.v < nVars && {np, watches[np][i].lit2} in Db()
    {
      var w := watches[np][i];
      assert W(lists, np)[j] == w;
      assert w in W(lists, np) && w == Bin(w.lit2, w.red);
      assert {np, w.lit2} in BinClauses(lists, w.red);
    }

    lemma BinReasonOk(h: nat, np: Lit, l: Lit, red: bool)
      requires h < |trail| && trail[h] == np.Neg() && {np, l} in Db()
      ensures ReasonOk(Db(), lists, cls, trail + [l], reason[l.v := BinReason(np, red)], |trail|)
    {
      assert (trail + [l])[..|trail|] == trail;
      assert {l, np} == {np, l};
    }

    /**
     The list of the literal falsified by trail position `h`. Every entry is met, kept or moved; after a
     conflict the rest is copied down unread. The list is then cut to its new length.
     */
    method ScanList(h: nat) returns (confl: Option<Conflict>)
      requires Structure() && Settled() && h < |trail| && Promise(h, |trailLim| + 1)
      requires trail[h].v in level && level[trail[h].v] == |trailLim|
      modifies this`watches, this`lists, this`cls, this`assigns, this`level, this`reason, this`trail, this`failBinLit
      ensures Structure() && Settled() && Db() == old(Db()) && Binaries() == old(Binaries())
        && SameClauses(old(cls), cls)
        && Extends(old(trail), old(reason))
      ensures confl.None? ==> Promise(h + 1, |trailLim| + 1)
      ensures confl.Some? ==> ConflictOk(confl.value) && Promise(h, |trailLim| + 1)
    {
      hide TrailOk, TwoWatched, LitsBelow, Symmetric, Good, ReasonsOk, ReasonOk, Clauses2, BinKinds, View, Bins,
        LongOffs,
        SameBins, SameClauses, BlockedOk, ListGood, ClausesOk, TrueBy, EntryGood;
      var np := trail[h].Neg();
      confl := None;
      ExtendsRefl();
      SameClausesRefl(cls);
      NegFalse(h);
      if np !in watches {
        NoList(h, np);
        return;
      }
      var i: nat, j: nat := 0, 0;
      ViewWhole(watches, np);
      ListGoodNone(watches[np][..0], cls, assigns, level, np);
      while i < |watches[np]| && confl.None?
        invariant Scanning(h, np, i, j) && Value(assigns, np) == False && Db() == old(Db())
          && Binaries() == old(Binaries())
          && SameClauses(old(cls), cls)
        invariant Extends(old(trail), old(reason))
        invariant confl.None? ==> ListGood(watches[np][..j], cls, assigns, level, np)
        invariant confl.Some? ==> ConflictOk(confl.value)
        decreases |watches[np]| - i
      {
        ghost var trail0, reason0, cls0 := trail, reason, cls;
        if watches[np][i].Bin? {
          confl := ScanBin(h, np, i, j);
          j := j + 1;
        } else {
          confl, j := ScanLong(h, np, i, j);
          SameClausesTrans(old(cls), cls0, cls);
        }
        ExtendsTrans(old(trail), old(reason), trail0, reason0);
        i := i + 1;
      }
      CopyRest(h, np, i, j, confl);
    }

    lemma NegFalse(h: nat)
      requires TrailValid() && h < |trail|
      ensures Value(assigns, trail[h].Neg()) == False
    {
      assert EntryOk(trail, trailLim, assigns, level, nVars, h);
    }

    /** A literal nothing is watched by keeps its promises trivially. */
    lemma NoList(h: nat, np: Lit)
      requires Promise(h, |trailLim| + 1) && h < |trail| && np == trail[h].Neg() && np !in lists
      ensures Promise(h + 1, |trailLim| + 1)
    {
      forall i | 0 <= i < h + 1 && trail[i].v in level && level[trail[i].v] < |trailLim| + 1
        ensures ListGood(W(lists, trail[i].Neg()), cls, assigns, level, trail[i].Neg())
      {
        if i == h {
          assert W(lists, np) == [];
        }
      }
    }

    lemma PromiseNext(h: nat, np: Lit)
      requires Promise(h, |trailLim| + 1) && h < |trail| && np == trail[h].Neg()
      requires ListGood(W(lists, np), cls, assigns, level, np)
      ensures Promise(h + 1, |trailLim| + 1)
    {
    }

    method CopyRest(ghost h: nat, np: Lit, i0: nat, j0: nat, ghost confl: Option<Conflict>)
      requires Scanning(h, np, i0, j0)
      requires confl.None? ==> i0 == |watches[np]| && ListGood(watches[np][..j0], cls, assigns, level, np)
      requires confl.Some? ==> ConflictOk(confl.value)
      modifies this`watches, this`lists
      ensures Structure() && Settled() && Db() == old(Db()) && Binaries() == old(Binaries())
      ensures confl.None? ==> Promise(h + 1, |trailLim| + 1)
      ensures confl.Some? ==> ConflictOk(confl.value) && Promise(h, |trailLim| + 1)
    {
      hide TrailOk, TwoWatched, LitsBelow, Symmetric, Good, ReasonsOk, ReasonOk, Clauses2, BinKinds, View, Bins,
        LongOffs,
        SameBins, SameClauses, BlockedOk, ListGood, ClausesOk, TrueBy, EntryGood;
      var i: nat, j: nat := i0, j0;
      while i < |watches[np]|
        invariant Scanning(h, np, i, j) && Db() == old(Db()) && Binaries() == old(Binaries())
        invariant confl.None? ==> i == |watches[np]| && ListGood(watches[np][..j], cls, assigns, level, np)
        decreases |watches[np]| - i
      {
        KeepEntry(h, np, i, j, watches[np][i]);
        i, j := i + 1, j + 1;
      }
      ViewEnd(watches[np], j);
      assert W(lists, np) == watches[np][..j];
      if confl.None? {
        PromiseNext(h, np);
      }
      watches := watches[np := watches[np][..j]];
    }

    // ----- propagation -----

    /**
     Unit propagation from the queue head. Without a conflict nothing is left to propagate; with one, the
     promises hold below the current level, which is all that is left once that level is undone.
     */
    method PropagateAnyOrderFast() returns (confl: Option<Conflict>)
      requires Valid()
      modifies this
      ensures Structure() && Settled() && qhead == |trail| && Db() == old(Db()) && Binaries() == old(Binaries())
        && trailLim == old(trailLim)
        && SameClauses(old(cls), cls)
      ensures Extends(old(trail), old(reason))
      ensures confl.None? ==> Valid()
      ensures confl.Some? ==> ConflictOk(confl.value) && Promise(|trail|, |trailLim|)
      ensures Outcome(Db(), Set(old(trail)), confl.Some?, Set(trail))
    {
      hide TrailOk, TwoWatched, LitsBelow, Symmetric, Good, ReasonsOk, ReasonOk, Clauses2, BinKinds, View, Bins,
        LongOffs,
        SameBins, SameClauses, BlockedOk, ListGood, ClausesOk, TrueBy, EntryGood, Outcome, Set;
      confl := None;
      var head := qhead;
      ExtendsRefl();
      SameClausesRefl(cls);
      while head < |trail| && confl.None?
        invariant Structure() && Settled() && Db() == old(Db()) && Binaries() == old(Binaries())
          && trailLim == old(trailLim) && facts == old(facts)
          && SameClauses(old(cls), cls)
        invariant head <= |trail| && Extends(old(trail), old(reason))
        invariant forall k :: 0 <= k < |trailLim| ==> trailLim[k] <= head
        invariant confl.None? ==> Promise(head, |trailLim| + 1)
        invariant confl.Some? ==> ConflictOk(confl.value) && Promise(|trail|, |trailLim|)
        decreases confl.None?, nVars - head
      {
        ghost var trail0, reason0, cls0 := trail, reason, cls;
        CurrentLevel(head);
        confl := ScanList(head);
        SameClausesTrans(old(cls), cls0, cls);
        ExtendsTrans(old(trail), old(reason), trail0, reason0);
        if confl.None? {
          head := head + 1;
          TrailBounded(trail, trailLim, assigns, level, nVars);
        } else {
          BelowCurrent(head);
        }
      }
      OutcomeHolds(old(trail), old(reason), confl);
      qhead := |trail|;
    }

    /** Nothing but consequences was set; without a conflict all of them were, with one they falsify a clause. */
    lemma OutcomeHolds(trail0: seq<Lit>, reason0: map<nat, Reason>, confl: Option<Conflict>)
      requires Structure() && Extends(trail0, reason0) && facts <= |trail0|
      requires confl.None? ==> Promise(|trail|, |trailLim| + 1)
      requires confl.Some? ==> ConflictOk(confl.value)
      ensures Outcome(Db(), Set(trail0), confl.Some?, Set(trail))
    {
      var from := Set(trail0);
      ReasonsInClosure(Db(), lists, cls, trail, reason, |trail0|, |trail|);
      assert trail[..|trail|] == trail && trail[..|trail0|] == trail0;
      if confl.None? {
        forall c | c in Db()
          ensures Quiet(assigns, c)
        {
          NoneUnitNoneFalse(lists, cls, trail, trailLim, assigns, level, nVars, c);
        }
        QuietIsClosed(Db(), trail, trailLim, assigns, level, nVars);
        forall l | l in from
          ensures l in Set(trail)
        {
          var i :| 0 <= i < |trail0| && trail0[i] == l;
          assert trail[i] == l;
        }
        ClosedInsideIsClosure(Db(), from, Set(trail));
      } else {
        var c := match confl.value { case BinConfl(k) => {k, failBinLit} case LongConfl(off) => Lits(cls[off]) };
        forall k | k in c
          ensures k.Neg() in Set(trail)
        {
          var i := OnTrail(trail, trailLim, assigns, level, nVars, k.Neg());
        }
        FalsifiedGrows(Db(), c, Set(trail), Closure(Db(), from));
      }
    }

    /** What is still in the queue was set at the current level. */
    lemma CurrentLevel(h: nat)
      requires TrailValid() && h < |trail| && forall k :: 0 <= k < |trailLim| ==> trailLim[k] <= h
      ensures trail[h].v in level && level[trail[h].v] == |trailLim| && |trail| <= nVars
    {
      assert EntryOk(trail, trailLim, assigns, level, nVars, h);
      AllOpened(trailLim, h, level[trail[h].v]);
      TrailBounded(trail, trailLim, assigns, level, nVars);
    }

    lemma BelowCurrent(h: nat)
      requires TrailValid() && Promise(h, |trailLim| + 1) && h < |trail|
      requires forall k :: 0 <= k < |trailLim| ==> trailLim[k] <= h
      ensures Promise(|trail|, |trailLim|)
    {
      forall i | 0 <= i < |trail| && trail[i].v in level && level[trail[i].v] < |trailLim|
        ensures ListGood(W(lists, trail[i].Neg()), cls, assigns, level, trail[i].Neg())
      {
        assert EntryOk(trail, trailLim, assigns, level, nVars, i);
        assert i < trailLim[level[trail[i].v]] <= h;
      }
    }

    /** In a state with an empty queue and no conflict, no clause is unit or falsified. */
    lemma NothingLeft(c: Clause)
      requires Valid() && qhead == |trail| && c in Db()
      ensures Quiet(assigns, c)
    {
      NoneUnitNoneFalse(lists, cls, trail, trailLim, assigns, level, nVars, c);
    }

    // ----- decisions and backtracking -----

    /** A new level; it may also be opened, and closed again, above one that ended in a conflict. */
    method NewDecisionLevel()
      requires Structure() && Settled() && qhead == |trail|
      modifies this`trailLim
      ensures Structure() && Settled() && trailLim == old(trailLim) + [|trail|]
      ensures old(Valid()) ==> Valid()
    {
      hide TwoWatched, LitsBelow, Symmetric, ReasonsOk, ReasonOk, Clauses2, BinKinds, SameBins, SameClauses, BlockedOk,
        ListGood,
        ClausesOk;
      OneMoreLevel();
      trailLim := trailLim + [|trail|];
    }

    lemma OneMoreLevel()
      requires Structure() && qhead == |trail|
      ensures TrailOk(trail, trailLim + [|trail|], assigns, level, nVars)
      ensures Promise(|trail|, |trailLim| + 1) ==> Promise(|trail|, |trailLim| + 2)
    {
      var lim := trailLim + [|trail|];
      forall i | 0 <= i < |trail|
        ensures EntryOk(trail, lim, assigns, level, nVars, i)
      {
        assert EntryOk(trail, trailLim, assigns, level, nVars, i);
      }
      forall i | 0 <= i < |trail|
        ensures trail[i].v in level && level[trail[i].v] < |trailLim| + 1
      {
        assert EntryOk(trail, trailLim, assigns, level, nVars, i);
      }
    }

    /** A decision, or a fact at level 0: a literal set for no reason. */
    method Decide(l: Lit)
      requires Valid() && Value(assigns, l) == Undef && l.v < nVars
      modifies this`assigns, this`level, this`reason, this`trail
      ensures Valid() && trail == old(trail) + [l]
    {
      hide TrailOk, ClausesOk, TwoWatched, LitsBelow, Symmetric, BlockedOk, Good, ReasonsOk, Clauses2, BinKinds;
      assert Promise(qhead, |trailLim| + 1);
      Enqueue(l, NoReason);
    }

    /**
     Undoes all levels above `k`. The watch invariant needs no repair: it is enough that the promises held
     for levels up to `k`, as they do after a propagation with or without a conflict. Weaker promises are kept too.
     */
    method CancelUntil(k: nat)
      requires Structure() && Settled() && k < |trailLim|
      modifies this`assigns, this`trail, this`trailLim, this`qhead
      ensures Structure() && Settled() && old(trailLim)[k] <= old(|trail|)
      ensures trail == old(trail)[..old(trailLim)[k]] && trailLim == old(trailLim)[..k] && qhead == |trail|
        && Db() == old(Db())
      ensures old(Promise(|trail|, k + 1)) ==> Valid()
      ensures forall lv: nat :: lv <= k + 1 && old(Promise(|trail|, lv)) ==> Promise(|trail|, lv)
    {
      hide TrailOk, ClausesOk, TwoWatched, LitsBelow, Symmetric, BlockedOk, Good, ReasonsOk, Clauses2, BinKinds;
      LimitsInRange(k);
      var to := trailLim[k];
      var a := assigns;
      var s := |trail|;
      while s > to
        invariant to <= s <= |trail|
        invariant forall v :: v in a ==> v in assigns && a[v] == assigns[v]
        invariant forall v :: v in assigns ==> (v in a <==> exists i :: 0 <= i < s && trail[i].v == v)
        modifies {}
      {
        s := s - 1;
        OnlyOnce(a, s);
        a := a - {trail[s].v};
      }
      AfterUndo(a, k);
      ghost var trail0, a0 := trail, assigns;
      SetPrefix(a, to, k);
      forall lv: nat | lv <= k + 1 && old(Promise(|trail|, lv))
        ensures Promise(|trail|, lv)
      {
        assert Good(lists, cls, trail0, a0, level, |trail0|, lv);
      }
    }

    lemma LimitsInRange(k: nat)
      requires TrailValid() && k < |trailLim|
      ensures trailLim[k] <= |trail|
      ensures forall v :: v in assigns ==> exists i :: 0 <= i < |trail| && trail[i].v == v
      ensures forall j :: 0 <= j < k ==> trailLim[j] <= trailLim[k]
    {
    }

    lemma OnlyOnce(a: Assigns, s: nat)
      requires TrailValid() && s < |trail|
      requires forall v :: v in a ==> v in assigns && a[v] == assigns[v]
      requires forall v :: v in assigns ==> (v in a <==> exists i :: 0 <= i < s + 1 && trail[i].v == v)
      ensures var a' := a - {trail[s].v};
        forall v :: v in assigns ==> (v in a' <==> exists i :: 0 <= i < s && trail[i].v == v)
    {
      var a' := a - {trail[s].v};
      forall v | v in assigns
        ensures v in a' <==> exists i :: 0 <= i < s && trail[i].v == v
      {
        if v in a' {
          var i :| 0 <= i < s + 1 && trail[i].v == v;
          assert i != s;
        }
        if i :| 0 <= i < s && trail[i].v == v {
          assert trail[i].v != trail[s].v;
        }
      }
    }

    lemma AfterUndo(a: Assigns, k: nat)
      requires Structure() && k < |trailLim| && trailLim[k] <= |trail|
      requires forall v :: v in a ==> v in assigns && a[v] == assigns[v]
      requires forall v :: v in assigns ==> (v in a <==> exists i :: 0 <= i < trailLim[k] && trail[i].v == v)
      ensures TrailOk(trail[..trailLim[k]], trailLim[..k], a, level, nVars)
      ensures ReasonsOk(Db(), lists, cls, trail[..trailLim[k]], reason, facts)
      ensures forall lv: nat {:trigger Good(lists, cls, trail, assigns, level, |trail|, lv)} ::
        lv <= k + 1 && Promise(|trail|, lv) ==> Good(lists, cls, trail[..trailLim[k]], a, level, trailLim[k], lv)
    {
      forall i | 0 <= i < trailLim[k]
        ensures trail[i].v in a
      {
        assert EntryOk(trail, trailLim, assigns, level, nVars, i);
      }
      TrailPrefix(trail, trailLim, assigns, a, level, nVars, k);
      ReasonsPrefix(Db(), lists, cls, trail, reason, facts, trailLim[k]);
      forall lv: nat | lv <= k + 1 && Promise(|trail|, lv)
        ensures Good(lists, cls, trail[..trailLim[k]], a, level, trailLim[k], lv)
      {
        GoodAfterUndo(lists, cls, trail, trailLim, assigns, a, level, nVars, |trail|, k, lv);
      }
    }

    method SetPrefix(a: Assigns, to: nat, k: nat)
      requires to <= |trail| && k <= |trailLim|
      modifies this`assigns, this`trail, this`trailLim, this`qhead
      ensures assigns == a && trail == old(trail)[..to] && trailLim == old(trailLim)[..k] && qhead == to
    {
      assigns := a;
      qhead := to;
      trail := trail[..to];
      trailLim := trailLim[..k];
    }

    // ----- attaching clauses -----

    method SetClause(off: nat, c: seq<Lit>, ws: WatchLists)
      modifies this`cls, this`watches, this`lists
      ensures cls == old(cls)[off := c] && watches == lists == ws
    {
      cls := cls[off := c];
      watches := ws;
      lists := ws;
    }

    /** A literal of the clause that is true was set no later than a watch of the clause became false. */
    ghost predicate Backed(c: seq<Lit>)
      requires |c| >= 2
      reads `trail, `assigns, `level, `qhead
    {
      forall i {:trigger trail[i]} ::
        0 <= i < qhead && i < |trail| && (trail[i].Neg() == c[0] || trail[i].Neg() == c[1]) ==>
        exists t :: t in c && TrueBy(assigns, level, trail[i].Neg(), t)
    }

    /**
     A new long clause goes on the lists of its first two literals, whatever their values. The promise holds
     afterwards exactly if each of the two that has been propagated as false is made up for by a true literal.
     */
    method AttachClause(off: nat, c: seq<Lit>)
      requires Structure() && Settled() && qhead <= |trail| && off !in cls && ClauseOk(c)
        && forall l :: l in c ==> l.v < nVars
      modifies this`cls, this`watches, this`lists
      ensures Structure() && Settled() && Db() == old(Db()) + iset{Lits(c)} && Binaries() == old(Binaries())
      ensures cls == old(cls)[off := c] && watches == Attached(old(watches), c, off)
      ensures old(Valid()) ==> (Valid() <==> Backed(c))
    {
      hide TrailOk, ClausesOk, TwoWatched, LitsBelow, Symmetric, BlockedOk, Good, ReasonsOk, ReasonOk, Clauses2,
        BinKinds,
        Attached, SameBins, EntryGood, ListGood, TrueBy;
      AttachKeeps(watches, cls, c, off, nVars);
      DbAttached(watches, cls, c, off);
      var ws := Attached(watches, c, off);
      ReasonsAttached(Db(), Clauses2(ws, cls[off := c]), lists, ws, cls, cls[off := c], trail, reason, facts);
      BackedIff(off, c);
      SetClause(off, c, ws);
    }

    lemma BackedIff(off: nat, c: seq<Lit>)
      requires Structure() && qhead <= |trail| && off !in cls && ClauseOk(c)
      ensures Promise(qhead, |trailLim| + 1) ==>
        (Good(Attached(lists, c, off), cls[off := c], trail, assigns, level, qhead, |trailLim| + 1) <==> Backed(c))
    {
      hide Attached, TwoWatched, LitsBelow, Symmetric, BlockedOk, ReasonsOk, Clauses2, BinKinds, ListGood, TrueBy, Good;
      if Promise(qhead, |trailLim| + 1) && Backed(c) {
        GoodAttached(lists, cls, c, off, trail, assigns, level, qhead, |trailLim| + 1);
      }
      if Good(Attached(lists, c, off), cls[off := c], trail, assigns, level, qhead, |trailLim| + 1) {
        forall i | 0 <= i < qhead && (trail[i].Neg() == c[0] || trail[i].Neg() == c[1])
          ensures exists t :: t in c && TrueBy(assigns, level, trail[i].Neg(), t)
        {
          GoodBacks(off, c, i);
        }
      }
    }

    lemma GoodBacks(off: nat, c: seq<Lit>, i: nat)
      requires TrailValid() && i < qhead <= |trail| && off !in cls && ClauseOk(c)
        && (trail[i].Neg() == c[0] || trail[i].Neg() == c[1])
      requires Good(Attached(lists, c, off), cls[off := c], trail, assigns, level, qhead, |trailLim| + 1)
      ensures exists t :: t in c && TrueBy(assigns, level, trail[i].Neg(), t)
    {
      hide Attached;
      var l := trail[i].Neg();
      assert EntryOk(trail, trailLim, assigns, level, nVars, i);
      hide TrailOk;
      AttachedLists(lists, c, off, l);
      assert Long(off, c[2]) in W(Attached(lists, c, off), l);
      assert EntryGood(cls[off := c], assigns, level, l, Long(off, c[2]));
    }

    /**
     A learnt clause whose literals are false but the first, the second at the current level: attached, and its first
     literal set.
     */
    method AttachAndEnqueueLearntClause(off: nat, c: seq<Lit>)
      requires Valid() && off !in cls && ClauseOk(c) && forall l :: l in c ==> l.v < nVars
      requires Value(assigns, c[0]) == Undef && forall l :: l in c && l != c[0] ==> Value(assigns, l) == False
      requires c[1].v in level && level[c[1].v] == |trailLim|
      modifies this`cls, this`watches, this`lists, this`assigns, this`level, this`reason, this`trail
      ensures Valid() && Db() == old(Db()) + iset{Lits(c)} && off in cls && cls[off] == c
      ensures trail == old(trail) + [c[0]] && c[0].v in reason && reason[c[0].v] == LongReason(off)
    {
      hide TrailOk, ClausesOk, TwoWatched, LitsBelow, Symmetric, BlockedOk, Good, ReasonsOk, ReasonOk, Clauses2,
        BinKinds,
        Attached, EntryGood, ListGood, TrueBy, Backed;
      assert c[1] in c && c[1] != c[0];
      UnitAttach(off, c);
      AttachClause(off, c);
      UnitClause(off, c[1]);
      Enqueue(c[0], LongReason(off));
    }

    /** With its first literal set at the current level, the clause of a watch falsified at that level is satisfied. */
    lemma UnitAttach(off: nat, c: seq<Lit>)
      requires Valid() && off !in cls && ClauseOk(c) && Value(assigns, c[0]) == Undef
      requires c[1].v in level && level[c[1].v] == |trailLim| && Value(assigns, c[1]) == False
      ensures Good(Attached(lists, c, off), cls[off := c], trail + [c[0]], assigns[c[0].v := !c[0].sign],
        level[c[0].v := |trailLim|], qhead, |trailLim| + 1)
    {
      var l := c[0];
      var a', level' := assigns[l.v := !l.sign], level[l.v := |trailLim|];
      forall i | 0 <= i < |trail|
        ensures Value(assigns, trail[i]) == True
      {
        assert EntryOk(trail, trailLim, assigns, level, nVars, i);
      }
      GoodGrows(lists, cls, trail, assigns, level, qhead, |trailLim| + 1, l, |trailLim|);
      forall i | 0 <= i < qhead && ((trail + [l])[i].Neg() == c[0] || (trail + [l])[i].Neg() == c[1])
        ensures exists t :: t in c && TrueBy(a', level', (trail + [l])[i].Neg(), t)
      {
        assert (trail + [l])[i] == trail[i];
        assert trail[i].Neg() == c[1];
        assert c[0] in c && TrueBy(a', level', c[1], c[0]);
      }
      GoodAttached(lists, cls, c, off, trail + [l], a', level', qhead, |trailLim| + 1);
    }

    // ----- binary clauses and detaching -----

    /** A new binary clause goes on both lists. Unless one of its literals is false already, no promise is concerned. */
    method AttachBinClause(a: Lit, b: Lit, red: bool)
      requires Structure() && Settled() && a != b && a.v < nVars && b.v < nVars
      modifies this`watches, this`lists
      ensures Structure() && Settled() && watches == WithBin(old(watches), a, b, red)
        && Db() == old(Db()) + iset{{a, b}} && Binaries() == WithOne(old(Binaries()), {a, b}, red)
      ensures Value(assigns, a) != False && Value(assigns, b) != False ==>
        forall q: nat, lv: nat :: q <= |trail| && old(Promise(q, lv)) ==> Promise(q, lv)
    {
      hide TrailOk, ClausesOk, TwoWatched, LitsBelow, Symmetric, BlockedOk, Good, ReasonsOk, ReasonOk, Clauses2,
        BinKinds,
        WithBin;
      WithBinKeeps(watches, cls, a, b, red, nVars);
      DbWithBin(watches, cls, a, b, red);
      var ws := WithBin(watches, a, b, red);
      ReasonsAttached(Db(), Clauses2(ws, cls), lists, ws, cls, cls, trail, reason, facts);
      forall q: nat, lv: nat | Value(assigns, a) != False && Value(assigns, b) != False && q <= |trail|
        && Promise(q, lv)
        ensures Good(ws, cls, trail, assigns, level, q, lv)
      {
        NotFalseWatched(a, b, red, q, lv);
      }
      watches := watches[a := W(watches, a) + [Bin(b, red)]];
      watches := watches[b := W(watches, b) + [Bin(a, red)]];
      lists := watches;
      assert watches == ws by {
        WithBinIs(old(watches), a, b, red);
      }
    }

    lemma WithBinIs(ws: WatchLists, a: Lit, b: Lit, red: bool)
      ensures var ws1 := ws[a := W(ws, a) + [Bin(b, red)]];
        WithBin(ws, a, b, red) == ws1[b := W(ws1, b) + [Bin(a, red)]]
    {
    }

    lemma NotFalseWatched(a: Lit, b: Lit, red: bool, q: nat, lv: nat)
      requires TrailValid() && a != b && Value(assigns, a) != False && Value(assigns, b) != False && q <= |trail|
        && Promise(q, lv)
      ensures Good(WithBin(lists, a, b, red), cls, trail, assigns, level, q, lv)
    {
      var ws := WithBin(lists, a, b, red);
      SameClausesRefl(cls);
      forall i | 0 <= i < q
        ensures W(ws, trail[i].Neg()) == W(lists, trail[i].Neg())
      {
        NegFalse(i);
        WithBinLists(lists, a, b, red, trail[i].Neg());
      }
      hide TrailOk, WithBin;
      GoodRewired(lists, cls, ws, cls, trail, assigns, level, q, lv);
    }

    /** `removeWCl`: the first entry of the clause goes, the later ones move down. */
    method RemoveWCl(l: Lit, off: nat)
      requires off in LongOffs(W(watches, l))
      modifies this`watches
      ensures WithoutLong(W(old(watches), l), W(watches, l), off)
      ensures forall k :: k != l ==> W(watches, k) == W(old(watches), k)
    {
      var ws := W(watches, l);
      ghost var at := LongOffWitness(ws, off);
      var i: nat := 0;
      while ws[i].Bin? || ws[i].off != off
        invariant i <= at
        decreases |ws| - i
      {
        i := i + 1;
      }
      watches := watches[l := ws[..i] + ws[i + 1..]];
    }

    /**
     A clause leaves the lists of its first two literals and the store. All promises stay. At level zero it may be the
     reason of facts; above, nothing on the trail may be set because of it.
     */
    method DetachClause(off: nat)
      requires Structure() && Settled() && off in cls
      requires trailLim == []
        || forall l {:trigger l in trail} :: l in trail && l.v in reason ==> reason[l.v] != LongReason(off)
      modifies this`watches, this`lists, this`cls, this`facts
      ensures Structure() && Settled() && cls == old(cls) - {off} && old(Db()) == Db() + iset{Lits(old(cls)[off])}
        && Binaries() == old(Binaries())
      ensures forall q: nat, lv: nat :: old(Promise(q, lv)) ==> Promise(q, lv)
    {
      hide TrailOk, TwoWatched, LitsBelow, Symmetric, BlockedOk, Good, ReasonsOk, ReasonOk, Clauses2, BinKinds,
        LongOffs,
        WithoutLong, Detached, SameBins;
      var c := cls[off];
      ghost var cls0, ws0 := cls, watches;
      WatchedTwice(off);
      RemoveWCl(c[0], off);
      RemoveWCl(c[1], off);
      DetachedBy(ws0, watches, cls, off);
      cls := cls - {off};
      lists := watches;
      if trailLim == [] {
        facts := |trail|;
      }
      DetachKeeps(ws0, watches, cls0, off, nVars);
      DbDetached(ws0, watches, cls0, off);
      ReasonsLeft(ws0, cls0, off, old(facts));
      forall q: nat, lv: nat | old(Promise(q, lv))
        ensures Promise(q, lv)
      {
        GoodDetached(ws0, watches, cls0, off, trail, assigns, level, q, lv);
      }
    }

    lemma WatchedTwice(off: nat)
      requires ListsValid() && off in cls
      ensures off in LongOffs(W(lists, cls[off][0])) && off in LongOffs(W(lists, cls[off][1]))
        && cls[off][0] != cls[off][1]
    {
      assert WatchCount(lists, cls, cls[off][0], off) && WatchCount(lists, cls, cls[off][1], off);
    }

    lemma DetachedBy(ws: WatchLists, ws': WatchLists, cls0: Clauses, off: nat)
      requires ClausesOk(cls0) && off in cls0
      requires var c := cls0[off];
        WithoutLong(W(ws, c[0]), W(ws', c[0]), off) && WithoutLong(W(ws, c[1]), W(ws', c[1]), off)
        && forall k :: k != c[0] && k != c[1] ==> W(ws', k) == W(ws, k)
      ensures Detached(ws, ws', cls0, off)
    {
    }

    /** The reasons that are still asked for are among the clauses that are left. */
    lemma ReasonsLeft(ws0: WatchLists, cls0: Clauses, off: nat, facts0: nat)
      requires off in cls0 && ClausesOk(cls0) && cls == cls0 - {off}
        && Clauses2(ws0, cls0) == Db() + iset{Lits(cls0[off])}
      requires ReasonsOk(Clauses2(ws0, cls0), ws0, cls0, trail, reason, facts0)
      requires facts == facts0 || facts == |trail|
      requires facts == |trail|
        || forall l {:trigger l in trail} :: l in trail && l.v in reason ==> reason[l.v] != LongReason(off)
      ensures ReasonsOk(Db(), lists, cls, trail, reason, facts)
    {
      if facts < |trail| {
        forall o | o in cls0 && o != off
          ensures Lits(cls0[o]) in Db()
        {
          assert o in cls && cls[o] == cls0[o];
          assert Lits(cls[o]) in LongClauses(cls);
        }
        forall i | facts0 <= i < |trail| && trail[i].v in reason
          ensures reason[trail[i].v] != LongReason(off)
        {
          assert trail[i] in trail;
        }
        ReasonsDetached(Clauses2(ws0, cls0), Db(), ws0, lists, cls0, off, trail, reason, facts);
      }
    }
  }
}
