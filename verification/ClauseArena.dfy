/**
 The clause arena: clauses live in one block of memory, addressed by offsets, and are moved together by a
 copying compaction that leaves forwarding offsets behind. (cryptoms/clauseallocator.cpp, cryptoms/clause.h)

 A cell is a 32-bit word (the build without large offsets). The header of a clause takes six of them; the
 first carries the fields, the others hold statistics that are copied along.
 */
module ClauseArena {
  import opened Literals
  import opened Watches
  import opened Reasons

  datatype Header = Header(size: nat, red: bool, freed: bool, reloced: bool, gaussTemp: bool, stats: int)

  datatype Cell = Head(h: Header) | Word(x: nat)

  /** sizeof(Clause) in words. */
  const HDR: nat := 6
  const MIN_LIST_SIZE: nat := 500000
  const MAXSIZE: nat := 0x3fff_ffff

  /** Words taken by a clause of `n` literals. */
  function Needed(n: nat): nat {
    HDR + n
  }

  // ----- sums over sets of clauses -----

  ghost function Total(sizes: map<nat, nat>): nat {
    if sizes == map[] then 0
    else
      var o: nat :| o in sizes;
      Needed(sizes[o]) + Total(sizes - {o})
  }

  lemma {:induction false} TotalRemove(sizes: map<nat, nat>, o: nat)
    requires o in sizes
    ensures Total(sizes) == Needed(sizes[o]) + Total(sizes - {o})
    decreases |sizes|
  {
    var p: nat :| p in sizes && Total(sizes) == Needed(sizes[p]) + Total(sizes - {p});
    if p != o {
      TotalRemove(sizes - {p}, o);
      TotalRemove(sizes - {o}, p);
      assert sizes - {p} - {o} == sizes - {o} - {p};
    }
  }

  lemma TotalAdd(sizes: map<nat, nat>, o: nat, n: nat)
    requires o !in sizes
    ensures Total(sizes[o := n]) == Total(sizes) + Needed(n)
  {
    TotalRemove(sizes[o := n], o);
    assert sizes[o := n] - {o} == sizes;
  }

  /** Fewer and smaller clauses take less room. */
  lemma {:induction false} TotalMonotone(a: map<nat, nat>, b: map<nat, nat>)
    requires forall o :: o in a ==> o in b && a[o] <= b[o]
    ensures Total(a) <= Total(b)
    decreases |a|
  {
    if a != map[] {
      var o: nat :| o in a;
      TotalRemove(a, o);
      TotalRemove(b, o);
      TotalMonotone(a - {o}, b - {o});
    }
  }

  // ----- layout -----

  ghost predicate BlockOk(mem: seq<Cell>, size: nat, live: map<nat, nat>, o: nat)
    requires o in live
  {
    && o + Needed(live[o]) <= size <= |mem|
    && mem[o].Head? && !mem[o].h.freed && !mem[o].h.reloced
    && 1 <= mem[o].h.size <= live[o]
    && forall k {:trigger mem[k]} :: o + HDR <= k < o + Needed(mem[o].h.size) ==> mem[k].Word?
  }

  ghost predicate Apart(live: map<nat, nat>, o: nat, p: nat)
    requires o in live && p in live
  {
    o + Needed(live[o]) <= p || p + Needed(live[p]) <= o
  }

  /** The live clauses, with the number of literals they were allocated for, in disjoint blocks below `size`. */
  ghost predicate Layout(mem: seq<Cell>, size: nat, live: map<nat, nat>) {
    && size <= |mem|
    && (forall o {:trigger BlockOk(mem, size, live, o)} :: o in live ==> BlockOk(mem, size, live, o))
    && forall o, p {:trigger Apart(live, o, p)} :: o in live && p in live && o != p ==> Apart(live, o, p)
  }

  /** The cells of the clause at `o`: header and current literals. */
  ghost function Image(mem: seq<Cell>, o: nat): seq<Cell>
    requires o < |mem| && mem[o].Head? && o + Needed(mem[o].h.size) <= |mem|
  {
    mem[o..o + Needed(mem[o].h.size)]
  }

  /** The current sizes of the live clauses. */
  ghost function Sizes(mem: seq<Cell>, live: map<nat, nat>): map<nat, nat>
    requires forall o :: o in live ==> o < |mem| && mem[o].Head?
  {
    map o | o in live :: mem[o].h.size
  }

  // ----- what the operations do to the layout -----

  lemma SameCellsKeep(mem: seq<Cell>, mem': seq<Cell>, size: nat, size': nat, live: map<nat, nat>)
    requires Layout(mem, size, live) && size <= size' <= |mem'| && mem'[..size] == mem[..size]
    ensures Layout(mem', size', live)
  {
    forall o | o in live
      ensures BlockOk(mem', size', live, o)
    {
      assert BlockOk(mem, size, live, o);
      assert forall k :: 0 <= k < size ==> mem'[k] == mem'[..size][k] == mem[k];
    }
  }

  /** A clause written into fresh room at the end. */
  lemma NewBlock(mem: seq<Cell>, mem': seq<Cell>, size: nat, live: map<nat, nat>, n: nat)
    requires Layout(mem, size, live) && size + Needed(n) <= |mem'| && mem'[..size] == mem[..size] && n >= 1
    requires mem'[size].Head? && mem'[size].h.size == n && !mem'[size].h.freed && !mem'[size].h.reloced
    requires forall k :: size + HDR <= k < size + Needed(n) ==> mem'[k].Word?
    ensures Layout(mem', size + Needed(n), live[size := n])
    ensures Total(live[size := n]) == Total(live) + Needed(n)
  {
    SameCellsKeep(mem, mem', size, size + Needed(n), live);
    var live' := live[size := n];
    forall o | o in live'
      ensures BlockOk(mem', size + Needed(n), live', o)
    {
      if o != size {
        assert BlockOk(mem', size + Needed(n), live, o);
      }
    }
    forall o, p | o in live' && p in live' && o != p
      ensures Apart(live', o, p)
    {
      if o == size {
        assert BlockOk(mem, size, live, p);
      } else if p == size {
        assert BlockOk(mem, size, live, o);
      } else {
        assert Apart(live, o, p);
      }
    }
    assert size !in live by {
      assert size in live ==> BlockOk(mem, size, live, size);
    }
    TotalAdd(live, size, n);
  }

  /** One header rewritten; clauses that are no longer live need not be well-formed. */
  lemma HeaderChanged(mem: seq<Cell>, size: nat, live: map<nat, nat>, at: nat, h: Header, live': map<nat, nat>)
    requires Layout(mem, size, live) && at in live
    requires live'.Keys <= live.Keys && forall o :: o in live' ==> live'[o] == live[o]
    requires at in live' ==> at < |mem| && mem[at].Head? && !h.freed && !h.reloced && 1 <= h.size <= mem[at].h.size
    ensures at < |mem| && Layout(mem[at := Head(h)], size, live')
  {
    assert BlockOk(mem, size, live, at);
    var mem' := mem[at := Head(h)];
    forall o | o in live'
      ensures BlockOk(mem', size, live', o)
    {
      assert BlockOk(mem, size, live, o);
      if o != at {
        assert Apart(live, o, at);
      }
    }
    forall o, p | o in live' && p in live' && o != p
      ensures Apart(live', o, p)
    {
      assert Apart(live, o, p);
    }
  }

  /** The clause that ends where the arena ends can simply be cut off. */
  lemma CutLast(mem: seq<Cell>, size: nat, live: map<nat, nat>, at: nat)
    requires Layout(mem, size, live) && at in live && at < |mem| && mem[at].Head? && at + Needed(mem[at].h.size) == size
    ensures Layout(mem, at, live - {at}) && live[at] == mem[at].h.size
  {
    assert BlockOk(mem, size, live, at);
    var live' := live - {at};
    forall o | o in live'
      ensures BlockOk(mem, at, live', o)
    {
      assert BlockOk(mem, size, live, o);
      assert Apart(live, o, at);
    }
    forall o, p | o in live' && p in live' && o != p
      ensures Apart(live', o, p)
    {
      assert Apart(live, o, p);
    }
  }

  /** Clauses other than the one rewritten keep their image. */
  lemma ImageElsewhere(mem: seq<Cell>, size: nat, live: map<nat, nat>, at: nat, c: Cell, o: nat)
    requires Layout(mem, size, live) && at in live && o in live && o != at && BlockOk(mem, size, live, o)
      && BlockOk(mem, size, live, at)
    ensures mem[at := c][o].Head? && Image(mem[at := c], o) == Image(mem, o)
  {
    assert Apart(live, o, at);
  }

  // ----- compaction -----

  /** A moved clause: flagged, with the new offset in its first literal slot. */
  ghost predicate Forwarded(mem0: seq<Cell>, mem: seq<Cell>, o: nat, to: nat) {
    && o + HDR < |mem0| == |mem| && mem0[o].Head?
    && mem[o] == Head(mem0[o].h.(reloced := true)) && mem[o + HDR] == Word(to)
  }

  ghost predicate Untouched(mem0: seq<Cell>, mem: seq<Cell>, o: nat, n: nat) {
    o + Needed(n) <= |mem0| == |mem| && mem[o..o + Needed(n)] == mem0[o..o + Needed(n)]
  }

  /** The copy of the clause at `o`. */
  ghost predicate CopiedTo(mem0: seq<Cell>, dst: seq<Cell>, o: nat, to: nat) {
    && o < |mem0| && mem0[o].Head? && o + Needed(mem0[o].h.size) <= |mem0|
    && to + Needed(mem0[o].h.size) <= |dst|
    && dst[to..to + Needed(mem0[o].h.size)] == Image(mem0, o)
  }

  /**
   A compaction under way: every clause of the old arena is either still as it was or forwarded, and the
   forwarded ones lie in the new arena, back to back, each exactly once.
   */
  ghost predicate Moving(mem0: seq<Cell>, size: nat, live: map<nat, nat>, mem: seq<Cell>,
                         dst: seq<Cell>, newPtr: nat, newLive: map<nat, nat>, fwd: map<nat, nat>) {
    && Layout(mem0, size, live) && |mem| == |mem0|
    && (forall o {:trigger o in fwd} :: o in fwd ==> o in live)
    && (forall o {:trigger Forwarded(mem0, mem, o, fwd[o])} :: o in fwd ==> Forwarded(mem0, mem, o, fwd[o]))
    && (forall o {:trigger Untouched(mem0, mem, o, live[o])} ::
      o in live && o !in fwd ==> Untouched(mem0, mem, o, live[o]))
    && (forall o {:trigger CopiedTo(mem0, dst, o, fwd[o])} :: o in fwd ==> CopiedTo(mem0, dst, o, fwd[o]))
    && (forall o {:trigger fwd[o]} ::
      o in fwd ==> fwd[o] in newLive && o < |mem0| && mem0[o].Head? && newLive[fwd[o]] == mem0[o].h.size)
    && Injective(fwd) && Targets(fwd, newLive)
    && Layout(dst, newPtr, newLive)
    && Total(newLive) == newPtr
    && newPtr == Total(FwdSizes(mem0, fwd))
  }

  ghost predicate Injective(fwd: map<nat, nat>) {
    forall o, p {:trigger fwd[o], fwd[p]} :: o in fwd && p in fwd && fwd[o] == fwd[p] ==> o == p
  }

  ghost predicate Sends(fwd: map<nat, nat>, o: nat, to: nat) {
    o in fwd && fwd[o] == to
  }

  /** Nothing lies in the new arena but the moved clauses. */
  ghost predicate Targets(fwd: map<nat, nat>, newLive: map<nat, nat>) {
    forall t {:trigger t in newLive} :: t in newLive ==> exists o :: Sends(fwd, o, t)
  }

  lemma TargetsNext(fwd: map<nat, nat>, newLive: map<nat, nat>, o: nat, to: nat, n: nat)
    requires Targets(fwd, newLive) && o !in fwd
    ensures Targets(fwd[o := to], newLive[to := n])
  {
    var newLive', fwd' := newLive[to := n], fwd[o := to];
    forall t | t in newLive'
      ensures exists p :: Sends(fwd', p, t)
    {
      if t == to {
        assert Sends(fwd', o, t);
      } else {
        var p :| Sends(fwd, p, t);
        assert Sends(fwd', p, t);
      }
    }
  }

  ghost function FwdSizes(mem0: seq<Cell>, fwd: map<nat, nat>): map<nat, nat> {
    map o | o in fwd :: if o < |mem0| && mem0[o].Head? then mem0[o].h.size else 0
  }

  lemma MovingStarts(mem0: seq<Cell>, size: nat, live: map<nat, nat>, dst: seq<Cell>)
    requires Layout(mem0, size, live)
    ensures Moving(mem0, size, live, mem0, dst, 0, map[], map[])
  {
    forall o | o in live
      ensures Untouched(mem0, mem0, o, live[o])
    {
      assert BlockOk(mem0, size, live, o);
    }
    assert FwdSizes(mem0, map[]) == map[];
  }

  /** There is room for the next clause: what is copied never exceeds the room of the live clauses. */
  lemma RoomLeft(mem0: seq<Cell>, size: nat, live: map<nat, nat>, fwd: map<nat, nat>, o: nat, to: nat)
    requires Layout(mem0, size, live) && o in live && o !in fwd && forall p :: p in fwd ==> p in live
    ensures o < |mem0| && mem0[o].Head?
    ensures Total(FwdSizes(mem0, fwd[o := to])) == Total(FwdSizes(mem0, fwd)) + Needed(mem0[o].h.size) <= Total(live)
  {
    hide Total;
    LiveBlock(mem0, size, live, o);
    var sizes := FwdSizes(mem0, fwd);
    var sizes' := FwdSizes(mem0, fwd[o := to]);
    TotalAdd(sizes, o, mem0[o].h.size);
    assert sizes' == sizes[o := mem0[o].h.size];
    forall p | p in sizes'
      ensures p in live && sizes'[p] <= live[p]
    {
      LiveBlock(mem0, size, live, p);
    }
    TotalMonotone(sizes', live);
  }

  /** What forwarding one clause does to the old arena. */
  lemma ForwardedNext(mem0: seq<Cell>, size: nat, live: map<nat, nat>, mem: seq<Cell>, fwd: map<nat, nat>, o: nat,
                      to: nat, mem': seq<Cell>)
    requires Layout(mem0, size, live) && o in live && o !in fwd && |mem| == |mem0| && o + HDR < |mem0| && mem0[o].Head?
    requires forall p :: p in fwd ==> p in live
    requires forall p {:trigger Forwarded(mem0, mem, p, fwd[p])} :: p in fwd ==> Forwarded(mem0, mem, p, fwd[p])
    requires forall p {:trigger Untouched(mem0, mem, p, live[p])} ::
      p in live && p !in fwd ==> Untouched(mem0, mem, p, live[p])
    requires mem' == mem[o + HDR := Word(to)][o := Head(mem0[o].h.(reloced := true))]
    ensures forall p {:trigger Forwarded(mem0, mem', p, fwd[o := to][p])} ::
      p in fwd[o := to] ==> Forwarded(mem0, mem', p, fwd[o := to][p])
    ensures forall p {:trigger Untouched(mem0, mem', p, live[p])} ::
      p in live && p !in fwd[o := to] ==> Untouched(mem0, mem', p, live[p])
  {
    hide Layout, Total, BooksOf, Allocates, Frees, ImageKept;
    var fwd' := fwd[o := to];
    forall p | p in fwd'
      ensures Forwarded(mem0, mem', p, fwd'[p])
    {
      LiveBlock(mem0, size, live, p);
      if p != o {
        assert Forwarded(mem0, mem, p, fwd[p]);
        LiveApart(mem0, size, live, o, p);
      }
    }
    forall p | p in live && p !in fwd'
      ensures Untouched(mem0, mem', p, live[p])
    {
      assert Untouched(mem0, mem, p, live[p]);
      LiveApart(mem0, size, live, o, p);
      assert mem'[p..p + Needed(live[p])] == mem[p..p + Needed(live[p])];
    }
  }

  /** Earlier copies stay where they are. */
  lemma CopiesStay(mem0: seq<Cell>, dst: seq<Cell>, dst': seq<Cell>, newPtr: nat, newLive: map<nat, nat>,
                   fwd: map<nat, nat>, p: nat)
    requires Layout(dst, newPtr, newLive) && p in fwd && fwd[p] in newLive && CopiedTo(mem0, dst, p, fwd[p])
    requires newLive[fwd[p]] == mem0[p].h.size
    requires newPtr <= |dst'| && dst'[..newPtr] == dst[..newPtr]
    ensures CopiedTo(mem0, dst', p, fwd[p])
  {
    LiveBlock(dst, newPtr, newLive, fwd[p]);
    hide Layout;
    var f, n := fwd[p], Needed(mem0[p].h.size);
    assert dst'[f..f + n] == dst'[..newPtr][f..f + n];
    assert dst[f..f + n] == dst[..newPtr][f..f + n];
  }

  /** One more clause copied to the end of the new arena and forwarded in the old one. */
  lemma MovingNext(mem0: seq<Cell>, size: nat, live: map<nat, nat>, mem: seq<Cell>, dst: seq<Cell>, newPtr: nat,
                   newLive: map<nat, nat>, fwd: map<nat, nat>, o: nat, mem': seq<Cell>, dst': seq<Cell>)
    requires Moving(mem0, size, live, mem, dst, newPtr, newLive, fwd) && o in live && o !in fwd
    requires BlockOk(mem0, size, live, o)
    requires newPtr + Needed(mem0[o].h.size) <= |dst'| && dst'[..newPtr] == dst[..newPtr]
    requires dst'[newPtr..newPtr + Needed(mem0[o].h.size)] == Image(mem0, o)
    requires mem' == mem[o + HDR := Word(newPtr)][o := Head(mem0[o].h.(reloced := true))]
    ensures Moving(mem0, size, live, mem', dst', newPtr + Needed(mem0[o].h.size), newLive[newPtr := mem0[o].h.size],
      fwd[o := newPtr])
  {
    hide Layout, Total, Forwarded, Untouched, FwdSizes, Targets;
    var n := mem0[o].h.size;
    var fwd' := fwd[o := newPtr];
    var newLive' := newLive[newPtr := n];
    CopyIsBlock(mem0, size, live, dst', newPtr, o);
    NewBlock(dst, dst', newPtr, newLive, n);
    RoomLeft(mem0, size, live, fwd, o, newPtr);
    ForwardedNext(mem0, size, live, mem, fwd, o, newPtr, mem');
    KeyBelow(dst, newPtr, newLive);
    TargetsNext(fwd, newLive, o, newPtr, n);
    forall p | p in fwd'
      ensures p in live && CopiedTo(mem0, dst', p, fwd'[p])
    {
      if p != o {
        assert p in fwd;
        assert CopiedTo(mem0, dst, p, fwd[p]);
        assert fwd[p] in newLive;
        CopiesStay(mem0, dst, dst', newPtr, newLive, fwd, p);
      }
    }
    assert Injective(fwd') by {
      assert forall p :: p in fwd ==> fwd[p] in newLive && fwd[p] < newPtr;
    }
  }

  lemma CopyIsBlock(mem0: seq<Cell>, size: nat, live: map<nat, nat>, dst: seq<Cell>, to: nat, o: nat)
    requires o in live && BlockOk(mem0, size, live, o) && to + Needed(mem0[o].h.size) <= |dst|
    requires dst[to..to + Needed(mem0[o].h.size)] == Image(mem0, o)
    ensures dst[to] == mem0[o]
    ensures forall k :: to + HDR <= k < to + Needed(mem0[o].h.size) ==> dst[k].Word?
  {
    var img := Image(mem0, o);
    assert dst[to] == img[0] == mem0[o];
    forall k | to + HDR <= k < to + Needed(mem0[o].h.size)
      ensures dst[k].Word?
    {
      assert dst[k] == img[k - to] == mem0[o + k - to];
    }
  }

  lemma LiveBlock(mem: seq<Cell>, size: nat, live: map<nat, nat>, o: nat)
    requires Layout(mem, size, live) && o in live
    ensures BlockOk(mem, size, live, o)
  {
  }

  lemma LiveApart(mem: seq<Cell>, size: nat, live: map<nat, nat>, o: nat, p: nat)
    requires Layout(mem, size, live) && o in live && p in live && o != p
    ensures Apart(live, o, p) && BlockOk(mem, size, live, o) && BlockOk(mem, size, live, p)
  {
  }

  lemma KeyBelow(mem: seq<Cell>, size: nat, live: map<nat, nat>)
    requires Layout(mem, size, live)
    ensures forall o :: o in live ==> o < size
  {
    forall o | o in live
      ensures o < size
    {
      assert BlockOk(mem, size, live, o);
    }
  }

  lemma UntouchedPart(mem0: seq<Cell>, mem: seq<Cell>, o: nat, n: nat, m: nat)
    requires Untouched(mem0, mem, o, n) && m <= Needed(n)
    ensures mem[o] == mem0[o] && mem[o..o + m] == mem0[o..o + m]
  {
    forall k | o <= k < o + Needed(n)
      ensures mem[k] == mem0[k]
    {
      assert mem[k] == mem[o..o + Needed(n)][k - o];
    }
  }

  /** The flag in the header tells exactly which clauses have been moved, and the slot says where to. */
  lemma RelocedIffMoved(mem0: seq<Cell>, size: nat, live: map<nat, nat>, mem: seq<Cell>, fwd: map<nat, nat>, o: nat)
    requires Layout(mem0, size, live) && |mem| == |mem0| && o in live
    requires o in fwd ==> Forwarded(mem0, mem, o, fwd[o])
    requires o !in fwd ==> Untouched(mem0, mem, o, live[o])
    ensures o + HDR < |mem| && mem[o].Head? && (mem[o].h.reloced <==> o in fwd)
    ensures o in fwd ==> mem[o + HDR] == Word(fwd[o])
  {
    LiveBlock(mem0, size, live, o);
    if o !in fwd {
      UntouchedPart(mem0, mem, o, live[o], HDR);
    }
  }

  // ----- references -----

  /** The reason kept with an assigned variable. */
  datatype VarReason = VarReason(reason: Reason, present: bool, level: nat, hasValue: bool)

  /** Whether the reason is still meant: the variable is in use and was propagated at a current level above zero. */
  predicate ReasonAlive(v: VarReason, decisionLevel: nat) {
    v.present && decisionLevel >= v.level && v.level != 0 && v.hasValue
  }

  ghost predicate Extends(fwd: map<nat, nat>, fwd': map<nat, nat>) {
    forall o {:trigger o in fwd'} {:trigger o in fwd} :: o in fwd ==> o in fwd' && fwd'[o] == fwd[o]
  }

  ghost predicate WatchMoved(w: Watched, w': Watched, fwd: map<nat, nat>) {
    if w.Long? then w.off in fwd && w' == Long(fwd[w.off], w.blocked) else w' == w
  }

  /** The same watch list, its clause references redirected. */
  ghost predicate WatchesMoved(ws: seq<Watched>, ws': seq<Watched>, fwd: map<nat, nat>) {
    |ws'| == |ws|
      && forall i {:trigger WatchMoved(ws[i], ws'[i], fwd)} :: 0 <= i < |ws| ==> WatchMoved(ws[i], ws'[i], fwd)
  }

  ghost predicate OffsMoved(os: seq<nat>, os': seq<nat>, fwd: map<nat, nat>) {
    |os'| == |os| && forall i {:trigger Sends(fwd, os[i], os'[i])} :: 0 <= i < |os| ==> Sends(fwd, os[i], os'[i])
  }

  ghost predicate ReasonMoved(v: VarReason, v': VarReason, decisionLevel: nat, fwd: map<nat, nat>) {
    if !v.reason.LongReason? then v' == v
    else if ReasonAlive(v, decisionLevel) then v.reason.off in fwd && v' == v.(reason := LongReason(fwd[v.reason.off]))
    else v' == v.(reason := NoReason)
  }

  /**
   A variable in use that was set above level zero, at a level still there, keeps the clause it was set by; every
   other loses it.
   */
  ghost predicate ReasonsKept(vs: seq<VarReason>, vs': seq<VarReason>, decisionLevel: nat, fwd: map<nat, nat>) {
    |vs'| == |vs| && forall x {:trigger vs'[x]} :: 0 <= x < |vs| && vs[x].reason.LongReason? ==>
      var v := vs[x];
      if v.present && v.hasValue && 0 < v.level <= decisionLevel then
        v.reason.off in fwd && vs'[x].reason == LongReason(fwd[v.reason.off])
      else vs'[x].reason == NoReason
  }

  ghost predicate ReasonsMoved(vs: seq<VarReason>, vs': seq<VarReason>, decisionLevel: nat, fwd: map<nat, nat>) {
    |vs'| == |vs|
      && forall i {:trigger ReasonMoved(vs[i], vs'[i], decisionLevel, fwd)} ::
      0 <= i < |vs| ==> ReasonMoved(vs[i], vs'[i], decisionLevel, fwd)
  }

  // A compaction moves exactly the clauses that some watch list or some matrix refers to.

  ghost function WatchRefs(ws: seq<Watched>): set<nat> {
    set w | w in ws && w.Long? :: w.off
  }

  ghost function ListRefs(lists: seq<seq<Watched>>): set<nat> {
    set ws, o | ws in lists && o in WatchRefs(ws) :: o
  }

  ghost function OffRefs(lists: seq<seq<nat>>): set<nat> {
    set os, o | os in lists && o in os :: o
  }

  ghost function LiveReasons(vs: seq<VarReason>, decisionLevel: nat): set<nat> {
    set v | v in vs && v.reason.LongReason? && ReasonAlive(v, decisionLevel) :: v.reason.off
  }

  ghost predicate ListsMoved(lists: seq<seq<Watched>>, lists': seq<seq<Watched>>, fwd: map<nat, nat>) {
    |lists'| == |lists|
      && forall i {:trigger WatchesMoved(lists[i], lists'[i], fwd)} ::
      0 <= i < |lists| ==> WatchesMoved(lists[i], lists'[i], fwd)
  }

  ghost predicate OffListsMoved(lists: seq<seq<nat>>, lists': seq<seq<nat>>, fwd: map<nat, nat>) {
    |lists'| == |lists|
      && forall i {:trigger OffsMoved(lists[i], lists'[i], fwd)} ::
      0 <= i < |lists| ==> OffsMoved(lists[i], lists'[i], fwd)
  }

  /** What has been redirected stays so while more clauses are moved. */
  lemma WatchesStay(ws: seq<Watched>, ws': seq<Watched>, fwd: map<nat, nat>, fwd': map<nat, nat>)
    requires WatchesMoved(ws, ws', fwd) && Extends(fwd, fwd')
    ensures WatchesMoved(ws, ws', fwd')
  {
    forall i | 0 <= i < |ws|
      ensures WatchMoved(ws[i], ws'[i], fwd')
    {
      assert WatchMoved(ws[i], ws'[i], fwd);
    }
  }

  lemma OffsStay(os: seq<nat>, os': seq<nat>, fwd: map<nat, nat>, fwd': map<nat, nat>)
    requires OffsMoved(os, os', fwd) && Extends(fwd, fwd')
    ensures OffsMoved(os, os', fwd')
  {
    forall i | 0 <= i < |os|
      ensures Sends(fwd', os[i], os'[i])
    {
      assert Sends(fwd, os[i], os'[i]);
    }
  }

  /** Everything outside the arena that refers to clauses. */
  datatype References = References(watches: seq<seq<Watched>>, toClear: seq<seq<nat>>, irredClauses: seq<nat>,
                                   redClauses: seq<seq<nat>>, varData: seq<VarReason>)

  /** What watch lists and matrices refer to is live, and whatever else refers to a clause refers to one of those. */
  ghost predicate RefsOk(r: References, decisionLevel: nat, live: map<nat, nat>) {
    && Moved(r) <= live.Keys
    && (forall o :: o in r.irredClauses ==> o in Moved(r))
    && OffRefs(r.redClauses) <= Moved(r)
    && LiveReasons(r.varData, decisionLevel) <= Moved(r)
  }

  /** The clauses a compaction moves. */
  ghost function Moved(r: References): set<nat> {
    ListRefs(r.watches) + OffRefs(r.toClear)
  }

  ghost predicate RefsMoved(r: References, r': References, decisionLevel: nat, fwd: map<nat, nat>) {
    && ListsMoved(r.watches, r'.watches, fwd)
    && OffListsMoved(r.toClear, r'.toClear, fwd)
    && OffsMoved(r.irredClauses, r'.irredClauses, fwd)
    && OffListsMoved(r.redClauses, r'.redClauses, fwd)
    && ReasonsMoved(r.varData, r'.varData, decisionLevel, fwd)
  }

  lemma ListsStay(lists: seq<seq<Watched>>, lists': seq<seq<Watched>>, fwd: map<nat, nat>, fwd': map<nat, nat>)
    requires ListsMoved(lists, lists', fwd) && Extends(fwd, fwd')
    ensures ListsMoved(lists, lists', fwd')
  {
    forall i | 0 <= i < |lists|
      ensures WatchesMoved(lists[i], lists'[i], fwd')
    {
      WatchesStay(lists[i], lists'[i], fwd, fwd');
    }
  }

  /** The clause at `o` in one arena and the one at `to` in another: same flags, same literals. */
  ghost predicate SameClause(mem: seq<Cell>, o: nat, mem': seq<Cell>, to: nat) {
    && o < |mem| && mem[o].Head? && o + Needed(mem[o].h.size) <= |mem|
    && to < |mem'| && mem'[to] == mem[o] && to + Needed(mem[o].h.size) <= |mem'|
    && Image(mem', to) == Image(mem, o)
  }

  /** The outcome of a compaction: moved clauses are unchanged, apart, back to back, and nothing else is left. */
  ghost predicate Compacted(mem: seq<Cell>, mem': seq<Cell>, size': nat, live': map<nat, nat>, fwd: map<nat, nat>) {
    && (forall o {:trigger fwd[o]} :: o in fwd ==> SameClause(mem, o, mem', fwd[o]))
    && (forall o {:trigger fwd[o]} :: o in fwd ==> fwd[o] in live' && live'[fwd[o]] == mem[o].h.size)
    && Injective(fwd) && Targets(fwd, live')
    && Layout(mem', size', live') && size' == Total(live')
  }

  lemma MovingDone(mem0: seq<Cell>, size: nat, live: map<nat, nat>, mem: seq<Cell>, dst: seq<Cell>, newPtr: nat,
                   newLive: map<nat, nat>, fwd: map<nat, nat>)
    requires Moving(mem0, size, live, mem, dst, newPtr, newLive, fwd)
    ensures Compacted(mem0, dst, newPtr, newLive, fwd)
  {
    forall o | o in fwd
      ensures SameClause(mem0, o, dst, fwd[o])
    {
      assert CopiedTo(mem0, dst, o, fwd[o]);
      assert dst[fwd[o]] == dst[fwd[o]..fwd[o] + Needed(mem0[o].h.size)][0] == Image(mem0, o)[0];
    }
  }

  /** The clauses in `os` still have at least three literals. */
  ghost predicate AllLong(mem: seq<Cell>, os: set<nat>) {
    forall o {:trigger o in os} :: o in os ==> o < |mem| && mem[o].Head? ==> mem[o].h.size >= 3
  }

  /** Clauses that were long enough before a compaction are allocated long enough after it. */
  lemma StillRoomy(mem: seq<Cell>, mem': seq<Cell>, size': nat, live': map<nat, nat>, fwd: map<nat, nat>)
    requires Compacted(mem, mem', size', live', fwd)
    ensures AllLong(mem, fwd.Keys) <==> forall t :: t in live' ==> live'[t] >= 3
  {
    hide Layout, Total, Image, Injective;
    if AllLong(mem, fwd.Keys) {
      forall t | t in live'
        ensures live'[t] >= 3
      {
        var o :| Sends(fwd, o, t);
        assert SameClause(mem, o, mem', fwd[o]) && o in fwd.Keys;
      }
    }
    if forall t :: t in live' ==> live'[t] >= 3 {
      forall o | o in fwd.Keys && o < |mem| && mem[o].Head?
        ensures mem[o].h.size >= 3
      {
        assert fwd[o] in live';
      }
    }
  }

  // ----- the counter over whole histories -----

  /**
   What allocating, shrinking and freeing depend on: the counter, and for each live clause its room, its size and
   whether it is temporary.
   */
  datatype Books = Books(size: nat, counter: int, room: map<nat, nat>, sizes: map<nat, nat>, temp: set<nat>)

  ghost function BooksOf(mem: seq<Cell>, size: nat, counter: int, live: map<nat, nat>): Books
    requires Layout(mem, size, live)
  {
    assert forall o :: o in live ==> BlockOk(mem, size, live, o);
    Books(size, counter, live, Sizes(mem, live), set o | o in live && mem[o].h.gaussTemp)
  }

  /** By how much the counter exceeds the room of the live clauses. */
  ghost function Excess(b: Books): int {
    b.counter - Total(b.room)
  }

  ghost predicate BooksOk(b: Books) {
    && b.sizes.Keys == b.room.Keys
    && (forall o {:trigger b.room[o]} ::
      o in b.room ==> 1 <= b.sizes[o] <= b.room[o] && o + Needed(b.room[o]) <= b.size)
    && forall o, p {:trigger Apart(b.room, o, p)} :: o in b.room && p in b.room && o != p ==> Apart(b.room, o, p)
  }

  /** A clause of `n` literals at the end. */
  function Allocated(b: Books, n: nat, temp: bool): Books {
    Books(b.size + Needed(n), b.counter + Needed(n), b.room[b.size := n], b.sizes[b.size := n], if temp then
      b.temp + {b.size} else b.temp - {b.size})
  }

  function Shrunk(b: Books, o: nat, i: nat): Books
    requires o in b.sizes && i < b.sizes[o]
  {
    b.(sizes := b.sizes[o := b.sizes[o] - i])
  }

  /** A temporary clause at the very end is cut off when it is given back. */
  predicate CutOff(b: Books, o: nat)
    requires o in b.sizes
  {
    o in b.temp && o + Needed(b.sizes[o]) == b.size
  }

  function Freed(b: Books, o: nat): Books
    requires o in b.sizes
  {
    var n := b.sizes[o];
    if CutOff(b, o) then
      Books(if b.size >= Needed(n) then b.size - Needed(n)
      else 0, b.counter - Needed(n), b.room - {o}, b.sizes - {o}, b.temp - {o})
    else Books(b.size, b.counter - Needed(if n > 3 then n else 3), b.room - {o}, b.sizes - {o}, b.temp - {o})
  }

  ghost predicate Allocates(b: Books, b': Books) {
    exists n: nat, temp: bool {:trigger Allocated(b, n, temp)} ::
      n >= 3 && b.size + Needed(n) <= MAXSIZE && b' == Allocated(b, n, temp)
  }

  ghost predicate Shrinks(b: Books, b': Books) {
    exists o: nat, i: nat {:trigger Shrunk(b, o, i)} :: o in b.sizes && i < b.sizes[o] && b' == Shrunk(b, o, i)
  }

  ghost predicate Frees(b: Books, b': Books) {
    exists o: nat {:trigger Freed(b, o)} :: o in b.sizes && b' == Freed(b, o)
  }

  ghost predicate Step(b: Books, b': Books) {
    Allocates(b, b') || Shrinks(b, b') || Frees(b, b')
  }

  /** Any number of steps, each allocating three literals or more, shrinking or freeing. */
  ghost predicate History(b: Books, h: seq<Books>) {
    h != [] && h[0] == b && forall k {:trigger h[k]} :: 0 < k < |h| ==> Step(h[k - 1], h[k])
  }

  /** However it goes on, the counter covers what is live. */
  ghost predicate AlwaysCovered(b: Books) {
    forall h: seq<Books> {:trigger History(b, h)} :: History(b, h) ==> Excess(h[|h| - 1]) >= 0
  }

  ghost predicate Roomy(b: Books) {
    forall o {:trigger b.room[o]} :: o in b.room ==> b.room[o] >= 3
  }

  lemma AllocatedOk(b: Books, n: nat, temp: bool)
    requires BooksOk(b) && n >= 1
    ensures BooksOk(Allocated(b, n, temp)) && Excess(Allocated(b, n, temp)) == Excess(b) && b.size !in b.room
  {
    var b' := Allocated(b, n, temp);
    assert b.size in b.room ==> b.size + Needed(b.room[b.size]) <= b.size;
    TotalAdd(b.room, b.size, n);
    forall o, p | o in b'.room && p in b'.room && o != p
      ensures Apart(b'.room, o, p)
    {
      if o == b.size {
        assert p + Needed(b.room[p]) <= b.size;
      } else if p == b.size {
        assert o + Needed(b.room[o]) <= b.size;
      } else {
        assert Apart(b.room, o, p);
      }
    }
  }

  /**
   Giving a clause back changes the excess by its room less its size, which counts as three if it is less; nothing if
   it is cut off.
   */
  lemma FreedOk(b: Books, o: nat)
    requires BooksOk(b) && o in b.sizes
    ensures BooksOk(Freed(b, o))
    ensures o in b.room && b.sizes[o] <= b.room[o] && Excess(Freed(b, o)) == Excess(b) + if CutOff(b, o) then 0
      else b.room[o] as int - if b.sizes[o] > 3 then b.sizes[o] else 3
  {
    TotalRemove(b.room, o);
    var b' := Freed(b, o);
    assert b.room[o] >= b.sizes[o];
    forall p | p in b'.room
      ensures p + Needed(b'.room[p]) <= b'.size
    {
      assert Apart(b.room, o, p) && p + Needed(b.room[p]) <= b.size;
    }
    forall p, q | p in b'.room && q in b'.room && p != q
      ensures Apart(b'.room, p, q)
    {
      assert Apart(b.room, p, q);
    }
  }

  /**
   From a counter that is exact, giving back a clause that is not cut off leaves it high enough iff the clause has
   room for three literals.
   */
  lemma FreedCovered(b: Books, o: nat)
    requires BooksOk(b) && o in b.sizes && Excess(b) == 0 && !CutOff(b, o)
    ensures Excess(Freed(b, o)) >= 0 <==> b.room[o] >= 3
  {
    FreedOk(b, o);
    assert b.room[o] >= b.sizes[o];
  }

  lemma ShrunkOk(b: Books, o: nat, i: nat)
    requires BooksOk(b) && o in b.sizes && i < b.sizes[o]
    ensures BooksOk(Shrunk(b, o, i)) && Excess(Shrunk(b, o, i)) == Excess(b)
  {
    hide Total;
    var b' := Shrunk(b, o, i);
    assert b.sizes[o] <= b.room[o];
    forall p | p in b'.room
      ensures 1 <= b'.sizes[p] <= b'.room[p] && p + Needed(b'.room[p]) <= b'.size
    {
      assert 1 <= b.sizes[p] <= b.room[p];
    }
  }

  lemma StepKeeps(b: Books, b': Books)
    requires BooksOk(b) && Step(b, b')
    ensures BooksOk(b') && (Roomy(b) ==> Roomy(b') && Excess(b') >= Excess(b))
  {
    hide Total, BooksOk, Excess;
    if Allocates(b, b') {
      var n: nat, temp: bool :| n >= 3 && b.size + Needed(n) <= MAXSIZE && b' == Allocated(b, n, temp);
      AllocatedOk(b, n, temp);
    } else if Shrinks(b, b') {
      var o: nat, i: nat :| o in b.sizes && i < b.sizes[o] && b' == Shrunk(b, o, i);
      ShrunkOk(b, o, i);
    } else {
      var o: nat :| o in b.sizes && b' == Freed(b, o);
      FreedOk(b, o);
      if Roomy(b) {
        assert b.room[o] >= 3;
        assert forall p :: p in b'.room ==> b'.room[p] == b.room[p];
      }
    }
  }

  lemma {:induction false} HistoryKeeps(b: Books, h: seq<Books>)
    requires BooksOk(b) && History(b, h) && Roomy(b) && Excess(b) >= 0
    ensures BooksOk(h[|h| - 1]) && Roomy(h[|h| - 1]) && Excess(h[|h| - 1]) >= 0
    decreases |h|
  {
    hide BooksOk, Roomy, Excess, Step;
    if |h| > 1 {
      var n := |h| - 1;
      assert forall k :: 0 <= k < n ==> h[..n][k] == h[k];
      HistoryKeeps(b, h[..n]);
      assert Step(h[n - 1], h[n]);
      StepKeeps(h[n - 1], h[n]);
    }
  }

  /**
   A short clause spoils the counter: give it back, after something else has been put behind it if it would be cut
   off.
   */
  lemma ShortSpoils(b: Books, o: nat) returns (h: seq<Books>)
    requires BooksOk(b) && Excess(b) == 0 && o in b.room && b.room[o] < 3 && b.size + Needed(3) <= MAXSIZE
    ensures History(b, h) && Excess(h[|h| - 1]) < 0
  {
    assert 1 <= b.sizes[o] <= b.room[o] && o + Needed(b.room[o]) <= b.size;
    if !CutOff(b, o) {
      var b' := Freed(b, o);
      FreedOk(b, o);
      assert Frees(b, b');
      h := [b, b'];
    } else {
      var c := Allocated(b, 3, false);
      AllocatedOk(b, 3, false);
      assert Allocates(b, c);
      var d := Freed(c, o);
      FreedOk(c, o);
      assert Frees(c, d);
      h := [b, c, d];
    }
  }

  /**
   From an exact counter, as in a fresh arena or after a compaction, the counter covers what is live in every
   history of allocating three literals or more, shrinking and freeing iff every live clause has room for three.
   Only the history that goes wrong needs one more clause to fit in.
   */
  lemma CoveredIffRoomy(b: Books)
    requires BooksOk(b) && Excess(b) == 0
    ensures Roomy(b) ==> AlwaysCovered(b)
    ensures b.size + Needed(3) <= MAXSIZE ==> (AlwaysCovered(b) <==> Roomy(b))
  {
    if Roomy(b) {
      forall h: seq<Books> | History(b, h)
        ensures Excess(h[|h| - 1]) >= 0
      {
        HistoryKeeps(b, h);
      }
    } else if b.size + Needed(3) <= MAXSIZE {
      var o :| o in b.room && b.room[o] < 3;
      var h := ShortSpoils(b, o);
      assert !AlwaysCovered(b);
    }
  }

  lemma LayoutBooks(mem: seq<Cell>, size: nat, counter: int, live: map<nat, nat>)
    requires Layout(mem, size, live)
    ensures BooksOk(BooksOf(mem, size, counter, live))
  {
    forall o | o in live
      ensures o < |mem| && mem[o].Head? && 1 <= mem[o].h.size <= live[o] && o + Needed(live[o]) <= size
    {
      assert BlockOk(mem, size, live, o);
    }
  }

  lemma NewBooks(mem: seq<Cell>, mem': seq<Cell>, size: nat, counter: int, live: map<nat, nat>, n: nat)
    requires Layout(mem, size, live) && Layout(mem', size + Needed(n), live[size := n]) && size !in live && n >= 3
      && size + Needed(n) <= MAXSIZE
    requires mem'[..size] == mem[..size] && mem'[size].Head? && mem'[size].h.size == n
    ensures Allocates(BooksOf(mem, size, counter, live),
      BooksOf(mem', size + Needed(n), counter + Needed(n), live[size := n]))
  {
    var b, b' :=
      BooksOf(mem, size, counter, live), BooksOf(mem', size + Needed(n), counter + Needed(n), live[size := n]);
    forall o | o in live
      ensures o < size && mem'[o] == mem[o]
    {
      assert BlockOk(mem, size, live, o);
      assert mem'[o] == mem'[..size][o];
    }
    assert b' == Allocated(b, n, mem'[size].h.gaussTemp);
  }

  lemma ShrunkBooks(mem: seq<Cell>, mem': seq<Cell>, size: nat, counter: int, live: map<nat, nat>, o: nat, i: nat)
    requires Layout(mem, size, live) && Layout(mem', size, live) && o in live && o < |mem| && mem[o].Head?
      && i < mem[o].h.size
    requires mem' == mem[o := Head(mem[o].h.(size := mem[o].h.size - i))]
    ensures Shrinks(BooksOf(mem, size, counter, live), BooksOf(mem', size, counter, live))
  {
    forall p | p in live
      ensures p < |mem| && mem[p].Head?
    {
      assert BlockOk(mem, size, live, p);
    }
    hide Layout, BlockOk, Total;
    var b, b' := BooksOf(mem, size, counter, live), BooksOf(mem', size, counter, live);
    assert b'.sizes == b.sizes[o := b.sizes[o] - i];
    assert b' == Shrunk(b, o, i);
  }

  /** The books after a clause was cut off or marked. */
  lemma FreedBooks(mem: seq<Cell>, mem': seq<Cell>, size: nat, size': nat, counter: int, counter': int,
                   live: map<nat, nat>, o: nat)
    requires Layout(mem, size, live) && o in live && o < |mem| && mem[o].Head? && Layout(mem', size', live - {o})
    requires forall p :: p in live && p != o ==> ImageKept(mem, mem', p)
    requires var n := mem[o].h.size;
      if mem[o].h.gaussTemp && o + Needed(n) == size then size' == size - Needed(n) && counter' == counter - Needed(n)
      else size' == size && counter' == counter - Needed(if n > 3 then n else 3)
    ensures Frees(BooksOf(mem, size, counter, live), BooksOf(mem', size', counter', live - {o}))
  {
    hide Image;
    forall p | p in live
      ensures p < |mem| && mem[p].Head? && (p != o ==> p < |mem'| && mem'[p] == mem[p])
    {
      assert BlockOk(mem, size, live, p);
    }
    hide Layout, BlockOk, Total;
    var b, b' := BooksOf(mem, size, counter, live), BooksOf(mem', size', counter', live - {o});
    assert b'.sizes == b.sizes - {o};
    assert b'.temp == b.temp - {o};
    assert b' == Freed(b, o);
  }

  /** What a compaction has moved so far: the clauses of the new arena and where each old one went. */
  datatype Progress = Progress(newLive: map<nat, nat>, fwd: map<nat, nat>)

  class ClauseAllocator {
    var data: array<Cell>
    var size: nat
    var capacity: nat
    var currentlyUsedSize: int
    /** Live clauses and the number of literals each was allocated for. */
    ghost var live: map<nat, nat>

    ghost predicate Structure()
      reads this, data
    {
      data.Length == capacity <= MAXSIZE && size <= capacity && currentlyUsedSize <= size
        && Layout(data[..], size, live)
    }

    /** By how much the counter overestimates the room of the live clauses. */
    ghost function Slack(): int
      reads `currentlyUsedSize, `live
    {
      currentlyUsedSize - Total(live)
    }

    ghost predicate Valid()
      reads this, data
    {
      Structure() && Slack() >= 0
    }

    ghost function Account(): Books
      requires Structure()
      reads this, data
    {
      BooksOf(data[..], size, currentlyUsedSize, live)
    }

    /**
     The promise kept over every history in which no clause is allocated, or survives a compaction, with fewer
     than three literals: the counter never falls below what the live clauses take up.
     */
    ghost predicate Sound()
      reads this, data
    {
      Valid() && forall o :: o in live ==> live[o] >= 3
    }

    constructor ()
      ensures Sound() && live == map[] && Slack() == 0 && size == 0 && fresh(data)
      ensures AlwaysCovered(Account())
    {
      data := new Cell[0];
      size := 0;
      capacity := 0;
      currentlyUsedSize := 0;
      live := map[];
      new;
      CoveredIffRoomy(Account());
    }

    /** Room for a clause of `n` literals at the end of the arena, which grows if need be. */
    method AllocEnough(n: nat) returns (at: Option<nat>)
      requires Structure()
      modifies this`data, this`size, this`capacity, this`currentlyUsedSize
      ensures at.None? <==> old(size) + Needed(n) > MAXSIZE
      ensures at.None? ==>
        Structure() && size == old(size) && currentlyUsedSize == old(currentlyUsedSize) && data == old(data)
      ensures at.Some? ==> at.value == old(size) && size == old(size) + Needed(n) <= capacity == data.Length <= MAXSIZE
      ensures at.Some? ==> currentlyUsedSize == old(currentlyUsedSize) + Needed(n)
      ensures at.Some? ==> data[..old(size)] == old(data[..size])
      ensures data == old(data) || fresh(data)
      // the storage is replaced only if it is too small, and then by half as much again if that may be
      ensures at.Some? ==>
        if size <= old(capacity) then data == old(data) && capacity == old(capacity)
        else fresh(data) && capacity >= MIN_LIST_SIZE && (capacity == MAXSIZE || capacity >= old(capacity) * 3 / 2)
    {
      var needed := Needed(n);
      if size + needed > capacity {
        var newcapacity := capacity * 3 / 2;
        newcapacity := if newcapacity < size + needed then size + needed else newcapacity;
        newcapacity := if newcapacity > MAXSIZE then MAXSIZE else newcapacity;
        newcapacity := if newcapacity < MIN_LIST_SIZE then MIN_LIST_SIZE else newcapacity;
        if newcapacity < size + needed {
          return None;
        }
        var newData := new Cell[newcapacity](_ => Word(0));
        forall i | 0 <= i < size {
          newData[i] := data[i];
        }
        assert newData[..size] == data[..size];
        data := newData;
        capacity := newcapacity;
      }
      at := Some(size);
      size := size + needed;
      currentlyUsedSize := currentlyUsedSize + needed;
    }

    method WriteClause(o: nat, h: Header, lits: seq<nat>)
      requires o + Needed(|lits|) <= data.Length
      modifies data
      ensures data[o] == Head(h) && forall k :: 0 <= k < |lits| ==> data[o + HDR + k] == Word(lits[k])
      ensures data[..o] == old(data[..o])
    {
      data[o] := Head(h);
      for k := 0 to |lits|
        invariant data[o] == Head(h)
        invariant forall i :: 0 <= i < k ==> data[o + HDR + i] == Word(lits[i])
        invariant data[..o] == old(data[..o])
      {
        data[o + HDR + k] := Word(lits[k]);
      }
    }

    /** A new clause: header and literals. It must not be empty. */
    method ClauseNew(lits: seq<nat>, red: bool, gaussTemp: bool, stats: int) returns (at: Option<nat>)
      requires Structure() && lits != []
      modifies this, data
      ensures Structure() && Slack() == old(Slack()) && (data == old(data) || fresh(data))
      ensures old(Sound()) && |lits| >= 3 ==> Sound()
      ensures at.Some? && |lits| >= 3 ==> Allocates(old(Account()), Account())
      ensures at.None? <==> old(size) + Needed(|lits|) > MAXSIZE
      ensures at.None? ==> live == old(live) && data == old(data) && data[..] == old(data[..]) && size == old(size)
      ensures at.Some? ==>
        at.value == old(size) && live == old(live)[at.value := |lits|] && at.value + Needed(|lits|) == size
      ensures at.Some? ==> data[at.value] == Head(Header(|lits|, red, false, false, gaussTemp, stats))
      ensures at.Some? ==> forall k :: 0 <= k < |lits| ==> data[at.value + HDR + k] == Word(lits[k])
      ensures at.Some? ==> data[..at.value] == old(data[..size])
    {
      hide Layout, Total, BooksOf, Allocates, BlockOk;
      at := AllocEnough(|lits|);
      if at == None {
        return;
      }
      var o := at.value;
      var h := Header(|lits|, red, false, false, gaussTemp, stats);
      WriteClause(o, h, lits);
      assert forall k :: o + HDR <= k < o + Needed(|lits|) ==> data[k] == Word(lits[k - o - HDR]);
      assert data[..][..o] == data[..o] == old(data[..][..size]);
      NewBlock(old(data[..]), data[..], o, live, |lits|);
      if |lits| >= 3 {
        NewKey(old(data[..]), o, live);
        NewBooks(old(data[..]), data[..], o, old(currentlyUsedSize), live, |lits|);
      }
      live := live[o := |lits|];
    }

    /** The clause loses its last `i` literals, but not all of them; its block stays as it is. */
    method Shrink(o: nat, i: nat)
      requires Structure() && o in live && o < data.Length && data[o].Head? && i < data[o].h.size
      modifies data
      ensures Structure() && data[..] == old(data[..])[o := Head(old(data[o].h).(size := old(data[o].h.size) - i))]
      ensures old(Sound()) ==> Sound()
      ensures Shrinks(old(Account()), Account())
    {
      ghost var mem := data[..];
      hide Layout, BlockOk, BooksOf, Shrinks, Total;
      BlockFits(mem, size, live, o);
      HeaderChanged(mem, size, live, o, data[o].h.(size := data[o].h.size - i), live);
      data[o] := Head(data[o].h.(size := data[o].h.size - i));
      assert data[..] == mem[o := data[o]];
      ShrunkBooks(mem, data[..], size, currentlyUsedSize, live, o, i);
    }

    /**
     The clause is given back: cut off if it is a temporary one at the very end, marked otherwise. The counter
     drops by an estimate from the current size, never less than that of three literals, so the slack grows by
     what the clause had been shrunk, unless fewer than three literals were allocated.
     */
    method ClauseFree(o: nat)
      requires Structure() && o in live && o < data.Length && data[o].Head?
      modifies this`size, this`currentlyUsedSize, this`live, data
      ensures Structure() && live == old(live) - {o}
      ensures old(Sound()) ==> Sound()
      ensures forall p :: p in live ==> ImageKept(old(data[..]), data[..], p)
      ensures var h := old(data[o].h);
        Slack() == old(Slack()) + if h.gaussTemp && o + Needed(h.size) == old(size) then 0
                                  else old(live[o]) - if h.size > 3 then h.size else 3
      ensures Frees(old(Account()), Account())
      ensures old(Slack()) == 0 && !(old(data[o].h.gaussTemp) && o + Needed(old(data[o].h.size)) == old(size)) ==>
        (Slack() >= 0 <==> old(live[o]) >= 3)
      ensures var h := old(data[o].h);
        if h.gaussTemp && o + Needed(h.size) == old(size) then size == o && data[..] == old(data[..])
        else size == old(size) && data[..] == old(data[..])[o := Head(h.(freed := true))]
    {
      hide Layout, BlockOk, Total, BooksOf, Frees, ImageKept, Image;
      ghost var mem := data[..];
      var h := data[o].h;
      BlockFits(mem, size, live, o);
      TotalRemove(live, o);
      var needed := Needed(h.size);
      if h.gaussTemp && o + needed == size {
        CutLast(mem, size, live, o);
        AllKept(mem, mem, size, live);
        size := size - needed;
        currentlyUsedSize := currentlyUsedSize - needed;
      } else {
        var freed := h.(freed := true);
        HeaderChanged(mem, size, live, o, freed, live - {o});
        FreeElsewhere(mem, size, live, o, freed);
        data[o] := Head(freed);
        assert data[..] == mem[o := Head(freed)];
        var estNumCl := if h.size > 3 then h.size else 3;
        currentlyUsedSize := currentlyUsedSize - Needed(estNumCl);
      }
      live := live - {o};
      FreedBooks(mem, data[..], old(size), size, old(currentlyUsedSize), currentlyUsedSize, old(live), o);
    }

    // ----- compaction -----

    ghost predicate Copying(mem0: seq<Cell>, dst: array<Cell>, newPtr: nat, g: Progress)
      reads this, data, dst
    {
      && dst != data && Total(live) <= dst.Length
      && Moving(mem0, size, live, data[..], dst[..], newPtr, g.newLive, g.fwd)
    }

    /** Copies one clause to the end of the new arena and leaves the new offset in its first literal slot. */
    method MoveCl(dst: array<Cell>, newPtr: nat, o: nat, ghost mem0: seq<Cell>, ghost g: Progress)
      returns (to: nat, newPtr': nat, ghost g': Progress)
      requires Copying(mem0, dst, newPtr, g) && o in live && o !in g.fwd
      modifies data, dst
      ensures Copying(mem0, dst, newPtr', g') && g'.fwd == g.fwd[o := to] && to == newPtr
    {
      hide Total, Forwarded, Targets, Layout, FwdSizes;
      ghost var mem, was := data[..], dst[..];
      LiveBlock(mem0, size, live, o);
      RoomLeft(mem0, size, live, g.fwd, o, newPtr);
      assert Untouched(mem0, mem, o, live[o]);
      UntouchedPart(mem0, mem, o, live[o], Needed(mem0[o].h.size));
      ghost var n := mem0[o].h.size;
      var h := data[o].h;
      var sizeNeeded := Needed(h.size);
      for k := 0 to sizeNeeded
        invariant data[..] == mem
        invariant dst[..newPtr] == was[..newPtr]
        invariant dst[newPtr..newPtr + k] == mem[o..o + k]
      {
        dst[newPtr + k] := data[o + k];
      }
      assert dst[..][newPtr..newPtr + sizeNeeded] == dst[newPtr..newPtr + sizeNeeded] == Image(mem0, o);
      assert dst[..][..newPtr] == was[..newPtr];
      data[o + HDR] := Word(newPtr);
      data[o] := Head(h.(reloced := true));
      assert data[..] == mem[o + HDR := Word(newPtr)][o := Head(h.(reloced := true))];
      MovingNext(mem0, size, live, mem, was, newPtr, g.newLive, g.fwd, o, data[..], dst[..]);
      to := newPtr;
      newPtr' := newPtr + sizeNeeded;
      g' := Progress(g.newLive[newPtr := n], g.fwd[o := newPtr]);
    }

    /** One reference: the clause is moved, unless it was already. */
    method Redirect(dst: array<Cell>, newPtr: nat, o: nat, ghost mem0: seq<Cell>, ghost g: Progress)
      returns (to: nat, newPtr': nat, ghost g': Progress)
      requires Copying(mem0, dst, newPtr, g) && o in live
      modifies data, dst
      ensures Copying(mem0, dst, newPtr', g') && Extends(g.fwd, g'.fwd)
      ensures Sends(g'.fwd, o, to) && g'.fwd.Keys == g.fwd.Keys + {o}
    {
      RelocedIffMoved(mem0, size, live, data[..], g.fwd, o);
      if data[o].h.reloced {
        to := data[o + HDR].x;
        newPtr' := newPtr;
        g' := g;
      } else {
        to, newPtr', g' := MoveCl(dst, newPtr, o, mem0, g);
      }
    }

    method RedirectWatches(dst: array<Cell>, newPtr: nat, ws: seq<Watched>, ghost mem0: seq<Cell>, ghost g: Progress)
      returns (ws': seq<Watched>, newPtr': nat, ghost g': Progress)
      requires Copying(mem0, dst, newPtr, g) && WatchRefs(ws) <= live.Keys
      modifies data, dst
      ensures Copying(mem0, dst, newPtr', g') && Extends(g.fwd, g'.fwd)
      ensures WatchesMoved(ws, ws', g'.fwd) && g'.fwd.Keys == g.fwd.Keys + WatchRefs(ws)
    {
      hide Copying;
      ws', newPtr', g' := [], newPtr, g;
      for i := 0 to |ws|
        invariant Copying(mem0, dst, newPtr', g') && Extends(g.fwd, g'.fwd)
        invariant WatchesMoved(ws[..i], ws', g'.fwd) && g'.fwd.Keys == g.fwd.Keys + WatchRefs(ws[..i])
      {
        ghost var before := g'.fwd;
        var w := ws[i];
        assert ws[..i + 1] == ws[..i] + [w];
        if w.Long? {
          assert w.off in WatchRefs(ws);
          var to;
          to, newPtr', g' := Redirect(dst, newPtr', w.off, mem0, g');
          w := Long(to, w.blocked);
        }
        WatchesStay(ws[..i], ws', before, g'.fwd);
        ws' := ws' + [w];
        assert WatchMoved(ws[i], w, g'.fwd);
      }
      assert ws[..|ws|] == ws;
    }

    method RedirectOffs(dst: array<Cell>, newPtr: nat, os: seq<nat>, ghost mem0: seq<Cell>, ghost g: Progress)
      returns (os': seq<nat>, newPtr': nat, ghost g': Progress)
      requires Copying(mem0, dst, newPtr, g) && forall o :: o in os ==> o in live
      modifies data, dst
      ensures Copying(mem0, dst, newPtr', g') && Extends(g.fwd, g'.fwd)
      ensures OffsMoved(os, os', g'.fwd) && g'.fwd.Keys == g.fwd.Keys + set o | o in os
    {
      hide Copying;
      os', newPtr', g' := [], newPtr, g;
      for i := 0 to |os|
        invariant Copying(mem0, dst, newPtr', g') && Extends(g.fwd, g'.fwd)
        invariant OffsMoved(os[..i], os', g'.fwd) && g'.fwd.Keys == g.fwd.Keys + set o | o in os[..i]
      {
        ghost var before := g'.fwd;
        assert os[..i + 1] == os[..i] + [os[i]];
        var to;
        to, newPtr', g' := Redirect(dst, newPtr', os[i], mem0, g');
        OffsStay(os[..i], os', before, g'.fwd);
        os' := os' + [to];
        assert Sends(g'.fwd, os[i], to);
      }
      assert os[..|os|] == os;
    }

    method RedirectLists(dst: array<Cell>, newPtr: nat, lists: seq<seq<Watched>>, ghost mem0: seq<Cell>,
                         ghost g: Progress)
      returns (lists': seq<seq<Watched>>, newPtr': nat, ghost g': Progress)
      requires Copying(mem0, dst, newPtr, g) && ListRefs(lists) <= live.Keys
      modifies data, dst
      ensures Copying(mem0, dst, newPtr', g') && Extends(g.fwd, g'.fwd)
      ensures ListsMoved(lists, lists', g'.fwd) && g'.fwd.Keys == g.fwd.Keys + ListRefs(lists)
    {
      hide Copying, WatchRefs, WatchesMoved;
      lists', newPtr', g' := [], newPtr, g;
      for i := 0 to |lists|
        invariant Copying(mem0, dst, newPtr', g') && Extends(g.fwd, g'.fwd)
        invariant ListsMoved(lists[..i], lists', g'.fwd) && g'.fwd.Keys == g.fwd.Keys + ListRefs(lists[..i])
      {
        ghost var before := g'.fwd;
        assert lists[..i + 1] == lists[..i] + [lists[i]];
        assert lists[i] in lists;
        var ws';
        ws', newPtr', g' := RedirectWatches(dst, newPtr', lists[i], mem0, g');
        forall j | 0 <= j < i
          ensures WatchesMoved(lists[j], lists'[j], g'.fwd)
        {
          assert WatchesMoved(lists[..i][j], lists'[j], before);
          WatchesStay(lists[j], lists'[j], before, g'.fwd);
        }
        lists' := lists' + [ws'];
      }
      assert lists[..|lists|] == lists;
    }

    method RedirectOffLists(dst: array<Cell>, newPtr: nat, lists: seq<seq<nat>>, ghost mem0: seq<Cell>,
                            ghost g: Progress)
      returns (lists': seq<seq<nat>>, newPtr': nat, ghost g': Progress)
      requires Copying(mem0, dst, newPtr, g) && OffRefs(lists) <= live.Keys
      modifies data, dst
      ensures Copying(mem0, dst, newPtr', g') && Extends(g.fwd, g'.fwd)
      ensures OffListsMoved(lists, lists', g'.fwd) && g'.fwd.Keys == g.fwd.Keys + OffRefs(lists)
    {
      hide Copying, OffsMoved;
      lists', newPtr', g' := [], newPtr, g;
      for i := 0 to |lists|
        invariant Copying(mem0, dst, newPtr', g') && Extends(g.fwd, g'.fwd)
        invariant OffListsMoved(lists[..i], lists', g'.fwd) && g'.fwd.Keys == g.fwd.Keys + OffRefs(lists[..i])
      {
        ghost var before := g'.fwd;
        assert lists[..i + 1] == lists[..i] + [lists[i]];
        assert lists[i] in lists;
        var os';
        os', newPtr', g' := RedirectOffs(dst, newPtr', lists[i], mem0, g');
        forall j | 0 <= j < i
          ensures OffsMoved(lists[j], lists'[j], g'.fwd)
        {
          assert OffsMoved(lists[..i][j], lists'[j], before);
          OffsStay(lists[j], lists'[j], before, g'.fwd);
        }
        lists' := lists' + [os'];
      }
      assert lists[..|lists|] == lists;
    }

    /** The new offset of a clause that has been moved. */
    method TakeForward(dst: array<Cell>, newPtr: nat, o: nat, ghost mem0: seq<Cell>, ghost g: Progress)
      returns (to: nat)
      requires Copying(mem0, dst, newPtr, g) && o in g.fwd
      ensures to == g.fwd[o]
    {
      RelocedIffMoved(mem0, size, live, data[..], g.fwd, o);
      to := data[o + HDR].x;
    }

    /** A clause list, all of whose clauses have been moved. */
    method UpdateOffsets(dst: array<Cell>, newPtr: nat, os: seq<nat>, ghost mem0: seq<Cell>, ghost g: Progress)
      returns (os': seq<nat>)
      requires Copying(mem0, dst, newPtr, g) && forall o :: o in os ==> o in g.fwd
      ensures OffsMoved(os, os', g.fwd)
    {
      hide Copying;
      os' := [];
      for i := 0 to |os|
        invariant OffsMoved(os[..i], os', g.fwd)
      {
        assert os[i] in os;
        var to := TakeForward(dst, newPtr, os[i], mem0, g);
        os' := os' + [to];
        assert Sends(g.fwd, os[i], to);
      }
      assert os[..|os|] == os;
    }

    method UpdateOffsetLists(dst: array<Cell>, newPtr: nat, lists: seq<seq<nat>>, ghost mem0: seq<Cell>,
                             ghost g: Progress) returns (lists': seq<seq<nat>>)
      requires Copying(mem0, dst, newPtr, g) && OffRefs(lists) <= g.fwd.Keys
      ensures OffListsMoved(lists, lists', g.fwd)
    {
      hide Copying, OffsMoved;
      lists' := [];
      for i := 0 to |lists|
        invariant OffListsMoved(lists[..i], lists', g.fwd)
      {
        assert lists[i] in lists;
        var os' := UpdateOffsets(dst, newPtr, lists[i], mem0, g);
        lists' := lists' + [os'];
      }
      assert lists[..|lists|] == lists;
    }

    /** Clause reasons that are still meant follow their clause, the others are dropped. */
    method UpdateReasons(dst: array<Cell>, newPtr: nat, vs: seq<VarReason>, decisionLevel: nat, ghost mem0: seq<Cell>,
                         ghost g: Progress) returns (vs': seq<VarReason>)
      requires Copying(mem0, dst, newPtr, g) && LiveReasons(vs, decisionLevel) <= g.fwd.Keys
      ensures ReasonsMoved(vs, vs', decisionLevel, g.fwd)
    {
      hide Copying;
      vs' := [];
      for i := 0 to |vs|
        invariant ReasonsMoved(vs[..i], vs', decisionLevel, g.fwd)
      {
        var v := vs[i];
        assert v in vs;
        if v.reason.LongReason? {
          if ReasonAlive(v, decisionLevel) {
            assert v.reason.off in LiveReasons(vs, decisionLevel);
            var to := TakeForward(dst, newPtr, v.reason.off, mem0, g);
            v := v.(reason := LongReason(to));
          } else {
            v := v.(reason := NoReason);
          }
        }
        vs' := vs' + [v];
        assert ReasonMoved(vs[i], v, decisionLevel, g.fwd);
      }
      assert vs[..|vs|] == vs;
    }

    /**
     Compacts the arena, unless little would be gained. Whatever referred to a clause refers to its copy
     afterwards, two references meet afterwards iff they met before, and the counter is exact again.
     */
    method Consolidate(r: References, decisionLevel: nat, force: bool)
      returns (r': References, ghost fwd: map<nat, nat>)
      requires Valid() && RefsOk(r, decisionLevel, live)
      modifies this, data
      ensures Valid() && (data == old(data) || fresh(data))
      ensures old(Sound()) && AllLong(old(data[..]), Moved(r)) ==> Sound()
      ensures var skip := !force && (5 * old(currentlyUsedSize) > 4 * old(size) || old(currentlyUsedSize) < 100000);
        if skip then
          r' == r && data == old(data) && data[..] == old(data[..]) && size == old(size) && live == old(live)
          && currentlyUsedSize == old(currentlyUsedSize) && capacity == old(capacity)
        else
          && Compacted(old(data[..]), data[..], size, live, fwd)
          && fwd.Keys == Moved(r) && RefsMoved(r, r', decisionLevel, fwd)
          && ReasonsKept(r.varData, r'.varData, decisionLevel, fwd)
          && size == currentlyUsedSize <= capacity == old(currentlyUsedSize) && Slack() == 0
          && (AllLong(old(data[..]), Moved(r)) ==> AlwaysCovered(Account()))
          && (size + Needed(3) <= MAXSIZE ==> (AlwaysCovered(Account()) <==> AllLong(old(data[..]), Moved(r))))
    {
      fwd := map[];
      if !force && (5 * currentlyUsedSize > 4 * size || currentlyUsedSize < 100000) {
        return r, fwd;
      }
      hide Copying, RefsOk, RefsMoved, Compacted, Layout, AllLong, Structure, AlwaysCovered,
        ReasonsKept;
      ghost var mem0 := data[..];
      var dst := new Cell[currentlyUsedSize](_ => Word(0));
      var newPtr;
      ghost var g;
      assert Copying(mem0, dst, 0, Progress(map[], map[])) by {
        MovingStarts(mem0, size, live, dst[..]);
      }
      r', newPtr, g := MoveAll(dst, r, decisionLevel, mem0);
      fwd := g.fwd;
      ReasonsStay(r, r', decisionLevel, fwd);
      Install(dst, newPtr, mem0, g);
    }

    method MoveAll(dst: array<Cell>, r: References, decisionLevel: nat, ghost mem0: seq<Cell>)
      returns (r': References, newPtr: nat, ghost g: Progress)
      requires Copying(mem0, dst, 0, Progress(map[], map[])) && RefsOk(r, decisionLevel, live)
      modifies data, dst
      ensures Copying(mem0, dst, newPtr, g) && g.fwd.Keys == Moved(r) && RefsMoved(r, r', decisionLevel, g.fwd)
    {
      hide Copying;
      var watches, newPtr1, g1 := RedirectLists(dst, 0, r.watches, mem0, Progress(map[], map[]));
      var toClear, newPtr2, g2 := RedirectOffLists(dst, newPtr1, r.toClear, mem0, g1);
      newPtr, g := newPtr2, g2;
      ListsStay(r.watches, watches, g1.fwd, g2.fwd);
      var irred := UpdateOffsets(dst, newPtr, r.irredClauses, mem0, g);
      var red := UpdateOffsetLists(dst, newPtr, r.redClauses, mem0, g);
      var varData := UpdateReasons(dst, newPtr, r.varData, decisionLevel, mem0, g);
      r' := References(watches, toClear, irred, red, varData);
    }

    /** The new arena takes the place of the old one. */
    method Install(dst: array<Cell>, newPtr: nat, ghost mem0: seq<Cell>, ghost g: Progress)
      requires 0 <= currentlyUsedSize == dst.Length <= MAXSIZE && Copying(mem0, dst, newPtr, g)
      modifies this
      ensures data == dst && size == currentlyUsedSize <= capacity == old(currentlyUsedSize)
      ensures Compacted(mem0, data[..], size, live, g.fwd)
      ensures Valid() && Slack() == 0 && (AllLong(mem0, g.fwd.Keys) ==> Sound())
      ensures AllLong(mem0, g.fwd.Keys) ==> AlwaysCovered(Account())
      ensures size + Needed(3) <= MAXSIZE ==> (AlwaysCovered(Account()) <==> AllLong(mem0, g.fwd.Keys))
    {
      hide Total, Moving, AlwaysCovered;
      MovingDone(mem0, size, live, data[..], dst[..], newPtr, g.newLive, g.fwd);
      StillRoomy(mem0, dst[..], newPtr, g.newLive, g.fwd);
      size := newPtr;
      capacity := currentlyUsedSize;
      currentlyUsedSize := size;
      data := dst;
      live := g.newLive;
      LayoutBooks(data[..], size, currentlyUsedSize, live);
      CoveredIffRoomy(Account());
    }
  }

  lemma ReasonsStay(r: References, r': References, decisionLevel: nat, fwd: map<nat, nat>)
    requires RefsMoved(r, r', decisionLevel, fwd)
    ensures ReasonsKept(r.varData, r'.varData, decisionLevel, fwd)
  {
    hide ListsMoved, OffsMoved, OffListsMoved;
    forall x | 0 <= x < |r.varData|
      ensures ReasonMoved(r.varData[x], r'.varData[x], decisionLevel, fwd)
    {
    }
  }

  lemma BlockFits(mem: seq<Cell>, size: nat, live: map<nat, nat>, o: nat)
    requires Layout(mem, size, live) && o in live
    ensures o + Needed(live[o]) <= size <= |mem| && mem[o].Head? && !mem[o].h.freed && !mem[o].h.reloced
      && 1 <= mem[o].h.size <= live[o]
  {
    assert BlockOk(mem, size, live, o);
  }

  lemma NewKey(mem: seq<Cell>, size: nat, live: map<nat, nat>)
    requires Layout(mem, size, live)
    ensures size !in live
  {
    assert size in live ==> BlockOk(mem, size, live, size);
  }

  /** The clause at `p` is the same, header and literals. */
  ghost predicate ImageKept(mem: seq<Cell>, mem': seq<Cell>, p: nat) {
    && p < |mem| && mem[p].Head? && p + Needed(mem[p].h.size) <= |mem|
    && p < |mem'| && mem'[p] == mem[p] && p + Needed(mem[p].h.size) <= |mem'|
    && Image(mem', p) == Image(mem, p)
  }

  lemma AllKept(mem: seq<Cell>, mem': seq<Cell>, size: nat, live: map<nat, nat>)
    requires Layout(mem, size, live) && mem' == mem
    ensures forall p :: p in live ==> ImageKept(mem, mem', p)
  {
    forall p | p in live
      ensures ImageKept(mem, mem', p)
    {
      assert BlockOk(mem, size, live, p);
    }
  }

  lemma FreeElsewhere(mem: seq<Cell>, size: nat, live: map<nat, nat>, o: nat, h: Header)
    requires Layout(mem, size, live) && o in live && o < |mem|
    ensures forall p :: p in live && p != o ==> ImageKept(mem, mem[o := Head(h)], p)
  {
    assert BlockOk(mem, size, live, o);
    forall p | p in live && p != o
      ensures ImageKept(mem, mem[o := Head(h)], p)
    {
      assert BlockOk(mem, size, live, p);
      ImageElsewhere(mem, size, live, o, Head(h), p);
    }
  }

  /** References to a single clause, from one watch list. */
  const ONE_WATCH: References := References([[Long(0, Lit(1, false))]], [], [], [], [])

  lemma OneWatchMoves()
    ensures Moved(ONE_WATCH) == {0} && forall live: map<nat, nat> :: 0 in live ==> RefsOk(ONE_WATCH, 0, live)
  {
    var lists := ONE_WATCH.watches;
    assert lists[0][0] in lists[0] && 0 in WatchRefs(lists[0]) && lists[0] in lists;
  }

  lemma OneWatchMoved(r': References, mem: seq<Cell>, mem': seq<Cell>, size': nat, live': map<nat, nat>,
                      fwd: map<nat, nat>)
    requires RefsMoved(ONE_WATCH, r', 0, fwd) && fwd.Keys == {0} && Compacted(mem, mem', size', live', fwd)
    ensures |r'.watches| == 1 && |r'.watches[0]| == 1 && r'.watches[0][0] == Long(fwd[0], Lit(1, false))
    ensures SameClause(mem, 0, mem', fwd[0]) && live' == map[fwd[0] := mem[0].h.size]
  {
    hide Layout, Total, BooksOf, Allocates, Frees, ImageKept;
    assert WatchesMoved(ONE_WATCH.watches[0], r'.watches[0], fwd);
    assert WatchMoved(ONE_WATCH.watches[0][0], r'.watches[0][0], fwd);
    assert 0 in fwd && SameClause(mem, 0, mem', fwd[0]);
    forall p | p in live'
      ensures p == fwd[0]
    {
      var o :| Sends(fwd, o, p);
    }
  }

  /**
   The limit of three literals matters: a clause allocated with three literals and shrunk to two survives a
   compaction in a block of two, and giving it back then takes the counter below zero.
   */
  method CounterUnderestimates() returns (a: ClauseAllocator)
    ensures fresh(a) && a.Structure() && a.live == map[] && a.currentlyUsedSize == -1
  {
    hide Layout, Compacted, RefsMoved, RefsOk, Total, BooksOf, AllLong, AlwaysCovered, Allocates, Shrinks, Frees,
      ImageKept;
    a := new ClauseAllocator();
    var at := a.ClauseNew([2, 4, 6], false, false, 0);
    a.Shrink(0, 1);
    ghost var mem := a.data[..];
    OneWatchMoves();
    var r', fwd := a.Consolidate(ONE_WATCH, 0, true);
    OneWatchMoved(r', mem, a.data[..], a.size, a.live, fwd);
    var w := r'.watches[0][0];
    a.ClauseFree(w.off);
    EmptyTotal(a.live);
  }

  /** Two literals allocated and given back are enough. */
  method TwoLiteralsFreed() returns (a: ClauseAllocator)
    ensures fresh(a) && a.Structure() && a.live == map[] && a.currentlyUsedSize == -1
  {
    hide Layout, Total, BooksOf, Allocates, Frees, ImageKept;
    a := new ClauseAllocator();
    var at := a.ClauseNew([2, 4], false, false, 0);
    a.ClauseFree(0);
    EmptyTotal(a.live);
  }

  lemma EmptyTotal(sizes: map<nat, nat>)
    requires sizes.Keys == {}
    ensures sizes == map[] && Total(sizes) == 0
  {
    assert sizes == map[];
  }
}
