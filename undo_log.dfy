/**
 * The undo/rewind log of a level: pending explosions, the tagged log
 * entries, and the pure meaning of rewinding — which entries a rewind pops
 * and how each popped entry is inverted.
 */
module UndoLog {
  import opened Cells
  import opened Grid

  /** A scheduled explosion; it fires on the absolute frame `frame`. */
  datatype ExplosionInfo = ExplosionInfo(frame: nat, x: int, y: int, size: int, kind: ExplosionKind)

  /** `explosion_info(frame, x, y)` with the default radius and kind. */
  function DefaultExplosion(frame: nat, x: int, y: int): (e: ExplosionInfo)
    ensures e.frame == frame && e.x == x && e.y == y
    ensures e.size == 1 && e.kind == NormalExplosion
  {
    ExplosionInfo(frame, x, y, 1, NormalExplosion)
  }

  datatype UndoLogEntry =
    | FrameMarker(frame: nat)
    | CellEntry(x: int, y: int, oldState: Cell)
    | CreateExplosion(explosion: ExplosionInfo)
    | ExecuteExplosion(explosion: ExplosionInfo)
    | GetItem
    | GetRedBomb
    | DropRedBomb

  /** The frames carried by the frame markers of `log`, in log order. */
  function Markers(log: seq<UndoLogEntry>): seq<nat>
  {
    if log == [] then []
    else
      var last := log[|log| - 1];
      Markers(log[..|log| - 1]) + (if last.FrameMarker? then [last.frame] else [])
  }

  /** The frames 0, 1, ..., n - 1. */
  function Iota(n: nat): (r: seq<nat>)
    ensures |r| == n && forall i :: 0 <= i < n ==> r[i] == i
  {
    if n == 0 then [] else Iota(n - 1) + [n - 1]
  }

  predicate NoMarkers(es: seq<UndoLogEntry>)
  {
    forall i :: 0 <= i < |es| ==> !es[i].FrameMarker?
  }

  /** `b` is `a` followed by entries none of which is a frame marker. */
  predicate Extends(a: seq<UndoLogEntry>, b: seq<UndoLogEntry>)
  {
    a <= b && forall i :: |a| <= i < |b| ==> !b[i].FrameMarker?
  }

  lemma ExtendsTrans(a: seq<UndoLogEntry>, b: seq<UndoLogEntry>, c: seq<UndoLogEntry>)
    requires Extends(a, b) && Extends(b, c)
    ensures Extends(a, c)
  {
  }

  /** Appending entries that are not frame markers leaves the marker frames as they were. */
  lemma {:induction false} ExtendsKeepsMarkers(a: seq<UndoLogEntry>, b: seq<UndoLogEntry>)
    requires Extends(a, b)
    ensures Markers(b) == Markers(a)
    decreases |b|
  {
    if |b| > |a| {
      var init := b[..|b| - 1];
      assert Extends(a, init);
      ExtendsKeepsMarkers(a, init);
    } else {
      assert a == b;
    }
  }

  lemma {:induction false} MarkersAppend(a: seq<UndoLogEntry>, b: seq<UndoLogEntry>)
    ensures Markers(a + b) == Markers(a) + Markers(b)
    decreases |b|
  {
    if b == [] {
      assert a + b == a;
    } else {
      var b' := b[..|b| - 1];
      assert (a + b)[..|a + b| - 1] == a + b';
      MarkersAppend(a, b');
    }
  }

  /**
   * Closing frame f + 1: a log seeded with the marker of frame 0 whose
   * markers are the frames 0..f keeps both properties, for the frames
   * 0..f+1, once unmarked entries and then the marker of f + 1 are appended.
   */
  lemma CloseFrame(a: seq<UndoLogEntry>, b: seq<UndoLogEntry>, f: nat)
    requires |a| > 0 && a[0] == FrameMarker(0) && Markers(a) == Iota(f + 1)
    requires Extends(a, b)
    ensures var c := b + [FrameMarker(f + 1)];
            |c| > 0 && c[0] == FrameMarker(0) && Markers(c) == Iota(f + 2)
  {
    ExtendsKeepsMarkers(a, b);
    MarkersAppend(b, [FrameMarker(f + 1)]);
    assert Markers([FrameMarker(f + 1)]) == [f + 1] by {
      assert [FrameMarker(f + 1)][..0] == [];
    }
    assert (b + [FrameMarker(f + 1)])[0] == a[0];
  }

  /** A run of entries carries no marker frames exactly when it holds no frame marker. */
  lemma {:induction false} NoMarkersIff(es: seq<UndoLogEntry>)
    ensures NoMarkers(es) <==> Markers(es) == []
    decreases |es|
  {
    if es != [] {
      var init := es[..|es| - 1];
      NoMarkersIff(init);
      if NoMarkers(es) {
        assert NoMarkers(init) by {
          forall i | 0 <= i < |init| ensures !init[i].FrameMarker? {
            assert init[i] == es[i];
          }
        }
      }
      if Markers(es) == [] {
        assert forall i :: 0 <= i < |init| ==> init[i] == es[i];
      }
    }
  }

  /**
   * Where rewinding to `target` stops: the last frame marker of the log
   * whose frame is at most `target`. The seeded marker for frame 0 is
   * always such a marker, so the stop point exists and the log is never
   * emptied.
   */
  function RewindPoint(log: seq<UndoLogEntry>, target: nat): (k: nat)
    requires |log| > 0 && log[0] == FrameMarker(0)
    ensures k < |log| && log[k].FrameMarker? && log[k].frame <= target
    ensures forall j :: k < j < |log| ==> !(log[j].FrameMarker? && log[j].frame <= target)
  {
    var last := log[|log| - 1];
    if last.FrameMarker? && last.frame <= target then |log| - 1
    else RewindPoint(log[..|log| - 1], target)
  }

  function Min(a: nat, b: nat): nat
  {
    if a <= b then a else b
  }

  /**
   * When the markers of a log are the frames 0..f in order, rewinding to
   * `target` stops at the marker of frame min(target, f), and what remains
   * of the log has the markers 0..min(target, f).
   */
  lemma {:induction false} RewindToFrame(log: seq<UndoLogEntry>, f: nat, target: nat)
    requires |log| > 0 && log[0] == FrameMarker(0)
    requires Markers(log) == Iota(f + 1)
    ensures log[RewindPoint(log, target)].frame == Min(target, f)
    ensures Markers(log[..RewindPoint(log, target) + 1]) == Iota(Min(target, f) + 1)
    decreases |log|
  {
    var n := |log|;
    var last := log[n - 1];
    var init := log[..n - 1];
    assert Markers(log) == Markers(init) + (if last.FrameMarker? then [last.frame] else []);
    if last.FrameMarker? {
      assert Iota(f + 1) == Iota(f) + [f];
      assert |Markers(init)| == f;
      assert Markers(log)[f] == last.frame;
      assert Markers(log)[..f] == Markers(init);
      assert last.frame == f;
      if f <= target {
        assert log[..n] == log;
      } else {
        assert n > 1;
        assert Markers(init) == Iota(f);
        assert init[0] == log[0];
        RewindToFrame(init, f - 1, target);
        assert init[..RewindPoint(init, target) + 1] == log[..RewindPoint(log, target) + 1];
      }
    } else {
      assert n > 1;
      assert init[0] == log[0];
      RewindToFrame(init, f, target);
      assert init[..RewindPoint(init, target) + 1] == log[..RewindPoint(log, target) + 1];
    }
  }

  /**
   * Rewinding a log closed by a marker for frame f, then extended by one
   * frame's unmarked entries and the marker for f + 1, back to frame f
   * stops exactly at the old end of the log.
   */
  lemma RewindAfterFrame(log: seq<UndoLogEntry>, log': seq<UndoLogEntry>, f: nat)
    requires |log| > 0 && log[0] == FrameMarker(0) && log[|log| - 1] == FrameMarker(f)
    requires Extends(log, log')
    ensures RewindPoint(log' + [FrameMarker(f + 1)], f) == |log| - 1
  {
    var full := log' + [FrameMarker(f + 1)];
    assert full[|log| - 1] == FrameMarker(f);
    forall j | |log| - 1 < j < |full|
      ensures !(full[j].FrameMarker? && full[j].frame <= f)
    {
      if j < |log'| {
        assert full[j] == log'[j];
      }
    }
  }

  /** The pending explosions with every entry equal to `e` erased. */
  function RemoveAll(p: seq<ExplosionInfo>, e: ExplosionInfo): (r: seq<ExplosionInfo>)
    ensures forall x :: x in r <==> x in p && x != e
    ensures |r| <= |p|
  {
    if p == [] then []
    else if p[0] == e then RemoveAll(p[1..], e)
    else [p[0]] + RemoveAll(p[1..], e)
  }

  /** Erasing drops exactly the copies of `e`: every other entry keeps its multiplicity. */
  lemma {:induction false} RemoveAllMultiset(p: seq<ExplosionInfo>, e: ExplosionInfo)
    ensures multiset(RemoveAll(p, e)) == multiset(p)[e := 0]
  {
    if p != [] {
      RemoveAllMultiset(p[1..], e);
      assert p == [p[0]] + p[1..];
    }
  }

  /** Erasing from a list extended by one entry erases from the list and keeps the entry unless it is `e`. */
  lemma {:induction false} RemoveAllSnoc(p: seq<ExplosionInfo>, x: ExplosionInfo, e: ExplosionInfo)
    ensures RemoveAll(p + [x], e) == RemoveAll(p, e) + (if x == e then [] else [x])
  {
    if p == [] {
      assert RemoveAll([x], e) == (if x == e then [] else [x]) + RemoveAll([], e);
    } else {
      assert (p + [x])[1..] == p[1..] + [x];
      RemoveAllSnoc(p[1..], x, e);
    }
  }

  /**
   * One step of erasing `e` front to back: with P[..n] already filtered
   * into p[..i], the entry at i is P[n]; dropping it when it equals `e`,
   * and stepping over it otherwise, filters P[..n + 1].
   */
  lemma EraseStep(P: seq<ExplosionInfo>, e: ExplosionInfo, n: nat, i: nat, p: seq<ExplosionInfo>)
    requires n < |P| && i == |RemoveAll(P[..n], e)| && p == RemoveAll(P[..n], e) + P[n..]
    ensures i < |p| && p[i] == P[n]
    ensures P[n] == e ==>
              p[..i] + p[i + 1..] == RemoveAll(P[..n + 1], e) + P[n + 1..] && i == |RemoveAll(P[..n + 1], e)|
    ensures P[n] != e ==>
              p == RemoveAll(P[..n + 1], e) + P[n + 1..] && i + 1 == |RemoveAll(P[..n + 1], e)|
  {
    assert P[..n + 1] == P[..n] + [P[n]];
    RemoveAllSnoc(P[..n], P[n], e);
    assert p[..i] == RemoveAll(P[..n], e);
    assert p[i + 1..] == P[n + 1..];
  }

  lemma {:induction false} RemoveAllAbsent(p: seq<ExplosionInfo>, e: ExplosionInfo)
    requires e !in p
    ensures RemoveAll(p, e) == p
  {
    if p != [] {
      RemoveAllAbsent(p[1..], e);
    }
  }

  /** Every entry but those equal to `e` survives, so an entry equal to `e` strictly shrinks the list. */
  lemma {:induction false} RemoveAllShrinks(p: seq<ExplosionInfo>, e: ExplosionInfo)
    requires e in p
    ensures |RemoveAll(p, e)| < |p|
  {
    if p[0] != e {
      RemoveAllShrinks(p[1..], e);
    }
  }

  /** The explosions of `p` that fire on frame `f`, in list order. */
  function Fired(p: seq<ExplosionInfo>, f: nat): seq<ExplosionInfo>
  {
    if p == [] then []
    else Fired(p[..|p| - 1], f) + (if p[|p| - 1].frame == f then [p[|p| - 1]] else [])
  }

  /** The explosions of `p` that do not fire on frame `f`, in list order. */
  function Unfired(p: seq<ExplosionInfo>, f: nat): seq<ExplosionInfo>
  {
    if p == [] then []
    else Unfired(p[..|p| - 1], f) + (if p[|p| - 1].frame != f then [p[|p| - 1]] else [])
  }

  /** Fired keeps exactly the explosions due on frame f, Unfired exactly the others. */
  lemma {:induction false} FiredMembers(p: seq<ExplosionInfo>, f: nat)
    ensures forall e :: e in Fired(p, f) <==> e in p && e.frame == f
    ensures forall e :: e in Unfired(p, f) <==> e in p && e.frame != f
    decreases |p|
  {
    if p != [] {
      var init, last := p[..|p| - 1], p[|p| - 1];
      FiredMembers(init, f);
      assert p == init + [last];
    }
  }

  /** Filtering one more explosion onto a list. */
  lemma FiredSnoc(p: seq<ExplosionInfo>, x: ExplosionInfo, f: nat)
    ensures Fired(p + [x], f) == Fired(p, f) + (if x.frame == f then [x] else [])
    ensures Unfired(p + [x], f) == Unfired(p, f) + (if x.frame != f then [x] else [])
  {
    assert (p + [x])[..|p|] == p;
  }

  /** Explosions appended for a later frame do not change what fires on frame `f`. */
  lemma {:induction false} FiredAppendLate(p: seq<ExplosionInfo>, c: seq<ExplosionInfo>, f: nat)
    requires forall j :: 0 <= j < |c| ==> c[j].frame != f
    ensures Fired(p + c, f) == Fired(p, f)
    ensures Unfired(p + c, f) == Unfired(p, f) + c
    decreases |c|
  {
    if c == [] {
      assert p + c == p;
    } else {
      var c', x := c[..|c| - 1], c[|c| - 1];
      assert x.frame != f;
      assert c == c' + [x];
      assert p + c == (p + c') + [x];
      FiredAppendLate(p, c', f);
      FiredSnoc(p + c', x, f);
      assert Unfired(p + c, f) == (Unfired(p, f) + c') + [x];
    }
  }

  /** Filtering by firing frame splits a list without losing or inventing entries. */
  lemma {:induction false} FiredSplit(p: seq<ExplosionInfo>, f: nat)
    ensures |Fired(p, f)| + |Unfired(p, f)| == |p|
    ensures multiset(Fired(p, f)) + multiset(Unfired(p, f)) == multiset(p)
  {
    if p != [] {
      var init, last := p[..|p| - 1], p[|p| - 1];
      FiredSplit(init, f);
      assert p == init + [last];
      assert multiset(p) == multiset(init) + multiset{last};
      if last.frame == f {
        assert Fired(p, f) == Fired(init, f) + [last];
        assert Unfired(p, f) == Unfired(init, f);
      } else {
        assert Fired(p, f) == Fired(init, f);
        assert Unfired(p, f) == Unfired(init, f) + [last];
      }
    }
  }

  /** The explosions recorded by the `ExecuteExplosion` entries of `log`, in log order. */
  function Executed(log: seq<UndoLogEntry>): seq<ExplosionInfo>
  {
    if log == [] then []
    else
      var last := log[|log| - 1];
      Executed(log[..|log| - 1]) + (if last.ExecuteExplosion? then [last.explosion] else [])
  }

  /**
   * b continues a with cell and explosion-creation entries only: the shape of
   * the log growth a blast produces.
   */
  predicate Appended(a: seq<UndoLogEntry>, b: seq<UndoLogEntry>)
  {
    a <= b && forall i :: |a| <= i < |b| ==> b[i].CellEntry? || b[i].CreateExplosion?
  }

  lemma AppendedTrans(a: seq<UndoLogEntry>, b: seq<UndoLogEntry>, c: seq<UndoLogEntry>)
    requires Appended(a, b) && Appended(b, c)
    ensures Appended(a, c)
  {
  }

  /** Such growth opens no frame and executes no explosion. */
  lemma {:induction false} AppendedExtends(a: seq<UndoLogEntry>, b: seq<UndoLogEntry>)
    requires Appended(a, b)
    ensures Extends(a, b) && Executed(b) == Executed(a)
    decreases |b|
  {
    if |b| > |a| {
      var b' := b[..|b| - 1];
      assert Appended(a, b');
      AppendedExtends(a, b');
      assert !b[|b| - 1].ExecuteExplosion?;
    } else {
      assert a == b;
    }
  }

  /** Appending one entry records one more executed explosion exactly when it is an execution entry. */
  lemma ExecutedSnoc(log: seq<UndoLogEntry>, x: UndoLogEntry)
    ensures Executed(log + [x]) == Executed(log) + (if x.ExecuteExplosion? then [x.explosion] else [])
  {
    assert (log + [x])[..|log|] == log;
  }

  /** The `CreateExplosion` entries logged for `es`, one per explosion, in order. */
  function Creates(es: seq<ExplosionInfo>): (r: seq<UndoLogEntry>)
    ensures |r| == |es|
  {
    seq(|es|, i requires 0 <= i < |es| => CreateExplosion(es[i]))
  }

  lemma CreatesSnoc(es: seq<ExplosionInfo>, e: ExplosionInfo)
    ensures Creates(es + [e]) == Creates(es) + [CreateExplosion(e)]
  {
  }

  lemma CreatesAppend(a: seq<ExplosionInfo>, b: seq<ExplosionInfo>)
    ensures Creates(a + b) == Creates(a) + Creates(b)
  {
  }

  /**
   * The pending list p and the log `log` are P0 and L0 after scheduling the
   * explosions es, in order: each appended to the list, its creation logged.
   */
  predicate Scheduled(P0: seq<ExplosionInfo>, L0: seq<UndoLogEntry>, es: seq<ExplosionInfo>,
                      p: seq<ExplosionInfo>, log: seq<UndoLogEntry>)
  {
    p == P0 + es && log == L0 + Creates(es)
  }

  lemma ScheduledSnoc(P0: seq<ExplosionInfo>, L0: seq<UndoLogEntry>, es: seq<ExplosionInfo>,
                      p: seq<ExplosionInfo>, log: seq<UndoLogEntry>, e: ExplosionInfo)
    requires Scheduled(P0, L0, es, p, log)
    ensures Scheduled(P0, L0, es + [e], p + [e], log + [CreateExplosion(e)])
  {
    CreatesSnoc(es, e);
  }

  lemma ScheduledAppend(P0: seq<ExplosionInfo>, L0: seq<UndoLogEntry>, es: seq<ExplosionInfo>,
                        P1: seq<ExplosionInfo>, L1: seq<UndoLogEntry>, more: seq<ExplosionInfo>,
                        p: seq<ExplosionInfo>, log: seq<UndoLogEntry>)
    requires Scheduled(P0, L0, es, P1, L1) && Scheduled(P1, L1, more, p, log)
    ensures Scheduled(P0, L0, es + more, p, log)
  {
    CreatesAppend(es, more);
  }

  /** Scheduling only appends: to the list, and to the log entries that open no frame. */
  lemma ScheduledExtends(P0: seq<ExplosionInfo>, L0: seq<UndoLogEntry>, es: seq<ExplosionInfo>,
                         p: seq<ExplosionInfo>, log: seq<UndoLogEntry>)
    requires Scheduled(P0, L0, es, p, log)
    ensures P0 <= p && Extends(L0, log)
    ensures forall k :: |P0| <= k < |p| ==> p[k] == es[k - |P0|]
  {
    forall i | |L0| <= i < |log|
      ensures !log[i].FrameMarker?
    {
      assert log[i] == Creates(es)[i - |L0|];
    }
  }

  /**
   * From (P0, L0) to (P1, L1) the log only gained entries that open no
   * frame, and the pending list only gained explosions for frame f.
   */
  predicate Grown(P0: seq<ExplosionInfo>, L0: seq<UndoLogEntry>, P1: seq<ExplosionInfo>, L1: seq<UndoLogEntry>, f: nat)
  {
    Extends(L0, L1) && P0 <= P1 && forall k :: |P0| <= k < |P1| ==> P1[k].frame == f
  }

  lemma GrownTrans(P0: seq<ExplosionInfo>, L0: seq<UndoLogEntry>, P1: seq<ExplosionInfo>, L1: seq<UndoLogEntry>,
                   P2: seq<ExplosionInfo>, L2: seq<UndoLogEntry>, f: nat)
    requires Grown(P0, L0, P1, L1, f) && Grown(P1, L1, P2, L2, f)
    ensures Grown(P0, L0, P2, L2, f)
  {
    forall k | |P0| <= k < |P2|
      ensures P2[k].frame == f
    {
      if k < |P1| {
        assert P2[k] == P1[k];
      }
    }
  }

  /** No pending explosion is due before frame f. */
  predicate NotOverdue(p: seq<ExplosionInfo>, f: nat)
  {
    forall k :: 0 <= k < |p| ==> p[k].frame >= f
  }

  /** Growing the pending list with explosions for frame f keeps it free of overdue ones. */
  lemma GrownNotOverdue(P0: seq<ExplosionInfo>, L0: seq<UndoLogEntry>, P1: seq<ExplosionInfo>,
                        L1: seq<UndoLogEntry>, f: nat)
    requires Grown(P0, L0, P1, L1, f) && NotOverdue(P0, f)
    ensures NotOverdue(P1, f)
  {
    forall k | 0 <= k < |P1|
      ensures P1[k].frame >= f
    {
      if k < |P0| {
        assert P1[k] == P0[k];
      }
    }
  }

  /**
   * Once the explosions due on frame f have fired, none of those left is
   * due before frame f + 1.
   */
  lemma UnfiredNotOverdue(p: seq<ExplosionInfo>, f: nat)
    requires NotOverdue(p, f)
    ensures NotOverdue(Unfired(p, f), f + 1)
  {
    FiredMembers(p, f);
    var u := Unfired(p, f);
    forall k | 0 <= k < |u|
      ensures u[k].frame >= f + 1
    {
      assert u[k] in u;
      var j :| 0 <= j < |p| && p[j] == u[k];
    }
  }

  /** The part of the level a rewind restores. */
  datatype Snapshot = Snapshot(
    cells: seq<Cell>,
    playerX: int,
    playerY: int,
    playerLoseFrame: nat,
    numItemsRemaining: int,
    numRedBombs: int,
    pendingExplosions: seq<ExplosionInfo>)

  /** The inverse a rewind applies for one popped entry. */
  function UndoEntry(s: Snapshot, e: UndoLogEntry, w: nat, h: nat): (r: Snapshot)
    requires w > 0 && h > 0 && |s.cells| == Area(w, h)
    ensures |r.cells| == |s.cells|
  {
    match e
    case FrameMarker(_) => s
    case CellEntry(x, y, c) =>
      var s' := s.(cells := s.cells[Index(x, y, w, h) := c]);
      if c.kind == Player then s'.(playerX := x, playerY := y, playerLoseFrame := 0) else s'
    case CreateExplosion(ex) => s.(pendingExplosions := RemoveAll(s.pendingExplosions, ex))
    case ExecuteExplosion(ex) => s.(pendingExplosions := s.pendingExplosions + [ex])
    case GetItem => s.(numItemsRemaining := s.numItemsRemaining + 1)
    case GetRedBomb => s.(numRedBombs := s.numRedBombs - 1)
    case DropRedBomb => s.(numRedBombs := s.numRedBombs + 1)
  }

  /** Undoes `es` from its last entry back to its first. */
  function UndoSuffix(s: Snapshot, es: seq<UndoLogEntry>, w: nat, h: nat): (r: Snapshot)
    requires w > 0 && h > 0 && |s.cells| == Area(w, h)
    ensures |r.cells| == |s.cells|
    decreases |es|
  {
    if es == [] then s else UndoEntry(UndoSuffix(s, es[1..], w, h), es[0], w, h)
  }

  /** Whether `e` logs the cell at index i of a w-by-h grid. */
  predicate LogsCell(e: UndoLogEntry, i: nat, w: nat, h: nat)
    requires w > 0 && h > 0
  {
    e.CellEntry? && Index(e.x, e.y, w, h) == i
  }

  /**
   * The cell index i holds once the run `es` is undone, when it held `now`
   * before: the logged cell of the earliest entry of `es` that logs index
   * i, or `now` when no entry does.
   */
  function RestoredCell(es: seq<UndoLogEntry>, i: nat, w: nat, h: nat, now: Cell): (c: Cell)
    requires w > 0 && h > 0
    ensures (forall k :: 0 <= k < |es| ==> !LogsCell(es[k], i, w, h)) ==> c == now
    ensures c == now || exists k :: 0 <= k < |es| && LogsCell(es[k], i, w, h) && c == es[k].oldState
                                   && forall j :: 0 <= j < k ==> !LogsCell(es[j], i, w, h)
    decreases |es|
  {
    if es == [] then now
    else if LogsCell(es[0], i, w, h) then es[0].oldState
    else
      var c := RestoredCell(es[1..], i, w, h, now);
      assert c != now ==> exists k :: 0 <= k < |es| && LogsCell(es[k], i, w, h) && c == es[k].oldState
                                     && forall j :: 0 <= j < k ==> !LogsCell(es[j], i, w, h) by {
        if c != now {
          var k :| 0 <= k < |es[1..]| && LogsCell(es[1..][k], i, w, h) && c == es[1..][k].oldState
                   && forall j :: 0 <= j < k ==> !LogsCell(es[1..][j], i, w, h);
          assert LogsCell(es[k + 1], i, w, h) && c == es[k + 1].oldState;
          forall j | 0 <= j < k + 1 ensures !LogsCell(es[j], i, w, h) {
            if j > 0 { assert es[j] == es[1..][j - 1]; }
          }
        }
      }
      c
  }

  /** The number of entries of `es` equal to the counter entry `e`. */
  function Tally(es: seq<UndoLogEntry>, e: UndoLogEntry): nat
    decreases |es|
  {
    if es == [] then 0 else (if es[0] == e then 1 else 0) + Tally(es[1..], e)
  }

  /** Whether `e` adds to or erases from the pending explosions when undone. */
  predicate TouchesPending(e: UndoLogEntry)
  {
    e.CreateExplosion? || e.ExecuteExplosion?
  }

  /**
   * Undoing a run of entries restores each cell from the earliest entry
   * that logged it, shifts the counters by the number of counter entries
   * undone, and leaves the pending explosions and the player's coordinates
   * alone when no entry of the run concerns them.
   */
  lemma {:induction false} UndoSuffixRestores(s: Snapshot, es: seq<UndoLogEntry>, w: nat, h: nat)
    requires w > 0 && h > 0 && |s.cells| == Area(w, h)
    ensures var r := UndoSuffix(s, es, w, h);
            forall i :: 0 <= i < |s.cells| ==> r.cells[i] == RestoredCell(es, i, w, h, s.cells[i])
    ensures var r := UndoSuffix(s, es, w, h);
            r.numItemsRemaining == s.numItemsRemaining + Tally(es, GetItem)
            && r.numRedBombs == s.numRedBombs - Tally(es, GetRedBomb) + Tally(es, DropRedBomb)
    ensures (forall k :: 0 <= k < |es| ==> !TouchesPending(es[k])) ==>
              UndoSuffix(s, es, w, h).pendingExplosions == s.pendingExplosions
    ensures (forall k :: 0 <= k < |es| ==> !(es[k].CellEntry? && es[k].oldState.kind == Player)) ==>
              var r := UndoSuffix(s, es, w, h);
              r.playerX == s.playerX && r.playerY == s.playerY && r.playerLoseFrame == s.playerLoseFrame
    decreases |es|
  {
    if es != [] {
      UndoSuffixRestores(s, es[1..], w, h);
      if forall k :: 0 <= k < |es| ==> !TouchesPending(es[k]) {
        assert forall k :: 0 <= k < |es[1..]| ==> !TouchesPending(es[1..][k]) by {
          forall k | 0 <= k < |es[1..]| ensures !TouchesPending(es[1..][k]) {
            assert es[1..][k] == es[k + 1];
          }
        }
      }
      if forall k :: 0 <= k < |es| ==> !(es[k].CellEntry? && es[k].oldState.kind == Player) {
        assert forall k :: 0 <= k < |es[1..]| ==> !(es[1..][k].CellEntry? && es[1..][k].oldState.kind == Player) by {
          forall k | 0 <= k < |es[1..]| ensures !(es[1..][k].CellEntry? && es[1..][k].oldState.kind == Player) {
            assert es[1..][k] == es[k + 1];
          }
        }
      }
    }
  }

  /** Undoing a counter entry exactly inverts the change it was logged with. */
  lemma CounterEntriesInvert(s: Snapshot, w: nat, h: nat)
    requires w > 0 && h > 0 && |s.cells| == Area(w, h)
    ensures UndoEntry(s.(numItemsRemaining := s.numItemsRemaining - 1), GetItem, w, h) == s
    ensures UndoEntry(s.(numRedBombs := s.numRedBombs + 1), GetRedBomb, w, h) == s
    ensures UndoEntry(s.(numRedBombs := s.numRedBombs - 1), DropRedBomb, w, h) == s
  {
  }

  /**
   * Undoing the entry logged before a cell was overwritten puts the logged
   * cell back (with its moved flag cleared) and touches no other cell.
   */
  lemma CellEntryInverts(s: Snapshot, x: int, y: int, c: Cell, w: nat, h: nat)
    requires w > 0 && h > 0 && |s.cells| == Area(w, h)
    ensures var i := Index(x, y, w, h);
            var logged := s.cells[i].(moved := false);
            UndoEntry(s.(cells := s.cells[i := c]), CellEntry(x, y, logged), w, h).cells
              == s.cells[i := logged]
  {
  }

  /**
   * Scheduling an explosion and then undoing its `CreateExplosion` entry
   * restores the pending list when no equal explosion was pending before;
   * an equal entry that was already pending is erased as well.
   */
  lemma {:induction false} CreateThenUndo(s: Snapshot, e: ExplosionInfo, w: nat, h: nat)
    requires w > 0 && h > 0 && |s.cells| == Area(w, h)
    ensures var r := UndoEntry(s.(pendingExplosions := s.pendingExplosions + [e]), CreateExplosion(e), w, h);
            (e !in s.pendingExplosions ==> r == s)
            && (e in s.pendingExplosions ==>
                  (e !in r.pendingExplosions && |r.pendingExplosions| < |s.pendingExplosions|))
  {
    RemoveAllSnoc(s.pendingExplosions, e, e);
    if e in s.pendingExplosions {
      RemoveAllShrinks(s.pendingExplosions, e);
    } else {
      RemoveAllAbsent(s.pendingExplosions, e);
    }
  }

  /** Undoing an `ExecuteExplosion` entry puts the matured explosion back in the pending list. */
  lemma ExecuteThenUndo(s: Snapshot, e: ExplosionInfo, w: nat, h: nat)
    requires w > 0 && h > 0 && |s.cells| == Area(w, h)
    ensures e in UndoEntry(s, ExecuteExplosion(e), w, h).pendingExplosions
    ensures UndoEntry(s, ExecuteExplosion(e), w, h).cells == s.cells
  {
  }
}
