/**
 * The maturation scan over the pending-explosion list, as a state over
 * plain values: which entries have been visited, which fired, and what the
 * list and the log hold after each step.
 */
module Maturation {
  import opened Cells
  import opened UndoLog
  import opened Events

  /**
   * The state of the maturation scan of frame fe over the list p and the log
   * `log`: Q is the list as it has been seen so far (the original entries P0
   * followed by everything chained since), Q[..n] has been visited, and i is
   * the list position of Q[n].
   */
  ghost predicate Scanning(P0: seq<ExplosionInfo>, L0: seq<UndoLogEntry>, Q: seq<ExplosionInfo>,
                           n: nat, i: nat, ev: Events, fe: nat,
                           p: seq<ExplosionInfo>, log: seq<UndoLogEntry>)
  {
    P0 <= Q && n <= |Q|
    && (forall j :: |P0| <= j < |Q| ==> Q[j].frame == fe + 6 && Q[j].size == 1)
    && p == Unfired(Q[..n], fe) + Q[n..]
    && i == |Unfired(Q[..n], fe)|
    && Extends(L0, log)
    && Executed(log) == Executed(L0) + Fired(Q[..n], fe)
    && ev == ExplosionEvents(Fired(Q[..n], fe))
  }

  /**
   * Firing the due entry at list position i (removing it, appending what it
   * chains, logging its execution) advances the scan by one entry.
   */
  lemma FireStep(P0: seq<ExplosionInfo>, L0: seq<UndoLogEntry>, Q: seq<ExplosionInfo>,
                 n: nat, i: nat, ev: Events, fe: nat, p: seq<ExplosionInfo>, log: seq<UndoLogEntry>,
                 chained: seq<ExplosionInfo>, p': seq<ExplosionInfo>, log': seq<UndoLogEntry>)
    requires Scanning(P0, L0, Q, n, i, ev, fe, p, log)
    requires i < |p| && p[i].frame == fe
    requires p' == p[..i] + p[i + 1..] + chained
    requires Extends(log, log') && Executed(log') == Executed(log) + [p[i]]
    requires forall k :: 0 <= k < |chained| ==> chained[k].frame == fe + 6 && chained[k].size == 1
    ensures n < |P0| && n < |Q|
    ensures Scanning(P0, L0, Q + chained, n + 1, i,
                     ev + {ExplosionEvent(p[i])}, fe, p', log')
  {
    var e := p[i];
    assert e == Q[n] by {
      VisitCursor(Unfired(Q[..n], fe), Q, n);
    }
    assert Q[n].frame == fe;
    assert n < |P0|;
    var F := Fired(Q[..n], fe);
    var Q' := Q + chained;
    assert Fired(Q'[..n + 1], fe) == F + [e]
           && p' == Unfired(Q'[..n + 1], fe) + Q'[n + 1..]
           && i == |Unfired(Q'[..n + 1], fe)| by {
      VisitFired(Q, n, chained, fe);
    }
    ExplosionEventsSnoc(F, e);
    ExtendsTrans(L0, log, log');
    forall j | |P0| <= j < |Q'|
      ensures Q'[j].frame == fe + 6 && Q'[j].size == 1
    {
      if j >= |Q| {
        assert Q'[j] == chained[j - |Q|];
      }
    }
  }

  /** Passing over the entry at list position i, which is not due, advances the scan by one entry. */
  lemma PassOver(P0: seq<ExplosionInfo>, L0: seq<UndoLogEntry>, Q: seq<ExplosionInfo>,
                 n: nat, i: nat, ev: Events, fe: nat, p: seq<ExplosionInfo>, log: seq<UndoLogEntry>)
    requires Scanning(P0, L0, Q, n, i, ev, fe, p, log)
    requires i < |p| && p[i].frame != fe
    ensures n < |Q| && Scanning(P0, L0, Q, n + 1, i + 1, ev, fe, p, log)
  {
    assert p[i] == Q[n] by {
      VisitCursor(Unfired(Q[..n], fe), Q, n);
    }
    VisitKept(Q, n, fe);
  }

  /** A scan whose cursor has run past the end of the list has visited every entry it has seen. */
  lemma ScanExhausted(P0: seq<ExplosionInfo>, L0: seq<UndoLogEntry>, Q: seq<ExplosionInfo>,
                      n: nat, i: nat, ev: Events, fe: nat, p: seq<ExplosionInfo>, log: seq<UndoLogEntry>)
    requires Scanning(P0, L0, Q, n, i, ev, fe, p, log) && i >= |p|
    ensures n == |Q|
  {
    assert |p| == |Unfired(Q[..n], fe)| + |Q[n..]|;
  }

  /** Position |a| of a + q[n..] is the entry at the cursor n. */
  lemma VisitCursor(a: seq<ExplosionInfo>, q: seq<ExplosionInfo>, n: nat)
    requires n < |q|
    ensures (a + q[n..])[|a|] == q[n]
  {
  }

  /**
   * Firing the entry at the cursor n of q, held at position |Unfired(q[..n])|
   * of the list, removes it and appends what it chains (c): the list is again
   * the unfired visited entries followed by the unvisited ones.
   */
  lemma VisitFired(q: seq<ExplosionInfo>, n: nat, c: seq<ExplosionInfo>, f: nat)
    requires n < |q| && q[n].frame == f
    ensures var a := Unfired(q[..n], f);
            var p := a + q[n..];
            p[..|a|] + p[|a| + 1..] + c == Unfired((q + c)[..n + 1], f) + (q + c)[n + 1..]
            && |Unfired((q + c)[..n + 1], f)| == |a|
            && Fired((q + c)[..n + 1], f) == Fired(q[..n], f) + [q[n]]
  {
    var a := Unfired(q[..n], f);
    AppendPastCursor(q, c, n);
    FiredSnoc(q[..n], q[n], f);
    assert q[..n + 1] == q[..n] + [q[n]];
    Splice(a, q[n..], c);
  }

  /** Passing over an entry at the cursor that is not due keeps it in place. */
  lemma VisitKept(q: seq<ExplosionInfo>, n: nat, f: nat)
    requires n < |q| && q[n].frame != f
    ensures Unfired(q[..n + 1], f) + q[n + 1..] == Unfired(q[..n], f) + q[n..]
    ensures |Unfired(q[..n + 1], f)| == |Unfired(q[..n], f)| + 1
    ensures Fired(q[..n + 1], f) == Fired(q[..n], f)
  {
    FiredSnoc(q[..n], q[n], f);
    assert q[..n + 1] == q[..n] + [q[n]];
    assert q[n..] == [q[n]] + q[n + 1..];
  }

  /**
   * When the scan has visited all of Q, the original list P0 followed by
   * explosions for a later frame, what fired is what was due in P0 and the
   * list holds P0's other entries followed by the later ones.
   */
  lemma ScanDone(p0: seq<ExplosionInfo>, q: seq<ExplosionInfo>, f: nat)
    requires p0 <= q
    requires forall j :: |p0| <= j < |q| ==> q[j].frame == f + 6 && q[j].size == 1
    ensures Fired(q[..|q|], f) == Fired(p0, f)
    ensures var kept, rest := Unfired(p0, f), Unfired(q[..|q|], f) + q[|q|..];
            kept <= rest
            && forall k :: |kept| <= k < |rest| ==> rest[k].frame == f + 6 && rest[k].size == 1
  {
    var c := q[|p0|..];
    assert q[..|q|] == p0 + c;
    assert q[|q|..] == [];
    FiredAppendLate(p0, c, f);
    var rest := Unfired(q[..|q|], f) + q[|q|..];
    assert rest == Unfired(p0, f) + c;
    forall k | |Unfired(p0, f)| <= k < |rest|
      ensures rest[k].frame == f + 6 && rest[k].size == 1
    {
      assert rest[k] == c[k - |Unfired(p0, f)|];
    }
  }

  /** Appending to a list leaves its first n + 1 entries alone and extends what follows them. */
  lemma AppendPastCursor<T>(q: seq<T>, c: seq<T>, n: nat)
    requires n < |q|
    ensures (q + c)[n + 1..] == q[n..][1..] + c
    ensures (q + c)[..n + 1] == q[..n + 1]
  {
  }

  /** Removing the head of the unvisited part of a list held as a + b, then appending c. */
  lemma Splice<T>(a: seq<T>, b: seq<T>, c: seq<T>)
    requires |b| > 0
    ensures (a + b)[..|a|] + (a + b)[|a| + 1..] + c == a + (b[1..] + c)
  {
    assert (a + b)[..|a|] == a;
    assert (a + b)[|a| + 1..] == b[1..];
  }
}
