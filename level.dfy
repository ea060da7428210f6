/**
 * The level simulation: a toroidal grid of cells, the player, pending
 * explosions and the undo log, advanced one frame at a time and rewound by
 * popping the undo log.
 */
module Level {
  import opened Cells
  import opened Grid
  import opened UndoLog
  import opened Stats
  import opened Events
  import opened Maturation

  /** Size of a level created without explicit dimensions. */
  const DefaultWidth: nat := 60
  const DefaultHeight: nat := 24
  const DefaultPlayerX: int := 1
  const DefaultPlayerY: int := 1

  /**
   * How a frame ended: normally, with the events that occurred, or cut short
   * because a dude at (x, y) faces a direction outside the direction tables.
   */
  datatype FrameOutcome =
    | Completed(events: Events)
    | DudeFacingOutOfRange(x: int, y: int, param: int)

  function Abs(v: int): (r: nat)
    ensures r == v || r == -v
  {
    if v < 0 then -v else v
  }

  /** A cell as the undo log records it: with the moved flag cleared. */
  function Logged(c: Cell): (l: Cell)
    ensures !l.moved && l.kind == c.kind && l.param == c.param
  {
    c.(moved := false)
  }

  /** The cell a new w-by-h level holds at in-range coordinates (x, y). */
  function InitialCell(w: nat, h: nat, px: int, py: int, x: nat, y: nat): Cell
    requires w > 0 && h > 0 && x < w && y < h
  {
    if px >= 0 && py >= 0 && Index(px, py, w, h) == Flat(x, y, w) then NewCell(Player)
    else if x == 0 || x == w - 1 || y == 0 || y == h - 1 then NewCell(Block)
    else DefaultCell()
  }

  datatype Option<T> = Nothing | Some(value: T)

  /** Reaching cell c wins when it is the exit, the red-bomb count is not negative and no item remains. */
  predicate Wins(c: Cell, redBombs: int, itemsRemaining: int)
  {
    c.kind == Exit && redBombs >= 0 && itemsRemaining <= 0
  }

  /** The cell of the grid cs that lies z steps from (x, y) in direction d. */
  function Along(cs: seq<Cell>, w: nat, h: nat, x: int, y: int, d: Impulse, z: int): Cell
    requires w > 0 && h > 0 && |cs| == Area(w, h)
  {
    cs[Index(x + StepsX(d, z), y + StepsY(d, z), w, h)]
  }

  /** The cell z steps from (x, y) in direction d accepts a move in the opposite direction. */
  predicate Facing(cs: seq<Cell>, w: nat, h: nat, x: int, y: int, d: Impulse, z: int)
    requires w > 0 && h > 0 && |cs| == Area(w, h)
  {
    Along(cs, w, h, x, y, d, z).IsPortal(Opposite(d))
  }

  /**
   * The first distance z, from `from` up to but excluding maxd, at which
   * the cell z steps from (x, y) in direction d accepts a move in the
   * opposite direction; the jump portal's exit lies one step beyond it.
   */
  function JumpExit(cs: seq<Cell>, w: nat, h: nat, x: int, y: int, d: Impulse, from: nat, maxd: nat)
    : Option<nat>
    requires w > 0 && h > 0 && |cs| == Area(w, h)
    decreases maxd - from
  {
    if from >= maxd then Nothing
    else if Facing(cs, w, h, x, y, d, from) then Some(from)
    else JumpExit(cs, w, h, x, y, d, from + 1, maxd)
  }

  /**
   * The jump exit is the nearest matching portal: it is in range and
   * matches, and no distance before it (or, when there is none, no
   * distance in range) matches.
   */
  lemma {:induction false} JumpExitFirst(cs: seq<Cell>, w: nat, h: nat, x: int, y: int, d: Impulse,
                                         from: nat, maxd: nat)
    requires w > 0 && h > 0 && |cs| == Area(w, h)
    ensures var r := JumpExit(cs, w, h, x, y, d, from, maxd);
            (r.Some? ==> from <= r.value < maxd && Facing(cs, w, h, x, y, d, r.value))
            && forall z :: from <= z < (if r.Some? then r.value else maxd) ==> !Facing(cs, w, h, x, y, d, z)
    decreases maxd - from
  {
    if from < maxd && !Facing(cs, w, h, x, y, d, from) {
      JumpExitFirst(cs, w, h, x, y, d, from + 1, maxd);
      var r := JumpExit(cs, w, h, x, y, d, from + 1, maxd);
      assert JumpExit(cs, w, h, x, y, d, from, maxd) == r;
      var bound := if r.Some? then r.value else maxd;
      forall z | from <= z < bound
        ensures !Facing(cs, w, h, x, y, d, z)
      {
        if z > from {
          assert from + 1 <= z < bound;
        }
      }
    }
  }

  /** One step of the search for the jump exit: a matching portal at `from` ends it, any other cell passes it on. */
  lemma JumpExitStep(cs: seq<Cell>, w: nat, h: nat, x: int, y: int, d: Impulse, from: nat, maxd: nat, hit: bool)
    requires w > 0 && h > 0 && |cs| == Area(w, h)
    requires from < maxd ==> hit == Facing(cs, w, h, x, y, d, from)
    ensures JumpExit(cs, w, h, x, y, d, from, maxd)
            == if from >= maxd then Nothing else if hit then Some(from)
               else JumpExit(cs, w, h, x, y, d, from + 1, maxd)
  {
  }

  /** Setting off the yellow bombs schedules explosions for frame f only, and opens no frame. */
  lemma YellowGrown(P0: seq<ExplosionInfo>, L0: seq<UndoLogEntry>, cs: seq<Cell>, w: nat, h: nat, f: nat,
                    p: seq<ExplosionInfo>, log: seq<UndoLogEntry>)
    requires w > 0 && h > 0 && |cs| == Area(w, h)
    requires Scheduled(P0, L0, YellowRows(cs, w, h, h, f), p, log)
    ensures Grown(P0, L0, p, log, f)
  {
    var es := YellowRows(cs, w, h, h, f);
    ScheduledExtends(P0, L0, es, p, log);
    YellowRowsExact(cs, w, h, h, f);
    forall k | |P0| <= k < |p|
      ensures p[k].frame == f
    {
      assert p[k] == es[k - |P0|];
      assert es[k - |P0|] in es;
    }
  }

  /**
   * Where a player at (x, y) moving in direction d comes out of the portal
   * one step ahead: two steps on for a plain portal; for a jump portal one
   * step beyond the nearest matching portal, when there is one.
   */
  function PortalExit(cs: seq<Cell>, w: nat, h: nat, x: int, y: int, d: Impulse): Option<(int, int)>
    requires w > 0 && h > 0 && |cs| == Area(w, h)
  {
    var target := Along(cs, w, h, x, y, d, 1);
    if !target.IsPortal(d) then Nothing
    else if !target.IsJumpPortal() then Some((x + StepsX(d, 2), y + StepsY(d, 2)))
    else match JumpExit(cs, w, h, x, y, d, 2, MaxDist(d, w, h))
      case Nothing => Nothing
      case Some(z) => Some((x + StepsX(d, z + 1), y + StepsY(d, z + 1)))
  }

  /** The explosions the yellow trigger schedules, on frame f, for columns 0..n-1 of row y. */
  function YellowRow(cs: seq<Cell>, w: nat, h: nat, y: int, n: nat, f: nat): seq<ExplosionInfo>
    requires w > 0 && h > 0 && |cs| == Area(w, h)
  {
    if n == 0 then []
    else
      YellowRow(cs, w, h, y, n - 1, f)
      + (if cs[Index(n - 1, y, w, h)].kind == YellowBomb then [DefaultExplosion(f, n - 1, y)] else [])
  }

  /** The explosions the yellow trigger schedules, on frame f, for rows 0..m-1, row by row. */
  function YellowRows(cs: seq<Cell>, w: nat, h: nat, m: nat, f: nat): seq<ExplosionInfo>
    requires w > 0 && h > 0 && |cs| == Area(w, h)
  {
    if m == 0 then [] else YellowRows(cs, w, h, m - 1, f) + YellowRow(cs, w, h, m - 1, w, f)
  }

  /** A row's trigger explosions are exactly the default explosions at its yellow bombs. */
  lemma {:induction false} YellowRowExact(cs: seq<Cell>, w: nat, h: nat, y: int, n: nat, f: nat)
    requires w > 0 && h > 0 && |cs| == Area(w, h)
    ensures forall e :: e in YellowRow(cs, w, h, y, n, f) ==>
              e == DefaultExplosion(f, e.x, y) && 0 <= e.x < n && cs[Index(e.x, y, w, h)].kind == YellowBomb
    ensures forall x :: 0 <= x < n && cs[Index(x, y, w, h)].kind == YellowBomb ==>
              DefaultExplosion(f, x, y) in YellowRow(cs, w, h, y, n, f)
  {
    if n > 0 {
      YellowRowExact(cs, w, h, y, n - 1, f);
    }
  }

  /**
   * The trigger explosions of rows 0..m-1 are exactly one default explosion
   * per yellow bomb in those rows, at the bomb.
   */
  lemma {:induction false} YellowRowsExact(cs: seq<Cell>, w: nat, h: nat, m: nat, f: nat)
    requires w > 0 && h > 0 && |cs| == Area(w, h)
    ensures forall e :: e in YellowRows(cs, w, h, m, f) ==>
              e == DefaultExplosion(f, e.x, e.y) && 0 <= e.x < w && 0 <= e.y < m
              && cs[Index(e.x, e.y, w, h)].kind == YellowBomb
    ensures forall x, y :: 0 <= x < w && 0 <= y < m && cs[Index(x, y, w, h)].kind == YellowBomb ==>
              DefaultExplosion(f, x, y) in YellowRows(cs, w, h, m, f)
  {
    if m > 0 {
      var rows, row := YellowRows(cs, w, h, m - 1, f), YellowRow(cs, w, h, m - 1, w, f);
      YellowRowsExact(cs, w, h, m - 1, f);
      YellowRowExact(cs, w, h, m - 1, w, f);
      forall e: ExplosionInfo | e in rows + row
        ensures e == DefaultExplosion(f, e.x, e.y) && 0 <= e.x < w && 0 <= e.y < m
                && cs[Index(e.x, e.y, w, h)].kind == YellowBomb
      {
        if e !in rows {
          assert e in row;
        }
      }
      forall x, y | 0 <= x < w && 0 <= y < m && cs[Index(x, y, w, h)].kind == YellowBomb
        ensures DefaultExplosion(f, x, y) in rows + row
      {
        if y < m - 1 {
          assert DefaultExplosion(f, x, y) in rows;
        } else {
          assert DefaultExplosion(f, x, y) in row;
        }
      }
    }
  }

  /** The length a jump-portal search may cover in direction d. */
  function MaxDist(d: Impulse, w: nat, h: nat): nat
  {
    if d == Left || d == Right then w else h
  }

  /** The chained explosion, if any, that blast e sets off in the square at offset (dx, dy) whose cell was v. */
  function ChainOf(e: ExplosionInfo, dx: int, dy: int, v: Cell, frame: nat): (r: seq<ExplosionInfo>)
    ensures |r| <= 1
    ensures r != [] <==> v.Destroyable() && (dx != 0 || dy != 0) && v.IsVolatile()
  {
    if v.Destroyable() && (dx != 0 || dy != 0) && v.IsVolatile()
    then [ExplosionInfo(frame + 6, e.x + dx, e.y + dy, 1,
                        if e.kind != NormalExplosion then e.kind else v.ExplosionKindOf())]
    else []
  }

  /**
   * c is the explosion that the blast of e schedules on the volatile cell v
   * it hits off-centre on frame `frame`: six frames later, radius 1, of e's
   * kind unless e is a normal explosion, in which case of v's own kind.
   */
  predicate Chained(e: ExplosionInfo, c: ExplosionInfo, v: Cell, frame: nat)
  {
    c.frame == frame + 6 && c.size == 1 && v.IsVolatile()
    && c.kind == (if e.kind != NormalExplosion then e.kind else v.ExplosionKindOf())
    && -e.size <= c.x - e.x <= e.size && -e.size <= c.y - e.y <= e.size
    && (c.x != e.x || c.y != e.y)
  }

  /** The cells `cs` after blasts of kind k have reached the indices in `hit`. */
  function BlastedAt(cs: seq<Cell>, hit: set<nat>, k: ExplosionKind): (r: seq<Cell>)
    ensures |r| == |cs|
  {
    seq(|cs|, j requires 0 <= j < |cs| => if j in hit then Blasted(cs[j], k) else cs[j])
  }

  /** One more blast of the same kind, at index i, adds i to the squares reached. */
  lemma BlastedAtAdd(cs: seq<Cell>, hit: set<nat>, i: nat, k: ExplosionKind)
    requires i < |cs|
    ensures var b := BlastedAt(cs, hit, k);
            b[i := Blasted(b[i], k)] == BlastedAt(cs, hit + {i}, k)
            && (b[i] == cs[i] || b[i] == Blasted(cs[i], k))
  {
    BlastedIdempotent(cs[i], k);
  }

  /**
   * What a blast chains at offset (dx, dy) is an explosion of the chain rule
   * at that square, whether the cell there is still the original one or was
   * already blasted by an earlier visit.
   */
  lemma ChainFromSquare(e: ExplosionInfo, dx: int, dy: int, v0: Cell, v: Cell, frame: nat)
    requires -e.size <= dx <= e.size && -e.size <= dy <= e.size
    requires v == v0 || v == Blasted(v0, e.kind)
    ensures forall c :: c in ChainOf(e, dx, dy, v, frame) ==>
              Chained(e, c, v0, frame) && c.x == e.x + dx && c.y == e.y + dy
  {
    if v != v0 && v0.Destroyable() {
      assert !v.IsVolatile();
    }
  }

  /**
   * The grid while its walls are drawn: the top and bottom rows are blocks
   * left of column `across`, the outer columns are blocks above row `down`.
   */
  function Framed(w: nat, h: nat, x: nat, y: nat, across: nat, down: nat): Cell
  {
    if ((y == 0 || y == h - 1) && x < across) || ((x == 0 || x == w - 1) && y < down) then NewCell(Block)
    else DefaultCell()
  }

  /** The grid cs (x, y) shows the frame drawn so far. */
  ghost predicate Shows(cs: array<Cell>, w: nat, h: nat, across: nat, down: nat)
    requires cs.Length == Area(w, h)
    requires forall x: nat, y: nat {:trigger Flat(x, y, w)} :: x < w && y < h ==> Flat(x, y, w) < Area(w, h)
    reads cs
  {
    forall x: nat, y: nat {:trigger Flat(x, y, w)} :: x < w && y < h ==>
      cs[Flat(x, y, w)] == Framed(w, h, x, y, across, down)
  }

  /** Turns the in-range cell (x, y) of cs into a block. */
  method PutBlock(cs: array<Cell>, w: nat, h: nat, x: nat, y: nat)
    requires cs.Length == Area(w, h) && x < w && y < h
    requires forall x: nat, y: nat {:trigger Flat(x, y, w)} :: x < w && y < h ==> Flat(x, y, w) < Area(w, h)
    modifies cs
    ensures forall xx: nat, yy: nat {:trigger Flat(xx, yy, w)} :: xx < w && yy < h ==>
              cs[Flat(xx, yy, w)] == if xx == x && yy == y then NewCell(Block) else old(cs[Flat(xx, yy, w)])
  {
    FlatBound(x, y, w, h);
    cs[Flat(x, y, w)] := NewCell(Block);
    forall xx: nat, yy: nat | xx < w && yy < h && Flat(xx, yy, w) == Flat(x, y, w)
      ensures xx == x && yy == y
    {
      FlatInjective(xx, yy, x, y, w);
    }
  }

  /** Draws the top and bottom walls into a grid of default cells. */
  method WallRows(cs: array<Cell>, w: nat, h: nat)
    requires w > 0 && h > 0 && cs.Length == Area(w, h)
    requires forall x: nat, y: nat {:trigger Flat(x, y, w)} :: x < w && y < h ==> Flat(x, y, w) < Area(w, h)
    requires Shows(cs, w, h, 0, 0)
    modifies cs
    ensures Shows(cs, w, h, w, 0)
  {
    var x := 0;
    while x < w
      invariant 0 <= x <= w
      invariant Shows(cs, w, h, x, 0)
    {
      PutBlock(cs, w, h, x, 0);
      PutBlock(cs, w, h, x, h - 1);
      x := x + 1;
    }
  }

  /** Draws the left and right walls into a grid whose top and bottom walls are drawn. */
  method WallColumns(cs: array<Cell>, w: nat, h: nat)
    requires w > 0 && h > 0 && cs.Length == Area(w, h)
    requires forall x: nat, y: nat {:trigger Flat(x, y, w)} :: x < w && y < h ==> Flat(x, y, w) < Area(w, h)
    requires Shows(cs, w, h, w, 0)
    modifies cs
    ensures Shows(cs, w, h, w, h)
  {
    var y := 0;
    while y < h
      invariant 0 <= y <= h
      invariant Shows(cs, w, h, w, y)
    {
      PutBlock(cs, w, h, 0, y);
      PutBlock(cs, w, h, w - 1, y);
      y := y + 1;
    }
  }

  /**
   * A fresh w-by-h grid walled in by blocks, its interior the default cell,
   * with the player placed when both coordinates are non-negative.
   */
  method NewGrid(w: nat, h: nat, px: int, py: int) returns (cs: array<Cell>)
    requires w > 0 && h > 0
    ensures fresh(cs) && cs.Length == Area(w, h)
    ensures forall x: nat, y: nat {:trigger Flat(x, y, w)} :: x < w && y < h ==>
              Flat(x, y, w) < cs.Length && cs[Flat(x, y, w)] == InitialCell(w, h, px, py, x, y)
  {
    cs := new Cell[Area(w, h)](_ => DefaultCell());
    FlatBoundAll(w, h);
    WallRows(cs, w, h);
    WallColumns(cs, w, h);
    ghost var walled := cs[..];
    if px >= 0 && py >= 0 {
      cs[Index(px, py, w, h)] := NewCell(Player);
    }
    forall x: nat, y: nat | x < w && y < h
      ensures cs[Flat(x, y, w)] == InitialCell(w, h, px, py, x, y)
    {
      if !(px >= 0 && py >= 0 && Index(px, py, w, h) == Flat(x, y, w)) {
        assert cs[Flat(x, y, w)] == walled[Flat(x, y, w)];
      }
    }
  }

  class LevelState {
    const w: nat
    const h: nat
    /** Row-major cells; (x, y) is held at y * w + x. */
    const cells: array<Cell>
    var playerX: int
    var playerY: int
    var numItemsRemaining: int
    var numRedBombs: int
    var framesExecuted: nat
    var rewindCount: nat
    var playerLoseFrame: nat
    var pendingExplosions: seq<ExplosionInfo>
    var playerWillDropBomb: bool
    var playerDidWin: bool
    var undoLog: seq<UndoLogEntry>

    predicate Shaped()
    {
      w > 0 && h > 0 && cells.Length == Area(w, h)
    }

    /**
     * The log starts with the marker of frame 0 and holds exactly one marker
     * per executed frame, in order.
     */
    ghost predicate Valid()
      reads this
    {
      Shaped()
      && |undoLog| > 0 && undoLog[0] == FrameMarker(0)
      && Markers(undoLog) == Iota(framesExecuted + 1)
    }

    /** The cell at (x, y), both wrapped around the grid. */
    function At(x: int, y: int): Cell
      requires Shaped()
      reads cells
    {
      cells[Index(x, y, w, h)]
    }

    /** Whether the cell z steps from the player in direction d accepts a move back towards the player. */
    method PortalAhead(d: Impulse, z: int) returns (portal: bool)
      requires Shaped()
      ensures portal == Facing(cells[..], w, h, playerX, playerY, d, z)
    {
      portal := At(playerX + StepsX(d, z), playerY + StepsY(d, z)).IsPortal(Opposite(d));
    }

    /** The index of the square (x + dx, y + dy). */
    function Offset(x: int, y: int, dx: int, dy: int): (i: nat)
      requires Shaped()
      ensures i < cells.Length
    {
      Index(x + dx, y + dy, w, h)
    }

    /** The indices an explosion's blast covers. */
    ghost function Square(e: ExplosionInfo): set<nat>
      requires Shaped()
    {
      set dx: int, dy: int | -e.size <= dx <= e.size && -e.size <= dy <= e.size :: Offset(e.x, e.y, dx, dy)
    }

    /** The part of the level a rewind restores. */
    ghost function State(): (s: Snapshot)
      reads this, cells
    {
      Snapshot(cells[..], playerX, playerY, playerLoseFrame, numItemsRemaining, numRedBombs,
               pendingExplosions)
    }

    predicate PlayerIsAlive()
      requires Shaped()
      reads this, cells
    {
      At(playerX, playerY).kind == Player
    }

    /** The player is alive, and its cell is the one it had before: the player carried it along. */
    twostate predicate Carried()
      requires Shaped()
      reads this, cells
    {
      PlayerIsAlive() && At(playerX, playerY) == old(At(playerX, playerY))
    }

    /**
     * A w-by-h level walled in by blocks, its interior the default cell,
     * with the player placed when both coordinates are non-negative, and a
     * log holding only the marker of frame 0.
     */
    constructor (w: nat, h: nat, px: int, py: int)
      requires w > 0 && h > 0
      ensures Valid() && this.w == w && this.h == h && fresh(cells)
      ensures forall x: nat, y: nat :: x < w && y < h ==> At(x, y) == InitialCell(w, h, px, py, x, y)
      ensures playerX == px && playerY == py
      ensures numItemsRemaining == 0 && numRedBombs == 0 && playerLoseFrame == 0 && rewindCount == 0
      ensures framesExecuted == 0 && pendingExplosions == [] && undoLog == [FrameMarker(0)]
      ensures !playerWillDropBomb && !playerDidWin
    {
      var cs := NewGrid(w, h, px, py);
      this.w := w;
      this.h := h;
      cells := cs;
      playerX := px;
      playerY := py;
      numItemsRemaining := 0;
      numRedBombs := 0;
      framesExecuted := 0;
      rewindCount := 0;
      playerLoseFrame := 0;
      pendingExplosions := [];
      playerWillDropBomb := false;
      playerDidWin := false;
      undoLog := [FrameMarker(0)];
      new;
      forall xx: nat, yy: nat | xx < w && yy < h
        ensures At(xx, yy) == InitialCell(w, h, px, py, xx, yy)
      {
        IndexInRange(xx, yy, w, h);
      }
    }

    /** Logs the current contents of (x, y), moved flag cleared. */
    method WriteCellToUndoLog(x: int, y: int)
      requires Shaped()
      modifies this`undoLog
      ensures undoLog == old(undoLog) + [CellEntry(x, y, Logged(At(x, y)))]
      ensures Executed(undoLog) == Executed(old(undoLog))
      ensures Extends(old(undoLog), undoLog)
    {
      ExecutedSnoc(undoLog, CellEntry(x, y, Logged(At(x, y))));
      undoLog := undoLog + [CellEntry(x, y, Logged(At(x, y)))];
    }

    /** Appends an explosion to the pending list and logs its creation. */
    method ScheduleExplosion(frame: nat, x: int, y: int, size: int, kind: ExplosionKind)
      modifies this`pendingExplosions, this`undoLog
      ensures var e := ExplosionInfo(frame, x, y, size, kind);
              pendingExplosions == old(pendingExplosions) + [e]
              && undoLog == old(undoLog) + [CreateExplosion(e)]
      ensures Executed(undoLog) == Executed(old(undoLog))
    {
      var e := ExplosionInfo(frame, x, y, size, kind);
      ExecutedSnoc(undoLog, CreateExplosion(e));
      pendingExplosions := pendingExplosions + [e];
      undoLog := undoLog + [CreateExplosion(e)];
    }

    /** Rule 0: an explosion fades by 16 each frame and leaves empty space once spent. */
    method DecayExplosion(x: int, y: int)
      requires Shaped()
      modifies cells, this`undoLog
      ensures var i := Index(x, y, w, h);
              var c := old(cells[i]);
              if c.kind == Explosion then
                undoLog == old(undoLog) + [CellEntry(x, y, Logged(c))]
                && cells[..] == old(cells[..])[i := if c.param - 16 <= 0 then NewCell(Empty)
                                                    else c.(param := c.param - 16)]
              else
                undoLog == old(undoLog) && cells[..] == old(cells[..])
      ensures Extends(old(undoLog), undoLog)
    {
      var i := Index(x, y, w, h);
      if cells[i].kind == Explosion {
        WriteCellToUndoLog(x, y);
        cells[i] := cells[i].(param := cells[i].param - 16);
        if cells[i].param <= 0 {
          cells[i] := NewCell(Empty);
        }
      }
    }

    /**
     * Rule 1: a destroyer schedules an explosion on a non-empty, non-exploding
     * cell above it; a deleter empties that cell, logging itself rather than
     * the removed cell.
     */
    method DestroyOrDeleteAbove(x: int, y: int)
      requires Shaped()
      modifies cells, this`undoLog, this`pendingExplosions
      ensures var i, a := Index(x, y, w, h), Index(x, y - 1, w, h);
              var c := old(cells[i]);
              var occupied := old(cells[a]).kind != Empty && old(cells[a]).kind != Explosion;
              if c.kind == Destroyer && occupied then
                var e := DefaultExplosion(framesExecuted, x, y - 1);
                pendingExplosions == old(pendingExplosions) + [e]
                && undoLog == old(undoLog) + [CreateExplosion(e)]
                && cells[..] == old(cells[..])
              else if c.kind == Deleter && occupied then
                pendingExplosions == old(pendingExplosions)
                && undoLog == old(undoLog) + [CellEntry(x, y, Logged(c))]
                && cells[..] == old(cells[..])[a := NewCell(Empty)]
              else
                pendingExplosions == old(pendingExplosions) && undoLog == old(undoLog)
                && cells[..] == old(cells[..])
      ensures Extends(old(undoLog), undoLog)
    {
      var i, a := Index(x, y, w, h), Index(x, y - 1, w, h);
      if cells[i].kind == Destroyer && cells[a].kind != Empty && cells[a].kind != Explosion {
        ScheduleExplosion(framesExecuted, x, y - 1, 1, NormalExplosion);
      }
      if cells[i].kind == Deleter && cells[a].kind != Empty && cells[a].kind != Explosion {
        WriteCellToUndoLog(x, y);
        cells[a] := NewCell(Empty);
      }
    }

    /** Rule 2: a lit red bomb counts up by 16 and is scheduled to explode this frame at 256. */
    method FuseRedBomb(x: int, y: int)
      requires Shaped()
      modifies cells, this`undoLog, this`pendingExplosions
      ensures var i := Index(x, y, w, h);
              var c := old(cells[i]);
              if c.kind == RedBomb && c.param != 0 then
                var lit := c.(param := c.param + 16);
                var e := DefaultExplosion(framesExecuted, x, y);
                var fires := lit.param >= 256;
                cells[..] == old(cells[..])[i := lit]
                && pendingExplosions == old(pendingExplosions) + (if fires then [e] else [])
                && undoLog == old(undoLog) + [CellEntry(x, y, Logged(c))]
                                           + (if fires then [CreateExplosion(e)] else [])
              else
                pendingExplosions == old(pendingExplosions) && undoLog == old(undoLog)
                && cells[..] == old(cells[..])
      ensures Extends(old(undoLog), undoLog)
    {
      var i := Index(x, y, w, h);
      if cells[i].kind == RedBomb && cells[i].param != 0 {
        WriteCellToUndoLog(x, y);
        cells[i] := cells[i].(param := cells[i].param + 16);
        if cells[i].param >= 256 {
          ScheduleExplosion(framesExecuted, x, y, 1, NormalExplosion);
        }
      }
    }

    /** Empty space whose attenuation has started. */
    static predicate Attenuating(c: Cell)
    {
      c.kind == Empty && c.param != 0
    }

    /**
     * Rule 3: empty space attenuates while below 256, and starts to when a
     * neighbour has; this change alone is not logged.
     */
    method Attenuate(x: int, y: int)
      requires Shaped()
      modifies cells
      ensures var i := Index(x, y, w, h);
              var c := old(cells[i]);
              var grows := c.kind == Empty
                           && ((c.param != 0 && c.param < 256)
                               || Attenuating(old(At(x - 1, y))) || Attenuating(old(At(x + 1, y)))
                               || Attenuating(old(At(x, y - 1))) || Attenuating(old(At(x, y + 1))));
              cells[..] == if grows then old(cells[..])[i := c.(param := c.param + 1)] else old(cells[..])
    {
      var i := Index(x, y, w, h);
      if cells[i].kind == Empty {
        var param := cells[i].param;
        if (param != 0 && param < 256)
           || Attenuating(At(x - 1, y)) || Attenuating(At(x + 1, y))
           || Attenuating(At(x, y - 1)) || Attenuating(At(x, y + 1))
        {
          cells[i] := cells[i].(param := param + 1);
        }
      }
    }

    /**
     * Rule 4: an unmoved falling object drops into empty space below, or
     * lands (see Land).
     */
    method Fall(x: int, y: int) returns (ev: Events)
      requires Shaped()
      modifies cells, this`undoLog, this`pendingExplosions
      ensures var i, j := Index(x, y, w, h), Index(x, y + 1, w, h);
              var c, b := old(cells[i]), old(cells[j]);
              if !c.ShouldFall() || c.moved then
                ev == NoEvents && cells[..] == old(cells[..]) && undoLog == old(undoLog)
                && pendingExplosions == old(pendingExplosions)
              else if b.kind == Empty then
                ev == {ObjectFalling}
                && cells[..] == old(cells[..])[j := Cell(c.kind, Falling, true)][i := NewCell(Empty)]
                && undoLog == old(undoLog) + [CellEntry(x, y + 1, Logged(b)), CellEntry(x, y, Logged(c))]
                && pendingExplosions == old(pendingExplosions)
              else
                Landed(x, y, c, b, ev)
      ensures Extends(old(undoLog), undoLog)
      ensures old(pendingExplosions) <= pendingExplosions
      ensures forall k :: |old(pendingExplosions)| <= k < |pendingExplosions| ==>
                pendingExplosions[k].frame == framesExecuted || pendingExplosions[k].frame == framesExecuted + 2
      ensures ev <= MotionEvents
    {
      ev := NoEvents;
      var i, j := Index(x, y, w, h), Index(x, y + 1, w, h);
      var c, b := cells[i], cells[j];
      if c.ShouldFall() && !c.moved {
        if b.kind == Empty {
          ev := {ObjectFalling};
          Shift(x, y, x, y + 1, Falling);
        } else {
          ev := Land(x, y);
        }
      }
    }

    /**
     * The cell at (x, y) moves into (tx, ty), marked moved and with
     * parameter p, leaving empty space; the target is logged first.
     */
    method Shift(x: int, y: int, tx: int, ty: int, p: int)
      requires Shaped()
      modifies cells, this`undoLog
      ensures var i, j := Index(x, y, w, h), Index(tx, ty, w, h);
              var c, b := old(cells[i]), old(cells[j]);
              cells[..] == old(cells[..])[j := Cell(c.kind, p, true)][i := NewCell(Empty)]
              && undoLog == old(undoLog) + [CellEntry(tx, ty, Logged(b)), CellEntry(x, y, Logged(c))]
      ensures Extends(old(undoLog), undoLog)
    {
      var i, j := Index(x, y, w, h), Index(tx, ty, w, h);
      var c := cells[i];
      WriteCellToUndoLog(tx, ty);
      ghost var L1 := undoLog;
      WriteCellToUndoLog(x, y);
      ExtendsTrans(old(undoLog), L1, undoLog);
      cells[j] := Cell(c.kind, p, true);
      cells[i] := NewCell(Empty);
    }

    /**
     * What landing does to the falling cell c at (x, y) on the occupied cell
     * b below it: a falling object detonates a volatile b this frame; a
     * falling bomb is scheduled to explode two frames later; the faller comes
     * to rest, and only a faller that was falling is logged and reports a
     * landing.
     */
    twostate predicate Landed(x: int, y: int, c: Cell, b: Cell, ev: Events)
      requires Shaped()
      reads this, cells
    {
      var i := Index(x, y, w, h);
      if b.IsVolatile() && c.param == Falling then
        var e := ExplosionInfo(framesExecuted, x, y + 1, 1, b.ExplosionKindOf());
        ev == NoEvents && cells[..] == old(cells[..])
        && pendingExplosions == old(pendingExplosions) + [e]
        && undoLog == old(undoLog) + [CreateExplosion(e)]
      else if c.IsBomb() && c.param == Falling then
        var e := ExplosionInfo(framesExecuted + 2, x, y, 1, c.ExplosionKindOf());
        ev == {ObjectLanded} && cells[..] == old(cells[..])[i := c.(param := Resting)]
        && pendingExplosions == old(pendingExplosions) + [e]
        && undoLog == old(undoLog) + [CreateExplosion(e), CellEntry(x, y, Logged(c))]
      else
        ev == (if c.param == Falling then {ObjectLanded} else NoEvents)
        && cells[..] == old(cells[..])[i := c.(param := Resting)]
        && pendingExplosions == old(pendingExplosions)
        && undoLog == old(undoLog) + (if c.param == Falling then [CellEntry(x, y, Logged(c))] else [])
    }

    /** The landing half of rule 4, for a falling cell at (x, y) above an occupied cell. */
    method Land(x: int, y: int) returns (ev: Events)
      requires Shaped()
      modifies cells, this`undoLog, this`pendingExplosions
      ensures Landed(x, y, old(At(x, y)), old(At(x, y + 1)), ev)
      ensures Extends(old(undoLog), undoLog)
      ensures old(pendingExplosions) <= pendingExplosions
      ensures forall k :: |old(pendingExplosions)| <= k < |pendingExplosions| ==>
                pendingExplosions[k].frame == framesExecuted || pendingExplosions[k].frame == framesExecuted + 2
      ensures ev <= MotionEvents
    {
      ev := NoEvents;
      var i := Index(x, y, w, h);
      var c, b := cells[i], At(x, y + 1);
      if b.IsVolatile() && c.param == Falling {
        var e := ExplosionInfo(framesExecuted, x, y + 1, 1, b.ExplosionKindOf());
        pendingExplosions := pendingExplosions + [e];
        undoLog := undoLog + [CreateExplosion(e)];
      } else if c.IsBomb() && c.param == Falling {
        var e := ExplosionInfo(framesExecuted + 2, x, y, 1, c.ExplosionKindOf());
        pendingExplosions := pendingExplosions + [e];
        ev := {ObjectLanded};
        undoLog := undoLog + [CreateExplosion(e), CellEntry(x, y, Logged(c))];
        cells[i] := c.(param := Resting);
      } else {
        if c.param == Falling {
          undoLog := undoLog + [CellEntry(x, y, Logged(c))];
          ev := {ObjectLanded};
        }
        cells[i] := c.(param := Resting);
      }
    }

    /**
     * Rule 5: an unmoved round falling object on a round cell rolls left when
     * the left cell and the one below it are empty, otherwise right under the
     * same condition.
     */
    method Roll(x: int, y: int)
      requires Shaped()
      modifies cells, this`undoLog
      ensures var i, below := Index(x, y, w, h), Index(x, y + 1, w, h);
              var l, r := Index(x - 1, y, w, h), Index(x + 1, y, w, h);
              var c := old(cells[i]);
              var rolls := c.ShouldFall() && c.IsRound() && old(cells[below]).IsRound() && !c.moved;
              var toLeft := old(cells[l]).kind == Empty && old(At(x - 1, y + 1)).kind == Empty;
              var toRight := old(cells[r]).kind == Empty && old(At(x + 1, y + 1)).kind == Empty;
              if rolls && toLeft then
                cells[..] == old(cells[..])[l := Cell(c.kind, Resting, true)][i := NewCell(Empty)]
                && undoLog == old(undoLog) + [CellEntry(x - 1, y, Logged(old(cells[l]))), CellEntry(x, y, Logged(c))]
              else if rolls && toRight then
                cells[..] == old(cells[..])[r := Cell(c.kind, Resting, true)][i := NewCell(Empty)]
                && undoLog == old(undoLog) + [CellEntry(x + 1, y, Logged(old(cells[r]))), CellEntry(x, y, Logged(c))]
              else
                cells[..] == old(cells[..]) && undoLog == old(undoLog)
      ensures Extends(old(undoLog), undoLog)
    {
      var i, below := Index(x, y, w, h), Index(x, y + 1, w, h);
      var l, r := Index(x - 1, y, w, h), Index(x + 1, y, w, h);
      var c := cells[i];
      if c.ShouldFall() && c.IsRound() && cells[below].IsRound() && !c.moved {
        if cells[l].kind == Empty && At(x - 1, y + 1).kind == Empty {
          Shift(x, y, x - 1, y, Resting);
        } else if cells[r].kind == Empty && At(x + 1, y + 1).kind == Empty {
          Shift(x, y, x + 1, y, Resting);
        }
      }
    }

    /**
     * Rule 6: an unmoved dude follows its left wall (see Walk). Its parameter
     * is its facing, negated once it has just turned left. The dude is logged
     * first; a facing outside the direction tables stops the step there.
     */
    method StepDude(x: int, y: int) returns (ok: bool)
      requires Shaped()
      modifies cells, this`undoLog
      ensures var i := Index(x, y, w, h);
              var c := old(cells[i]);
              if !c.IsDude() || c.moved then
                ok && cells[..] == old(cells[..]) && undoLog == old(undoLog)
              else if Abs(c.param) > 4 then
                !ok && cells[..] == old(cells[..]) && undoLog == old(undoLog) + [CellEntry(x, y, Logged(c))]
              else
                ok && Walked(x, y, c, old(undoLog) + [CellEntry(x, y, Logged(c))])
      ensures Extends(old(undoLog), undoLog)
    {
      ok := true;
      var c := At(x, y);
      if c.IsDude() && !c.moved {
        WriteCellToUndoLog(x, y);
        if Abs(c.param) > 4 {
          return false;
        }
        Walk(x, y);
      }
    }

    /**
     * One wall-following step of the dude c at (x, y), after the log `base`:
     * the dude is logged again; it turns left when it has not just turned and
     * its left is empty, otherwise it moves forward into empty space (marked
     * moved, facing made positive, the vacated square emptied), otherwise it
     * turns right.
     */
    twostate predicate Walked(x: int, y: int, c: Cell, base: seq<UndoLogEntry>)
      requires Shaped() && Abs(c.param) <= 4
      reads this, cells
    {
      var i := Index(x, y, w, h);
      var f := ImpulseOf(Abs(c.param));
      var lt := LeftTurn(f);
      var fi, li := Index(x + Dx(f), y + Dy(f), w, h), Index(x + Dx(lt), y + Dy(lt), w, h);
      var again := base + [CellEntry(x, y, Logged(c))];
      if c.param > 0 && old(cells[li]).kind == Empty then
        cells[..] == old(cells[..])[i := c.(param := -(lt.Code() as int))] && undoLog == again
      else if old(cells[fi]).kind == Empty then
        cells[..] == old(cells[..])[fi := c.(param := Abs(c.param), moved := true)][i := NewCell(Empty)]
        && undoLog == again + [CellEntry(x + Dx(f), y + Dy(f), Logged(old(cells[fi])))]
      else
        cells[..] == old(cells[..])[i := c.(param := RightTurn(f).Code())] && undoLog == again
    }

    /** The turn-or-move half of rule 6 for the dude at (x, y). */
    method Walk(x: int, y: int)
      requires Shaped() && Abs(At(x, y).param) <= 4
      modifies cells, this`undoLog
      ensures Walked(x, y, old(At(x, y)), old(undoLog))
      ensures Extends(old(undoLog), undoLog)
    {
      var i := Index(x, y, w, h);
      var c := cells[i];
      var facing := ImpulseOf(Abs(c.param));
      var leftTurn, rightTurn := LeftTurn(facing), RightTurn(facing);
      var fx, fy := x + Dx(facing), y + Dy(facing);
      var fi, li := Index(fx, fy, w, h), Index(x + Dx(leftTurn), y + Dy(leftTurn), w, h);
      WriteCellToUndoLog(x, y);
      if c.param > 0 && cells[li].kind == Empty {
        cells[i] := c.(param := -(leftTurn.Code() as int));
      } else if cells[fi].kind == Empty {
        WriteCellToUndoLog(fx, fy);
        cells[fi] := c.(moved := true, param := Abs(c.param));
        cells[i] := NewCell(Empty);
      } else {
        cells[i] := c.(param := rightTurn.Code());
      }
    }

    /**
     * Rule 7: a rock generator with empty space below counts up and drops a
     * rock once its count reaches 16; a blocked generator resets its count.
     */
    method GenerateRock(x: int, y: int)
      requires Shaped()
      modifies cells, this`undoLog
      ensures var i, j := Index(x, y, w, h), Index(x, y + 1, w, h);
              var c, b := old(cells[i]), old(cells[j]);
              if c.kind != RockGenerator || (b.kind != Empty && c.param == 0) then
                cells[..] == old(cells[..]) && undoLog == old(undoLog)
              else if b.kind != Empty then
                cells[..] == old(cells[..])[i := c.(param := 0)]
                && undoLog == old(undoLog) + [CellEntry(x, y, Logged(c))]
              else if c.param >= 16 then
                cells[..] == old(cells[..])[j := NewCell(Rock)][i := c.(param := 0)]
                && undoLog == old(undoLog) + [CellEntry(x, y, Logged(c)), CellEntry(x, y + 1, Logged(b))]
              else
                cells[..] == old(cells[..])[i := c.(param := c.param + 1)]
                && undoLog == old(undoLog) + [CellEntry(x, y, Logged(c))]
      ensures Extends(old(undoLog), undoLog)
    {
      var i, j := Index(x, y, w, h), Index(x, y + 1, w, h);
      var c, b := cells[i], cells[j];
      if c.kind == RockGenerator {
        if b.kind != Empty {
          if c.param != 0 {
            Replace(x, y, c.(param := 0));
          }
        } else if c.param >= 16 {
          DropRock(x, y);
        } else {
          Replace(x, y, c.(param := c.param + 1));
        }
      }
    }

    /** Logs the cell at (x, y), then replaces it with c. */
    method Replace(x: int, y: int, c: Cell)
      requires Shaped()
      modifies cells, this`undoLog
      ensures var i := Index(x, y, w, h);
              cells[..] == old(cells[..])[i := c]
              && undoLog == old(undoLog) + [CellEntry(x, y, Logged(old(cells[i])))]
      ensures Extends(old(undoLog), undoLog)
    {
      WriteCellToUndoLog(x, y);
      cells[Index(x, y, w, h)] := c;
    }

    /**
     * A rock generator at (x, y) drops a rock below it and restarts its
     * count, logging itself and then the square below.
     */
    method DropRock(x: int, y: int)
      requires Shaped()
      modifies cells, this`undoLog
      ensures var i, j := Index(x, y, w, h), Index(x, y + 1, w, h);
              var c, b := old(cells[i]), old(cells[j]);
              cells[..] == old(cells[..])[j := NewCell(Rock)][i := c.(param := 0)]
              && undoLog == old(undoLog) + [CellEntry(x, y, Logged(c)), CellEntry(x, y + 1, Logged(b))]
      ensures Extends(old(undoLog), undoLog)
    {
      var i, j := Index(x, y, w, h), Index(x, y + 1, w, h);
      var c := cells[i];
      WriteCellToUndoLog(x, y);
      ghost var L1 := undoLog;
      WriteCellToUndoLog(x, y + 1);
      ExtendsTrans(old(undoLog), L1, undoLog);
      cells[j] := NewCell(Rock);
      cells[i] := c.(param := 0);
    }

    /**
     * Rules 0 to 3 applied in order to the cell at (x, y): the updates that
     * change cells in place without moving them.
     */
    method TickCell(x: int, y: int)
      requires Shaped()
      modifies cells, this`undoLog, this`pendingExplosions
      ensures Extends(old(undoLog), undoLog)
      ensures old(pendingExplosions) <= pendingExplosions
      ensures forall k :: |old(pendingExplosions)| <= k < |pendingExplosions| ==>
                pendingExplosions[k].frame == framesExecuted
    {
      ghost var log := undoLog;
      DecayExplosion(x, y);
      DestroyOrDeleteAbove(x, y);
      ExtendsTrans(old(undoLog), log, undoLog);
      log := undoLog;
      FuseRedBomb(x, y);
      ExtendsTrans(old(undoLog), log, undoLog);
      Attenuate(x, y);
    }

    /**
     * Rules 4 to 7 applied in order to the cell at (x, y): the rules that
     * move cells. False when the dude there faces outside the direction
     * tables, in which case rule 7 is not reached.
     */
    method MoveCell(x: int, y: int) returns (ev: Events, ok: bool)
      requires Shaped()
      modifies cells, this`undoLog, this`pendingExplosions
      ensures Extends(old(undoLog), undoLog)
      ensures old(pendingExplosions) <= pendingExplosions
      ensures forall k :: |old(pendingExplosions)| <= k < |pendingExplosions| ==>
                pendingExplosions[k].frame == framesExecuted || pendingExplosions[k].frame == framesExecuted + 2
      ensures ev <= MotionEvents
      ensures !ok ==> At(x, y).IsDude() && Abs(At(x, y).param) > 4
    {
      ev := Fall(x, y);
      ghost var log := undoLog;
      ok := RollWalkGenerate(x, y);
      ExtendsTrans(old(undoLog), log, undoLog);
    }

    /**
     * Rules 5 to 7 applied in order to the cell at (x, y); false when the
     * dude there faces outside the direction tables, which skips rule 7.
     */
    method RollWalkGenerate(x: int, y: int) returns (ok: bool)
      requires Shaped()
      modifies cells, this`undoLog
      ensures Extends(old(undoLog), undoLog)
      ensures !ok ==> At(x, y).IsDude() && Abs(At(x, y).param) > 4
    {
      Roll(x, y);
      ghost var log := undoLog;
      ok := StepDude(x, y);
      ExtendsTrans(old(undoLog), log, undoLog);
      if ok {
        log := undoLog;
        GenerateRock(x, y);
        ExtendsTrans(old(undoLog), log, undoLog);
      }
    }

    /**
     * The cell scan of a frame: rows from the bottom up, each row left to
     * right, every cell through rules 0 to 7; cut short by a dude facing out
     * of range.
     */
    method ScanGrid() returns (outcome: FrameOutcome)
      requires Shaped()
      modifies cells, this`undoLog, this`pendingExplosions
      ensures Extends(old(undoLog), undoLog)
      ensures old(pendingExplosions) <= pendingExplosions
      ensures forall k :: |old(pendingExplosions)| <= k < |pendingExplosions| ==>
                pendingExplosions[k].frame >= framesExecuted
      ensures outcome.Completed? ==> outcome.events <= MotionEvents
      ensures outcome.DudeFacingOutOfRange? ==>
                At(outcome.x, outcome.y).IsDude() && Abs(outcome.param) > 4
    {
      var events := NoEvents;
      var y: int := h - 1;
      while y >= 0
        invariant y < h
        invariant Extends(old(undoLog), undoLog)
        invariant old(pendingExplosions) <= pendingExplosions
        invariant forall k :: |old(pendingExplosions)| <= k < |pendingExplosions| ==>
                    pendingExplosions[k].frame >= framesExecuted
        invariant events <= MotionEvents
      {
        var x := 0;
        while x < w
          invariant x <= w
          invariant Extends(old(undoLog), undoLog)
          invariant old(pendingExplosions) <= pendingExplosions
          invariant forall k :: |old(pendingExplosions)| <= k < |pendingExplosions| ==>
                      pendingExplosions[k].frame >= framesExecuted
          invariant events <= MotionEvents
        {
          ghost var log := undoLog;
          TickCell(x, y);
          ExtendsTrans(old(undoLog), log, undoLog);
          log := undoLog;
          var ev, ok := MoveCell(x, y);
          ExtendsTrans(old(undoLog), log, undoLog);
          events := events + ev;
          if !ok {
            return DudeFacingOutOfRange(x, y, At(x, y).param);
          }
          x := x + 1;
        }
        y := y - 1;
      }
      return Completed(events);
    }

    /**
     * The blast of explosion e on the square (e.x + dx, e.y + dy): a
     * destroyable cell there becomes e's product after being logged; if it
     * is volatile and not the centre, a chained explosion is scheduled first.
     */
    method BlastSquare(e: ExplosionInfo, dx: int, dy: int) returns (chain: seq<ExplosionInfo>)
      requires Shaped()
      modifies cells, this`undoLog, this`pendingExplosions
      ensures var i := Offset(e.x, e.y, dx, dy);
              cells[..] == old(cells[..])[i := Blasted(old(cells[i]), e.kind)]
      ensures chain == ChainOf(e, dx, dy, old(cells[Offset(e.x, e.y, dx, dy)]), framesExecuted)
      ensures pendingExplosions == old(pendingExplosions) + chain
      ensures Appended(old(undoLog), undoLog)
    {
      var i := Offset(e.x, e.y, dx, dy);
      var victim := cells[i];
      chain := ChainOf(e, dx, dy, victim, framesExecuted);
      if victim.Destroyable() {
        if chain != [] {
          pendingExplosions := pendingExplosions + chain;
          undoLog := undoLog + [CreateExplosion(chain[0])];
        }
        undoLog := undoLog + [CellEntry(e.x + dx, e.y + dy, Logged(victim))];
        cells[i] := BlastProduct(e.kind);
      }
    }

    /**
     * BlastSquare seen from the whole blast: the grid stays C0 with the
     * reached squares blasted, and what is chained follows the chain rule
     * against the cell C0 held there.
     */
    method BlastVisit(e: ExplosionInfo, dx: int, dy: int, ghost C0: seq<Cell>, ghost hit: set<nat>)
      returns (chain: seq<ExplosionInfo>)
      requires Shaped() && -e.size <= dx <= e.size && -e.size <= dy <= e.size
      requires cells[..] == BlastedAt(C0, hit, e.kind)
      modifies cells, this`undoLog, this`pendingExplosions
      ensures cells[..] == BlastedAt(C0, hit + {Offset(e.x, e.y, dx, dy)}, e.kind)
      ensures Appended(old(undoLog), undoLog)
      ensures pendingExplosions == old(pendingExplosions) + chain
      ensures forall k :: 0 <= k < |chain| ==>
                Chained(e, chain[k], C0[Index(chain[k].x, chain[k].y, w, h)], framesExecuted)
    {
      var i := Offset(e.x, e.y, dx, dy);
      ghost var v := cells[i];
      chain := BlastSquare(e, dx, dy);
      assert cells[..] == BlastedAt(C0, hit + {i}, e.kind) by {
        BlastedAtAdd(C0, hit, i, e.kind);
      }
      assert v == C0[i] || v == Blasted(C0[i], e.kind) by {
        BlastedAtAdd(C0, hit, i, e.kind);
      }
      forall k | 0 <= k < |chain|
        ensures Chained(e, chain[k], C0[Index(chain[k].x, chain[k].y, w, h)], framesExecuted)
      {
        assert chain[k] in chain;
        ChainFromSquare(e, dx, dy, C0[i], v, framesExecuted);
      }
    }

    /**
     * One row, dy, of the blast of e: its squares left to right through
     * BlastSquare. C0 is the grid before the blast began and hit0 the
     * squares the blast had reached before this row.
     */
    method BlastRow(e: ExplosionInfo, dy: int, ghost C0: seq<Cell>, ghost hit0: set<nat>)
      returns (chained: seq<ExplosionInfo>, ghost hit: set<nat>)
      requires Shaped() && -e.size <= dy <= e.size
      requires cells[..] == BlastedAt(C0, hit0, e.kind)
      modifies cells, this`undoLog, this`pendingExplosions
      ensures cells[..] == BlastedAt(C0, hit, e.kind)
      ensures hit0 <= hit && forall j :: j in hit && j !in hit0 ==> j in Square(e)
      ensures forall ddx :: -e.size <= ddx <= e.size ==> Offset(e.x, e.y, ddx, dy) in hit
      ensures Appended(old(undoLog), undoLog)
      ensures pendingExplosions == old(pendingExplosions) + chained
      ensures forall k :: 0 <= k < |chained| ==>
                Chained(e, chained[k], C0[Index(chained[k].x, chained[k].y, w, h)], framesExecuted)
    {
      chained, hit := [], hit0;
      var dx := -e.size;
      while dx <= e.size
        invariant -e.size <= dx
        invariant cells[..] == BlastedAt(C0, hit, e.kind)
        invariant hit0 <= hit && forall j :: j in hit && j !in hit0 ==> j in Square(e)
        invariant forall ddx :: -e.size <= ddx < dx ==> Offset(e.x, e.y, ddx, dy) in hit
        invariant Appended(old(undoLog), undoLog)
        invariant pendingExplosions == old(pendingExplosions) + chained
        invariant forall k :: 0 <= k < |chained| ==>
                    Chained(e, chained[k], C0[Index(chained[k].x, chained[k].y, w, h)], framesExecuted)
        decreases e.size - dx
      {
        var i := Offset(e.x, e.y, dx, dy);
        assert i in Square(e);
        ghost var log := undoLog;
        var chain := BlastVisit(e, dx, dy, C0, hit);
        AppendedTrans(old(undoLog), log, undoLog);
        chained := chained + chain;
        hit := hit + {i};
        dx := dx + 1;
      }
    }

    /**
     * The blast of explosion e: every square within e.size of its centre,
     * row by row, goes through BlastSquare. A square reached twice (a radius
     * that wraps around the grid) is left as the first visit made it.
     */
    method Blast(e: ExplosionInfo) returns (chained: seq<ExplosionInfo>)
      requires Shaped()
      modifies cells, this`undoLog, this`pendingExplosions
      ensures Appended(old(undoLog), undoLog)
      ensures pendingExplosions == old(pendingExplosions) + chained
      ensures forall dx, dy :: -e.size <= dx <= e.size && -e.size <= dy <= e.size ==>
                cells[Offset(e.x, e.y, dx, dy)] == Blasted(old(cells[Offset(e.x, e.y, dx, dy)]), e.kind)
      ensures forall i :: 0 <= i < cells.Length && i !in Square(e) ==> cells[i] == old(cells[i])
      ensures forall k :: 0 <= k < |chained| ==>
                Chained(e, chained[k], old(At(chained[k].x, chained[k].y)), framesExecuted)
    {
      chained := [];
      ghost var C0 := cells[..];
      ghost var hit: set<nat> := {};
      var dy := -e.size;
      while dy <= e.size
        invariant -e.size <= dy
        invariant Appended(old(undoLog), undoLog)
        invariant pendingExplosions == old(pendingExplosions) + chained
        invariant hit <= Square(e)
        invariant cells[..] == BlastedAt(C0, hit, e.kind)
        invariant forall ddx, ddy :: -e.size <= ddx <= e.size && -e.size <= ddy < dy ==>
                    Offset(e.x, e.y, ddx, ddy) in hit
        invariant forall k :: 0 <= k < |chained| ==>
                    Chained(e, chained[k], C0[Index(chained[k].x, chained[k].y, w, h)], framesExecuted)
        decreases e.size - dy
      {
        ghost var log := undoLog;
        var row;
        row, hit := BlastRow(e, dy, C0, hit);
        AppendedTrans(old(undoLog), log, undoLog);
        chained := chained + row;
        dy := dy + 1;
      }
      forall i | 0 <= i < cells.Length
        ensures cells[i] == if i in hit then Blasted(old(cells[i]), e.kind) else old(cells[i])
      {
        assert cells[i] == cells[..][i];
      }
    }

    /**
     * Fires the pending explosion at position i: blasts its square, logs its
     * execution and removes it from the list; what it chains is appended.
     */
    method Fire(i: nat) returns (chained: seq<ExplosionInfo>)
      requires Shaped() && i < |pendingExplosions|
      modifies cells, this`undoLog, this`pendingExplosions
      ensures var e := old(pendingExplosions[i]);
              pendingExplosions == old(pendingExplosions[..i] + pendingExplosions[i + 1..]) + chained
              && Extends(old(undoLog), undoLog)
              && Executed(undoLog) == Executed(old(undoLog)) + [e]
      ensures forall k :: 0 <= k < |chained| ==>
                chained[k].frame == framesExecuted + 6 && chained[k].size == 1
    {
      var e := pendingExplosions[i];
      ghost var rest := pendingExplosions[..i] + pendingExplosions[i + 1..];
      ghost var L0 := undoLog;
      chained := Blast(e);
      assert forall k :: 0 <= k < |chained| ==>
               Chained(e, chained[k], old(At(chained[k].x, chained[k].y)), framesExecuted);
      AppendedExtends(L0, undoLog);
      ghost var L1 := undoLog;
      undoLog := undoLog + [ExecuteExplosion(e)];
      assert undoLog[..|undoLog| - 1] == L1;
      assert pendingExplosions[i] == e;
      pendingExplosions := pendingExplosions[..i] + pendingExplosions[i + 1..];
      assert pendingExplosions == rest + chained;
    }

    /** The maturation scan's state, as it concerns the level's current list and log. */
    ghost predicate Maturing(P0: seq<ExplosionInfo>, L0: seq<UndoLogEntry>, Q: seq<ExplosionInfo>,
                             n: nat, i: nat, ev: Events)
      reads this
    {
      Scanning(P0, L0, Q, n, i, ev, framesExecuted, pendingExplosions, undoLog)
    }

    /** One step of the maturation scan on an entry that is due: it is fired. */
    method FireDue(i: nat, ev: Events, ghost P0: seq<ExplosionInfo>, ghost L0: seq<UndoLogEntry>,
                   ghost Q: seq<ExplosionInfo>, ghost n: nat)
      returns (ev': Events, ghost Q': seq<ExplosionInfo>)
      requires Shaped() && Maturing(P0, L0, Q, n, i, ev)
      requires i < |pendingExplosions| && pendingExplosions[i].frame == framesExecuted
      modifies cells, this`undoLog, this`pendingExplosions
      ensures n < |P0| && n < |Q| <= |Q'| && Maturing(P0, L0, Q', n + 1, i, ev')
    {
      var e := pendingExplosions[i];
      ghost var p, log := pendingExplosions, undoLog;
      ev' := ev + {ExplosionEvent(e)};
      var chained := Fire(i);
      Q' := Q + chained;
      FireStep(P0, L0, Q, n, i, ev, framesExecuted, p, log, chained, pendingExplosions, undoLog);
    }

    /**
     * The maturation scan proper: walks the list from the front, firing the
     * entries due this frame and passing over the others, until it has seen
     * every entry, including those chained on the way.
     */
    method ScanPending() returns (ev: Events, ghost Q: seq<ExplosionInfo>)
      requires Shaped()
      modifies cells, this`undoLog, this`pendingExplosions
      ensures Maturing(old(pendingExplosions), old(undoLog), Q, |Q|, |pendingExplosions|, ev)
    {
      ev := NoEvents;
      ghost var P0, L0 := pendingExplosions, undoLog;
      ghost var n: nat := 0;
      Q := P0;
      var i := 0;
      while i < |pendingExplosions|
        invariant Maturing(P0, L0, Q, n, i, ev) && n <= |Q|
        decreases |P0| - Min(n, |P0|), |Q| - n
      {
        if pendingExplosions[i].frame == framesExecuted {
          ev, Q := FireDue(i, ev, P0, L0, Q, n);
          n := n + 1;
        } else {
          PassOver(P0, L0, Q, n, i, ev, framesExecuted, pendingExplosions, undoLog);
          i, n := i + 1, n + 1;
        }
      }
      ScanExhausted(P0, L0, Q, n, i, ev, framesExecuted, pendingExplosions, undoLog);
    }

    /**
     * Fires every pending explosion due this frame, in list order: each is
     * blasted, logged as executed and removed; explosions it chains are
     * appended and wait for a later frame.
     */
    method MatureExplosions() returns (ev: Events)
      requires Shaped()
      modifies cells, this`undoLog, this`pendingExplosions
      ensures Extends(old(undoLog), undoLog)
      ensures Executed(undoLog) == Executed(old(undoLog)) + Fired(old(pendingExplosions), framesExecuted)
      ensures var kept := Unfired(old(pendingExplosions), framesExecuted);
              kept <= pendingExplosions
              && forall k :: |kept| <= k < |pendingExplosions| ==>
                   pendingExplosions[k].frame == framesExecuted + 6 && pendingExplosions[k].size == 1
      ensures ev == ExplosionEvents(Fired(old(pendingExplosions), framesExecuted))
    {
      ghost var Q;
      ev, Q := ScanPending();
      ScanDone(old(pendingExplosions), Q, framesExecuted);
    }

    /**
     * What the player's target cell (tx, ty) yields before the player
     * moves: an item is counted off and logged, a red bomb counted and
     * logged, and an exit wins once the red-bomb count is not negative and
     * no item remains.
     */
    method Collect(tx: int, ty: int) returns (ev: Events)
      requires Shaped()
      modifies this`numItemsRemaining, this`numRedBombs, this`undoLog, this`playerDidWin
      ensures var k := At(tx, ty).kind;
              var wins := Wins(At(tx, ty), old(numRedBombs), old(numItemsRemaining));
              numItemsRemaining == old(numItemsRemaining) - (if k == Item then 1 else 0)
              && numRedBombs == old(numRedBombs) + (if k == RedBomb then 1 else 0)
              && undoLog == old(undoLog) + (if k == Item then [GetItem] else if k == RedBomb then [GetRedBomb] else [])
              && playerDidWin == (old(playerDidWin) || wins)
              && ev == (if k == Item then {ItemCollected} else if k == RedBomb then {RedBombCollected}
                        else if wins then {PlayerWon} else NoEvents)
      ensures Extends(old(undoLog), undoLog)
      ensures ev <= PlayerEvents
    {
      ev := NoEvents;
      var target := At(tx, ty);
      if target.kind == Item {
        ev := ev + {ItemCollected};
        numItemsRemaining := numItemsRemaining - 1;
        undoLog := undoLog + [GetItem];
      }
      if target.kind == RedBomb {
        ev := ev + {RedBombCollected};
        numRedBombs := numRedBombs + 1;
        undoLog := undoLog + [GetRedBomb];
      }
      if Wins(target, numRedBombs, numItemsRemaining) {
        ev := ev + {PlayerWon};
        playerDidWin := true;
      }
    }

    /** The distance of the nearest cell, from 2 steps on, that accepts a move back towards the player. */
    method NearestPortal(d: Impulse) returns (found: bool, z: nat)
      requires Shaped()
      ensures var r := old(JumpExit(cells[..], w, h, playerX, playerY, d, 2, MaxDist(d, w, h)));
              found == r.Some? && (found ==> z == r.value)
    {
      var maxd := MaxDist(d, w, h);
      ghost var cs := cells[..];
      z := 2;
      ghost var r := JumpExit(cs, w, h, playerX, playerY, d, z, maxd);
      while z < maxd
        invariant r == JumpExit(cs, w, h, playerX, playerY, d, z, maxd)
        decreases maxd - z
      {
        var portal := PortalAhead(d, z);
        JumpExitStep(cs, w, h, playerX, playerY, d, z, maxd, portal);
        if portal {
          return true, z;
        }
        z := z + 1;
      }
      JumpExitStep(cs, w, h, playerX, playerY, d, z, maxd, false);
      found := false;
    }

    /**
     * The player moves from its square p to (qx, qy): the destination is
     * logged, then p; the player cell is copied to the destination, and p
     * becomes a fused red bomb when a drop is armed (disarming it, spending
     * a red bomb and logging the drop) or empty space otherwise.
     */
    method MovePlayerTo(qx: int, qy: int) returns (ev: Events)
      requires Shaped()
      modifies cells, this`undoLog, this`numRedBombs, this`playerWillDropBomb, this`playerX, this`playerY
      ensures var p, q := Index(old(playerX), old(playerY), w, h), Index(qx, qy, w, h);
              var drop := old(playerWillDropBomb);
              cells[..] == old(cells[..])[q := old(cells[p])][p := if drop then Cell(RedBomb, 1, false) else NewCell(Empty)]
              && undoLog == old(undoLog) + [CellEntry(qx, qy, Logged(old(cells[q]))),
                                            CellEntry(old(playerX), old(playerY), Logged(old(cells[p])))]
                                         + (if drop then [DropRedBomb] else [])
              && numRedBombs == old(numRedBombs) - (if drop then 1 else 0)
              && !playerWillDropBomb && playerX == qx && playerY == qy
              && ev == (if drop then {RedBombDropped} else NoEvents)
      ensures Extends(old(undoLog), undoLog)
      ensures ev <= PlayerEvents
      ensures old(PlayerIsAlive()) && old(At(qx, qy)).kind != Player ==> Carried()
      ensures Grown(pendingExplosions, old(undoLog), pendingExplosions, undoLog, framesExecuted + 1)
    {
      var p, q := Index(playerX, playerY, w, h), Index(qx, qy, w, h);
      undoLog := undoLog + [CellEntry(qx, qy, Logged(cells[q])), CellEntry(playerX, playerY, Logged(cells[p]))];
      cells[q] := cells[p];
      if playerWillDropBomb {
        playerWillDropBomb := false;
        numRedBombs := numRedBombs - 1;
        undoLog := undoLog + [DropRedBomb];
        cells[p] := Cell(RedBomb, 1, false);
        ev := {RedBombDropped};
      } else {
        cells[p] := NewCell(Empty);
        ev := NoEvents;
      }
      playerX, playerY := qx, qy;
    }

    /**
     * The push of the cell at (tx, ty), one step from the player in
     * direction d: it moves on to the square two steps from the player when
     * that square is empty (both squares logged, the far one first), and
     * otherwise nothing changes.
     */
    method Push(d: Impulse, tx: int, ty: int) returns (pushed: bool)
      requires Shaped()
      modifies cells, this`undoLog
      ensures var sx, sy := playerX + StepsX(d, 2), playerY + StepsY(d, 2);
              var s, t := Index(sx, sy, w, h), Index(tx, ty, w, h);
              pushed == (old(cells[s]).kind == Empty)
              && (pushed ==>
                    cells[..] == old(cells[..])[s := old(cells[t])][t := NewCell(Empty)]
                    && undoLog == old(undoLog) + [CellEntry(sx, sy, Logged(old(cells[s]))),
                                                  CellEntry(tx, ty, Logged(old(cells[t])))])
              && (!pushed ==> cells[..] == old(cells[..]) && undoLog == old(undoLog))
      ensures Extends(old(undoLog), undoLog)
      ensures old(PlayerIsAlive()) && old(At(tx, ty)).kind != Player ==> Carried()
    {
      var sx, sy := playerX + StepsX(d, 2), playerY + StepsY(d, 2);
      var s, t := Index(sx, sy, w, h), Index(tx, ty, w, h);
      pushed := cells[s].kind == Empty;
      if pushed {
        undoLog := undoLog + [CellEntry(sx, sy, Logged(cells[s])), CellEntry(tx, ty, Logged(cells[t]))];
        cells[s] := cells[t];
        cells[t] := NewCell(Empty);
      }
    }

    /**
     * The pull of the cell at (tx, ty) by the player: both squares are
     * logged (the target first), their contents are swapped, and the player
     * takes the target's coordinates.
     */
    method Pull(tx: int, ty: int)
      requires Shaped()
      modifies cells, this`undoLog, this`playerX, this`playerY
      ensures var p, t := Index(old(playerX), old(playerY), w, h), Index(tx, ty, w, h);
              cells[..] == old(cells[..])[t := old(cells[p])][p := old(cells[t])]
              && undoLog == old(undoLog) + [CellEntry(tx, ty, Logged(old(cells[t]))),
                                            CellEntry(old(playerX), old(playerY), Logged(old(cells[p])))]
              && playerX == tx && playerY == ty
      ensures Extends(old(undoLog), undoLog)
      ensures old(PlayerIsAlive()) && old(At(tx, ty)).kind != Player ==> Carried()
    {
      var p, t := Index(playerX, playerY, w, h), Index(tx, ty, w, h);
      undoLog := undoLog + [CellEntry(tx, ty, Logged(cells[t])), CellEntry(playerX, playerY, Logged(cells[p]))];
      var contents := cells[t];
      cells[t] := cells[p];
      cells[p] := contents;
      playerX, playerY := tx, ty;
    }

    /** The yellow bombs of row y, left to right, scheduled for the next frame. */
    method TriggerRow(y: int)
      requires Shaped()
      modifies this`pendingExplosions, this`undoLog
      ensures Scheduled(old(pendingExplosions), old(undoLog), YellowRow(cells[..], w, h, y, w, framesExecuted + 1),
                        pendingExplosions, undoLog)
    {
      ghost var cs, f := cells[..], framesExecuted + 1;
      ghost var P0, L0 := pendingExplosions, undoLog;
      var x := 0;
      while x < w
        invariant 0 <= x <= w
        invariant Scheduled(P0, L0, YellowRow(cs, w, h, y, x, f), pendingExplosions, undoLog)
      {
        ghost var done := YellowRow(cs, w, h, y, x, f);
        if At(x, y).kind == YellowBomb {
          var e := DefaultExplosion(framesExecuted + 1, x, y);
          ScheduledSnoc(P0, L0, done, pendingExplosions, undoLog, e);
          pendingExplosions := pendingExplosions + [e];
          undoLog := undoLog + [CreateExplosion(e)];
        }
        x := x + 1;
      }
    }

    /**
     * Eating the yellow trigger: every yellow bomb of the grid, row by row
     * from the top, is scheduled to explode on the next frame with the
     * default radius and kind.
     */
    method TriggerYellowBombs()
      requires Shaped()
      modifies this`pendingExplosions, this`undoLog
      ensures Scheduled(old(pendingExplosions), old(undoLog), YellowRows(cells[..], w, h, h, framesExecuted + 1),
                        pendingExplosions, undoLog)
    {
      ghost var cs, f := cells[..], framesExecuted + 1;
      ghost var P0, L0 := pendingExplosions, undoLog;
      var y := 0;
      while y < h
        invariant 0 <= y <= h
        invariant Scheduled(P0, L0, YellowRows(cs, w, h, y, f), pendingExplosions, undoLog)
      {
        ghost var P1, L1 := pendingExplosions, undoLog;
        TriggerRow(y);
        ScheduledAppend(P0, L0, YellowRows(cs, w, h, y, f), P1, L1, YellowRow(cs, w, h, y, w, f),
                        pendingExplosions, undoLog);
        y := y + 1;
      }
    }

    /**
     * The part of the player's move towards (tx, ty) that is not a portal
     * crossing: a pushable target is pushed when the square beyond it is
     * empty; then a pullable target is pulled, and an edible one (which a
     * pushed-away target has become) is eaten: a yellow trigger sets off
     * every yellow bomb, a circuit reports itself, and the player moves in.
     */
    method PushPullOrEat(d: Impulse, tx: int, ty: int) returns (ev: Events)
      requires Shaped() && PlayerIsAlive()
      modifies cells, this`undoLog, this`pendingExplosions, this`numRedBombs, this`playerWillDropBomb,
               this`playerX, this`playerY
      ensures Carried()
      ensures (playerX == old(playerX) && playerY == old(playerY)) || (playerX == tx && playerY == ty)
      ensures Grown(old(pendingExplosions), old(undoLog), pendingExplosions, undoLog, framesExecuted + 1)
      ensures ev <= PlayerEvents
    {
      ghost var P0, L0 := pendingExplosions, undoLog;
      var pushed := PushIfPushable(d, tx, ty);
      ghost var L1 := undoLog;
      assert Grown(P0, L0, P0, L1, framesExecuted + 1);
      var more := PullOrEat(tx, ty);
      ev := pushed + more;
      GrownTrans(P0, L0, P0, L1, pendingExplosions, undoLog, framesExecuted + 1);
    }

    /** A pushable target at (tx, ty) is pushed when the square beyond it is empty. */
    method PushIfPushable(d: Impulse, tx: int, ty: int) returns (ev: Events)
      requires Shaped() && PlayerIsAlive()
      modifies cells, this`undoLog
      ensures Carried()
      ensures Extends(old(undoLog), undoLog)
      ensures ev == NoEvents || ev == {ObjectPushed}
      ensures ev <= PlayerEvents
    {
      ev := NoEvents;
      if At(tx, ty).IsPushable(d) {
        var pushed := Push(d, tx, ty);
        if pushed {
          ev := {ObjectPushed};
        }
      }
    }

    /** A pullable target at (tx, ty) is pulled, an edible one eaten; any other stays put. */
    method PullOrEat(tx: int, ty: int) returns (ev: Events)
      requires Shaped() && PlayerIsAlive()
      modifies cells, this`undoLog, this`pendingExplosions, this`numRedBombs, this`playerWillDropBomb,
               this`playerX, this`playerY
      ensures Carried()
      ensures (playerX == old(playerX) && playerY == old(playerY)) || (playerX == tx && playerY == ty)
      ensures Grown(old(pendingExplosions), old(undoLog), pendingExplosions, undoLog, framesExecuted + 1)
      ensures ev <= PlayerEvents
    {
      ev := NoEvents;
      if At(tx, ty).IsPullable() {
        ev := {ObjectPushed};
        Pull(tx, ty);
      } else if At(tx, ty).IsEdible() {
        ev := Eat(tx, ty);
      }
    }

    /**
     * What eating the cell at (tx, ty) sets off before the player moves in:
     * a yellow trigger sets off every yellow bomb, a circuit reports itself.
     */
    method EatEffects(tx: int, ty: int) returns (ev: Events)
      requires Shaped()
      modifies this`undoLog, this`pendingExplosions
      ensures Grown(old(pendingExplosions), old(undoLog), pendingExplosions, undoLog, framesExecuted + 1)
      ensures At(tx, ty).kind == YellowBombTrigger ==>
                Scheduled(old(pendingExplosions), old(undoLog), YellowRows(cells[..], w, h, h, framesExecuted + 1),
                          pendingExplosions, undoLog)
      ensures At(tx, ty).kind != YellowBombTrigger ==>
                pendingExplosions == old(pendingExplosions) && undoLog == old(undoLog)
      ensures ev == if At(tx, ty).kind == Circuit then {CircuitEaten} else NoEvents
    {
      ev := NoEvents;
      if At(tx, ty).kind == YellowBombTrigger {
        ghost var P0, L0 := pendingExplosions, undoLog;
        TriggerYellowBombs();
        YellowGrown(P0, L0, cells[..], w, h, framesExecuted + 1, pendingExplosions, undoLog);
      }
      if At(tx, ty).kind == Circuit {
        ev := {CircuitEaten};
      }
    }

    /**
     * The player eats the edible cell at (tx, ty): its effects are set off,
     * then the player moves in.
     */
    method Eat(tx: int, ty: int) returns (ev: Events)
      requires Shaped() && PlayerIsAlive() && At(tx, ty).IsEdible()
      modifies cells, this`undoLog, this`pendingExplosions, this`numRedBombs, this`playerWillDropBomb,
               this`playerX, this`playerY
      ensures Carried() && playerX == tx && playerY == ty
      ensures Grown(old(pendingExplosions), old(undoLog), pendingExplosions, undoLog, framesExecuted + 1)
      ensures ev <= PlayerEvents
    {
      ghost var P0, L0 := pendingExplosions, undoLog;
      ev := EatEffects(tx, ty);
      ghost var P1, L1 := pendingExplosions, undoLog;
      var dropped := MovePlayerTo(tx, ty);
      ev := ev + dropped;
      GrownTrans(P0, L0, P1, L1, pendingExplosions, undoLog, framesExecuted + 1);
    }

    /**
     * The exit of the portal one step ahead of the player in direction d:
     * two steps on for a plain portal, one step beyond the nearest matching
     * portal for a jump portal; none when the square ahead is no portal
     * entered from this side or a jump portal has no match.
     */
    method FindPortalExit(d: Impulse) returns (found: bool, qx: int, qy: int)
      requires Shaped()
      ensures var exit := PortalExit(cells[..], w, h, playerX, playerY, d);
              found == exit.Some? && (found ==> qx == exit.value.0 && qy == exit.value.1)
    {
      ghost var cs := cells[..];
      StepsScale(d, 1);
      var target := At(playerX + Dx(d), playerY + Dy(d));
      assert target == Along(cs, w, h, playerX, playerY, d, 1);
      found, qx, qy := false, 0, 0;
      if target.IsPortal(d) {
        if target.IsJumpPortal() {
          var z;
          found, z := NearestPortal(d);
          if found {
            qx, qy := playerX + StepsX(d, z + 1), playerY + StepsY(d, z + 1);
          }
        } else {
          found, qx, qy := true, playerX + StepsX(d, 2), playerY + StepsY(d, 2);
        }
      }
    }

    /**
     * The player's advance towards (tx, ty), one step away in direction d: a
     * portal there whose exit is empty carries the player to the exit, and
     * otherwise the target is pushed, pulled or eaten.
     */
    method Advance(d: Impulse, tx: int, ty: int) returns (ev: Events)
      requires Shaped() && PlayerIsAlive()
      modifies cells, this`undoLog, this`pendingExplosions, this`numRedBombs, this`playerWillDropBomb,
               this`playerX, this`playerY
      ensures Carried()
      ensures var exit := PortalExit(old(cells[..]), w, h, old(playerX), old(playerY), d);
              if exit.Some? && old(At(exit.value.0, exit.value.1)).kind == Empty then
                playerX == exit.value.0 && playerY == exit.value.1
              else
                (playerX == old(playerX) && playerY == old(playerY)) || (playerX == tx && playerY == ty)
      ensures Grown(old(pendingExplosions), old(undoLog), pendingExplosions, undoLog, framesExecuted + 1)
      ensures ev <= PlayerEvents
    {
      var found, qx, qy := FindPortalExit(d);
      if found && At(qx, qy).kind == Empty {
        ev := MovePlayerTo(qx, qy);
      } else {
        ev := PushPullOrEat(d, tx, ty);
      }
    }

    /**
     * The player's move in direction d (not None) while alive: the target
     * square one step ahead yields what it holds, then the player advances.
     */
    method PlayerActs(d: Impulse) returns (ev: Events)
      requires Shaped() && d != None && PlayerIsAlive()
      modifies cells, this`undoLog, this`pendingExplosions, this`numItemsRemaining, this`numRedBombs,
               this`playerDidWin, this`playerWillDropBomb, this`playerX, this`playerY
      ensures Carried()
      ensures var tx, ty := old(playerX) + Dx(d), old(playerY) + Dy(d);
              var exit := PortalExit(old(cells[..]), w, h, old(playerX), old(playerY), d);
              if exit.Some? && old(At(exit.value.0, exit.value.1)).kind == Empty then
                playerX == exit.value.0 && playerY == exit.value.1
              else
                (playerX == old(playerX) && playerY == old(playerY)) || (playerX == tx && playerY == ty)
      ensures old(playerDidWin) ==> playerDidWin
      ensures Grown(old(pendingExplosions), old(undoLog), pendingExplosions, undoLog, framesExecuted + 1)
      ensures ev <= PlayerEvents
    {
      var tx, ty := playerX + Dx(d), playerY + Dy(d);
      ghost var P0, L0 := pendingExplosions, undoLog;
      var got := Collect(tx, ty);
      ghost var L1 := undoLog;
      assert Grown(P0, L0, P0, L1, framesExecuted + 1);
      var more := Advance(d, tx, ty);
      ev := got + more;
      GrownTrans(P0, L0, P0, L1, pendingExplosions, undoLog, framesExecuted + 1);
    }

    /**
     * Brings the player's coordinates into the grid: a negative coordinate
     * gets the extent added until it is not negative, then both are
     * reduced modulo the extents.
     */
    method NormalizePlayer()
      requires Shaped()
      modifies this`playerX, this`playerY
      ensures playerX == Norm(old(playerX), w) && playerY == Norm(old(playerY), h)
      ensures 0 <= playerX < w && 0 <= playerY < h
      ensures At(playerX, playerY) == old(At(playerX, playerY))
    {
      while playerX < 0
        invariant Norm(playerX, w) == Norm(old(playerX), w) && playerY == old(playerY)
        decreases -playerX
      {
        playerX := playerX + w;
      }
      while playerY < 0
        invariant Norm(playerY, h) == Norm(old(playerY), h) && 0 <= playerX
        invariant Norm(playerX, w) == Norm(old(playerX), w)
        decreases -playerY
      {
        playerY := playerY + h;
      }
      NormMod(playerX, w);
      NormMod(playerY, h);
      playerX := playerX % w;
      playerY := playerY % h;
      IndexNorm(old(playerX), old(playerY), w, h);
    }

    /**
     * The player phase of a frame: a living player acts on its impulse
     * (None does nothing) and has its coordinates brought into the grid; a
     * player that is gone has the frame of its loss recorded once.
     */
    method ResolvePlayerAction(d: Impulse) returns (ev: Events)
      requires Shaped()
      modifies cells, this`undoLog, this`pendingExplosions, this`numItemsRemaining, this`numRedBombs,
               this`playerDidWin, this`playerWillDropBomb, this`playerX, this`playerY, this`playerLoseFrame
      ensures old(PlayerIsAlive()) ==>
                PlayerIsAlive() && 0 <= playerX < w && 0 <= playerY < h && playerLoseFrame == old(playerLoseFrame)
      ensures !old(PlayerIsAlive()) ==>
                ev == NoEvents && cells[..] == old(cells[..]) && undoLog == old(undoLog)
                && pendingExplosions == old(pendingExplosions)
                && playerX == old(playerX) && playerY == old(playerY)
                && numItemsRemaining == old(numItemsRemaining) && numRedBombs == old(numRedBombs)
                && playerDidWin == old(playerDidWin) && playerWillDropBomb == old(playerWillDropBomb)
                && playerLoseFrame == (if old(playerLoseFrame) == 0 then framesExecuted else old(playerLoseFrame))
      ensures Grown(old(pendingExplosions), old(undoLog), pendingExplosions, undoLog, framesExecuted + 1)
      ensures old(playerDidWin) ==> playerDidWin
    {
      ev := NoEvents;
      if PlayerIsAlive() {
        if d != None {
          ev := PlayerActs(d);
        }
        NormalizePlayer();
      } else if playerLoseFrame == 0 {
        playerLoseFrame := framesExecuted;
      }
    }

    /** Clears the moved flag of every cell, row by row. */
    method ClearMovedFlags()
      requires Shaped()
      modifies cells
      ensures forall i :: 0 <= i < cells.Length ==> cells[i] == old(cells[i]).(moved := false)
    {
      var y := 0;
      while y < h
        invariant 0 <= y <= h && Area(w, y) <= cells.Length
        invariant forall i :: 0 <= i < Area(w, y) ==> cells[i] == old(cells[i]).(moved := false)
        invariant forall i :: Area(w, y) <= i < cells.Length ==> cells[i] == old(cells[i])
      {
        AreaGrows(w, y + 1, h);
        var x := 0;
        while x < w
          invariant 0 <= x <= w && Area(w, y) + w <= cells.Length
          invariant forall i :: 0 <= i < Area(w, y) + x ==> cells[i] == old(cells[i]).(moved := false)
          invariant forall i :: Area(w, y) + x <= i < cells.Length ==> cells[i] == old(cells[i])
        {
          FlatIsArea(x, y, w);
          IndexInRange(x, y, w, h);
          cells[Index(x, y, w, h)] := cells[Index(x, y, w, h)].(moved := false);
          x := x + 1;
        }
        y := y + 1;
      }
    }

    /**
     * The cell rules of a frame: the cell scan, then (unless the scan was
     * cut short) the maturing of the explosions due on this frame. Nothing
     * due before the next frame is left pending.
     */
    method RunRules() returns (outcome: FrameOutcome)
      requires Shaped()
      modifies cells, this`undoLog, this`pendingExplosions
      ensures Extends(old(undoLog), undoLog)
      ensures outcome.Completed? && NotOverdue(old(pendingExplosions), framesExecuted) ==>
                NotOverdue(pendingExplosions, framesExecuted + 1)
      ensures outcome.DudeFacingOutOfRange? ==>
                At(outcome.x, outcome.y).IsDude() && Abs(outcome.param) > 4
    {
      ghost var P0, L0 := pendingExplosions, undoLog;
      outcome := ScanGrid();
      if outcome.DudeFacingOutOfRange? {
        return;
      }
      ghost var P1, L1 := pendingExplosions, undoLog;
      var matured := MatureExplosions();
      ExtendsTrans(L0, L1, undoLog);
      outcome := Completed(outcome.events + matured);
      if NotOverdue(P0, framesExecuted) {
        assert NotOverdue(P1, framesExecuted) by {
          forall k | 0 <= k < |P1|
            ensures P1[k].frame >= framesExecuted
          {
            if k < |P0| {
              assert P1[k] == P0[k];
            }
          }
        }
        var kept := Unfired(P1, framesExecuted);
        UnfiredNotOverdue(P1, framesExecuted);
        forall k | 0 <= k < |pendingExplosions|
          ensures pendingExplosions[k].frame >= framesExecuted + 1
        {
          if k < |kept| {
            assert pendingExplosions[k] == kept[k];
          }
        }
      }
    }

    /**
     * The player phase of a frame followed by the clearing of every moved
     * flag.
     */
    method FinishFrame(d: Impulse) returns (ev: Events)
      requires Shaped()
      modifies cells, this`undoLog, this`pendingExplosions, this`numItemsRemaining, this`numRedBombs,
               this`playerDidWin, this`playerWillDropBomb, this`playerX, this`playerY, this`playerLoseFrame
      ensures Extends(old(undoLog), undoLog)
      ensures NotOverdue(old(pendingExplosions), framesExecuted + 1) ==> NotOverdue(pendingExplosions, framesExecuted + 1)
      ensures forall i :: 0 <= i < cells.Length ==> !cells[i].moved
      ensures (0 <= playerX < w && 0 <= playerY < h) || (playerX == old(playerX) && playerY == old(playerY))
      ensures playerLoseFrame == (if PlayerIsAlive() || old(playerLoseFrame) != 0 then old(playerLoseFrame)
                                  else framesExecuted)
      ensures old(playerDidWin) ==> playerDidWin
    {
      ghost var P0, L0 := pendingExplosions, undoLog;
      ev := ResolvePlayerAction(d);
      if NotOverdue(P0, framesExecuted + 1) {
        GrownNotOverdue(P0, L0, pendingExplosions, undoLog, framesExecuted + 1);
      }
      ghost var alive, i := PlayerIsAlive(), Index(playerX, playerY, w, h);
      label BeforeClear:
      ClearMovedFlags();
      assert cells[i].kind == old@BeforeClear(cells[i]).kind;
      assert PlayerIsAlive() == alive;
    }

    /**
     * The rest of a frame whose cell rules ran to the end: the player
     * phase, the clearing of the moved flags, and the closing of the frame.
     */
    method CompleteFrame(d: Impulse) returns (ev: Events)
      requires Valid()
      modifies cells, this`undoLog, this`pendingExplosions, this`numItemsRemaining, this`numRedBombs,
               this`playerDidWin, this`playerWillDropBomb, this`playerX, this`playerY, this`playerLoseFrame,
               this`framesExecuted
      ensures Valid()
      ensures framesExecuted == old(framesExecuted) + 1
              && undoLog[|undoLog| - 1] == FrameMarker(framesExecuted)
              && Extends(old(undoLog), undoLog[..|undoLog| - 1])
      ensures forall i :: 0 <= i < cells.Length ==> !cells[i].moved
      ensures (0 <= playerX < w && 0 <= playerY < h) || (playerX == old(playerX) && playerY == old(playerY))
      ensures playerLoseFrame == (if PlayerIsAlive() || old(playerLoseFrame) != 0 then old(playerLoseFrame)
                                  else old(framesExecuted))
      ensures NotOverdue(old(pendingExplosions), framesExecuted) ==> NotOverdue(pendingExplosions, framesExecuted)
      ensures old(playerDidWin) ==> playerDidWin
    {
      ghost var L0 := undoLog;
      ev := FinishFrame(d);
      ghost var L1 := undoLog;
      CloseFrame(L0, L1, framesExecuted);
      framesExecuted := framesExecuted + 1;
      undoLog := undoLog + [FrameMarker(framesExecuted)];
      assert undoLog[..|undoLog| - 1] == L1;
    }

    /**
     * One frame of the level: the drop-bomb request is latched, the cell
     * rules run, the player acts, every moved flag is cleared, and the log
     * is closed with the marker of the new frame. A dude facing out of range
     * cuts the frame short before the player acts: the frame is then not
     * counted and no marker is written, but the level stays consistent.
     */
    method ExecFrame(actions: PlayerActions) returns (outcome: FrameOutcome)
      requires Valid()
      modifies cells, this`undoLog, this`pendingExplosions, this`numItemsRemaining, this`numRedBombs,
               this`playerDidWin, this`playerWillDropBomb, this`playerX, this`playerY, this`playerLoseFrame,
               this`framesExecuted
      ensures Valid()
      ensures outcome.DudeFacingOutOfRange? ==>
                framesExecuted == old(framesExecuted) && Extends(old(undoLog), undoLog)
                && At(outcome.x, outcome.y).IsDude() && Abs(outcome.param) > 4
      ensures outcome.Completed? ==>
                framesExecuted == old(framesExecuted) + 1
                && undoLog[|undoLog| - 1] == FrameMarker(framesExecuted)
                && Extends(old(undoLog), undoLog[..|undoLog| - 1])
                && (forall i :: 0 <= i < cells.Length ==> !cells[i].moved)
      ensures outcome.Completed? ==>
                (0 <= playerX < w && 0 <= playerY < h) || (playerX == old(playerX) && playerY == old(playerY))
      ensures outcome.Completed? ==>
                playerLoseFrame == (if PlayerIsAlive() || old(playerLoseFrame) != 0 then old(playerLoseFrame)
                                    else old(framesExecuted))
      ensures outcome.Completed? && NotOverdue(old(pendingExplosions), old(framesExecuted)) ==>
                NotOverdue(pendingExplosions, framesExecuted)
      ensures old(playerDidWin) ==> playerDidWin
    {
      if actions.dropBomb {
        playerWillDropBomb := true;
      }
      ghost var L0 := undoLog;
      outcome := RunRules();
      ExtendsKeepsMarkers(L0, undoLog);
      assert undoLog[0] == L0[0];
      if outcome.DudeFacingOutOfRange? {
        return;
      }
      ghost var L1 := undoLog;
      var acted := CompleteFrame(actions.impulse);
      ExtendsTrans(L0, L1, undoLog[..|undoLog| - 1]);
      outcome := Completed(outcome.events + acted);
    }

    /** Erases from the pending list every explosion equal to e, keeping the order of the rest. */
    method ErasePending(e: ExplosionInfo)
      modifies this`pendingExplosions
      ensures pendingExplosions == RemoveAll(old(pendingExplosions), e)
    {
      ghost var P := pendingExplosions;
      ghost var n := 0;
      var i := 0;
      while i < |pendingExplosions|
        invariant 0 <= n <= |P| && 0 <= i <= |pendingExplosions|
        invariant pendingExplosions == RemoveAll(P[..n], e) + P[n..]
        invariant i == |RemoveAll(P[..n], e)|
        decreases |P| - n
      {
        EraseStep(P, e, n, i, pendingExplosions);
        if pendingExplosions[i] == e {
          pendingExplosions := pendingExplosions[..i] + pendingExplosions[i + 1..];
        } else {
          i := i + 1;
        }
        n := n + 1;
      }
      assert P[..n] == P;
    }

    /** Undoes the last entry of the log and pops it. */
    method UndoLast()
      requires Shaped() && |undoLog| > 0
      modifies cells, this`playerX, this`playerY, this`playerLoseFrame, this`pendingExplosions,
               this`numItemsRemaining, this`numRedBombs, this`undoLog
      ensures undoLog == old(undoLog[..|undoLog| - 1])
      ensures State() == UndoEntry(old(State()), old(undoLog[|undoLog| - 1]), w, h)
    {
      var e := undoLog[|undoLog| - 1];
      match e {
        case FrameMarker(_) =>
        case CellEntry(x, y, c) =>
          cells[Index(x, y, w, h)] := c;
          if c.kind == Player {
            playerX, playerY, playerLoseFrame := x, y, 0;
          }
        case CreateExplosion(ex) =>
          ErasePending(ex);
        case ExecuteExplosion(ex) =>
          pendingExplosions := pendingExplosions + [ex];
        case GetItem =>
          numItemsRemaining := numItemsRemaining + 1;
        case GetRedBomb =>
          numRedBombs := numRedBombs - 1;
        case DropRedBomb =>
          numRedBombs := numRedBombs + 1;
      }
      undoLog := undoLog[..|undoLog| - 1];
    }

    /**
     * Rewinds to frame `target`: entries are undone and popped from the end
     * of the log until its last entry is the marker of a frame no later than
     * `target`, whose frame becomes the number of frames executed. The
     * seeded marker of frame 0 is never popped.
     */
    method RewindFramesUntil(target: nat)
      requires Valid()
      modifies cells, this`playerX, this`playerY, this`playerLoseFrame, this`pendingExplosions,
               this`numItemsRemaining, this`numRedBombs, this`undoLog, this`framesExecuted
      ensures Valid()
      ensures var k := RewindPoint(old(undoLog), target);
              undoLog == old(undoLog)[..k + 1]
              && State() == UndoSuffix(old(State()), old(undoLog)[k + 1..], w, h)
      ensures framesExecuted == Min(target, old(framesExecuted))
    {
      RewindToFrame(undoLog, framesExecuted, target);
      UndoUntil(target);
      framesExecuted := undoLog[|undoLog| - 1].frame;
    }

    /**
     * Undoes and pops entries from the end of the log until its last entry
     * is the marker of a frame no later than `target`.
     */
    method UndoUntil(target: nat)
      requires Shaped() && |undoLog| > 0 && undoLog[0] == FrameMarker(0)
      modifies cells, this`playerX, this`playerY, this`playerLoseFrame, this`pendingExplosions,
               this`numItemsRemaining, this`numRedBombs, this`undoLog
      ensures var k := RewindPoint(old(undoLog), target);
              undoLog == old(undoLog)[..k + 1]
              && State() == UndoSuffix(old(State()), old(undoLog)[k + 1..], w, h)
    {
      ghost var L, S := undoLog, State();
      ghost var k := RewindPoint(L, target);
      while !(undoLog[|undoLog| - 1].FrameMarker? && undoLog[|undoLog| - 1].frame <= target)
        invariant k < |undoLog| <= |L| && undoLog == L[..|undoLog|]
        invariant State() == UndoSuffix(S, L[|undoLog|..], w, h)
        decreases |undoLog|
      {
        ghost var n := |undoLog|;
        assert undoLog[n - 1] == L[n - 1];
        assert L[n - 1..][1..] == L[n..];
        UndoLast();
      }
      assert |undoLog| - 1 == k;
    }

    /** Rewinds `count` frames, or to frame 0 when fewer have been executed. */
    method RewindFrames(count: nat)
      requires Valid()
      modifies cells, this`playerX, this`playerY, this`playerLoseFrame, this`pendingExplosions,
               this`numItemsRemaining, this`numRedBombs, this`undoLog, this`framesExecuted
      ensures Valid()
      ensures framesExecuted == if count > old(framesExecuted) then 0 else old(framesExecuted) - count
      ensures var k := RewindPoint(old(undoLog), framesExecuted);
              undoLog == old(undoLog)[..k + 1]
              && State() == UndoSuffix(old(State()), old(undoLog)[k + 1..], w, h)
    {
      var target := if count > framesExecuted then 0 else framesExecuted - count;
      RewindFramesUntil(target);
    }

    /** Sum of `weight` over the cells, scanned row by row. */
    method Tally(weight: Cell -> nat) returns (count: nat)
      requires Shaped()
      ensures count == Sum(cells[..], weight)
    {
      count := 0;
      var y := 0;
      while y < h
        invariant 0 <= y <= h && Area(w, y) <= cells.Length
        invariant count == Sum(cells[..][..Area(w, y)], weight)
      {
        count := TallyRow(weight, y, count);
        y := y + 1;
      }
      assert cells[..][..Area(w, h)] == cells[..];
    }

    /** Adds the weights of row y, left to right, to the running total of the rows above it. */
    method TallyRow(weight: Cell -> nat, y: nat, above: nat) returns (count: nat)
      requires Shaped() && y < h && Area(w, y) <= cells.Length && above == Sum(cells[..][..Area(w, y)], weight)
      ensures Area(w, y + 1) <= cells.Length && count == Sum(cells[..][..Area(w, y + 1)], weight)
    {
      ghost var cs := cells[..];
      AreaGrows(w, y + 1, h);
      count := above;
      var x := 0;
      while x < w
        invariant 0 <= x <= w
        invariant count == Sum(cs[..Area(w, y) + x], weight)
      {
        ghost var k := Area(w, y) + x;
        FlatIsArea(x, y, w);
        IndexInRange(x, y, w, h);
        assert At(x, y) == cs[k];
        SumStep(cs, k, weight);
        count := count + weight(At(x, y));
        x := x + 1;
      }
    }

    /** The items left to collect: one per item, nine per item dude and per blue bomb. */
    method CountItems() returns (count: nat)
      requires Shaped()
      ensures count == Sum(cells[..], KindWeight(Item)) + 9 * Sum(cells[..], KindWeight(ItemDude))
                       + 9 * Sum(cells[..], KindWeight(BlueBomb))
      ensures count <= 9 * cells.Length
    {
      count := Tally(ItemWeight);
      ItemsDecompose(cells[..]);
      SumBound(cells[..], ItemWeight, 9);
    }

    /** The number of cells of kind k; positive exactly when there is one. */
    method CountCellsOfType(k: CellKind) returns (count: nat)
      requires Shaped()
      ensures count == Sum(cells[..], KindWeight(k)) && count <= cells.Length
      ensures count > 0 <==> exists i :: 0 <= i < cells.Length && cells[i].kind == k
    {
      count := Tally(KindWeight(k));
      CountPositive(cells[..], k);
      SumBound(cells[..], KindWeight(k), 1);
    }

    /** The number of empty cells whose attenuation has started. */
    method CountAttenuatedSpace() returns (count: nat)
      requires Shaped()
      ensures count == Sum(cells[..], AttenuatedWeight) && count <= cells.Length
    {
      count := Tally(AttenuatedWeight);
      SumBound(cells[..], AttenuatedWeight, 1);
    }

    /** The differing neighbour pairs along row y, one cell at a time. */
    method RowPairs(y: int) returns (pairs: nat)
      requires Shaped()
      ensures pairs == RowEntropy(cells[..], w, h, y, w)
    {
      ghost var cs := cells[..];
      pairs := 0;
      var x := 0;
      while x < w
        invariant 0 <= x <= w
        invariant pairs == RowEntropy(cs, w, h, y, x)
      {
        var here, right, below := At(x, y), At(x + 1, y), At(x, y + 1);
        assert here == cs[Index(x, y, w, h)] && right == cs[Index(x + 1, y, w, h)]
               && below == cs[Index(x, y + 1, w, h)];
        pairs := pairs + (if here.kind != right.kind then 1 else 0) + (if here.kind != below.kind then 1 else 0);
        x := x + 1;
      }
    }

    /** The entropy of the grid: differing right and down neighbours, wrapping around. */
    method ComputeEntropy() returns (entropy: nat)
      requires Shaped()
      ensures entropy == Entropy(cells[..], w, h) && entropy <= 2 * cells.Length
    {
      entropy := 0;
      var y := 0;
      while y < h
        invariant 0 <= y <= h
        invariant entropy == RowsEntropy(cells[..], w, h, y)
      {
        var row := RowPairs(y);
        entropy := entropy + row;
        y := y + 1;
      }
      EntropyBound(cells[..], w, h);
    }

    /** A level is playable exactly when some cell holds the player. */
    method Validate() returns (ok: bool)
      requires Shaped()
      ensures ok <==> exists i :: 0 <= i < cells.Length && cells[i].kind == Player
    {
      var y := 0;
      while y < h
        invariant 0 <= y <= h
        invariant forall i :: 0 <= i < Area(w, y) && i < cells.Length ==> cells[i].kind != Player
      {
        var x := 0;
        while x < w
          invariant 0 <= x <= w
          invariant forall i :: 0 <= i < Area(w, y) + x && i < cells.Length ==> cells[i].kind != Player
        {
          FlatIsArea(x, y, w);
          IndexInRange(x, y, w, h);
          if At(x, y).kind == Player {
            return true;
          }
          x := x + 1;
        }
        y := y + 1;
      }
      return false;
    }

    /**
     * Puts the player's coordinates on the first player cell in row-major
     * order; with no player cell they stay as they were.
     */
    method ComputePlayerCoordinates()
      requires Shaped()
      modifies this`playerX, this`playerY
      ensures (exists i :: 0 <= i < cells.Length && cells[i].kind == Player) ==>
                0 <= playerX < w && 0 <= playerY < h && PlayerIsAlive()
                && forall i :: 0 <= i < Flat(playerX, playerY, w) ==> cells[i].kind != Player
      ensures (forall i :: 0 <= i < cells.Length ==> cells[i].kind != Player) ==>
                playerX == old(playerX) && playerY == old(playerY)
    {
      var y := 0;
      while y < h
        invariant 0 <= y <= h && Area(w, y) <= cells.Length
        invariant forall i :: 0 <= i < Area(w, y) ==> cells[i].kind != Player
        invariant playerX == old(playerX) && playerY == old(playerY)
      {
        AreaGrows(w, y + 1, h);
        var x := 0;
        while x < w
          invariant 0 <= x <= w
          invariant forall i :: 0 <= i < Area(w, y) + x ==> cells[i].kind != Player
          invariant playerX == old(playerX) && playerY == old(playerY)
        {
          FlatIsArea(x, y, w);
          IndexInRange(x, y, w, h);
          if At(x, y).kind == Player {
            playerX, playerY := x, y;
            return;
          }
          x := x + 1;
        }
        y := y + 1;
      }
    }
  }

  /** A level built with every dimension and coordinate left at its default: 60 by 24, the player at (1, 1). */
  method NewDefaultLevel() returns (l: LevelState)
    ensures fresh(l) && fresh(l.cells) && l.Valid() && l.w == DefaultWidth && l.h == DefaultHeight
    ensures l.playerX == DefaultPlayerX && l.playerY == DefaultPlayerY && l.At(DefaultPlayerX, DefaultPlayerY) == NewCell(Player)
    ensures l.undoLog == [FrameMarker(0)] && l.pendingExplosions == []
  {
    l := new LevelState(DefaultWidth, DefaultHeight, DefaultPlayerX, DefaultPlayerY);
  }
}
