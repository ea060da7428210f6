/**
 * The cell model of a level: the closed enumerations of the level header
 * (impulses, fall states, cell kinds, explosion kinds), the per-tile cell
 * record and the pure predicates the simulation derives from a cell's kind.
 */
module Cells {

  /** A player (or dude) impulse; the codes index the direction tables. */
  datatype Impulse = None | Up | Down | Left | Right
  {
    function Code(): (c: nat)
      ensures c <= 4
    {
      match this
      case None => 0
      case Up => 1
      case Down => 2
      case Left => 3
      case Right => 4
    }
  }

  /** The impulse whose code is `c` (the table lookup the dude rule performs). */
  function ImpulseOf(c: nat): (d: Impulse)
    requires c <= 4
    ensures d.Code() == c
  {
    if c == 0 then None
    else if c == 1 then Up
    else if c == 2 then Down
    else if c == 3 then Left
    else Right
  }

  /** Every impulse code fits in three bits and decodes back to its impulse. */
  lemma ImpulseCodes(d: Impulse)
    ensures d.Code() < 8
    ensures ImpulseOf(d.Code()) == d
  {
  }

  /** One frame's input: the player's impulse and whether a bomb drop is requested. */
  datatype PlayerActions = PlayerActions(impulse: Impulse, dropBomb: bool)

  /** Grid offset (dx, dy) of one step in direction `d`; y grows downwards. */
  function Dx(d: Impulse): int
  {
    match d
    case Left => -1
    case Right => 1
    case _ => 0
  }

  function Dy(d: Impulse): int
  {
    match d
    case Up => -1
    case Down => 1
    case _ => 0
  }

  /** The x offset of z steps in direction d, written without a product. */
  function StepsX(d: Impulse, z: int): int
  {
    match d
    case Left => -z
    case Right => z
    case _ => 0
  }

  /** The y offset of z steps in direction d. */
  function StepsY(d: Impulse, z: int): int
  {
    match d
    case Up => -z
    case Down => z
    case _ => 0
  }

  /** z steps in direction d are z times the direction's offset. */
  lemma StepsScale(d: Impulse, z: int)
    ensures StepsX(d, z) == z * Dx(d) && StepsY(d, z) == z * Dy(d)
    ensures StepsX(d, 1) == Dx(d) && StepsY(d, 1) == Dy(d)
  {
  }

  function LeftTurn(d: Impulse): Impulse
  {
    match d
    case None => None
    case Up => Left
    case Down => Right
    case Left => Down
    case Right => Up
  }

  function RightTurn(d: Impulse): Impulse
  {
    match d
    case None => None
    case Up => Right
    case Down => Left
    case Left => Up
    case Right => Down
  }

  function Opposite(d: Impulse): Impulse
  {
    match d
    case None => None
    case Up => Down
    case Down => Up
    case Left => Right
    case Right => Left
  }

  /** The direction tables agree with each other and with the offsets. */
  lemma DirectionTables(d: Impulse)
    ensures RightTurn(LeftTurn(d)) == d && LeftTurn(RightTurn(d)) == d
    ensures LeftTurn(LeftTurn(d)) == Opposite(d)
    ensures Opposite(Opposite(d)) == d
    ensures Dx(Opposite(d)) == -Dx(d) && Dy(Opposite(d)) == -Dy(d)
    ensures d != None ==> Dx(d) * Dx(d) + Dy(d) * Dy(d) == 1
    ensures d != None ==> Opposite(d) != d
    ensures Dx(LeftTurn(d)) == Dy(d) && Dy(LeftTurn(d)) == -Dx(d)
  {
  }

  /** The two values of a falling object's `param`. */
  const Resting: int := 0
  const Falling: int := 1

  datatype CellKind =
    | Empty | Circuit | Rock | Exit | Player | Item | Block | RoundBlock
    | BlueBomb | GreenBomb | YellowBomb | YellowBombTrigger | RedBomb
    | Explosion | ItemDude | BombDude
    | LeftPortal | RightPortal | UpPortal | DownPortal
    | HorizontalPortal | VerticalPortal | Portal
    | GrayBomb | RockGenerator | Destroyer | Deleter
    | LeftJumpPortal | RightJumpPortal | UpJumpPortal | DownJumpPortal
    | HorizontalJumpPortal | VerticalJumpPortal | JumpPortal
    | PullStone | WhiteBomb

  /** What a matured explosion turns the destroyable cells of its square into. */
  datatype ExplosionKind = NormalExplosion | ItemExplosion | RockExplosion | BlockExplosion
  {
    function Code(): (c: nat)
      ensures c <= 3
    {
      match this
      case NormalExplosion => 0
      case ItemExplosion => 1
      case RockExplosion => 2
      case BlockExplosion => 3
    }
  }

  /** The explosion kinds are exactly the codes 0..3, one kind per code. */
  lemma ExplosionKindCodes(a: ExplosionKind, b: ExplosionKind)
    ensures a.Code() == b.Code() ==> a == b
    ensures a.Code() == 0 <==> a == NormalExplosion
  {
  }

  /**
   * One tile: its kind, the kind-dependent numeric parameter (attenuation,
   * fall state, fuse, dude facing, explosion brightness) and the transient
   * "already moved this frame" flag.
   */
  datatype Cell = Cell(kind: CellKind, param: int, moved: bool)
  {
    predicate IsRound()
    {
      kind == Rock || kind == Item || kind == RoundBlock
    }

    predicate ShouldFall()
    {
      kind == Rock || kind == Item || kind == GreenBomb || kind == BlueBomb
      || kind == GrayBomb || kind == WhiteBomb
    }

    predicate Destroyable()
    {
      kind != Block && kind != Destroyer && kind != Deleter
    }

    predicate IsBomb()
    {
      kind == GreenBomb || kind == RedBomb || kind == YellowBomb || kind == BlueBomb
      || kind == GrayBomb || kind == WhiteBomb || kind == ItemDude || kind == BombDude
      || kind == RockGenerator
    }

    predicate IsDude()
    {
      kind == ItemDude || kind == BombDude
    }

    predicate IsVolatile()
    {
      kind == Player || IsDude() || IsBomb()
    }

    predicate IsEdible()
    {
      kind == Empty || kind == Circuit || kind == Item || kind == RedBomb
      || kind == YellowBombTrigger
    }

    predicate IsPushable(dir: Impulse)
    {
      match dir
      case Left | Right =>
        kind == Rock || kind == GreenBomb || kind == BlueBomb || kind == YellowBomb
        || kind == GrayBomb || kind == WhiteBomb
      case Up | Down => kind == YellowBomb
      case None => false
    }

    predicate IsPullable()
    {
      kind == PullStone
    }

    function ExplosionKindOf(): ExplosionKind
    {
      if kind == ItemDude || kind == BlueBomb then ItemExplosion
      else if kind == GrayBomb then RockExplosion
      else if kind == WhiteBomb then BlockExplosion
      else NormalExplosion
    }

    /** Whether the cell accepts a player moving into it in direction `dir`. */
    predicate IsPortal(dir: Impulse)
    {
      if kind == Portal || kind == JumpPortal then true
      else match dir
        case Left =>
          kind == LeftPortal || kind == HorizontalPortal
          || kind == LeftJumpPortal || kind == HorizontalJumpPortal
        case Right =>
          kind == RightPortal || kind == HorizontalPortal
          || kind == RightJumpPortal || kind == HorizontalJumpPortal
        case Up =>
          kind == UpPortal || kind == VerticalPortal
          || kind == UpJumpPortal || kind == VerticalJumpPortal
        case Down =>
          kind == DownPortal || kind == VerticalPortal
          || kind == DownJumpPortal || kind == VerticalJumpPortal
        case None => false
    }

    predicate IsJumpPortal()
    {
      kind == LeftJumpPortal || kind == RightJumpPortal || kind == UpJumpPortal
      || kind == DownJumpPortal || kind == VerticalJumpPortal
      || kind == HorizontalJumpPortal || kind == JumpPortal
    }
  }

  /** `cell_state(kind)`: parameter 0, not moved. */
  function NewCell(kind: CellKind): (c: Cell)
    ensures c.kind == kind && c.param == 0 && !c.moved
  {
    Cell(kind, 0, false)
  }

  /** `cell_state()`, the value a freshly sized grid is filled with: Empty with parameter 1. */
  function DefaultCell(): (c: Cell)
    ensures c.kind == Empty && c.param == 1 && !c.moved
  {
    Cell(Empty, 1, false)
  }

  /** What a destroyable cell becomes when a blast of kind `k` reaches it. */
  function BlastProduct(k: ExplosionKind): (c: Cell)
    ensures !c.moved && !c.IsVolatile()
    ensures k == NormalExplosion <==> c.kind == Explosion
    ensures k == BlockExplosion <==> !c.Destroyable()
  {
    match k
    case ItemExplosion => NewCell(Item)
    case RockExplosion => NewCell(Rock)
    case BlockExplosion => NewCell(Block)
    case NormalExplosion => Cell(Explosion, 255, false)
  }

  /** The effect of one blast of kind `k` on one cell of its square. */
  function Blasted(c: Cell, k: ExplosionKind): Cell
  {
    if c.Destroyable() then BlastProduct(k) else c
  }

  /**
   * A cell reached twice by blasts of one kind (a square that wraps onto
   * itself) ends up as if it were reached once.
   */
  lemma BlastedIdempotent(c: Cell, k: ExplosionKind)
    ensures Blasted(Blasted(c, k), k) == Blasted(c, k)
    ensures !c.Destroyable() ==> Blasted(c, k) == c
  {
  }

  /** Facts about the kind predicates that the simulation rules rely on. */
  lemma KindFacts(c: Cell, d: Impulse)
    ensures c.IsVolatile() ==> c.Destroyable()
    ensures c.ShouldFall() ==> c.Destroyable() && (c.IsEdible() <==> c.kind == Item) && (c.IsVolatile() <==> c.IsBomb())
    ensures c.IsRound() && c.ShouldFall() <==> c.kind == Rock || c.kind == Item
    ensures c.IsPushable(d) ==> !c.IsEdible() && !c.IsPortal(d) && !c.IsPullable() && c.kind != Empty
    ensures c.IsPullable() ==> !c.IsEdible() && !c.IsPortal(d)
    ensures c.IsEdible() ==> !c.IsPortal(d) && c.kind != Player
    ensures c.ExplosionKindOf() != NormalExplosion ==> c.IsVolatile()
    ensures c.IsJumpPortal() ==> exists e :: c.IsPortal(e)
    ensures c.kind == Portal || c.kind == JumpPortal ==> c.IsPortal(d)
  {
    if c.IsJumpPortal() {
      if c.kind == LeftJumpPortal || c.kind == HorizontalJumpPortal {
        assert c.IsPortal(Left);
      } else if c.kind == RightJumpPortal {
        assert c.IsPortal(Right);
      } else if c.kind == UpJumpPortal || c.kind == VerticalJumpPortal {
        assert c.IsPortal(Up);
      } else if c.kind == DownJumpPortal {
        assert c.IsPortal(Down);
      } else {
        assert c.IsPortal(None);
      }
    }
  }
}
