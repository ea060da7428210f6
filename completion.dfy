/**
 * Level completion records: the per-level result the game keeps between
 * sessions, in the current layout and the two older layouts it upgrades.
 * A counter that has no value yet holds the largest 64-bit value, so that
 * any real result compares as better.
 */
module Completion {

  /** The largest unsigned 64-bit value. */
  const Max64: nat := 0xFFFF_FFFF_FFFF_FFFF

  type U64 = x: int | 0 <= x <= Max64

  /** How far the player got with a level; the codes are stored in files. */
  datatype CompletionState = NotAttempted | Attempted | Completed
  {
    function Code(): (c: nat)
      ensures c <= 2
    {
      match this
      case NotAttempted => 0
      case Attempted => 1
      case Completed => 2
    }
  }

  /** The stored codes are 0, 1 and 2, one per state. */
  lemma StateCodes(a: CompletionState, b: CompletionState)
    ensures NotAttempted.Code() == 0 && Attempted.Code() == 1 && Completed.Code() == 2
    ensures a.Code() == b.Code() ==> a == b
  {
  }

  /** The first record layout. */
  datatype CompletionV1 = CompletionV1(
    state: CompletionState,
    frames: U64,
    extraItems: U64,
    extraBombs: U64,
    clearedSpace: U64,
    attenuatedSpace: U64)

  /** The second record layout: the first plus the level's entropy. */
  datatype CompletionV2 = CompletionV2(
    state: CompletionState,
    frames: U64,
    extraItems: U64,
    extraBombs: U64,
    clearedSpace: U64,
    attenuatedSpace: U64,
    entropy: U64)

  /** The current record layout: the second plus the number of rewinds. */
  datatype LevelCompletion = LevelCompletion(
    state: CompletionState,
    frames: U64,
    extraItems: U64,
    extraBombs: U64,
    clearedSpace: U64,
    attenuatedSpace: U64,
    entropy: U64,
    rewindCount: U64)

  /**
   * The record of a level never attempted: no bonus counted, and every
   * counter where less is better at the largest value, so that it is the
   * worst record on each of them.
   */
  function DefaultCompletion(): (c: LevelCompletion)
    ensures c.state == NotAttempted && c.extraItems == 0 && c.extraBombs == 0 && c.clearedSpace == 0
    ensures forall r: LevelCompletion ::
              r.frames <= c.frames && r.attenuatedSpace <= c.attenuatedSpace
              && r.entropy <= c.entropy && r.rewindCount <= c.rewindCount
  {
    LevelCompletion(NotAttempted, Max64, 0, 0, 0, Max64, Max64, Max64)
  }

  /** A first-layout record upgraded: its six fields kept, entropy and rewinds unknown. */
  function FromV1(v: CompletionV1): (c: LevelCompletion)
    ensures c.entropy == Max64 && c.rewindCount == Max64
  {
    LevelCompletion(v.state, v.frames, v.extraItems, v.extraBombs, v.clearedSpace, v.attenuatedSpace,
                    Max64, Max64)
  }

  /** A second-layout record upgraded: its seven fields kept, rewinds unknown. */
  function FromV2(v: CompletionV2): (c: LevelCompletion)
    ensures c.rewindCount == Max64
  {
    LevelCompletion(v.state, v.frames, v.extraItems, v.extraBombs, v.clearedSpace, v.attenuatedSpace,
                    v.entropy, Max64)
  }

  /** The fields of the first layout, read back from a current record. */
  function ToV1(c: LevelCompletion): CompletionV1
  {
    CompletionV1(c.state, c.frames, c.extraItems, c.extraBombs, c.clearedSpace, c.attenuatedSpace)
  }

  /** The fields of the second layout, read back from a current record. */
  function ToV2(c: LevelCompletion): CompletionV2
  {
    CompletionV2(c.state, c.frames, c.extraItems, c.extraBombs, c.clearedSpace, c.attenuatedSpace, c.entropy)
  }

  /**
   * A first-layout record padded to the second layout with entropy unknown.
   * The library has no such conversion; it exists only so that
   * `UpgradePathsAgree` can compare the two upgrade constructors.
   */
  function V1ToV2(v: CompletionV1): CompletionV2
  {
    CompletionV2(v.state, v.frames, v.extraItems, v.extraBombs, v.clearedSpace, v.attenuatedSpace, Max64)
  }

  /** Upgrading loses nothing: the old layout reads back unchanged. */
  lemma UpgradesKeepFields(v1: CompletionV1, v2: CompletionV2)
    ensures ToV1(FromV1(v1)) == v1
    ensures ToV2(FromV2(v2)) == v2
  {
  }

  /** Upgrading a first-layout record directly or by way of the second layout gives the same record. */
  lemma UpgradePathsAgree(v1: CompletionV1)
    ensures FromV2(V1ToV2(v1)) == FromV1(v1)
  {
  }

  /**
   * The upgrades are exactly the records whose missing fields are unknown:
   * a current record comes from a first-layout record when its entropy and
   * rewinds are both unknown, and from a second-layout one when its rewinds
   * are.
   */
  lemma UpgradeImage(c: LevelCompletion)
    ensures (exists v :: FromV1(v) == c) <==> c.entropy == Max64 && c.rewindCount == Max64
    ensures (exists v :: FromV2(v) == c) <==> c.rewindCount == Max64
  {
    if c.entropy == Max64 && c.rewindCount == Max64 {
      assert FromV1(ToV1(c)) == c;
    }
    if c.rewindCount == Max64 {
      assert FromV2(ToV2(c)) == c;
    }
  }
}
