/**
 * The events a frame reports, the 64-bit flag word that carries them, and
 * the events reported for the explosions that fire in a frame.
 */
module Events {
  import opened Cells
  import opened UndoLog

  /** One kind of event a frame can report. */
  datatype Event =
    | ObjectFalling | ObjectLanded | ItemCollected | CircuitEaten | RedBombCollected
    | RedBombDropped | ObjectPushed | Exploded | ItemExploded | PlayerWon
  {
    /** The event's flag in the frame's 64-bit event word. */
    function Bit(): bv64
    {
      match this
      case ObjectFalling => 0x1
      case ObjectLanded => 0x2
      case ItemCollected => 0x4
      case CircuitEaten => 0x8
      case RedBombCollected => 0x10
      case RedBombDropped => 0x20
      case ObjectPushed => 0x40
      case Exploded => 0x80
      case ItemExploded => 0x100
      case PlayerWon => 0x200
    }
  }

  /** The events of a frame, as the set of the kinds reported. */
  type Events = set<Event>

  const NoEvents: Events := {}

  /** The events the player's own move can report. */
  const PlayerEvents: Events := {ItemCollected, CircuitEaten, RedBombCollected, RedBombDropped, ObjectPushed, PlayerWon}

  /** The events the cell scan can report. */
  const MotionEvents: Events := {ObjectFalling, ObjectLanded}

  /** Every kind of event, in the order of their flags. */
  const AllEvents: seq<Event> := [ObjectFalling, ObjectLanded, ItemCollected, CircuitEaten, RedBombCollected,
                                  RedBombDropped, ObjectPushed, Exploded, ItemExploded, PlayerWon]

  /** The flag of e if e was reported, else no bit. */
  function FlagIf(ev: Events, e: Event): bv64
  {
    if e in ev then e.Bit() else 0
  }

  /** The union of the flags of the reported events among es. */
  function FlagsOver(ev: Events, es: seq<Event>): bv64
  {
    if es == [] then 0 else FlagsOver(ev, es[..|es| - 1]) | FlagIf(ev, es[|es| - 1])
  }

  /** The 64-bit event word of a set of events: the union of their flags. */
  function Flags(ev: Events): bv64
  {
    FlagsOver(ev, AllEvents)
  }

  /** Every event has a single bit of its own, and the word of no events is zero. */
  lemma EventBits(e: Event, f: Event)
    ensures e.Bit() != 0 && e.Bit() & (e.Bit() - 1) == 0
    ensures e != f ==> e.Bit() & f.Bit() == 0
  {
  }

  /** Masking distributes over union. */
  lemma AndOr(x: bv64, y: bv64, b: bv64)
    ensures (x | y) & b == (x & b) | (y & b)
  {
  }

  /** A union of words is zero only when both are. */
  lemma OrZero(p: bv64, q: bv64)
    ensures p | q != 0 <==> p != 0 || q != 0
  {
  }

  /** A bit of a union of words is set exactly when it is set in one of them. */
  lemma OrBit(x: bv64, y: bv64, b: bv64)
    ensures (x | y) & b != 0 <==> x & b != 0 || y & b != 0
  {
    AndOr(x, y, b);
    OrZero(x & b, y & b);
  }

  /** The bit of e is set in the flag of f exactly when f is e and was reported. */
  lemma FlagIfBit(ev: Events, f: Event, e: Event)
    ensures FlagIf(ev, f) & e.Bit() != 0 <==> f == e && e in ev
  {
    EventBits(e, f);
  }

  /** Among the flags of es, the bit of e is set exactly when e is among es and was reported. */
  lemma {:induction false} FlagsOverBit(ev: Events, es: seq<Event>, e: Event)
    ensures FlagsOver(ev, es) & e.Bit() != 0 <==> e in es && e in ev
  {
    if es != [] {
      var init, f := es[..|es| - 1], es[|es| - 1];
      FlagsOverBit(ev, init, e);
      FlagIfBit(ev, f, e);
      OrBit(FlagsOver(ev, init), FlagIf(ev, f), e.Bit());
      assert es == init + [f];
    }
  }

  /** An event's bit is set in the event word exactly when the event was reported. */
  lemma FlagsBit(ev: Events, e: Event)
    ensures Flags(ev) & e.Bit() != 0 <==> e in ev
  {
    FlagsOverBit(ev, AllEvents, e);
    assert e in AllEvents;
  }

  /** The event of one fired explosion: item explosions report ItemExploded, all others Exploded. */
  function ExplosionEvent(e: ExplosionInfo): Event
  {
    if e.kind == ItemExplosion then ItemExploded else Exploded
  }

  /** The events reported for the explosions fired in one frame. */
  function ExplosionEvents(fired: seq<ExplosionInfo>): (ev: Events)
    ensures ev <= {Exploded, ItemExploded}
  {
    if fired == [] then NoEvents
    else ExplosionEvents(fired[..|fired| - 1]) + {ExplosionEvent(fired[|fired| - 1])}
  }

  lemma ExplosionEventsSnoc(fired: seq<ExplosionInfo>, e: ExplosionInfo)
    ensures ExplosionEvents(fired + [e]) == ExplosionEvents(fired) + {ExplosionEvent(e)}
  {
    assert (fired + [e])[..|fired|] == fired;
  }

  /**
   * A frame reports ItemExploded exactly when an item explosion fired and
   * Exploded exactly when any other explosion fired.
   */
  lemma {:induction false} ExplosionEventsIff(fired: seq<ExplosionInfo>)
    ensures ItemExploded in ExplosionEvents(fired) <==> exists e :: e in fired && e.kind == ItemExplosion
    ensures Exploded in ExplosionEvents(fired) <==> exists e :: e in fired && e.kind != ItemExplosion
    decreases |fired|
  {
    if fired != [] {
      var init, e := fired[..|fired| - 1], fired[|fired| - 1];
      ExplosionEventsIff(init);
      assert fired == init + [e];
      assert e in fired;
      forall x | x in fired
        ensures x in init || x == e
      {
      }
    }
  }
}
