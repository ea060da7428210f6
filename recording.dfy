/**
 * Recordings: the per-frame player actions of a play-through, stored as a
 * four-byte version tag, a four-byte little-endian action count and then
 * four bits per action (the bomb-drop flag followed by the three low bits
 * of the impulse code, most significant first). Bits are packed into bytes
 * from the most significant bit down; the last byte is padded with zeros.
 */
module Recording {
  import opened Cells
  import opened Bits

  /** Why a recording could not be read or written. */
  datatype RecordingError = IncorrectVersion | CountMissing | EndOfStream | NotOnByteBoundary

  datatype Result<T> = Success(value: T) | Failure(error: RecordingError)

  /** The outcome of a write that produces nothing. */
  datatype Status = Done | Failed(error: RecordingError)

  /** Sizes of the version tag and of the action count, in bytes. */
  const TagSize: nat := 4
  const CountSize: nat := 4

  /** The version word and the bytes it is stored as. */
  const VersionWord: nat := 0x4345_4345
  const VersionTag: seq<bv8> := [0x45, 0x43, 0x45, 0x43]

  /** A count stored as an unsigned 32-bit value. */
  function Count32(n: nat): (c: nat)
    ensures c < Bound32
    ensures n < Bound32 ==> c == n
  {
    n % Bound32
  }

  /** The version word, stored little-endian, is the version tag the reader expects. */
  lemma VersionTagIsWord(w: nat)
    requires w == VersionWord
    ensures LE32(w) == VersionTag
  {
    ValWeights(0x45);
    ValWeights(0x43);
    FromLE32RoundTrip(VersionTag);
  }

  // ------------------------------------------------------------ actions

  /**
   * One frame's actions as a recording holds them: the impulse as its raw
   * three-bit code, which may name no impulse when the file says so.
   */
  datatype RawActions = RawActions(dropBomb: bool, code: nat)

  /** The raw form of a frame's actions. */
  function ToRaw(a: PlayerActions): (r: RawActions)
    ensures r.dropBomb == a.dropBomb && r.code < 8
  {
    RawActions(a.dropBomb, a.impulse.Code())
  }

  /** The actions a raw record names, when its code is that of an impulse. */
  function ToActions(r: RawActions): (a: PlayerActions)
    requires r.code <= 4
    ensures ToRaw(a) == r
  {
    PlayerActions(ImpulseOf(r.code), r.dropBomb)
  }

  /** Distinct actions have distinct raw forms, and every raw form decodes to its actions. */
  lemma ToRawInjective(a: PlayerActions, b: PlayerActions)
    ensures ToRaw(a) == ToRaw(b) ==> a == b
    ensures ToActions(ToRaw(a)) == a
  {
    ImpulseCodes(a.impulse);
    ImpulseCodes(b.impulse);
  }

  /** The raw forms of a whole recording. */
  function Raws(rec: seq<PlayerActions>): (r: seq<RawActions>)
    ensures |r| == |rec| && forall i :: 0 <= i < |rec| ==> r[i] == ToRaw(rec[i])
  {
    seq(|rec|, i requires 0 <= i < |rec| => ToRaw(rec[i]))
  }

  /** The four bits one frame is stored as. */
  function ActionBits(a: PlayerActions): (bs: seq<bool>)
    ensures |bs| == 4
  {
    var c := a.impulse.Code();
    [a.dropBomb, c / 4 % 2 == 1, c / 2 % 2 == 1, c % 2 == 1]
  }

  /** The bits of a whole recording, four per frame, in order. */
  function ActionsBits(rec: seq<PlayerActions>): (bs: seq<bool>)
    ensures |bs| == 4 * |rec|
  {
    if |rec| == 0 then [] else ActionsBits(rec[..|rec| - 1]) + ActionBits(rec[|rec| - 1])
  }

  /** Bit `t` of frame `j` sits at position `4 * j + t` of the recording's bits. */
  lemma {:induction false} ActionsBitsAt(rec: seq<PlayerActions>, j: nat, t: nat, k: nat)
    requires j < |rec| && t < 4 && k == 4 * j + t
    ensures ActionsBits(rec)[k] == ActionBits(rec[j])[t]
  {
    var n := |rec| - 1;
    if j < n {
      ActionsBitsAt(rec[..n], j, t, k);
    }
  }

  /** The impulse code read back from its three bits, most significant first. */
  function CodeOf(b2: bool, b1: bool, b0: bool): (c: nat)
    ensures c < 8
  {
    (if b2 then 4 else 0) + (if b1 then 2 else 0) + (if b0 then 1 else 0)
  }

  /** The three code bits a frame is stored with give its impulse code back. */
  lemma CodeBits(a: PlayerActions)
    ensures var bs := ActionBits(a); CodeOf(bs[1], bs[2], bs[3]) == a.impulse.Code()
  {
  }

  // ----------------------------------------------------- file contents

  /** The bytes a recording is saved as. */
  function Encode(rec: seq<PlayerActions>): (bytes: seq<bv8>)
    ensures |bytes| == TagSize + CountSize + (4 * |rec| + 7) / 8
  {
    VersionTag + LE32(Count32(|rec|)) + Pack(ActionsBits(rec))
  }

  /** Up to `n` bytes of `s` from byte `pos` on, fewer when `s` ends first. */
  function Substr(s: seq<bv8>, pos: nat, n: nat): (r: seq<bv8>)
    requires pos <= |s|
    ensures |r| <= n && (pos + n <= |s| ==> |r| == n)
  {
    if pos + n <= |s| then s[pos..pos + n] else s[pos..]
  }

  /** Reading the bit at bit offset `off`: the stream ends at its last byte. */
  function ReadBitAt(bytes: seq<bv8>, off: nat): (r: Result<bool>)
    ensures r.Failure? <==> off / 8 >= |bytes|
  {
    if off / 8 >= |bytes| then Failure(EndOfStream)
    else Success(BitOf(bytes[off / 8], off % 8))
  }

  /** The first failure among four bit reads, or the frame they spell. */
  function Combine(d: Result<bool>, b2: Result<bool>, b1: Result<bool>, b0: Result<bool>): Result<RawActions>
  {
    match d
    case Failure(e) => Failure(e)
    case Success(drop) =>
      match b2
      case Failure(e) => Failure(e)
      case Success(x2) =>
        match b1
        case Failure(e) => Failure(e)
        case Success(x1) =>
          match b0
          case Failure(e) => Failure(e)
          case Success(x0) => Success(RawActions(drop, CodeOf(x2, x1, x0)))
  }

  /** The frame stored at bit offset `off`. */
  function ActionAt(bytes: seq<bv8>, off: nat): Result<RawActions>
  {
    Combine(ReadBitAt(bytes, off), ReadBitAt(bytes, off + 1), ReadBitAt(bytes, off + 2), ReadBitAt(bytes, off + 3))
  }

  /** `count` frames read from bit offset `off` on; the first missing bit ends the stream. */
  function DecodeActions(bytes: seq<bv8>, off: nat, count: nat): (r: Result<seq<RawActions>>)
    ensures r.Success? ==> |r.value| == count
    decreases count
  {
    if count == 0 then Success([])
    else match ActionAt(bytes, off)
      case Failure(e) => Failure(e)
      case Success(a) =>
        match DecodeActions(bytes, off + 4, count - 1)
        case Failure(e) => Failure(e)
        case Success(rest) => Success([a] + rest)
  }

  /** The frames a recording file holds, or why it cannot be read. */
  function Decode(bytes: seq<bv8>): Result<seq<RawActions>>
  {
    if Substr(bytes, 0, TagSize) != VersionTag then Failure(IncorrectVersion)
    else
      var c := Substr(bytes, TagSize, CountSize);
      if |c| != CountSize then Failure(CountMissing)
      else DecodeActions(bytes, 8 * (TagSize + CountSize), FromLE32(c))
  }

  /** A frame read at `off` followed by the frames after it. */
  lemma DecodeActionsStep(bytes: seq<bv8>, off: nat, count: nat, a: RawActions, rest: seq<RawActions>)
    requires count > 0 && ActionAt(bytes, off) == Success(a)
    requires DecodeActions(bytes, off + 4, count - 1) == Success(rest)
    ensures DecodeActions(bytes, off, count) == Success([a] + rest)
  {
  }

  /** Frames decoded so far, put in front of the rest's outcome. */
  function Prepend(done: seq<RawActions>, rest: Result<seq<RawActions>>): Result<seq<RawActions>>
  {
    match rest
    case Failure(e) => Failure(e)
    case Success(r) => Success(done + r)
  }

  /** Nothing decoded so far leaves the rest's outcome as it is. */
  lemma PrependNothing(rest: Result<seq<RawActions>>)
    ensures Prepend([], rest) == rest
  {
    if rest.Success? {
      assert [] + rest.value == rest.value;
    }
  }

  /** Reading one more frame moves it from the rest's outcome to the frames decoded so far. */
  lemma PrependStep(bytes: seq<bv8>, off: nat, count: nat, done: seq<RawActions>, a: RawActions)
    requires count > 0 && ActionAt(bytes, off) == Success(a)
    ensures Prepend(done, DecodeActions(bytes, off, count)) == Prepend(done + [a], DecodeActions(bytes, off + 4, count - 1))
  {
    var rest := DecodeActions(bytes, off + 4, count - 1);
    if rest.Success? {
      assert done + [a] + rest.value == done + ([a] + rest.value);
    }
  }

  /** The bit at offset `k` after an eight-byte header is the `k`-th bit packed. */
  lemma EncodedBit(head: seq<bv8>, bits: seq<bool>, k: nat, off: nat)
    requires |head| == 8 && k < |bits| && off == 64 + k
    ensures ReadBitAt(head + Pack(bits), off) == Success(bits[k])
  {
    PackBit(bits, k);
    assert off / 8 == 8 + k / 8 && off % 8 == k % 8;
  }

  /** The bits after an eight-byte header spell out the frames of `rec`, four bits each. */
  ghost predicate Stored(bytes: seq<bv8>, rec: seq<PlayerActions>)
  {
    forall off {:trigger ReadBitAt(bytes, off)} :: 64 <= off < 64 + 4 * |rec| ==>
      ReadBitAt(bytes, off) == Success(ActionsBits(rec)[off - 64])
  }

  /** The frames of a saved recording are stored after its header. */
  lemma StoredEncoded(head: seq<bv8>, rec: seq<PlayerActions>)
    requires |head| == 8
    ensures Stored(head + Pack(ActionsBits(rec)), rec)
  {
    forall off | 64 <= off < 64 + 4 * |rec|
      ensures ReadBitAt(head + Pack(ActionsBits(rec)), off) == Success(ActionsBits(rec)[off - 64])
    {
      EncodedBit(head, ActionsBits(rec), off - 64, off);
    }
  }

  /** Four bits read at `off` spell the frame of those bits. */
  lemma ActionAtOf(bytes: seq<bv8>, off: nat, bs: seq<bool>)
    requires |bs| == 4
    requires ReadBitAt(bytes, off) == Success(bs[0]) && ReadBitAt(bytes, off + 1) == Success(bs[1])
    requires ReadBitAt(bytes, off + 2) == Success(bs[2]) && ReadBitAt(bytes, off + 3) == Success(bs[3])
    ensures ActionAt(bytes, off) == Success(RawActions(bs[0], CodeOf(bs[1], bs[2], bs[3])))
  {
  }

  /** Frame `j` of stored frames reads back as its raw form. */
  lemma ActionAtStored(bytes: seq<bv8>, rec: seq<PlayerActions>, j: nat, off: nat)
    requires Stored(bytes, rec) && j < |rec| && off == 64 + 4 * j
    ensures ActionAt(bytes, off) == Success(ToRaw(rec[j]))
  {
    ActionsBitsAt(rec, j, 0, off - 64);
    ActionsBitsAt(rec, j, 1, off + 1 - 64);
    ActionsBitsAt(rec, j, 2, off + 2 - 64);
    ActionsBitsAt(rec, j, 3, off + 3 - 64);
    ActionAtOf(bytes, off, ActionBits(rec[j]));
    CodeBits(rec[j]);
  }

  /** The bit offset of frame j: after the eight header bytes, four bits per frame. */
  function FrameOffset(j: nat): nat
  {
    64 + 4 * j
  }

  /** Every frame of `frames` reads back at its place after the header. */
  ghost predicate FramesStored(bytes: seq<bv8>, frames: seq<RawActions>)
  {
    forall j {:trigger ActionAt(bytes, FrameOffset(j))} ::
      0 <= j < |frames| ==> ActionAt(bytes, FrameOffset(j)) == Success(frames[j])
  }

  /** Stored bits read back as the raw forms of the first n stored frames. */
  lemma StoredFrames(bytes: seq<bv8>, rec: seq<PlayerActions>, n: nat)
    requires Stored(bytes, rec) && n <= |rec|
    ensures FramesStored(bytes, Raws(rec[..n]))
  {
    var frames := Raws(rec[..n]);
    forall j | 0 <= j < |frames|
      ensures ActionAt(bytes, FrameOffset(j)) == Success(frames[j])
    {
      ActionAtStored(bytes, rec, j, FrameOffset(j));
    }
  }

  /** The frames `frames` are read back one after another from bit offset `off` on. */
  ghost predicate FramesFrom(bytes: seq<bv8>, frames: seq<RawActions>, off: nat)
    decreases |frames|
  {
    |frames| == 0 || (ActionAt(bytes, off) == Success(frames[0]) && FramesFrom(bytes, frames[1..], off + 4))
  }

  /** Frame `j` read back in front of the frames after it. */
  lemma FramesFromCons(bytes: seq<bv8>, frames: seq<RawActions>, j: nat, off: nat)
    requires j < |frames| && ActionAt(bytes, off) == Success(frames[j])
    requires FramesFrom(bytes, frames[j + 1..], off + 4)
    ensures FramesFrom(bytes, frames[j..], off)
  {
    assert frames[j..][1..] == frames[j + 1..];
  }

  /** Stored frames from `j` on are read back one after another. */
  lemma {:induction false} StoredFramesFrom(bytes: seq<bv8>, frames: seq<RawActions>, j: nat, off: nat)
    requires FramesStored(bytes, frames) && j <= |frames| && off == FrameOffset(j)
    ensures FramesFrom(bytes, frames[j..], off)
    decreases |frames| - j
  {
    if j < |frames| {
      assert ActionAt(bytes, FrameOffset(j)) == Success(frames[j]);
      StoredFramesFrom(bytes, frames, j + 1, off + 4);
      FramesFromCons(bytes, frames, j, off);
    }
  }

  /** Frames read back one after another are read back together. */
  lemma {:induction false} DecodeFrames(bytes: seq<bv8>, frames: seq<RawActions>, off: nat)
    requires FramesFrom(bytes, frames, off)
    ensures DecodeActions(bytes, off, |frames|) == Success(frames)
    decreases |frames|
  {
    if |frames| > 0 {
      var rest := frames[1..];
      assert [frames[0]] + rest == frames;
      DecodeFrames(bytes, rest, off + 4);
      DecodeActionsStep(bytes, off, |frames|, frames[0], rest);
    }
  }

  /**
   * Loading what saving wrote gives back every frame's actions, up to the
   * count a 32-bit field can hold: beyond that the stored count wraps and
   * only that many frames are read.
   */
  lemma DecodeEncode(rec: seq<PlayerActions>)
    ensures Decode(Encode(rec)) == Success(Raws(rec[..Count32(|rec|)]))
  {
    var head := VersionTag + LE32(Count32(|rec|));
    var bytes := Encode(rec);
    assert bytes == head + Pack(ActionsBits(rec));
    assert Substr(bytes, 0, TagSize) == VersionTag;
    assert Substr(bytes, TagSize, CountSize) == LE32(Count32(|rec|));
    LE32RoundTrip(Count32(|rec|));
    StoredEncoded(head, rec);
    var frames := Raws(rec[..Count32(|rec|)]);
    StoredFrames(bytes, rec, Count32(|rec|));
    StoredFramesFrom(bytes, frames, 0, 8 * (TagSize + CountSize));
    assert frames[0..] == frames;
    DecodeFrames(bytes, frames, 8 * (TagSize + CountSize));
  }

  /** Every recording of fewer than 2^32 frames survives saving and loading unchanged. */
  lemma RoundTrip(rec: seq<PlayerActions>)
    requires |rec| < Bound32
    ensures Decode(Encode(rec)) == Success(Raws(rec))
  {
    DecodeEncode(rec);
    assert rec[..|rec|] == rec;
  }

  /** A file that does not start with the version tag, or stops before the count, is refused. */
  lemma DecodeHeaderErrors(bytes: seq<bv8>)
    ensures |bytes| < TagSize || bytes[..TagSize] != VersionTag ==> Decode(bytes) == Failure(IncorrectVersion)
    ensures TagSize <= |bytes| < TagSize + CountSize && bytes[..TagSize] == VersionTag
            ==> Decode(bytes) == Failure(CountMissing)
  {
  }

  // ------------------------------------------------------ bit streams

  /** Builds a byte string bit by bit, or byte by byte at byte boundaries. */
  class BitSerializer {
    var data: seq<bv8>
    var bitOffset: nat
    /** The bits written so far. */
    ghost var bits: seq<bool>

    ghost predicate Valid()
      reads this
    {
      bitOffset == |bits| && data == Pack(bits)
    }

    constructor ()
      ensures Valid() && bits == [] && data == [] && bitOffset == 0
    {
      data := [];
      bitOffset := 0;
      bits := [];
    }

    /** Appends one bit. */
    method WriteBit(v: bool)
      requires Valid()
      modifies this
      ensures Valid() && bits == old(bits) + [v]
    {
      if bitOffset % 8 == 0 {
        PackSnocAligned(bits, v);
      } else {
        PackSnocInside(bits, v);
      }
      if bitOffset % 8 == 0 {
        data := data + [0];
      }
      if v {
        var i := bitOffset / 8;
        data := data[i := data[i] | Mask(bitOffset % 8)];
      }
      bitOffset := bitOffset + 1;
      bits := bits + [v];
    }

    /** Appends one frame's four bits: the bomb-drop flag, then the impulse code from its high bit down. */
    method WriteFrame(a: PlayerActions)
      requires Valid()
      modifies this
      ensures Valid() && bits == old(bits) + ActionBits(a)
    {
      var c := a.impulse.Code();
      WriteBit(a.dropBomb);
      WriteBit(c / 4 % 2 == 1);
      WriteBit(c / 2 % 2 == 1);
      WriteBit(c % 2 == 1);
    }

    /** Appends whole bytes; refused unless the stream is at a byte boundary. */
    method WriteBytes(bytes: seq<bv8>) returns (st: Status)
      requires Valid()
      modifies this
      ensures Valid()
      ensures st == if old(bitOffset) % 8 == 0 then Done else Failed(NotOnByteBoundary)
      ensures st.Done? ==> bits == old(bits) + BytesBits(bytes) && data == old(data) + bytes
      ensures st.Done? ==> bitOffset == old(bitOffset) + 8 * |bytes|
      ensures st.Failed? ==> bits == old(bits) && data == old(data) && bitOffset == old(bitOffset)
    {
      if bitOffset % 8 != 0 {
        return Failed(NotOnByteBoundary);
      }
      PackAppend(bits, BytesBits(bytes));
      PackBytes(bytes);
      data := data + bytes;
      bitOffset := bitOffset + 8 * |bytes|;
      bits := bits + BytesBits(bytes);
      st := Done;
    }
  }

  /** Reads a byte string bit by bit, or byte by byte at byte boundaries. */
  class BitDeserializer {
    const data: seq<bv8>
    var bitOffset: nat

    ghost predicate Valid()
      reads this
    {
      bitOffset <= 8 * |data|
    }

    constructor (bytes: seq<bv8>)
      ensures Valid() && data == bytes && bitOffset == 0
    {
      data := bytes;
      bitOffset := 0;
    }

    /** Reads the next bit; fails at the end of the data. */
    method ReadBit() returns (r: Result<bool>)
      requires Valid()
      modifies this
      ensures Valid()
      ensures r == ReadBitAt(data, old(bitOffset))
      ensures bitOffset == if r.Success? then old(bitOffset) + 1 else old(bitOffset)
    {
      if bitOffset / 8 >= |data| {
        return Failure(EndOfStream);
      }
      r := Success(BitOf(data[bitOffset / 8], bitOffset % 8));
      bitOffset := bitOffset + 1;
    }

    /** Reads up to `size` whole bytes; refused unless the stream is at a byte boundary. */
    method ReadBytes(size: nat) returns (r: Result<seq<bv8>>)
      requires Valid()
      modifies this
      ensures Valid()
      ensures old(bitOffset) % 8 != 0 ==> r == Failure(NotOnByteBoundary) && bitOffset == old(bitOffset)
      ensures old(bitOffset) % 8 == 0 ==>
                r == Success(Substr(data, old(bitOffset) / 8, size)) && bitOffset == old(bitOffset) + 8 * |r.value|
    {
      if bitOffset % 8 != 0 {
        return Failure(NotOnByteBoundary);
      }
      var s := Substr(data, bitOffset / 8, size);
      bitOffset := bitOffset + 8 * |s|;
      r := Success(s);
    }

    /** Reads one frame's four bits: the bomb-drop flag, then the impulse code from its high bit down. */
    method ReadFrame() returns (a: Result<RawActions>)
      requires Valid()
      modifies this
      ensures Valid()
      ensures a == ActionAt(data, old(bitOffset))
      ensures a.Success? ==> bitOffset == old(bitOffset) + 4
    {
      var drop := ReadBit();
      var b2 := ReadBit();
      var b1 := ReadBit();
      var b0 := ReadBit();
      a := Combine(drop, b2, b1, b0);
    }
  }

  /** The error a failed read reports, or `e` when the read succeeded. */
  function ErrorOr<T>(r: Result<T>, e: RecordingError): RecordingError
  {
    match r
    case Failure(x) => x
    case Success(_) => e
  }

  /** The header's bits followed by every frame's bits pack into the saved bytes. */
  lemma SavedBytes(head: seq<bool>, rec: seq<PlayerActions>)
    requires |head| == 64 && Pack(head) == VersionTag + LE32(Count32(|rec|))
    ensures Pack(head + ActionsBits(rec)) == Encode(rec)
  {
    PackAppend(head, ActionsBits(rec));
  }

  /** Writes the version word and the frame count, little-endian, into an empty serializer. */
  method WriteHeader(ser: BitSerializer, count: nat)
    requires ser.Valid() && ser.bits == [] && count < Bound32
    modifies ser
    ensures ser.Valid() && |ser.bits| == 64 && ser.data == VersionTag + LE32(count)
  {
    var version := VersionWord;
    var tag := LE32(version);
    var countBytes := LE32(count);
    assert |tag| == 4 && |countBytes| == 4 && ser.bitOffset == 0;
    var st := ser.WriteBytes(tag);
    assert st == Done && ser.bitOffset == 32;
    st := ser.WriteBytes(countBytes);
    assert st == Done;
    VersionTagIsWord(version);
  }

  /** Writes every frame of a recording, in order, four bits each. */
  method WriteFrames(ser: BitSerializer, rec: seq<PlayerActions>)
    requires ser.Valid()
    modifies ser
    ensures ser.Valid() && ser.bits == old(ser.bits) + ActionsBits(rec)
  {
    ghost var head := ser.bits;
    for i := 0 to |rec|
      invariant ser.Valid() && ser.bits == head + ActionsBits(rec[..i])
    {
      ser.WriteFrame(rec[i]);
      assert rec[..i + 1][..i] == rec[..i];
    }
    assert rec[..|rec|] == rec;
  }

  /** The bytes a recording is saved as, written through a bit serializer. */
  method SaveRecording(rec: seq<PlayerActions>) returns (bytes: seq<bv8>)
    ensures bytes == Encode(rec)
  {
    var ser := new BitSerializer();
    WriteHeader(ser, Count32(|rec|));
    ghost var head := ser.bits;
    WriteFrames(ser, rec);
    SavedBytes(head, rec);
    bytes := ser.data;
  }

  /** The frames a recording file holds, read through a bit deserializer. */
  method LoadRecording(file: seq<bv8>) returns (r: Result<seq<RawActions>>)
    ensures r == Decode(file)
  {
    var des := new BitDeserializer(file);
    var version := des.ReadBytes(TagSize);
    if version != Success(VersionTag) {
      return Failure(ErrorOr(version, IncorrectVersion));
    }
    var countBytes := des.ReadBytes(CountSize);
    if !(countBytes.Success? && |countBytes.value| == CountSize) {
      return Failure(ErrorOr(countBytes, CountMissing));
    }
    var count := FromLE32(countBytes.value);
    assert Substr(file, TagSize, CountSize) == countBytes.value;
    var recording: seq<RawActions> := [];
    assert Substr(file, 0, TagSize) == VersionTag;
    assert Decode(file) == DecodeActions(file, des.bitOffset, count);
    PrependNothing(DecodeActions(file, des.bitOffset, count));
    for x := 0 to count
      invariant des.Valid() && des.data == file
      invariant Decode(file) == Prepend(recording, DecodeActions(file, des.bitOffset, count - x))
    {
      ghost var off := des.bitOffset;
      var a := des.ReadFrame();
      if a.Failure? {
        return Failure(a.error);
      }
      PrependStep(file, off, count - x, recording, a.value);
      recording := recording + [a.value];
    }
    assert recording + [] == recording;
    r := Success(recording);
  }
}
