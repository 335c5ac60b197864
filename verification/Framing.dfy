/** QHA1 frames: written to a stream, and read back through a reader that may return short reads. */
module Framing {
  import opened Machine
  import opened Wrappers

  const MAX_FRAME_LEN := 256 * 1024 * 1024
  const HEADER_LEN := 13

  datatype Kind = Control | Batch

  datatype Frame = Frame(kind: Kind, id: u64, payload: seq<u8>)

  datatype ProtoError = Io | Truncated | TooLarge(len: nat) | UnknownKind(byte: u8)

  function KindByte(kind: Kind): u8 {
    match kind
    case Control => 1
    case Batch => 2
  }

  function KindFromByte(byte: u8): (r: Result<Kind, ProtoError>)
    ensures forall kind :: r == Ok(kind) <==> byte == KindByte(kind)
    ensures r.Err? ==> r.error == UnknownKind(byte)
  {
    match byte
    case 1 => Ok(Control)
    case 2 => Ok(Batch)
    case _ => Err(UnknownKind(byte))
  }

  // ---------------------------------------------------------------- the format

  function Header(length: nat, kind: Kind, id: u64): (b: seq<u8>)
    ensures |b| == HEADER_LEN
  {
    LittleEndian(length, 4) + [KindByte(kind)] + LittleEndian(id, 8)
  }

  function FrameBytes(frame: Frame): seq<u8> {
    Header(|frame.payload|, frame.kind, frame.id) + frame.payload
  }

  predicate Sendable(frame: Frame) {
    |frame.payload| <= MAX_FRAME_LEN
  }

  /** Frames end to end. */
  function Wire(frames: seq<Frame>): seq<u8> {
    if frames == [] then [] else FrameBytes(frames[0]) + Wire(frames[1..])
  }

  // ---------------------------------------------------------------- what the rest of a stream says

  datatype Outcome = End | Got(frame: Frame, rest: seq<u8>) | Failed(error: ProtoError)

  /** What the next read of a stream must report, from all the bytes still to come. */
  function Next(data: seq<u8>): Outcome {
    if data == [] then End
    else if |data| < HEADER_LEN then Failed(Truncated)
    else
      var length := FromLittleEndian(data[..4]);
      if length > MAX_FRAME_LEN then Failed(TooLarge(length))
      else
        match KindFromByte(data[4])
        case Err(error) => Failed(error)
        case Ok(kind) =>
          if |data| < HEADER_LEN + length then Failed(Truncated)
          else
            IdFits(data);
            Got(Frame(kind, FromLittleEndian(data[5..13]), data[13..13 + length]), data[13 + length..])
  }

  lemma IdFits(data: seq<u8>)
    requires |data| >= 13
    ensures FromLittleEndian(data[5..13]) < 0x1_0000_0000_0000_0000
  {
    Pow256Values();
    FromLittleEndianRoundTrip(data[5..13]);
  }

  // ---------------------------------------------------------------- streams

  /** Where frames are written. If it is faulty, a write may stop anywhere and break. */
  class Sink {
    var data: seq<u8>
    const faulty: bool

    constructor (faulty: bool)
      ensures data == [] && this.faulty == faulty
    {
      data := [];
      this.faulty := faulty;
    }

    method WriteAll(bytes: seq<u8>) returns (r: Result<(), ProtoError>)
      modifies this
      ensures r.Ok? ==> data == old(data) + bytes
      ensures r.Err? ==> r.error == Io && faulty && old(data) <= data <= old(data) + bytes
    {
      if faulty {
        var stop: nat :| stop <= |bytes|;
        if stop < |bytes| {
          data := data + bytes[..stop];
          return Err(Io);
        }
      }
      data := data + bytes;
      r := Ok(());
    }
  }

  /** The header array, filled field by field. */
  method FillHeader(length: u32, kind: Kind, id: u64) returns (bytes: seq<u8>)
    ensures bytes == Header(length, kind, id)
  {
    var header := new u8[HEADER_LEN](_ => 0);
    var lengthBytes := LittleEndian(length, 4);
    var idBytes := LittleEndian(id, 8);
    for i := 0 to 4
      invariant forall j :: 0 <= j < i ==> header[j] == lengthBytes[j]
    {
      header[i] := lengthBytes[i];
    }
    header[4] := KindByte(kind);
    for i := 0 to 8
      invariant forall j :: 0 <= j < 4 ==> header[j] == lengthBytes[j]
      invariant header[4] == KindByte(kind)
      invariant forall j :: 0 <= j < i ==> header[5 + j] == idBytes[j]
    {
      header[5 + i] := idBytes[i];
    }
    bytes := header[..];
    assert bytes == Header(length, kind, id);
  }

  /**
   Appends one frame, or refuses a payload above the limit and writes nothing. When the sink
   breaks, what was written is a start of the frame, so a reader sees the frame cut.
   */
  method WriteFrame(writer: Sink, kind: Kind, id: u64, payload: seq<u8>) returns (r: Result<(), ProtoError>)
    modifies writer
    ensures |payload| > 268_435_456 ==> r == Err(TooLarge(|payload|)) && writer.data == old(writer.data)
    ensures |payload| <= 268_435_456 ==>
              if r.Ok? then writer.data == old(writer.data) + FrameBytes(Frame(kind, id, payload))
              else r == Err(Io) && writer.faulty
                   && old(writer.data) <= writer.data <= old(writer.data) + FrameBytes(Frame(kind, id, payload))
  {
    if |payload| > MAX_FRAME_LEN {
      return Err(TooLarge(|payload|));
    }
    var header := FillHeader(|payload| % U32_MODULUS, kind, id);
    ghost var before := writer.data;
    FrameParts(kind, id, payload, header);
    hide *;
    r := writer.WriteAll(header);
    if r.Err? {
      WrittenParts(before, header, payload, writer.data);
      return;
    }
    r := writer.WriteAll(payload);
    PartsJoin(before, header, payload);
  }

  lemma FrameParts(kind: Kind, id: u64, payload: seq<u8>, header: seq<u8>)
    requires header == Header(|payload|, kind, id)
    ensures FrameBytes(Frame(kind, id, payload)) == header + payload
  {
  }

  lemma PartsJoin(before: seq<u8>, header: seq<u8>, payload: seq<u8>)
    ensures before + header + payload == before + (header + payload)
    ensures before <= before + header <= before + (header + payload)
  {
  }

  lemma WrittenParts(before: seq<u8>, header: seq<u8>, payload: seq<u8>, data: seq<u8>)
    requires before <= data <= before + header
    ensures data <= before + (header + payload)
  {
    assert before + (header + payload) == before + header + payload;
  }

  datatype ReadResult = Count(bytes: seq<u8>) | Interrupted | Broken

  /**
   A byte source. A read may return any positive number of the bytes asked for, may be interrupted
   while interruptions last, and, if the source is faulty, may break.
   */
  class Source {
    var data: seq<u8>
    var interruptions: nat
    const faulty: bool

    constructor (data: seq<u8>, interruptions: nat, faulty: bool)
      ensures this.data == data && this.interruptions == interruptions && this.faulty == faulty
    {
      this.data := data;
      this.interruptions := interruptions;
      this.faulty := faulty;
    }

    /** No promise is made about how many bytes come, only that none come at the end of the data. */
    method Read(room: nat) returns (r: ReadResult)
      requires room > 0
      modifies this
      ensures r.Interrupted? ==> old(interruptions) > 0 && interruptions == old(interruptions) - 1 && data == old(data)
      ensures r.Broken? ==> faulty
      ensures r.Count? ==>
                && |r.bytes| <= room && old(data) == r.bytes + data && interruptions == old(interruptions)
                && (r.bytes == [] <==> old(data) == [])
    {
      if interruptions > 0 {
        var interrupted := *;
        if interrupted {
          interruptions := interruptions - 1;
          return Interrupted;
        }
      }
      if faulty {
        var broken := *;
        if broken {
          return Broken;
        }
      }
      if data == [] {
        return Count([]);
      }
      var n: nat :| 1 <= n <= |data| && n <= room;
      r := Count(data[..n]);
      data := data[n..];
    }

    /** `take(limit).read_to_end`: reads on through short reads and interruptions. */
    method ReadToEnd(limit: nat) returns (r: Result<seq<u8>, ProtoError>)
      modifies this
      ensures r.Err? ==> faulty && r.error == Io
      ensures r.Ok? ==> old(data) == r.value + data && |r.value| == if limit < |old(data)| then limit else |old(data)|
    {
      var got: seq<u8> := [];
      while |got| < limit
        invariant old(data) == got + data && |got| <= limit
        decreases limit - |got|, interruptions
      {
        var read := Read(limit - |got|);
        match read {
          case Interrupted =>
          case Broken => return Err(Io);
          case Count(bytes) =>
            if bytes == [] {
              return Ok(got);
            }
            got := got + bytes;
        }
      }
      r := Ok(got);
    }
  }

  datatype ReadFrameResult = Frames(frame: Option<Frame>) | Error(error: ProtoError)

  /** Fills the header through short reads; the end before its first byte is a clean end. */
  method ReadHeader(reader: Source) returns (r: Result<Option<seq<u8>>, ProtoError>)
    modifies reader
    ensures r == Err(Io) ==> reader.faulty
    ensures r.Err? ==> r.error == Io || (r.error == Truncated && 0 < |old(reader.data)| < HEADER_LEN)
    ensures r == Ok(None) ==> old(reader.data) == [] && reader.data == []
    ensures r.Ok? && r.value.Some? ==>
              |r.value.value| == HEADER_LEN && old(reader.data) == r.value.value + reader.data
  {
    var header: seq<u8> := [];
    while |header| < HEADER_LEN
      invariant |header| <= HEADER_LEN && old(reader.data) == header + reader.data
      decreases HEADER_LEN - |header|, reader.interruptions
    {
      var read := reader.Read(HEADER_LEN - |header|);
      match read {
        case Interrupted =>
        case Broken => return Err(Io);
        case Count(bytes) =>
          if bytes == [] {
            if |header| == 0 {
              return Ok(None);
            }
            return Err(Truncated);
          }
          header := header + bytes;
      }
    }
    r := Ok(Some(header));
  }

  /**
   However the source splits its reads or is interrupted, the result is what the bytes still to
   come say; after a frame exactly its bytes are gone.
   */
  method ReadFrame(reader: Source) returns (r: ReadFrameResult)
    modifies reader
    ensures r == Error(Io) ==> reader.faulty
    ensures r != Error(Io) ==>
              match Next(old(reader.data))
              case End => r == Frames(None) && reader.data == []
              case Got(frame, rest) => r == Frames(Some(frame)) && reader.data == rest
              case Failed(error) => r == Error(error)
  {
    ghost var data := reader.data;
    var filled := ReadHeader(reader);
    if filled.Err? {
      return Error(filled.error);
    }
    if filled.value.None? {
      return Frames(None);
    }
    var header := filled.value.value;
    ghost var after := reader.data;
    assert data[..4] == header[..4] && data[4] == header[4] && data[5..13] == header[5..];
    var length := FromLittleEndian(header[..4]);
    if length > MAX_FRAME_LEN {
      return Error(TooLarge(length));
    }
    var kind := KindFromByte(header[4]);
    if kind.Err? {
      return Error(kind.error);
    }
    IdFits(data);
    var id := FromLittleEndian(header[5..]);
    var payload := reader.ReadToEnd(length);
    if payload.Err? {
      return Error(payload.error);
    }
    if |payload.value| != length {
      return Error(Truncated);
    }
    FrameEnds(data, header, payload.value, reader.data);
    r := Frames(Some(Frame(kind.value, id, payload.value)));
  }

  lemma FrameEnds(data: seq<u8>, header: seq<u8>, payload: seq<u8>, rest: seq<u8>)
    requires |header| == HEADER_LEN && data == header + (payload + rest)
    ensures data[13..13 + |payload|] == payload && data[13 + |payload|..] == rest
  {
  }

  // ---------------------------------------------------------------- sessions

  datatype Ending = CleanEnd | Broke(error: ProtoError)

  /** Reading a stream to its end: the frames, and how it ended. */
  function Session(data: seq<u8>): (seq<Frame>, Ending)
    decreases |data|
  {
    match Next(data)
    case End => ([], CleanEnd)
    case Failed(error) => ([], Broke(error))
    case Got(frame, rest) =>
      var (frames, ending) := Session(rest);
      ([frame] + frames, ending)
  }

  /**
   Reading until nothing is left: the frames and the ending that the bytes determine, whatever the
   source does on the way; a source that breaks cuts them short and changes none.
   */
  method ReadLoop(reader: Source) returns (frames: seq<Frame>, ending: Ending)
    modifies reader
    ensures ending == Broke(Io) ==> reader.faulty && frames <= Session(old(reader.data)).0
    ensures ending != Broke(Io) ==> (frames, ending) == Session(old(reader.data))
  {
    hide Next;
    frames := [];
    assert frames + Session(reader.data).0 == Session(reader.data).0;
    while true
      invariant Session(old(reader.data)) == (frames + Session(reader.data).0, Session(reader.data).1)
      decreases |reader.data|
    {
      ghost var before := reader.data;
      var read := ReadFrame(reader);
      assert frames + [] == frames;
      match read {
        case Error(error) => return frames, Broke(error);
        case Frames(None) => return frames, CleanEnd;
        case Frames(Some(frame)) =>
          FrameShortens(before);
          assert (frames + [frame]) + Session(reader.data).0 == frames + ([frame] + Session(reader.data).0);
          frames := frames + [frame];
      }
    }
  }

  lemma FrameShortens(data: seq<u8>)
    requires Next(data).Got?
    ensures |Next(data).rest| < |data|
  {
  }

  /** The header of a frame, read at the front of whatever follows it. */
  lemma HeaderReads(frame: Frame, tail: seq<u8>)
    requires Sendable(frame)
    ensures var data := Header(|frame.payload|, frame.kind, frame.id) + tail;
            && |data| >= 13 && FromLittleEndian(data[..4]) == |frame.payload|
            && KindFromByte(data[4]) == Ok(frame.kind) && FromLittleEndian(data[5..13]) == frame.id
            && data[13..] == tail
  {
    Pow256Values();
    LittleEndianRoundTrip(|frame.payload|, 4);
    LittleEndianRoundTrip(frame.id, 8);
    var data := Header(|frame.payload|, frame.kind, frame.id) + tail;
    assert data[..4] == LittleEndian(|frame.payload|, 4) && data[5..13] == LittleEndian(frame.id, 8);
    assert data[4] == KindByte(frame.kind);
  }

  /** A whole frame at the front is read, and its last byte is needed for it. */
  lemma FrameReads(frame: Frame, data: seq<u8>)
    requires Sendable(frame)
    requires data <= FrameBytes(frame) || FrameBytes(frame) <= data
    ensures Next(data) ==
            if data == [] then End
            else if |data| < |FrameBytes(frame)| then Failed(Truncated)
            else Got(frame, data[|FrameBytes(frame)|..])
  {
    var header := Header(|frame.payload|, frame.kind, frame.id);
    if |data| >= HEADER_LEN {
      var tail := data[HEADER_LEN..];
      assert data[..HEADER_LEN] == header by {
        assert FrameBytes(frame)[..HEADER_LEN] == header;
      }
      assert data == header + tail;
      HeaderReads(frame, tail);
      if |data| >= |FrameBytes(frame)| {
        assert data[..|FrameBytes(frame)|] == FrameBytes(frame);
        assert data[13..13 + |frame.payload|] == FrameBytes(frame)[13..] == frame.payload;
      }
    }
  }

  /** The frames that lie whole within the first `count` bytes of their wire. */
  function WholeFrames(frames: seq<Frame>, count: nat): (n: nat)
    ensures n <= |frames|
  {
    if frames == [] || count < |FrameBytes(frames[0])| then 0
    else 1 + WholeFrames(frames[1..], count - |FrameBytes(frames[0])|)
  }

  /** How reading the first `count` bytes of a wire ends, when `n` whole frames lie in them. */
  predicate EndsAfter(frames: seq<Frame>, count: nat, n: nat)
    requires count <= |Wire(frames)| && n <= |frames|
  {
    && |Wire(frames[..n])| <= count
    && Session(Wire(frames)[..count])
       == (frames[..n], if |Wire(frames[..n])| == count then CleanEnd else Broke(Truncated))
  }

  /** A stream cut after `count` bytes: the whole frames in order, then a clean end at a boundary, `Truncated` elsewhere. */
  lemma {:induction false} CutStream(frames: seq<Frame>, count: nat)
    requires (forall i :: 0 <= i < |frames| ==> Sendable(frames[i])) && count <= |Wire(frames)|
    ensures EndsAfter(frames, count, WholeFrames(frames, count))
  {
    hide EndsAfter, FrameBytes;
    if frames == [] {
      NothingLeft();
    } else {
      var frame, more := frames[0], frames[1..];
      assert frames == [frame] + more;
      if count < |FrameBytes(frame)| {
        PartOfFrame(frame, more, count);
      } else {
        CutStream(more, count - |FrameBytes(frame)|);
        FrameThenMore(frame, more, count - |FrameBytes(frame)|, WholeFrames(more, count - |FrameBytes(frame)|));
      }
    }
  }

  lemma NothingLeft()
    ensures EndsAfter([], 0, 0)
  {
    var none: seq<Frame> := [];
    assert none[..0] == [];
  }

  lemma PartOfFrame(frame: Frame, more: seq<Frame>, count: nat)
    requires Sendable(frame) && count < |FrameBytes(frame)|
    ensures count <= |Wire([frame] + more)| && EndsAfter([frame] + more, count, 0)
  {
    hide FrameBytes, Next;
    var frames := [frame] + more;
    WireStep(frame, more);
    var data := FrameBytes(frame)[..count];
    assert Wire(frames)[..count] == data && frames[..0] == [];
    FrameReads(frame, data);
  }

  lemma FrameThenMore(frame: Frame, more: seq<Frame>, left: nat, n: nat)
    requires Sendable(frame) && left <= |Wire(more)| && n <= |more| && EndsAfter(more, left, n)
    ensures |FrameBytes(frame)| + left <= |Wire([frame] + more)|
    ensures EndsAfter([frame] + more, |FrameBytes(frame)| + left, n + 1)
  {
    hide FrameBytes, Session, Wire;
    var first, frames := FrameBytes(frame), [frame] + more;
    WireStep(frame, more);
    WireStep(frame, more[..n]);
    assert frames[..n + 1] == [frame] + more[..n];
    assert (first + Wire(more))[..|first| + left] == first + Wire(more)[..left];
    SessionStep(frame, Wire(more)[..left]);
  }

  lemma SessionStep(frame: Frame, rest: seq<u8>)
    requires Sendable(frame)
    ensures Session(FrameBytes(frame) + rest) == ([frame] + Session(rest).0, Session(rest).1)
  {
    FrameReads(frame, FrameBytes(frame) + rest);
    assert (FrameBytes(frame) + rest)[|FrameBytes(frame)|..] == rest;
  }

  lemma WireStep(frame: Frame, frames: seq<Frame>)
    ensures Wire([frame] + frames) == FrameBytes(frame) + Wire(frames)
  {
    assert ([frame] + frames)[1..] == frames;
  }

  /** Every frame written is read back, in order, and then the stream ends cleanly. */
  lemma {:induction false} WholeStream(frames: seq<Frame>)
    requires forall i :: 0 <= i < |frames| ==> Sendable(frames[i])
    ensures Session(Wire(frames)) == (frames, CleanEnd)
  {
    AllWhole(frames);
    CutStream(frames, |Wire(frames)|);
    assert EndsAfter(frames, |Wire(frames)|, |frames|);
    assert Wire(frames)[..|Wire(frames)|] == Wire(frames) && frames[..|frames|] == frames;
  }

  lemma {:induction false} AllWhole(frames: seq<Frame>)
    ensures WholeFrames(frames, |Wire(frames)|) == |frames|
  {
    if frames != [] {
      AllWhole(frames[1..]);
    }
  }
}
