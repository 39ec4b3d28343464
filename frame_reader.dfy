/**
 * The per-connection reader, as the chain of completion handlers drives it:
 * a 2-byte read for the length (`setupFirstTwoBytesReading`,
 * `FirstTwoBytesReader`), then one read into a fresh buffer of exactly that
 * length (`RemainingBytesHandler`), then the length read again. Each read
 * completion is an event; a step yields the next state and the effects the
 * handler performs, in the order it performs them. There is exactly one
 * read attempt per phase: bytes are never accumulated across completions.
 */
module FrameReader {
  import opened Java
  import opened FrameCodec

  /** Which read, if any, is outstanding on the connection. */
  datatype ReaderState =
    | AwaitingLength             // a read into a fresh 2-byte buffer is pending
    | AwaitingBody(capacity: nat) // a read into a fresh zero-filled buffer of this size is pending
    | Disconnected               // notifyDisconnect ran; no read is pending
    | Halted(cause: JavaException) // the completion handler threw; no read is pending, the client stays registered

  /** How a pending read completes: `completed(n)` with the bytes transferred, `completed(-1)`, or `failed`. */
  datatype ReadEvent =
    | Completed(bytes: seq<byte>)
    | EndOfStream
    | Failed

  /** What a completion handler does. */
  datatype Effect =
    | ArmLengthRead
    | ArmBodyRead(capacity: nat)
    | Dispatch(body: seq<byte>)
    | NotifyDisconnect
    | Throw(exception: JavaException)

  datatype Transition = Transition(next: ReaderState, effects: seq<Effect>)

  /** The state a freshly accepted connection starts in (`setupFirstTwoBytesReading`). */
  const Initial: ReaderState := AwaitingLength

  predicate ReadPending(s: ReaderState) {
    s.AwaitingLength? || s.AwaitingBody?
  }

  /** The size of the buffer the pending read fills. */
  function Capacity(s: ReaderState): (n: nat)
    requires ReadPending(s)
  {
    if s.AwaitingLength? then HEADER_SIZE else s.capacity
  }

  /**
   * An event the channel can deliver in state `s`: a completion only comes
   * for a pending read, and a read never transfers more than its buffer holds.
   */
  predicate Deliverable(s: ReaderState, ev: ReadEvent) {
    ReadPending(s) && (ev.Completed? ==> |ev.bytes| <= Capacity(s))
  }

  /** The effect that arms the read a pending state waits for. */
  function ArmFor(s: ReaderState): Effect
    requires ReadPending(s)
  {
    if s.AwaitingLength? then ArmLengthRead else ArmBodyRead(s.capacity)
  }

  predicate IsArm(e: Effect) {
    e.ArmLengthRead? || e.ArmBodyRead?
  }

  /**
   * The backing array of a `ByteBuffer.allocate(capacity)` after one read
   * put `bytes` at its start: what `buffer.array()` returns.
   */
  function FilledBuffer(capacity: nat, bytes: seq<byte>): (a: seq<byte>)
    requires |bytes| <= capacity
    ensures |a| == capacity
    ensures a[..|bytes|] == bytes
    ensures forall i :: |bytes| <= i < capacity ==> a[i] == 0
  {
    bytes + seq(capacity - |bytes|, _ => 0 as byte)
  }

  /**
   * `FirstTwoBytesReader.completed` for a result other than -1: `getShort`
   * underflows unless both bytes arrived, and `ByteBuffer.allocate`
   * rejects a negative length; otherwise the body read is submitted.
   */
  function LengthRead(bytes: seq<byte>): Transition
    requires |bytes| <= HEADER_SIZE
  {
    if |bytes| < HEADER_SIZE then
      Transition(Halted(BufferUnderflowException), [Throw(BufferUnderflowException)])
    else
      var len := GetShort(bytes[0], bytes[1]);
      if len < 0 then
        Transition(Halted(IllegalArgumentException), [Throw(IllegalArgumentException)])
      else
        Transition(AwaitingBody(len), [ArmBodyRead(len)])
  }

  /**
   * `RemainingBytesHandler.completed` for a result other than -1: the length
   * read is re-armed first, then the whole buffer array is handed on.
   */
  function BodyRead(capacity: nat, bytes: seq<byte>): Transition
    requires |bytes| <= capacity
  {
    Transition(AwaitingLength, [ArmLengthRead, Dispatch(FilledBuffer(capacity, bytes))])
  }

  /**
   * One read completion. Only end-of-stream and failure disconnect; every
   * step that leaves a read pending arms exactly that read, first.
   */
  function Step(s: ReaderState, ev: ReadEvent): (t: Transition)
    requires Deliverable(s, ev)
    ensures t.next.Disconnected? <==> !ev.Completed?
    ensures NotifyDisconnect in t.effects <==> t.next.Disconnected?
    ensures ReadPending(t.next) ==> |t.effects| > 0 && t.effects[0] == ArmFor(t.next)
    ensures ReadPending(t.next) ==> forall i :: 0 < i < |t.effects| ==> !IsArm(t.effects[i])
    ensures !ReadPending(t.next) ==> forall e :: e in t.effects ==> !IsArm(e)
  {
    match ev
    case EndOfStream => Transition(Disconnected, [NotifyDisconnect])
    case Failed => Transition(Disconnected, [NotifyDisconnect])
    case Completed(bytes) =>
      if s.AwaitingLength? then LengthRead(bytes) else BodyRead(s.capacity, bytes)
  }

  /**
   * The length phase: two bytes whose high bit is clear lead to a body
   * read of exactly the decoded length; a set high bit or a short read
   * halts the reader without re-arming and without disconnecting.
   */
  lemma LengthPhase(bytes: seq<byte>)
    requires |bytes| <= HEADER_SIZE
    ensures var t := Step(AwaitingLength, Completed(bytes));
      && (t.next.AwaitingBody? <==> |bytes| == HEADER_SIZE && bytes[0] < 128)
      && (t.next.AwaitingBody? ==> t.next.capacity == GetShort(bytes[0], bytes[1]) && t.effects == [ArmBodyRead(t.next.capacity)])
      && (|bytes| < HEADER_SIZE ==> t == Transition(Halted(BufferUnderflowException), [Throw(BufferUnderflowException)]))
      && (|bytes| == HEADER_SIZE && bytes[0] >= 128 ==> t == Transition(Halted(IllegalArgumentException), [Throw(IllegalArgumentException)]))
  {
  }

  /**
   * The body phase: any completion other than -1, an empty one included,
   * re-arms the length read and then dispatches the full buffer, whose
   * unfilled tail is zero.
   */
  lemma BodyPhase(capacity: nat, bytes: seq<byte>)
    requires |bytes| <= capacity
    ensures var t := Step(AwaitingBody(capacity), Completed(bytes));
      && t.next == AwaitingLength
      && |t.effects| == 2 && t.effects[0] == ArmLengthRead && t.effects[1].Dispatch?
      && |t.effects[1].body| == capacity
      && t.effects[1].body == bytes + seq(capacity - |bytes|, _ => 0 as byte)
  {
  }

  /** The effects of reading one frame from the length phase, when the header and the body each arrive whole. */
  function ReadWholeFrame(frame: seq<byte>): Transition
    requires |frame| >= HEADER_SIZE
  {
    var first := Step(AwaitingLength, Completed(frame[..HEADER_SIZE]));
    if first.next.AwaitingBody? && first.next.capacity == |frame| - HEADER_SIZE then
      var second := Step(first.next, Completed(frame[HEADER_SIZE..]));
      Transition(second.next, first.effects + second.effects)
    else first
  }

  /**
   * Encode then read: a frame written for `payload` that arrives as one
   * header read and one body read dispatches exactly `payload` and leaves
   * the reader waiting for the next length.
   */
  lemma FrameRoundTrip(payload: seq<byte>)
    requires |payload| <= MAX_PAYLOAD
    ensures EncodeFrame(payload).Success?
    ensures ReadWholeFrame(EncodeFrame(payload).value)
         == Transition(AwaitingLength, [ArmBodyRead(|payload|), ArmLengthRead, Dispatch(payload)])
  {
    var frame := EncodeFrame(payload).value;
    assert frame[..HEADER_SIZE] == Header(|payload|);
    assert frame[HEADER_SIZE..] == payload;
    assert FilledBuffer(|payload|, payload) == payload;
  }

  /**
   * The frame "hello" delivered as its header, then "he", then "llo": the
   * second read dispatches "he" padded with three zero bytes, and the
   * third read's first two bytes, "ll", are taken as the next header
   * (0x6C6C = 27756).
   */
  lemma SplitBodyIsNotReassembled()
    ensures var hello: seq<byte> := [104, 101, 108, 108, 111];
      var t1 := Step(AwaitingLength, Completed([0, 5]));
      var t2 := Step(t1.next, Completed(hello[..2]));
      var t3 := Step(t2.next, Completed(hello[2..4]));
      && t1.next == AwaitingBody(5)
      && t2.effects == [ArmLengthRead, Dispatch([104, 101, 0, 0, 0])]
      && t3 == Transition(AwaitingBody(27756), [ArmBodyRead(27756)])
  {
    var hello: seq<byte> := [104, 101, 108, 108, 111];
    assert FilledBuffer(5, hello[..2]) == [104, 101, 0, 0, 0];
  }
}
