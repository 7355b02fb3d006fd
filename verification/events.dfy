/** Perp events and the perp event queue.

Every event is 152 bytes. Its first byte names the kind: 0 a fill, 1 an order
leaving the book, anything else an event this codec does not know but still reads
(type byte and owner). The three layouts are tried in that order and the first
that accepts the bytes wins. A fill also converts its timestamp to a date, so a
type-0 event whose timestamp is past the last representable date is not accepted as
a fill and is read by the catch-all layout instead.

The queue is a 32-byte header (metadata, head, count, sequence number) followed by
events read one after another until as many have been read as the header's
sequence number says.
 */
module Events {
  import opened Wrappers
  import opened LittleEndian
  import opened Adapters
  import Header

  const EVENT_SIZE: nat := 152

  const FILL_EVENT_TYPE: byte := 0
  const OUT_EVENT_TYPE: byte := 1

  /** Where a fill keeps its timestamp, from the start of the event. */
  const FILL_TIMESTAMP_OFFSET: nat := 72

  datatype Event =
    | Fill(side: nat, makerSlot: nat, makerOut: bool, maker: Key, makerOrderId: int, makerClientOrderId: nat,
           bestInitial: int, timestamp: nat, taker: Key, takerOrderId: int, takerClientOrderId: nat,
           price: int, quantity: int)
    | Out(side: nat, slot: nat, owner: Key, quantity: int)
    | Unknown(eventType: byte, owner: Key)

  /** The fill event at p: type, side, maker slot, maker-out flag, 4 bytes of padding,
      then the maker's and the taker's halves of the trade. */
  function FillAt(s: seq<byte>, p: nat): Event
    requires p + EVENT_SIZE <= |s|
  {
    Fill(UIntAt(s, p + 1, 1), UIntAt(s, p + 2, 1), s[p + 3] != 0, KeyAt(s, p + 8), SIntAt(s, p + 40, 16),
         UIntAt(s, p + 56, 8), SIntAt(s, p + 64, 8), UIntAt(s, p + 72, 8), KeyAt(s, p + 80),
         SIntAt(s, p + 112, 16), UIntAt(s, p + 128, 8), SIntAt(s, p + 136, 8), SIntAt(s, p + 144, 8))
  }

  /** The out event at p: type, side, slot, 5 bytes of padding, owner, quantity, padding. */
  function OutAt(s: seq<byte>, p: nat): Event
    requires p + EVENT_SIZE <= |s|
  {
    Out(UIntAt(s, p + 1, 1), UIntAt(s, p + 2, 1), KeyAt(s, p + 8), SIntAt(s, p + 40, 8))
  }

  /** The catch-all layout at p: the type byte, 7 bytes of padding, owner, padding. */
  function UnknownAt(s: seq<byte>, p: nat): Event
    requires p + EVENT_SIZE <= |s|
  {
    Unknown(s[p], KeyAt(s, p + 8))
  }

  /** The fill layout accepts the whole event at p: the type byte is 0 and the
      timestamp is a representable date. */
  predicate FillReadable(s: seq<byte>, p: nat)
    requires p + EVENT_SIZE <= |s|
  {
    s[p] == FILL_EVENT_TYPE && UIntAt(s, p + FILL_TIMESTAMP_OFFSET, 8) <= MAX_TIMESTAMP
  }

  /** A fill event: the type byte must be 0, the whole event present and the
      timestamp a representable date. */
  function DecodeFillEvent(s: seq<byte>, pos: nat): (r: Parsed<Event>)
    ensures r.Success? <==> pos + EVENT_SIZE <= |s| && FillReadable(s, pos)
    ensures r.Success? ==> r.value == Decoded(FillAt(s, pos), pos + EVENT_SIZE)
  {
    var _ :- ReadConstByte(s, pos, FILL_EVENT_TYPE);
    if pos + EVENT_SIZE <= |s| then
      var _ :- ReadTimestamp(s, pos + FILL_TIMESTAMP_OFFSET);
      Success(Decoded(FillAt(s, pos), pos + EVENT_SIZE))
    else Failure(TruncatedInput(pos, EVENT_SIZE))
  }

  /** Of a whole type-0 event, the fill layout accepts exactly those whose timestamp
      the timestamp adapter accepts. */
  lemma FillReadableIffTimestamp(s: seq<byte>, pos: nat)
    requires pos + EVENT_SIZE <= |s| && s[pos] == FILL_EVENT_TYPE
    ensures FillReadable(s, pos) <==> ReadTimestamp(s, pos + FILL_TIMESTAMP_OFFSET).Success?
  {
  }

  /** An out event: the type byte must be 1 and the whole event present. */
  function DecodeOutEvent(s: seq<byte>, pos: nat): (r: Parsed<Event>)
    ensures r.Success? <==> pos + EVENT_SIZE <= |s| && s[pos] == OUT_EVENT_TYPE
    ensures r.Success? ==> r.value == Decoded(OutAt(s, pos), pos + EVENT_SIZE)
  {
    var _ :- ReadConstByte(s, pos, OUT_EVENT_TYPE);
    if pos + EVENT_SIZE <= |s| then Success(Decoded(OutAt(s, pos), pos + EVENT_SIZE))
    else Failure(TruncatedInput(pos, EVENT_SIZE))
  }

  /** The catch-all event: any type byte, only the whole event must be present. */
  function DecodeUnknownEvent(s: seq<byte>, pos: nat): (r: Parsed<Event>)
    ensures r.Success? <==> pos + EVENT_SIZE <= |s|
    ensures r.Success? ==> r.value == Decoded(UnknownAt(s, pos), pos + EVENT_SIZE)
    ensures r.Failure? ==> r.error == TruncatedInput(pos, EVENT_SIZE)
  {
    if pos + EVENT_SIZE <= |s| then Success(Decoded(UnknownAt(s, pos), pos + EVENT_SIZE))
    else Failure(TruncatedInput(pos, EVENT_SIZE))
  }

  /** The event at p, as the first accepting layout reads it. */
  function EventAt(s: seq<byte>, p: nat): Event
    requires p + EVENT_SIZE <= |s|
  {
    if FillReadable(s, p) then FillAt(s, p)
    else if s[p] == OUT_EVENT_TYPE then OutAt(s, p)
    else UnknownAt(s, p)
  }

  /** One event: fill, then out, then the catch-all are tried in order. When none
      accepts (the input ends inside the event) the event is malformed. */
  function DecodeEvent(s: seq<byte>, pos: nat): (r: Parsed<Event>)
    ensures r.Success? <==> pos + EVENT_SIZE <= |s|
    ensures r.Success? ==> r.value == Decoded(EventAt(s, pos), pos + EVENT_SIZE)
    ensures r.Failure? ==> r.error == MalformedEvent(pos)
  {
    var fill := DecodeFillEvent(s, pos);
    if fill.Success? then fill
    else
      var out := DecodeOutEvent(s, pos);
      if out.Success? then out
      else
        var unknown := DecodeUnknownEvent(s, pos);
        if unknown.Success? then unknown
        else Failure(MalformedEvent(pos))
  }

  /** The type byte decides the kind: 0 is a fill when its timestamp is a date, 1 is
      always an out event, and every other value, or a 0 whose timestamp is not a
      date, is an unknown event that keeps the byte. */
  lemma EventDispatch(s: seq<byte>, pos: nat)
    requires pos + EVENT_SIZE <= |s|
    ensures var e := DecodeEvent(s, pos).value.value;
      var dated := ReadTimestamp(s, pos + FILL_TIMESTAMP_OFFSET).Success?;
      (e.Fill? <==> s[pos] == 0 && dated)
      && (e.Out? <==> s[pos] == 1)
      && (e.Unknown? <==> s[pos] > 1 || (s[pos] == 0 && !dated))
      && (e.Unknown? ==> e.eventType == s[pos])
  {
  }

  /** The fields of a fill event, each what its own adapter reads at its offset. */
  lemma FillLayout(s: seq<byte>, pos: nat)
    requires pos + EVENT_SIZE <= |s| && s[pos] == FILL_EVENT_TYPE
    requires ReadTimestamp(s, pos + FILL_TIMESTAMP_OFFSET).Success?
    ensures var e := DecodeEvent(s, pos).value.value;
      e.Fill?
      && ReadUInt(s, pos + 1, 1) == Success(Decoded(e.side, pos + 2))
      && ReadUInt(s, pos + 2, 1) == Success(Decoded(e.makerSlot, pos + 3))
      && ReadFlag(s, pos + 3) == Success(Decoded(e.makerOut, pos + 4))
      && Skip(s, pos + 4, 4).Success?
      && ReadKey(s, pos + 8) == Success(Decoded(e.maker, pos + 40))
      && ReadSInt(s, pos + 40, 16) == Success(Decoded(e.makerOrderId, pos + 56))
      && ReadUInt(s, pos + 56, 8) == Success(Decoded(e.makerClientOrderId, pos + 64))
      && ReadSInt(s, pos + 64, 8) == Success(Decoded(e.bestInitial, pos + 72))
      && ReadTimestamp(s, pos + 72) == Success(Decoded(e.timestamp, pos + 80))
  {
  }

  /** The taker's half of a fill event, which ends exactly at the event's end. */
  lemma FillTakerLayout(s: seq<byte>, pos: nat)
    requires pos + EVENT_SIZE <= |s| && s[pos] == FILL_EVENT_TYPE
    requires ReadTimestamp(s, pos + FILL_TIMESTAMP_OFFSET).Success?
    ensures var e := DecodeEvent(s, pos).value.value;
      e.Fill?
      && ReadKey(s, pos + 80) == Success(Decoded(e.taker, pos + 112))
      && ReadSInt(s, pos + 112, 16) == Success(Decoded(e.takerOrderId, pos + 128))
      && ReadUInt(s, pos + 128, 8) == Success(Decoded(e.takerClientOrderId, pos + 136))
      && ReadSInt(s, pos + 136, 8) == Success(Decoded(e.price, pos + 144))
      && ReadSInt(s, pos + 144, 8) == Success(Decoded(e.quantity, pos + EVENT_SIZE))
  {
  }

  /** The fields of an out event; the padding after the quantity runs to the event's end. */
  lemma OutLayout(s: seq<byte>, pos: nat)
    requires pos + EVENT_SIZE <= |s| && s[pos] == OUT_EVENT_TYPE
    ensures var e := DecodeEvent(s, pos).value.value;
      e.Out?
      && ReadUInt(s, pos + 1, 1) == Success(Decoded(e.side, pos + 2))
      && ReadUInt(s, pos + 2, 1) == Success(Decoded(e.slot, pos + 3))
      && Skip(s, pos + 3, 5).Success?
      && ReadKey(s, pos + 8) == Success(Decoded(e.owner, pos + 40))
      && ReadSInt(s, pos + 40, 8) == Success(Decoded(e.quantity, pos + 48))
      && Skip(s, pos + 48, EVENT_SIZE - 48).Success?
  {
  }

  /** The owner of an unknown event sits where the owner of an out event does. */
  lemma UnknownOwnerAlignsWithOut(s: seq<byte>, pos: nat)
    requires DecodeEvent(s, pos).Success? && DecodeEvent(s, pos).value.value.Unknown?
    ensures DecodeEvent(s, pos).value.value.owner == OutAt(s, pos).owner
    ensures ReadKey(s, pos + 8) == Success(Decoded(DecodeEvent(s, pos).value.value.owner, pos + 40))
  {
  }

  /** All three layouts are one event wide. */
  lemma EventSizes()
    ensures 1 + 1 + 1 + 1 + 4 + KEY_SIZE + 16 + 8 + 8 + 8 + KEY_SIZE + 16 + 8 + 8 + 8 == EVENT_SIZE
    ensures 1 + 1 + 1 + 5 + KEY_SIZE + 8 + (EVENT_SIZE - 48) == EVENT_SIZE
    ensures 1 + 7 + KEY_SIZE + (EVENT_SIZE - 40) == EVENT_SIZE
  {
  }

  // ---------------------------------------------------------------- the queue

  datatype EventQueue = EventQueue(metaData: Header.MetaData, head: nat, count: nat, seqNum: nat, events: seq<Event>)

  const EVENT_QUEUE_HEADER_SIZE: nat := 32

  /** The sequence number in the queue header at p. */
  function SeqNumAt(s: seq<byte>, p: nat): nat
    requires p + EVENT_QUEUE_HEADER_SIZE <= |s|
  {
    UIntAt(s, p + 24, 8)
  }

  /** Where event k of the queue at p starts. */
  function EventOffset(p: nat, k: nat): nat
  {
    p + EVENT_QUEUE_HEADER_SIZE + EVENT_SIZE * k
  }

  /** `read` takes one event slot: on `s` it succeeds exactly when a whole slot is left,
      and then moves past it. */
  ghost predicate ReadsOneSlot(read: Reader<Event>, s: seq<byte>)
  {
    forall q: nat :: (read(s, q).Success? <==> q + EVENT_SIZE <= |s|)
      && (read(s, q).Success? ==> read(s, q).value.next == q + EVENT_SIZE)
  }

  lemma DecodeEventReadsOneSlot(s: seq<byte>)
    ensures ReadsOneSlot(DecodeEvent, s)
  {
  }

  /** Exactly n events read back to back from p: the reference reading of a queue body. */
  function ReadEvents(s: seq<byte>, p: nat, n: nat, read: Reader<Event>): (r: Parsed<seq<Event>>)
    requires p <= |s| && ReadsOneSlot(read, s)
    ensures r.Success? <==> p + EVENT_SIZE * n <= |s|
    ensures r.Success? ==> r.value.next == p + EVENT_SIZE * n && |r.value.value| == n
    ensures r.Success? ==> forall k | 0 <= k < n ::
      read(s, p + EVENT_SIZE * k) == Success(Decoded(r.value.value[k], p + EVENT_SIZE * k + EVENT_SIZE))
    decreases n
  {
    if n == 0 then Success(Decoded([], p))
    else
      var first :- read(s, p);
      var rest :- ReadEvents(s, first.next, n - 1, read);
      Success(Decoded([first.value] + rest.value, rest.next))
  }

  /** When the events run out, the error is that of event k, the first one the input
      cuts short. */
  lemma {:induction false} ReadEventsFailsAtFirstCut(s: seq<byte>, p: nat, n: nat, read: Reader<Event>)
    returns (k: nat)
    requires p <= |s| && ReadsOneSlot(read, s) && ReadEvents(s, p, n, read).Failure?
    ensures k < n && p + EVENT_SIZE * k <= |s| < p + EVENT_SIZE * k + EVENT_SIZE
    ensures Failure(ReadEvents(s, p, n, read).error) == read(s, p + EVENT_SIZE * k)
    decreases n
  {
    if p + EVENT_SIZE > |s| {
      k := 0;
    } else {
      var q := p + EVENT_SIZE;
      var j := ReadEventsFailsAtFirstCut(s, q, n - 1, read);
      k := j + 1;
      assert q + EVENT_SIZE * j == p + EVENT_SIZE * k;
    }
  }

  /** The queue body as the source reads it: after each event, stop once the number
      read equals the sequence number. The test comes after the first event, so a
      sequence number of 0 never stops the loop. */
  function RepeatUntilSeqNum(s: seq<byte>, p: nat, seqNum: nat, acc: seq<Event>, read: Reader<Event>)
    : (r: Parsed<seq<Event>>)
    requires ReadsOneSlot(read, s)
    ensures r.Success? ==> |acc| < seqNum && |r.value.value| == seqNum
    ensures r.Success? ==> r.value.value[..|acc|] == acc
    decreases |s| - p
  {
    match read(s, p)
    case Failure(e) => Failure(e)
    case Success(d) =>
      var events := acc + [d.value];
      if |events| == seqNum then Success(Decoded(events, d.next))
      else RepeatUntilSeqNum(s, d.next, seqNum, events, read)
  }

  /** Once as many events have been read as the sequence number allows (or more), the
      source's loop can only stop at the end of the input, and fails there. */
  lemma {:induction false} RepeatPastSeqNumFails(s: seq<byte>, p: nat, seqNum: nat, acc: seq<Event>, read: Reader<Event>)
    requires ReadsOneSlot(read, s) && |acc| >= seqNum
    ensures RepeatUntilSeqNum(s, p, seqNum, acc, read).Failure?
    decreases |s| - p
  {
    match read(s, p)
    case Failure(_) =>
    case Success(d) =>
      RepeatPastSeqNumFails(s, d.next, seqNum, acc + [d.value], read);
  }

  /** While fewer events than the sequence number have been read, the source's loop
      reads exactly the remaining ones. */
  lemma {:induction false} RepeatReadsRemaining(s: seq<byte>, p: nat, seqNum: nat, acc: seq<Event>, read: Reader<Event>)
    requires p <= |s| && ReadsOneSlot(read, s) && |acc| < seqNum
    ensures RepeatUntilSeqNum(s, p, seqNum, acc, read) ==
      match ReadEvents(s, p, seqNum - |acc|, read)
      case Success(d) => Success(Decoded(acc + d.value, d.next))
      case Failure(e) => Failure(e)
    decreases seqNum - |acc|
  {
    match read(s, p)
    case Failure(_) =>
    case Success(d) =>
      var events := acc + [d.value];
      if |events| < seqNum {
        RepeatReadsRemaining(s, d.next, seqNum, events, read);
        match ReadEvents(s, d.next, seqNum - |events|, read)
        case Failure(_) =>
        case Success(rest) =>
          assert acc + ([d.value] + rest.value) == events + rest.value;
      } else {
        assert ReadEvents(s, d.next, 0, read) == Success(Decoded([], d.next));
        assert acc + ([d.value] + []) == events;
      }
  }

  /** The queue header at p with the given events. */
  function QueueOf(s: seq<byte>, p: nat, events: seq<Event>): EventQueue
    requires p + EVENT_QUEUE_HEADER_SIZE <= |s|
  {
    EventQueue(Header.MetaDataAt(s, p), UIntAt(s, p + 8, 8), UIntAt(s, p + 16, 8), SeqNumAt(s, p), events)
  }

  /** The perp event queue exactly as the source's layout decodes it. */
  function DecodeEventQueueAsWritten(s: seq<byte>, pos: nat): (r: Parsed<EventQueue>)
    ensures pos + EVENT_QUEUE_HEADER_SIZE > |s| ==> r == Failure(TruncatedInput(pos, EVENT_QUEUE_HEADER_SIZE))
  {
    if pos + EVENT_QUEUE_HEADER_SIZE > |s| then Failure(TruncatedInput(pos, EVENT_QUEUE_HEADER_SIZE))
    else
      DecodeEventReadsOneSlot(s);
      var events :- RepeatUntilSeqNum(s, pos + EVENT_QUEUE_HEADER_SIZE, SeqNumAt(s, pos), [], DecodeEvent);
      Success(Decoded(QueueOf(s, pos, events.value), events.next))
  }

  /** The perp event queue read as its header says: exactly seq_num events follow. */
  function DecodeEventQueue(s: seq<byte>, pos: nat): (r: Parsed<EventQueue>)
    ensures r.Success? <==> pos + EVENT_QUEUE_HEADER_SIZE <= |s| && EventOffset(pos, SeqNumAt(s, pos)) <= |s|
    ensures r.Success? ==> r.value.next == EventOffset(pos, SeqNumAt(s, pos))
    ensures r.Success? ==> (
      var q := r.value.value;
      q == QueueOf(s, pos, q.events) && |q.events| == q.seqNum
      && forall k | 0 <= k < q.seqNum ::
           DecodeEvent(s, EventOffset(pos, k)) == Success(Decoded(q.events[k], EventOffset(pos, k + 1))))
    ensures pos + EVENT_QUEUE_HEADER_SIZE > |s| ==> r == Failure(TruncatedInput(pos, EVENT_QUEUE_HEADER_SIZE))
  {
    if pos + EVENT_QUEUE_HEADER_SIZE > |s| then Failure(TruncatedInput(pos, EVENT_QUEUE_HEADER_SIZE))
    else
      DecodeEventReadsOneSlot(s);
      var events :- ReadEvents(s, pos + EVENT_QUEUE_HEADER_SIZE, SeqNumAt(s, pos), DecodeEvent);
      QueueEventsAtOffsets(s, pos, SeqNumAt(s, pos), DecodeEvent, events.value);
      Success(Decoded(QueueOf(s, pos, events.value), events.next))
  }

  /** The events read for a queue body, located by their offsets from the queue's start. */
  lemma QueueEventsAtOffsets(s: seq<byte>, pos: nat, n: nat, read: Reader<Event>, events: seq<Event>)
    requires pos + EVENT_QUEUE_HEADER_SIZE <= |s| && ReadsOneSlot(read, s)
    requires ReadEvents(s, pos + EVENT_QUEUE_HEADER_SIZE, n, read).Success?
    requires events == ReadEvents(s, pos + EVENT_QUEUE_HEADER_SIZE, n, read).value.value
    ensures forall k | 0 <= k < n ::
      read(s, EventOffset(pos, k)) == Success(Decoded(events[k], EventOffset(pos, k + 1)))
  {
    var p := pos + EVENT_QUEUE_HEADER_SIZE;
    forall k | 0 <= k < n
      ensures read(s, EventOffset(pos, k)) == Success(Decoded(events[k], EventOffset(pos, k + 1)))
    {
      assert EventOffset(pos, k) == p + EVENT_SIZE * k;
      assert EventOffset(pos, k + 1) == p + EVENT_SIZE * k + EVENT_SIZE;
    }
  }

  /** A queue with a complete header fails at the first event the input cuts short. */
  lemma QueueFailsAtFirstCut(s: seq<byte>, pos: nat)
    requires pos + EVENT_QUEUE_HEADER_SIZE <= |s| && DecodeEventQueue(s, pos).Failure?
    ensures exists k | 0 <= k < SeqNumAt(s, pos) ::
      EventOffset(pos, k) <= |s| < EventOffset(pos, k + 1)
      && DecodeEventQueue(s, pos).error == MalformedEvent(EventOffset(pos, k))
  {
    var p, n := pos + EVENT_QUEUE_HEADER_SIZE, SeqNumAt(s, pos);
    DecodeEventReadsOneSlot(s);
    var k := ReadEventsFailsAtFirstCut(s, p, n, DecodeEvent);
    var at := p + EVENT_SIZE * k;
    assert EventOffset(pos, k) == at && EventOffset(pos, k + 1) == at + EVENT_SIZE;
  }

  /** Source behaviour: a queue whose sequence number is 0 never decodes, whatever follows;
      read as its header says, it is a queue with no events. */
  lemma SeqNumZeroNeverDecodes(s: seq<byte>, pos: nat)
    requires pos + EVENT_QUEUE_HEADER_SIZE <= |s| && SeqNumAt(s, pos) == 0
    ensures DecodeEventQueueAsWritten(s, pos).Failure?
    ensures DecodeEventQueue(s, pos) == Success(Decoded(QueueOf(s, pos, []), pos + EVENT_QUEUE_HEADER_SIZE))
  {
    DecodeEventReadsOneSlot(s);
    RepeatPastSeqNumFails(s, pos + EVENT_QUEUE_HEADER_SIZE, 0, [], DecodeEvent);
  }

  /** With a sequence number of at least 1 the source's reading and the corrected one agree. */
  lemma QueueDecodersAgree(s: seq<byte>, pos: nat)
    requires pos + EVENT_QUEUE_HEADER_SIZE <= |s| && SeqNumAt(s, pos) >= 1
    ensures DecodeEventQueueAsWritten(s, pos) == DecodeEventQueue(s, pos)
  {
    DecodeEventReadsOneSlot(s);
    RepeatAgreesWithReadEvents(s, pos + EVENT_QUEUE_HEADER_SIZE, SeqNumAt(s, pos), DecodeEvent);
  }

  /** From the start of a body, a positive sequence number makes both readings the same. */
  lemma RepeatAgreesWithReadEvents(s: seq<byte>, p: nat, seqNum: nat, read: Reader<Event>)
    requires p <= |s| && ReadsOneSlot(read, s) && seqNum >= 1
    ensures RepeatUntilSeqNum(s, p, seqNum, [], read) == ReadEvents(s, p, seqNum, read)
  {
    RepeatReadsRemaining(s, p, seqNum, [], read);
    match ReadEvents(s, p, seqNum, read)
    case Failure(_) =>
    case Success(d) =>
      assert [] + d.value == d.value;
  }
}
