/**
 * `StreamDecoder` of hmpy_protocol.py, a byte-at-a-time decoder with bounded storage, shown to
 * refine a specification without state: split the whole stream at its zeros, decode each segment.
 */
module StreamDecoder {
  import opened Bytes
  import opened Hmpy
  import Cobs

  datatype Event = Delivered(frame: Frame) | Failed(status: Status)

  function EventOf(r: Result<Frame, Status>): Event {
    if r.Ok? then Delivered(r.value) else Failed(r.error)
  }

  // ---------------------------------------------------------------- specification

  /** `s.split(b"\0")`. */
  function Split(s: seq<byte>): (segments: seq<seq<byte>>)
    ensures |segments| >= 1
  {
    if s == [] then [[]]
    else
      var rest := Split(s[1..]);
      if s[0] == 0 then [[]] + rest else [[s[0]] + rest[0]] + rest[1..]
  }

  function SegmentEvents(segment: seq<byte>): seq<Event> {
    if segment == [] then [] else [EventOf(DecodePacket(segment))]
  }

  function EventsOf(segments: seq<seq<byte>>): seq<Event> {
    if segments == [] then [] else SegmentEvents(segments[0]) + EventsOf(segments[1..])
  }

  function Ended(segments: seq<seq<byte>>): seq<seq<byte>>
    requires segments != []
  {
    segments[..|segments| - 1]
  }

  function Unfinished(segments: seq<seq<byte>>): seq<byte>
    requires segments != []
  {
    segments[|segments| - 1]
  }

  /** The events of a whole stream: one for each non-empty segment that a zero ends. */
  function StreamEvents(s: seq<byte>): seq<Event> { EventsOf(Ended(Split(s))) }

  /** The bytes after the last zero. */
  function Residue(s: seq<byte>): seq<byte> { Unfinished(Split(s)) }

  /** A zero separates what is before it from what is after it. */
  lemma {:induction false} SplitAtZero(a: seq<byte>, b: seq<byte>)
    ensures Split(a + [0] + b) == Split(a) + Split(b)
  {
    var s := a + [0] + b;
    if a == [] {
      assert s == [0] + b && s[1..] == b;
    } else {
      assert s[1..] == a[1..] + [0] + b && s[0] == a[0];
      SplitAtZero(a[1..], b);
      Regroup(a[0], Split(a[1..]), Split(b));
    }
  }

  lemma Regroup(x: byte, rest: seq<seq<byte>>, more: seq<seq<byte>>)
    requires rest != []
    ensures [[]] + (rest + more) == [[]] + rest + more
    ensures [[x] + (rest + more)[0]] + (rest + more)[1..] == [[x] + rest[0]] + rest[1..] + more
  {
    assert (rest + more)[1..] == rest[1..] + more;
  }

  lemma {:induction false} SplitZeroFree(s: seq<byte>)
    requires 0 !in s
    ensures Split(s) == [s]
  {
    if s != [] {
      SplitZeroFree(s[1..]);
      assert s == [s[0]] + s[1..];
    }
  }

  /** One more non-zero byte extends the last segment. */
  lemma {:induction false} SplitSnoc(s: seq<byte>, b: byte)
    requires b != 0
    ensures Split(s + [b]) == Ended(Split(s)) + [Unfinished(Split(s)) + [b]]
  {
    if s == [] {
      assert s + [b] == [b] && [b][1..] == [];
      var rest := Split([b][1..]);
      assert rest == [[]] && [b] + rest[0] == [b] && rest[1..] == [];
      assert Split([b]) == [[b] + rest[0]] + rest[1..];
    } else {
      assert (s + [b])[1..] == s[1..] + [b];
      SplitSnoc(s[1..], b);
      var rest := Split(s[1..]);
      if s[0] != 0 && |rest| == 1 {
        assert [s[0]] + (rest[0] + [b]) == [s[0]] + rest[0] + [b];
      }
    }
  }

  lemma {:induction false} EventsOfConcat(a: seq<seq<byte>>, b: seq<seq<byte>>)
    ensures EventsOf(a + b) == EventsOf(a) + EventsOf(b)
  {
    if a == [] {
      assert a + b == b;
    } else {
      assert (a + b)[1..] == a[1..] + b;
      EventsOfConcat(a[1..], b);
    }
  }

  lemma ZeroEndsSegment(s: seq<byte>)
    ensures StreamEvents(s + [0]) == StreamEvents(s) + SegmentEvents(Residue(s))
    ensures Residue(s + [0]) == []
  {
    var segments := Split(s);
    SplitAtZero(s, []);
    assert s + [0] + [] == s + [0];
    assert Split(s + [0]) == segments + [[]] && Ended(segments + [[]]) == segments;
    var last := [Unfinished(segments)];
    assert segments == Ended(segments) + last;
    EventsOfConcat(Ended(segments), last);
    assert last[1..] == [];
  }

  /** One more byte: a zero ends the residue, anything else extends it. */
  lemma NextByte(s: seq<byte>, b: byte)
    ensures StreamEvents(s + [b]) == StreamEvents(s) + if b == 0 then SegmentEvents(Residue(s)) else []
    ensures Residue(s + [b]) == if b == 0 then [] else Residue(s) + [b]
  {
    if b == 0 {
      ZeroEndsSegment(s);
    } else {
      SplitSnoc(s, b);
      assert Ended(Split(s + [b])) == Ended(Split(s));
    }
  }

  // ---------------------------------------------------------------- one event for each packet

  /** The segments that a zero ends, without the empty ones. */
  function Packets(segments: seq<seq<byte>>): seq<seq<byte>> {
    if segments == [] then [] else (if segments[0] == [] then [] else [segments[0]]) + Packets(segments[1..])
  }

  /** A packet that decodes is delivered; any other is one error event with the reason. */
  predicate Answers(event: Event, packet: seq<byte>) {
    match DecodePacket(packet)
    case Ok(frame) => event == Delivered(frame)
    case Err(status) => event == Failed(status)
  }

  ghost predicate AllAnswered(events: seq<Event>, packets: seq<seq<byte>>) {
    |events| == |packets| && forall i :: 0 <= i < |packets| ==> Answers(events[i], packets[i])
  }

  lemma {:induction false} EachPacketIsAnswered(segments: seq<seq<byte>>)
    ensures AllAnswered(EventsOf(segments), Packets(segments))
  {
    if segments != [] {
      var packet, events, packets := segments[0], EventsOf(segments[1..]), Packets(segments[1..]);
      EachPacketIsAnswered(segments[1..]);
      if packet == [] {
        assert [] + events == events && [] + packets == packets;
      } else {
        EventAnswers(packet);
        OneMoreAnswer(EventOf(DecodePacket(packet)), events, packet, packets);
      }
    }
  }

  lemma EventAnswers(packet: seq<byte>)
    ensures Answers(EventOf(DecodePacket(packet)), packet)
  {
  }

  lemma OneMoreAnswer(event: Event, events: seq<Event>, packet: seq<byte>, packets: seq<seq<byte>>)
    requires Answers(event, packet) && AllAnswered(events, packets)
    ensures AllAnswered([event] + events, [packet] + packets)
  {
    var es, ps := [event] + events, [packet] + packets;
    forall i | 0 <= i < |ps| ensures Answers(es[i], ps[i]) {
      assert i > 0 ==> es[i] == events[i - 1] && ps[i] == packets[i - 1];
    }
  }

  /** The segments without their zeros, put together again. */
  function Joined(segments: seq<seq<byte>>): seq<byte>
    requires segments != []
  {
    if |segments| == 1 then segments[0] else segments[0] + [0] + Joined(segments[1..])
  }

  lemma {:induction false} SplitJoins(s: seq<byte>)
    ensures Joined(Split(s)) == s
    ensures forall i :: 0 <= i < |Split(s)| ==> 0 !in Split(s)[i]
  {
    if s != [] {
      SplitJoins(s[1..]);
      var rest, all := Split(s[1..]), Split(s);
      assert s == [s[0]] + s[1..];
      if s[0] == 0 {
        assert all[1..] == rest && all[0] == [];
      } else {
        assert all[1..] == rest[1..] && all[0] == [s[0]] + rest[0];
        forall i | 0 <= i < |all| ensures 0 !in all[i] {
          if i > 0 {
            assert all[i] == rest[i];
          }
        }
      }
    }
  }

  /** Every non-empty packet of a stream has one event, in order, delivered or failed as the packet decodes. */
  lemma PacketsAreAnswered(s: seq<byte>)
    ensures AllAnswered(StreamEvents(s), Packets(Ended(Split(s))))
    ensures Joined(Split(s)) == s && forall i :: 0 <= i < |Split(s)| ==> 0 !in Split(s)[i]
  {
    EachPacketIsAnswered(Ended(Split(s)));
    SplitJoins(s);
  }

  // ---------------------------------------------------------------- the decoder

  function Failures(events: seq<Event>): nat {
    if events == [] then 0 else (if events[0].Failed? then 1 else 0) + Failures(events[1..])
  }

  /** `last_error` after the events. */
  function LastStatus(events: seq<Event>, before: Option<Status>): Option<Status> {
    if events == [] then before
    else match events[|events| - 1] case Delivered(_) => None case Failed(e) => Some(e)
  }

  lemma {:induction false} FailuresConcat(a: seq<Event>, b: seq<Event>)
    ensures Failures(a + b) == Failures(a) + Failures(b)
  {
    if a == [] {
      assert a + b == b;
    } else {
      assert (a + b)[1..] == a[1..] + b;
      FailuresConcat(a[1..], b);
    }
  }

  lemma OneMore(before: seq<byte>, data: seq<byte>, i: nat)
    requires i < |data|
    ensures before + data[..i + 1] == before + data[..i] + [data[i]]
  {
  }

  class StreamDecoder {
    var buffer: seq<byte>
    var discarding: bool
    var errorCount: nat
    var lastError: Option<Status>
    /** Everything fed, and every event returned, since the last reset. */
    ghost var stream: seq<byte>
    ghost var returned: seq<Event>

    /** The buffer is the unfinished segment, unless that segment is too long and being skipped. */
    ghost predicate Valid()
      reads this
    {
      && |buffer| <= MAX_ENCODED_PACKET
      && discarding == (|Residue(stream)| > MAX_ENCODED_PACKET)
      && buffer == (if discarding then [] else Residue(stream))
      && returned == StreamEvents(stream)
    }

    constructor ()
      ensures Valid() && stream == [] && returned == [] && errorCount == 0 && lastError.None?
    {
      buffer, discarding, errorCount, lastError, stream, returned := [], false, 0, None, [], [];
    }

    method Reset()
      modifies this
      ensures Valid() && stream == [] && returned == [] && lastError.None? && errorCount == old(errorCount)
    {
      buffer, discarding, lastError, stream, returned := [], false, None, [], [];
    }

    method ErrorEvent(status: Status) returns (event: Event)
      modifies this`errorCount, this`lastError
      ensures event == Failed(status) && errorCount == old(errorCount) + 1 && lastError == Some(status)
    {
      errorCount := errorCount + 1;
      lastError := Some(status);
      return Failed(status);
    }

    /** `feed`: its events are what this chunk adds to the events of the whole stream. */
    method FeedChunk(data: seq<byte>) returns (events: seq<Event>)
      requires Valid()
      modifies this
      ensures Valid() && stream == old(stream) + data && returned == old(returned) + events
      ensures errorCount == old(errorCount) + Failures(events)
      ensures lastError == LastStatus(events, old(lastError))
    {
      events := [];
      for i := 0 to |data|
        invariant Valid() && stream == old(stream) + data[..i] && returned == old(returned) + events
        invariant errorCount == old(errorCount) + Failures(events)
        invariant lastError == LastStatus(events, old(lastError))
      {
        OneMore(old(stream), data, i);
        var more := FeedByte(data[i]);
        Associative(old(returned), events, more);
        FailuresConcat(events, more);
        events := events + more;
      }
      assert data[..|data|] == data;
    }

    /** The body of `feed`'s loop: the events, at most one, that a byte causes. */
    method FeedByte(value: byte) returns (events: seq<Event>)
      requires Valid()
      modifies this
      ensures Valid() && stream == old(stream) + [value] && returned == old(returned) + events && |events| <= 1
      ensures errorCount == old(errorCount) + Failures(events)
      ensures lastError == LastStatus(events, old(lastError))
    {
      NextByte(stream, value);
      stream := stream + [value];
      returned := StreamEvents(stream);
      if value != 0 {
        if discarding {
          return [];
        }
        if |buffer| >= MAX_ENCODED_PACKET {
          buffer := [];
          discarding := true;
          return [];
        }
        buffer := buffer + [value];
        return [];
      }
      if discarding {
        discarding := false;
        buffer := [];
        var error := ErrorEvent(EncodedTooLarge);
        return [error];
      }
      if buffer == [] {
        return [];
      }
      var packet := buffer;
      buffer := [];
      var frame := DecodePacket(packet);
      if frame.Err? {
        var error := ErrorEvent(frame.error);
        return [error];
      }
      lastError := None;
      return [Delivered(frame.value)];
    }
  }

  function Concat(chunks: seq<seq<byte>>): seq<byte> {
    if chunks == [] then [] else Concat(chunks[..|chunks| - 1]) + chunks[|chunks| - 1]
  }

  /** However the stream is cut into chunks, the events are those of the whole stream. */
  method FeedAll(chunks: seq<seq<byte>>) returns (events: seq<Event>)
    ensures events == StreamEvents(Concat(chunks))
  {
    var decoder := new StreamDecoder();
    events := [];
    for i := 0 to |chunks|
      invariant decoder.Valid() && decoder.stream == Concat(chunks[..i])
      invariant events == decoder.returned
    {
      assert chunks[..i + 1][..i] == chunks[..i];
      var more := decoder.FeedChunk(chunks[i]);
      events := events + more;
    }
    assert chunks[..|chunks|] == chunks;
  }

  // ---------------------------------------------------------------- resynchronisation

  /** The wire form of a list of frames. */
  function Wire(frames: seq<Frame>): seq<byte>
    requires forall f :: f in frames ==> ValidFrame(f)
  {
    if frames == [] then [] else WireOf(frames[0]) + Wire(frames[1..])
  }

  function Deliveries(frames: seq<Frame>): seq<Event> {
    if frames == [] then [] else [Delivered(frames[0])] + Deliveries(frames[1..])
  }

  lemma {:induction false} FramesAreDelivered(frames: seq<Frame>)
    requires forall f :: f in frames ==> ValidFrame(f)
    ensures StreamEvents(Wire(frames)) == Deliveries(frames) && Residue(Wire(frames)) == []
  {
    if frames != [] {
      var f, rest := frames[0], Wire(frames[1..]);
      RawRoundTrip(f);
      PacketRoundTrip(f);
      var packet := Cobs.Encode(EncodeRaw(f).value);
      PacketFirst(packet, rest);
      FramesAreDelivered(frames[1..]);
      assert Wire(frames) == packet + [0] + rest;
    }
  }

  lemma PacketFirst(packet: seq<byte>, rest: seq<byte>)
    requires 0 !in packet
    ensures StreamEvents(packet + [0] + rest) == SegmentEvents(packet) + StreamEvents(rest)
    ensures Residue(packet + [0] + rest) == Residue(rest)
  {
    SplitZeroFree(packet);
    SplitAtZero(packet, rest);
    var all, after := [packet] + Split(rest), Split(rest);
    assert Ended(all) == [packet] + Ended(after);
    EventsOfConcat([packet], Ended(after));
    assert [packet][1..] == [];
  }

  /** After any garbage that ends in a delimiter, every well-formed frame is delivered, in order. */
  lemma Resynchronises(garbage: seq<byte>, frames: seq<Frame>)
    requires forall f :: f in frames ==> ValidFrame(f)
    ensures StreamEvents(garbage + [0] + Wire(frames)) == StreamEvents(garbage + [0]) + Deliveries(frames)
    ensures Residue(garbage + [0] + Wire(frames)) == []
  {
    var before, after := Split(garbage), Split(Wire(frames));
    SplitAtZero(garbage, Wire(frames));
    assert Ended(before + after) == before + Ended(after);
    EventsOfConcat(before, Ended(after));
    SplitAtZero(garbage, []);
    assert garbage + [0] + [] == garbage + [0] && Ended(before + [[]]) == before;
    FramesAreDelivered(frames);
  }
}
