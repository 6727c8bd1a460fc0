/**
 * `EventTrace` of hmpy_acceptance.py: reassembling replayed, overlapping and gappy output events
 * into one byte stream for each key, and what a clean trace proves about the device's output.
 */
module EventTrace {
  import opened Bytes

  datatype Stream = Stdout | Stderr

  /** An output event, a report of dropped bytes, or any other event. */
  datatype Event =
    | Output(stream: Stream, run: int, sequence: nat, data: seq<byte>)
    | Dropped(run: int, droppedStream: Option<int>, count: nat)
    | Other

  datatype Key = Key(stream: Stream, run: int)

  datatype Problem = ReplayMismatch(run: int, stream: Stream, at: nat) | UnexplainedGap(run: int, stream: Stream, size: nat)

  /** `_sequence_key`: diagnostics share one counter for the whole boot. */
  function KeyOf(stream: Stream, run: int): Key { Key(stream, if stream.Stderr? then 0 else run) }

  /** Diagnostics of all runs are one stream, the output of each run is its own. */
  lemma StreamsShareKey(s: Stream, run: int, s': Stream, run': int)
    ensures KeyOf(s, run) == KeyOf(s', run') <==> s == s' && (run == run' || s == Stderr)
  {
  }

  function DroppedKey(event: Event): Key
    requires event.Dropped?
  {
    KeyOf(if event.droppedStream == Some(1) then Stdout else Stderr, event.run)
  }

  // ---------------------------------------------------------------- one stream

  /** The bytes known from absolute offset `base` on. */
  datatype Track = Track(base: nat, bytes: seq<byte>)

  function End(t: Track): nat { t.base + |t.bytes| }

  function Padded(bytes: seq<byte>, gap: nat): seq<byte> { if gap == 0 then bytes else bytes + ZeroBytes(gap) }

  datatype Absorbed = Absorbed(track: Track, gap: nat, mismatch: Option<nat>)

  /** How many bytes of an event lie before the base, outside what can be compared. */
  function Skipped(base: nat, start: nat, data: seq<byte>): (n: nat)
    ensures n <= |data|
  {
    if start >= base then 0 else if base - start < |data| then base - start else |data|
  }

  /** One output event: bytes already known are compared, the rest is appended, a gap is zero-filled. */
  function Absorb(t: Track, start: nat, data: seq<byte>): Absorbed {
    var skip := Skipped(t.base, start, data);
    if start < t.base && skip == |data| then Absorbed(t, 0, None) else AbsorbFrom(t, start + skip, data[skip..])
  }

  function AbsorbFrom(t: Track, start: nat, data: seq<byte>): Absorbed
    requires start >= t.base
  {
    if start >= End(t) then
      var gap := start - End(t);
      Absorbed(t.(bytes := Padded(t.bytes, gap) + data), gap, None)
    else
      var n := if End(t) - start < |data| then End(t) - start else |data|;
      var at := start - t.base;
      Absorbed(t.(bytes := t.bytes + data[n..]), 0, if t.bytes[at..at + n] != data[..n] then Some(start) else None)
  }

  // ---------------------------------------------------------------- all streams

  datatype State = State(tracks: map<Key, Track>, pending: map<Key, nat>, problems: seq<Problem>, dropped: seq<Event>)

  const EMPTY: State := State(map[], map[], [], [])

  function PendingAt(pending: map<Key, nat>, k: Key): nat { if k in pending then pending[k] else 0 }

  function Pending(s: State, k: Key): nat { PendingAt(s.pending, k) }

  function OutputKey(event: Event): Key
    requires event.Output?
  {
    KeyOf(event.stream, event.run)
  }

  /** The first event of a key starts its track; drops reported before a first diagnostic event are forgotten. */
  function Opening(s: State, event: Event): (r: State)
    requires event.Output?
    ensures OutputKey(event) in r.tracks
  {
    var k := OutputKey(event);
    if k in s.tracks then s
    else if event.stream.Stdout? then s.(tracks := s.tracks[k := Track(0, [])])
    else s.(tracks := s.tracks[k := Track(event.sequence, [])], pending := s.pending - {k})
  }

  function TrackFor(s: State, event: Event): Track
    requires event.Output?
  {
    Opening(s, event).tracks[OutputKey(event)]
  }

  /** A gap uses up the drops reported before it. */
  function Explained(pending: map<Key, nat>, k: Key, gap: nat): map<Key, nat> {
    var p := PendingAt(pending, k);
    if gap == 0 then pending else pending[k := if p > gap then p - gap else 0]
  }

  function WithMismatch(problems: seq<Problem>, event: Event, mismatch: Option<nat>): seq<Problem>
    requires event.Output?
  {
    if mismatch.Some? then problems + [ReplayMismatch(event.run, event.stream, mismatch.value)] else problems
  }

  function WithGap(problems: seq<Problem>, event: Event, pending: nat, gap: nat): seq<Problem>
    requires event.Output?
  {
    if pending < gap then problems + [UnexplainedGap(event.run, event.stream, gap)] else problems
  }

  function AbsorbInto(s: State, event: Event): State
    requires event.Output? && OutputKey(event) in s.tracks
  {
    var k := OutputKey(event);
    var a := Absorb(s.tracks[k], event.sequence, event.data);
    s.(tracks := s.tracks[k := a.track],
       pending := Explained(s.pending, k, a.gap),
       problems := WithGap(WithMismatch(s.problems, event, a.mismatch), event, Pending(s, k), a.gap))
  }

  function Step(s: State, event: Event): State {
    match event
    case Other => s
    case Dropped(_, _, count) =>
      var k := DroppedKey(event);
      s.(pending := s.pending[k := Pending(s, k) + count], dropped := s.dropped + [event])
    case Output(_, _, _, _) => AbsorbInto(Opening(s, event), event)
  }

  function Replay(events: seq<Event>): State {
    if events == [] then EMPTY else Step(Replay(events[..|events| - 1]), events[|events| - 1])
  }

  function StdoutOf(s: State, run: int): seq<byte> {
    if Key(Stdout, run) in s.tracks then s.tracks[Key(Stdout, run)].bytes else []
  }

  /** `assert_clean_output` raises nothing. */
  predicate Clean(s: State, run: int) {
    && (forall p :: p in s.problems ==> p.run != run)
    && (forall e :: e in s.dropped && e.Dropped? ==> e.run != run)
  }

  // ---------------------------------------------------------------- the class

  function TracksOf(streams: map<Key, seq<byte>>, base: map<Key, nat>): map<Key, Track>
    requires streams.Keys == base.Keys
  {
    map k | k in streams :: Track(base[k], streams[k])
  }

  lemma TracksOfUpdate(streams: map<Key, seq<byte>>, base: map<Key, nat>, key: Key, bytes: seq<byte>, first: nat)
    requires streams.Keys == base.Keys
    ensures TracksOf(streams[key := bytes], base[key := first]) == TracksOf(streams, base)[key := Track(first, bytes)]
  {
  }

  /** What an event does to the dictionaries, once its bytes have been absorbed. */
  ghost predicate Applied(
    a: Absorbed, key: Key, event: Event, streams: map<Key, seq<byte>>, pending: map<Key, nat>, errors: seq<Problem>,
    streams': map<Key, seq<byte>>, pending': map<Key, nat>, errors': seq<Problem>)
  {
    && event.Output?
    && streams' == streams[key := a.track.bytes]
    && pending' == Explained(pending, key, a.gap)
    && errors' == WithGap(WithMismatch(errors, event, a.mismatch), event, PendingAt(pending, key), a.gap)
  }

  lemma NothingApplied(
    t: Track, key: Key, event: Event, streams: map<Key, seq<byte>>, pending: map<Key, nat>, errors: seq<Problem>)
    requires event.Output? && key in streams && streams[key] == t.bytes
    ensures Applied(Absorbed(t, 0, None), key, event, streams, pending, errors, streams, pending, errors)
  {
    assert streams == streams[key := streams[key]];
  }

  /** Bytes before the base are skipped. */
  lemma BehindApplied(
    t: Track, first: nat, bytes: seq<byte>, key: Key, event: Event,
    streams: map<Key, seq<byte>>, pending: map<Key, nat>, errors: seq<Problem>,
    streams': map<Key, seq<byte>>, pending': map<Key, nat>, errors': seq<Problem>)
    requires event.Output? && t.base <= first
    requires var skip := Skipped(t.base, event.sequence, event.data);
      && !(event.sequence < t.base && skip == |event.data|)
      && first == event.sequence + skip && bytes == event.data[skip..]
    requires Applied(AbsorbFrom(t, first, bytes), key, event, streams, pending, errors, streams', pending', errors')
    ensures Applied(Absorb(t, event.sequence, event.data), key, event, streams, pending, errors, streams', pending', errors')
  {
  }

  /** Bytes that overlap what is known are compared; what is left is appended without a gap. */
  lemma OverlapApplied(
    t: Track, first: nat, bytes: seq<byte>, n: nat, key: Key, event: Event,
    streams: map<Key, seq<byte>>, pending: map<Key, nat>, errors: seq<Problem>, compared: seq<Problem>,
    streams': map<Key, seq<byte>>, pending': map<Key, nat>, errors': seq<Problem>)
    requires event.Output? && t.base <= first < End(t) && n == if End(t) - first < |bytes| then End(t) - first else |bytes|
    requires var at := first - t.base;
      compared == WithMismatch(errors, event, if t.bytes[at..at + n] != bytes[..n] then Some(first) else None)
    requires Applied(Absorbed(t.(bytes := t.bytes + bytes[n..]), 0, None), key, event,
                     streams, pending, compared, streams', pending', errors')
    ensures Applied(AbsorbFrom(t, first, bytes), key, event, streams, pending, errors, streams', pending', errors')
  {
  }

  class EventTrace {
    var events: seq<Event>
    var streams: map<Key, seq<byte>>
    var base: map<Key, nat>
    var next: map<Key, nat>
    var pendingDrop: map<Key, nat>
    var sequenceErrors: seq<Problem>
    var dropped: seq<Event>

    /** Each stream holds exactly the bytes between its base and its next offset. */
    ghost predicate Valid()
      reads this
    {
      && streams.Keys == base.Keys == next.Keys
      && forall k :: k in streams ==> next[k] == base[k] + |streams[k]|
    }

    ghost function Seen(): State
      requires Valid()
      reads this
    {
      State(TracksOf(streams, base), pendingDrop, sequenceErrors, dropped)
    }

    constructor ()
      ensures Valid() && Seen() == EMPTY && events == []
    {
      events, streams, base, next, pendingDrop, sequenceErrors, dropped := [], map[], map[], map[], map[], [], [];
    }

    /** `new_boot`: everything but the list of events starts again. */
    method NewBoot()
      requires Valid()
      modifies this
      ensures Valid() && Seen() == EMPTY && events == old(events)
    {
      streams, base, next, pendingDrop, sequenceErrors, dropped := map[], map[], map[], map[], [], [];
    }

    /** `handle`. */
    method Handle(event: Event)
      requires Valid()
      modifies this
      ensures Valid() && Seen() == Step(old(Seen()), event) && events == old(events) + [event]
    {
      events := events + [event];
      match event
      case Other =>
      case Dropped(_, _, count) =>
        var key := DroppedKey(event);
        dropped := dropped + [event];
        pendingDrop := pendingDrop[key := (if key in pendingDrop then pendingDrop[key] else 0) + count];
      case Output(stream, run, sequence, data) =>
        HandleOutput(event);
    }

    /** `handle` on an output event. */
    method HandleOutput(event: Event)
      requires Valid() && event.Output?
      modifies this`streams, this`base, this`next, this`pendingDrop, this`sequenceErrors
      ensures Valid() && Seen() == Step(old(Seen()), event)
    {
      var key := KeyOf(event.stream, event.run);
      OpenStream(key, event);
      ghost var known := streams;
      Absorbs(key, event);
      assert base == base[key := base[key]];
      TracksOfUpdate(known, base, key, streams[key], base[key]);
    }

    /** The first event of a key fixes its base. */
    method OpenStream(key: Key, event: Event)
      requires Valid() && event.Output? && key == OutputKey(event)
      modifies this`streams, this`base, this`next, this`pendingDrop
      ensures Valid() && key in streams && Seen() == Opening(old(Seen()), event)
    {
      if key !in streams {
        var first := if event.stream.Stderr? then event.sequence else 0;
        TracksOfUpdate(streams, base, key, [], first);
        streams, base, next := streams[key := []], base[key := first], next[key := first];
        if event.stream.Stderr? {
          pendingDrop := pendingDrop - {key};
        }
      }
    }

    /** Drop what lies before the base. */
    method Absorbs(key: Key, event: Event)
      requires Valid() && key in streams && event.Output?
      modifies this`streams, this`next, this`pendingDrop, this`sequenceErrors
      ensures Valid()
      ensures Applied(Absorb(Track(base[key], old(streams[key])), event.sequence, event.data), key, event,
                      old(streams), old(pendingDrop), old(sequenceErrors), streams, pendingDrop, sequenceErrors)
    {
      var start, data := event.sequence, event.data;
      if start < base[key] {
        var skip := if base[key] - start < |data| then base[key] - start else |data|;
        start := start + skip;
        data := data[skip..];
        if data == [] {
          NothingApplied(Track(base[key], streams[key]), key, event, streams, pendingDrop, sequenceErrors);
          return;
        }
      }
      Compare(key, event, start, data);
      BehindApplied(Track(base[key], old(streams[key])), start, data, key, event,
                    old(streams), old(pendingDrop), old(sequenceErrors), streams, pendingDrop, sequenceErrors);
    }

    /** Compare what is known and keep what is new. */
    method Compare(key: Key, event: Event, first: nat, bytes: seq<byte>)
      requires Valid() && key in streams && event.Output? && first >= base[key]
      modifies this`streams, this`next, this`pendingDrop, this`sequenceErrors
      ensures Valid()
      ensures Applied(AbsorbFrom(Track(base[key], old(streams[key])), first, bytes), key, event,
                      old(streams), old(pendingDrop), old(sequenceErrors), streams, pendingDrop, sequenceErrors)
    {
      if first >= next[key] {
        Append(key, event, first, bytes);
      } else {
        CompareOverlap(key, event, first, bytes);
      }
    }

    method CompareOverlap(key: Key, event: Event, start: nat, data: seq<byte>)
      requires Valid() && key in streams && event.Output? && base[key] <= start < next[key]
      modifies this`streams, this`next, this`pendingDrop, this`sequenceErrors
      ensures Valid()
      ensures Applied(AbsorbFrom(Track(base[key], old(streams[key])), start, data), key, event,
                      old(streams), old(pendingDrop), old(sequenceErrors), streams, pendingDrop, sequenceErrors)
    {
      ghost var t, known, pending, errors := Track(base[key], streams[key]), streams, pendingDrop, sequenceErrors;
      var overlap := if next[key] - start < |data| then next[key] - start else |data|;
      ReportMismatch(key, event, start, data[..overlap]);
      ghost var compared := sequenceErrors;
      if overlap == |data| {
        assert t.bytes + data[overlap..] == t.bytes;
        NothingApplied(t, key, event, streams, pendingDrop, sequenceErrors);
      } else {
        AppendRest(key, event, start + overlap, data[overlap..]);
      }
      OverlapApplied(t, start, data, overlap, key, event, known, pending, errors, compared, streams, pendingDrop, sequenceErrors);
    }

    method AppendRest(key: Key, event: Event, start: nat, data: seq<byte>)
      requires Valid() && key in streams && event.Output? && start == next[key]
      modifies this`streams, this`next, this`pendingDrop, this`sequenceErrors
      ensures Valid()
      ensures Applied(Absorbed(Track(base[key], old(streams[key]) + data), 0, None), key, event,
                      old(streams), old(pendingDrop), old(sequenceErrors), streams, pendingDrop, sequenceErrors)
    {
      Append(key, event, start, data);
    }

    method ReportMismatch(key: Key, event: Event, start: nat, overlapping: seq<byte>)
      requires Valid() && key in streams && event.Output? && base[key] <= start && start + |overlapping| <= next[key]
      modifies this`sequenceErrors
      ensures var at := start - base[key];
        sequenceErrors == WithMismatch(old(sequenceErrors), event,
                                       if streams[key][at..at + |overlapping|] != overlapping then Some(start) else None)
    {
      var relative := start - base[key];
      if relative + |overlapping| <= |streams[key]| && streams[key][relative..relative + |overlapping|] != overlapping {
        sequenceErrors := sequenceErrors + [ReplayMismatch(event.run, event.stream, start)];
      }
    }

    /** Account for a gap, fill it with zeros and append; there is nothing left to overlap. */
    method Append(key: Key, event: Event, start: nat, data: seq<byte>)
      requires Valid() && key in streams && event.Output? && start >= next[key]
      modifies this`streams, this`next, this`pendingDrop, this`sequenceErrors
      ensures Valid()
      ensures var gap := start - old(next[key]);
              Applied(Absorbed(Track(base[key], Padded(old(streams[key]), gap) + data), gap, None), key, event,
                      old(streams), old(pendingDrop), old(sequenceErrors), streams, pendingDrop, sequenceErrors)
    {
      var expected := next[key];
      AccountForGap(key, event, start);
      var relative, known := start - base[key], streams[key];
      if relative > |known| {
        known := known + ZeroBytes(relative - |known|);
      }
      if relative < |known| {
        // The second overlap test: the stream never reaches past the expected offset.
        assert false;
      }
      known := known + data;
      streams := streams[key := known];
      next := next[key := if expected > start + |data| then expected else start + |data|];
    }

    method AccountForGap(key: Key, event: Event, start: nat)
      requires Valid() && key in streams && event.Output? && start >= next[key]
      modifies this`pendingDrop, this`sequenceErrors
      ensures pendingDrop == Explained(old(pendingDrop), key, start - next[key])
      ensures sequenceErrors == WithGap(old(sequenceErrors), event, PendingAt(old(pendingDrop), key), start - next[key])
    {
      var expected := next[key];
      if start > expected {
        var gap := start - expected;
        var pending := if key in pendingDrop then pendingDrop[key] else 0;
        if pending < gap {
          sequenceErrors := sequenceErrors + [UnexplainedGap(event.run, event.stream, gap)];
        }
        pendingDrop := pendingDrop[key := if pending > gap then pending - gap else 0];
      }
    }

    /** `stdout`. */
    method StdoutBytes(run: int) returns (bytes: seq<byte>)
      requires Valid()
      ensures bytes == StdoutOf(Seen(), run)
    {
      return if Key(Stdout, run) in streams then streams[Key(Stdout, run)] else [];
    }

    /** `assert_clean_output`: true when it raises nothing. */
    method AssertCleanOutput(run: int) returns (clean: bool)
      requires Valid()
      ensures clean == Clean(Seen(), run)
    {
      return (forall p | p in sequenceErrors :: p.run != run) && (forall e | e in dropped && e.Dropped? :: e.run != run);
    }
  }

  /** A whole trace from a fresh object. */
  method Trace(events: seq<Event>) returns (trace: EventTrace)
    ensures fresh(trace) && trace.Valid() && trace.Seen() == Replay(events) && trace.events == events
  {
    trace := new EventTrace();
    for i := 0 to |events|
      invariant fresh(trace) && trace.Valid() && trace.Seen() == Replay(events[..i]) && trace.events == events[..i]
    {
      ReplayNext(events, i);
      trace.Handle(events[i]);
    }
    assert events[..|events|] == events;
  }

  lemma ReplayNext(events: seq<Event>, i: nat)
    requires i < |events|
    ensures events[..i + 1] == events[..i] + [events[i]]
    ensures Replay(events[..i + 1]) == Step(Replay(events[..i]), events[i])
  {
    assert events[..i + 1][..i] == events[..i];
  }

  // ---------------------------------------------------------------- stored bytes never change

  /** A step never loses a stream, moves its base or changes a stored byte, so its next offset never falls. */
  lemma StepKeepsBytes(s: State, event: Event, k: Key)
    requires k in s.tracks
    ensures k in Step(s, event).tracks
    ensures var t, t' := s.tracks[k], Step(s, event).tracks[k];
            t'.base == t.base && t.bytes <= t'.bytes && End(t) <= End(t')
  {
  }

  lemma {:induction false} RunKeepsBytes(events: seq<Event>, i: nat, k: Key)
    requires i <= |events| && k in Replay(events[..i]).tracks
    ensures k in Replay(events).tracks
    ensures var t, t' := Replay(events[..i]).tracks[k], Replay(events).tracks[k];
            t'.base == t.base && t.bytes <= t'.bytes
    decreases |events|
  {
    if i == |events| {
      assert events[..i] == events;
    } else {
      var init := events[..|events| - 1];
      assert init[..i] == events[..i];
      RunKeepsBytes(init, i, k);
      StepKeepsBytes(Replay(init), events[|events| - 1], k);
    }
  }

  // ---------------------------------------------------------------- gaps are paid for by drops

  function GapOf(s: State, event: Event, k: Key): nat {
    if event.Output? && OutputKey(event) == k then Absorb(TrackFor(s, event), event.sequence, event.data).gap else 0
  }

  function TotalGaps(events: seq<Event>, k: Key): nat {
    if events == [] then 0
    else TotalGaps(events[..|events| - 1], k) + GapOf(Replay(events[..|events| - 1]), events[|events| - 1], k)
  }

  function TotalDrops(events: seq<Event>, k: Key): nat {
    if events == [] then 0
    else
      var e := events[|events| - 1];
      TotalDrops(events[..|events| - 1], k) + if e.Dropped? && DroppedKey(e) == k then e.count else 0
  }

  predicate ReportsGap(p: Problem, k: Key) { p.UnexplainedGap? && KeyOf(p.stream, p.run) == k }

  /** While no gap of a stream is reported as unexplained, its gaps add up to no more than its drops. */
  lemma {:induction false} GapsWithinDrops(events: seq<Event>, k: Key)
    requires forall p :: p in Replay(events).problems ==> !ReportsGap(p, k)
    ensures TotalGaps(events, k) + Pending(Replay(events), k) <= TotalDrops(events, k)
  {
    if events != [] {
      var init, e := events[..|events| - 1], events[|events| - 1];
      var s, s' := Replay(init), Replay(events);
      assert s.problems <= s'.problems;
      forall p | p in s.problems ensures p in s'.problems {
        var i :| 0 <= i < |s.problems| && s.problems[i] == p;
        assert s'.problems[i] == p;
      }
      GapsWithinDrops(init, k);
      GapIsReported(s, e, k);
    }
  }

  lemma GapIsReported(s: State, e: Event, k: Key)
    ensures e.Output? && OutputKey(e) == k && Pending(Opening(s, e), k) < GapOf(s, e, k) ==>
      exists p :: p in Step(s, e).problems && ReportsGap(p, k)
  {
    if e.Output? && OutputKey(e) == k && Pending(Opening(s, e), k) < GapOf(s, e, k) {
      var p, problems := UnexplainedGap(e.run, e.stream, GapOf(s, e, k)), Step(s, e).problems;
      assert p == problems[|problems| - 1] && ReportsGap(p, k);
    }
  }

  // ---------------------------------------------------------------- the device's output

  predicate IsOf(e: Event, k: Key) { e.Output? && OutputKey(e) == k }

  /** Every event of the stream carries a piece of one output, at that piece's absolute offset. */
  ghost predicate Truthful(events: seq<Event>, k: Key, output: seq<byte>) {
    forall e :: e in events && IsOf(e, k) ==> IsPieceOf(e, output)
  }

  predicate IsPieceOf(e: Event, output: seq<byte>)
    requires e.Output?
  {
    e.sequence + |e.data| <= |output| && e.data == output[e.sequence..e.sequence + |e.data|]
  }

  /** STDOUT starts at offset 0 of every run, diagnostics wherever the first event finds them. */
  function FirstOffset(e: Event): nat
    requires e.Output?
  {
    if e.stream.Stdout? then 0 else e.sequence
  }

  /** The offset at which the stream was opened, if it was. */
  function OpenedAt(events: seq<Event>, k: Key): Option<nat> {
    if events == [] then None
    else
      var before, e := OpenedAt(events[..|events| - 1], k), events[|events| - 1];
      if before.None? && IsOf(e, k) then Some(FirstOffset(e)) else before
  }

  function Max(a: nat, b: nat): nat { if a > b then a else b }

  /** How far the events of the stream reach. */
  function Reach(events: seq<Event>, k: Key): nat
    decreases |events|, 0
  {
    if events == [] then 0
    else
      var init, e := events[..|events| - 1], events[|events| - 1];
      if IsOf(e, k) then Max(ReachBefore(init, k, e), e.sequence + |e.data|) else Reach(init, k)
  }

  /** How far the stream is known when the event `e` of it comes after `events`. */
  function ReachBefore(events: seq<Event>, k: Key, e: Event): nat
    requires e.Output?
    decreases |events|, 1
  {
    if OpenedAt(events, k).None? then FirstOffset(e) else Reach(events, k)
  }

  /** No event of the stream starts past what is known before it: nothing in between is missing. */
  ghost predicate NothingMissing(events: seq<Event>, k: Key) {
    forall i :: 0 <= i < |events| && IsOf(events[i], k) ==> events[i].sequence <= ReachBefore(events[..i], k, events[i])
  }

  ghost predicate NoProblem(s: State, k: Key) { forall p :: p in s.problems ==> KeyOf(p.stream, p.run) != k }

  lemma AbsorbedLength(t: Track, start: nat, data: seq<byte>)
    ensures var a := Absorb(t, start, data);
      && a.track.base == t.base && End(a.track) == Max(End(t), start + |data|)
      && (a.gap == 0 <==> start <= End(t))
  {
  }

  /** A stream ends where its events reach, gaps included. */
  lemma {:induction false} StreamReaches(events: seq<Event>, k: Key)
    ensures var s := Replay(events);
      if k in s.tracks then OpenedAt(events, k) == Some(s.tracks[k].base) && End(s.tracks[k]) == Reach(events, k)
      else OpenedAt(events, k).None? && Reach(events, k) == 0
  {
    if events != [] {
      var init, e := events[..|events| - 1], events[|events| - 1];
      StreamReaches(init, k);
      if IsOf(e, k) {
        AbsorbedLength(TrackFor(Replay(init), e), e.sequence, e.data);
      }
    }
  }

  /** The gaps that the trace counts are exactly the places where events leave bytes out. */
  lemma {:induction false} GapsAreMissingBytes(events: seq<Event>, k: Key)
    ensures TotalGaps(events, k) == 0 <==> NothingMissing(events, k)
  {
    if events != [] {
      var n := |events| - 1;
      var init, e := events[..n], events[n];
      GapsAreMissingBytes(init, k);
      StreamReaches(init, k);
      if IsOf(e, k) {
        AbsorbedLength(TrackFor(Replay(init), e), e.sequence, e.data);
      }
      NothingMissingStep(events, k);
    }
  }

  lemma NothingMissingStep(events: seq<Event>, k: Key)
    requires events != []
    ensures var n := |events| - 1;
      NothingMissing(events, k) <==>
        NothingMissing(events[..n], k) && (IsOf(events[n], k) ==> events[n].sequence <= ReachBefore(events[..n], k, events[n]))
  {
    var init := events[..|events| - 1];
    assert forall i :: 0 <= i < |init| ==> init[i] == events[i] && init[..i] == events[..i];
  }

  /** One truthful event that starts within what is known. */
  lemma AbsorbSlice(output: seq<byte>, base: nat, r: nat, start: nat, data: seq<byte>)
    requires base <= r <= |output| && start <= r && start + |data| <= |output| && data == output[start..start + |data|]
    ensures Absorb(Track(base, output[base..r]), start, data) ==
      Absorbed(Track(base, output[base..Max(r, start + |data|)]), 0, None)
  {
    var skip := Skipped(base, start, data);
    if start < base && skip == |data| {
      assert Max(r, start + |data|) == r;
    } else {
      var first, rest := start + skip, data[skip..];
      assert first + |rest| == start + |data| && rest == output[first..first + |rest|];
      AbsorbSliceFrom(output, base, r, first, rest);
    }
  }

  lemma JoinSlices(s: seq<byte>, a: nat, b: nat, c: nat)
    requires a <= b <= c <= |s|
    ensures s[a..b] + s[b..c] == s[a..c]
  {
  }

  lemma AbsorbSliceFrom(output: seq<byte>, base: nat, r: nat, start: nat, data: seq<byte>)
    requires base <= start <= r <= |output| && start + |data| <= |output| && data == output[start..start + |data|]
    ensures AbsorbFrom(Track(base, output[base..r]), start, data) ==
      Absorbed(Track(base, output[base..Max(r, start + |data|)]), 0, None)
  {
    if start == r {
      JoinSlices(output, base, r, r + |data|);
    } else {
      OverlapSlice(output, base, r, start, data, if r - start < |data| then r - start else |data|);
    }
  }

  /** The part that is known agrees, and the part that is not goes on from it. */
  lemma OverlapSlice(output: seq<byte>, base: nat, r: nat, start: nat, data: seq<byte>, n: nat)
    requires base <= start < r <= |output| && start + |data| <= |output| && data == output[start..start + |data|]
    requires n == if r - start < |data| then r - start else |data|
    ensures output[base..r][start - base..start - base + n] == data[..n]
    ensures output[base..r] + data[n..] == output[base..Max(r, start + |data|)]
  {
    SliceSlice(output, base, r, start - base, start - base + n);
    SliceSlice(output, start, start + |data|, 0, n);
    if n == |data| {
      assert output[base..r] + [] == output[base..r];
    } else {
      SliceSlice(output, start, start + |data|, n, |data|);
      assert data[n..] == data[n..|data|];
      JoinSlices(output, base, r, start + |data|);
    }
  }

  /** The stream holds the output from where it was opened to where its events reach. */
  ghost predicate Holds(s: State, events: seq<Event>, k: Key, output: seq<byte>) {
    if k in s.tracks then
      var base, r := s.tracks[k].base, Reach(events, k);
      OpenedAt(events, k) == Some(base) && base <= r <= |output| && s.tracks[k].bytes == output[base..r]
    else OpenedAt(events, k).None? && Reach(events, k) == 0
  }

  /** The stream is the output as far as it is known, and nothing has been reported about it. */
  ghost predicate Sound(s: State, events: seq<Event>, k: Key, output: seq<byte>) {
    Holds(s, events, k, output) && NoProblem(s, k)
  }

  lemma TruthfulStep(events: seq<Event>, e: Event, k: Key, output: seq<byte>)
    requires Truthful(events + [e], k, output)
    ensures Truthful(events, k, output) && (IsOf(e, k) ==> IsPieceOf(e, output))
  {
    assert e in events + [e] && forall x :: x in events ==> x in events + [e];
  }

  lemma {:induction false} UngappedStreamIsOutput(events: seq<Event>, k: Key, output: seq<byte>)
    requires Truthful(events, k, output) && TotalGaps(events, k) == 0
    ensures Sound(Replay(events), events, k, output)
  {
    if events != [] {
      var init, e := events[..|events| - 1], events[|events| - 1];
      assert events == init + [e];
      TruthfulStep(init, e, k, output);
      UngappedStreamIsOutput(init, k, output);
      if IsOf(e, k) {
        UngappedStep(Replay(init), init, e, k, output);
      } else {
        OtherStep(Replay(init), init, e, k, output);
      }
    }
  }

  /** One truthful event of the stream that leaves no gap. */
  lemma UngappedStep(s: State, events: seq<Event>, e: Event, k: Key, output: seq<byte>)
    requires IsOf(e, k) && Sound(s, events, k, output) && IsPieceOf(e, output) && GapOf(s, e, k) == 0
    ensures Sound(Step(s, e), events + [e], k, output)
  {
    var t, r := TrackFor(s, e), ReachBefore(events, k, e);
    var base, now := t.base, Max(r, e.sequence + |e.data|);
    TrackIsOutput(s, events, e, k, output);
    AbsorbedLength(t, e.sequence, e.data);
    AbsorbSlice(output, base, r, e.sequence, e.data);
    CleanStep(s, e, k, Track(base, output[base..now]));
    AppendedEvent(events, e, k);
    SoundAgain(Step(s, e), events + [e], k, output, base, now);
  }

  lemma TrackIsOutput(s: State, events: seq<Event>, e: Event, k: Key, output: seq<byte>)
    requires IsOf(e, k) && Sound(s, events, k, output) && IsPieceOf(e, output)
    ensures var t, r := TrackFor(s, e), ReachBefore(events, k, e);
      && t.base <= r <= |output| && t == Track(t.base, output[t.base..r])
      && t.base == if OpenedAt(events, k).None? then FirstOffset(e) else OpenedAt(events, k).value
  {
  }

  lemma CleanStep(s: State, e: Event, k: Key, now: Track)
    requires IsOf(e, k) && NoProblem(s, k) && Absorb(TrackFor(s, e), e.sequence, e.data) == Absorbed(now, 0, None)
    ensures k in Step(s, e).tracks && Step(s, e).tracks[k] == now && NoProblem(Step(s, e), k)
  {
    assert Step(s, e).problems == s.problems;
  }

  lemma AppendedEvent(events: seq<Event>, e: Event, k: Key)
    requires IsOf(e, k)
    ensures Reach(events + [e], k) == Max(ReachBefore(events, k, e), e.sequence + |e.data|)
    ensures OpenedAt(events + [e], k) == if OpenedAt(events, k).None? then Some(FirstOffset(e)) else OpenedAt(events, k)
  {
    assert (events + [e])[..|events|] == events;
  }

  lemma SoundAgain(s: State, events: seq<Event>, k: Key, output: seq<byte>, base: nat, r: nat)
    requires base <= r <= |output| && k in s.tracks && s.tracks[k] == Track(base, output[base..r]) && NoProblem(s, k)
    requires Reach(events, k) == r && OpenedAt(events, k) == Some(base)
    ensures Sound(s, events, k, output)
  {
  }

  /** Events of other streams leave this one alone. */
  lemma OtherStep(s: State, events: seq<Event>, e: Event, k: Key, output: seq<byte>)
    requires !IsOf(e, k) && Sound(s, events, k, output)
    ensures Sound(Step(s, e), events + [e], k, output)
  {
    assert (events + [e])[..|events|] == events;
  }

  /**
   * With nothing missing, replays and overlaps included, a stream is the output from where it was
   * opened as far as its events reach, without any error: the STDOUT of a run from offset 0, the
   * diagnostics of a boot from the first offset seen.
   */
  lemma GaplessStreamIsOutput(events: seq<Event>, k: Key, output: seq<byte>)
    requires Truthful(events, k, output) && NothingMissing(events, k)
    ensures Holds(Replay(events), events, k, output) && NoProblem(Replay(events), k)
  {
    GapsAreMissingBytes(events, k);
    UngappedStreamIsOutput(events, k, output);
  }

  lemma {:induction false} StdoutOpensAtZero(events: seq<Event>, run: int)
    ensures OpenedAt(events, Key(Stdout, run)).Some? ==> OpenedAt(events, Key(Stdout, run)) == Some(0)
  {
    if events != [] {
      StdoutOpensAtZero(events[..|events| - 1], run);
    }
  }

  lemma {:induction false} UnreportedDrops(events: seq<Event>, k: Key)
    requires forall e :: e in Replay(events).dropped && e.Dropped? ==> DroppedKey(e) != k
    ensures TotalDrops(events, k) == 0
  {
    if events != [] {
      var init, e := events[..|events| - 1], events[|events| - 1];
      assert Replay(init).dropped <= Replay(events).dropped;
      forall x | x in Replay(init).dropped ensures x in Replay(events).dropped {
        var i :| 0 <= i < |Replay(init).dropped| && Replay(init).dropped[i] == x;
        assert Replay(events).dropped[i] == x;
      }
      UnreportedDrops(init, k);
      if e.Dropped? {
        assert e == Replay(events).dropped[|Replay(events).dropped| - 1];
      }
    }
  }

  /** A trace that `assert_clean_output` accepts shows the output of its run itself, from its first byte. */
  lemma CleanTraceIsOutput(events: seq<Event>, run: int, output: seq<byte>)
    requires Truthful(events, Key(Stdout, run), output) && Clean(Replay(events), run)
    ensures var r := Reach(events, Key(Stdout, run)); r <= |output| && StdoutOf(Replay(events), run) == output[..r]
    ensures NothingMissing(events, Key(Stdout, run))
  {
    var k := Key(Stdout, run);
    UnreportedDrops(events, k);
    GapsAreMissingBytes(events, k);
    GapsWithinDrops(events, k);
    UngappedStreamIsOutput(events, k, output);
    StdoutOpensAtZero(events, run);
  }

  /** For a truthful stream without reported drops, sequence errors on it mean exactly that bytes are missing. */
  lemma ErrorsMeanMissingBytes(events: seq<Event>, k: Key, output: seq<byte>)
    requires Truthful(events, k, output)
    requires forall e :: e in Replay(events).dropped && e.Dropped? ==> DroppedKey(e) != k
    ensures NoProblem(Replay(events), k) <==> NothingMissing(events, k)
  {
    UnreportedDrops(events, k);
    GapsAreMissingBytes(events, k);
    if NoProblem(Replay(events), k) {
      GapsWithinDrops(events, k);
    } else if NothingMissing(events, k) {
      UngappedStreamIsOutput(events, k, output);
    }
  }

  // ---------------------------------------------------------------- what is reported, whatever the events say

  /** The event says at offset `x` something else than what is stored there. */
  predicate ConflictAt(t: Track, start: nat, data: seq<byte>, x: nat) {
    start <= x < start + |data| && t.base <= x < End(t) && data[x - start] != t.bytes[x - t.base]
  }

  ghost predicate Conflict(t: Track, start: nat, data: seq<byte>) { exists x: nat :: ConflictAt(t, start, data, x) }

  /** The comparison finds a conflict exactly when there is one. */
  lemma MismatchIsConflict(t: Track, start: nat, data: seq<byte>)
    ensures Absorb(t, start, data).mismatch == if Conflict(t, start, data) then Some(Max(start, t.base)) else None
  {
    var skip := Skipped(t.base, start, data);
    var first, rest := start + skip, data[skip..];
    ConflictBehind(t, start, data, skip);
    if start < t.base && skip == |data| {
      NothingToCompare(t, first, rest);
    } else {
      assert first == Max(start, t.base);
      FirstConflict(t, first, rest);
    }
  }

  /** Bytes before the base conflict with nothing. */
  lemma ConflictBehind(t: Track, start: nat, data: seq<byte>, skip: nat)
    requires skip == Skipped(t.base, start, data)
    ensures Conflict(t, start, data) <==> Conflict(t, start + skip, data[skip..])
  {
    var first, rest := start + skip, data[skip..];
    if x: nat :| ConflictAt(t, start, data, x) {
      assert ConflictAt(t, first, rest, x);
    }
    if x: nat :| ConflictAt(t, first, rest, x) {
      assert ConflictAt(t, start, data, x);
    }
  }

  lemma NothingToCompare(t: Track, start: nat, data: seq<byte>)
    requires data == [] || start >= End(t)
    ensures !Conflict(t, start, data)
  {
  }

  lemma FirstConflict(t: Track, start: nat, data: seq<byte>)
    requires t.base <= start
    ensures AbsorbFrom(t, start, data).mismatch == if Conflict(t, start, data) then Some(start) else None
  {
    if start >= End(t) {
      NothingToCompare(t, start, data);
    } else {
      ComparedRange(t, start, data);
    }
  }

  lemma ComparedRange(t: Track, start: nat, data: seq<byte>)
    requires t.base <= start < End(t)
    ensures AbsorbFrom(t, start, data).mismatch == if Conflict(t, start, data) then Some(start) else None
  {
    var n := if End(t) - start < |data| then End(t) - start else |data|;
    var at := start - t.base;
    var stored, said := t.bytes[at..at + n], data[..n];
    if x: nat :| ConflictAt(t, start, data, x) {
      assert stored[x - start] != said[x - start];
    } else {
      forall i | 0 <= i < n ensures stored[i] == said[i] {
        assert !ConflictAt(t, start, data, start + i);
      }
    }
  }

  /** The event conflicts with what is stored, and this is the problem that says so. */
  ghost predicate Contradicts(s: State, e: Event, p: Problem) {
    && e.Output? && OutputKey(e) in s.tracks
    && Conflict(s.tracks[OutputKey(e)], e.sequence, e.data)
    && p == ReplayMismatch(e.run, e.stream, Max(e.sequence, s.tracks[OutputKey(e)].base))
  }

  /** What drops pay for: their sum, less every gap so far, never below nothing. */
  function Credit(events: seq<Event>, k: Key): nat
    decreases |events|, 0
  {
    if events == [] then 0
    else
      var init, e := events[..|events| - 1], events[|events| - 1];
      if e.Dropped? && DroppedKey(e) == k then Credit(init, k) + e.count
      else if IsOf(e, k) then
        var credit, gap := CreditBefore(init, k, e), Missing(init, e);
        if gap > credit then 0 else credit - gap
      else Credit(init, k)
  }

  /** A first diagnostic event finds no credit. */
  function CreditBefore(events: seq<Event>, k: Key, e: Event): nat
    requires e.Output?
    decreases |events|, 1
  {
    if e.stream.Stderr? && OpenedAt(events, k).None? then 0 else Credit(events, k)
  }

  /** How many bytes the event leaves out. */
  function Missing(events: seq<Event>, e: Event): nat
    requires e.Output?
  {
    var reach := ReachBefore(events, OutputKey(e), e);
    if e.sequence > reach then e.sequence - reach else 0
  }

  predicate LeavesGap(events: seq<Event>, e: Event, p: Problem) {
    && e.Output?
    && Missing(events, e) > CreditBefore(events, OutputKey(e), e)
    && p == UnexplainedGap(e.run, e.stream, Missing(events, e))
  }

  lemma AbsorbedGap(t: Track, start: nat, data: seq<byte>)
    ensures Absorb(t, start, data).gap == if start > End(t) then start - End(t) else 0
  {
  }

  lemma GapIsMissing(events: seq<Event>, e: Event)
    requires e.Output?
    ensures Absorb(TrackFor(Replay(events), e), e.sequence, e.data).gap == Missing(events, e)
  {
    StreamReaches(events, OutputKey(e));
    AbsorbedGap(TrackFor(Replay(events), e), e.sequence, e.data);
  }

  lemma {:induction false} PendingIsCredit(events: seq<Event>, k: Key)
    ensures Pending(Replay(events), k) == Credit(events, k)
  {
    if events != [] {
      var init, e := events[..|events| - 1], events[|events| - 1];
      PendingIsCredit(init, k);
      if IsOf(e, k) {
        CreditAtOpening(init, e);
        GapIsMissing(init, e);
      }
    }
  }

  lemma CreditAtOpening(events: seq<Event>, e: Event)
    requires e.Output? && Pending(Replay(events), OutputKey(e)) == Credit(events, OutputKey(e))
    ensures Pending(Opening(Replay(events), e), OutputKey(e)) == CreditBefore(events, OutputKey(e), e)
  {
    StreamReaches(events, OutputKey(e));
  }

  /** Event `i` is reported as the problem. */
  ghost predicate Reported(events: seq<Event>, i: nat, p: Problem)
    requires i < |events|
  {
    Contradicts(Replay(events[..i]), events[i], p) || LeavesGap(events[..i], events[i], p)
  }

  lemma StepReports(events: seq<Event>, e: Event, p: Problem)
    ensures p in Step(Replay(events), e).problems <==>
      p in Replay(events).problems || Contradicts(Replay(events), e, p) || LeavesGap(events, e, p)
  {
    if e.Output? {
      var s, t := Replay(events), TrackFor(Replay(events), e);
      PendingIsCredit(events, OutputKey(e));
      CreditAtOpening(events, e);
      GapIsMissing(events, e);
      MismatchIsConflict(t, e.sequence, e.data);
      if OutputKey(e) !in s.tracks {
        assert forall x: nat :: !ConflictAt(t, e.sequence, e.data, x);
      }
    }
  }

  /** One of the first `n` events is reported as the problem. */
  ghost predicate AnyReported(events: seq<Event>, n: nat, p: Problem)
    requires n <= |events|
  {
    exists i: nat :: i < n && Reported(events, i, p)
  }

  /**
   * With nothing assumed about the events, a trace reports a problem exactly when some event causes
   * it: by carrying, at an offset stored before it, a byte that differs from the stored one, or by
   * leaving out more bytes than the drops reported before it pay for.
   */
  lemma {:induction false} ProblemsExactly(events: seq<Event>, p: Problem)
    ensures p in Replay(events).problems <==> AnyReported(events, |events|, p)
  {
    if events != [] {
      var n := |events| - 1;
      ProblemsExactly(events[..n], p);
      StepReports(events[..n], events[n], p);
      OneMoreReported(events, n, p);
    }
  }

  lemma OneMoreReported(events: seq<Event>, n: nat, p: Problem)
    requires |events| == n + 1
    ensures AnyReported(events, n + 1, p) <==> AnyReported(events[..n], n, p) || Reported(events, n, p)
  {
    forall i: nat | i < n ensures Reported(events[..n], i, p) <==> Reported(events, i, p) {
      assert events[..n][i] == events[i] && events[..n][..i] == events[..i];
    }
    if i: nat :| i < n && Reported(events[..n], i, p) {
      assert Reported(events, i, p);
    }
  }

  lemma {:induction false} DroppedExactly(events: seq<Event>, e: Event)
    ensures e in Replay(events).dropped <==> e in events && e.Dropped?
  {
    if events != [] {
      DroppedExactly(events[..|events| - 1], e);
      assert events == events[..|events| - 1] + [events[|events| - 1]];
    }
  }

  /** The event concerns the run and speaks against a clean output of it. */
  ghost predicate Spoils(events: seq<Event>, i: nat, run: int)
    requires i < |events|
  {
    var e := events[i];
    || (e.Dropped? && e.run == run)
    || (e.Output? && e.run == run && exists p :: Reported(events, i, p))
  }

  /** The output of a run is accepted exactly when none of its events reports drops, contradicts or leaves an unpaid gap. */
  lemma CleanExactly(events: seq<Event>, run: int)
    ensures Clean(Replay(events), run) <==> forall i: nat :: i < |events| ==> !Spoils(events, i, run)
  {
    var s := Replay(events);
    if i: nat :| i < |events| && Spoils(events, i, run) {
      if events[i].Dropped? {
        DroppedExactly(events, events[i]);
      } else {
        var p :| Reported(events, i, p);
        ProblemsExactly(events, p);
        assert AnyReported(events, |events|, p) && p.run == run;
      }
    } else {
      forall p | p in s.problems ensures p.run != run {
        ProblemsExactly(events, p);
        var i: nat :| i < |events| && Reported(events, i, p);
        assert !Spoils(events, i, run);
      }
      forall e | e in s.dropped && e.Dropped? ensures e.run != run {
        DroppedExactly(events, e);
        var i :| 0 <= i < |events| && events[i] == e;
        assert !Spoils(events, i, run);
      }
    }
  }

  /** In particular a run in which a replay contradicts a stored byte is refused. */
  lemma ConflictIsRefused(events: seq<Event>, i: nat, x: nat)
    requires i < |events| && events[i].Output?
    requires var e, s := events[i], Replay(events[..i]);
      OutputKey(e) in s.tracks && ConflictAt(s.tracks[OutputKey(e)], e.sequence, e.data, x)
    ensures !Clean(Replay(events), events[i].run)
  {
    var e, t := events[i], Replay(events[..i]).tracks[OutputKey(events[i])];
    var p := ReplayMismatch(e.run, e.stream, Max(e.sequence, t.base));
    assert Reported(events, i, p);
    assert Spoils(events, i, e.run);
    CleanExactly(events, e.run);
  }

  /** What an event adds: its own bytes, behind zeros where it leaves some out. */
  lemma StepStores(s: State, e: Event, x: nat)
    requires e.Output? && End(TrackFor(s, e)) <= x < End(Step(s, e).tracks[OutputKey(e)])
    ensures e.sequence <= x ==> x - e.sequence < |e.data|
    ensures var t' := Step(s, e).tracks[OutputKey(e)];
      t'.base == TrackFor(s, e).base && t'.bytes[x - t'.base] == if x < e.sequence then 0 else e.data[x - e.sequence]
  {
    var t, t', gap := TrackFor(s, e), Step(s, e).tracks[OutputKey(e)], Missed(TrackFor(s, e), e.sequence);
    AbsorbedLength(t, e.sequence, e.data);
    AbsorbedBytes(t, e.sequence, e.data, x);
  }

  function Missed(t: Track, start: nat): nat { if start > End(t) then start - End(t) else 0 }

  lemma AbsorbedBytes(t: Track, start: nat, data: seq<byte>, x: nat)
    requires End(t) <= x < End(Absorb(t, start, data).track)
    ensures Absorb(t, start, data).track.base == t.base && x < start + |data|
    ensures Absorb(t, start, data).track.bytes[x - t.base] == if x < start then 0 else data[x - start]
  {
  }

  /** A stored byte is what the first event to reach its offset said, or zero where that event left it out. */
  lemma FirstEventDecides(events: seq<Event>, i: nat, k: Key, x: nat)
    requires i < |events| && IsOf(events[i], k) && ReachBefore(events[..i], k, events[i]) <= x < Reach(events[..i + 1], k)
    ensures k in Replay(events).tracks
    ensures var t, e := Replay(events).tracks[k], events[i];
      && t.base <= x < End(t) && (e.sequence <= x ==> x - e.sequence < |e.data|)
      && t.bytes[x - t.base] == if x < e.sequence then 0 else e.data[x - e.sequence]
  {
    ReplayNext(events, i);
    StreamReaches(events[..i], k);
    StreamReaches(events[..i + 1], k);
    StepStores(Replay(events[..i]), events[i], x);
    RunKeepsBytes(events, i + 1, k);
  }
}
