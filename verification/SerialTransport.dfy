/**
 * The receive side of a serial session (transport.py): frames are taken off the front of a byte
 * buffer that grows by whatever chunk the port returns. The port is a list of chunks; an empty
 * chunk is a read that timed out, and the end of the list is the deadline.
 */
module SerialTransport {
  import opened Bytes
  import opened DlpFrames

  type Chunks = seq<seq<byte>>

  function Joined(chunks: Chunks): seq<byte> {
    if chunks == [] then [] else chunks[0] + Joined(chunks[1..])
  }

  /** What `iter_frames` finds in the bytes, all of them at once. */
  function AllFrames(b: seq<byte>): seq<Frame> { FramesOf(Scan(b, 0)) }

  /** The hit that `read_frames` takes. */
  predicate First(b: seq<byte>, h: Hit) { Scan(b, 0) != [] && Scan(b, 0)[0] == h }

  // ---------------------------------------------------------------- taking one frame

  lemma FirstEnd(b: seq<byte>, h: Hit)
    requires First(b, h)
    ensures 0 < h.end <= |b|
  {
    HitsAreFrames(b, 0);
    assert h in Scan(b, 0);
  }

  /** After the first hit the scan goes on where that hit ends. */
  lemma {:induction false} TailOfScan(b: seq<byte>, index: nat)
    requires Scan(b, index) != []
    ensures Scan(b, index)[1..] == Scan(b, Scan(b, index)[0].end)
    decreases |b| - index
  {
    var p := Candidate(b, index).value;
    if !FrameAt(b, p) {
      TailOfScan(b, After(b, p));
      assert [] + Scan(b, After(b, p)) == Scan(b, After(b, p));
    }
  }

  lemma SplitFrames(hits: seq<Hit>, tail: seq<Hit>)
    requires hits != [] && hits[1..] == tail
    ensures FramesOf(hits) == [hits[0].frame] + FramesOf(tail)
  {
  }

  /** Taking the first frame off the buffer loses none of the others. */
  lemma FirstTaken(b: seq<byte>, h: Hit, rest: seq<byte>)
    requires First(b, h) && h.end <= |b| && b[h.end..] == rest
    ensures AllFrames(b) == [h.frame] + AllFrames(rest)
  {
    TailOfScan(b, 0);
    SplitFrames(Scan(b, 0), Scan(b, h.end));
    ScanShifted(b, h.end, rest, 0);
    assert h.end + 0 == h.end;
  }

  lemma FirstStays(b: seq<byte>, h: Hit, later: seq<byte>)
    requires First(b, h)
    ensures First(b + later, h)
  {
    ScanOfPrefix(b, later, 0);
  }

  lemma TakeNow(buffer: seq<byte>, h: Hit, later: seq<byte>)
    requires First(buffer, h) && h.end <= |buffer|
    ensures AllFrames(buffer + later) == [h.frame] + AllFrames(buffer[h.end..] + later)
  {
    FirstStays(buffer, h, later);
    assert (buffer + later)[h.end..] == buffer[h.end..] + later;
    FirstTaken(buffer + later, h, buffer[h.end..] + later);
  }

  lemma Taken(buffer: seq<byte>, h: Hit, rest: Chunks, all: seq<byte>)
    requires Scan(buffer, 0) != [] && Scan(buffer, 0)[0] == h && buffer + Joined(rest) == all
    ensures 0 < h.end <= |buffer|
    ensures AllFrames(all) == [h.frame] + AllFrames(buffer[h.end..] + Joined(rest))
  {
    FirstEnd(buffer, h);
    TakeNow(buffer, h, Joined(rest));
  }

  lemma NoneLeft(buffer: seq<byte>, all: seq<byte>)
    requires Scan(buffer, 0) == [] && buffer + Joined([]) == all
    ensures AllFrames(buffer) == AllFrames(all) == []
  {
    assert all == buffer;
  }

  lemma NextChunk(buffer: seq<byte>, chunks: Chunks)
    requires chunks != []
    ensures buffer + chunks[0] + Joined(chunks[1..]) == buffer + Joined(chunks)
  {
  }

  lemma Regroup(a: seq<Frame>, f: Frame, b: seq<Frame>)
    ensures a + ([f] + b) == a + [f] + b
  {
  }

  // ---------------------------------------------------------------- when a collection stops

  type Stop = Option<seq<Frame> -> bool>

  predicate Stopped(stop: Stop, collected: seq<Frame>) { stop.Some? && stop.value(collected) }

  /** `collected` is the shortest non-empty start of `all` that the predicate accepts, or all of it. */
  ghost predicate Collects(stop: Stop, all: seq<Frame>, collected: seq<Frame>) {
    && collected <= all
    && (collected == all || (collected != [] && Stopped(stop, collected)))
    && forall k :: 0 < k < |collected| ==> !Stopped(stop, all[..k])
  }

  /** The collection depends on the frames alone, so not on how their bytes were cut into chunks. */
  lemma CollectionIsUnique(stop: Stop, all: seq<Frame>, c: seq<Frame>, d: seq<Frame>)
    requires Collects(stop, all, c) && Collects(stop, all, d)
    ensures c == d
  {
    assert c == all[..|c|] && d == all[..|d|];
  }

  lemma CollectStep(all: seq<Frame>, c: seq<Frame>, f: Frame, more: seq<Frame>)
    requires all == c + [f] + more
    ensures all[..|c| + 1] == c + [f]
  {
  }

  // ---------------------------------------------------------------- the transport

  class SerialTransport {
    var buffer: seq<byte>
    /** What went out of the port. */
    var written: seq<byte>

    constructor ()
      ensures buffer == [] && written == []
    {
      buffer, written := [], [];
    }

    /**
     * `read_frames`, resumed once: the next frame, and the chunks it left in the port. The frames
     * of everything that is held or still to come are this one and those of what is then left.
     */
    method NextFrame(chunks: Chunks) returns (r: Option<Frame>, rest: Chunks)
      modifies this`buffer
      ensures r.Some? ==> AllFrames(old(buffer) + Joined(chunks)) == [r.value] + AllFrames(buffer + Joined(rest))
      ensures r.None? ==> rest == [] && AllFrames(buffer) == [] && AllFrames(old(buffer) + Joined(chunks)) == []
      ensures |rest| <= |chunks| && rest == chunks[|chunks| - |rest|..]
    {
      ghost var all := buffer + Joined(chunks);
      rest := chunks;
      while true
        invariant |rest| <= |chunks| && rest == chunks[|chunks| - |rest|..]
        invariant buffer + Joined(rest) == all
        decreases |rest|
      {
        var hits := IterFrames(buffer);
        if hits != [] {
          var hit := hits[0];
          Taken(buffer, hit, rest, all);
          buffer := buffer[hit.end..];
          return Some(hit.frame), rest;
        }
        if rest == [] {
          NoneLeft(buffer, all);
          return None, rest;
        }
        NextChunk(buffer, rest);
        buffer := buffer + rest[0];
        rest := rest[1..];
      }
    }

    /** `read_frames` up to the deadline: whatever the chunks, the frames of the whole stream. */
    method ReadFrames(chunks: Chunks) returns (frames: seq<Frame>)
      modifies this`buffer
      ensures frames == AllFrames(old(buffer) + Joined(chunks))
      ensures AllFrames(buffer) == []
    {
      var rest: Chunks;
      frames, rest := Collect(chunks, None);
    }

    /** The collecting loop of `exchange`. */
    method Collect(chunks: Chunks, stop: Stop) returns (collected: seq<Frame>, rest: Chunks)
      modifies this`buffer
      ensures Collects(stop, AllFrames(old(buffer) + Joined(chunks)), collected)
      ensures AllFrames(old(buffer) + Joined(chunks)) == collected + AllFrames(buffer + Joined(rest))
      ensures Stopped(stop, collected) || (rest == [] && AllFrames(buffer) == [])
    {
      ghost var all := AllFrames(buffer + Joined(chunks));
      collected, rest := [], chunks;
      while true
        invariant all == collected + AllFrames(buffer + Joined(rest))
        invariant |collected| <= |all| && forall k :: 0 < k <= |collected| ==> !Stopped(stop, all[..k])
        decreases |all| - |collected|
      {
        var next: Option<Frame>;
        next, rest := NextFrame(rest);
        if next.None? {
          assert collected + [] == collected && buffer + Joined(rest) == buffer;
          return;
        }
        Regroup(collected, next.value, AllFrames(buffer + Joined(rest)));
        CollectStep(all, collected, next.value, AllFrames(buffer + Joined(rest)));
        collected := collected + [next.value];
        if stop.Some? && stop.value(collected) {
          return;
        }
      }
    }

    /** `exchange`: nothing is sent or read for data that does not fit a frame. */
    method Exchange(command: byte, data: seq<byte>, address: byte, chunks: Chunks, stop: Stop)
      returns (r: Option<seq<Frame>>, rest: Chunks)
      modifies this
      ensures r.Some? <==> |data| <= MAX_DATA_LENGTH
      ensures r.None? ==> rest == chunks && buffer == old(buffer) && written == old(written)
      ensures r.Some? ==> written == old(written) + Encode(Frame(command, data, address)).value
      ensures r.Some? ==> Collects(stop, AllFrames(old(buffer) + Joined(chunks)), r.value)
      ensures r.Some? ==> AllFrames(old(buffer) + Joined(chunks)) == r.value + AllFrames(buffer + Joined(rest))
    {
      var payload := Encode(Frame(command, data, address));
      if payload.None? {
        return None, chunks;
      }
      written := written + payload.value;
      var collected: seq<Frame>;
      collected, rest := Collect(chunks, stop);
      r := Some(collected);
    }
  }
}
