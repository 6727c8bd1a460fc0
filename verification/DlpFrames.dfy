/**
 * The 0x55 0xAA frames of dlp_proto: an encoder and a resynchronising scanner for a wire format
 * with no escaping and no end marker (frames.py).
 */
module DlpFrames {
  import opened Bytes

  const FRAME_OVERHEAD: nat := 6

  const MAX_DATA_LENGTH: nat := 0xFF

  datatype Frame = Frame(command: byte, data: seq<byte>, address: byte)

  function Sum(s: seq<byte>): nat {
    if s == [] then 0 else Sum(s[..|s| - 1]) + s[|s| - 1]
  }

  lemma {:induction false} SumConcat(a: seq<byte>, b: seq<byte>)
    ensures Sum(a + b) == Sum(a) + Sum(b)
  {
    if b == [] {
      assert a + b == a;
    } else {
      assert (a + b)[..|a + b| - 1] == a + b[..|b| - 1];
      SumConcat(a, b[..|b| - 1]);
    }
  }

  lemma SumOne(x: byte)
    ensures Sum([x]) == x
  {
    assert [x][..0] == [];
  }

  // ---------------------------------------------------------------- encoding

  function Body(f: Frame): seq<byte>
    requires |f.data| <= MAX_DATA_LENGTH
  {
    [0x55, 0xAA, f.address, |f.data|, f.command] + f.data
  }

  /** `Frame.encode`: none for data that the one-byte length field cannot describe. */
  function Encode(f: Frame): Option<seq<byte>> {
    if |f.data| > MAX_DATA_LENGTH then None else Some(Body(f) + [Sum(Body(f)) % 0x100])
  }

  /** What travels: header, address, length, command, data and a last byte that completes the sum of the others. */
  lemma FrameLayout(f: Frame)
    ensures Encode(f).Some? <==> |f.data| <= 255
    ensures Encode(f).Some? ==>
      var e, n := Encode(f).value, |f.data|;
      && |e| == n + 6 && e[0] == 0x55 && e[1] == 0xAA && e[2] == f.address && e[3] == n && e[4] == f.command
      && e[5..5 + n] == f.data
      && exists k: nat :: 0x55 + 0xAA + f.address + n + f.command + Sum(f.data) == 0x100 * k + e[5 + n]
  {
    if |f.data| <= 255 {
      var head, n := [0x55, 0xAA, f.address, |f.data|, f.command], |f.data|;
      SumConcat(head, f.data);
      SumFive(head);
      var total := Sum(Body(f));
      assert total == 0x100 * (total / 0x100) + total % 0x100;
    }
  }

  lemma SumFive(s: seq<byte>)
    requires |s| == 5
    ensures var a: int, b: int, c: int, d: int, e: int := s[0], s[1], s[2], s[3], s[4]; Sum(s) == a + b + c + d + e
  {
    assert s[..4][..3] == s[..3] && s[..3][..2] == s[..2] && s[..2][..1] == s[..1] && s[..1][..0] == [];
    assert Sum(s[..1]) == s[0];
    assert Sum(s[..2]) == Sum(s[..1]) + s[1];
    assert Sum(s[..3]) == Sum(s[..2]) + s[2];
    assert Sum(s[..4]) == Sum(s[..3]) + s[3];
  }

  // ---------------------------------------------------------------- what a frame in a buffer is

  predicate HeaderAt(b: seq<byte>, p: nat) { p + 2 <= |b| && b[p] == 0x55 && b[p + 1] == 0xAA }

  /** Where the frame at `p` ends, if its length byte is there. */
  function EndAt(b: seq<byte>, p: nat): nat
    requires p + FRAME_OVERHEAD <= |b|
  {
    p + FRAME_OVERHEAD + b[p + 3]
  }

  /** Header and length are there, but the frame sticks out of the buffer. */
  predicate IncompleteAt(b: seq<byte>, p: nat) {
    HeaderAt(b, p) && (p + FRAME_OVERHEAD > |b| || EndAt(b, p) > |b|)
  }

  predicate CompleteAt(b: seq<byte>, p: nat) { HeaderAt(b, p) && !IncompleteAt(b, p) }

  /** The last byte is the low byte of the sum of all bytes before it. */
  predicate Sound(f: seq<byte>)
    requires f != []
  {
    f[|f| - 1] == Sum(f[..|f| - 1]) % 0x100
  }

  function Parse(f: seq<byte>): Frame
    requires |f| >= FRAME_OVERHEAD
  {
    Frame(f[4], f[5..|f| - 1], f[2])
  }

  function BytesAt(b: seq<byte>, p: nat): (f: seq<byte>)
    requires CompleteAt(b, p)
    ensures |f| >= FRAME_OVERHEAD
  {
    b[p..EndAt(b, p)]
  }

  /** A complete frame with the right checksum. */
  predicate FrameAt(b: seq<byte>, p: nat) { CompleteAt(b, p) && Sound(BytesAt(b, p)) }

  datatype Hit = Hit(frame: Frame, start: nat, end: nat)

  function HitAt(b: seq<byte>, p: nat): Hit
    requires FrameAt(b, p)
  {
    Hit(Parse(BytesAt(b, p)), p, EndAt(b, p))
  }

  // ---------------------------------------------------------------- scanning

  /** `buffer.find(HEADER, index)`. */
  function Find(b: seq<byte>, index: nat): (r: Option<nat>)
    ensures r.Some? ==> index <= r.value && HeaderAt(b, r.value) && forall p :: index <= p < r.value ==> !HeaderAt(b, p)
    ensures r.None? ==> forall p :: index <= p ==> !HeaderAt(b, p)
    decreases |b| - index
  {
    if index + 2 > |b| then None else if HeaderAt(b, index) then Some(index) else Find(b, index + 1)
  }

  /** Where the scan goes on after a complete candidate. */
  function After(b: seq<byte>, p: nat): (n: nat)
    requires CompleteAt(b, p)
    ensures p < n <= |b|
  {
    if FrameAt(b, p) then EndAt(b, p) else p + 1
  }

  function HitsAt(b: seq<byte>, p: nat): seq<Hit> { if FrameAt(b, p) then [HitAt(b, p)] else [] }

  /** The next candidate to be judged, if it is there in full. */
  function Candidate(b: seq<byte>, index: nat): (r: Option<nat>)
    ensures r.Some? ==> index <= r.value && CompleteAt(b, r.value) && Find(b, index) == r
  {
    var found := Find(b, index);
    if found.Some? && !IncompleteAt(b, found.value) then found else None
  }

  /** The hits from `index` on. */
  function Scan(b: seq<byte>, index: nat): seq<Hit>
    decreases |b| - index
  {
    match Candidate(b, index)
    case None => []
    case Some(p) => HitsAt(b, p) + Scan(b, After(b, p))
  }

  /** `iter_frames`, run to its end. */
  method IterFrames(buffer: seq<byte>) returns (hits: seq<Hit>)
    ensures hits == Scan(buffer, 0)
  {
    hits := [];
    var index, limit := 0, |buffer|;
    assert [] + Scan(buffer, 0) == Scan(buffer, 0);
    while index + FRAME_OVERHEAD <= limit
      invariant Scanned(buffer, index, hits)
      decreases limit - index
    {
      var found := Find(buffer, index);
      if found.None? || found.value + FRAME_OVERHEAD > limit {
        ScanEnds(buffer, index, hits);
        return;
      }
      var start := found.value;
      var end := start + FRAME_OVERHEAD + buffer[start + 3];
      if end > limit {
        ScanEnds(buffer, index, hits);
        return;
      }
      var body := buffer[start..end - 1];
      Judged(buffer, start, end, body);
      ScanStep(buffer, index, start, hits);
      if buffer[end - 1] != Sum(body) % 0x100 {
        assert hits + [] == hits;
        index := start + 1;
      } else {
        hits := hits + [Hit(Frame(buffer[start + 4], buffer[start + 5..end - 1], buffer[start + 2]), start, end)];
        index := end;
      }
    }
    ScanEnds(buffer, index, hits);
  }

  /** The hits so far and those from `index` on are all there are. */
  ghost predicate Scanned(b: seq<byte>, index: nat, hits: seq<Hit>) { hits + Scan(b, index) == Scan(b, 0) }

  lemma ScanEnds(b: seq<byte>, index: nat, hits: seq<Hit>)
    requires Scanned(b, index, hits) && Candidate(b, index).None?
    ensures hits == Scan(b, 0)
  {
    assert hits + [] == hits;
  }

  lemma ScanStep(b: seq<byte>, index: nat, p: nat, hits: seq<Hit>)
    requires Scanned(b, index, hits) && Candidate(b, index) == Some(p)
    ensures Scanned(b, After(b, p), hits + HitsAt(b, p))
  {
    var now, rest := HitsAt(b, p), Scan(b, After(b, p));
    assert hits + (now + rest) == hits + now + rest;
  }

  /** The comparison made on a candidate, and what is read out of it. */
  lemma Judged(b: seq<byte>, start: nat, end: nat, body: seq<byte>)
    requires CompleteAt(b, start) && end == EndAt(b, start) && body == b[start..end - 1]
    ensures var hit := Hit(Frame(b[start + 4], b[start + 5..end - 1], b[start + 2]), start, end);
      if b[end - 1] == Sum(body) % 0x100 then HitsAt(b, start) == [hit] && After(b, start) == end
      else HitsAt(b, start) == [] && After(b, start) == start + 1
  {
    var f := BytesAt(b, start);
    assert f[..|f| - 1] == body;
    assert f[5..|f| - 1] == b[start + 5..end - 1];
  }

  /** `decode_one`: the first frame and the offset just past it. */
  method DecodeOne(buffer: seq<byte>) returns (r: Option<(Frame, nat)>)
    ensures r == if Scan(buffer, 0) == [] then None else Some((Scan(buffer, 0)[0].frame, Scan(buffer, 0)[0].end))
  {
    var hits := IterFrames(buffer);
    return if hits == [] then None else Some((hits[0].frame, hits[0].end));
  }

  // ---------------------------------------------------------------- what the scanner yields

  /** Hits are valid frames of the buffer, in order, and do not overlap. */
  lemma {:induction false} HitsAreFrames(b: seq<byte>, index: nat)
    ensures forall h :: h in Scan(b, index) ==> FrameAt(b, h.start) && h == HitAt(b, h.start) && index <= h.start < h.end <= |b|
    ensures forall i, j :: 0 <= i < j < |Scan(b, index)| ==> Scan(b, index)[i].end <= Scan(b, index)[j].start
    decreases |b| - index
  {
    if Candidate(b, index).Some? {
      HitsAreFrames(b, After(b, Candidate(b, index).value));
    }
  }

  /** Where the scan gives up: at the first candidate that sticks out, or at the end of the buffer. */
  function Stop(b: seq<byte>, index: nat): (stop: nat)
    decreases |b| - index
  {
    match Candidate(b, index)
    case Some(p) => Stop(b, After(b, p))
    case None => if Find(b, index).Some? then Find(b, index).value else |b|
  }

  ghost predicate Covered(hits: seq<Hit>, p: nat) {
    exists h :: h in hits && h.start <= p < h.end
  }

  /** Every valid frame before the stopping point is a hit, or starts inside an earlier hit. */
  lemma {:induction false} ScanIsComplete(b: seq<byte>, index: nat, p: nat)
    requires index <= p < Stop(b, index) && FrameAt(b, p)
    ensures Covered(Scan(b, index), p)
    decreases |b| - index
  {
    var q := Find(b, index).value;
    var rest := Scan(b, After(b, q));
    if p < After(b, q) {
      assert HitAt(b, q) == Scan(b, index)[0];
    } else {
      ScanIsComplete(b, After(b, q), p);
      var h :| h in rest && h.start <= p < h.end;
      assert h in Scan(b, index);
    }
  }

  /** The scan stops early only at a candidate that more bytes may complete. */
  lemma {:induction false} StopsAtIncomplete(b: seq<byte>, index: nat)
    ensures Stop(b, index) < |b| ==> IncompleteAt(b, Stop(b, index)) && index <= Stop(b, index)
    decreases |b| - index
  {
    if Candidate(b, index).Some? {
      StopsAtIncomplete(b, After(b, Candidate(b, index).value));
    }
  }

  // ---------------------------------------------------------------- more bytes, other offsets

  lemma CompleteInPrefix(b: seq<byte>, x: seq<byte>, p: nat)
    requires CompleteAt(b, p)
    ensures CompleteAt(b + x, p) && EndAt(b + x, p) == EndAt(b, p) && BytesAt(b + x, p) == BytesAt(b, p)
  {
  }

  lemma FindInPrefix(b: seq<byte>, x: seq<byte>, index: nat)
    requires Find(b, index).Some?
    ensures Find(b + x, index) == Find(b, index)
  {
    var p := Find(b, index).value;
    assert HeaderAt(b + x, p);
    forall q | index <= q < p ensures !HeaderAt(b + x, q) {
      assert !HeaderAt(b, q);
    }
  }

  /** Bytes that arrive later never change or withdraw a frame already found. */
  lemma {:induction false} ScanOfPrefix(b: seq<byte>, x: seq<byte>, index: nat)
    ensures Scan(b, index) <= Scan(b + x, index)
    decreases |b| - index
  {
    if Candidate(b, index).Some? {
      var p := Candidate(b, index).value;
      FindInPrefix(b, x, index);
      CompleteInPrefix(b, x, p);
      ScanOfPrefix(b, x, After(b, p));
      assert Candidate(b + x, index) == Some(p) && After(b + x, p) == After(b, p) && HitsAt(b + x, p) == HitsAt(b, p);
    }
  }

  function FramesOf(hits: seq<Hit>): (frames: seq<Frame>)
    ensures |frames| == |hits|
    ensures forall i :: 0 <= i < |hits| ==> frames[i] == hits[i].frame
  {
    seq(|hits|, i requires 0 <= i < |hits| => hits[i].frame)
  }

  /** The same frames, wherever they start and end. */
  predicate SameFrames(a: seq<Hit>, b: seq<Hit>) { FramesOf(a) == FramesOf(b) }

  lemma FramesOfConcat(a: seq<Hit>, b: seq<Hit>)
    ensures FramesOf(a + b) == FramesOf(a) + FramesOf(b)
  {
  }

  lemma FirstFrames(b: seq<byte>, index: nat, p: nat)
    requires Candidate(b, index) == Some(p)
    ensures FramesOf(Scan(b, index)) == FramesOf(HitsAt(b, p)) + FramesOf(Scan(b, After(b, p)))
  {
    FramesOfConcat(HitsAt(b, p), Scan(b, After(b, p)));
  }

  lemma SameHeader(c: seq<byte>, n: nat, b: seq<byte>, p: nat)
    requires n <= |c| && c[n..] == b
    ensures HeaderAt(c, n + p) == HeaderAt(b, p)
  {
  }

  lemma SameComplete(c: seq<byte>, n: nat, b: seq<byte>, p: nat)
    requires n <= |c| && c[n..] == b
    ensures CompleteAt(c, n + p) == CompleteAt(b, p)
    ensures CompleteAt(b, p) ==> EndAt(c, n + p) == n + EndAt(b, p)
  {
  }

  lemma SameBytes(c: seq<byte>, n: nat, b: seq<byte>, p: nat)
    requires n <= |c| && c[n..] == b && CompleteAt(b, p) && CompleteAt(c, n + p)
    requires EndAt(c, n + p) == n + EndAt(b, p)
    ensures BytesAt(c, n + p) == BytesAt(b, p)
  {
    assert c[n..][p..EndAt(b, p)] == c[n + p..n + EndAt(b, p)];
  }

  lemma {:induction false} FindShifted(c: seq<byte>, n: nat, b: seq<byte>, index: nat)
    requires n <= |c| && c[n..] == b
    ensures Find(c, n + index) == if Find(b, index).None? then None else Some(n + Find(b, index).value)
    decreases |b| - index
  {
    SameHeader(c, n, b, index);
    if index + 2 <= |b| {
      FindShifted(c, n, b, index + 1);
    }
  }

  lemma CandidateShifted(c: seq<byte>, n: nat, b: seq<byte>, index: nat)
    requires n <= |c| && c[n..] == b
    ensures Candidate(c, n + index) == if Candidate(b, index).None? then None else Some(n + Candidate(b, index).value)
  {
    FindShifted(c, n, b, index);
    if Find(b, index).Some? {
      SameComplete(c, n, b, Find(b, index).value);
    }
  }

  /** The same bytes are the same frame wherever they are. */
  lemma SameFrame(c: seq<byte>, n: nat, b: seq<byte>, p: nat)
    requires n <= |c| && c[n..] == b && CompleteAt(b, p)
    ensures CompleteAt(c, n + p) && After(c, n + p) == n + After(b, p)
    ensures SameFrames(HitsAt(c, n + p), HitsAt(b, p))
  {
    SameComplete(c, n, b, p);
    SameBytes(c, n, b, p);
    assert FrameAt(c, n + p) == FrameAt(b, p);
  }

  /** Scans that find the same frame first and agree behind it agree. */
  lemma FirstFramesAgree(c: seq<byte>, i: nat, p: nat, after: nat, b: seq<byte>, j: nat, q: nat, next: nat)
    requires Candidate(c, i) == Some(p) && After(c, p) == after
    requires Candidate(b, j) == Some(q) && After(b, q) == next
    requires SameFrames(HitsAt(c, p), HitsAt(b, q)) && SameFrames(Scan(c, after), Scan(b, next))
    ensures SameFrames(Scan(c, i), Scan(b, j))
  {
    FirstFrames(c, i, p);
    FirstFrames(b, j, q);
  }

  /** Scanning from an offset is scanning what is left. */
  lemma {:induction false} ScanShifted(c: seq<byte>, n: nat, b: seq<byte>, index: nat)
    requires n <= |c| && c[n..] == b
    ensures SameFrames(Scan(c, n + index), Scan(b, index))
    decreases |b| - index
  {
    CandidateShifted(c, n, b, index);
    if Candidate(b, index).Some? {
      var p := Candidate(b, index).value;
      var next := After(b, p);
      SameFrame(c, n, b, p);
      ScanShifted(c, n, b, next);
      FirstFramesAgree(c, n + index, n + p, n + next, b, index, p, next);
    } else {
      NothingFound(c, n + index);
      NothingFound(b, index);
    }
  }

  lemma NothingFound(b: seq<byte>, index: nat)
    requires Candidate(b, index).None?
    ensures Scan(b, index) == []
  {
  }

  // ---------------------------------------------------------------- round trip

  /**
   * Noise in which the scanner finds no valid frame and no header whose frame is not all there. It may
   * hold headers, and complete candidates with a wrong checksum.
   */
  predicate Harmless(noise: seq<byte>) { Scan(noise, 0) == [] && Stop(noise, 0) == |noise| }

  lemma HeaderFreeIsHarmless(noise: seq<byte>)
    requires forall p: nat :: !HeaderAt(noise, p)
    ensures Harmless(noise)
  {
    assert Find(noise, 0).None?;
  }

  /** A frame that can be sent, and the line noise in front of it. */
  datatype Sent = Sent(noise: seq<byte>, frame: Frame)

  predicate Sendable(items: seq<Sent>) {
    forall i :: 0 <= i < |items| ==> Encode(items[i].frame).Some? && Harmless(items[i].noise)
  }

  /** What is on the line: noise, frame, noise, frame, ..., noise. */
  ghost function Line(items: seq<Sent>, last: seq<byte>): seq<byte>
    requires Sendable(items)
  {
    if items == [] then last else items[0].noise + Encode(items[0].frame).value + Line(items[1..], last)
  }

  lemma EncodedIsFrame(f: Frame, noise: seq<byte>, rest: seq<byte>, line: seq<byte>)
    requires Encode(f).Some? && line == noise + Encode(f).value + rest
    ensures CompleteAt(line, |noise|) && BytesAt(line, |noise|) == Encode(f).value
    ensures EndAt(line, |noise|) == |noise| + |Encode(f).value|
  {
    var e := Encode(f).value;
    assert forall k :: 0 <= k < |e| ==> line[|noise| + k] == e[k];
  }

  /** Encoding is undone by parsing, and carries its checksum. */
  lemma EncodeThenParse(f: Frame)
    requires Encode(f).Some?
    ensures |Encode(f).value| >= FRAME_OVERHEAD && Sound(Encode(f).value) && Parse(Encode(f).value) == f
  {
    var e := Encode(f).value;
    assert e[..|e| - 1] == Body(f);
    assert e[5..|e| - 1] == f.data;
  }

  /** The scan comes from `i` to `j` without a hit. */
  ghost predicate LeadsTo(b: seq<byte>, i: nat, j: nat) { Scan(b, i) == Scan(b, j) }

  /** From inside the noise, the scan comes to the frame behind it without a hit. */
  lemma {:induction false} PastNoise(noise: seq<byte>, x: seq<byte>, index: nat)
    requires index <= |noise| && Scan(noise, index) == [] && Stop(noise, index) == |noise|
    requires CompleteAt(noise + x, |noise|)
    ensures LeadsTo(noise + x, index, |noise|)
    decreases |noise| - index
  {
    if Candidate(noise, index).Some? {
      var p := Candidate(noise, index).value;
      WrongCandidate(noise, index, p);
      PastNoise(noise, x, p + 1);
      PastCandidate(noise, x, index, p, |noise|);
    } else {
      FindsFirstFrame(noise, x, index);
    }
  }

  lemma WrongCandidate(noise: seq<byte>, index: nat, p: nat)
    requires Scan(noise, index) == [] && Candidate(noise, index) == Some(p)
    ensures p + 1 <= |noise| && !FrameAt(noise, p)
    ensures Scan(noise, p + 1) == [] && Stop(noise, p + 1) == Stop(noise, index)
  {
  }

  lemma PastCandidate(noise: seq<byte>, x: seq<byte>, index: nat, p: nat, j: nat)
    requires Candidate(noise, index) == Some(p) && !FrameAt(noise, p) && LeadsTo(noise + x, p + 1, j)
    ensures LeadsTo(noise + x, index, j)
  {
    FindInPrefix(noise, x, index);
    CompleteInPrefix(noise, x, p);
    SkipsCandidate(noise + x, index, p);
  }

  lemma SkipsCandidate(b: seq<byte>, index: nat, p: nat)
    requires Candidate(b, index) == Some(p) && !FrameAt(b, p)
    ensures LeadsTo(b, index, p + 1)
  {
    assert [] + Scan(b, p + 1) == Scan(b, p + 1);
  }

  lemma FindsFirstFrame(noise: seq<byte>, x: seq<byte>, index: nat)
    requires index <= |noise| && Find(noise, index).None? && CompleteAt(noise + x, |noise|)
    ensures Find(noise + x, index) == Find(noise + x, |noise|) == Some(|noise|)
    ensures LeadsTo(noise + x, index, |noise|)
  {
    forall p | index <= p < |noise| ensures !HeaderAt(noise + x, p) {
      assert !HeaderAt(noise, p);
    }
  }

  /** The frame behind the noise is the next candidate, and it is right. */
  lemma SentIsJudged(f: Frame, noise: seq<byte>, rest: seq<byte>, line: seq<byte>)
    requires Encode(f).Some? && Harmless(noise) && line == noise + Encode(f).value + rest
    ensures var n := |noise|;
      && Scan(line, 0) == Scan(line, n) && Candidate(line, n) == Some(n)
      && FrameAt(line, n) && HitsAt(line, n) == [Hit(f, n, n + |Encode(f).value|)]
    ensures line[After(line, |noise|)..] == rest
  {
    EncodedIsFrame(f, noise, rest, line);
    EncodeThenParse(f);
    assert line == noise + (Encode(f).value + rest);
    PastNoise(noise, Encode(f).value + rest, 0);
  }

  /** The first hit is the frame that was sent after the noise, whatever comes behind it. */
  lemma FirstHit(f: Frame, noise: seq<byte>, rest: seq<byte>)
    requires Encode(f).Some? && Harmless(noise)
    ensures var e := Encode(f).value;
      Scan(noise + e + rest, 0) != [] && Scan(noise + e + rest, 0)[0] == Hit(f, |noise|, |noise| + |e|)
  {
    SentIsJudged(f, noise, rest, noise + Encode(f).value + rest);
  }

  lemma RestIsRead(line: seq<byte>, n: nat, rest: seq<byte>)
    requires n <= |line| && line[n..] == rest
    ensures SameFrames(Scan(line, n), Scan(rest, 0))
  {
    ScanShifted(line, n, rest, 0);
    assert n + 0 == n;
  }

  lemma FirstThenRest(line: seq<byte>, p: nat, first: Frame, rest: seq<byte>)
    requires Candidate(line, p) == Some(p) && FramesOf(HitsAt(line, p)) == [first]
    requires SameFrames(Scan(line, After(line, p)), Scan(rest, 0))
    ensures FramesOf(Scan(line, p)) == [first] + FramesOf(Scan(rest, 0))
  {
    FirstFrames(line, p, p);
  }

  ghost function FramesSent(items: seq<Sent>): seq<Frame> {
    if items == [] then [] else [items[0].frame] + FramesSent(items[1..])
  }

  /** `iter_frames` reads exactly these frames from the line. */
  ghost predicate ReadsAs(line: seq<byte>, frames: seq<Frame>) { FramesOf(Scan(line, 0)) == frames }

  lemma FirstReadsAs(f: Frame, noise: seq<byte>, rest: seq<byte>, line: seq<byte>, frames: seq<Frame>)
    requires Encode(f).Some? && Harmless(noise) && line == noise + Encode(f).value + rest && ReadsAs(rest, frames)
    ensures ReadsAs(line, [f] + frames)
  {
    SentIsJudged(f, noise, rest, line);
    RestIsRead(line, After(line, |noise|), rest);
    FirstThenRest(line, |noise|, f, rest);
  }

  /** Encoded frames with harmless noise between them are found, all of them and nothing else. */
  lemma {:induction false} LineIsRead(items: seq<Sent>, last: seq<byte>)
    requires Sendable(items) && Scan(last, 0) == []
    ensures ReadsAs(Line(items, last), FramesSent(items))
    decreases |items|
  {
    if items != [] {
      LineIsRead(items[1..], last);
      FirstReadsAs(items[0].frame, items[0].noise, Line(items[1..], last), Line(items, last), FramesSent(items[1..]));
    }
  }
}
