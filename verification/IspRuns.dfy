/**
 * What the stub protocol guarantees over whole runs: an accepted erase issues an optimal tiling of
 * its range, idle turns only bring it forward, and only the sectors that requests name change.
 */
module IspRuns {
  import opened Bytes
  import Crc32
  import opened NorFlash
  import opened IspSpec
  import Slip
  import Ui

  // ---------------------------------------------------------------- the erase plan

  /** A command the chip accepts: a sector or a block, at an address aligned to it. */
  predicate LegalErase(p: Piece) {
    (p.size == SECTOR_SIZE && p.start % SECTOR_SIZE == 0) || (p.size == BLOCK_SIZE && p.start % BLOCK_SIZE == 0)
  }

  ghost predicate LegalTiling(pieces: seq<Piece>, start: nat, end: nat) {
    Tiles(pieces, start, end) && forall p :: p in pieces ==> LegalErase(p)
  }

  /** The commands issued for an erase cover its range exactly, in order, and are legal. */
  lemma {:induction false} TilingIsLegal(at: nat, end: nat)
    requires at <= end && at % SECTOR_SIZE == end % SECTOR_SIZE == 0
    ensures LegalTiling(Tiling(at, end), at, end)
    decreases end - at
  {
    if at < end {
      var n := PieceSize(at, end);
      PieceFits(at, end);
      TilingIsLegal(at + n, end);
      OneMorePiece(Piece(at, n), Tiling(at + n, end), end);
    }
  }

  lemma PieceFits(at: nat, end: nat)
    requires at < end && at % SECTOR_SIZE == end % SECTOR_SIZE == 0
    ensures var n := PieceSize(at, end); at + n <= end && (at + n) % SECTOR_SIZE == 0 && LegalErase(Piece(at, n))
  {
  }

  lemma OneMorePiece(p: Piece, pieces: seq<Piece>, end: nat)
    requires LegalErase(p) && LegalTiling(pieces, p.start + p.size, end)
    ensures LegalTiling([p] + pieces, p.start, end)
  {
    var all := [p] + pieces;
    assert all[1..] == pieces;
    assert forall q :: q in all ==> q == p || q in pieces;
  }

  lemma NotAtBlock(at: nat, stop: nat)
    requires stop - BLOCK_SIZE < at < stop && stop % BLOCK_SIZE == 0 && at % SECTOR_SIZE == 0
    ensures at % BLOCK_SIZE != 0 && at + SECTOR_SIZE <= stop && (at + SECTOR_SIZE) % SECTOR_SIZE == 0
  {
    var k, j := stop / BLOCK_SIZE, at / SECTOR_SIZE;
    assert stop == 0x1_0000 * k && at == 0x1000 * j;
    assert j + 1 <= 16 * k && 16 * (k - 1) < j;
    assert at + SECTOR_SIZE == 0x1000 * (j + 1);
    assert at == 0x1_0000 * (k - 1) + (at - 0x1_0000 * (k - 1));
  }

  /** From inside a block, sectors lead up to its end. */
  lemma {:induction false} SectorsToBlockEnd(at: nat, stop: nat, end: nat)
    requires at <= stop <= end && stop % BLOCK_SIZE == 0 && at % SECTOR_SIZE == 0
    requires at > stop - BLOCK_SIZE
    ensures |Tiling(at, end)| == (stop - at) / SECTOR_SIZE + |Tiling(stop, end)|
    decreases stop - at
  {
    if at < stop {
      NotAtBlock(at, stop);
      CountFirst(at, end);
      SectorsToBlockEnd(at + SECTOR_SIZE, stop, end);
    }
  }

  /** Taking a sector first never beats the plan. */
  lemma SectorFirst(at: nat, end: nat)
    requires at + SECTOR_SIZE <= end && at % SECTOR_SIZE == 0
    ensures |Tiling(at, end)| <= 1 + |Tiling(at + SECTOR_SIZE, end)|
  {
    CountFirst(at, end);
    if PieceSize(at, end) == BLOCK_SIZE {
      InsideBlock(at);
      SectorsToBlockEnd(at + SECTOR_SIZE, at + BLOCK_SIZE, end);
    }
  }

  lemma CountFirst(at: nat, end: nat)
    requires at < end
    ensures |Tiling(at, end)| == 1 + |Tiling(at + PieceSize(at, end), end)|
  {
  }

  lemma InsideBlock(at: nat)
    requires at % BLOCK_SIZE == 0
    ensures (at + SECTOR_SIZE) % SECTOR_SIZE == 0 && (at + BLOCK_SIZE) % BLOCK_SIZE == 0
  {
    var k := at / BLOCK_SIZE;
    SectorMultiple(16 * k + 1);
    BlockMultiple(k + 1);
  }

  lemma SectorMultiple(k: nat)
    ensures k * 0x1000 % SECTOR_SIZE == 0
  {
  }

  lemma BlockMultiple(k: nat)
    ensures k * 0x1_0000 % BLOCK_SIZE == 0
  {
  }

  lemma {:induction false} TilesReachEnd(pieces: seq<Piece>, start: nat, end: nat)
    requires Tiles(pieces, start, end)
    ensures start <= end
  {
    if pieces != [] {
      TilesReachEnd(pieces[1..], start + pieces[0].size, end);
    }
  }

  /** No legal sequence of commands erases the same range with fewer of them. */
  lemma {:induction false} TilingIsMinimal(pieces: seq<Piece>, start: nat, end: nat)
    requires LegalTiling(pieces, start, end) && start % SECTOR_SIZE == 0
    ensures |Tiling(start, end)| <= |pieces|
  {
    if pieces != [] {
      var p := pieces[0];
      assert LegalErase(p);
      var rest := pieces[1..];
      assert LegalTiling(rest, start + p.size, end) by {
        assert forall q :: q in rest ==> q in pieces;
      }
      TilesReachEnd(rest, start + p.size, end);
      StaysAligned(p);
      TilingIsMinimal(rest, start + p.size, end);
      FirstPieceNeverBeatsPlan(p, end);
    }
  }

  lemma StaysAligned(p: Piece)
    requires LegalErase(p)
    ensures (p.start + p.size) % SECTOR_SIZE == 0
  {
  }

  lemma FirstPieceNeverBeatsPlan(p: Piece, end: nat)
    requires LegalErase(p) && p.start + p.size <= end
    ensures |Tiling(p.start, end)| <= 1 + |Tiling(p.start + p.size, end)|
  {
    CountFirst(p.start, end);
    if p.size == SECTOR_SIZE {
      SectorFirst(p.start, end);
    }
  }

  // ---------------------------------------------------------------- whole runs

  /** What happens to the stub: a request and its reply, or an idle poll. */
  datatype Event = Exchange(frame: seq<byte>, reply: seq<byte>) | Poll

  ghost predicate Step(v: View, e: Event, v': View) {
    && WellFormed(v) && WellFormed(v')
    && match e
       case Poll => Polled(v, v', OK) || Polled(v, v', BUSY)
       case Exchange(frame, reply) => frame != [] && Served(v, frame, v', reply)
  }

  /** `views` are the states before, between and after the events. */
  ghost predicate Run(views: seq<View>, events: seq<Event>) {
    && |views| == |events| + 1
    && forall k :: 0 <= k < |events| ==> Step(views[k], events[k], views[k + 1])
  }

  // ---------------------------------------------------------------- the erase of a run

  /** The flash as it will be when the running erase is over. */
  ghost function Afterwards(v: View): (m: seq<byte>)
    requires WellFormed(v)
    ensures |m| == CAPACITY
  {
    if v.erase.Idle? then v.mem else Erased(v.mem, v.erase.at, v.erase.end - v.erase.at)
  }

  /** The erase commands the chip will have seen by then. */
  ghost function Promised(v: View): seq<Piece>
    requires WellFormed(v)
  {
    v.commands + if v.erase.Idle? then [] else Tiling(v.erase.at + v.erase.size, v.erase.end)
  }

  /** The sectors that will then be written without an erase command. */
  ghost function SparedAfterwards(v: View): set<nat>
    requires WellFormed(v)
  {
    v.spared + if v.erase.Idle? then {} else SectorsOf(v.erase.at, v.erase.end - v.erase.at)
  }

  lemma SparedJoin(spared: set<nat>, at: nat, n: nat, end: nat)
    requires at + n <= end
    ensures spared + SectorsOf(at, n) + SectorsOf(at + n, end - (at + n)) == spared + SectorsOf(at, end - at)
  {
    SectorsJoin(at, n, end);
    assert spared + SectorsOf(at, n) + SectorsOf(at + n, end - (at + n)) ==
      spared + (SectorsOf(at, n) + SectorsOf(at + n, end - (at + n)));
  }

  lemma SectorsJoin(at: nat, n: nat, end: nat)
    requires at + n <= end
    ensures SectorsOf(at, n) + SectorsOf(at + n, end - (at + n)) == SectorsOf(at, end - at)
  {
    var a, b, c := at / SECTOR_SIZE, (at + n) / SECTOR_SIZE, end / SECTOR_SIZE;
    assert a <= b <= c;
    assert forall s: nat :: Between(s, a, c) <==> Between(s, a, b) || Between(s, b, c);
  }

  /** What a poll leaves alone. */
  ghost predicate SamePromise(v: View, v': View) {
    && WellFormed(v) && WellFormed(v')
    && Afterwards(v') == Afterwards(v) && Promised(v') == Promised(v) && SparedAfterwards(v') == SparedAfterwards(v)
    && v'.initialized == v.initialized && v'.wireSize == v.wireSize && v'.jedec == v.jedec
    && (v.erase.Idle? ==> v' == v)
    && (v.erase.Running? ==> if v'.erase.Running? then SameErase(v, v') else v'.completed == v.erase.end - v.erase.start)
  }

  ghost predicate SameErase(v: View, v': View) {
    v.erase.Running? && v'.erase.Running? && v'.erase.start == v.erase.start && v'.erase.end == v.erase.end
  }

  lemma SettledKeepsPromise(v: View)
    requires WellFormed(v) && Finished(v)
    ensures SamePromise(v, Settled(v))
  {
    if v.erase.Running? {
      assert v.commands + [] == v.commands;
    }
  }

  lemma KickKeepsBytes(m: seq<byte>, m': seq<byte>, at: nat, n: nat, size: nat, end: nat)
    requires |m| == |m'| && at + n + size <= end <= |m|
    requires AgreeOutside(Erased(m, at, n), m', at + n, size)
    ensures Erased(m', at + n, end - (at + n)) == Erased(m, at, end - at)
  {
  }

  lemma BusyKeepsPromise(v: View, v': View)
    requires WellFormed(v) && !Finished(v) && StillBusy(v, v')
    ensures SamePromise(v, v')
  {
    if v.erase.patience == 0 {
      KickKeepsPromise(v, v', v.erase.at + v.erase.size, v.erase.end);
    }
  }

  lemma KickKeepsPromise(v: View, v': View, at: nat, end: nat)
    requires WellFormed(v) && v.erase.Running? && at == v.erase.at + v.erase.size < end == v.erase.end
    requires Kicked(Settled(v), v', v.erase.start, end, at)
    ensures WellFormed(v')
    ensures Afterwards(v') == Afterwards(v) && Promised(v') == Promised(v) && SparedAfterwards(v') == SparedAfterwards(v)
  {
    PieceFits(v.erase.at, end);
    PieceFits(at, end);
    NextPieceKeepsBytes(v, v', at, end);
    SparedJoin(v.spared, v.erase.at, v.erase.size, end);
    TilingStep(v.commands, at, end);
  }

  lemma NextPieceKeepsBytes(v: View, v': View, at: nat, end: nat)
    requires WellFormed(v) && WellFormed(v') && v.erase.Running? && at == v.erase.at + v.erase.size && end == v.erase.end
    requires at < end && Kicked(Settled(v), v', v.erase.start, end, at)
    ensures Afterwards(v') == Afterwards(v)
  {
    KickKeepsBytes(v.mem, v'.mem, v.erase.at, v.erase.size, PieceSize(at, end), end);
  }

  /** Polling brings the erase forward, and changes nothing about how it will end. */
  lemma PollKeepsPromise(v: View, v': View, reason: byte)
    requires WellFormed(v) && Polled(v, v', reason)
    ensures SamePromise(v, v')
  {
    if Finished(v) {
      SettledKeepsPromise(v);
    } else {
      BusyKeepsPromise(v, v');
    }
  }

  /** An erase that has just been accepted promises its range, and the tiling of it. */
  lemma AcceptedPromise(v: View, v': View, start: nat, end: nat)
    requires WellFormed(v) && WellFormed(v') && start < end <= CAPACITY && Kicked(Forgotten(v, start, end), v', start, end, start)
    ensures Afterwards(v') == Erased(v.mem, start, end - start)
    ensures Promised(v') == v.commands + Tiling(start, end)
    ensures SparedAfterwards(v') == v.spared + SectorsOf(start, end - start)
  {
    TilingStep(v.commands, start, end);
  }

  predicate IsRequest(e: Event, op: byte) { e.Exchange? && |e.frame| >= 16 && e.frame[0] == op }

  /** The request starts an erase of `[start, end)`. */
  ghost predicate StartsErase(v: View, e: Event, v': View, start: nat, end: nat) {
    && Step(v, e, v') && v.erase.Idle? && v'.erase.Running?
    && IsRequest(e, FLASH_ERASE)
    && start == Address(e.frame) && end == RoundUp(start + DataLength(e.frame), SECTOR_SIZE)
  }

  predicate Acknowledged(e: Event) { e.Exchange? && |e.reply| >= 2 && e.reply[1] == OK }

  /** The command that the event adds when it finds the erase just finished: a write to a sector not spared has one. */
  function CommandOf(e: Event, spared: set<nat>): seq<Piece> {
    if IsRequest(e, FLASH_WRITE) && Acknowledged(e) then WriteCommand(spared, Address(e.frame)) else []
  }

  /** Any step while an erase runs: it goes on as promised, or it is over and was what was promised. */
  lemma RunningStep(v: View, e: Event, v': View)
    requires Step(v, e, v') && v.erase.Running?
    ensures if v'.erase.Running? then SameErase(v, v') && Promised(v') == Promised(v)
            else v'.commands == Promised(v) + CommandOf(e, SparedAfterwards(v)) && v'.completed == v.erase.end - v.erase.start
    ensures v'.erase.Running? ==> SparedAfterwards(v') == SparedAfterwards(v)
    ensures v'.erase.Idle? ==> v'.spared == SparedAfterwards(v) - SectorWritten(e)
    ensures !IsRequest(e, FLASH_WRITE) ==> Afterwards(v') == Afterwards(v)
  {
    if Finished(v) {
      FinishedStep(v, e, v');
      SettledKeepsPromise(v);
    } else {
      BusyStep(v, e, v');
    }
  }

  /** A piece is still being erased: nothing happens to the erase, or it goes on as promised. */
  lemma BusyStep(v: View, e: Event, v': View)
    requires Step(v, e, v') && v.erase.Running? && !Finished(v)
    ensures v'.erase.Running? && SameErase(v, v') && Promised(v') == Promised(v)
    ensures SparedAfterwards(v') == SparedAfterwards(v) && Afterwards(v') == Afterwards(v)
  {
    match e
    case Poll =>
      BusyKeepsPromise(v, v');
    case Exchange(frame, reply) =>
      if |frame| >= 8 && frame[0] in {FLASH_READ, FLASH_WRITE, FLASH_STATUS} && v' != v {
        BusyKeepsPromise(v, v');
      }
  }

  /** The last piece is blank: nothing happens to the erase, or it settles, and an accepted write may follow at once. */
  lemma FinishedStep(v: View, e: Event, v': View)
    requires Step(v, e, v') && v.erase.Running? && Finished(v)
    ensures var s := Settled(v);
      || v' == v.(initialized := v'.initialized)
      || (v' == s && CommandOf(e, s.spared) == [] && SectorWritten(e) == {})
      || (IsRequest(e, FLASH_WRITE) && Acknowledged(e) && v' == s.(mem := v'.mem, wireSize := v'.wireSize,
            commands := s.commands + CommandOf(e, s.spared), spared := s.spared - SectorWritten(e)))
  {
    if e.Exchange? && |e.frame| >= 8 && e.frame[0] == FLASH_WRITE && v' != v {
      assert HandledWrite(Settled(v), e.frame, v', e.reply[1]);
    }
  }

  /** The sector that an acknowledged write takes out of the spared ones. */
  function SectorWritten(e: Event): set<nat> {
    if IsRequest(e, FLASH_WRITE) && Acknowledged(e) then {Address(e.frame) / SECTOR_SIZE} else {}
  }

  predicate NoWrites(events: seq<Event>) { forall e :: e in events ==> !IsRequest(e, FLASH_WRITE) }

  /** While an erase runs, all its promises stay as they were when it started. */
  lemma {:induction false} RunningStays(views: seq<View>, events: seq<Event>)
    requires Run(views, events) && WellFormed(views[0])
    requires forall k :: 0 <= k < |views| ==> views[k].erase.Running?
    ensures WellFormed(views[|events|]) && SameErase(views[0], views[|events|])
    ensures Promised(views[|events|]) == Promised(views[0])
    ensures SparedAfterwards(views[|events|]) == SparedAfterwards(views[0])
    ensures NoWrites(events) ==> Afterwards(views[|events|]) == Afterwards(views[0])
  {
    if events != [] {
      var n := |events| - 1;
      assert Step(views[n], events[n], views[n + 1]);
      RunningStays(views[..n + 1], events[..n]);
      RunningStep(views[n], events[n], views[n + 1]);
    }
  }

  /** The run consists of an accepted erase and whatever follows, up to the state in which it is over. */
  ghost predicate EraseRun(views: seq<View>, events: seq<Event>, start: nat, end: nat) {
    && Run(views, events) && |events| >= 2 && WellFormed(views[0])
    && StartsErase(views[0], events[0], views[1], start, end)
    && (forall k :: 1 <= k < |events| ==> views[k].erase.Running?)
    && views[|events|].erase.Idle?
  }

  /** The last command before the erase is over has been given, and nothing but its end is missing. */
  lemma EraseMiddle(views: seq<View>, events: seq<Event>, start: nat, end: nat)
    requires EraseRun(views, events, start, end)
    ensures var v, v0 := views[|events| - 1], views[0];
      && WellFormed(v) && v.erase.Running? && v.erase.start == start && v.erase.end == end <= CAPACITY
      && Step(v, events[|events| - 1], views[|events|])
      && Promised(v) == v0.commands + Tiling(start, end)
      && SparedAfterwards(v) == v0.spared + SectorsOf(start, end - start)
      && (NoWrites(events) ==> Afterwards(v) == Erased(v0.mem, start, end - start))
  {
    EraseStarted(views[0], events[0], views[1], start, end);
    WhileErasing(views, events, start, end);
  }

  /** Between the request and the last step, nothing about the erase changes. */
  lemma WhileErasing(views: seq<View>, events: seq<Event>, start: nat, end: nat)
    requires EraseRun(views, events, start, end)
    ensures var v1, v := views[1], views[|events| - 1];
      && WellFormed(v1) && WellFormed(v) && SameErase(v1, v)
      && Promised(v) == Promised(v1) && SparedAfterwards(v) == SparedAfterwards(v1)
      && (NoWrites(events) ==> Afterwards(v) == Afterwards(v1))
    ensures Step(views[|events| - 1], events[|events| - 1], views[|events|])
  {
    var n := |events|;
    MiddleErases(views, events, start, end, views[1..n], events[1..n - 1]);
    RunningStays(views[1..n], events[1..n - 1]);
    NoWritesInside(events);
  }

  lemma MiddleErases(views: seq<View>, events: seq<Event>, start: nat, end: nat, vs: seq<View>, es: seq<Event>)
    requires EraseRun(views, events, start, end) && vs == views[1..|events|] && es == events[1..|events| - 1]
    ensures Run(vs, es) && WellFormed(vs[0]) && forall k :: 0 <= k < |vs| ==> vs[k].erase.Running?
    ensures vs[0] == views[1] && vs[|es|] == views[|events| - 1]
    ensures Step(views[|events| - 1], events[|events| - 1], views[|events|])
  {
    RunMiddle(views, events);
    assert Step(views[0], events[0], views[1]);
  }

  lemma NoWritesInside(events: seq<Event>)
    requires |events| >= 2
    ensures NoWrites(events) ==> NoWrites(events[1..|events| - 1])
  {
  }

  /** Everything issued since `before`. */
  function Since(before: seq<Piece>, all: seq<Piece>): seq<Piece> {
    if |before| <= |all| then all[|before|..] else []
  }

  lemma SinceIsTheRest(before: seq<Piece>, plan: seq<Piece>, more: seq<Piece>, all: seq<Piece>)
    requires all == before + plan + more
    ensures before <= all && Since(before, all) == plan + more
  {
  }

  /**
   * In every run, whatever requests, idle turns and busy answers it holds, the erase commands
   * issued for an accepted erase are the tiling of its range: they cover it exactly, in order, with
   * legal pieces and as few as possible. A write that finds the erase just finished adds its own
   * command, if it has one. The progress shown ends at the size of the range.
   */
  lemma IssuedCommandsTile(views: seq<View>, events: seq<Event>, start: nat, end: nat)
    requires EraseRun(views, events, start, end)
    ensures var issued := Since(views[0].commands, views[|events|].commands);
      && views[0].commands <= views[|events|].commands
      && issued == Tiling(start, end) + CommandOf(events[|events| - 1], views[0].spared + SectorsOf(start, end - start))
    ensures views[|events|].completed == end - start
    ensures OptimalTiling(Tiling(start, end), start, end)
  {
    var n := |events|;
    EraseStarted(views[0], events[0], views[1], start, end);
    EraseMiddle(views, events, start, end);
    RunningStep(views[n - 1], events[n - 1], views[n]);
    SinceIsTheRest(views[0].commands, Tiling(start, end), CommandOf(events[n - 1], SparedAfterwards(views[n - 1])), views[n].commands);
    TilingIsOptimal(start, end);
  }

  /** Over such a run without a write, the flash becomes blank in the range and keeps every other byte. */
  lemma ErasedOverRun(views: seq<View>, events: seq<Event>, start: nat, end: nat)
    requires EraseRun(views, events, start, end) && NoWrites(events)
    ensures start <= end <= CAPACITY && |views[0].mem| == CAPACITY
    ensures views[|events|].mem == Erased(views[0].mem, start, end - start)
  {
    var n := |events|;
    EraseStarted(views[0], events[0], views[1], start, end);
    EraseMiddle(views, events, start, end);
    RunningStep(views[n - 1], events[n - 1], views[n]);
  }

  /** An erase is not wasted: when it is over, every sector of its range is spared, but for one just written. */
  lemma EraseSpares(views: seq<View>, events: seq<Event>, start: nat, end: nat)
    requires EraseRun(views, events, start, end)
    ensures start <= end
    ensures views[|events|].spared == views[0].spared + SectorsOf(start, end - start) - SectorWritten(events[|events| - 1])
  {
    var n := |events|;
    EraseStarted(views[0], events[0], views[1], start, end);
    EraseMiddle(views, events, start, end);
    RunningStep(views[n - 1], events[n - 1], views[n]);
  }

  /** Legal commands that cover the range in order, and no fewer could. */
  ghost predicate OptimalTiling(plan: seq<Piece>, start: nat, end: nat) {
    && LegalTiling(plan, start, end)
    && forall pieces :: LegalTiling(pieces, start, end) ==> |plan| <= |pieces|
  }

  lemma RunMiddle(views: seq<View>, events: seq<Event>)
    requires Run(views, events) && |events| >= 2
    ensures Run(views[1..|events|], events[1..|events| - 1])
    ensures Step(views[|events| - 1], events[|events| - 1], views[|events|])
  {
    var n := |events|;
    var vs, es := views[1..n], events[1..n - 1];
    assert Step(views[n - 1], events[n - 1], views[n - 1 + 1]);
    forall k | 0 <= k < |es| ensures Step(vs[k], es[k], vs[k + 1]) {
      assert Step(views[k + 1], events[k + 1], views[k + 1 + 1]);
    }
  }

  lemma TilingIsOptimal(start: nat, end: nat)
    requires start <= end && start % SECTOR_SIZE == end % SECTOR_SIZE == 0
    ensures OptimalTiling(Tiling(start, end), start, end)
  {
    TilingIsLegal(start, end);
    forall pieces | LegalTiling(pieces, start, end) ensures |Tiling(start, end)| <= |pieces| {
      TilingIsMinimal(pieces, start, end);
    }
  }

  lemma EraseStarted(v: View, e: Event, v': View, start: nat, end: nat)
    requires WellFormed(v) && StartsErase(v, e, v', start, end)
    ensures start < end <= CAPACITY && start % SECTOR_SIZE == end % SECTOR_SIZE == 0
    ensures v'.erase.start == start && v'.erase.end == end
    ensures Promised(v') == v.commands + Tiling(start, end) && Afterwards(v') == Erased(v.mem, start, end - start)
    ensures SparedAfterwards(v') == v.spared + SectorsOf(start, end - start)
  {
    assert HandledErase(v, e.frame, v', e.reply[1]);
    assert WellFormed(v');
    AcceptedPromise(v, v', start, end);
  }

  lemma PromiseChain(a: View, b: View, c: View)
    requires SamePromise(a, b) && SamePromise(b, c)
    ensures SamePromise(a, c)
  {
  }

  // ---------------------------------------------------------------- idle turns

  ghost predicate IdleTurn(run: seq<View>, k: nat)
    requires k + 1 < |run|
  {
    Step(run[k], Poll, run[k + 1])
  }

  /** The states before, between and after idle turns that lead from `v` to `v'`. */
  ghost predicate IdleRun(run: seq<View>, v: View, v': View) {
    && run != [] && run[0] == v && run[|run| - 1] == v' && WellFormed(v)
    && forall k: nat :: k + 1 < |run| ==> IdleTurn(run, k)
  }

  /** Some number of idle turns lead from `v` to `v'`. */
  ghost predicate Idled(v: View, v': View) { exists run :: IdleRun(run, v, v') }

  lemma NoIdling(v: View)
    requires WellFormed(v)
    ensures Idled(v, v)
  {
    assert IdleRun([v], v, v);
  }

  lemma OneMoreTurn(v: View, m: View, v': View)
    requires Idled(v, m) && Step(m, Poll, v')
    ensures Idled(v, v')
  {
    var run :| IdleRun(run, v, m);
    var longer := run + [v'];
    forall k: nat | k + 1 < |longer| ensures IdleTurn(longer, k) {
      assert k + 1 < |run| ==> IdleTurn(run, k);
    }
    assert IdleRun(longer, v, v');
  }

  /** What is left of an erase: bytes not yet handed to the chip, and the chip's patience. */
  ghost predicate NoFurtherBack(v: View, v': View) {
    v.erase.Running? && v'.erase.Running? ==>
      v'.erase.at > v.erase.at || (v'.erase.at == v.erase.at && v'.erase.patience <= v.erase.patience)
  }

  /** Idle turns bring a running erase forward and do nothing else. */
  lemma IdlingKeepsPromise(v: View, v': View)
    requires Idled(v, v')
    ensures SamePromise(v, v') && NoFurtherBack(v, v')
  {
    var run :| IdleRun(run, v, v');
    IdleRunKeepsPromise(run, v, v');
  }

  lemma {:induction false} IdleRunKeepsPromise(run: seq<View>, v: View, v': View)
    requires IdleRun(run, v, v')
    ensures SamePromise(v, v') && NoFurtherBack(v, v')
  {
    if |run| > 1 {
      var n := |run| - 2;
      var before := run[..n + 1];
      assert forall k: nat :: k + 1 < |before| ==> (IdleTurn(before, k) <==> IdleTurn(run, k));
      IdleRunKeepsPromise(before, v, run[n]);
      assert IdleTurn(run, n);
      OneTurnKeepsPromise(v, run[n], v');
    }
  }

  lemma OneTurnKeepsPromise(v: View, m: View, v': View)
    requires SamePromise(v, m) && NoFurtherBack(v, m) && Step(m, Poll, v')
    ensures SamePromise(v, v') && NoFurtherBack(v, v')
  {
    PollKeepsPromise(m, v', if Finished(m) then OK else BUSY);
    PromiseChain(v, m, v');
  }

  // ---------------------------------------------------------------- what comes in and what goes out

  type Input = Option<byte>

  /** The bytes among the inputs; the others are loop turns without one. */
  function Received(inputs: seq<Input>): seq<byte> {
    if inputs == [] then []
    else
      var last := inputs[|inputs| - 1];
      Received(inputs[..|inputs| - 1]) + if last.Some? then [last.value] else []
  }

  /** What the inputs cause, in order: a frame that a byte completes, or none for an idle turn. */
  function Happenings(s: Slip.State, inputs: seq<Input>): seq<Option<seq<byte>>> {
    if inputs == [] then []
    else
      var before, last := inputs[..|inputs| - 1], inputs[|inputs| - 1];
      Happenings(s, before) + Happening(Slip.Feed(s, Received(before), RX_CAPACITY), last)
  }

  function Happening(s: Slip.State, input: Input): seq<Option<seq<byte>>> {
    if input.None? then [None] else if Slip.Reports(s, input.value) then [Some(s.data)] else []
  }

  function FrameOf(e: Event): Option<seq<byte>> { if e.Exchange? then Some(e.frame) else None }

  function FramesOf(events: seq<Event>): (frames: seq<Option<seq<byte>>>)
    ensures |frames| == |events|
  {
    if events == [] then [] else FramesOf(events[..|events| - 1]) + [FrameOf(events[|events| - 1])]
  }

  function RepliesOf(events: seq<Event>): seq<seq<byte>> {
    if events == [] then []
    else
      var last := events[|events| - 1];
      RepliesOf(events[..|events| - 1]) + if last.Exchange? then [last.reply] else []
  }

  /** The run explains what was sent: one step for each happening, one encoded reply for each frame. */
  ghost predicate Explains(s: Slip.State, inputs: seq<Input>, v: View, v': View, views: seq<View>, events: seq<Event>, sent: seq<byte>) {
    && Run(views, events) && views[0] == v && views[|events|] == v'
    && FramesOf(events) == Happenings(s, inputs)
    && sent == Slip.EncodeAll(RepliesOf(events))
  }

  lemma RunStep(views: seq<View>, events: seq<Event>, e: Event, v: View)
    requires Run(views, events) && Step(views[|events|], e, v)
    ensures Run(views + [v], events + [e])
  {
  }

  lemma ExplainsQuiet(s: Slip.State, inputs: seq<Input>, b: byte, v: View, v': View, views: seq<View>, events: seq<Event>, sent: seq<byte>)
    requires Explains(s, inputs, v, v', views, events, sent)
    requires !Slip.Reports(Slip.Feed(s, Received(inputs), RX_CAPACITY), b)
    ensures Explains(s, inputs + [Some(b)], v, v', views, events, sent)
  {
    assert (inputs + [Some(b)])[..|inputs|] == inputs;
    assert Happenings(s, inputs) + [] == Happenings(s, inputs);
  }

  lemma ExplainsEvent(s: Slip.State, inputs: seq<Input>, input: Input, v: View, v': View, views: seq<View>, events: seq<Event>,
                      sent: seq<byte>, e: Event, v'': View)
    requires Explains(s, inputs, v, v', views, events, sent) && Step(v', e, v'')
    requires Happening(Slip.Feed(s, Received(inputs), RX_CAPACITY), input) == [FrameOf(e)]
    ensures Explains(s, inputs + [input], v, v'', views + [v''], events + [e],
                     sent + if e.Exchange? then Slip.Encode(e.reply) else [])
  {
    RunStep(views, events, e, v'');
    assert (inputs + [input])[..|inputs|] == inputs && (events + [e])[..|events|] == events;
    if e.Exchange? {
      Slip.EncodeAllConcat(RepliesOf(events), e.reply);
    } else {
      assert RepliesOf(events) + [] == RepliesOf(events) && sent + [] == sent;
    }
  }

  /** One turn of the loop: nothing happens, or one event that the input causes. */
  ghost predicate Turned(s: Slip.State, input: Input, v: View, happened: seq<Event>, v': View, sent: seq<byte>) {
    if happened == [] then input.Some? && Happening(s, input) == [] && v' == v && sent == []
    else
      var e := happened[0];
      && happened == [e] && Step(v, e, v') && Happening(s, input) == [FrameOf(e)]
      && sent == if e.Exchange? then Slip.Encode(e.reply) else []
  }

  lemma ExplainsTurn(s: Slip.State, inputs: seq<Input>, input: Input, v: View, v': View, views: seq<View>, events: seq<Event>,
                     sent: seq<byte>, happened: seq<Event>, v'': View, bytes: seq<byte>)
    requires Explains(s, inputs, v, v', views, events, sent)
    requires Turned(Slip.Feed(s, Received(inputs), RX_CAPACITY), input, v', happened, v'', bytes)
    ensures Explains(s, inputs + [input], v, v'', if happened == [] then views else views + [v''], events + happened, sent + bytes)
  {
    if happened == [] {
      ExplainsQuiet(s, inputs, input.value, v, v', views, events, sent);
      assert events + happened == events && sent + bytes == sent;
    } else {
      ExplainsEvent(s, inputs, input, v, v', views, events, sent, happened[0], v'');
    }
  }

  lemma FeedReceived(s: Slip.State, inputs: seq<Input>, input: Input)
    ensures Slip.Feed(s, Received(inputs + [input]), RX_CAPACITY) ==
      var before := Slip.Feed(s, Received(inputs), RX_CAPACITY);
      if input.Some? then Slip.Next(before, input.value, RX_CAPACITY) else before
  {
    assert (inputs + [input])[..|inputs|] == inputs;
    if input.Some? {
      Slip.FeedConcat(s, Received(inputs), [input.value], RX_CAPACITY);
      Slip.FeedTwo(Slip.Feed(s, Received(inputs), RX_CAPACITY), input.value, 0, RX_CAPACITY);
    } else {
      assert Received(inputs) + [] == Received(inputs);
    }
  }

  /** The frames among the happenings. */
  function Complete(happenings: seq<Option<seq<byte>>>): seq<seq<byte>> {
    if happenings == [] then []
    else
      var last := happenings[|happenings| - 1];
      Complete(happenings[..|happenings| - 1]) + if last.Some? then [last.value] else []
  }

  lemma CompleteSnoc(a: seq<Option<seq<byte>>>, h: Option<seq<byte>>)
    ensures Complete(a + [h]) == Complete(a) + if h.Some? then [h.value] else []
  {
    assert (a + [h])[..|a|] == a;
  }

  /** Idle turns do not disturb framing: the frames are those the decoder reports for the bytes alone. */
  lemma {:induction false} FramesAreReported(s: Slip.State, inputs: seq<Input>)
    ensures Complete(Happenings(s, inputs)) == Slip.Reported(s, Received(inputs), RX_CAPACITY)
  {
    if inputs != [] {
      var before, last := inputs[..|inputs| - 1], inputs[|inputs| - 1];
      var now := Slip.Feed(s, Received(before), RX_CAPACITY);
      FramesAreReported(s, before);
      var h := Happening(now, last);
      if h == [] {
        assert Happenings(s, before) + h == Happenings(s, before);
      } else {
        CompleteSnoc(Happenings(s, before), h[0]);
        assert h == [h[0]];
      }
      if last.Some? {
        Slip.FeedConcat(s, Received(before), [last.value], RX_CAPACITY);
        assert Slip.Reported(now, [last.value], RX_CAPACITY) == if Slip.Reports(now, last.value) then [now.data] else [];
      } else {
        assert Received(before) + [] == Received(before);
      }
      var c := Complete(Happenings(s, before));
      assert c + [] == c;
    }
  }

  ghost predicate RebootFree(events: seq<Event>) { forall e :: e in events ==> !IsReboot(e) }

  /** The loop ran to its last input, or ended with a reboot; there is none before the last event. */
  ghost predicate UntilReboot(events: seq<Event>, complete: bool) {
    && (forall k :: 0 <= k < |events| - 1 ==> !IsReboot(events[k]))
    && (complete || (events != [] && IsReboot(events[|events| - 1])))
  }

  ghost predicate Unstopped(events: seq<Event>, stopped: bool) {
    if stopped then UntilReboot(events, false) else RebootFree(events)
  }

  lemma AddedEvents(events: seq<Event>, happened: seq<Event>, reboot: bool)
    requires Unstopped(events, false) && |happened| <= 1
    requires reboot == (happened != [] && IsReboot(happened[0]))
    ensures Unstopped(events + happened, reboot)
  {
  }

  lemma LoopLeft(events: seq<Event>, stopped: bool, complete: bool)
    requires Unstopped(events, stopped) && (complete || stopped)
    ensures UntilReboot(events, complete)
  {
  }

  predicate IsRebootFrame(frame: seq<byte>) { |frame| >= 8 && frame[0] == REBOOT }

  predicate IsReboot(e: Event) { e.Exchange? && IsRebootFrame(e.frame) }

  /** The request names `x`: its write sector or erase range contains it. */
  predicate Names(frame: seq<byte>, x: nat) {
    && |frame| >= 16
    && var address, length := Address(frame), DataLength(frame);
       || (frame[0] == FLASH_WRITE && address <= x < address + SECTOR_SIZE)
       || (frame[0] == FLASH_ERASE && address <= x < RoundUp(address + length, SECTOR_SIZE))
  }

  ghost predicate BeingErased(v: View, x: nat) {
    v.erase.Running? && v.erase.at <= x < v.erase.end
  }

  lemma PollKeeps(v: View, v': View, reason: byte, x: nat)
    requires WellFormed(v) && WellFormed(v') && Polled(v, v', reason)
    requires x < CAPACITY && !BeingErased(v, x)
    ensures v'.mem[x] == v.mem[x] && !BeingErased(v', x)
  {
  }

  lemma StepKeeps(v: View, e: Event, v': View, x: nat)
    requires Step(v, e, v') && x < CAPACITY
    requires !BeingErased(v, x) && (e.Exchange? ==> !Names(e.frame, x))
    ensures v'.mem[x] == v.mem[x] && !BeingErased(v', x)
  {
    match e
    case Poll =>
      PollKeeps(v, v', if Finished(v) then OK else BUSY, x);
    case Exchange(frame, reply) =>
      if |frame| >= 8 && v' != v {
        if frame[0] == FLASH_ERASE {
          assert HandledErase(v, frame, v', reply[1]);
        } else if frame[0] == FLASH_WRITE && Finished(v) && Checked(frame) {
          assert HandledWrite(Settled(v), frame, v', reply[1]);
        }
      }
  }

  /** Over any run, a byte that no request names keeps its value. */
  lemma {:induction false} UnnamedBytesKeepTheirValue(views: seq<View>, events: seq<Event>, x: nat)
    requires Run(views, events) && x < CAPACITY
    requires WellFormed(views[0]) && !BeingErased(views[0], x)
    requires forall k :: 0 <= k < |events| && events[k].Exchange? ==> !Names(events[k].frame, x)
    ensures |views[|events|].mem| == CAPACITY && views[|events|].mem[x] == views[0].mem[x]
    ensures !BeingErased(views[|events|], x)
  {
    if events != [] {
      var n := |events| - 1;
      UnnamedBytesKeepTheirValue(views[..n + 1], events[..n], x);
      StepKeeps(views[n], events[n], views[n + 1], x);
    }
  }

  lemma UnnamedRangeKeepsItsValue(views: seq<View>, events: seq<Event>, a: nat, n: nat)
    requires Run(views, events) && a + n <= CAPACITY
    requires WellFormed(views[0]) && views[0].erase.Idle? && WellFormed(views[|events|])
    requires forall x, k :: a <= x < a + n && 0 <= k < |events| && events[k].Exchange? ==> !Names(events[k].frame, x)
    ensures Settled(views[|events|]).mem[a..a + n] == views[0].mem[a..a + n]
  {
    var last := views[|events|];
    forall x | a <= x < a + n
      ensures Settled(last).mem[x] == views[0].mem[x]
    {
      UnnamedBytesKeepTheirValue(views, events, x);
    }
  }

  // ---------------------------------------------------------------- erase commands saved

  /** A spared sector stays spared as long as no request names it. */
  lemma StepKeepsSpared(v: View, e: Event, v': View, s: nat)
    requires Step(v, e, v') && s in SparedAfterwards(v) && (e.Exchange? ==> !Names(e.frame, s * SECTOR_SIZE))
    ensures s in SparedAfterwards(v')
  {
    if v.erase.Running? {
      RunningStep(v, e, v');
      if IsRequest(e, FLASH_WRITE) && Acknowledged(e) {
        assert HandledWrite(Settled(v), e.frame, v', OK);
      }
    } else if IsRequest(e, FLASH_ERASE) && v'.erase.Running? {
      EraseStarted(v, e, v', Address(e.frame), RoundUp(Address(e.frame) + DataLength(e.frame), SECTOR_SIZE));
    } else if IsRequest(e, FLASH_WRITE) && Acknowledged(e) {
      assert HandledWrite(v, e.frame, v', OK);
    }
  }

  lemma {:induction false} RunKeepsSpared(views: seq<View>, events: seq<Event>, s: nat)
    requires Run(views, events) && WellFormed(views[0]) && s in SparedAfterwards(views[0])
    requires forall k :: 0 <= k < |events| && events[k].Exchange? ==> !Names(events[k].frame, s * SECTOR_SIZE)
    ensures WellFormed(views[|events|]) && s in SparedAfterwards(views[|events|])
  {
    if events != [] {
      var n := |events| - 1;
      assert Step(views[n], events[n], views[n + 1]);
      RunKeepsSpared(views[..n + 1], events[..n], s);
      StepKeepsSpared(views[n], events[n], views[n + 1], s);
    }
  }

  /**
   * Once an accepted erase is over, the first acknowledged write to a sector of its range issues no
   * erase command, whatever requests that do not name the sector lie between.
   */
  lemma FirstWriteNeedsNoErase(
    erasing: seq<View>, erasure: seq<Event>, start: nat, end: nat, views: seq<View>, events: seq<Event>, s: nat,
    write: Event, v': View)
    requires EraseRun(erasing, erasure, start, end) && start <= s * SECTOR_SIZE < end
    requires SectorWritten(erasure[|erasure| - 1]) != {s}
    requires Run(views, events) && views[0] == erasing[|erasure|] && WellFormed(views[0])
    requires forall k :: 0 <= k < |events| && events[k].Exchange? ==> !Names(events[k].frame, s * SECTOR_SIZE)
    requires IsRequest(write, FLASH_WRITE) && Acknowledged(write) && Address(write.frame) == s * SECTOR_SIZE
    requires Step(views[|events|], write, v')
    ensures v'.commands == Promised(views[|events|])
  {
    EraseStarted(erasing[0], erasure[0], erasing[1], start, end);
    EraseSpares(erasing, erasure, start, end);
    InSectors(start, end, s);
    RunKeepsSpared(views, events, s);
    SparedWriteIsFree(views[|events|], write, v', s);
  }

  lemma InSectors(start: nat, end: nat, s: nat)
    requires start <= s * SECTOR_SIZE < end && end % SECTOR_SIZE == 0
    ensures s in SectorsOf(start, end - start)
  {
    assert start / SECTOR_SIZE <= s < end / SECTOR_SIZE;
  }

  lemma SparedWriteIsFree(v: View, e: Event, v': View, s: nat)
    requires Step(v, e, v') && IsRequest(e, FLASH_WRITE) && Acknowledged(e) && Address(e.frame) == s * SECTOR_SIZE
    requires s in SparedAfterwards(v)
    ensures v'.commands == Promised(v)
  {
    WriteCommands(v, e, v');
    assert Promised(v) + [] == Promised(v);
  }

  /** An acknowledged write finds no erase left, and issues a command exactly when its sector is not spared. */
  lemma WriteCommands(v: View, e: Event, v': View)
    requires Step(v, e, v') && IsRequest(e, FLASH_WRITE) && Acknowledged(e)
    ensures v'.commands == Promised(v) + WriteCommand(SparedAfterwards(v), Address(e.frame))
    ensures v'.spared == SparedAfterwards(v) - {Address(e.frame) / SECTOR_SIZE}
  {
    if v.erase.Running? {
      RunningStep(v, e, v');
    } else {
      assert HandledWrite(v, e.frame, v', OK);
    }
  }

  // ---------------------------------------------------------------- what spared sectors cannot be seen in

  /** The same stub, but for the erase commands it has issued and the sectors it spares. */
  ghost predicate SameButMarks(v: View, w: View) { w == v.(commands := w.commands, spared := w.spared) }

  lemma FollowBusy(v: View, v': View, w: View) returns (w': View)
    requires WellFormed(v) && WellFormed(v') && SameButMarks(v, w) && !Finished(v) && StillBusy(v, v')
    ensures WellFormed(w') && !Finished(w) && StillBusy(w, w') && SameButMarks(v', w')
  {
    w' := v'.(commands := if v.erase.patience > 0 then w.commands else w.commands + [Piece(v'.erase.at, v'.erase.size)],
              spared := if v.erase.patience > 0 then w.spared else Settled(w).spared);
  }

  lemma FollowPoll(v: View, v': View, reason: byte, w: View) returns (w': View)
    requires WellFormed(v) && WellFormed(v') && SameButMarks(v, w) && Polled(v, v', reason)
    ensures WellFormed(w') && Polled(w, w', reason) && SameButMarks(v', w')
  {
    if Finished(v) {
      w' := Settled(w);
    } else {
      w' := FollowBusy(v, v', w);
    }
  }

  lemma FollowErase(v: View, frame: seq<byte>, v': View, reason: byte, w: View) returns (w': View)
    requires WellFormed(v) && WellFormed(v') && SameButMarks(v, w) && HandledErase(v, frame, v', reason)
    ensures WellFormed(w') && HandledErase(w, frame, w', reason) && SameButMarks(v', w')
  {
    if !v.initialized || v.erase.Running? || !Checked(frame) || !EraseableRange(Address(frame), DataLength(frame)) {
      w' := w;
    } else {
      var start, end := Address(frame), RoundUp(Address(frame) + DataLength(frame), SECTOR_SIZE);
      w' := v'.(commands := w.commands + [Piece(start, PieceSize(start, end))], spared := Forgotten(w, start, end).spared);
    }
  }

  lemma FollowWrite(v: View, frame: seq<byte>, v': View, reason: byte, w: View) returns (w': View)
    requires WellFormed(v) && v.erase.Idle? && Checked(frame) && SameButMarks(v, w) && HandledWrite(v, frame, v', reason)
    ensures WellFormed(w') && HandledWrite(w, frame, w', reason) && SameButMarks(v', w')
  {
    if reason == OK {
      w' := v'.(commands := w.commands + WriteCommand(w.spared, Address(frame)),
                spared := w.spared - {Address(frame) / SECTOR_SIZE});
    } else {
      w' := w;
    }
  }

  lemma FollowHandled(v: View, frame: seq<byte>, v': View, reason: byte, data: seq<byte>, w: View) returns (w': View)
    requires WellFormed(v) && WellFormed(v') && SameButMarks(v, w) && |frame| >= 8 && Handled(v, frame, v', reason, data)
    ensures WellFormed(w') && Handled(w, frame, w', reason, data) && SameButMarks(v', w')
  {
    var op := frame[0];
    if op == FLASH_ERASE {
      w' := FollowErase(v, frame, v', reason, w);
    } else if op == FLASH_STATUS {
      w' := FollowPoll(v, v', reason, w);
    } else if op == FLASH_READ && v.initialized {
      if Finished(v) {
        w' := Settled(w);
      } else {
        w' := FollowBusy(v, v', w);
      }
    } else if op == FLASH_WRITE && v.initialized && Checked(frame) {
      if Finished(v) {
        w' := FollowWrite(Settled(v), frame, v', reason, Settled(w));
      } else {
        w' := FollowBusy(v, v', w);
      }
    } else {
      w' := w.(initialized := v'.initialized);
    }
  }

  /**
   * Sparing erase commands is invisible: a stub that spares other sectors, none for example, can
   * answer every request and poll alike, and its flash stays the same.
   */
  lemma MarksAreInvisible(v: View, e: Event, v': View, w: View) returns (w': View)
    requires Step(v, e, v') && SameButMarks(v, w)
    ensures Step(w, e, w') && SameButMarks(v', w')
  {
    match e
    case Poll =>
      w' := FollowPoll(v, v', if Finished(v) then OK else BUSY, w);
    case Exchange(frame, reply) =>
      if |frame| < 8 {
        w' := w;
      } else {
        w' := FollowHandled(v, frame, v', reply[1], ReplyData(reply), w);
      }
  }

  /** What was written is what is read, after any run that does not name those bytes again. */
  lemma WrittenDataIsReadBack(v: View, write: seq<byte>, ack: seq<byte>, views: seq<View>, events: seq<Event>,
                              read: seq<byte>, reply: seq<byte>, v': View)
    requires Run(views, events) && WellFormed(v) && WellFormed(views[0]) && WellFormed(views[|events|])
    requires |write| >= 16 && write[0] == FLASH_WRITE && Served(v, write, views[0], ack) && ack[1] == OK
    requires forall x, k :: Address(write) <= x < Address(write) + DataLength(write) && 0 <= k < |events| && events[k].Exchange? ==>
               !Names(events[k].frame, x)
    requires |read| >= 16 && read[0] == FLASH_READ && Address(read) == Address(write) && DataLength(read) == DataLength(write)
    requires Served(views[|events|], read, v', reply) && reply[1] == OK
    ensures ReplyData(reply) == write[16..]
  {
    WriteStores(v, write, views[0], ack);
    UnnamedRangeKeepsItsValue(views, events, Address(write), DataLength(write));
    ReadReturns(views[|events|], read, v', reply);
  }

  lemma WriteStores(v: View, write: seq<byte>, v': View, ack: seq<byte>)
    requires WellFormed(v) && |write| >= 16 && write[0] == FLASH_WRITE && Served(v, write, v', ack) && ack[1] == OK
    ensures var a, n := Address(write), DataLength(write);
      v'.erase.Idle? && |v'.mem| == CAPACITY && a + n <= CAPACITY && v'.mem[a..a + n] == write[16..]
  {
    assert HandledWrite(Settled(v), write, v', OK);
  }

  lemma ReadReturns(v: View, read: seq<byte>, v': View, reply: seq<byte>)
    requires WellFormed(v) && |read| >= 16 && read[0] == FLASH_READ && Served(v, read, v', reply) && reply[1] == OK
    ensures var a, n := Address(read), DataLength(read);
      a + n <= CAPACITY && ReplyData(reply) == Settled(v).mem[a..a + n]
  {
    assert HandledRead(Settled(v), read, v', OK, ReplyData(reply));
  }

  // ---------------------------------------------------------------- before and after the first write

  predicate Initialises(e: Event) { e.Exchange? && |e.frame| >= 8 && e.frame[0] == FLASH_INIT }

  /** Until an initialise request comes, nothing that is sent changes anything. */
  lemma {:induction false} NothingBeforeInitialise(views: seq<View>, events: seq<Event>)
    requires Run(views, events) && !views[0].initialized && views[0].erase.Idle?
    requires forall k :: 0 <= k < |events| ==> !Initialises(events[k])
    ensures views[|events|] == views[0]
  {
    if events != [] {
      var n := |events| - 1;
      NothingBeforeInitialise(views[..n + 1], events[..n]);
      assert Step(views[n], events[n], views[n + 1]);
    }
  }

  /**
   * The first write to the start of the flash must carry an image header: a length, behind one byte,
   * that leaves room for the header and the digest. It decides the size that the screen shows.
   */
  lemma ImageHeaderIsRequired(v: View, e: Event, v': View)
    requires Step(v, e, v') && IsRequest(e, FLASH_WRITE) && Acknowledged(e) && Address(e.frame) == 0 && v.wireSize == 0
    ensures |e.frame| >= 21 && 0 < LittleEndian(e.frame[17..21]) <= 0x100_0000 - 37
    ensures v'.wireSize == LittleEndian(e.frame[17..21]) + 37
  {
    var data := e.frame[16..];
    assert HandledWrite(Settled(v), e.frame, v', OK);
    assert Ui.PlausibleHeader(data);
    assert data[1..5] == e.frame[17..21];
    FourByteField(e.frame[17..21]);
  }

  /** Only that write changes the size. */
  lemma SizeIsDecidedOnce(v: View, e: Event, v': View)
    requires Step(v, e, v') && v'.wireSize != v.wireSize
    ensures v.wireSize == 0 && IsRequest(e, FLASH_WRITE) && Acknowledged(e) && Address(e.frame) == 0
  {
    if e.Poll? {
      PollKeepsPromise(v, v', if Finished(v) then OK else BUSY);
    }
  }

  // ---------------------------------------------------------------- damaged requests

  /** Damage to at most four consecutive bytes behind the checksum field is always noticed. */
  lemma DamageIsNoticed(frame: seq<byte>, damaged: seq<byte>, i: nat)
    requires Authentic(frame) && Crc32.SameOutside(frame, damaged, i) && i >= 8 && damaged != frame
    ensures !Authentic(damaged)
  {
    assert frame[4..8] == damaged[4..8];
    forall k | 0 <= k < |frame| - 8 && !(i - 8 <= k < i - 8 + 4)
      ensures frame[8..][k] == damaged[8..][k]
    {
    }
    assert frame == frame[..8] + frame[8..] && damaged == damaged[..8] + damaged[8..];
    assert frame[..8] == damaged[..8];
    Crc32.BurstDetected(frame[8..], damaged[8..], i - 8);
  }

  /** So no damage to the address, the length or the data of a request makes the stub write or erase. */
  lemma DamagedRequestDoesNothing(v: View, frame: seq<byte>, damaged: seq<byte>, i: nat, v': View, reply: seq<byte>)
    requires WellFormed(v) && Authentic(frame) && Crc32.SameOutside(frame, damaged, i) && i >= 8 && damaged != frame
    requires damaged[0] == FLASH_WRITE || damaged[0] == FLASH_ERASE
    requires Served(v, damaged, v', reply)
    ensures v' == v && reply[1] != OK
  {
    DamageIsNoticed(frame, damaged, i);
  }
}
