/** hkflash.py: erasing and writing the flash through the stub, and flashing a whole image. */
module HkFlash {
  import opened Bytes
  import opened NorFlash
  import opened IspSpec
  import opened IspRuns
  import opened IspStub
  import opened Link
  import opened FlashLayout
  import Slip
  import Ui

  /** `parse_response(slip_read(...))`: operation and reason of the reply. */
  method Response(wire: seq<byte>, ghost reply: seq<byte>) returns (r: Option<(byte, byte)>)
    requires wire == Slip.Encode(reply) && |reply| >= 2
    ensures r == Some((reply[0], reply[1]))
  {
    Slip.HkReadsFrame(reply);
    var outcome := Slip.HkReadFrame(wire);
    if !outcome.Frame? || |outcome.data| < 2 {
      return None;
    }
    return Some((outcome.data[0], outcome.data[1]));
  }

  /** One request whose frame the stub can hold, and the reply's operation and reason. */
  method Ask(stub: IspStub, frame: seq<byte>) returns (r: Option<(byte, byte)>, ghost seen: View, ghost reply: seq<byte>)
    requires Listening(stub) && 8 <= |frame| <= RX_CAPACITY
    modifies stub, stub.chip, stub.chip.mem, stub.bitmap, stub.rx, stub.tx, stub.decoder, stub.ui, stub.ui.written
    ensures Listening(stub) && WellFormed(seen) && Idled(old(stub.Seen()), seen)
    ensures old(stub.Seen()).erase.Idle? ==> seen == old(stub.Seen())
    ensures Served(seen, frame, stub.Seen(), reply) && r == Some((frame[0], reply[1]))
  {
    var wire;
    wire, seen, reply := Transact(stub, frame);
    IdlingKeepsPromise(old(stub.Seen()), seen);
    r := Response(wire, reply);
  }

  // ---------------------------------------------------------------- erase_flash

  /** The rest of a poll loop is bounded by what is left to erase and the chip's patience. */
  function Remaining(v: View): nat {
    if v.erase.Running? && v.erase.at < v.erase.end then v.erase.end - v.erase.at else 0
  }

  /** The status request, sent as a literal: 0xD9 and twelve zero bytes. */
  const STATUS_FRAME: seq<byte> := [FLASH_STATUS, 0, 0, 0, 0, 0, 0, 0, 0, 0, 0, 0, 0]

  /** The status loop of `erase_flash`: it ends, and then the running erase has done what it promised. */
  method PollUntilDone(stub: IspStub)
    requires Listening(stub) && WellFormed(stub.Seen())
    modifies stub, stub.chip, stub.chip.mem, stub.bitmap, stub.rx, stub.tx, stub.decoder, stub.ui, stub.ui.written
    ensures Listening(stub) && !stub.active
    ensures SamePromise(old(stub.Seen()), stub.Seen())
  {
    ghost var before := stub.Seen();
    var done := false;
    while !done
      invariant Listening(stub) && SamePromise(before, stub.Seen())
      invariant done ==> !stub.active
      decreases !done, stub.active, Remaining(stub.Seen()), stub.chip.patience
    {
      ghost var v := stub.Seen();
      var answer, seen, reply := Ask(stub, STATUS_FRAME);
      stub.SeenWellFormed();
      AnotherPoll(before, v, seen, stub.Seen(), reply[1]);
      done := answer.Some? && answer.value.1 == OK;
    }
  }

  /** Idle turns and then a status request: no promise is broken, and an erase still running is further on. */
  lemma AnotherPoll(before: View, v: View, seen: View, v': View, reason: byte)
    requires SamePromise(before, v) && Idled(v, seen) && WellFormed(seen) && Polled(seen, v', reason)
    ensures SamePromise(before, v') && (reason == OK <==> v'.erase.Idle?)
    ensures v'.erase.Running? ==>
      && v.erase.Running?
      && (Remaining(v') < Remaining(v) || (Remaining(v') == Remaining(v) && v'.erase.patience < v.erase.patience))
  {
    IdlingKeepsPromise(v, seen);
    PollKeepsPromise(seen, v', reason);
    PromiseChain(before, v, seen);
    PromiseChain(before, seen, v');
  }

  predicate Packable(n: int) { 0 <= n < 0x1_0000_0000 }

  /**
   * `K210Isp.erase_flash`. `seen` is the stub when the erase request is complete. The tool takes a
   * busy answer for an accepted request, so it also returns normally when an earlier erase is then
   * still running, and that is the erase it waits for.
   */
  method EraseFlash(stub: IspStub, address: int, length: int) returns (ok: bool, ghost seen: View)
    requires Listening(stub) && stub.initialized
    modifies stub, stub.chip, stub.chip.mem, stub.bitmap, stub.rx, stub.tx, stub.decoder, stub.ui, stub.ui.written
    ensures Listening(stub) && stub.initialized && stub.ui.wireSize == old(stub.ui.wireSize)
    ensures WellFormed(old(stub.Seen())) && WellFormed(stub.Seen()) && Idled(old(stub.Seen()), seen)
    ensures !old(stub.active) ==> seen == old(stub.Seen()) && !stub.active
    ensures ok <==> Packable(address) && Packable(length) && (seen.erase.Running? || EraseableRange(address, length))
    ensures ok ==> !stub.active
    ensures Afterwards(stub.Seen()) == ErasedBy(old(stub.Seen()), seen, address, length, ok)
    ensures EraseIssued(old(stub.Seen()), seen, stub.Seen(), address, length, ok)
  {
    stub.SeenWellFormed();
    ghost var before := stub.Seen();
    seen := before;
    NoIdling(before);
    var payload := Payload(address, length, []);
    if payload.None? {
      NothingIssued(before, before);
      return false, seen;
    }
    RequestFields(FLASH_ERASE, address, length, []);
    var answer;
    ghost var reply;
    answer, seen, reply := Ask(stub, Request(FLASH_ERASE, payload.value));
    stub.SeenWellFormed();
    EraseAnswered(before, seen, Request(FLASH_ERASE, payload.value), stub.Seen(), reply[1], address, length);
    EraseCommands(before, seen, Request(FLASH_ERASE, payload.value), stub.Seen(), reply[1], address, length);
    if answer.None? || answer.value.1 !in {OK, BUSY} {
      return false, seen;
    }
    ghost var asked := stub.Seen();
    PollUntilDone(stub);
    IssuedAsPromised(before, seen, asked, stub.Seen(), address, length, true);
    return true, seen;
  }

  /** The flash, once no erase runs any more, after an erase of a range was asked for. */
  ghost function ErasedBy(before: View, seen: View, address: int, length: int, ok: bool): seq<byte>
    requires WellFormed(before)
    requires ok && seen.erase.Idle? ==> 0 <= address && 0 <= length && EraseableRange(address, length)
  {
    if ok && seen.erase.Idle? then Erased(Afterwards(before), address, RoundUp(address + length, SECTOR_SIZE) - address)
    else Afterwards(before)
  }

  /** The commands that the chip will have seen when no erase is left, and the sectors that are then spared. */
  ghost predicate Issued(before: View, v: View, commands: seq<Piece>, spared: set<nat>)
    requires WellFormed(before) && WellFormed(v)
  {
    Promised(v) == Promised(before) + commands && SparedAfterwards(v) == spared
  }

  lemma NothingIssued(before: View, v: View)
    requires WellFormed(before) && WellFormed(v)
    requires Promised(v) == Promised(before) && SparedAfterwards(v) == SparedAfterwards(before)
    ensures Issued(before, v, [], SparedAfterwards(before))
  {
  }

  /** An erase that is not dropped is issued as the tiling of its range, and spares its sectors. */
  ghost predicate EraseIssued(before: View, seen: View, v: View, address: int, length: int, ok: bool)
    requires WellFormed(before) && WellFormed(v)
    requires ok && seen.erase.Idle? ==> 0 <= address && 0 <= length && EraseableRange(address, length)
  {
    if ok && seen.erase.Idle? then
      var end := RoundUp(address + length, SECTOR_SIZE);
      Issued(before, v, Tiling(address, end), SparedAfterwards(before) + SectorsOf(address, end - address))
    else Issued(before, v, [], SparedAfterwards(before))
  }

  lemma IssuedAsPromised(before: View, seen: View, v: View, v': View, address: int, length: int, ok: bool)
    requires WellFormed(before) && SamePromise(v, v')
    requires ok && seen.erase.Idle? ==> 0 <= address && 0 <= length && EraseableRange(address, length)
    requires EraseIssued(before, seen, v, address, length, ok)
    ensures EraseIssued(before, seen, v', address, length, ok)
  {
  }

  /** Every byte of the range, up to the end of its last sector, is blank. */
  ghost predicate Blanked(m: seq<byte>, address: nat, length: nat)
    requires |m| == CAPACITY && EraseableRange(address, length)
  {
    forall x :: address <= x < RoundUp(address + length, SECTOR_SIZE) && x < |m| ==> m[x] == BLANK
  }

  lemma BlankedBy(before: View, seen: View, address: nat, length: nat)
    requires WellFormed(before) && EraseableRange(address, length)
    ensures Blanked(ErasedBy(before, seen, address, length, true), address, length) <==>
      seen.erase.Idle? || Blanked(Afterwards(before), address, length)
  {
    if seen.erase.Idle? {
      RangeFits(address, length);
    }
  }

  /**
   * When a normal return means that the range is blank: whatever idle turns the stub takes before
   * the request arrives, exactly if no erase is running at the call, or if the range will be blank
   * anyway once the running one is over.
   */
  lemma ReturnMeansBlank(before: View, address: nat, length: nat)
    requires WellFormed(before) && EraseableRange(address, length)
    ensures (forall seen :: Idled(before, seen) ==> Blanked(ErasedBy(before, seen, address, length, true), address, length)) <==>
      before.erase.Idle? || Blanked(Afterwards(before), address, length)
  {
    NoIdling(before);
    BlankedBy(before, before, address, length);
    forall seen | Idled(before, seen)
      ensures Blanked(ErasedBy(before, seen, address, length, true), address, length) <==>
        seen.erase.Idle? || Blanked(Afterwards(before), address, length)
      ensures before.erase.Idle? ==> seen.erase.Idle?
    {
      IdlingKeepsPromise(before, seen);
      BlankedBy(before, seen, address, length);
    }
  }

  /** An erase of the second sector, asked for while the first is being erased, returns and erases nothing of it. */
  lemma SecondEraseIsDropped(mem: seq<byte>)
    requires |mem| == CAPACITY && mem[SECTOR_SIZE] != BLANK
    ensures var before := View(true, mem, Running(0, SECTOR_SIZE, 0, SECTOR_SIZE, 0), 0, [Piece(0, SECTOR_SIZE)], {}, 0, [0xEF, 0x40, 0x18]);
      && WellFormed(before) && EraseableRange(SECTOR_SIZE, SECTOR_SIZE) && Idled(before, before)
      && ErasedBy(before, before, SECTOR_SIZE, SECTOR_SIZE, true)[SECTOR_SIZE] == mem[SECTOR_SIZE]
      && !Blanked(ErasedBy(before, before, SECTOR_SIZE, SECTOR_SIZE, true), SECTOR_SIZE, SECTOR_SIZE)
  {
    var before := View(true, mem, Running(0, SECTOR_SIZE, 0, SECTOR_SIZE, 0), 0, [Piece(0, SECTOR_SIZE)], {}, 0, [0xEF, 0x40, 0x18]);
    NoIdling(before);
    assert Afterwards(before)[SECTOR_SIZE] == mem[SECTOR_SIZE];
  }

  lemma EraseAnswered(before: View, seen: View, frame: seq<byte>, v: View, reason: byte, address: u32, length: u32)
    requires WellFormed(before) && before.initialized && Idled(before, seen) && WellFormed(seen) && WellFormed(v)
    requires Checked(frame) && Address(frame) == address && DataLength(frame) == length
    requires HandledErase(seen, frame, v, reason)
    ensures v.initialized && v.wireSize == before.wireSize
    ensures reason in {OK, BUSY} <==> seen.erase.Running? || EraseableRange(address, length)
    ensures seen.erase.Idle? && reason !in {OK, BUSY} ==> v.erase.Idle?
    ensures Afterwards(v) == ErasedBy(before, seen, address, length, reason in {OK, BUSY})
  {
    IdlingKeepsPromise(before, seen);
    if seen.erase.Idle? && EraseableRange(address, length) {
      RangeFits(address, length);
      AcceptedPromise(seen, v, address, RoundUp(address + length, SECTOR_SIZE));
    }
  }

  lemma EraseCommands(before: View, seen: View, frame: seq<byte>, v: View, reason: byte, address: u32, length: u32)
    requires WellFormed(before) && before.initialized && Idled(before, seen) && WellFormed(seen) && WellFormed(v)
    requires Checked(frame) && Address(frame) == address && DataLength(frame) == length
    requires HandledErase(seen, frame, v, reason)
    ensures seen.erase.Idle? && reason in {OK, BUSY} ==> EraseableRange(address, length)
    ensures EraseIssued(before, seen, v, address, length, reason in {OK, BUSY})
  {
    IdlingKeepsPromise(before, seen);
    if seen.erase.Idle? && EraseableRange(address, length) {
      RangeFits(address, length);
      AcceptedPromise(seen, v, address, RoundUp(address + length, SECTOR_SIZE));
      NothingPending(seen);
    } else {
      assert v == seen;
      NothingIssued(before, v);
    }
  }

  lemma NothingPending(v: View)
    requires WellFormed(v) && v.erase.Idle?
    ensures Promised(v) == v.commands && SparedAfterwards(v) == v.spared
  {
  }

  // ---------------------------------------------------------------- write_flash

  /** The data as it reaches the flash: zero-padded to whole 4096-byte chunks. */
  function Padded(data: seq<byte>): (s: seq<byte>)
    ensures |s| == RoundUp(|data|, MAX_BLOCK) && data <= s
  {
    data + ZeroBytes(RoundUp(|data|, MAX_BLOCK) - |data|)
  }

  predicate Writable(wireSize: nat, address: int, data: seq<byte>) {
    data == [] ||
    (&& 0 <= address && address % SECTOR_SIZE == 0 && address + RoundUp(|data|, MAX_BLOCK) <= CAPACITY
     && Ui.AcceptsWrite(wireSize, address, Padded(data)[..MAX_BLOCK]))
  }

  /** `data[done : done + FLASH_CHUNK]`, its length, and `chunk.ljust(FLASH_CHUNK, b"\0")`. */
  method WireChunk(data: seq<byte>, done: nat) returns (length: nat, chunk: seq<byte>)
    requires done < |data| && done % MAX_BLOCK == 0
    ensures length == if done + MAX_BLOCK < |data| then MAX_BLOCK else |data| - done
    ensures done + MAX_BLOCK <= |Padded(data)| && chunk == Padded(data)[done..done + MAX_BLOCK]
  {
    var stop := if done + MAX_BLOCK < |data| then done + MAX_BLOCK else |data|;
    length, chunk := stop - done, data[done..stop] + ZeroBytes(MAX_BLOCK - (stop - done));
  }

  /**
   * One chunk: the request, and the wait for its answer. A busy answer means that the stub has
   * dropped the chunk; the tool waits for another answer, but none comes.
   */
  method WriteChunk(stub: IspStub, address: int, chunk: seq<byte>) returns (ok: bool, ghost seen: View)
    requires Listening(stub) && stub.initialized && |chunk| == MAX_BLOCK
    modifies stub, stub.chip, stub.chip.mem, stub.bitmap, stub.rx, stub.tx, stub.decoder, stub.ui, stub.ui.written
    ensures Listening(stub) && stub.initialized
    ensures ChunkDone(old(stub.Seen()), seen, stub.Seen(), address, chunk, ok)
  {
    stub.SeenWellFormed();
    ghost var before := stub.Seen();
    var payload := Payload(address, |chunk|, chunk);
    if payload.None? {
      NotSent(before, address, chunk);
      return false, before;
    }
    RequestFields(FLASH_WRITE, address, |chunk|, chunk);
    var answer;
    ghost var reply;
    answer, seen, reply := Ask(stub, Request(FLASH_WRITE, payload.value));
    stub.SeenWellFormed();
    WriteAnswered(before, seen, Request(FLASH_WRITE, payload.value), stub.Seen(), reply[1], address, chunk);
    ok := answer == Some((FLASH_WRITE, OK));
    if answer == Some((FLASH_WRITE, BUSY)) {
      var more := Slip.HkReadFrame([]);
      assert more.TimedOut?;
    }
  }

  /** A chunk sent from `before` has been complete at `seen`, and the answer has left the stub at `v`. */
  ghost predicate ChunkDone(before: View, seen: View, v: View, address: int, chunk: seq<byte>, ok: bool) {
    && WellFormed(before) && WellFormed(v) && Idled(before, seen)
    && (before.erase.Idle? ==> seen == before && v.erase.Idle?)
    && (ok <==> Finished(seen) && 0 <= address && WritableRange(address, |chunk|) && Ui.AcceptsWrite(before.wireSize, address, chunk))
    && if ok then v.erase.Idle? && v.wireSize == Ui.TrackedSize(before.wireSize, address, chunk)
                  && Afterwards(v) == Splice(Afterwards(before), address, chunk)
                  && Issued(before, v, WriteCommand(SparedAfterwards(before), address), SparedAfterwards(before) - {address / SECTOR_SIZE})
       else v.wireSize == before.wireSize && Afterwards(v) == Afterwards(before) && Issued(before, v, [], SparedAfterwards(before))
  }

  lemma WriteAnswered(before: View, seen: View, frame: seq<byte>, v: View, reason: byte, address: u32, chunk: seq<byte>)
    requires WellFormed(before) && before.initialized && Idled(before, seen) && WellFormed(seen) && WellFormed(v)
    requires |chunk| == MAX_BLOCK && Checked(frame) && frame[0] == FLASH_WRITE
    requires Address(frame) == address && DataLength(frame) == MAX_BLOCK && frame[16..] == chunk
    requires Handled(seen, frame, v, reason, [])
    ensures v.initialized && ChunkDone(before, seen, v, address, chunk, reason == OK)
  {
    IdlingKeepsPromise(before, seen);
    WriteIssued(before, seen, frame, v, reason, address, chunk);
    if Finished(seen) {
      SettledKeepsPromise(seen);
      if reason == OK {
        FullSectorWrite(Settled(seen).mem, address, chunk);
      }
    } else {
      BusyKeepsPromise(seen, v);
    }
  }

  lemma WriteIssued(before: View, seen: View, frame: seq<byte>, v: View, reason: byte, address: u32, chunk: seq<byte>)
    requires WellFormed(before) && before.initialized && Idled(before, seen) && WellFormed(seen) && WellFormed(v)
    requires |chunk| == MAX_BLOCK && Checked(frame) && frame[0] == FLASH_WRITE
    requires Address(frame) == address && DataLength(frame) == MAX_BLOCK && frame[16..] == chunk
    requires Handled(seen, frame, v, reason, [])
    ensures Issued(before, v, if reason == OK then WriteCommand(SparedAfterwards(before), address) else [],
                   SparedAfterwards(before) - if reason == OK then {address / SECTOR_SIZE} else {})
  {
    IdlingKeepsPromise(before, seen);
    if !Finished(seen) {
      BusyKeepsPromise(seen, v);
      NothingIssued(before, v);
    } else {
      SettledKeepsPromise(seen);
      NothingPending(Settled(seen));
      assert HandledWrite(Settled(seen), frame, v, reason);
      NothingPending(v);
      if reason != OK {
        NothingIssued(before, v);
      }
    }
  }

  lemma NotSent(before: View, address: int, chunk: seq<byte>)
    requires WellFormed(before) && |chunk| == MAX_BLOCK && Payload(address, |chunk|, chunk).None?
    ensures ChunkDone(before, before, before, address, chunk, false)
  {
    NoIdling(before);
    NothingIssued(before, before);
  }

  lemma FullSectorWrite(m: seq<byte>, address: nat, chunk: seq<byte>)
    requires |m| == CAPACITY && |chunk| == MAX_BLOCK && WritableRange(address, MAX_BLOCK)
    ensures SectorWrite(m, address, chunk) == Splice(m, address, chunk)
  {
  }

  /**
   * `K210Isp.write_flash`. `seen` is the stub when the first chunk is complete: the write succeeds
   * exactly when the data is acceptable and no erase is left by then. `sent` is how far it got.
   */
  method WriteFlash(stub: IspStub, address: int, data: seq<byte>) returns (ok: bool, ghost seen: View, ghost sent: nat)
    requires Listening(stub) && stub.initialized
    modifies stub, stub.chip, stub.chip.mem, stub.bitmap, stub.rx, stub.tx, stub.decoder, stub.ui, stub.ui.written
    ensures Listening(stub) && stub.initialized
    ensures WriteDone(old(stub.Seen()), seen, stub.Seen(), address, data, sent, ok)
  {
    stub.SeenWellFormed();
    ghost var before := stub.Seen();
    ghost var v, views, arrivals := before, [before], [];
    var done := 0;
    while done < |data|
      invariant Listening(stub) && stub.initialized && stub.Seen() == v && Sends(views, arrivals, before, v, address, data)
      invariant done == if |arrivals| * MAX_BLOCK < |data| then |arrivals| * MAX_BLOCK else |data|
    {
      var length;
      ok, length, views, arrivals, seen := SendNext(stub, address, data, done, before, v, views, arrivals);
      v := stub.Seen();
      if !ok {
        return false, seen, done;
      }
      done := done + length;
    }
    AllSent(views, arrivals, before, v, address, data);
    return true, FirstArrival(before, arrivals), |arrivals| * MAX_BLOCK;
  }

  /** The data has been sent from `before`, its first chunk was complete at `seen`, and the stub is left at `v`. */
  ghost predicate WriteDone(before: View, seen: View, v: View, address: int, data: seq<byte>, sent: nat, ok: bool) {
    && WellFormed(before) && WellFormed(v) && Idled(before, seen)
    && (before.erase.Idle? ==> seen == before && v.erase.Idle?)
    && (ok <==> Writable(before.wireSize, address, data) && (data != [] ==> Finished(seen)))
    && (ok && data != [] ==> v.erase.Idle?)
    && Written(Afterwards(before), address, data, sent, Afterwards(v))
    && (ok <==> sent == |Padded(data)|)
    && ChunksIssued(before, v, address, sent)
  }

  /** Chunk `k` was complete at `arrivals[k]` and has been accepted between `views[k]` and `views[k + 1]`. */
  ghost predicate ChunkAccepted(views: seq<View>, arrivals: seq<View>, address: int, data: seq<byte>, k: nat)
    requires k < |arrivals| && |views| == |arrivals| + 1
  {
    AcceptedAt(views[k], arrivals[k], views[k + 1], address, data, k * MAX_BLOCK)
  }

  ghost predicate AcceptedAt(v: View, arrived: View, v': View, address: int, data: seq<byte>, sent: nat) {
    sent + MAX_BLOCK <= |Padded(data)| && ChunkDone(v, arrived, v', address + sent, Padded(data)[sent..sent + MAX_BLOCK], true)
  }

  /** The accepted chunks lead from `before` to `v`. */
  ghost predicate Sends(views: seq<View>, arrivals: seq<View>, before: View, v: View, address: int, data: seq<byte>) {
    && |views| == |arrivals| + 1 && views[0] == before && views[|arrivals|] == v && WellFormed(before)
    && forall k: nat :: k < |arrivals| ==> ChunkAccepted(views, arrivals, address, data, k)
  }

  ghost function FirstArrival(before: View, arrivals: seq<View>): View {
    if arrivals == [] then before else arrivals[0]
  }

  /** The chunk at `done`, after the ones before it. */
  method SendNext(stub: IspStub, address: int, data: seq<byte>, done: nat, ghost before: View, ghost v: View,
                  ghost views: seq<View>, ghost arrivals: seq<View>)
    returns (ok: bool, length: nat, ghost views': seq<View>, ghost arrivals': seq<View>, ghost first: View)
    requires Listening(stub) && stub.initialized && done == |arrivals| * MAX_BLOCK < |data|
    requires stub.Seen() == v && Sends(views, arrivals, before, v, address, data)
    modifies stub, stub.chip, stub.chip.mem, stub.bitmap, stub.rx, stub.tx, stub.decoder, stub.ui, stub.ui.written
    ensures Listening(stub) && stub.initialized
    ensures length == if done + MAX_BLOCK < |data| then MAX_BLOCK else |data| - done
    ensures ok ==> |arrivals'| == |arrivals| + 1 && Sends(views', arrivals', before, stub.Seen(), address, data)
    ensures !ok ==> WriteDone(before, first, stub.Seen(), address, data, done, false)
  {
    var chunk;
    length, chunk := WireChunk(data, done);
    ghost var arrived;
    ok, arrived := WriteChunk(stub, address + done, chunk);
    ghost var next := stub.Seen();
    views', arrivals', first := views + [next], arrivals + [arrived], FirstArrival(before, arrivals + [arrived]);
    ChunkAnswered(views, arrivals, before, v, address, data, done, chunk, arrived, next, ok);
  }

  lemma ChunkAnswered(views: seq<View>, arrivals: seq<View>, before: View, v: View, address: int, data: seq<byte>, done: nat,
                      chunk: seq<byte>, arrived: View, v': View, ok: bool)
    requires Sends(views, arrivals, before, v, address, data) && done == |arrivals| * MAX_BLOCK
    requires done + MAX_BLOCK <= |Padded(data)| && chunk == Padded(data)[done..done + MAX_BLOCK]
    requires ChunkDone(v, arrived, v', address + done, chunk, ok)
    ensures if ok then Sends(views + [v'], arrivals + [arrived], before, v', address, data)
            else WriteDone(before, FirstArrival(before, arrivals + [arrived]), v', address, data, done, false)
  {
    if ok {
      OneMoreChunk(views, arrivals, before, v, address, data, chunk, arrived, v');
    } else {
      ChunkRefused(views, arrivals, before, v, address, data, chunk, arrived, v');
    }
  }

  lemma OneMoreChunk(views: seq<View>, arrivals: seq<View>, before: View, v: View, address: int, data: seq<byte>, chunk: seq<byte>,
                     arrived: View, v': View)
    requires Sends(views, arrivals, before, v, address, data)
    requires var sent := |arrivals| * MAX_BLOCK;
      sent + MAX_BLOCK <= |Padded(data)| && chunk == Padded(data)[sent..sent + MAX_BLOCK] && ChunkDone(v, arrived, v', address + sent, chunk, true)
    ensures Sends(views + [v'], arrivals + [arrived], before, v', address, data)
  {
    var n, vs, seens := |arrivals|, views + [v'], arrivals + [arrived];
    assert AcceptedAt(v, arrived, v', address, data, n * MAX_BLOCK);
    forall k: nat | k <= n ensures ChunkAccepted(vs, seens, address, data, k) {
      if k < n {
        assert ChunkAccepted(views, arrivals, address, data, k);
        assert vs[k] == views[k] && vs[k + 1] == views[k + 1] && seens[k] == arrivals[k];
      }
    }
  }

  lemma ChunkRefused(views: seq<View>, arrivals: seq<View>, before: View, v: View, address: int, data: seq<byte>, chunk: seq<byte>,
                     arrived: View, v': View)
    requires Sends(views, arrivals, before, v, address, data)
    requires var sent := |arrivals| * MAX_BLOCK;
      sent + MAX_BLOCK <= |Padded(data)| && chunk == Padded(data)[sent..sent + MAX_BLOCK] && ChunkDone(v, arrived, v', address + sent, chunk, false)
    ensures WriteDone(before, FirstArrival(before, arrivals + [arrived]), v', address, data, |arrivals| * MAX_BLOCK, false)
  {
    var sent, first := |arrivals| * MAX_BLOCK, FirstArrival(before, arrivals + [arrived]);
    SendsChunks(views, arrivals, before, v, address, data);
    RefusedAfter(before, FirstArrival(before, arrivals), v, arrived, v', address, data, sent);
    RefusedIsDone(before, first, v', address, data, sent);
  }

  /** Accepted chunks add up. */
  lemma {:induction false} SendsChunks(views: seq<View>, arrivals: seq<View>, before: View, v: View, address: int, data: seq<byte>)
    requires Sends(views, arrivals, before, v, address, data)
    ensures Chunks(before, FirstArrival(before, arrivals), v, address, data, |arrivals| * MAX_BLOCK)
  {
    if arrivals == [] {
      NothingSent(before, address, data);
    } else {
      var n := |arrivals| - 1;
      FewerChunks(views, arrivals, before, v, address, data);
      SendsChunks(views[..n + 1], arrivals[..n], before, views[n], address, data);
      assert ChunkAccepted(views, arrivals, address, data, n);
      LastChunk(arrivals, before, views[n], v, address, data, n * MAX_BLOCK, |arrivals| * MAX_BLOCK);
    }
  }

  lemma LastChunk(arrivals: seq<View>, before: View, v: View, v': View, address: int, data: seq<byte>, sent: nat, sent': nat)
    requires arrivals != [] && sent == (|arrivals| - 1) * MAX_BLOCK && sent' == sent + MAX_BLOCK
    requires Chunks(before, FirstArrival(before, arrivals[..|arrivals| - 1]), v, address, data, sent)
    requires AcceptedAt(v, arrivals[|arrivals| - 1], v', address, data, sent)
    ensures Chunks(before, FirstArrival(before, arrivals), v', address, data, sent')
  {
    var n := |arrivals| - 1;
    var seen, first := FirstArrival(before, arrivals[..n]), FirstArrival(before, arrivals);
    assert first == if sent == 0 then arrivals[n] else seen;
    ChunkSent(before, seen, v, arrivals[n], v', address, data, sent, first);
  }

  lemma FewerChunks(views: seq<View>, arrivals: seq<View>, before: View, v: View, address: int, data: seq<byte>)
    requires Sends(views, arrivals, before, v, address, data) && arrivals != []
    ensures var n := |arrivals| - 1; Sends(views[..n + 1], arrivals[..n], before, views[n], address, data)
  {
    var n := |arrivals| - 1;
    var vs, seens := views[..n + 1], arrivals[..n];
    forall k: nat | k < n ensures ChunkAccepted(vs, seens, address, data, k) {
      assert ChunkAccepted(views, arrivals, address, data, k);
    }
  }

  /** The erase commands that writing the sectors of a range takes: one for each that is not spared. */
  function SectorCommands(spared: set<nat>, address: nat, size: nat): seq<Piece> {
    if size < MAX_BLOCK then []
    else SectorCommands(spared, address, size - MAX_BLOCK) + WriteCommand(spared, address + size - MAX_BLOCK)
  }

  ghost predicate ChunksIssued(before: View, v: View, address: int, sent: nat)
    requires WellFormed(before) && WellFormed(v)
  {
    var spared := SparedAfterwards(before);
    if sent == 0 then Issued(before, v, [], spared)
    else 0 <= address && Issued(before, v, SectorCommands(spared, address, sent), spared - SectorsOf(address, sent))
  }

  lemma NextChunkIssued(before: View, v: View, v': View, address: int, sent: nat)
    requires WellFormed(before) && WellFormed(v) && WellFormed(v') && ChunksIssued(before, v, address, sent)
    requires sent % MAX_BLOCK == 0 && 0 <= address && address % SECTOR_SIZE == 0
    requires Issued(v, v', WriteCommand(SparedAfterwards(v), address + sent), SparedAfterwards(v) - {(address + sent) / SECTOR_SIZE})
    ensures ChunksIssued(before, v', address, sent + MAX_BLOCK)
  {
    var spared, s := SparedAfterwards(before), (address + sent) / SECTOR_SIZE;
    assert (address + sent + MAX_BLOCK) / SECTOR_SIZE == s + 1;
    var before', next := SectorsOf(address, sent), SectorsOf(address, sent + MAX_BLOCK);
    assert next == before' + {s} && s !in before' by {
      assert forall x: nat :: Between(x, address / SECTOR_SIZE, s + 1) <==> Between(x, address / SECTOR_SIZE, s) || x == s;
    }
    assert spared - next == spared - before' - {s};
  }

  /** Freshly erased sectors take no command. */
  lemma {:induction false} SparedSectorsAreFree(spared: set<nat>, address: nat, size: nat)
    requires address % SECTOR_SIZE == size % MAX_BLOCK == 0 && SectorsOf(address, size) <= spared
    ensures SectorCommands(spared, address, size) == []
  {
    if size > 0 {
      var s := (address + size - MAX_BLOCK) / SECTOR_SIZE;
      assert Between(s, address / SECTOR_SIZE, (address + size) / SECTOR_SIZE);
      assert SectorsOf(address, size - MAX_BLOCK) <= SectorsOf(address, size) by {
        assert forall x: nat :: Between(x, address / SECTOR_SIZE, s) ==> Between(x, address / SECTOR_SIZE, s + 1);
      }
      SparedSectorsAreFree(spared, address, size - MAX_BLOCK);
    }
  }

  /** The first `sent` bytes of the padded data have been written, and nothing else has changed. */
  ghost predicate Written(m: seq<byte>, address: int, data: seq<byte>, sent: nat, now: seq<byte>) {
    && sent % MAX_BLOCK == 0 && sent <= |Padded(data)| && |m| == CAPACITY
    && if sent == 0 then now == m
       else 0 <= address && address % SECTOR_SIZE == 0 && address + sent <= CAPACITY
            && now == Splice(m, address, Padded(data)[..sent])
  }

  /** After `sent` bytes of padded data, with the flash and the tracked size as given. */
  ghost predicate Sending(m: seq<byte>, wire: nat, address: int, data: seq<byte>, sent: nat, now: seq<byte>, size: nat) {
    && Written(m, address, data, sent, now)
    && (sent == 0 ==> size == wire)
    && (sent > 0 ==> Ui.AcceptsWrite(wire, address, Padded(data)[..MAX_BLOCK]) && (address == 0 ==> size != 0))
  }

  /** The loop of `write_flash`: the chunks before `sent` were accepted, the first of them at `seen`. */
  ghost predicate Chunks(before: View, seen: View, v: View, address: int, data: seq<byte>, sent: nat) {
    && WellFormed(before) && WellFormed(v) && Idled(before, seen)
    && (before.erase.Idle? ==> seen == before && v.erase.Idle?)
    && (if sent == 0 then seen == v == before else v.erase.Idle? && Finished(seen))
    && Sending(Afterwards(before), before.wireSize, address, data, sent, Afterwards(v), v.wireSize)
    && ChunksIssued(before, v, address, sent)
  }

  lemma ChunkSent(before: View, seen: View, v: View, arrived: View, v': View, address: int, data: seq<byte>, sent: nat, first: View)
    requires Chunks(before, seen, v, address, data, sent) && AcceptedAt(v, arrived, v', address, data, sent)
    requires first == if sent == 0 then arrived else seen
    ensures Chunks(before, first, v', address, data, sent + MAX_BLOCK)
  {
    SentChunk(Afterwards(before), before.wireSize, address, data, sent, Afterwards(v), v.wireSize);
    NextChunkIssued(before, v, v', address, sent);
  }

  lemma RefusedAfter(before: View, seen: View, v: View, arrived: View, v': View, address: int, data: seq<byte>, sent: nat)
    requires Chunks(before, seen, v, address, data, sent) && sent + MAX_BLOCK <= |Padded(data)|
    requires ChunkDone(v, arrived, v', address + sent, Padded(data)[sent..sent + MAX_BLOCK], false)
    ensures Refused(before, if sent == 0 then arrived else seen, v', address, data, sent)
  {
    SameIssued(before, v, v', address, sent);
    if Finished(arrived) {
      RefusedIsUnwritable(before.wireSize, v.wireSize, address, data, sent);
    }
  }

  lemma RefusedIsUnwritable(wire: nat, size: nat, address: int, data: seq<byte>, sent: nat)
    requires data != [] && sent % MAX_BLOCK == 0 && sent + MAX_BLOCK <= |Padded(data)|
    requires if sent == 0 then size == wire else 0 <= address
    requires !(&& 0 <= address + sent && WritableRange(address + sent, MAX_BLOCK)
               && Ui.AcceptsWrite(size, address + sent, Padded(data)[sent..sent + MAX_BLOCK]))
    ensures !Writable(wire, address, data)
  {
  }

  /** A chunk is refused only if it is the first, or if the flash has no room for it. */
  ghost predicate Refused(before: View, seen: View, v: View, address: int, data: seq<byte>, sent: nat) {
    && WellFormed(before) && WellFormed(v) && Idled(before, seen)
    && (before.erase.Idle? ==> seen == before && v.erase.Idle?)
    && !(Writable(before.wireSize, address, data) && Finished(seen)) && data != [] && sent != |Padded(data)|
    && Written(Afterwards(before), address, data, sent, Afterwards(v))
    && ChunksIssued(before, v, address, sent)
  }

  lemma SameIssued(before: View, v: View, v': View, address: int, sent: nat)
    requires WellFormed(before) && WellFormed(v) && WellFormed(v') && ChunksIssued(before, v, address, sent)
    requires Issued(v, v', [], SparedAfterwards(v))
    ensures ChunksIssued(before, v', address, sent)
  {
    assert Promised(v) + [] == Promised(v);
  }

  lemma NothingSent(before: View, address: int, data: seq<byte>)
    requires WellFormed(before)
    ensures Chunks(before, before, before, address, data, 0)
  {
    NoIdling(before);
    NothingIssued(before, before);
  }

  lemma RefusedIsDone(before: View, seen: View, v: View, address: int, data: seq<byte>, sent: nat)
    requires Refused(before, seen, v, address, data, sent)
    ensures WriteDone(before, seen, v, address, data, sent, false)
  {
  }

  lemma SentChunk(m: seq<byte>, wire: nat, address: int, data: seq<byte>, done: nat, now: seq<byte>, size: nat)
    requires Sending(m, wire, address, data, done, now, size) && done + MAX_BLOCK <= |Padded(data)|
    requires 0 <= address + done && WritableRange(address + done, MAX_BLOCK) && |now| == CAPACITY
    requires Ui.AcceptsWrite(size, address + done, Padded(data)[done..done + MAX_BLOCK])
    ensures var chunk := Padded(data)[done..done + MAX_BLOCK];
      Sending(m, wire, address, data, done + MAX_BLOCK, Splice(now, address + done, chunk), Ui.TrackedSize(size, address + done, chunk))
  {
    if done > 0 {
      SpliceNext(m, address, Padded(data), done);
    }
  }

  lemma AllSent(views: seq<View>, arrivals: seq<View>, before: View, v: View, address: int, data: seq<byte>)
    requires Sends(views, arrivals, before, v, address, data) && |arrivals| * MAX_BLOCK >= |data|
    ensures WriteDone(before, FirstArrival(before, arrivals), v, address, data, |arrivals| * MAX_BLOCK, true)
  {
    SendsChunks(views, arrivals, before, v, address, data);
    AllChunks(before, FirstArrival(before, arrivals), v, address, data, |arrivals| * MAX_BLOCK);
  }

  lemma AllChunks(before: View, seen: View, v: View, address: int, data: seq<byte>, sent: nat)
    requires Chunks(before, seen, v, address, data, sent) && sent >= |data|
    ensures WriteDone(before, seen, v, address, data, sent, true)
  {
    SentIsWritable(Afterwards(before), before.wireSize, address, data, sent, Afterwards(v), v.wireSize);
  }

  lemma SentIsWritable(m: seq<byte>, wire: nat, address: int, data: seq<byte>, sent: nat, now: seq<byte>, size: nat)
    requires Sending(m, wire, address, data, sent, now, size) && sent >= |data|
    ensures Writable(wire, address, data) && sent == |Padded(data)|
  {
  }

  lemma AllWritten(m: seq<byte>, address: int, data: seq<byte>, now: seq<byte>)
    requires Written(m, address, data, |Padded(data)|, now) && data != []
    ensures 0 <= address && address + |Padded(data)| <= CAPACITY && now == Splice(m, address, Padded(data))
  {
    assert Padded(data)[..|Padded(data)|] == Padded(data);
  }

  lemma SpliceNext(m: seq<byte>, address: nat, s: seq<byte>, done: nat)
    requires done + MAX_BLOCK <= |s| && address + done + MAX_BLOCK <= |m|
    ensures Splice(Splice(m, address, s[..done]), address + done, s[done..done + MAX_BLOCK])
         == Splice(m, address, s[..done + MAX_BLOCK])
  {
  }

  // ---------------------------------------------------------------- flashing an image

  /** `make_k210_image_payload`, with SHA-256 as an unspecified function. */
  function ImagePayload(raw: seq<byte>, dio: bool, sha256: seq<byte> -> seq<byte>): Option<seq<byte>> {
    if |raw| >= 0x1_0000_0000 then None
    else
      var data := [if dio then 0x02 else 0x00] + Le32(|raw|) + raw;
      Some(data + sha256(data))
  }

  /** `firmware_erase_length`. */
  function EraseLength(payloadSize: nat, address: nat, limit: nat, eraseSize: nat): Option<nat>
    requires eraseSize > 0
  {
    if payloadSize == 0 || address + RoundUp(payloadSize, eraseSize) > limit then None
    else Some(RoundUp(payloadSize, eraseSize))
  }

  /** The header that `ui_validate_write` looks for is there, in the first chunk. */
  lemma PayloadHasHeader(raw: seq<byte>, dio: bool, sha256: seq<byte> -> seq<byte>)
    requires |raw| < 0x1_0000_0000
    ensures var p := Padded(ImagePayload(raw, dio, sha256).value);
            |p| >= MAX_BLOCK && (Ui.PlausibleHeader(p[..MAX_BLOCK]) <==> 0 < |raw| <= CAPACITY - Ui.IMAGE_OVERHEAD)
    ensures (forall s :: |sha256(s)| == 32) ==>
            var payload := ImagePayload(raw, dio, sha256).value; |payload| == |raw| + 37 && ImageAt(payload, 0, raw, dio, sha256)
  {
    if forall s :: |sha256(s)| == 32 {
      PayloadIsImage(ImagePayload(raw, dio, sha256).value, 0, raw, dio, sha256);
    }
    var payload := ImagePayload(raw, dio, sha256).value;
    var p := Padded(payload);
    assert |payload| >= 5 && payload[1..5] == Le32(|raw|);
    assert p[..MAX_BLOCK][1..5] == payload[1..5];
    Le32RoundTrip(|raw|);
  }

  lemma RoundUpBounds(n: nat, unit: nat)
    requires unit > 0
    ensures n <= RoundUp(n, unit) < n + unit
  {
    var k := (n + unit - 1) / unit;
    assert n + unit - 1 == unit * k + (n + unit - 1) % unit;
  }

  /** Rounding up gives the least multiple of the unit that is not below the number. */
  lemma RoundUpIsLeastMultiple(n: nat, unit: nat) returns (k: nat)
    requires unit > 0
    ensures n <= RoundUp(n, unit) == k * unit
    ensures forall j: nat :: n <= j * unit ==> k <= j
  {
    k := (n + unit - 1) / unit;
    RoundUpBounds(n, unit);
    forall j: nat | n <= j * unit ensures k <= j {
      NoSmallMultiple(k - j, unit);
      assert (k - j) * unit == k * unit - j * unit;
    }
  }

  /**
   * `EraseLength` checks in erase units, but chunks are padded to sectors: the padding of every
   * accepted payload stays inside the partition exactly when the partition is whole sectors, or too
   * small for any image at all.
   */
  lemma PaddingStaysInside(p: Partition, eraseSize: nat)
    requires eraseSize > 0 && p.size > 0 && p.size % eraseSize == 0
    ensures (forall n :: n >= Ui.IMAGE_OVERHEAD ==> PaddingFits(p, eraseSize, n)) <==>
      p.size % SECTOR_SIZE == 0 || p.size < Ui.IMAGE_OVERHEAD
  {
    if p.size % SECTOR_SIZE == 0 || p.size < Ui.IMAGE_OVERHEAD {
      forall n | n >= Ui.IMAGE_OVERHEAD ensures PaddingFits(p, eraseSize, n) {
        AcceptedPaddingFits(p, eraseSize, n);
      }
    } else {
      WholePartitionSpills(p, eraseSize);
    }
  }

  /** If a payload of this size is accepted, its padding stays inside the partition. */
  predicate PaddingFits(p: Partition, eraseSize: nat, n: nat)
    requires eraseSize > 0
  {
    EraseLength(n, p.offset, End(p), eraseSize).Some? ==> RoundUp(n, MAX_BLOCK) <= p.size
  }

  lemma AcceptedPaddingFits(p: Partition, eraseSize: nat, n: nat)
    requires eraseSize > 0 && n >= Ui.IMAGE_OVERHEAD && (p.size % SECTOR_SIZE == 0 || p.size < Ui.IMAGE_OVERHEAD)
    ensures PaddingFits(p, eraseSize, n)
  {
    if EraseLength(n, p.offset, End(p), eraseSize).Some? {
      AcceptedFits(p, n, eraseSize);
      RoundUpWithin(n, p.size);
    }
  }

  lemma WholePartitionSpills(p: Partition, eraseSize: nat)
    requires eraseSize > 0 && p.size > 0 && p.size % eraseSize == 0 && p.size % SECTOR_SIZE != 0
    ensures !PaddingFits(p, eraseSize, p.size)
  {
    WholePartitionIsAccepted(p, eraseSize);
    RoundUpBounds(p.size, MAX_BLOCK);
    assert RoundUp(p.size, MAX_BLOCK) % SECTOR_SIZE == 0;
  }

  lemma AcceptedFits(p: Partition, n: nat, eraseSize: nat)
    requires eraseSize > 0 && EraseLength(n, p.offset, End(p), eraseSize).Some?
    ensures n <= p.size
  {
    RoundUpBounds(n, eraseSize);
  }

  lemma WholePartitionIsAccepted(p: Partition, eraseSize: nat)
    requires eraseSize > 0 && p.size > 0 && p.size % eraseSize == 0
    ensures EraseLength(p.size, p.offset, End(p), eraseSize).Some?
  {
    RoundUpExact(p.size, eraseSize);
  }

  lemma RoundUpExact(n: nat, unit: nat)
    requires unit > 0 && n % unit == 0
    ensures RoundUp(n, unit) == n
  {
    var k, j := n / unit, (n + unit - 1) / unit;
    RoundUpBounds(n, unit);
    assert (j - k) * unit == RoundUp(n, unit) - n;
    NoSmallMultiple(j - k, unit);
  }

  lemma NoSmallMultiple(d: int, unit: nat)
    ensures d >= 1 ==> d * unit >= unit
    ensures d <= -1 ==> d * unit + unit <= 0
  {
  }

  /** With an erase unit of whole sectors, every partition of a valid map is whole sectors. */
  lemma WholeSectors(flash: Flash, ps: seq<Partition>, p: Partition)
    requires ValidLayout(flash, ps) && p in ps && flash.eraseSize % SECTOR_SIZE == 0
    ensures p.offset % SECTOR_SIZE == p.size % SECTOR_SIZE == 0
  {
    var i :| 0 <= i < |ps| && ps[i] == p;
    assert GoodPartition(flash, ps[i]);
    MultipleOfMultiple(p.offset, flash.eraseSize);
    MultipleOfMultiple(p.size, flash.eraseSize);
  }

  lemma MultipleOfMultiple(n: nat, unit: nat)
    requires unit > 0 && unit % SECTOR_SIZE == 0 && n % unit == 0
    ensures n % SECTOR_SIZE == 0
  {
    var k, j := n / unit, unit / SECTOR_SIZE;
    assert n == k * unit == SECTOR_SIZE * (k * j);
  }

  /** A smaller erase unit passes every check of the map and the flasher, and still spills. */
  lemma SmallEraseUnitSpills()
    ensures var flash := Flash(3, 0x1000, 0x1000, 0x800, 0x100);
            var fw := Partition("firmware", 0, 0x800, 0x1000, false, "f");
            var other := Partition("other", 0x800, 0x800, 0x1000, false, "o");
            && ValidLayout(flash, [fw, other])
            && EraseLength(38, fw.offset, End(fw), flash.eraseSize).Some?
            && fw.offset + RoundUp(38, MAX_BLOCK) > other.offset
  {
  }

  // ---------------------------------------------------------------- the whole flashing run

  function Prepared(m: seq<byte>, address: nat, eraseLength: nat, erase: bool): (r: seq<byte>)
    requires |m| == CAPACITY && (erase ==> EraseableRange(address, eraseLength))
    ensures |r| == CAPACITY
  {
    if erase then Erased(m, address, RoundUp(address + eraseLength, SECTOR_SIZE) - address) else m
  }

  /** The flash after an optional erase and the write. */
  function InstalledFlash(m: seq<byte>, address: nat, eraseLength: nat, payload: seq<byte>, erase: bool): seq<byte>
    requires |m| == CAPACITY && address + |Padded(payload)| <= CAPACITY
    requires erase ==> EraseableRange(address, eraseLength)
  {
    Splice(Prepared(m, address, eraseLength, erase), address, Padded(payload))
  }

  /** How far a flashing run got: nothing, the erase, or `sent` bytes of the padded payload as well. */
  ghost predicate Reached(m: seq<byte>, address: nat, eraseLength: nat, payload: seq<byte>, erased: bool, sent: nat, now: seq<byte>) {
    && |m| == CAPACITY && (erased ==> EraseableRange(address, eraseLength))
    && Written(Prepared(m, address, eraseLength, erased), address, payload, sent, now)
  }

  /**
   * The requests of `cmd_flash` once the stub runs: initialise, erase if asked to, write. It
   * succeeds exactly when the stub accepts both, and `erased` and `sent` tell how far it got.
   */
  method Install(stub: IspStub, flashType: u32, address: nat, eraseLength: nat, payload: seq<byte>, erase: bool)
    returns (ok: bool, ghost erased: bool, ghost sent: nat)
    requires Listening(stub) && !stub.active && payload != []
    modifies stub, stub.chip, stub.chip.mem, stub.bitmap, stub.rx, stub.tx, stub.decoder, stub.ui, stub.ui.written
    ensures Listening(stub) && !stub.active
    ensures ok <==> (erase ==> EraseableRange(address, eraseLength)) && Writable(old(stub.ui.wireSize), address, payload)
    ensures Reached(old(stub.chip.mem[..]), address, eraseLength, payload, erased, sent, stub.chip.mem[..])
    ensures (erased ==> erase) && (ok <==> erased == erase && sent == |Padded(payload)|)
    ensures Commanded(old(stub.Seen()), stub.Seen(), address, eraseLength, erased, sent)
  {
    stub.SeenWellFormed();
    ghost var before := stub.Seen();
    erased, sent := false, 0;
    ghost var seen;
    RequestFields(FLASH_INIT, flashType, 0, []);
    var answer, _, _ := Ask(stub, Request(FLASH_INIT, Le32(flashType) + Le32(0) + []));
    if answer != Some((FLASH_INIT, OK)) {
      return false, erased, sent;
    }
    NothingIssued(before, stub.Seen());
    ghost var ready := stub.Seen();
    if erase {
      ok, seen := EraseFlash(stub, address, eraseLength);
      if !ok {
        return false, erased, sent;
      }
      erased := true;
    }
    assert stub.chip.mem[..] == Prepared(old(stub.chip.mem[..]), address, eraseLength, erased);
    ghost var prepared := stub.Seen();
    ok, seen, sent := WriteFlash(stub, address, payload);
    BothIssued(before, prepared, stub.Seen(), address, eraseLength, erased, sent);
  }

  /** The erase commands of a flashing run: the tiling of the erased range, and one for each sector written but not spared. */
  ghost predicate Commanded(v: View, v': View, address: nat, eraseLength: nat, erased: bool, sent: nat) {
    var size := RoundUp(address + eraseLength, SECTOR_SIZE) - address;
    var spared := if erased && size >= 0 then v.spared + SectorsOf(address, size) else v.spared;
    v'.commands == v.commands + (if erased then Tiling(address, address + size) else []) + SectorCommands(spared, address, sent)
  }

  lemma BothIssued(before: View, prepared: View, v: View, address: nat, eraseLength: nat, erased: bool, sent: nat)
    requires WellFormed(before) && WellFormed(prepared) && WellFormed(v)
    requires before.erase.Idle? && prepared.erase.Idle? && v.erase.Idle?
    requires erased ==> EraseableRange(address, eraseLength)
    requires EraseIssued(before, before, prepared, address, eraseLength, erased)
    requires ChunksIssued(prepared, v, address, sent)
    ensures Commanded(before, v, address, eraseLength, erased, sent)
  {
    NothingPending(before);
    NothingPending(prepared);
    NothingPending(v);
    if erased {
      RoundUpBounds(address + eraseLength, SECTOR_SIZE);
    }
  }

  /** Erasing first: the only erase commands are those of the erase, and what the payload leaves of its range is blank. */
  ghost predicate Refreshed(v: View, v': View, address: nat, eraseLength: nat, payloadSize: nat) {
    var end := RoundUp(address + eraseLength, SECTOR_SIZE);
    && v'.commands == v.commands + Tiling(address, end)
    && forall x :: address + RoundUp(payloadSize, MAX_BLOCK) <= x < end && x < |v'.mem| ==> v'.mem[x] == BLANK
  }

  lemma InstallRefreshes(v: View, v': View, address: nat, eraseLength: nat, payload: seq<byte>)
    requires |v.mem| == CAPACITY && EraseableRange(address, eraseLength) && payload != [] && |payload| <= eraseLength
    requires address + |Padded(payload)| <= CAPACITY && v'.mem == InstalledFlash(v.mem, address, eraseLength, payload, true)
    requires Commanded(v, v', address, eraseLength, true, |Padded(payload)|)
    ensures Refreshed(v, v', address, eraseLength, |payload|)
  {
    var size, n := RoundUp(address + eraseLength, SECTOR_SIZE) - address, |Padded(payload)|;
    RoundUpBounds(address + eraseLength, SECTOR_SIZE);
    PaddingWithin(address, |payload|, eraseLength);
    assert SectorsOf(address, n) <= SectorsOf(address, size) by {
      assert (address + n) / SECTOR_SIZE <= (address + size) / SECTOR_SIZE;
    }
    SparedSectorsAreFree(v.spared + SectorsOf(address, size), address, n);
    SpliceLeavesBlank(v.mem, address, size, Padded(payload));
  }

  lemma PaddingWithin(address: nat, n: nat, length: nat)
    requires address % SECTOR_SIZE == 0 && n <= length
    ensures address + RoundUp(n, SECTOR_SIZE) <= RoundUp(address + length, SECTOR_SIZE)
  {
  }

  lemma SpliceLeavesBlank(m: seq<byte>, address: nat, size: nat, s: seq<byte>)
    requires |m| == CAPACITY && address + size <= CAPACITY && |s| <= size
    ensures var after := Splice(Erased(m, address, size), address, s);
            |after| == CAPACITY && forall x :: address + |s| <= x < address + size ==> after[x] == BLANK
  {
  }

  /**
   * The image in the flash: the flag byte, the length in four bytes, least significant first, the
   * image itself, and the digest of everything in front of it.
   */
  ghost predicate ImageAt(m: seq<byte>, at: nat, raw: seq<byte>, dio: bool, sha256: seq<byte> -> seq<byte>) {
    var size := |raw|;
    && at + 5 + size + 32 <= |m|
    && (m[at] == 2 <==> dio) && (m[at] == 0 <==> !dio)
    && (var l0: int, l1: int, l2: int, l3: int := m[at + 1], m[at + 2], m[at + 3], m[at + 4];
        l0 + 0x100 * l1 + 0x1_0000 * l2 + 0x100_0000 * l3 == size)
    && m[at + 5..at + 5 + size] == raw
    && m[at + 5 + size..at + 5 + size + 32] == sha256(m[at..at + 5 + size])
  }

  lemma PayloadIsImage(m: seq<byte>, at: nat, raw: seq<byte>, dio: bool, sha256: seq<byte> -> seq<byte>)
    requires |raw| < 0x1_0000_0000 && forall s :: |sha256(s)| == 32
    requires var payload := ImagePayload(raw, dio, sha256).value; at + |payload| <= |m| && m[at..at + |payload|] == payload
    ensures ImageAt(m, at, raw, dio, sha256)
  {
    var size, payload := |raw|, ImagePayload(raw, dio, sha256).value;
    var data := [if dio then 0x02 else 0x00] + Le32(size) + raw;
    assert |data| == 5 + size && payload == data + sha256(data);
    assert m[at..at + 5 + size] == payload[..5 + size] == data;
    assert data[1..5] == Le32(size);
    assert m[at + 5..at + 5 + size] == data[5..] == raw;
    assert m[at + 5 + size..at + 5 + size + 32] == payload[5 + size..] == sha256(data);
    forall k | 0 <= k < 5 ensures m[at + k] == data[k] {
      assert m[at + k] == m[at..at + |payload|][k];
    }
    Le32Digits(size, m[at + 1], m[at + 2], m[at + 3], m[at + 4]);
  }

  /** What the user is promised: payload and padding in place, and nothing outside the partition changed. */
  ghost predicate Installed(before: seq<byte>, after: seq<byte>, fw: Partition, payload: seq<byte>) {
    && |after| == |before| && fw.offset + |Padded(payload)| <= End(fw) <= |after|
    && after[fw.offset..fw.offset + |payload|] == payload
    && (forall x :: fw.offset + |payload| <= x < fw.offset + |Padded(payload)| ==> after[x] == 0)
    && AgreeOutside(before, after, fw.offset, fw.size)
  }

  /** No other partition is touched. */
  lemma OtherPartitionsUntouched(flash: Flash, ps: seq<Partition>, fw: Partition, q: Partition, before: seq<byte>, after: seq<byte>)
    requires ValidLayout(flash, ps) && fw in ps && q in ps && q.name != fw.name
    requires |before| == CAPACITY && AgreeOutside(before, after, fw.offset, fw.size)
    ensures End(q) <= CAPACITY && after[q.offset..End(q)] == before[q.offset..End(q)]
  {
    WithinCapacity(flash, ps, q);
    forall x: nat | q.offset <= x < End(q) ensures after[x] == before[x] {
      OwnBytes(flash, ps, q, fw, x);
    }
  }

  lemma InstalledFlashIsInstalled(m: seq<byte>, fw: Partition, eraseLength: nat, payload: seq<byte>, erase: bool)
    requires |m| == CAPACITY && payload != [] && End(fw) <= CAPACITY
    requires fw.offset % SECTOR_SIZE == fw.size % SECTOR_SIZE == 0 && 0 < eraseLength <= fw.size
    requires |payload| <= fw.size
    ensures Installed(m, InstalledFlash(m, fw.offset, eraseLength, payload, erase), fw, payload)
  {
    RoundUpWithin(|payload|, fw.size);
    RangeStaysInside(fw, eraseLength);
    PreparedStaysInside(m, fw, eraseLength, erase);
    SpliceInstalls(m, Prepared(m, fw.offset, eraseLength, erase), fw, payload);
  }

  lemma RangeStaysInside(fw: Partition, eraseLength: nat)
    requires fw.offset % SECTOR_SIZE == fw.size % SECTOR_SIZE == 0 && 0 < eraseLength <= fw.size && End(fw) <= CAPACITY
    ensures EraseableRange(fw.offset, eraseLength)
  {
  }

  lemma PreparedStaysInside(m: seq<byte>, fw: Partition, eraseLength: nat, erased: bool)
    requires |m| == CAPACITY && End(fw) <= CAPACITY && fw.size % SECTOR_SIZE == 0 && eraseLength <= fw.size
    requires erased ==> EraseableRange(fw.offset, eraseLength)
    ensures AgreeOutside(m, Prepared(m, fw.offset, eraseLength, erased), fw.offset, fw.size)
  {
    if erased {
      RoundUpWithin(fw.offset + eraseLength, End(fw));
      var size := RoundUp(fw.offset + eraseLength, SECTOR_SIZE) - fw.offset;
      SpliceWithin(m, m, fw.offset, Blank(size), fw.size);
    }
  }

  /** However far a flashing run got, it stayed inside a partition of whole sectors. */
  lemma ReachedStaysInside(m: seq<byte>, fw: Partition, eraseLength: nat, payload: seq<byte>, erased: bool, sent: nat, now: seq<byte>)
    requires Reached(m, fw.offset, eraseLength, payload, erased, sent, now)
    requires End(fw) <= CAPACITY && fw.size % SECTOR_SIZE == 0 && |payload| <= fw.size && eraseLength <= fw.size
    ensures AgreeOutside(m, now, fw.offset, fw.size)
  {
    var base := Prepared(m, fw.offset, eraseLength, erased);
    PreparedStaysInside(m, fw, eraseLength, erased);
    if sent > 0 {
      RoundUpWithin(|payload|, fw.size);
      SpliceWithin(m, base, fw.offset, Padded(payload)[..sent], fw.size);
    }
  }

  lemma SpliceInstalls(m: seq<byte>, base: seq<byte>, fw: Partition, payload: seq<byte>)
    requires AgreeOutside(m, base, fw.offset, fw.size) && fw.offset + |Padded(payload)| <= End(fw) <= |m|
    ensures Installed(m, Splice(base, fw.offset, Padded(payload)), fw, payload)
  {
    var s := Padded(payload);
    SpliceWithin(m, base, fw.offset, s, fw.size);
    SplicePrefix(base, fw.offset, s, payload);
    SpliceZeros(base, fw.offset, s, |payload|);
  }

  lemma SpliceWithin(m: seq<byte>, base: seq<byte>, at: nat, s: seq<byte>, size: nat)
    requires AgreeOutside(m, base, at, size) && |s| <= size && at + |s| <= |base|
    ensures AgreeOutside(m, Splice(base, at, s), at, size)
  {
  }

  lemma SpliceZeros(m: seq<byte>, at: nat, s: seq<byte>, from: nat)
    requires at + |s| <= |m| && from <= |s| && forall i :: from <= i < |s| ==> s[i] == 0
    ensures forall x :: at + from <= x < at + |s| ==> Splice(m, at, s)[x] == 0
  {
  }

  lemma SplicePrefix(m: seq<byte>, at: nat, s: seq<byte>, prefix: seq<byte>)
    requires at + |s| <= |m| && prefix <= s
    ensures Splice(m, at, s)[at..at + |prefix|] == prefix
  {
  }

  /** A run that wrote the whole payload leaves the image, and after an erase nothing else in its range. */
  lemma WholeImage(v: View, v': View, fw: Partition, eraseLength: nat, raw: seq<byte>, dio: bool, sha256: seq<byte> -> seq<byte>,
                   payload: seq<byte>, erase: bool)
    requires |raw| < 0x1_0000_0000 && (forall s :: |sha256(s)| == 32) && ImagePayload(raw, dio, sha256) == Some(payload)
    requires Reached(v.mem, fw.offset, eraseLength, payload, erase, |Padded(payload)|, v'.mem)
    requires Commanded(v, v', fw.offset, eraseLength, erase, |Padded(payload)|)
    requires |payload| <= eraseLength <= fw.size && End(fw) <= CAPACITY
    ensures ImageAt(v'.mem, fw.offset, raw, dio, sha256)
    ensures erase ==> Refreshed(v, v', fw.offset, eraseLength, |payload|)
    ensures fw.size % SECTOR_SIZE == 0 ==> Installed(v.mem, v'.mem, fw, payload)
  {
    var at := fw.offset;
    var base := Prepared(v.mem, at, eraseLength, erase);
    AllWritten(base, at, payload, v'.mem);
    SplicePrefix(base, at, Padded(payload), payload);
    PayloadIsImage(v'.mem, at, raw, dio, sha256);
    if erase {
      InstallRefreshes(v, v', at, eraseLength, payload);
    }
    if fw.size % SECTOR_SIZE == 0 {
      InstalledFlashIsInstalled(v.mem, fw, eraseLength, payload, erase);
    }
  }

  datatype Outcome = Flashed | BadLayout | NoFirmware | TooLarge | StubError

  /** There is a firmware partition of whole sectors, and the image passes `EraseLength` for it. */
  ghost predicate Fits(flash: Flash, ps: seq<Partition>, rawSize: nat) {
    && flash.eraseSize > 0
    && exists fw :: fw in ps && fw.name == "firmware" && fw.offset % SECTOR_SIZE == fw.size % SECTOR_SIZE == 0
                    && EraseLength(rawSize + Ui.IMAGE_OVERHEAD, fw.offset, End(fw), flash.eraseSize).Some?
  }

  /** Everything the stub will check holds for an image that fits. */
  lemma FittingImageIsAccepted(flash: Flash, ps: seq<Partition>, fw: Partition, raw: seq<byte>, dio: bool,
                               sha256: seq<byte> -> seq<byte>, eraseLength: nat, wireSize: nat)
    requires ValidLayout(flash, ps) && fw in ps && fw.offset % SECTOR_SIZE == fw.size % SECTOR_SIZE == 0
    requires raw != [] && |raw| + Ui.IMAGE_OVERHEAD <= eraseLength <= fw.size
    requires forall s :: |sha256(s)| == 32
    ensures End(fw) <= CAPACITY && EraseableRange(fw.offset, eraseLength)
    ensures Writable(wireSize, fw.offset, ImagePayload(raw, dio, sha256).value)
  {
    WithinCapacity(flash, ps, fw);
    var payload := ImagePayload(raw, dio, sha256).value;
    assert |payload| == |raw| + Ui.IMAGE_OVERHEAD;
    RoundUpWithin(|payload|, fw.size);
    PayloadHasHeader(raw, dio, sha256);
  }

  lemma RoundUpWithin(n: nat, size: nat)
    requires n <= size && size % SECTOR_SIZE == 0
    ensures n <= RoundUp(n, SECTOR_SIZE) <= size
  {
  }

  datatype Plan = Plan(fw: Partition, eraseLength: nat, payload: seq<byte>)

  /** The checks made before the device is touched. */
  method PlanFlash(flash: Flash, ps: seq<Partition>, raw: seq<byte>, dio: bool, sha256: seq<byte> -> seq<byte>)
    returns (r: Result<Plan, Outcome>)
    requires forall s :: |sha256(s)| == 32
    ensures r.Ok? ==>
              && ValidLayout(flash, ps) && r.value.fw in ps && r.value.fw.name == "firmware"
              && ImagePayload(raw, dio, sha256) == Some(r.value.payload) && |r.value.payload| == |raw| + Ui.IMAGE_OVERHEAD
              && |r.value.payload| <= r.value.eraseLength <= r.value.fw.size
              && r.value.eraseLength == RoundUp(|raw| + 37, flash.eraseSize)
    ensures r.Err? ==> r.error == if !ValidLayout(flash, ps) then BadLayout
                                  else if forall p :: p in ps ==> p.name != "firmware" then NoFirmware else TooLarge
    ensures r.Ok? <==> && ValidLayout(flash, ps) && |raw| < 0x1_0000_0000
                       && (exists fw :: fw in ps && fw.name == "firmware"
                             && EraseLength(|raw| + Ui.IMAGE_OVERHEAD, fw.offset, End(fw), flash.eraseSize).Some?)
  {
    var valid := Validate(flash, ps);
    if !valid {
      return Err(BadLayout);
    }
    var found := PartitionByName(ps, "firmware");
    if found.None? {
      return Err(NoFirmware);
    }
    var fw := found.value;
    UniqueName(flash, ps, fw);
    var payload := ImagePayload(raw, dio, sha256);
    if payload.None? {
      return Err(TooLarge);
    }
    assert |payload.value| == |raw| + Ui.IMAGE_OVERHEAD;
    var eraseLength := EraseLength(|payload.value|, fw.offset, End(fw), flash.eraseSize);
    if eraseLength.None? {
      return Err(TooLarge);
    }
    RoundUpBounds(|payload.value|, flash.eraseSize);
    return Ok(Plan(fw, eraseLength.value, payload.value));
  }

  lemma UniqueName(flash: Flash, ps: seq<Partition>, fw: Partition)
    requires ValidLayout(flash, ps) && fw in ps
    ensures forall p :: p in ps && p.name == fw.name ==> p == fw
  {
    var i :| 0 <= i < |ps| && ps[i] == fw;
    forall p | p in ps && p.name == fw.name ensures p == fw {
      var j :| 0 <= j < |ps| && ps[j] == p;
    }
  }

  /**
   * The flashing part of `apply_board_configuration` and `cmd_flash`, from a loaded map and a
   * running stub with no erase active.
   */
  method FlashImage(stub: IspStub, flash: Flash, ps: seq<Partition>, flashType: u32, raw: seq<byte>, dio: bool, erase: bool,
                    sha256: seq<byte> -> seq<byte>) returns (r: Outcome, fw: Partition)
    requires Listening(stub) && !stub.active
    requires forall s :: |sha256(s)| == 32
    modifies stub, stub.chip, stub.chip.mem, stub.bitmap, stub.rx, stub.tx, stub.decoder, stub.ui, stub.ui.written
    ensures Listening(stub) && !stub.active
    ensures r.Flashed? || r.StubError? ==> ValidLayout(flash, ps) && fw in ps && fw.name == "firmware" && |raw| < 0x1_0000_0000
    ensures r.Flashed? && fw.size % SECTOR_SIZE == 0 ==>
              Installed(old(stub.chip.mem[..]), stub.chip.mem[..], fw, ImagePayload(raw, dio, sha256).value)
    ensures r.Flashed? ==> ImageAt(stub.chip.mem[..], fw.offset, raw, dio, sha256)
    ensures r.Flashed? && erase ==>
              Refreshed(old(stub.Seen()), stub.Seen(), fw.offset, RoundUp(|raw| + 37, flash.eraseSize), |raw| + 37)
    ensures ValidLayout(flash, ps) && raw != [] && Fits(flash, ps, |raw|) ==> r.Flashed?
    ensures if r.Flashed? || r.StubError?
            then fw.size % SECTOR_SIZE == 0 ==> AgreeOutside(old(stub.chip.mem[..]), stub.chip.mem[..], fw.offset, fw.size)
            else stub.chip.mem[..] == old(stub.chip.mem[..])
  {
    var planned := PlanFlash(flash, ps, raw, dio, sha256);
    if planned.Err? {
      if ValidLayout(flash, ps) && |raw| >= 0x1_0000_0000 {
        HugeImageDoesNotFit(flash, ps, |raw|);
      }
      return planned.error, Partition("", 0, 0, 0, false, "");
    }
    fw := planned.value.fw;
    var eraseLength, payload := planned.value.eraseLength, planned.value.payload;
    if fw.offset % SECTOR_SIZE == fw.size % SECTOR_SIZE == 0 && raw != [] {
      FittingImageIsAccepted(flash, ps, fw, raw, dio, sha256, eraseLength, stub.ui.wireSize);
    }
    UniqueName(flash, ps, fw);
    WithinCapacity(flash, ps, fw);
    var ok, erased, sent := Install(stub, flashType, fw.offset, eraseLength, payload, erase);
    if fw.size % SECTOR_SIZE == 0 {
      ReachedStaysInside(old(stub.chip.mem[..]), fw, eraseLength, payload, erased, sent, stub.chip.mem[..]);
    }
    if ok {
      WholeImage(old(stub.Seen()), stub.Seen(), fw, eraseLength, raw, dio, sha256, payload, erase);
    }
    return if ok then Flashed else StubError, fw;
  }

  lemma WithinCapacity(flash: Flash, ps: seq<Partition>, p: Partition)
    requires ValidLayout(flash, ps) && p in ps
    ensures End(p) <= CAPACITY
  {
    var i :| 0 <= i < |ps| && ps[i] == p;
    assert GoodPartition(flash, ps[i]);
  }

  lemma HugeImageDoesNotFit(flash: Flash, ps: seq<Partition>, rawSize: nat)
    requires ValidLayout(flash, ps) && rawSize >= 0x1_0000_0000
    ensures !Fits(flash, ps, rawSize)
  {
    RoundUpBounds(rawSize + Ui.IMAGE_OVERHEAD, flash.eraseSize);
    forall fw | fw in ps ensures End(fw) <= CAPACITY {
      WithinCapacity(flash, ps, fw);
    }
  }
}
