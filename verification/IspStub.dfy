/**
 * The second-stage flash stub (hl-isp-dumper/src/main.c): request handlers, the erase engine
 * polled from the idle loop, and the erased-sector bitmap. Every method implements `IspSpec`, a
 * protocol that knows no bitmap, and keeps `Valid`: a marked sector is blank.
 */
module IspStub {
  import opened Bytes
  import Crc32
  import opened NorFlash
  import opened Bitmap
  import opened IspSpec
  import IspRuns
  import Ui
  import Slip

  const TX_DATA_OFFSET: nat := 6
  const TX_CAPACITY: nat := TX_DATA_OFFSET + MAX_BLOCK

  lemma SectorsAdd(a: nat, b: nat)
    requires a % SECTOR_SIZE == b % SECTOR_SIZE == 0
    ensures (a + b) % SECTOR_SIZE == 0
  {
  }

  lemma RangeFits(address: nat, length: nat)
    requires EraseableRange(address, length)
    ensures var end := RoundUp(address + length, SECTOR_SIZE);
      address < end <= CAPACITY && end % SECTOR_SIZE == 0 && (end - address) % SECTOR_SIZE == 0
  {
  }

  class IspStub {
    const chip: NorChip
    const rx: array<byte>
    const tx: array<byte>
    const bitmap: array<byte>
    const decoder: Slip.SlipDecoder
    const ui: Ui.Tracker
    var initialized: bool
    var txPayloadLength: nat
    // erase_state_t
    var start: u32
    var next: u32
    var end: u32
    var completed: u32
    var activeStart: u32
    var activeSize: u32
    var active: bool

    // -------------------------------------------------------------- invariant and abstraction

    ghost predicate Separate() {
      && chip.mem != rx && chip.mem != tx && chip.mem != bitmap
      && rx != tx && rx != bitmap && tx != bitmap
      && (ui.written as object) != chip.mem && (ui.written as object) != rx
      && (ui.written as object) != tx && (ui.written as object) != bitmap
      && rx.Length == RX_CAPACITY && tx.Length == TX_CAPACITY && bitmap.Length == BITMAP_SIZE
      && chip.mem.Length == CAPACITY
    }

    /** The running erase, and the chip's part in it. */
    ghost predicate EraseValid()
      reads this, chip
    {
      if active then
        && start <= activeStart < next <= end <= CAPACITY
        && start % SECTOR_SIZE == activeStart % SECTOR_SIZE == end % SECTOR_SIZE == 0
        && activeSize == PieceSize(activeStart, end) && next == activeStart + activeSize
        && completed == activeStart - start
        && chip.activity == Erasing(Piece(activeStart, activeSize))
      else
        chip.activity == Ready
    }

    ghost predicate Valid()
      reads this, chip, chip.mem, bitmap, decoder, ui, ui.written
    {
      && Separate() && chip.Valid() && ui.Valid() && decoder.length <= RX_CAPACITY
      && EraseValid()
      && Honest(bitmap[..], chip.mem[..], if active then activeStart else 0, if active then end else 0)
    }

    ghost function Seen(): View
      reads this, chip, chip.mem, bitmap, ui
    {
      View(initialized, chip.mem[..],
           if active then Running(start, end, activeStart, activeSize, chip.patience) else Idle,
           completed, chip.erases, Marks(bitmap[..]), ui.wireSize, chip.jedec)
    }

    lemma SeenWellFormed()
      requires Valid()
      ensures WellFormed(Seen())
    {
    }

    /** The stub after its `.bss` has been cleared, over a chip that is not busy. */
    constructor (flash: NorChip)
      requires flash.Quiet()
      ensures Valid() && chip == flash && !initialized && !active && decoder.phase == Slip.Outside
      ensures fresh(rx) && fresh(tx) && fresh(bitmap) && fresh(decoder) && fresh(ui) && fresh(ui.written)
    {
      chip := flash;
      rx := new byte[RX_CAPACITY](i => 0);
      tx := new byte[TX_CAPACITY](i => 0);
      bitmap := new byte[BITMAP_SIZE](i => 0);
      decoder := new Slip.SlipDecoder();
      ui := new Ui.Tracker();
      initialized, active, txPayloadLength := false, false, 0;
      start, next, end, completed, activeStart, activeSize := 0, 0, 0, 0, 0, 0;
      new;
      forall k: nat { ZeroHasNoBits(k); }
    }

    // -------------------------------------------------------------- the erase engine

    /** An erase is under way, but no command for its next piece has been issued yet. */
    ghost predicate Between()
      reads this, chip, chip.mem, bitmap, decoder, ui, ui.written
    {
      && Separate() && chip.Quiet() && ui.Valid() && decoder.length <= RX_CAPACITY
      && active && start <= next <= end <= CAPACITY && start < end
      && start % SECTOR_SIZE == next % SECTOR_SIZE == end % SECTOR_SIZE == 0
      && completed == next - start
      && Honest(bitmap[..], chip.mem[..], next, end)
    }

    /** `erase_kick`. */
    method EraseKick() returns (issued: bool)
      requires Between()
      modifies this`next, this`activeStart, this`activeSize, chip, chip.mem
      ensures issued == (old(next) < end)
      ensures issued ==> Valid() && activeStart == old(next)
                         && AgreeOutside(old(chip.mem[..]), chip.mem[..], activeStart, activeSize)
                         && chip.erases == old(chip.erases) + [Piece(activeStart, activeSize)]
      ensures !issued ==> Between() && next == end && chip.mem[..] == old(chip.mem[..]) && chip.erases == old(chip.erases)
    {
      if next >= end {
        return false;
      }
      ghost var blank, bits := chip.mem[..], bitmap[..];
      IspRuns.PieceFits(next, end);
      activeStart := next;
      var remaining := end - next;
      activeSize := if next % BLOCK_SIZE == 0 && remaining >= BLOCK_SIZE then BLOCK_SIZE else SECTOR_SIZE;
      chip.Erase(next, activeSize);
      assert bitmap[..] == bits;
      HonestAdvance(bits, blank, chip.mem[..], activeStart, activeSize, end);
      next := next + activeSize;
      return true;
    }

    /** The active piece has become blank: account for it. `before` is the chip while it was busy. */
    method FinishPiece(ghost before: seq<byte>)
      requires Separate() && chip.Quiet() && ui.Valid() && decoder.length <= RX_CAPACITY && active
      requires start <= activeStart < next <= end <= CAPACITY && next == activeStart + activeSize
      requires start % SECTOR_SIZE == activeStart % SECTOR_SIZE == activeSize % SECTOR_SIZE == end % SECTOR_SIZE == 0
      requires completed == activeStart - start
      requires |before| == CAPACITY && chip.mem[..] == Erased(before, activeStart, activeSize)
      requires Honest(bitmap[..], before, activeStart, end)
      modifies bitmap, this`completed
      ensures Between() && Marks(bitmap[..]) == old(Marks(bitmap[..])) + SectorsOf(activeStart, activeSize)
    {
      ghost var bits := bitmap[..];
      MarkSectors(bitmap, activeStart, activeSize);
      HonestMark(bits, bitmap[..], before, activeStart, activeSize, end);
      MarksUpdated(bits, bitmap[..], activeStart / SECTOR_SIZE, (activeStart + activeSize) / SECTOR_SIZE, true);
      SectorsAdd(activeStart, activeSize);
      completed := completed + activeSize;
    }

    /** `erase_status`. */
    method EraseStatus() returns (reason: byte)
      requires Valid()
      modifies this, chip, chip.mem, bitmap
      ensures Valid() && WellFormed(old(Seen())) && Polled(old(Seen()), Seen(), reason)
      ensures unchanged(this`txPayloadLength)
    {
      SeenWellFormed();
      if !active {
        return OK;
      }
      var busy := chip.IsBusy();
      if busy {
        return BUSY;
      }
      FinishPiece(old(chip.mem[..]));
      assert Resting() == Settled(old(Seen()));
      reason := NextPiece(old(Seen()));
    }

    /** What the hosts would see if no erase were active. */
    ghost function Resting(): View
      reads this, chip, chip.mem, bitmap, ui
    {
      View(initialized, chip.mem[..], Idle, completed, chip.erases, Marks(bitmap[..]), ui.wireSize, chip.jedec)
    }

    /** The end of a poll of `v`, whose piece has become blank: the next command, or the end of the erase. */
    method NextPiece(ghost v: View) returns (reason: byte)
      requires Between() && WellFormed(v) && v.erase.Running? && v.erase.patience == 0
      requires Resting() == Settled(v) && v.erase.start == start && v.erase.end == end && v.erase.at + v.erase.size == next
      modifies this`next, this`activeStart, this`activeSize, this`active, chip, chip.mem
      ensures Valid() && Polled(v, Seen(), reason)
    {
      var issued := EraseKick();
      if issued {
        return BUSY;
      }
      active := false;
      return OK;
    }

    // -------------------------------------------------------------- requests

    /** `valid_payload` on the frame in the receive buffer. */
    method ValidPayload(length: nat) returns (ok: bool)
      requires Separate() && length <= RX_CAPACITY
      ensures ok == Authentic(rx[..length])
    {
      if length < 8 {
        return false;
      }
      var crc := Crc32.IspCrc32(rx, 8, length - 8);
      assert rx[..length][4..8] == rx[4..8] && rx[..length][8..] == rx[8..length];
      return rx[4..8] == Crc32.WordBytes(crc);
    }

    /** The address and length fields, if the request is long enough and its checksum is right. */
    method CheckedFields(length: nat) returns (ok: bool, address: u32, count: u32)
      requires Separate() && length <= RX_CAPACITY
      ensures ok == Checked(rx[..length])
      ensures ok ==> address == Address(rx[..length]) && count == DataLength(rx[..length])
    {
      var sound := ValidPayload(length);
      if length < 16 || !sound {
        return false, 0, 0;
      }
      assert rx[..length][8..12] == rx[8..12] && rx[..length][12..16] == rx[12..16];
      return true, FromLe32(rx[8..12]), FromLe32(rx[12..16]);
    }

    /** The data staged behind the response header, and its checksum. */
    ghost function Staged(): seq<byte>
      requires tx.Length == TX_CAPACITY && txPayloadLength <= MAX_BLOCK + 4
      reads this`txPayloadLength, tx
    {
      if txPayloadLength < 4 then [] else tx[TX_DATA_OFFSET..2 + txPayloadLength]
    }

    ghost predicate TxSealed()
      reads this`txPayloadLength, tx
    {
      && tx.Length == TX_CAPACITY
      && (txPayloadLength == 0 || 4 < txPayloadLength <= MAX_BLOCK + 4)
      && (txPayloadLength != 0 ==> tx[2..TX_DATA_OFFSET] == Crc32.Seal(Staged()))
    }

    /** `stage_payload`. */
    method StagePayload(dataLength: nat)
      requires Separate() && 0 < dataLength <= MAX_BLOCK
      modifies tx, this`txPayloadLength
      ensures TxSealed() && txPayloadLength == 4 + dataLength
      ensures Staged() == old(tx[TX_DATA_OFFSET..TX_DATA_OFFSET + dataLength])
    {
      var crc := Crc32.IspCrc32(tx, TX_DATA_OFFSET, dataLength);
      var bytes := Crc32.WordBytes(crc);
      for i := 0 to 4
        invariant tx[2..2 + i] == bytes[..i]
        invariant tx[TX_DATA_OFFSET..TX_DATA_OFFSET + dataLength] == old(tx[TX_DATA_OFFSET..TX_DATA_OFFSET + dataLength])
        modifies tx
      {
        tx[2 + i] := bytes[i];
      }
      txPayloadLength := 4 + dataLength;
    }

    method HandleRead(length: nat) returns (reason: byte)
      requires Valid() && initialized && 8 <= length <= RX_CAPACITY && txPayloadLength == 0
      modifies this, chip, chip.mem, bitmap, tx
      ensures Valid() && WellFormed(old(Seen())) && TxSealed()
      ensures if Finished(old(Seen()))
              then HandledRead(Settled(old(Seen())), old(rx[..length]), Seen(), reason, Staged())
              else reason == BUSY && StillBusy(old(Seen()), Seen()) && Staged() == []
    {
      SeenWellFormed();
      ghost var frame := rx[..length];
      if active {
        var status := EraseStatus();
        if status == BUSY {
          return BUSY;
        }
      }
      assert rx[..length] == frame;
      reason := ReadIdle(length);
    }

    /** A read with no erase active. */
    method ReadIdle(length: nat) returns (reason: byte)
      requires Valid() && !active && 8 <= length <= RX_CAPACITY && txPayloadLength == 0
      modifies this`txPayloadLength, tx
      ensures Valid() && WellFormed(old(Seen())) && TxSealed()
      ensures HandledRead(old(Seen()), old(rx[..length]), Seen(), reason, Staged())
    {
      SeenWellFormed();
      var ok, address, count := CheckedFields(length);
      if !ok {
        return BAD_CHECKSUM;
      }
      if count == 0 || count > MAX_BLOCK || address >= CAPACITY || count > CAPACITY - address {
        return BAD_ADDRESS;
      }
      StageFlash(address, count);
      assert Seen() == old(Seen());
      return OK;
    }

    method StageFlash(address: u32, count: u32)
      requires Separate() && chip.Quiet() && ReadableRange(address, count)
      modifies tx, this`txPayloadLength
      ensures TxSealed() && Staged() == chip.mem[address..address + count]
    {
      chip.ReadData(address, tx, TX_DATA_OFFSET, count);
      assert tx[TX_DATA_OFFSET..TX_DATA_OFFSET + count] == chip.mem[address..address + count];
      StagePayload(count);
    }

    method HandleErase(length: nat) returns (reason: byte)
      requires Valid() && 8 <= length <= RX_CAPACITY
      modifies this, chip, chip.mem, bitmap
      ensures Valid() && WellFormed(old(Seen()))
      ensures HandledErase(old(Seen()), old(rx[..length]), Seen(), reason)
      ensures txPayloadLength == old(txPayloadLength)
    {
      SeenWellFormed();
      if !initialized {
        return BAD_INITIALIZATION;
      }
      if active {
        return BUSY;
      }
      var ok, address, count := CheckedFields(length);
      if !ok {
        return BAD_CHECKSUM;
      }
      if count == 0 || address >= CAPACITY || count > CAPACITY - address || address % SECTOR_SIZE != 0 {
        return BAD_ADDRESS;
      }
      BeginErase(address, count);
      return BUSY;
    }

    method BeginErase(address: u32, length: u32)
      requires Valid() && !active && EraseableRange(address, length)
      modifies this, chip, chip.mem, bitmap
      ensures Valid()
      ensures var end := RoundUp(address + length, SECTOR_SIZE);
        address <= end && Kicked(Forgotten(old(Seen()), address, end), Seen(), address, end, address)
      ensures txPayloadLength == old(txPayloadLength)
    {
      PlanErase(address, length);
      var _ := EraseKick();
    }

    method ForgetRange(from: u32, to: u32)
      requires Separate() && Honest(bitmap[..], chip.mem[..], 0, 0)
      requires from <= to <= CAPACITY && from % SECTOR_SIZE == to % SECTOR_SIZE == (to - from) % SECTOR_SIZE == 0
      modifies bitmap
      ensures Honest(bitmap[..], chip.mem[..], from, to)
      ensures Marks(bitmap[..]) == old(Marks(bitmap[..])) - SectorsOf(from, to - from)
    {
      ghost var bits := bitmap[..];
      ClearSectors(bitmap, from, to - from);
      HonestKick(bits, bitmap[..], chip.mem[..], chip.mem[..], from, 0, to);
      MarksUpdated(bits, bitmap[..], from / SECTOR_SIZE, to / SECTOR_SIZE, false);
    }

    method PlanErase(address: u32, length: u32)
      requires Valid() && !active && EraseableRange(address, length)
      modifies this, bitmap
      ensures Between() && start == next == address && end == RoundUp(address + length, SECTOR_SIZE)
      ensures Marks(bitmap[..]) == old(Marks(bitmap[..])) - SectorsOf(start, end - start)
      ensures unchanged(this`txPayloadLength, this`initialized)
    {
      RangeFits(address, length);
      var rounded := RoundUp(address + length, SECTOR_SIZE);
      ForgetRange(address, rounded);
      start, next, end := address, address, rounded;
      completed, activeStart, activeSize := 0, 0, 0;
      active := true;
    }

    method HandleWrite(length: nat) returns (reason: byte)
      requires Valid() && initialized && 8 <= length <= RX_CAPACITY
      modifies this, chip, chip.mem, bitmap, ui, ui.written
      ensures Valid() && WellFormed(old(Seen()))
      ensures if !Checked(old(rx[..length])) then reason == BAD_CHECKSUM && Seen() == old(Seen())
              else if Finished(old(Seen())) then HandledWrite(Settled(old(Seen())), old(rx[..length]), Seen(), reason)
              else reason == BUSY && StillBusy(old(Seen()), Seen())
      ensures txPayloadLength == old(txPayloadLength)
    {
      SeenWellFormed();
      ghost var frame := rx[..length];
      var ok, address, count := CheckedFields(length);
      if !ok {
        return BAD_CHECKSUM;
      }
      if active {
        var status := EraseStatus();
        if status == BUSY {
          return BUSY;
        }
      }
      assert rx[..length] == frame;
      reason := WriteIdle(length, address, count);
    }

    /** A write with the right checksum and no erase active. */
    method WriteIdle(length: nat, address: u32, count: u32) returns (reason: byte)
      requires Valid() && !active && 8 <= length <= RX_CAPACITY && Checked(rx[..length])
      requires address == Address(rx[..length]) && count == DataLength(rx[..length])
      modifies this, chip, chip.mem, bitmap, ui, ui.written
      ensures Valid() && WellFormed(old(Seen()))
      ensures HandledWrite(old(Seen()), old(rx[..length]), Seen(), reason)
      ensures txPayloadLength == old(txPayloadLength)
    {
      SeenWellFormed();
      ghost var frame, before := rx[..length], Seen();
      assert rx[16..length] == frame[16..];
      if count == 0 || count > MAX_BLOCK || address > CAPACITY - count || address % SECTOR_SIZE != 0 || length != 16 + count {
        return BAD_ADDRESS;
      }
      var accepted := ui.ValidateWrite(address, rx, 16, count);
      if !accepted {
        return BAD_ADDRESS;
      }
      StoreSector(address, count);
      WriteHandled(before, frame, Seen());
      return OK;
    }

    lemma WriteHandled(v: View, frame: seq<byte>, v': View)
      requires WellFormed(v) && Checked(frame)
      requires var address, data := Address(frame), frame[16..];
        && WritableRange(address, DataLength(frame)) && |data| == DataLength(frame) && Ui.AcceptsWrite(v.wireSize, address, data)
        && v'.mem == SectorWrite(v.mem, address, data) && v'.wireSize == Ui.TrackedSize(v.wireSize, address, data)
        && v'.commands == v.commands + WriteCommand(v.spared, address) && v'.spared == v.spared - {address / SECTOR_SIZE}
        && v'.initialized == v.initialized && v'.erase == v.erase && v'.completed == v.completed && v'.jedec == v.jedec
      ensures HandledWrite(v, frame, v', OK)
    {
    }

    /** Make the sector blank, erasing it only when the bitmap does not vouch for it. */
    method PrepareSector(address: u32)
      requires Valid() && !active && address < CAPACITY && address % SECTOR_SIZE == 0
      modifies chip, chip.mem
      ensures Valid() && chip.mem[..] == Erased(old(chip.mem[..]), address, SECTOR_SIZE)
      ensures chip.erases == old(chip.erases) + WriteCommand(Marks(bitmap[..]), address)
    {
      ghost var before := chip.mem[..];
      if !TestBit(bitmap[address / SECTOR_SIZE / 8], address / SECTOR_SIZE % 8) {
        assert !Marked(bitmap[..], address / SECTOR_SIZE);
        chip.Erase(address, SECTOR_SIZE);
        chip.WaitReady();
      } else {
        assert Marked(bitmap[..], address / SECTOR_SIZE);
        assert chip.erases + [] == chip.erases;
      }
      BlankIsErased(before, chip.mem[..], address);
      HonestWrite(bitmap[..], bitmap[..], before, chip.mem[..], address, Marked(bitmap[..], address / SECTOR_SIZE));
    }

    /** Store the data over a blank sector, then forget the sector. */
    method StoreSector(address: u32, count: u32)
      requires Valid() && !active && WritableRange(address, count)
      modifies this, chip, chip.mem, bitmap, ui, ui.written
      ensures Valid() && unchanged(this)
      ensures chip.mem[..] == SectorWrite(old(chip.mem[..]), address, old(rx[16..16 + count]))
      ensures ui.wireSize == Ui.TrackedSize(old(ui.wireSize), address, old(rx[16..16 + count]))
      ensures chip.erases == old(chip.erases) + WriteCommand(old(Marks(bitmap[..])), address)
      ensures Marks(bitmap[..]) == old(Marks(bitmap[..])) - {address / SECTOR_SIZE}
    {
      PrepareSector(address);
      ProgramSector(address, count);
      ui.WriteComplete(address, rx, 16, count);
    }

    /** Program the data into a blank sector and take its mark back. */
    method ProgramSector(address: u32, count: u32)
      requires Valid() && !active && WritableRange(address, count) && IsBlank(chip.mem[..], address, SECTOR_SIZE)
      modifies chip, chip.mem, bitmap
      ensures Valid() && chip.mem[..] == Splice(old(chip.mem[..]), address, rx[16..16 + count])
      ensures chip.erases == old(chip.erases) && Marks(bitmap[..]) == old(Marks(bitmap[..])) - {address / SECTOR_SIZE}
    {
      ghost var blank, bits := chip.mem[..], bitmap[..];
      AndWriteBlank(blank, address, rx[16..16 + count]);
      chip.WriteData(address, rx, 16, count);
      ClearSector(bitmap, address);
      HonestWrite(bits, bitmap[..], blank, chip.mem[..], address, false);
      MarksUpdated(bits, bitmap[..], address / SECTOR_SIZE, address / SECTOR_SIZE + 1, false);
    }

    method HandleJedec() returns (reason: byte)
      requires Valid() && txPayloadLength == 0
      modifies tx, this`txPayloadLength
      ensures Valid() && TxSealed() && Seen() == old(Seen())
      ensures if initialized then HandledJedec(Seen(), reason, Staged()) else reason == BAD_INITIALIZATION && Staged() == []
    {
      if !initialized {
        return BAD_INITIALIZATION;
      }
      chip.ReadJedec(tx, TX_DATA_OFFSET);
      StagePayload(3);
      return OK;
    }

    /** Operations that touch neither the flash nor the erase engine. */
    method HandleSimple(length: nat) returns (reason: byte)
      requires Valid() && 8 <= length <= RX_CAPACITY
      requires rx[0] !in {FLASH_READ, FLASH_JEDEC, FLASH_ERASE, FLASH_STATUS, FLASH_WRITE}
      modifies this`initialized
      ensures Valid() && WellFormed(old(Seen()))
      ensures Handled(old(Seen()), rx[..length], Seen(), reason, [])
    {
      SeenWellFormed();
      assert rx[..length][0] == rx[0];
      match rx[0]
      case 0xD2 => return OK;
      case 0xD5 => return OK;
      case 0xD7 =>
        var ok, _, _ := CheckedFields(length);
        if !ok {
          return BAD_CHECKSUM;
        }
        initialized := true;
        return OK;
      case 0xD6 =>
        var ok, _, count := CheckedFields(length);
        return if length < 20 || !ok || count != 4 then BAD_CHECKSUM else OK;
      case _ => return INVALID_COMMAND;
    }

    /** `handle_request` on the frame `rx[..length]`. */
    method HandleRequest(length: nat) returns (reason: byte, reboot: bool)
      requires Valid() && 8 <= length <= RX_CAPACITY
      modifies this, chip, chip.mem, bitmap, tx, ui, ui.written
      ensures Valid() && TxSealed() && WellFormed(old(Seen()))
      ensures Handled(old(Seen()), old(rx[..length]), Seen(), reason, Staged())
      ensures reboot == (old(rx[0]) == REBOOT)
    {
      SeenWellFormed();
      reboot := rx[0] == REBOOT;
      txPayloadLength := 0;
      assert Seen() == old(Seen()) && rx[..length][0] == rx[0];
      match rx[0]
      case 0xD3 =>
        if !initialized {
          return BAD_INITIALIZATION, reboot;
        }
        reason := HandleRead(length);
      case 0xDA => reason := HandleJedec();
      case 0xD8 => reason := HandleErase(length);
      case 0xD9 => reason := EraseStatus();
      case 0xD4 =>
        if !initialized {
          return BAD_INITIALIZATION, reboot;
        }
        reason := HandleWrite(length);
      case _ => reason := HandleSimple(length);
    }

    /** The body of `main`'s loop when a byte has arrived; the bytes sent are the result. */
    method ReceiveByte(b: byte) returns (sent: seq<byte>, reboot: bool, ghost reply: seq<byte>)
      requires Valid()
      modifies this, chip, chip.mem, bitmap, rx, tx, decoder, ui, ui.written
      ensures Valid() && WellFormed(old(Seen()))
      ensures decoder.View(rx) == Slip.Next(old(decoder.View(rx)), b, RX_CAPACITY)
      ensures !Slip.Reports(old(decoder.View(rx)), b) ==> sent == [] && !reboot && Seen() == old(Seen())
      ensures Slip.Reports(old(decoder.View(rx)), b) ==>
                && sent == Slip.Encode(reply) && reply != []
                && Served(old(Seen()), old(decoder.View(rx)).data, Seen(), reply)
                && reboot == IspRuns.IsRebootFrame(old(decoder.View(rx)).data)
    {
      SeenWellFormed();
      sent, reboot, reply := [], false, [];
      var complete := decoder.DecodeByte(b, rx, RX_CAPACITY);
      assert Valid() && Seen() == old(Seen());
      if complete {
        ghost var frame := rx[..decoder.length];
        assert frame == old(decoder.View(rx)).data;
        sent, reboot, reply := Respond();
        assert rx[..decoder.length] == frame;
      }
    }

    /** Handle the frame in the receive buffer and send the reply. */
    method Respond() returns (sent: seq<byte>, reboot: bool, ghost reply: seq<byte>)
      requires Valid() && decoder.length > 0
      modifies this, chip, chip.mem, bitmap, tx, ui, ui.written
      ensures Valid() && WellFormed(old(Seen()))
      ensures sent == Slip.Encode(reply) && reply != []
      ensures Served(old(Seen()), old(rx[..decoder.length]), Seen(), reply)
      ensures reboot == IspRuns.IsRebootFrame(old(rx[..decoder.length]))
    {
      SeenWellFormed();
      var operation, reason := rx[0], BAD_LENGTH;
      reboot := false;
      txPayloadLength := 0;
      assert Seen() == old(Seen());
      if decoder.length >= 8 {
        reason, reboot := HandleRequest(decoder.length);
      }
      ReplyDataOf(operation, reason, Staged());
      sent, reply := SendReply(operation, reason);
    }

    /** Put the response header in front of the staged payload and send both as one frame. */
    method SendReply(operation: byte, reason: byte) returns (sent: seq<byte>, ghost reply: seq<byte>)
      requires Separate() && TxSealed()
      modifies tx
      ensures reply == Reply(operation, reason, old(Staged())) && sent == Slip.Encode(reply)
    {
      ghost var data := Staged();
      tx[0], tx[1] := operation, reason;
      reply := tx[..2 + txPayloadLength];
      if txPayloadLength != 0 {
        assert data == tx[TX_DATA_OFFSET..2 + txPayloadLength];
        assert reply == [operation, reason] + (tx[2..TX_DATA_OFFSET] + tx[TX_DATA_OFFSET..2 + txPayloadLength]);
      } else {
        assert reply == [operation, reason] + [];
      }
      sent := Slip.Send(tx, 2 + txPayloadLength);
    }

    /** The body of `main`'s loop when no byte has arrived. */
    method IdleTick()
      requires Valid()
      modifies this, chip, chip.mem, bitmap
      ensures Valid() && WellFormed(old(Seen()))
      ensures Polled(old(Seen()), Seen(), OK) || Polled(old(Seen()), Seen(), BUSY)
    {
      SeenWellFormed();
      if active {
        var _ := EraseStatus();
      }
    }

    /**
     * `main`: any bytes and any pauses, until a reboot. The inputs taken are explained by a run of
     * the protocol, and whatever happens, the bitmap stays honest.
     */
    method Run(inputs: seq<IspRuns.Input>)
      returns (sent: seq<byte>, taken: nat, ghost views: seq<View>, ghost events: seq<IspRuns.Event>)
      requires Valid()
      modifies this, chip, chip.mem, bitmap, rx, tx, decoder, ui, ui.written
      ensures Valid() && taken <= |inputs|
      ensures IspRuns.Explains(old(decoder.View(rx)), inputs[..taken], old(Seen()), Seen(), views, events, sent)
      ensures IspRuns.UntilReboot(events, taken == |inputs|)
      ensures Honest(bitmap[..], chip.mem[..], 0, 0)
    {
      SeenWellFormed();
      ghost var s, v := decoder.View(rx), Seen();
      sent, taken, views, events := [], 0, [v], [];
      assert inputs[..0] == [];
      var stopped := false;
      while taken < |inputs| && !stopped
        invariant Valid() && taken <= |inputs|
        invariant decoder.View(rx) == Slip.Feed(s, IspRuns.Received(inputs[..taken]), RX_CAPACITY)
        invariant IspRuns.Explains(s, inputs[..taken], v, Seen(), views, events, sent)
        invariant IspRuns.Unstopped(events, stopped)
        decreases |inputs| - taken
      {
        assert inputs[..taken + 1] == inputs[..taken] + [inputs[taken]];
        var bytes;
        bytes, stopped, views, events := NextTurn(inputs[taken], s, v, inputs[..taken], views, events, sent);
        sent, taken := sent + bytes, taken + 1;
      }
      IspRuns.LoopLeft(events, stopped, taken == |inputs|);
      HonestThroughout(bitmap[..], chip.mem[..], if active then activeStart else 0, if active then end else 0);
    }

    /** A turn after the inputs `done`, which `views`, `events` and `sent` explain. */
    method NextTurn(input: IspRuns.Input, ghost s: Slip.State, ghost v: View, ghost done: seq<IspRuns.Input>,
                    ghost views: seq<View>, ghost events: seq<IspRuns.Event>, ghost sent: seq<byte>)
      returns (bytes: seq<byte>, reboot: bool, ghost views': seq<View>, ghost events': seq<IspRuns.Event>)
      requires Valid() && decoder.View(rx) == Slip.Feed(s, IspRuns.Received(done), RX_CAPACITY)
      requires IspRuns.Explains(s, done, v, Seen(), views, events, sent) && IspRuns.Unstopped(events, false)
      modifies this, chip, chip.mem, bitmap, rx, tx, decoder, ui, ui.written
      ensures Valid() && decoder.View(rx) == Slip.Feed(s, IspRuns.Received(done + [input]), RX_CAPACITY)
      ensures IspRuns.Explains(s, done + [input], v, Seen(), views', events', sent + bytes)
      ensures IspRuns.Unstopped(events', reboot)
    {
      ghost var now, happened := Seen(), [];
      IspRuns.FeedReceived(s, done, input);
      bytes, reboot, happened := Turn(input);
      IspRuns.ExplainsTurn(s, done, input, v, now, views, events, sent, happened, Seen(), bytes);
      IspRuns.AddedEvents(events, happened, reboot);
      views', events' := if happened == [] then views else views + [Seen()], events + happened;
    }

    /** One turn of `main`'s loop, and the event that it is, if it is one. */
    method Turn(input: IspRuns.Input) returns (sent: seq<byte>, reboot: bool, ghost happened: seq<IspRuns.Event>)
      requires Valid()
      modifies this, chip, chip.mem, bitmap, rx, tx, decoder, ui, ui.written
      ensures Valid()
      ensures decoder.View(rx) ==
        if input.Some? then Slip.Next(old(decoder.View(rx)), input.value, RX_CAPACITY) else old(decoder.View(rx))
      ensures IspRuns.Turned(old(decoder.View(rx)), input, old(Seen()), happened, Seen(), sent) && |happened| <= 1
      ensures reboot == (happened != [] && IspRuns.IsReboot(happened[0]))
    {
      SeenWellFormed();
      ghost var state := decoder.View(rx);
      match input {
        case None =>
          IdleTick();
          sent, reboot, happened := [], false, [IspRuns.Poll];
        case Some(b) =>
          ghost var reply: seq<byte>;
          sent, reboot, reply := ReceiveByte(b);
          happened := if Slip.Reports(state, b) then [IspRuns.Exchange(state.data, reply)] else [];
      }
      SeenWellFormed();
    }
  }
}
