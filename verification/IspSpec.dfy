/**
 * The second-stage flash stub as its hosts see it: a protocol over flash contents, one erase in
 * progress at most, and the erase commands issued. The erased-sector bitmap is only a set of
 * sectors, and decides only about commands. `IspStub` is shown to implement the protocol.
 */
module IspSpec {
  import opened Bytes
  import Crc32
  import opened NorFlash
  import Ui

  const NOP: byte := 0xD2
  const FLASH_READ: byte := 0xD3
  const FLASH_WRITE: byte := 0xD4
  const REBOOT: byte := 0xD5
  const BAUDRATE: byte := 0xD6
  const FLASH_INIT: byte := 0xD7
  const FLASH_ERASE: byte := 0xD8
  const FLASH_STATUS: byte := 0xD9
  const FLASH_JEDEC: byte := 0xDA

  const OK: byte := 0xE0
  const BAD_LENGTH: byte := 0xE1
  const BAD_CHECKSUM: byte := 0xE2
  const INVALID_COMMAND: byte := 0xE3
  const BAD_INITIALIZATION: byte := 0xE4
  const BAD_ADDRESS: byte := 0xE5
  const FLASH_ERROR: byte := 0xE6
  const BUSY: byte := 0xE7

  const MAX_BLOCK: nat := 4096
  const RX_CAPACITY: nat := MAX_BLOCK + 32

  // ---------------------------------------------------------------- state

  /** `Running`: the piece at `at` is being erased, on the way from `start` to `end`; the chip will
      answer busy to `patience` more polls before the piece is blank. */
  datatype Erase = Idle | Running(start: nat, end: nat, at: nat, size: nat, patience: nat)

  /**
   * `completed` is the progress shown for the latest erase, `commands` are all erase commands the chip
   * has seen, and `spared` are the sectors whose next write needs no erase command.
   */
  datatype View = View(
    initialized: bool, mem: seq<byte>, erase: Erase, completed: nat, commands: seq<Piece>, spared: set<nat>,
    wireSize: nat, jedec: seq<byte>)

  ghost predicate WellFormed(v: View) {
    && |v.mem| == CAPACITY
    && |v.jedec| == 3
    && (v.erase.Running? ==>
          && v.erase.start <= v.erase.at < v.erase.at + v.erase.size <= v.erase.end <= CAPACITY
          && v.erase.start % SECTOR_SIZE == v.erase.at % SECTOR_SIZE == v.erase.end % SECTOR_SIZE == 0
          && v.erase.size == PieceSize(v.erase.at, v.erase.end)
          && v.completed == v.erase.at - v.erase.start)
  }

  // ---------------------------------------------------------------- erasing

  /** The erase command for the next piece: 64 KiB when aligned and room remains, else 4 KiB. */
  function PieceSize(at: nat, end: nat): nat
    requires at <= end
  {
    if at % BLOCK_SIZE == 0 && end - at >= BLOCK_SIZE then BLOCK_SIZE else SECTOR_SIZE
  }

  /** The erase commands for `[at, end)`, in order. */
  function Tiling(at: nat, end: nat): seq<Piece>
    decreases end - at
  {
    if at >= end then [] else [Piece(at, PieceSize(at, end))] + Tiling(at + PieceSize(at, end), end)
  }

  lemma TilingStep(log: seq<Piece>, at: nat, end: nat)
    requires at < end
    ensures log + [Piece(at, PieceSize(at, end))] + Tiling(at + PieceSize(at, end), end) == log + Tiling(at, end)
  {
  }

  /** An erase command for the piece at `at` has been issued; that piece now holds anything. */
  ghost predicate Kicked(v: View, v': View, start: nat, end: nat, at: nat)
    requires start <= at <= end
  {
    && v'.erase.Running?
    && v'.erase == Running(start, end, at, PieceSize(at, end), v'.erase.patience)
    && AgreeOutside(v.mem, v'.mem, at, PieceSize(at, end))
    && v' == v.(mem := v'.mem, erase := v'.erase, completed := at - start,
                commands := v.commands + [Piece(at, PieceSize(at, end))])
  }

  /** No erase is running, or its last piece has just become blank. */
  ghost predicate Finished(v: View) {
    v.erase.Idle? || (v.erase.patience == 0 && v.erase.at + v.erase.size >= v.erase.end)
  }

  /** The active piece has become blank and no erase remains. */
  ghost function Settled(v: View): View
    requires WellFormed(v)
  {
    if v.erase.Idle? then v
    else v.(mem := Erased(v.mem, v.erase.at, v.erase.size), erase := Idle,
            completed := v.erase.at + v.erase.size - v.erase.start,
            spared := v.spared + SectorsOf(v.erase.at, v.erase.size))
  }

  /** A poll of the erase engine that finds it still at work. */
  ghost predicate StillBusy(v: View, v': View)
    requires WellFormed(v) && !Finished(v)
  {
    if v.erase.patience > 0 then v' == v.(erase := v.erase.(patience := v.erase.patience - 1))
    else Kicked(Settled(v), v', v.erase.start, v.erase.end, v.erase.at + v.erase.size)
  }

  /** One poll of the erase engine. */
  ghost predicate Polled(v: View, v': View, reason: byte)
    requires WellFormed(v)
  {
    if Finished(v) then reason == OK && v' == Settled(v) else reason == BUSY && StillBusy(v, v')
  }

  // ---------------------------------------------------------------- requests

  function Address(frame: seq<byte>): u32
    requires |frame| >= 16
  {
    FromLe32(frame[8..12])
  }

  function DataLength(frame: seq<byte>): u32
    requires |frame| >= 16
  {
    FromLe32(frame[12..16])
  }

  /** `valid_payload`: the checksum field matches everything after it. */
  ghost predicate Authentic(frame: seq<byte>) {
    |frame| >= 8 && frame[4..8] == Crc32.Seal(frame[8..])
  }

  ghost predicate Checked(frame: seq<byte>) {
    |frame| >= 16 && Authentic(frame)
  }

  predicate ReadableRange(address: nat, length: nat) {
    0 < length <= MAX_BLOCK && address + length <= CAPACITY
  }

  predicate EraseableRange(address: nat, length: nat) {
    0 < length && address + length <= CAPACITY && address % SECTOR_SIZE == 0
  }

  predicate WritableRange(address: nat, length: nat) {
    0 < length <= MAX_BLOCK && address + length <= CAPACITY && address % SECTOR_SIZE == 0
  }

  function RoundUp(n: nat, unit: nat): nat
    requires unit > 0
  {
    (n + unit - 1) / unit * unit
  }

  /** What a write leaves: the data, then blank bytes to the end of its sector. */
  function SectorWrite(m: seq<byte>, address: nat, data: seq<byte>): (r: seq<byte>)
    requires |m| == CAPACITY && WritableRange(address, |data|)
    ensures |r| == CAPACITY
  {
    Splice(Erased(m, address, SECTOR_SIZE), address, data)
  }

  ghost predicate HandledRead(v: View, frame: seq<byte>, v': View, reason: byte, data: seq<byte>)
    requires WellFormed(v)
  {
    && v' == v
    && if !Checked(frame) then reason == BAD_CHECKSUM && data == []
       else if !ReadableRange(Address(frame), DataLength(frame)) then reason == BAD_ADDRESS && data == []
       else reason == OK && data == v.mem[Address(frame)..Address(frame) + DataLength(frame)]
  }

  /** A spared sector is written without an erase command, and is spared no longer; the flash cannot tell. */
  ghost predicate HandledWrite(v: View, frame: seq<byte>, v': View, reason: byte)
    requires WellFormed(v) && Checked(frame)
  {
    var address, length, data := Address(frame), DataLength(frame), frame[16..];
    if !WritableRange(address, length) || |data| != length || !Ui.AcceptsWrite(v.wireSize, address, data)
    then reason == BAD_ADDRESS && v' == v
    else
      && reason == OK
      && v' == v.(mem := SectorWrite(v.mem, address, data), wireSize := Ui.TrackedSize(v.wireSize, address, data),
                  commands := v.commands + WriteCommand(v.spared, address), spared := v.spared - {address / SECTOR_SIZE})
  }

  /** The erase command that a write to this sector needs. */
  function WriteCommand(spared: set<nat>, address: nat): seq<Piece> {
    if address / SECTOR_SIZE in spared then [] else [Piece(address, SECTOR_SIZE)]
  }

  ghost predicate HandledErase(v: View, frame: seq<byte>, v': View, reason: byte)
    requires WellFormed(v)
  {
    if !v.initialized then reason == BAD_INITIALIZATION && v' == v
    else if v.erase.Running? then reason == BUSY && v' == v
    else if !Checked(frame) then reason == BAD_CHECKSUM && v' == v
    else if !EraseableRange(Address(frame), DataLength(frame)) then reason == BAD_ADDRESS && v' == v
    else
      var start, end := Address(frame), RoundUp(Address(frame) + DataLength(frame), SECTOR_SIZE);
      reason == BUSY && Kicked(Forgotten(v, start, end), v', start, end, start)
  }

  /** A chip that is erasing ignores the command, and the stub reads whatever is on the line. */
  ghost predicate HandledJedec(v: View, reason: byte, data: seq<byte>) {
    reason == OK && |data| == 3 && (v.erase.Idle? ==> data == v.jedec)
  }

  /** No sector of the range is spared any more. */
  ghost function Forgotten(v: View, start: nat, end: nat): View
    requires start <= end
  {
    v.(spared := v.spared - SectorsOf(start, end - start))
  }

  /** One request: the state before and after, the reason byte and the data of the reply. */
  ghost predicate Handled(v: View, frame: seq<byte>, v': View, reason: byte, data: seq<byte>)
    requires WellFormed(v) && |frame| >= 8
  {
    var op := frame[0];
    if op == FLASH_READ then
      if !v.initialized then reason == BAD_INITIALIZATION && v' == v && data == []
      else if Finished(v) then HandledRead(Settled(v), frame, v', reason, data)
      else reason == BUSY && StillBusy(v, v') && data == []
    else if op == FLASH_JEDEC then
      v' == v && if v.initialized then HandledJedec(v, reason, data) else reason == BAD_INITIALIZATION && data == []
    else
      data == [] &&
      if op == FLASH_INIT then
        if Checked(frame) then reason == OK && v' == v.(initialized := true) else reason == BAD_CHECKSUM && v' == v
      else if op == FLASH_ERASE then HandledErase(v, frame, v', reason)
      else if op == FLASH_STATUS then Polled(v, v', reason)
      else if op == FLASH_WRITE then
        if !v.initialized then reason == BAD_INITIALIZATION && v' == v
        else if !Checked(frame) then reason == BAD_CHECKSUM && v' == v
        else if Finished(v) then HandledWrite(Settled(v), frame, v', reason)
        else reason == BUSY && StillBusy(v, v')
      else
        && v' == v
        && (op == BAUDRATE ==> reason == if |frame| >= 20 && Checked(frame) && DataLength(frame) == 4 then OK else BAD_CHECKSUM)
        && (op == NOP || op == REBOOT ==> reason == OK)
        && (op !in {NOP, REBOOT, BAUDRATE} ==> reason == INVALID_COMMAND)
  }

  /** A reply frame: operation, reason, then the sealed data if there is any. */
  function Reply(op: byte, reason: byte, data: seq<byte>): (r: seq<byte>)
    ensures |r| >= 2
  {
    [op, reason] + if data == [] then [] else Crc32.Seal(data) + data
  }

  function ReplyData(reply: seq<byte>): seq<byte> {
    if |reply| < 6 then [] else reply[6..]
  }

  lemma ReplyDataOf(op: byte, reason: byte, data: seq<byte>)
    ensures ReplyData(Reply(op, reason, data)) == data
  {
  }

  /** A whole exchange: a request frame in, a reply frame out. */
  ghost predicate Served(v: View, frame: seq<byte>, v': View, reply: seq<byte>)
    requires WellFormed(v) && frame != []
  {
    if |frame| < 8 then v' == v && reply == Reply(frame[0], BAD_LENGTH, [])
    else && |reply| >= 2
         && reply == Reply(frame[0], reply[1], ReplyData(reply))
         && Handled(v, frame, v', reply[1], ReplyData(reply))
  }
}
