/** hl_dump.py: reading the flash back to a file through the stub. */
module HlDump {
  import opened Bytes
  import Crc32
  import opened NorFlash
  import opened IspSpec
  import IspRuns
  import opened IspStub
  import opened Link
  import Slip

  /** Every way a command can raise. */
  datatype Failure = PackError | NoResponse | Rejected(reason: byte) | BadPayload | BadRange | ShortRead

  /** `IspLink.command`: the verified payload of the reply. */
  method Command(stub: IspStub, op: byte, address: int, data: seq<byte>, length: int)
    returns (r: Result<seq<byte>, Failure>, ghost seen: View, ghost reply: seq<byte>)
    requires Listening(stub)
    modifies stub, stub.chip, stub.chip.mem, stub.bitmap, stub.rx, stub.tx, stub.decoder, stub.ui, stub.ui.written
    ensures Listening(stub) && WellFormed(seen) && IspRuns.Idled(old(stub.Seen()), seen)
    ensures var payload := Payload(address, length, data);
            if payload.None? then r == Err(PackError) && stub.Seen() == seen
            else if |data| + 16 > RX_CAPACITY then r == Err(NoResponse) && stub.Seen() == seen
            else && Served(seen, Request(op, payload.value), stub.Seen(), reply)
                 && r == if reply[1] == OK then Ok(ReplyData(reply)) else Err(Rejected(reply[1]))
    ensures old(stub.Seen()).erase.Idle? ==> seen == old(stub.Seen())
  {
    stub.SeenWellFormed();
    seen, reply := stub.Seen(), [];
    IspRuns.NoIdling(seen);
    var payload := Payload(address, length, data);
    if payload.None? {
      return Err(PackError), seen, reply;
    }
    var wire;
    wire, seen, reply := Transact(stub, Request(op, payload.value));
    IspRuns.IdlingKeepsPromise(old(stub.Seen()), seen);
    if wire == [] {
      return Err(NoResponse), seen, reply;
    }
    Slip.HlReadsFrame(reply);
    var answer := Slip.HlReadFrame(wire);
    r := CheckReply(answer.value);
    ReplyIsChecked(reply[0], reply[1], ReplyData(reply));
  }

  /** What a reply frame yields, whatever arrived: nothing is accepted but an OK, alone or with sealed data. */
  function Verified(frame: seq<byte>): Result<seq<byte>, Failure> {
    if |frame| < 2 then Err(NoResponse)
    else if frame[1] != OK then Err(Rejected(frame[1]))
    else if |frame| == 2 then Ok([])
    else if |frame| < 6 || frame[2..6] != Crc32.Seal(frame[6..]) then Err(BadPayload)
    else Ok(frame[6..])
  }

  /** The checks that `_raw` and `command` make on the frame they have read. */
  method CheckReply(frame: seq<byte>) returns (r: Result<seq<byte>, Failure>)
    ensures r == Verified(frame)
  {
    if |frame| < 2 {
      return Err(NoResponse);
    }
    if frame[1] != OK {
      return Err(Rejected(frame[1]));
    }
    var payload := frame[2..];
    if payload == [] {
      return Ok([]);
    }
    if |payload| < 4 {
      return Err(BadPayload);
    }
    var expected := FromLe32(payload[..4]);
    var body := payload[4..];
    var actual := FromLe32(Crc32.Seal(body));
    FromLe32RoundTrip(payload[..4]);
    FromLe32RoundTrip(Crc32.Seal(body));
    assert payload[..4] == frame[2..6] && body == frame[6..];
    if actual != expected {
      return Err(BadPayload);
    }
    return Ok(body);
  }

  /** The stub's replies pass: an OK yields its data, anything else is rejected with its reason. */
  lemma ReplyIsChecked(op: byte, reason: byte, data: seq<byte>)
    ensures Verified(Reply(op, reason, data)) == if reason == OK then Ok(data) else Err(Rejected(reason))
  {
    var frame := Reply(op, reason, data);
    if data != [] {
      assert frame[2..6] == Crc32.Seal(data) && frame[6..] == data;
    }
  }

  /** Up to four damaged bytes in the data of a reply, or in its checksum, never pass for data. */
  lemma DamagedReplyIsRefused(frame: seq<byte>, damaged: seq<byte>, i: nat)
    requires |frame| > 6 && Verified(frame).Ok? && damaged != frame
    requires Crc32.SameOutside(frame, damaged, i) && (i >= 6 || i == 2)
    ensures Verified(damaged) == Err(BadPayload)
  {
    assert frame == frame[..2] + frame[2..6] + frame[6..] && damaged == damaged[..2] + damaged[2..6] + damaged[6..];
    assert frame[..2] == damaged[..2] && damaged[1] == OK;
    if i == 2 {
      assert frame[6..] == damaged[6..];
    } else {
      assert frame[2..6] == damaged[2..6];
      assert Crc32.SameOutside(frame[6..], damaged[6..], i - 6);
      Crc32.BurstDetected(frame[6..], damaged[6..], i - 6);
    }
  }

  // ---------------------------------------------------------------- the dump

  /** How many bytes there are to dump: what was asked for, at most what the part reports. */
  function Wanted(size: int, jedec: seq<byte>): int
    requires |jedec| == 3
  {
    var capacity := PowerOfTwo(jedec[2]);
    if size > capacity then capacity else size
  }

  /** The arguments with which a dump of an idle stub's flash succeeds. */
  predicate Dumpable(size: int, block: int, flashType: int, jedec: seq<byte>)
    requires |jedec| == 3
  {
    var n := Wanted(size, jedec);
    && 0 <= flashType < 0x1_0000_0000
    && block != 0
    && (if block > 0 then n <= CAPACITY && (n > 0 ==> Min(block, n) <= MAX_BLOCK) else n >= 0)
  }

  /** The file that a dump of `n` bytes leaves behind. */
  function Dumped(mem: seq<byte>, n: int, block: int): seq<byte>
    requires block > 0 ==> n <= |mem|
  {
    if block > 0 && n > 0 then mem[..n] else []
  }

  /** The file holds the wanted part of the flash. */
  predicate Complete(mem: seq<byte>, n: int, file: seq<byte>) { n <= |mem| && file == mem[..if n > 0 then n else 0] }

  /** The file is the wanted part of the flash exactly when the block size is positive or nothing is wanted. */
  lemma DumpIsComplete(mem: seq<byte>, size: int, block: int, flashType: int, jedec: seq<byte>)
    requires |mem| == CAPACITY && |jedec| == 3 && Dumpable(size, block, flashType, jedec)
    ensures var n := Wanted(size, jedec);
            Complete(mem, n, Dumped(mem, n, block)) <==> block > 0 || n <= 0
  {
    var n := Wanted(size, jedec);
    if block < 0 && 0 < n <= |mem| {
      assert |mem[..n]| == n && |Dumped(mem, n, block)| == 0;
    }
  }

  /** A block size of -1 is accepted for a whole 16 MiB part, and the file stays empty. */
  lemma NegativeBlockDumpsNothing(mem: seq<byte>)
    requires |mem| == CAPACITY
    ensures var jedec := [0xEF, 0x40, 0x18];
      && Dumpable(CAPACITY, -1, 0, jedec) && Wanted(CAPACITY, jedec) == CAPACITY
      && Dumped(mem, CAPACITY, -1) == [] && !Complete(mem, CAPACITY, [])
  {
    assert PowerOfTwo(8) == 0x100;
    PowersMultiply(8, 8);
    PowersMultiply(16, 8);
  }

  /** Does `range(0, size, block)` still yield `address`? */
  predicate InRange(address: int, size: int, block: int) {
    if block > 0 then address < size else address > size
  }

  /**
   * `dump`, on a link to a stub with no erase active. It returns normally exactly for the
   * arguments in `Dumpable`, and then it has written the start of the flash, except that a
   * negative block size makes it write nothing at all.
   */
  method Dump(stub: IspStub, size: int, block: int, flashType: int) returns (r: Result<seq<byte>, Failure>)
    requires Listening(stub) && !stub.active
    modifies stub, stub.chip, stub.chip.mem, stub.bitmap, stub.rx, stub.tx, stub.decoder, stub.ui, stub.ui.written
    ensures Listening(stub) && !stub.active && stub.chip.mem[..] == old(stub.chip.mem[..])
    ensures r.Ok? <==> |stub.chip.jedec| == 3 && Dumpable(size, block, flashType, stub.chip.jedec)
    ensures r.Ok? ==> r.value == Dumped(old(stub.chip.mem[..]), Wanted(size, stub.chip.jedec), block)
    ensures r.Ok? && block > 0 && size >= 0 ==>
              var part := PowerOfTwo(stub.chip.jedec[2]);
              r.value == old(stub.chip.mem[..])[..if size <= part then size else part]
  {
    stub.SeenWellFormed();
    var id := Identify(stub, flashType);
    if id.Err? {
      return id;
    }
    var total := Wanted(size, id.value);
    if block == 0 {
      return Err(BadRange);
    }
    r := DumpBlocks(stub, total, block);
  }

  /** The requests before the block loop: initialise, and read the identification of the part. */
  method Identify(stub: IspStub, flashType: int) returns (r: Result<seq<byte>, Failure>)
    requires Listening(stub) && !stub.active
    modifies stub, stub.chip, stub.chip.mem, stub.bitmap, stub.rx, stub.tx, stub.decoder, stub.ui, stub.ui.written
    ensures Listening(stub) && !stub.active && stub.chip.mem[..] == old(stub.chip.mem[..])
    ensures r.Ok? <==> 0 <= flashType < 0x1_0000_0000
    ensures r.Ok? ==> stub.initialized && r.value == stub.chip.jedec && |r.value| == 3
  {
    stub.SeenWellFormed();
    ghost var v, seen, reply := stub.Seen(), stub.Seen(), [];
    r, seen, reply := Command(stub, FLASH_INIT, flashType, [], 0);
    if 0 <= flashType < 0x1_0000_0000 {
      Initialised(v, flashType, stub.Seen(), reply);
    }
    if r.Ok? {
      v := stub.Seen();
      r, seen, reply := Command(stub, FLASH_JEDEC, 0, [], 0);
      Identified(v, stub.Seen(), reply);
    }
  }

  lemma Initialised(v: View, flashType: u32, v': View, reply: seq<byte>)
    requires WellFormed(v) && v.erase.Idle? && Served(v, Request(FLASH_INIT, Le32(flashType) + Le32(0) + []), v', reply)
    ensures reply[1] == OK && v' == v.(initialized := true)
  {
    RequestFields(FLASH_INIT, flashType, 0, []);
  }

  lemma Identified(v: View, v': View, reply: seq<byte>)
    requires WellFormed(v) && v.erase.Idle? && v.initialized
    requires Served(v, Request(FLASH_JEDEC, Le32(0) + Le32(0) + []), v', reply)
    ensures reply[1] == OK && v' == v && ReplyData(reply) == v.jedec
  {
    RequestFields(FLASH_JEDEC, 0, 0, []);
  }

  function Min(a: int, b: int): int { if a < b then a else b }

  /** One read request of the block loop. */
  method ReadBlock(stub: IspStub, address: int, length: int) returns (r: Result<seq<byte>, Failure>)
    requires Listening(stub) && !stub.active && stub.initialized
    modifies stub, stub.chip, stub.chip.mem, stub.bitmap, stub.rx, stub.tx, stub.decoder, stub.ui, stub.ui.written
    ensures Listening(stub) && stub.Seen() == old(stub.Seen())
    ensures r.Ok? <==> 0 <= address && 0 < length && ReadableRange(address, length)
    ensures r.Ok? ==> r.value == old(stub.chip.mem[..])[address..address + length]
  {
    stub.SeenWellFormed();
    ghost var v, seen, reply := stub.Seen(), stub.Seen(), [];
    r, seen, reply := Command(stub, FLASH_READ, address, [], length);
    if 0 <= address < 0x1_0000_0000 && 0 <= length < 0x1_0000_0000 {
      ReadServed(v, address, length, stub.Seen(), reply);
    }
    if r.Ok? && |r.value| != length {
      r := Err(ShortRead);
    }
  }

  lemma ReadServed(v: View, address: u32, length: u32, v': View, reply: seq<byte>)
    requires WellFormed(v) && v.erase.Idle? && v.initialized
    requires Served(v, Request(FLASH_READ, Le32(address) + Le32(length) + []), v', reply)
    ensures v' == v && (reply[1] == OK <==> ReadableRange(address, length))
    ensures reply[1] == OK ==> ReplyData(reply) == v.mem[address..address + length]
  {
    RequestFields(FLASH_READ, address, length, []);
    assert HandledRead(v, Request(FLASH_READ, Le32(address) + Le32(length) + []), v', reply[1], ReplyData(reply));
  }

  /** The block loop of `dump`. */
  method DumpBlocks(stub: IspStub, total: int, block: int) returns (r: Result<seq<byte>, Failure>)
    requires Listening(stub) && !stub.active && stub.initialized && block != 0
    modifies stub, stub.chip, stub.chip.mem, stub.bitmap, stub.rx, stub.tx, stub.decoder, stub.ui, stub.ui.written
    ensures Listening(stub) && stub.Seen() == old(stub.Seen())
    ensures r.Ok? <==> if block > 0 then total <= CAPACITY && (total > 0 ==> Min(block, total) <= MAX_BLOCK) else total >= 0
    ensures r.Ok? ==> r.value == Dumped(old(stub.chip.mem[..]), total, block)
  {
    ghost var v := stub.Seen();
    var output: seq<byte> := [];
    var address := 0;
    while InRange(address, total, block)
      invariant Listening(stub) && stub.Seen() == v && !stub.active && stub.initialized
      invariant address == 0 || (block > 0 && address > 0 && total > 0 && Min(block, total) <= MAX_BLOCK)
      invariant |output| == if total > 0 then Min(address, total) else 0
      invariant |output| <= CAPACITY && output == v.mem[..|output|]
      decreases if block > 0 then total - address else 0
    {
      var length := Min(block, total - address);
      var data := ReadBlock(stub, address, length);
      if data.Err? {
        return data;
      }
      output := output + data.value;
      address := address + block;
    }
    return Ok(output);
  }
}
