/** The host side of the ISP link, common to both tools: requests, and one lossless exchange with the stub. */
module Link {
  import opened Bytes
  import Crc32
  import opened NorFlash
  import opened IspSpec
  import IspRuns
  import opened IspStub
  import Slip

  /** `request` of hkflash.py: operation, reserved, CRC-32, payload. */
  function Request(op: byte, payload: seq<byte>): seq<byte> {
    [op, 0, 0, 0] + Crc32.Seal(payload) + payload
  }

  /** `struct.pack("<II", address, length) + data`, or the error of packing an out-of-range number. */
  function Payload(address: int, length: int, data: seq<byte>): Option<seq<byte>> {
    if 0 <= address < 0x1_0000_0000 && 0 <= length < 0x1_0000_0000 then Some(Le32(address) + Le32(length) + data) else None
  }

  /** The stub reads back every field that the host packed, and finds the checksum right. */
  lemma RequestFields(op: byte, address: u32, length: u32, data: seq<byte>)
    ensures var r := Request(op, Le32(address) + Le32(length) + data);
            && |r| == 16 + |data| && r[0] == op && Checked(r)
            && Address(r) == address && DataLength(r) == length && r[16..] == data
  {
    var payload := Le32(address) + Le32(length) + data;
    var r := Request(op, payload);
    assert r[4..8] == Crc32.Seal(payload) && r[8..] == payload;
    assert r[8..12] == Le32(address) && r[12..16] == Le32(length);
    Le32RoundTrip(address);
    Le32RoundTrip(length);
  }

  /** Where the fields of a request are, least significant byte first, for both ends of the link. */
  lemma RequestLayout(op: byte, address: u32, length: u32, data: seq<byte>)
    ensures var r := Request(op, Le32(address) + Le32(length) + data);
            && |r| == 16 + |data| && r[..4] == [op, 0, 0, 0] && Crc32.Bits(r[4..8]) == Crc32.Checksum(r[8..])
            && LittleEndian(r[8..12]) == address && LittleEndian(r[12..16]) == length && r[16..] == data
            && Address(r) == address && DataLength(r) == length
  {
    var payload := Le32(address) + Le32(length) + data;
    var r := Request(op, payload);
    RequestFields(op, address, length, data);
    assert r[4..8] == Crc32.Seal(payload) && r[8..] == payload;
    Crc32.SealBits(payload);
    FourByteField(r[8..12]);
    FourByteField(r[12..16]);
  }

  /** The stub is between frames. An erase may be running. */
  ghost predicate Listening(stub: IspStub)
    reads stub, stub.chip, stub.chip.mem, stub.bitmap, stub.decoder, stub.ui, stub.ui.written
  {
    stub.Valid() && stub.decoder.phase == Slip.Outside
  }

  /** A stub that has just been started over a chip with the given contents. */
  method Boot(contents: seq<byte>, jedec: seq<byte>) returns (stub: IspStub)
    requires |contents| == CAPACITY && |jedec| == 3
    ensures fresh(stub) && Listening(stub) && !stub.active && !stub.initialized
    ensures stub.chip.mem[..] == contents && stub.chip.jedec == jedec
  {
    var chip := new NorChip(contents, jedec);
    stub := new IspStub(chip);
  }

  lemma SilentBeforeEnd(s: Slip.State, wire: seq<byte>, i: nat, capacity: nat)
    requires i < |wire| && Slip.Reported(s, wire, capacity) == []
    ensures !Slip.Reports(Slip.Feed(s, wire[..i], capacity), wire[i])
    ensures Slip.Feed(s, wire[..i + 1], capacity) == Slip.Next(Slip.Feed(s, wire[..i], capacity), wire[i], capacity)
  {
    Slip.FeedConcat(s, wire[..i], wire[i..], capacity);
    assert wire == wire[..i] + wire[i..] && wire[i..][0] == wire[i];
    Slip.FeedLast(s, wire[..i], wire[i], capacity);
    assert wire[..i + 1] == wire[..i] + [wire[i]];
  }

  /** Any number of turns of the stub's loop in which no byte has arrived. */
  method Pause(stub: IspStub, ghost before: View)
    requires stub.Valid() && IspRuns.Idled(before, stub.Seen())
    modifies stub, stub.chip, stub.chip.mem, stub.bitmap
    ensures stub.Valid() && stub.decoder.View(stub.rx) == old(stub.decoder.View(stub.rx))
    ensures IspRuns.Idled(before, stub.Seen())
  {
    var turns: int, i := *, 0;
    while i < turns
      invariant stub.Valid() && stub.decoder.View(stub.rx) == old(stub.decoder.View(stub.rx))
      invariant IspRuns.Idled(before, stub.Seen())
    {
      ghost var v := stub.Seen();
      stub.SeenWellFormed();
      stub.IdleTick();
      stub.SeenWellFormed();
      IspRuns.OneMoreTurn(before, v, stub.Seen());
      i := i + 1;
    }
  }

  /** Send bytes that do not complete a frame; the stub may take idle turns before every one of them. */
  method SendSilently(stub: IspStub, bytes: seq<byte>, ghost before: View) returns (wire: seq<byte>)
    requires stub.Valid() && IspRuns.Idled(before, stub.Seen())
    requires Slip.Reported(stub.decoder.View(stub.rx), bytes, RX_CAPACITY) == []
    modifies stub, stub.chip, stub.chip.mem, stub.bitmap, stub.rx, stub.tx, stub.decoder, stub.ui, stub.ui.written
    ensures stub.Valid() && IspRuns.Idled(before, stub.Seen()) && wire == []
    ensures stub.decoder.View(stub.rx) == Slip.Feed(old(stub.decoder.View(stub.rx)), bytes, RX_CAPACITY)
  {
    ghost var s := stub.decoder.View(stub.rx);
    wire := [];
    for i := 0 to |bytes|
      invariant stub.Valid() && IspRuns.Idled(before, stub.Seen()) && wire == []
      invariant stub.decoder.View(stub.rx) == Slip.Feed(s, bytes[..i], RX_CAPACITY)
    {
      SilentBeforeEnd(s, bytes, i, RX_CAPACITY);
      Pause(stub, before);
      var sent, _, _ := stub.ReceiveByte(bytes[i]);
      wire := wire + sent;
    }
    assert bytes[..|bytes|] == bytes;
  }

  /**
   * Send one frame to the stub and collect the bytes of its answer. The stub may take idle turns
   * before every byte; `seen` is the state it has reached when the frame is complete.
   */
  method Transact(stub: IspStub, frame: seq<byte>) returns (wire: seq<byte>, ghost seen: View, ghost reply: seq<byte>)
    requires Listening(stub) && frame != []
    modifies stub, stub.chip, stub.chip.mem, stub.bitmap, stub.rx, stub.tx, stub.decoder, stub.ui, stub.ui.written
    ensures Listening(stub) && WellFormed(seen) && IspRuns.Idled(old(stub.Seen()), seen)
    ensures if |frame| <= RX_CAPACITY
            then wire == Slip.Encode(reply) && reply != [] && Served(seen, frame, stub.Seen(), reply)
            else wire == [] && stub.Seen() == seen
  {
    ghost var before, s := stub.Seen(), stub.decoder.View(stub.rx);
    stub.SeenWellFormed();
    IspRuns.NoIdling(before);
    // `slip_encode`, sent up to its closing END and then with it.
    var body := [Slip.END] + Slip.HostEscape(frame);
    FrameCloses(s, frame, body);
    wire := SendSilently(stub, body, before);
    Pause(stub, before);
    seen := stub.Seen();
    stub.SeenWellFormed();
    var sent, _, answer := stub.ReceiveByte(Slip.END);
    wire, reply := wire + sent, answer;
  }

  /** All bytes of an encoded frame but the last are silent, and the last reports the frame if it fits. */
  lemma FrameCloses(s: Slip.State, frame: seq<byte>, body: seq<byte>)
    requires s.phase == Slip.Outside && frame != [] && body == [Slip.END] + Slip.HostEscape(frame)
    ensures Slip.HostEncode(frame) == body + [Slip.END] && Slip.Reported(s, body, RX_CAPACITY) == []
    ensures var full := Slip.Feed(s, body, RX_CAPACITY);
      && Slip.Next(full, Slip.END, RX_CAPACITY).phase == Slip.Outside
      && (Slip.Reports(full, Slip.END) <==> |frame| <= RX_CAPACITY)
      && (|frame| <= RX_CAPACITY ==> full.data == frame)
  {
    Slip.HostEncodeIsEncode(frame);
    Slip.FrameRoundTrip(s, frame, RX_CAPACITY);
    Slip.FeedConcat(s, body, [Slip.END], RX_CAPACITY);
    var full := Slip.Feed(s, body, RX_CAPACITY);
    Slip.FeedTwo(full, Slip.END, 0, RX_CAPACITY);
    assert Slip.Reported(full, [Slip.END], RX_CAPACITY) == if Slip.Reports(full, Slip.END) then [full.data] else [];
  }
}
