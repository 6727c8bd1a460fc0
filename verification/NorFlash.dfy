/**
 * The SPI NOR chip and the stub's driver over it: programming can only clear bits and wraps
 * inside a 256-byte page, erasing takes a while and leaves its range undefined until the busy
 * flag drops. The driver is shown to hide the pages: one contiguous write, one program a page.
 */
module NorFlash {
  import opened Bytes

  const CAPACITY: nat := 0x100_0000
  const SECTOR_SIZE: nat := 0x1000
  const BLOCK_SIZE: nat := 0x1_0000
  const PAGE_SIZE: nat := 0x100
  const BLANK: byte := 0xFF

  /** A contiguous range of the chip. */
  datatype Piece = Piece(start: nat, size: nat)

  datatype Activity = Ready | Erasing(piece: Piece) | Programming

  // ---------------------------------------------------------------- contents as a value

  function Blank(n: nat): (s: seq<byte>)
    ensures |s| == n && forall i :: 0 <= i < n ==> s[i] == BLANK
  {
    seq(n, i => BLANK)
  }

  ghost predicate IsBlank(m: seq<byte>, start: nat, size: nat)
    requires start + size <= |m|
  {
    forall i :: start <= i < start + size ==> m[i] == BLANK
  }

  /** `m` with `data` in place of the bytes at `at`. */
  function Splice(m: seq<byte>, at: nat, data: seq<byte>): (r: seq<byte>)
    requires at + |data| <= |m|
    ensures |r| == |m|
    ensures forall i :: 0 <= i < |m| ==> r[i] == if at <= i < at + |data| then data[i - at] else m[i]
  {
    m[..at] + data + m[at + |data|..]
  }

  function Erased(m: seq<byte>, start: nat, size: nat): (r: seq<byte>)
    requires start + size <= |m|
    ensures |r| == |m|
  {
    Splice(m, start, Blank(size))
  }

  /** The sectors with these numbers. */
  function Sectors(first: nat, end: nat): set<nat> { set s: nat | s < end && Between(s, first, end) }

  predicate Between(s: nat, first: nat, end: nat) { first <= s < end }

  /** The sectors of a range of whole sectors. */
  function SectorsOf(start: nat, size: nat): set<nat> { Sectors(start / SECTOR_SIZE, (start + size) / SECTOR_SIZE) }

  ghost predicate AgreeOutside(a: seq<byte>, b: seq<byte>, start: nat, size: nat) {
    |a| == |b| && forall i :: 0 <= i < |a| && !(start <= i < start + size) ==> a[i] == b[i]
  }

  /** Bitwise AND. */
  function BitAnd(a: nat, b: nat): (r: nat)
    ensures r <= b
    decreases a + b
  {
    if a == 0 || b == 0 then 0
    else (if a % 2 == 1 && b % 2 == 1 then 1 else 0) + 2 * BitAnd(a / 2, b / 2)
  }

  lemma {:induction false} AndBits(a: nat, b: nat, k: nat)
    ensures TestBit(BitAnd(a, b), k) <==> TestBit(a, k) && TestBit(b, k)
    decreases k
  {
    if a == 0 || b == 0 {
      ZeroHasNoBits(k);
    } else if k > 0 {
      assert BitAnd(a, b) / 2 == BitAnd(a / 2, b / 2);
      AndBits(a / 2, b / 2, k - 1);
    }
  }

  /** Programming clears the bits that are clear in the data and cannot set any. */
  function Programmed(cell: byte, value: byte): byte { BitAnd(cell, value) }

  function AndWrite(m: seq<byte>, at: nat, data: seq<byte>): (r: seq<byte>)
    requires at + |data| <= |m|
    ensures |r| == |m|
  {
    seq(|m|, i requires 0 <= i < |m| => if at <= i < at + |data| then Programmed(m[i], data[i - at]) else m[i])
  }

  lemma {:induction false} BitAndOnes(n: nat, v: nat)
    requires v < PowerOfTwo(n)
    ensures BitAnd(PowerOfTwo(n) - 1, v) == v
  {
    if n > 0 && v > 0 {
      BitAndOnes(n - 1, v / 2);
      var ones := PowerOfTwo(n) - 1;
      assert ones % 2 == 1 && ones / 2 == PowerOfTwo(n - 1) - 1;
    }
  }

  lemma ProgrammedBlank(value: byte)
    ensures Programmed(BLANK, value) == value
  {
    assert PowerOfTwo(8) == 0x100;
    BitAndOnes(8, value);
  }

  /** Over blank cells programming stores the data itself. */
  lemma AndWriteBlank(m: seq<byte>, at: nat, data: seq<byte>)
    requires at + |data| <= |m| && IsBlank(m, at, |data|)
    ensures AndWrite(m, at, data) == Splice(m, at, data)
  {
    forall i | at <= i < at + |data| ensures Programmed(m[i], data[i - at]) == data[i - at] {
      ProgrammedBlank(data[i - at]);
    }
  }

  // ---------------------------------------------------------------- a page program

  /** Where byte `i` of a page program lands: it never leaves the page. */
  function Target(address: nat, i: nat): (t: nat)
    requires address < CAPACITY
    ensures t < CAPACITY && t / PAGE_SIZE == address / PAGE_SIZE
  {
    address / PAGE_SIZE * PAGE_SIZE + (address % PAGE_SIZE + i) % PAGE_SIZE
  }

  /** The bytes programmed one after the other, wrapping inside the page. */
  function PageWrite(m: seq<byte>, address: nat, data: seq<byte>): (r: seq<byte>)
    requires |m| == CAPACITY && address < CAPACITY
    ensures |r| == CAPACITY
  {
    if data == [] then m
    else
      var n := |data| - 1;
      var w, t := PageWrite(m, address, data[..n]), Target(address, n);
      w[t := Programmed(w[t], data[n])]
  }

  lemma NextByte(m: seq<byte>, address: nat, data: seq<byte>, value: byte)
    requires |m| == CAPACITY && address < CAPACITY
    ensures var w, t := PageWrite(m, address, data), Target(address, |data|);
      PageWrite(m, address, data + [value]) == w[t := Programmed(w[t], value)]
  {
    assert (data + [value])[..|data|] == data;
  }

  lemma TargetsDiffer(address: nat, n: nat)
    requires address < CAPACITY && n < PAGE_SIZE
    ensures forall i :: 0 <= i < n ==> Target(address, i) != Target(address, n)
  {
  }

  /** What a page program of at most a page does: each byte programmed once, at its wrapped place. */
  ghost predicate Wrapped(m: seq<byte>, address: nat, data: seq<byte>, r: seq<byte>) {
    && |m| == |r| == CAPACITY && address < CAPACITY
    && (forall i :: 0 <= i < |data| ==> r[Target(address, i)] == Programmed(m[Target(address, i)], data[i]))
    && forall x :: 0 <= x < CAPACITY && (forall i :: 0 <= i < |data| ==> x != Target(address, i)) ==> r[x] == m[x]
  }

  lemma WrappedStep(m: seq<byte>, address: nat, data: seq<byte>, w: seq<byte>, value: byte)
    requires Wrapped(m, address, data, w) && |data| < PAGE_SIZE
    ensures var t := Target(address, |data|); Wrapped(m, address, data + [value], w[t := Programmed(w[t], value)])
  {
    TargetsDiffer(address, |data|);
  }

  /** Up to a page of data, each byte is programmed once, at its wrapped place, and nothing else changes. */
  lemma {:induction false} PageWriteWraps(m: seq<byte>, address: nat, data: seq<byte>)
    requires |m| == CAPACITY && address < CAPACITY && |data| <= PAGE_SIZE
    ensures Wrapped(m, address, data, PageWrite(m, address, data))
  {
    if data != [] {
      var n := |data| - 1;
      PageWriteWraps(m, address, data[..n]);
      WrappedStep(m, address, data[..n], PageWrite(m, address, data[..n]), data[n]);
      assert data == data[..n] + [data[n]];
    }
  }

  /** Without a wrap, a page program stores at consecutive addresses. */
  lemma PageWriteInside(m: seq<byte>, address: nat, data: seq<byte>)
    requires |m| == CAPACITY && address < CAPACITY && address % PAGE_SIZE + |data| <= PAGE_SIZE
    ensures address + |data| <= CAPACITY && Stored(m, PageWrite(m, address, data), address, data, |data|)
  {
    PageWriteWraps(m, address, data);
    assert forall i :: 0 <= i < |data| ==> Target(address, i) == address + i;
    var r := PageWrite(m, address, data);
    forall k | 0 <= k < CAPACITY
      ensures r[k] == if address <= k < address + |data| then Programmed(m[k], data[k - address]) else m[k]
    {
      if address <= k < address + |data| {
        assert Target(address, k - address) == k;
      }
    }
  }

  // ---------------------------------------------------------------- the chip

  class NorChip {
    const mem: array<byte>
    const jedec: seq<byte>
    var activity: Activity
    /** How many more polls will answer busy: chosen by the chip when an operation starts. */
    var patience: nat
    ghost var erases: seq<Piece>
    ghost var programs: seq<Piece>

    ghost predicate Valid()
      reads this
    {
      && mem.Length == CAPACITY
      && |jedec| == 3
      && (activity.Erasing? ==> activity.piece.start + activity.piece.size <= CAPACITY)
    }

    ghost predicate Quiet()
      reads this
    {
      Valid() && activity.Ready?
    }

    /** A chip that holds `contents` and is not busy. */
    constructor (contents: seq<byte>, id: seq<byte>)
      requires |contents| == CAPACITY && |id| == 3
      ensures Quiet() && fresh(mem) && mem[..] == contents && jedec == id && erases == [] && programs == []
    {
      mem := new byte[CAPACITY](i requires 0 <= i < CAPACITY => contents[i]);
      jedec, activity, patience, erases, programs := id, Ready, 0, [], [];
      new;
      assert mem[..] == contents;
    }

    /** 0x20 and 0xD8: starts erasing; the range is undefined until the chip is ready again. */
    method Erase(start: nat, size: nat)
      requires Quiet()
      requires (size == SECTOR_SIZE && start % SECTOR_SIZE == 0) || (size == BLOCK_SIZE && start % BLOCK_SIZE == 0)
      requires start + size <= CAPACITY
      modifies this, mem
      ensures Valid() && activity == Erasing(Piece(start, size))
      ensures AgreeOutside(old(mem[..]), mem[..], start, size)
      ensures erases == old(erases) + [Piece(start, size)] && programs == old(programs)
    {
      for i := start to start + size
        modifies mem
        invariant AgreeOutside(old(mem[..]), mem[..], start, size)
      {
        var garbage: byte := *;
        mem[i] := garbage;
      }
      activity := Erasing(Piece(start, size));
      patience := *;
      erases := erases + [Piece(start, size)];
    }

    /** `flash_is_busy`: the answer is the chip's; once it is "no", the operation has taken effect. */
    method IsBusy() returns (busy: bool)
      requires Valid()
      modifies this, mem
      ensures Valid() && erases == old(erases) && programs == old(programs)
      ensures busy <==> !old(activity).Ready? && old(patience) > 0
      ensures busy ==> activity == old(activity) && mem[..] == old(mem[..]) && patience == old(patience) - 1
      ensures !busy ==> activity.Ready?
      ensures !busy ==> mem[..] == if old(activity).Erasing?
                                   then Erased(old(mem[..]), old(activity).piece.start, old(activity).piece.size)
                                   else old(mem[..])
    {
      if !activity.Ready? && patience > 0 {
        patience := patience - 1;
        return true;
      }
      if activity.Erasing? {
        var start, size := activity.piece.start, activity.piece.size;
        for i := start to start + size
          modifies mem
          invariant forall k :: 0 <= k < CAPACITY ==> mem[k] == if start <= k < i then BLANK else old(mem[k])
        {
          mem[i] := BLANK;
        }
        assert mem[..] == Erased(old(mem[..]), start, size);
      }
      activity := Ready;
      busy := false;
    }

    /** 0x32: byte `i` lands at the page offset `(address + i) mod 256`. */
    method Program(address: nat, data: array<byte>, offset: nat, length: nat)
      requires Quiet() && address < CAPACITY
      requires offset + length <= data.Length && data != mem
      modifies this, mem
      ensures Valid() && activity == Programming
      ensures mem[..] == PageWrite(old(mem[..]), address, data[offset..offset + length])
      ensures erases == old(erases) && programs == old(programs) + [Piece(address, length)]
    {
      ghost var before := mem[..];
      for i := 0 to length
        modifies mem
        invariant mem[..] == PageWrite(before, address, data[offset..offset + i])
      {
        ghost var m, done := mem[..], data[offset..offset + i];
        var target := Target(address, i);
        var value := Programmed(mem[target], data[offset + i]);
        mem[target] := value;
        assert mem[..] == m[target := value];
        NextByte(before, address, done, data[offset + i]);
        assert data[offset..offset + i + 1] == done + [data[offset + i]];
      }
      activity := Programming;
      patience := *;
      programs := programs + [Piece(address, length)];
    }

    /** One 0xEB burst. */
    method Read(address: nat, data: array<byte>, offset: nat, length: nat)
      requires Quiet() && address + length <= CAPACITY
      requires offset + length <= data.Length && data != mem
      modifies data
      ensures forall k :: 0 <= k < data.Length ==>
                data[k] == if offset <= k < offset + length then mem[address + k - offset] else old(data[k])
    {
      for i := 0 to length
        invariant forall k :: 0 <= k < data.Length ==>
          data[k] == if offset <= k < offset + i then mem[address + k - offset] else old(data[k])
      {
        data[offset + i] := mem[address + i];
      }
    }

    // -------------------------------------------------------------- the stub's driver

    method WaitReady()
      requires Valid()
      modifies this, mem
      ensures Quiet() && erases == old(erases) && programs == old(programs)
      ensures mem[..] == if old(activity).Erasing?
                         then Erased(old(mem[..]), old(activity).piece.start, old(activity).piece.size)
                         else old(mem[..])
    {
      var busy := IsBusy();
      while busy
        invariant Valid() && erases == old(erases) && programs == old(programs)
        invariant busy ==> activity == old(activity) && mem[..] == old(mem[..])
        invariant !busy ==> activity.Ready?
        invariant !busy ==> mem[..] == if old(activity).Erasing?
                                       then Erased(old(mem[..]), old(activity).piece.start, old(activity).piece.size)
                                       else old(mem[..])
        decreases busy, patience
      {
        busy := IsBusy();
      }
    }

    /** `flash_read_jedec_id`: a chip at work ignores the command, so whatever is on the line is read. */
    method ReadJedec(data: array<byte>, offset: nat)
      requires Valid() && offset + 3 <= data.Length && data != mem
      modifies data
      ensures activity.Ready? ==> data[offset..offset + 3] == jedec
    {
      if activity.Ready? {
        data[offset], data[offset + 1], data[offset + 2] := jedec[0], jedec[1], jedec[2];
      } else {
        data[offset], data[offset + 1], data[offset + 2] := *, *, *;
      }
    }

    /** `flash_quad_page_program`: program, then wait. */
    method PageProgram(address: u32, data: array<byte>, offset: nat, length: nat)
      requires Quiet() && address < CAPACITY && address % PAGE_SIZE + length <= PAGE_SIZE
      requires offset + length <= data.Length && data != mem
      modifies this, mem
      ensures Quiet() && erases == old(erases)
      ensures Stored(old(mem[..]), mem[..], address, data[offset..offset + length], length)
      ensures programs == old(programs) + [Piece(address, length)]
    {
      PageWriteInside(mem[..], address, data[offset..offset + length]);
      Program(address, data, offset, length);
      WaitReady();
    }

    /** `flash_write_data`: one program for each page, never across a page end. */
    method WriteData(address: u32, data: array<byte>, offset: nat, length: u32)
      requires Quiet() && address + length <= CAPACITY
      requires offset + length <= data.Length && data != mem
      modifies this, mem
      ensures Quiet() && erases == old(erases)
      ensures mem[..] == AndWrite(old(mem[..]), address, data[offset..offset + length])
      ensures programs == old(programs) + PageSplit(address, length)
    {
      var addr, buf, left := address, offset, length;
      while left > 0
        invariant Quiet() && erases == old(erases)
        invariant addr - address == buf - offset == length - left
        invariant 0 <= left <= length
        invariant Stored(old(mem[..]), mem[..], address, data[offset..offset + length], length - left)
        invariant programs + PageSplit(addr, left) == old(programs) + PageSplit(address, length)
      {
        var pageRemain := PAGE_SIZE - addr % PAGE_SIZE;
        var writeLen := if left < pageRemain then left else pageRemain;
        NextPage(programs, addr, left, writeLen);
        left := left - writeLen;
        PageProgram(addr, data, buf, writeLen);
        addr := addr + writeLen;
        buf := buf + writeLen;
      }
      assert mem[..] == AndWrite(old(mem[..]), address, data[offset..offset + length]);
    }

    /** `flash_read_data` in the quad I/O mode: bursts of at most 32 bytes. */
    method ReadData(address: u32, data: array<byte>, offset: nat, length: u32)
      requires Quiet() && address + length <= CAPACITY
      requires offset + length <= data.Length && data != mem
      modifies data
      ensures data[..] == Splice(old(data[..]), offset, mem[address..address + length])
    {
      var addr, buf, left := address, offset, length;
      while left > 0
        invariant addr - address == buf - offset == length - left
        invariant 0 <= left <= length
        invariant forall k :: 0 <= k < data.Length ==>
          data[k] == if offset <= k < buf then mem[address + k - offset] else old(data[k])
      {
        var readLen := if left > 32 then 32 else left;
        Read(addr, data, buf, readLen);
        addr := addr + readLen;
        buf := buf + readLen;
        left := left - readLen;
      }
      assert data[..] == Splice(old(data[..]), offset, mem[address..address + length]);
    }
  }

  /** The first `done` bytes of `data` have been programmed at `at`. */
  ghost predicate Stored(before: seq<byte>, after: seq<byte>, at: nat, data: seq<byte>, done: nat)
    requires at + |data| <= |before| && done <= |data|
  {
    && |after| == |before|
    && forall k :: 0 <= k < |after| ==>
         after[k] == if at <= k < at + done then Programmed(before[k], data[k - at]) else before[k]
  }

  // ---------------------------------------------------------------- the page programs issued

  function PageSplit(address: nat, length: nat): (pieces: seq<Piece>)
    decreases length
  {
    if length == 0 then []
    else
      var room := PAGE_SIZE - address % PAGE_SIZE;
      var n := if length < room then length else room;
      [Piece(address, n)] + PageSplit(address + n, length - n)
  }

  lemma NextPage(log: seq<Piece>, address: nat, length: nat, n: nat)
    requires length > 0 && n == if length < PAGE_SIZE - address % PAGE_SIZE then length else PAGE_SIZE - address % PAGE_SIZE
    ensures log + [Piece(address, n)] + PageSplit(address + n, length - n) == log + PageSplit(address, length)
    ensures address % PAGE_SIZE + n <= PAGE_SIZE
  {
    var rest := PageSplit(address + n, length - n);
    assert PageSplit(address, length) == [Piece(address, n)] + rest;
    assert log + ([Piece(address, n)] + rest) == log + [Piece(address, n)] + rest;
  }

  /** The pieces follow one another from `start` to `end`. */
  ghost predicate Tiles(pieces: seq<Piece>, start: nat, end: nat) {
    if pieces == [] then start == end
    else pieces[0].start == start && pieces[0].size > 0 && Tiles(pieces[1..], start + pieces[0].size, end)
  }

  /** Exactly one program for each page that the range touches, none of them crossing a page end. */
  lemma {:induction false} OneProgramPerPage(address: nat, length: nat)
    ensures Tiles(PageSplit(address, length), address, address + length)
    ensures length > 0 ==> |PageSplit(address, length)| == (address % PAGE_SIZE + length + PAGE_SIZE - 1) / PAGE_SIZE
    ensures forall p :: p in PageSplit(address, length) ==> p.start % PAGE_SIZE + p.size <= PAGE_SIZE
    decreases length
  {
    if length > 0 {
      var room := PAGE_SIZE - address % PAGE_SIZE;
      var n := if length < room then length else room;
      OneProgramPerPage(address + n, length - n);
      assert PageSplit(address, length)[1..] == PageSplit(address + n, length - n);
      PagesTouched(address, length, room);
    }
  }

  /** A first piece that ends its page leaves one page less. */
  lemma PagesTouched(address: nat, length: nat, room: nat)
    requires room == PAGE_SIZE - address % PAGE_SIZE
    ensures (address + room) % PAGE_SIZE == 0
    ensures 0 < length <= room ==> (address % PAGE_SIZE + length + PAGE_SIZE - 1) / PAGE_SIZE == 1
    ensures length > room ==>
      (address % PAGE_SIZE + length + PAGE_SIZE - 1) / PAGE_SIZE == 1 + (length - room + PAGE_SIZE - 1) / PAGE_SIZE
  {
    var k := address / PAGE_SIZE;
    assert address + room == PAGE_SIZE * (k + 1);
  }
}
