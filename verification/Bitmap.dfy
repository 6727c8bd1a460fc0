/**
 * The stub's `erased_sector_bitmap`: one bit for each sector believed to be blank, and what it
 * means for that belief to agree with the chip.
 */
module Bitmap {
  import opened Bytes
  import opened NorFlash

  const SECTOR_COUNT: nat := CAPACITY / SECTOR_SIZE
  const BITMAP_SIZE: nat := (SECTOR_COUNT + 7) / 8

  // ---------------------------------------------------------------- bits of a bitmap byte

  function SetBit(b: nat, k: nat): nat {
    if k == 0 then b - b % 2 + 1 else b % 2 + 2 * SetBit(b / 2, k - 1)
  }

  function ClearBit(b: nat, k: nat): nat {
    if k == 0 then b - b % 2 else b % 2 + 2 * ClearBit(b / 2, k - 1)
  }

  lemma {:induction false} BitUpdates(b: nat, k: nat, j: nat)
    ensures TestBit(SetBit(b, k), j) <==> j == k || TestBit(b, j)
    ensures TestBit(ClearBit(b, k), j) <==> j != k && TestBit(b, j)
  {
    if k > 0 {
      assert SetBit(b, k) / 2 == SetBit(b / 2, k - 1) && ClearBit(b, k) / 2 == ClearBit(b / 2, k - 1);
      if j > 0 {
        BitUpdates(b / 2, k - 1, j - 1);
      }
    } else if j > 0 {
      assert SetBit(b, 0) / 2 == b / 2 && ClearBit(b, 0) / 2 == b / 2;
    }
  }

  lemma {:induction false} BitUpdatesFit(b: nat, k: nat, n: nat)
    requires b < PowerOfTwo(n) && k < n
    ensures SetBit(b, k) < PowerOfTwo(n) && ClearBit(b, k) < PowerOfTwo(n)
  {
    if k > 0 {
      BitUpdatesFit(b / 2, k - 1, n - 1);
    }
  }

  function ByteWithBit(b: byte, k: nat): byte
    requires k < 8
  {
    assert PowerOfTwo(8) == 0x100;
    BitUpdatesFit(b, k, 8);
    SetBit(b, k)
  }

  function ByteWithoutBit(b: byte, k: nat): byte
    requires k < 8
  {
    assert PowerOfTwo(8) == 0x100;
    BitUpdatesFit(b, k, 8);
    ClearBit(b, k)
  }

  // ---------------------------------------------------------------- sectors

  predicate Marked(bits: seq<byte>, sector: nat)
    requires |bits| == BITMAP_SIZE && sector < SECTOR_COUNT
  {
    TestBit(bits[sector / 8], sector % 8)
  }

  /** `sector` is (un)marked in `after` and all other sectors are as in `before`. */
  ghost predicate Updated(before: seq<byte>, after: seq<byte>, first: nat, end: nat, mark: bool) {
    && |before| == |after| == BITMAP_SIZE
    && forall s :: 0 <= s < SECTOR_COUNT ==>
         (Marked(after, s) <==> if first <= s < end then mark else Marked(before, s))
  }

  /** The marked sectors. */
  ghost function Marks(bits: seq<byte>): set<nat> {
    set s: nat | s < SECTOR_COUNT && |bits| == BITMAP_SIZE && Marked(bits, s)
  }

  lemma MarksUpdated(before: seq<byte>, after: seq<byte>, first: nat, end: nat, mark: bool)
    requires Updated(before, after, first, end, mark) && end <= SECTOR_COUNT
    ensures Marks(after) == if mark then Marks(before) + Sectors(first, end) else Marks(before) - Sectors(first, end)
  {
  }

  method SetSector(bitmap: array<byte>, address: nat)
    requires bitmap.Length == BITMAP_SIZE && address < CAPACITY
    modifies bitmap
    ensures Updated(old(bitmap[..]), bitmap[..], address / SECTOR_SIZE, address / SECTOR_SIZE + 1, true)
  {
    var sector := address / SECTOR_SIZE;
    forall j: nat | j < 8
      ensures TestBit(ByteWithBit(bitmap[sector / 8], sector % 8), j) <==> j == sector % 8 || TestBit(bitmap[sector / 8], j)
    {
      BitUpdates(bitmap[sector / 8], sector % 8, j);
    }
    bitmap[sector / 8] := ByteWithBit(bitmap[sector / 8], sector % 8);
  }

  /** `sector_clear_pre_erased`. */
  method ClearSector(bitmap: array<byte>, address: nat)
    requires bitmap.Length == BITMAP_SIZE && address < CAPACITY
    modifies bitmap
    ensures Updated(old(bitmap[..]), bitmap[..], address / SECTOR_SIZE, address / SECTOR_SIZE + 1, false)
  {
    var sector := address / SECTOR_SIZE;
    forall j: nat | j < 8
      ensures TestBit(ByteWithoutBit(bitmap[sector / 8], sector % 8), j) <==> j != sector % 8 && TestBit(bitmap[sector / 8], j)
    {
      BitUpdates(bitmap[sector / 8], sector % 8, j);
    }
    bitmap[sector / 8] := ByteWithoutBit(bitmap[sector / 8], sector % 8);
  }

  /** `sectors_mark_pre_erased`: the unsigned countdown reaches zero because lengths are whole sectors. */
  method MarkSectors(bitmap: array<byte>, address: nat, length: nat)
    requires bitmap.Length == BITMAP_SIZE && address + length <= CAPACITY
    requires address % SECTOR_SIZE == length % SECTOR_SIZE == 0
    modifies bitmap
    ensures Updated(old(bitmap[..]), bitmap[..], address / SECTOR_SIZE, (address + length) / SECTOR_SIZE, true)
  {
    var at: u32, left: u32 := address, length;
    while left != 0
      invariant at + left == address + length && left % SECTOR_SIZE == 0 && left <= length
      invariant Updated(old(bitmap[..]), bitmap[..], address / SECTOR_SIZE, at / SECTOR_SIZE, true)
      decreases left
    {
      SetSector(bitmap, at);
      at := at + SECTOR_SIZE;
      left := left - SECTOR_SIZE;
    }
  }

  /** `sectors_clear_pre_erased`. */
  method ClearSectors(bitmap: array<byte>, address: nat, length: nat)
    requires bitmap.Length == BITMAP_SIZE && address + length <= CAPACITY
    requires address % SECTOR_SIZE == length % SECTOR_SIZE == 0
    modifies bitmap
    ensures Updated(old(bitmap[..]), bitmap[..], address / SECTOR_SIZE, (address + length) / SECTOR_SIZE, false)
  {
    var at: u32, left: u32 := address, length;
    while left != 0
      invariant at + left == address + length && left % SECTOR_SIZE == 0 && left <= length
      invariant Updated(old(bitmap[..]), bitmap[..], address / SECTOR_SIZE, at / SECTOR_SIZE, false)
      decreases left
    {
      ClearSector(bitmap, at);
      at := at + SECTOR_SIZE;
      left := left - SECTOR_SIZE;
    }
  }

  // ---------------------------------------------------------------- agreement with the chip

  /** Every marked sector is blank and lies outside `[from, to)`, the unfinished part of an erase. */
  ghost predicate Honest(bits: seq<byte>, m: seq<byte>, from: nat, to: nat)
    requires |bits| == BITMAP_SIZE && |m| == CAPACITY
  {
    forall s :: 0 <= s < SECTOR_COUNT && Marked(bits, s) ==>
      IsBlank(m, s * SECTOR_SIZE, SECTOR_SIZE) && !(from <= s * SECTOR_SIZE < to)
  }

  lemma HonestThroughout(bits: seq<byte>, m: seq<byte>, from: nat, to: nat)
    requires |bits| == BITMAP_SIZE && |m| == CAPACITY && Honest(bits, m, from, to)
    ensures Honest(bits, m, 0, 0)
  {
  }

  /** An erase range that is cleared from the bitmap may hold anything. */
  lemma HonestKick(bits: seq<byte>, bits': seq<byte>, m: seq<byte>, m': seq<byte>, at: nat, size: nat, to: nat)
    requires |bits| == BITMAP_SIZE && |m| == |m'| == CAPACITY && at + size <= to <= CAPACITY
    requires at % SECTOR_SIZE == to % SECTOR_SIZE == 0
    requires Honest(bits, m, 0, 0) && AgreeOutside(m, m', at, size)
    requires Updated(bits, bits', at / SECTOR_SIZE, to / SECTOR_SIZE, false)
    ensures Honest(bits', m', at, to)
  {
  }

  /** The next piece of a running erase. */
  lemma HonestAdvance(bits: seq<byte>, m: seq<byte>, m': seq<byte>, at: nat, size: nat, to: nat)
    requires |bits| == BITMAP_SIZE && |m| == |m'| == CAPACITY && at + size <= to <= CAPACITY
    requires at % SECTOR_SIZE == to % SECTOR_SIZE == 0
    requires Honest(bits, m, at, to) && AgreeOutside(m, m', at, size)
    ensures Honest(bits, m', at, to)
  {
  }

  /** A piece that has become blank may be marked. */
  lemma HonestMark(bits: seq<byte>, bits': seq<byte>, m: seq<byte>, at: nat, size: nat, to: nat)
    requires |bits| == BITMAP_SIZE && |m| == CAPACITY && at + size <= CAPACITY
    requires at % SECTOR_SIZE == size % SECTOR_SIZE == to % SECTOR_SIZE == 0
    requires Honest(bits, m, at, to)
    requires Updated(bits, bits', at / SECTOR_SIZE, (at + size) / SECTOR_SIZE, true)
    ensures Honest(bits', Erased(m, at, size), at + size, to)
  {
    var m' := Erased(m, at, size);
    forall s | 0 <= s < SECTOR_COUNT && Marked(bits', s)
      ensures IsBlank(m', s * SECTOR_SIZE, SECTOR_SIZE) && !(at + size <= s * SECTOR_SIZE < to)
    {
      forall i | s * SECTOR_SIZE <= i < s * SECTOR_SIZE + SECTOR_SIZE ensures m'[i] == BLANK {
        if !(at / SECTOR_SIZE <= s < (at + size) / SECTOR_SIZE) {
          assert Marked(bits, s) && m[i] == BLANK;
        }
      }
    }
  }

  /** Changing one sector, which is then either unmarked or still marked and blank. */
  lemma HonestWrite(bits: seq<byte>, bits': seq<byte>, m: seq<byte>, m': seq<byte>, address: nat, mark: bool)
    requires |bits| == BITMAP_SIZE && |m| == |m'| == CAPACITY
    requires address < CAPACITY && address % SECTOR_SIZE == 0
    requires Honest(bits, m, 0, 0) && AgreeOutside(m, m', address, SECTOR_SIZE)
    requires Updated(bits, bits', address / SECTOR_SIZE, address / SECTOR_SIZE + 1, mark)
    requires mark ==> IsBlank(m', address, SECTOR_SIZE)
    ensures Honest(bits', m', 0, 0)
  {
    forall s | 0 <= s < SECTOR_COUNT && Marked(bits', s)
      ensures IsBlank(m', s * SECTOR_SIZE, SECTOR_SIZE)
    {
      if s != address / SECTOR_SIZE {
        assert Marked(bits, s);
      }
    }
  }

  lemma BlankIsErased(m: seq<byte>, m': seq<byte>, address: nat)
    requires |m| == |m'| == CAPACITY && address + SECTOR_SIZE <= CAPACITY
    requires AgreeOutside(m, m', address, SECTOR_SIZE) && IsBlank(m', address, SECTOR_SIZE)
    ensures m' == Erased(m, address, SECTOR_SIZE)
  {
  }
}
