/** The progress tracking behind the stub's screen (the drawing itself is left out). */
module Ui {
  import opened Bytes
  import opened NorFlash

  /** Header plus SHA-256 around the raw image. */
  const IMAGE_OVERHEAD: nat := 37

  const TRACKED_BLOCKS: nat := CAPACITY / SECTOR_SIZE

  predicate PlausibleHeader(data: seq<byte>) {
    |data| >= 5 && 0 < FromLe32(data[1..5]) <= CAPACITY - IMAGE_OVERHEAD
  }

  /** `ui_validate_write`: only the first write to address 0 must carry an image header. */
  predicate AcceptsWrite(wireSize: nat, address: nat, data: seq<byte>) {
    address != 0 || wireSize != 0 || PlausibleHeader(data)
  }

  function TrackedSize(wireSize: nat, address: nat, data: seq<byte>): nat {
    if address == 0 && wireSize == 0 && PlausibleHeader(data) then FromLe32(data[1..5]) + IMAGE_OVERHEAD else wireSize
  }

  class Tracker {
    var wireSize: u32
    var contiguous: u32
    var percent: byte
    var mainComplete: bool
    const written: array<u32>

    constructor ()
      ensures Valid() && wireSize == 0 && contiguous == 0 && !mainComplete && fresh(written)
      ensures forall b :: 0 <= b < TRACKED_BLOCKS ==> written[b] == 0
    {
      wireSize, contiguous, percent, mainComplete := 0, 0, 0, false;
      written := new u32[TRACKED_BLOCKS](i => 0);
    }

    /** Every block before the frontier is full. */
    ghost predicate Tracked()
      reads this, written
    {
      && written.Length == TRACKED_BLOCKS
      && contiguous <= CAPACITY
      && (forall b :: 0 <= b < TRACKED_BLOCKS ==> written[b] <= SECTOR_SIZE)
      && (forall b :: 0 <= b < contiguous / SECTOR_SIZE ==> written[b] == SECTOR_SIZE)
      && (contiguous % SECTOR_SIZE != 0 ==> written[contiguous / SECTOR_SIZE] > 0)
    }

    /** The frontier stands at an unwritten block, or inside one that was short when it was counted. */
    ghost predicate Valid()
      reads this, written
    {
      Tracked() && (contiguous % SECTOR_SIZE == 0 && contiguous < CAPACITY ==> written[contiguous / SECTOR_SIZE] == 0)
    }

    /** The frontier counts just what was written of the block it stands in. */
    ghost predicate StopsShort()
      reads this, written
    {
      && Tracked()
      && (contiguous < CAPACITY ==> written[contiguous / SECTOR_SIZE] == contiguous % SECTOR_SIZE)
    }

    /** The state a host that always writes whole sectors keeps the tracker in. */
    ghost predicate FullBlocks()
      requires written.Length == TRACKED_BLOCKS
      reads this, written
    {
      contiguous % SECTOR_SIZE == 0 && forall b :: 0 <= b < TRACKED_BLOCKS ==> written[b] == 0 || written[b] == SECTOR_SIZE
    }

    method ValidateWrite(address: u32, data: array<byte>, offset: nat, length: u32) returns (ok: bool)
      requires offset + length <= data.Length
      ensures ok == AcceptsWrite(wireSize, address, data[offset..offset + length])
    {
      if address != 0 || wireSize != 0 {
        return true;
      }
      if length < 5 {
        return false;
      }
      SliceSlice(data[..], offset, offset + length, 1, 5);
      var raw := FromLe32(data[offset + 1..offset + 5]);
      return raw > 0 && raw <= CAPACITY - IMAGE_OVERHEAD;
    }

    /** `ui_write_complete`. */
    method WriteComplete(address: u32, data: array<byte>, offset: nat, length: u32)
      requires Valid() && offset + length <= data.Length
      requires 0 < length <= SECTOR_SIZE && address % SECTOR_SIZE == 0 && address + length <= CAPACITY
      modifies this, written
      ensures Valid()
      ensures wireSize == TrackedSize(old(wireSize), address, old(data[offset..offset + length]))
      ensures forall b :: 0 <= b < TRACKED_BLOCKS ==>
                written[b] == if b == address / SECTOR_SIZE && length > old(written[b]) then length else old(written[b])
      ensures contiguous >= old(contiguous)
      ensures old(FullBlocks()) && length == SECTOR_SIZE ==> FullBlocks()
      ensures old(contiguous) % SECTOR_SIZE != 0 ==> contiguous == old(contiguous)
      ensures old(contiguous) % SECTOR_SIZE == 0 ==> StopsShort()
      ensures mainComplete == (old(mainComplete) || (wireSize != 0 && contiguous >= wireSize))
      ensures wireSize != 0 ==> percent == if contiguous >= wireSize then 100 else contiguous * 100 / wireSize
    {
      TrackHeader(address, data, offset, length);
      var block := address / SECTOR_SIZE;
      if block < TRACKED_BLOCKS && length > written[block] {
        written[block] := length;
      }
      Advance();
      UpdatePercent();
    }

    method TrackHeader(address: u32, data: array<byte>, offset: nat, length: u32)
      requires offset + length <= data.Length
      modifies this`wireSize
      ensures wireSize == TrackedSize(old(wireSize), address, data[offset..offset + length])
    {
      if address == 0 && length >= 5 && wireSize == 0 {
        SliceSlice(data[..], offset, offset + length, 1, 5);
        var raw := FromLe32(data[offset + 1..offset + 5]);
        if raw > 0 && raw <= CAPACITY - IMAGE_OVERHEAD {
          wireSize := raw + IMAGE_OVERHEAD;
        }
      }
    }

    method UpdatePercent()
      modifies this`percent, this`mainComplete
      ensures mainComplete == (old(mainComplete) || (wireSize != 0 && contiguous >= wireSize))
      ensures wireSize != 0 ==> percent == if contiguous >= wireSize then 100 else contiguous * 100 / wireSize
    {
      if wireSize != 0 && contiguous >= wireSize {
        percent := 100;
        mainComplete := true;
      } else if wireSize != 0 {
        PercentFits(contiguous, wireSize);
        percent := contiguous * 100 / wireSize;
      }
    }

    /** The loop of `ui_write_complete`. */
    method Advance()
      requires Tracked()
      modifies this`contiguous
      ensures Valid() && contiguous >= old(contiguous)
      ensures old(FullBlocks()) ==> FullBlocks()
      ensures old(contiguous) % SECTOR_SIZE != 0 ==> contiguous == old(contiguous)
      ensures old(contiguous) % SECTOR_SIZE == 0 ==> StopsShort()
    {
      while contiguous % SECTOR_SIZE == 0
        invariant Tracked() && contiguous >= old(contiguous)
        invariant old(FullBlocks()) ==> FullBlocks()
        invariant old(contiguous) % SECTOR_SIZE != 0 ==> contiguous == old(contiguous)
        invariant old(contiguous) % SECTOR_SIZE == 0 ==> contiguous % SECTOR_SIZE == 0
        decreases CAPACITY - contiguous
      {
        var block := contiguous / SECTOR_SIZE;
        if block >= TRACKED_BLOCKS || written[block] == 0 {
          break;
        }
        contiguous := contiguous + written[block];
        if written[block] < SECTOR_SIZE {
          break;
        }
      }
    }

    /** With full blocks only, the frontier is the least unwritten block, whatever the write order. */
    lemma FrontierOfFullBlocks(b: nat)
      requires Valid() && b < TRACKED_BLOCKS && FullBlocks()
      ensures contiguous == SECTOR_SIZE * b <==> written[b] == 0 && forall k :: 0 <= k < b ==> written[k] != 0
    {
      var f := contiguous / SECTOR_SIZE;
      if f < b {
        assert written[f] == 0;
      }
    }
  }

  lemma PercentFits(done: nat, total: nat)
    requires done < total
    ensures done * 100 / total < 100
  {
    assert done * 100 < 100 * total;
  }
}
