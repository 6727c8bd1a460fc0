/** Bytes, 32-bit words, little-endian fields and the result types shared by every component. */
module Bytes {

  type byte = x: int | 0 <= x < 0x100

  type u32 = x: int | 0 <= x < 0x1_0000_0000

  datatype Option<+T> = None | Some(value: T)

  datatype Result<+T, +E> = Ok(value: T) | Err(error: E)

  function ZeroBytes(n: nat): (s: seq<byte>)
    ensures |s| == n
  {
    seq(n, i => 0)
  }

  // ---------------------------------------------------------------- little-endian fields

  /** The four bytes of a 32-bit word, least significant first (`struct.pack("<I")`). */
  function Le32(n: u32): (s: seq<byte>)
    ensures |s| == 4
  {
    [n % 0x100, n / 0x100 % 0x100, n / 0x1_0000 % 0x100, n / 0x100_0000]
  }

  /** Reads a little-endian 32-bit field (`struct.unpack("<I")`, or a packed C struct member). */
  function FromLe32(s: seq<byte>): (n: u32)
    requires |s| == 4
  {
    var b0: int, b1: int, b2: int, b3: int := s[0], s[1], s[2], s[3];
    b0 + 0x100 * b1 + 0x1_0000 * b2 + 0x100_0000 * b3
  }

  lemma Le32RoundTrip(n: u32)
    ensures FromLe32(Le32(n)) == n
  {
    assert n / 0x1_0000 == n / 0x100 / 0x100 && n / 0x100_0000 == n / 0x1_0000 / 0x100;
  }

  lemma Le32Digits(n: u32, b0: byte, b1: byte, b2: byte, b3: byte)
    requires Le32(n) == [b0, b1, b2, b3]
    ensures var l0: int, l1: int, l2: int, l3: int := b0, b1, b2, b3; l0 + 0x100 * l1 + 0x1_0000 * l2 + 0x100_0000 * l3 == n
  {
    Le32RoundTrip(n);
  }

  lemma FromLe32RoundTrip(s: seq<byte>)
    requires |s| == 4
    ensures Le32(FromLe32(s)) == s
  {
    var b0: int, b1: int, b2: int, b3: int := s[0], s[1], s[2], s[3];
    var n, high, top := FromLe32(s), b1 + 0x100 * (b2 + 0x100 * b3), b2 + 0x100 * b3;
    LowByte(b0, high);
    LowByte(b1, top);
    LowByte(b2, b3);
    assert n == b0 + 0x100 * high;
    assert n / 0x1_0000 == n / 0x100 / 0x100 && n / 0x100_0000 == n / 0x1_0000 / 0x100;
  }

  lemma LowByte(low: byte, rest: nat)
    ensures (low + 0x100 * rest) % 0x100 == low && (low + 0x100 * rest) / 0x100 == rest
  {
  }

  type u16 = x: int | 0 <= x < 0x1_0000

  function Le16(n: u16): (s: seq<byte>)
    ensures |s| == 2
  {
    [n % 0x100, n / 0x100]
  }

  function FromLe16(s: seq<byte>): (n: u16)
    requires |s| == 2
  {
    var b0: int, b1: int := s[0], s[1];
    b0 + 0x100 * b1
  }

  lemma SliceSlice<T>(s: seq<T>, lo: nat, hi: nat, i: nat, j: nat)
    requires lo <= hi <= |s| && i <= j <= hi - lo
    ensures s[lo..hi][i..j] == s[lo + i..lo + j]
  {
    var t, u := s[lo..hi][i..j], s[lo + i..lo + j];
    forall k | 0 <= k < j - i ensures t[k] == u[k] {
      assert t[k] == s[lo..hi][i + k];
    }
  }

  /** The number that bytes stand for, the first being the least significant. */
  function LittleEndian(s: seq<byte>): nat {
    if s == [] then 0 else s[0] + 0x100 * LittleEndian(s[1..])
  }

  lemma FourByteField(s: seq<byte>)
    requires |s| == 4
    ensures FromLe32(s) == LittleEndian(s)
  {
    assert s[1..][1..] == s[2..] && s[2..][1..] == s[3..] && s[3..][1..] == [];
    assert LittleEndian(s[3..]) == s[3];
    assert LittleEndian(s[1..]) == s[1] + 0x100 * LittleEndian(s[2..]);
  }

  lemma TwoByteField(s: seq<byte>)
    requires |s| == 2
    ensures FromLe16(s) == LittleEndian(s)
  {
    assert s[1..][1..] == [];
    assert LittleEndian(s[1..]) == s[1];
  }

  lemma Associative<T>(x: seq<T>, y: seq<T>, z: seq<T>)
    ensures x + (y + z) == x + y + z
  {
  }

  // ---------------------------------------------------------------- bytes as bits

  function Bit(b: bool): int { if b then 1 else 0 }

  /** The lowest `n` bits of a number, least significant first. */
  function LowBits(b: nat, n: nat): (s: seq<bool>)
    ensures |s| == n
  {
    if n == 0 then [] else [b % 2 == 1] + LowBits(b / 2, n - 1)
  }

  predicate TestBit(b: nat, k: nat) {
    if k == 0 then b % 2 == 1 else TestBit(b / 2, k - 1)
  }

  lemma {:induction false} ZeroHasNoBits(k: nat)
    ensures !TestBit(0, k)
  {
    if k > 0 {
      ZeroHasNoBits(k - 1);
    }
  }

  lemma {:induction false} LowBitsAt(b: nat, n: nat, k: nat)
    requires k < n
    ensures LowBits(b, n)[k] == TestBit(b, k)
  {
    if k > 0 {
      LowBitsAt(b / 2, n - 1, k - 1);
    }
  }

  function Value(s: seq<bool>): nat {
    if s == [] then 0 else Bit(s[0]) + 2 * Value(s[1..])
  }

  function PowerOfTwo(n: nat): (p: nat)
    ensures p > 0
  {
    if n == 0 then 1 else 2 * PowerOfTwo(n - 1)
  }

  lemma {:induction false} PowersMultiply(a: nat, b: nat)
    ensures PowerOfTwo(a + b) == PowerOfTwo(a) * PowerOfTwo(b)
  {
    if a > 0 {
      PowersMultiply(a - 1, b);
    }
  }

  lemma {:induction false} ValueOfLowBits(b: nat, n: nat)
    requires b < PowerOfTwo(n)
    ensures Value(LowBits(b, n)) == b
  {
    if n > 0 {
      ValueOfLowBits(b / 2, n - 1);
      assert LowBits(b, n)[1..] == LowBits(b / 2, n - 1);
    }
  }

  lemma {:induction false} LowBitsOfValue(s: seq<bool>)
    ensures LowBits(Value(s), |s|) == s
    ensures Value(s) < PowerOfTwo(|s|)
  {
    if s != [] {
      LowBitsOfValue(s[1..]);
      assert Value(s) / 2 == Value(s[1..]);
      assert s == [s[0]] + s[1..];
    }
  }

  /** The eight bits of a byte, least significant first. */
  function BitsOf(b: byte): (s: seq<bool>)
    ensures |s| == 8
  {
    LowBits(b, 8)
  }

  function ByteOf(s: seq<bool>): byte
    requires |s| == 8
  {
    LowBitsOfValue(s);
    assert PowerOfTwo(8) == 0x100;
    Value(s)
  }

  lemma BitsRoundTrip(b: byte)
    ensures ByteOf(BitsOf(b)) == b
  {
    ValueOfLowBits(b, 8);
  }

  lemma ByteRoundTrip(s: seq<bool>)
    requires |s| == 8
    ensures BitsOf(ByteOf(s)) == s
  {
    LowBitsOfValue(s);
  }
}
