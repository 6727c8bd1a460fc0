/**
 * The CRC-32 of section 8 of RFC 1952: the stub's bitwise `isp_crc32`, which is also the
 * function Python's `binascii.crc32` computes for the two host tools and the HMPY codec.
 * A 32-bit word is its 32 bits, least significant first.
 *
 * The main result is burst detection: no change confined to four consecutive bytes of a
 * message, or of a message followed by its own checksum, goes unnoticed.
 */
module Crc32 {
  import opened Bytes

  type Word = s: seq<bool> | |s| == 32 witness Zeros(32)

  function Zeros(n: nat): (s: seq<bool>)
    ensures |s| == n && forall i :: 0 <= i < n ==> !s[i]
  {
    seq(n, i => false)
  }

  const ZERO: Word := Zeros(32)

  const ONES: Word := Not(ZERO)

  /** 0xEDB88320. */
  const POLYNOMIAL: Word :=
    [false, false, false, false, false, true, false, false,
     true, true, false, false, false, false, false, true,
     false, false, false, true, true, true, false, true,
     true, false, true, true, false, true, true, true]

  function Xor(a: Word, b: Word): Word { seq(32, i requires 0 <= i < 32 => a[i] != b[i]) }

  function And(a: Word, b: Word): Word { seq(32, i requires 0 <= i < 32 => a[i] && b[i]) }

  function Not(a: Word): Word { seq(32, i requires 0 <= i < 32 => !a[i]) }

  /** `a >> 1`. */
  function Shr1(a: Word): Word { a[1..] + [false] }

  /** `-(a & 1)`: the lowest bit copied everywhere. */
  function LowBitMask(a: Word): Word { if a[0] then ONES else ZERO }

  // ---------------------------------------------------------------- the checksum

  /** One bit of the shift register. */
  function Shift1(c: Word): Word { if c[0] then Xor(Shr1(c), POLYNOMIAL) else Shr1(c) }

  function Shift(c: Word, n: nat): Word {
    if n == 0 then c else Shift1(Shift(c, n - 1))
  }

  function Widen(b: byte): Word { BitsOf(b) + Zeros(24) }

  /** The register after one more message byte. */
  function Feed(r: Word, b: byte): Word { Shift(Xor(r, Widen(b)), 8) }

  function FeedAll(r: Word, m: seq<byte>): Word {
    if m == [] then r else Feed(FeedAll(r, m[..|m| - 1]), m[|m| - 1])
  }

  function Register(m: seq<byte>): Word { FeedAll(ONES, m) }

  function Checksum(m: seq<byte>): Word { Not(Register(m)) }

  /** A word as the four little-endian bytes that travel on every wire. */
  function WordBytes(c: Word): (s: seq<byte>)
    ensures |s| == 4
  {
    [ByteOf(c[..8]), ByteOf(c[8..16]), ByteOf(c[16..24]), ByteOf(c[24..])]
  }

  function Seal(m: seq<byte>): (s: seq<byte>)
    ensures |s| == 4
  {
    WordBytes(Checksum(m))
  }

  // ---------------------------------------------------------------- the stub's loop

  method IspCrc32(data: array<byte>, offset: nat, length: nat) returns (crc: Word)
    requires offset + length <= data.Length
    ensures crc == Checksum(data[offset..offset + length])
  {
    crc := ONES;
    for i := 0 to length
      invariant crc == Register(data[offset..offset + i])
    {
      ghost var start := Xor(crc, Widen(data[offset + i]));
      crc := Xor(crc, Widen(data[offset + i]));
      for bit := 0 to 8
        invariant crc == Shift(start, bit)
      {
        crc := Xor(Shr1(crc), And(POLYNOMIAL, LowBitMask(crc)));
      }
      assert data[offset..offset + i + 1][..i] == data[offset..offset + i];
    }
    crc := Not(crc);
  }

  // ---------------------------------------------------------------- the checksum is a remainder

  /** The exponents of the generator polynomial. */
  const GENERATOR: set<nat> := {32, 26, 23, 22, 16, 12, 11, 10, 8, 7, 5, 4, 2, 1, 0}

  /** The bits of a message in the order in which they travel: each byte starts with its lowest bit. */
  function Bits(m: seq<byte>): seq<bool> {
    if m == [] then [] else Bits(m[..|m| - 1]) + BitsOf(m[|m| - 1])
  }

  /**
   * A polynomial over the two-element field is its coefficients, highest degree first. This one is
   * the message times x^32, with the 32 coefficients of `first` added to its highest ones.
   */
  function Dividend(first: Word, message: seq<bool>): (p: seq<bool>)
    ensures |p| == |message| + 32
  {
    seq(|message| + 32, i requires 0 <= i < |message| + 32 => (i < 32 && first[i]) != (i < |message| && message[i]))
  }

  /** One step of a long division: the generator, moved to the highest degree, is subtracted if it goes in. */
  function DivisionStep(p: seq<bool>): (q: seq<bool>)
    requires |p| > 32
    ensures |q| == |p| - 1
  {
    seq(|p| - 1, i requires 0 <= i < |p| - 1 => p[i + 1] != (p[0] && i < 32 && 31 - i in GENERATOR))
  }

  /** The remainder of a division by the generator: the 32 coefficients that are left. */
  function Remainder(p: seq<bool>): Word
    requires |p| >= 32
    decreases |p|
  {
    if |p| == 32 then p else Remainder(DivisionStep(p))
  }

  /** The register after one more message bit. */
  function FeedBit(r: Word, b: bool): Word { Shift1(r[0 := r[0] != b]) }

  function FeedBits(r: Word, s: seq<bool>): Word
    decreases |s|
  {
    if s == [] then r else FeedBits(FeedBit(r, s[0]), s[1..])
  }

  lemma PolynomialIsGenerator(i: nat)
    requires i < 32
    ensures POLYNOMIAL[i] <==> 31 - i in GENERATOR
  {
  }

  lemma DivisionFeedsBit(r: Word, s: seq<bool>)
    requires s != []
    ensures DivisionStep(Dividend(r, s)) == Dividend(FeedBit(r, s[0]), s[1..])
  {
    var p, q := DivisionStep(Dividend(r, s)), Dividend(FeedBit(r, s[0]), s[1..]);
    forall i | 0 <= i < |p| ensures p[i] == q[i] {
      if i < 32 {
        PolynomialIsGenerator(i);
      }
    }
  }

  lemma {:induction false} RemainderFeedsBits(r: Word, s: seq<bool>)
    ensures Remainder(Dividend(r, s)) == FeedBits(r, s)
    decreases |s|
  {
    if s == [] {
      assert Dividend(r, s) == r;
    } else {
      DivisionFeedsBit(r, s);
      RemainderFeedsBits(FeedBit(r, s[0]), s[1..]);
    }
  }

  lemma {:induction false} FeedBitsConcat(r: Word, a: seq<bool>, b: seq<bool>)
    ensures FeedBits(r, a + b) == FeedBits(FeedBits(r, a), b)
    decreases |a|
  {
    if a == [] {
      assert a + b == b;
    } else {
      assert (a + b)[0] == a[0] && (a + b)[1..] == a[1..] + b;
      FeedBitsConcat(FeedBit(r, a[0]), a[1..], b);
    }
  }

  lemma {:induction false} ShiftFirst(c: Word, n: nat)
    requires n > 0
    ensures Shift(c, n) == Shift(Shift1(c), n - 1)
  {
    if n > 1 {
      ShiftFirst(c, n - 1);
    }
  }

  /** Bits fed one by one leave what adding all of them and then shifting leaves. */
  lemma {:induction false} BitsTogether(r: Word, s: seq<bool>)
    requires |s| <= 32
    ensures FeedBits(r, s) == Shift(Xor(r, s + Zeros(32 - |s|)), |s|)
    decreases |s|
  {
    if s == [] {
      assert Xor(r, s + Zeros(32)) == r;
    } else {
      var rest := s[1..];
      BitsTogether(FeedBit(r, s[0]), rest);
      var c := Xor(r, s + Zeros(32 - |s|));
      ShiftFirst(c, |s|);
      assert Shift1(c) == Xor(FeedBit(r, s[0]), rest + Zeros(32 - |rest|));
    }
  }

  lemma {:induction false} FeedAllBits(r: Word, m: seq<byte>)
    ensures FeedAll(r, m) == FeedBits(r, Bits(m))
  {
    if m != [] {
      var n := |m| - 1;
      FeedAllBits(r, m[..n]);
      FeedBitsConcat(r, Bits(m[..n]), BitsOf(m[n]));
      BitsTogether(FeedAll(r, m[..n]), BitsOf(m[n]));
    }
  }

  /**
   * The checksum is the complement of the remainder of the message polynomial, its 32 highest
   * coefficients complemented, modulo the generator.
   */
  lemma ChecksumIsRemainder(m: seq<byte>)
    ensures Checksum(m) == Not(Remainder(Dividend(ONES, Bits(m))))
  {
    FeedAllBits(ONES, m);
    RemainderFeedsBits(ONES, Bits(m));
  }

  // ---------------------------------------------------------------- the register is linear

  lemma XorExchange(a: Word, b: Word, c: Word, d: Word)
    ensures Xor(Xor(a, c), Xor(b, d)) == Xor(Xor(a, b), Xor(c, d))
  {
  }

  lemma XorZero(a: Word, b: Word)
    ensures Xor(a, b) == ZERO <==> a == b
  {
    if Xor(a, b) == ZERO {
      forall i | 0 <= i < 32 ensures a[i] == b[i] {
        assert !Xor(a, b)[i];
      }
    }
  }

  lemma Shift1Linear(a: Word, b: Word)
    ensures Xor(Shift1(a), Shift1(b)) == Shift1(Xor(a, b))
  {
  }

  lemma {:induction false} ShiftLinear(a: Word, b: Word, n: nat)
    ensures Xor(Shift(a, n), Shift(b, n)) == Shift(Xor(a, b), n)
  {
    if n > 0 {
      ShiftLinear(a, b, n - 1);
      Shift1Linear(Shift(a, n - 1), Shift(b, n - 1));
    }
  }

  /** Shifts whose result has its top bits clear fed back nothing: they can be undone exactly. */
  lemma {:induction false} ShiftUndone(z: Word, n: nat)
    requires n <= 32 && Shift(z, n)[32 - n..] == Zeros(n)
    ensures z == Zeros(n) + Shift(z, n)[..32 - n]
  {
    if n > 0 {
      var before, after := Shift(z, n - 1), Shift(z, n);
      assert after[31] == after[32 - n..][n - 1];
      assert !before[0];
      assert after == Shr1(before);
      forall i | 33 - n <= i < 32 ensures !before[i] {
        assert before[i] == after[i - 1] == after[32 - n..][i - 1 - (32 - n)];
      }
      assert before[33 - n..] == Zeros(n - 1);
      ShiftUndone(z, n - 1);
      assert before[..33 - n] == [false] + after[..32 - n];
      assert Zeros(n) == Zeros(n - 1) + [false];
    }
  }

  /** A word with clear low bits is shifted down without feedback. */
  lemma {:induction false} ShiftClear(z: Word, n: nat)
    requires n <= 32 && z[..n] == Zeros(n)
    ensures Shift(z, n) == z[n..] + Zeros(n)
  {
    if n > 0 {
      assert z[..n - 1] == z[..n][..n - 1] == Zeros(n - 1);
      ShiftClear(z, n - 1);
      assert !z[..n][n - 1];
    }
  }

  // ---------------------------------------------------------------- differences of registers

  lemma FeedDifference(x: Word, y: Word, b: byte, c: byte)
    ensures Xor(Feed(x, b), Feed(y, c)) == Shift(Xor(Xor(x, y), Xor(Widen(b), Widen(c))), 8)
  {
    ShiftLinear(Xor(x, Widen(b)), Xor(y, Widen(c)), 8);
    XorExchange(x, y, Widen(b), Widen(c));
  }

  /** The clear tail of a word whose upper bits are zero from bit `n` up. */
  predicate Below(w: Word, n: nat)
    requires n <= 32
  {
    w[n..] == Zeros(32 - n)
  }

  lemma WidenFacts(b: byte, c: byte)
    ensures Below(Xor(Widen(b), Widen(c)), 8)
    ensures Xor(Widen(b), Widen(c)) == ZERO <==> b == c
  {
    XorZero(Widen(b), Widen(c));
    if Widen(b) == Widen(c) {
      assert BitsOf(b) == Widen(b)[..8] == Widen(c)[..8] == BitsOf(c);
      BitsRoundTrip(b);
      BitsRoundTrip(c);
    }
  }

  /** One byte step read backwards, on differences. */
  lemma Undo(d: Word, e: Word, after: Word, n: nat)
    requires n <= 24 && Below(e, 8) && Below(after, n)
    requires after == Shift(Xor(d, e), 8)
    ensures Xor(d, e) == Zeros(8) + after[..24]
    ensures Below(d, n + 8)
    ensures d == ZERO ==> e == ZERO && after == ZERO
  {
    assert after[24..] == after[n..][24 - n..];
    ShiftUndone(Xor(d, e), 8);
    forall i | n + 8 <= i < 32 ensures !d[i] {
      assert e[i] == e[8..][i - 8];
      assert Xor(d, e)[i] == after[i - 8] == after[n..][i - 8 - n];
    }
    if d == ZERO {
      forall i | 0 <= i < 8 ensures !e[i] {
        assert !Xor(d, e)[i];
      }
      forall i | 8 <= i < 32 ensures !e[i] {
        assert e[i] == e[8..][i - 8];
      }
      assert e == ZERO;
      XorZero(d, e);
      forall i | 0 <= i < 24 ensures !after[i] {
        assert after[i] == Xor(d, e)[i + 8];
      }
      forall i | 24 <= i < 32 ensures !after[i] {
        assert after[i] == after[n..][i - n];
      }
    }
  }

  /** Equal bytes never hide a register difference. */
  lemma FeedInjective(x: Word, y: Word, b: byte)
    requires Feed(x, b) == Feed(y, b)
    ensures x == y
  {
    FeedDifference(x, y, b, b);
    XorZero(Feed(x, b), Feed(y, b));
    ShiftUndone(Xor(Xor(x, y), Xor(Widen(b), Widen(b))), 8);
    WidenFacts(b, b);
    assert Xor(Xor(x, y), ZERO) == ZERO;
    XorZero(Xor(x, y), ZERO);
    XorZero(x, y);
  }

  // ---------------------------------------------------------------- burst detection

  lemma {:induction false} FeedAllConcat(r: Word, a: seq<byte>, b: seq<byte>)
    ensures FeedAll(r, a + b) == FeedAll(FeedAll(r, a), b)
  {
    if b == [] {
      assert a + b == a;
    } else {
      assert (a + b)[..|a + b| - 1] == a + b[..|b| - 1];
      FeedAllConcat(r, a, b[..|b| - 1]);
    }
  }

  /** A shared suffix keeps different registers different. */
  lemma {:induction false} SuffixInjective(x: Word, y: Word, s: seq<byte>)
    requires FeedAll(x, s) == FeedAll(y, s)
    ensures x == y
  {
    if s != [] {
      var s' := s[..|s| - 1];
      FeedInjective(FeedAll(x, s'), FeedAll(y, s'), s[|s| - 1]);
      SuffixInjective(x, y, s');
    }
  }

  lemma FeedFour(r: Word, w: seq<byte>)
    requires |w| == 4
    ensures FeedAll(r, w) == Feed(Feed(Feed(Feed(r, w[0]), w[1]), w[2]), w[3])
  {
    assert w[..3][..2] == w[..2] && w[..2][..1] == w[..1] && w[..1][..0] == [];
    assert FeedAll(r, w[..1]) == Feed(r, w[0]);
    assert FeedAll(r, w[..2]) == Feed(FeedAll(r, w[..1]), w[1]);
    assert FeedAll(r, w[..3]) == Feed(FeedAll(r, w[..2]), w[2]);
  }

  lemma FourBytesInjective(r: Word, v: seq<byte>, w: seq<byte>)
    requires |v| == |w| == 4
    requires FeedAll(r, v) == FeedAll(r, w)
    ensures v == w
  {
    FeedFour(r, v);
    FeedFour(r, w);
    var x1, y1 := Feed(r, v[0]), Feed(r, w[0]);
    var x2, y2 := Feed(x1, v[1]), Feed(y1, w[1]);
    var x3, y3 := Feed(x2, v[2]), Feed(y2, w[2]);
    FeedDifference(r, r, v[0], w[0]);
    XorZero(r, r);
    FeedDifference(x1, y1, v[1], w[1]);
    FeedDifference(x2, y2, v[2], w[2]);
    FeedDifference(x3, y3, v[3], w[3]);
    XorZero(Feed(x3, v[3]), Feed(y3, w[3]));
    UndoFour(v, w, Xor(x1, y1), Xor(x2, y2), Xor(x3, y3));
  }

  function Difference(b: byte, c: byte): Word { Xor(Widen(b), Widen(c)) }

  lemma UndoFour(v: seq<byte>, w: seq<byte>, d1: Word, d2: Word, d3: Word)
    requires |v| == |w| == 4
    requires d1 == Shift(Xor(ZERO, Difference(v[0], w[0])), 8)
    requires d2 == Shift(Xor(d1, Difference(v[1], w[1])), 8)
    requires d3 == Shift(Xor(d2, Difference(v[2], w[2])), 8)
    requires ZERO == Shift(Xor(d3, Difference(v[3], w[3])), 8)
    ensures v == w
  {
    assert Below(ZERO, 0);
    UndoByte(d3, v[3], w[3], ZERO, 0);
    UndoByte(d2, v[2], w[2], d3, 8);
    UndoByte(d1, v[1], w[1], d2, 16);
    UndoByte(ZERO, v[0], w[0], d1, 24);
  }

  lemma UndoByte(d: Word, b: byte, c: byte, after: Word, n: nat)
    requires n <= 24 && Below(after, n) && after == Shift(Xor(d, Difference(b, c)), 8)
    ensures Below(d, n + 8)
    ensures d == ZERO ==> b == c && after == ZERO
  {
    WidenFacts(b, c);
    Undo(d, Difference(b, c), after, n);
  }

  /** The two messages agree outside the four bytes that start at `i`. */
  ghost predicate SameOutside(a: seq<byte>, b: seq<byte>, i: nat) {
    && |a| == |b|
    && forall k :: 0 <= k < |a| && !(i <= k < i + 4) ==> a[k] == b[k]
  }

  lemma WindowDetects(a: seq<byte>, b: seq<byte>, i: nat)
    requires SameOutside(a, b, i) && i + 4 <= |a|
    requires Register(a) == Register(b)
    ensures a == b
  {
    var pre, v, w, post := a[..i], a[i..i + 4], b[i..i + 4], a[i + 4..];
    assert a == pre + v + post && b == pre + w + post;
    FeedAllConcat(ONES, pre + v, post);
    FeedAllConcat(ONES, pre + w, post);
    SuffixInjective(Register(pre + v), Register(pre + w), post);
    FeedAllConcat(ONES, pre, v);
    FeedAllConcat(ONES, pre, w);
    FourBytesInjective(Register(pre), v, w);
  }

  lemma RegisterDetects(a: seq<byte>, b: seq<byte>, i: nat)
    requires SameOutside(a, b, i)
    requires Register(a) == Register(b)
    ensures a == b
  {
    if i + 4 > |a| {
      // A window that sticks out at the end: extend both messages alike.
      var pad := seq(i + 4, _ => 0);
      FeedAllConcat(ONES, a, pad);
      FeedAllConcat(ONES, b, pad);
      WindowDetects(a + pad, b + pad, i);
      assert a == (a + pad)[..|a|] == (b + pad)[..|a|] == b;
    } else {
      WindowDetects(a, b, i);
    }
  }

  /** Messages that differ only inside one window of four consecutive bytes have different checksums. */
  lemma BurstDetected(a: seq<byte>, b: seq<byte>, i: nat)
    requires SameOutside(a, b, i)
    ensures Seal(a) == Seal(b) <==> a == b
  {
    if Seal(a) == Seal(b) {
      WordBytesInjective(Checksum(a), Checksum(b));
      assert Register(a) == Not(Checksum(a)) == Not(Checksum(b)) == Register(b);
      RegisterDetects(a, b, i);
    }
  }

  lemma WordBytesInjective(c: Word, d: Word)
    requires WordBytes(c) == WordBytes(d)
    ensures c == d
  {
    WordBytesLanes(c);
    WordBytesLanes(d);
    assert c == c[..8] + c[8..16] + c[16..24] + c[24..];
    assert d == d[..8] + d[8..16] + d[16..24] + d[24..];
  }

  lemma WordBytesLanes(c: Word)
    ensures BitsOf(WordBytes(c)[0]) == c[..8]
    ensures BitsOf(WordBytes(c)[1]) == c[8..16]
    ensures BitsOf(WordBytes(c)[2]) == c[16..24]
    ensures BitsOf(WordBytes(c)[3]) == c[24..]
  {
    ByteRoundTrip(c[..8]);
    ByteRoundTrip(c[8..16]);
    ByteRoundTrip(c[16..24]);
    ByteRoundTrip(c[24..]);
  }

  /** The four bytes hold the 32 bits in order, each byte from its lowest bit on. */
  lemma SealBits(m: seq<byte>)
    ensures Bits(Seal(m)) == Checksum(m)
  {
    var c, s := Checksum(m), Seal(m);
    WordBytesLanes(c);
    assert s[..3][..2] == s[..2] && s[..2][..1] == s[..1] && s[..1][..0] == [];
    assert Bits(s[..1]) == BitsOf(s[0]);
    assert Bits(s[..2]) == BitsOf(s[0]) + BitsOf(s[1]);
    assert Bits(s[..3]) == BitsOf(s[0]) + BitsOf(s[1]) + BitsOf(s[2]);
    assert Bits(s) == BitsOf(s[0]) + BitsOf(s[1]) + BitsOf(s[2]) + BitsOf(s[3]);
    assert c == c[..8] + c[8..16] + c[16..24] + c[24..];
  }

  // ---------------------------------------------------------------- a message with its own checksum

  ghost predicate Sealed(w: seq<byte>) {
    |w| >= 4 && w[|w| - 4..] == Seal(w[..|w| - 4])
  }

  /** A byte that equals the register's low byte, up to a common mask, shifts the difference down. */
  lemma LaneStep(x: Word, y: Word, b: byte, c: byte)
    requires Xor(x, y)[..8] == Xor(Widen(b), Widen(c))[..8]
    ensures Xor(Feed(x, b), Feed(y, c)) == Xor(x, y)[8..] + Zeros(8)
  {
    FeedDifference(x, y, b, c);
    WidenFacts(b, c);
    var d, e := Xor(x, y), Xor(Widen(b), Widen(c));
    forall i | 0 <= i < 32 ensures Xor(d, e)[i] == (i >= 8 && d[i]) {
      if i < 8 {
        assert d[i] == d[..8][i] == e[..8][i] == e[i];
      } else {
        assert e[i] == e[8..][i - 8];
      }
    }
    assert Xor(d, e)[..8] == Zeros(8);
    ShiftClear(Xor(d, e), 8);
    assert Xor(d, e)[8..] == d[8..];
  }

  lemma LaneOfNot(x: Word, y: Word, k: nat)
    requires k < 4
    ensures Xor(Widen(WordBytes(Not(x))[k]), Widen(WordBytes(Not(y))[k]))[..8] == Xor(x, y)[8 * k..8 * k + 8]
  {
    var u, v := WordBytes(Not(x))[k], WordBytes(Not(y))[k];
    WordBytesLanes(Not(x));
    WordBytesLanes(Not(y));
    assert BitsOf(u) == Not(x)[8 * k..8 * k + 8];
    assert BitsOf(v) == Not(y)[8 * k..8 * k + 8];
    forall i | 0 <= i < 8 ensures Xor(Widen(u), Widen(v))[i] == Xor(x, y)[8 * k + i] {
      assert Widen(u)[i] == BitsOf(u)[i] == Not(x)[8 * k + i];
      assert Widen(v)[i] == BitsOf(v)[i] == Not(y)[8 * k + i];
    }
  }

  /** Feeding each register its own complement leaves both empty. */
  lemma ComplementErases(x: Word, y: Word)
    ensures FeedAll(x, WordBytes(Not(x))) == FeedAll(y, WordBytes(Not(y)))
  {
    var s, t, d := WordBytes(Not(x)), WordBytes(Not(y)), Xor(x, y);
    FeedFour(x, s);
    FeedFour(y, t);
    var x1, y1 := Feed(x, s[0]), Feed(y, t[0]);
    var x2, y2 := Feed(x1, s[1]), Feed(y1, t[1]);
    var x3, y3 := Feed(x2, s[2]), Feed(y2, t[2]);
    LaneOfNot(x, y, 0);
    LaneStep(x, y, s[0], t[0]);
    LaneOfNot(x, y, 1);
    LaneStep(x1, y1, s[1], t[1]);
    assert Xor(x2, y2) == d[16..] + Zeros(16);
    LaneOfNot(x, y, 2);
    LaneStep(x2, y2, s[2], t[2]);
    assert Xor(x3, y3) == d[24..] + Zeros(24);
    LaneOfNot(x, y, 3);
    LaneStep(x3, y3, s[3], t[3]);
    assert Xor(Feed(x3, s[3]), Feed(y3, t[3])) == ZERO;
    XorZero(Feed(x3, s[3]), Feed(y3, t[3]));
  }

  /** All sealed messages leave one and the same register: the residue. */
  lemma SealedResidue(a: seq<byte>, b: seq<byte>)
    requires Sealed(a) && Sealed(b)
    ensures Register(a) == Register(b)
  {
    var m, n := a[..|a| - 4], b[..|b| - 4];
    assert a == m + Seal(m) && b == n + Seal(n);
    FeedAllConcat(ONES, m, Seal(m));
    FeedAllConcat(ONES, n, Seal(n));
    ComplementErases(Register(m), Register(n));
  }

  /** A four-byte burst anywhere in a sealed message, even across the seam, breaks the seal. */
  lemma SealedBurstDetected(a: seq<byte>, b: seq<byte>, i: nat)
    requires Sealed(a) && SameOutside(a, b, i)
    ensures Sealed(b) <==> a == b
  {
    if Sealed(b) {
      SealedResidue(a, b);
      RegisterDetects(a, b, i);
    }
  }
}
