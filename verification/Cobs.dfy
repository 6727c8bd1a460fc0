/** The COBS codec of hmpy_protocol.py: the back-patching encoder, the block decoder, and how far each inverts the other. */
module Cobs {
  import opened Bytes

  const MAX_RAW_FRAME: nat := 16 + 4 + 1024
  const FULL_RUN: nat := 254

  datatype Failure = Malformed | TooLarge

  // ---------------------------------------------------------------- encoder

  /** The encoding of `d` when the bytes of `block` are already in the open block. */
  function EncodeFrom(block: seq<byte>, d: seq<byte>): (e: seq<byte>)
    requires |block| <= FULL_RUN
    ensures |e| >= 1
    decreases |d|, |block|
  {
    if |block| == FULL_RUN then Close(block) + EncodeFrom([], d)
    else if d == [] then Close(block)
    else if d[0] == 0 then Close(block) + EncodeFrom([], d[1..])
    else EncodeFrom(block + [d[0]], d[1..])
  }

  /** A finished block: its length byte, then its bytes. */
  function Close(block: seq<byte>): seq<byte>
    requires |block| <= FULL_RUN
  {
    [|block| + 1] + block
  }

  function Encode(d: seq<byte>): (e: seq<byte>)
    ensures |e| >= 1
  {
    EncodeFrom([], d)
  }

  predicate ZeroFree(s: seq<byte>) { forall i :: 0 <= i < |s| ==> s[i] != 0 }

  /** `cobs_encode`: one pass that leaves a placeholder for each block length and patches it later. */
  method EncodeInPlace(data: seq<byte>) returns (output: seq<byte>)
    ensures output == Encode(data)
  {
    output := [0];
    var codeIndex: nat, code: byte := 0, 1;
    ghost var done, block := [], [];
    assert data[0..] == data && [] + Encode(data) == Encode(data);
    for i := 0 to |data|
      invariant |block| < FULL_RUN && code == |block| + 1
      invariant codeIndex == |done| && output == done + [0] + block
      invariant done + EncodeFrom(block, data[i..]) == Encode(data)
    {
      var value := data[i];
      assert data[i..][1..] == data[i + 1..];
      NextByte(done, block, data[i..], Encode(data));
      if value == 0 {
        Patch(done, block);
        done := done + Close(block);
        output := output[codeIndex := code];
        codeIndex := |output|;
        output := output + [0];
        code := 1;
        block := [];
      } else {
        block := block + [value];
        output := output + [value];
        code := code + 1;
        if code == 0xFF {
          Patch(done, block);
          done := done + Close(block);
          output := output[codeIndex := code];
          codeIndex := |output|;
          output := output + [0];
          code := 1;
          block := [];
        }
      }
    }
    Patch(done, block);
    output := output[codeIndex := code];
  }

  /** One byte of the data goes into the open block, or closes it; so does the 254th byte of a block. */
  lemma NextByte(done: seq<byte>, block: seq<byte>, d: seq<byte>, all: seq<byte>)
    requires |block| < FULL_RUN && d != [] && done + EncodeFrom(block, d) == all
    ensures d[0] == 0 ==> done + Close(block) + EncodeFrom([], d[1..]) == all
    ensures d[0] != 0 ==> done + EncodeFrom(block + [d[0]], d[1..]) == all
    ensures d[0] != 0 && |block| + 1 == FULL_RUN ==> done + Close(block + [d[0]]) + EncodeFrom([], d[1..]) == all
  {
    Associative(done, Close(block), EncodeFrom([], d[1..]));
    if |block| + 1 == FULL_RUN {
      Associative(done, Close(block + [d[0]]), EncodeFrom([], d[1..]));
    }
  }

  lemma Patch(done: seq<byte>, block: seq<byte>)
    requires |block| <= FULL_RUN
    ensures (done + [0] + block)[|done| := |block| + 1] == done + Close(block)
  {
  }

  /** No zero byte survives encoding, and it costs at most one byte in 254 plus one. */
  lemma {:induction false} EncodingBounds(block: seq<byte>, d: seq<byte>)
    requires |block| <= FULL_RUN && ZeroFree(block)
    ensures ZeroFree(EncodeFrom(block, d))
    ensures |EncodeFrom(block, d)| <= |block| + |d| + (|block| + |d|) / FULL_RUN + 1
    decreases |d|, |block|
  {
    if |block| == FULL_RUN {
      EncodingBounds([], d);
    } else if d != [] {
      if d[0] == 0 {
        EncodingBounds([], d[1..]);
      } else {
        EncodingBounds(block + [d[0]], d[1..]);
      }
    }
  }

  lemma EncodingIsZeroFree(d: seq<byte>)
    ensures ZeroFree(Encode(d))
    ensures |Encode(d)| <= |d| + |d| / FULL_RUN + 1
  {
    EncodingBounds([], d);
  }

  /** A run of non-zero bytes moves into the open block. */
  lemma {:induction false} EncodeRun(block: seq<byte>, run: seq<byte>, d: seq<byte>)
    requires |block| + |run| <= FULL_RUN && ZeroFree(run)
    ensures EncodeFrom(block, run + d) == EncodeFrom(block + run, d)
    decreases |run|
  {
    if run == [] {
      assert run + d == d && block + run == block;
    } else {
      assert (run + d)[1..] == run[1..] + d;
      assert block + [run[0]] + run[1..] == block + run;
      EncodeRun(block + [run[0]], run[1..], d);
    }
  }

  /**
   * The encoding of all data, block by block: up to 253 non-zero bytes and the zero behind them, or
   * the end, take a length byte that counts itself; 254 of them take 0xFF, and no zero is implied.
   */
  lemma EncodedInBlocks(run: seq<byte>, rest: seq<byte>)
    requires ZeroFree(run) && |run| <= 254
    ensures |run| < 254 ==> Encode(run) == [|run| + 1] + run && Encode(run + [0] + rest) == [|run| + 1] + run + Encode(rest)
    ensures |run| == 254 ==> Encode(run + rest) == [0xFF] + run + Encode(rest)
  {
    assert [] + run == run;
    if |run| < 254 {
      EncodeRun([], run, []);
      assert run + [] == run;
      EncodeRun([], run, [0] + rest);
      assert run + [0] + rest == run + ([0] + rest) && ([0] + rest)[1..] == rest;
    } else {
      EncodeRun([], run, rest);
    }
  }

  // ---------------------------------------------------------------- decoder

  /** One decoded block: its bytes, then the zero it stands for unless it is full or last. */
  function BlockBytes(p: seq<byte>): (s: seq<byte>)
    requires p != [] && 1 <= p[0] <= |p|
  {
    p[1..p[0]] + if p[0] != 0xFF && p[0] < |p| then [0] else []
  }

  function Prepend(s: seq<byte>, r: Result<seq<byte>, Failure>): Result<seq<byte>, Failure> {
    if r.Ok? then Ok(s + r.value) else r
  }

  /** The blocks of `p`, given that `used` bytes have been decoded before. */
  function DecodeBlocks(p: seq<byte>, used: nat): Result<seq<byte>, Failure>
    decreases |p|
  {
    if p == [] then Ok([])
    else if p[0] == 0 || p[0] > |p| then Err(Malformed)
    else if used + |BlockBytes(p)| > MAX_RAW_FRAME then Err(TooLarge)
    else Prepend(BlockBytes(p), DecodeBlocks(p[p[0]..], used + |BlockBytes(p)|))
  }

  function Decode(p: seq<byte>): Result<seq<byte>, Failure> {
    if p == [] || 0 in p then Err(Malformed) else DecodeBlocks(p, 0)
  }

  lemma PrependTwice(a: seq<byte>, b: seq<byte>, r: Result<seq<byte>, Failure>)
    ensures Prepend(a, Prepend(b, r)) == Prepend(a + b, r)
    ensures Prepend([], r) == r
  {
    if r.Ok? {
      assert a + (b + r.value) == a + b + r.value && [] + r.value == r.value;
    }
  }

  /** `cobs_decode`. */
  method DecodeLoop(packet: seq<byte>) returns (r: Result<seq<byte>, Failure>)
    ensures r == Decode(packet)
  {
    if packet == [] || 0 in packet {
      return Err(Malformed);
    }
    var output: seq<byte> := [];
    var readIndex := 0;
    PrependTwice([], [], Decode(packet));
    assert packet[0..] == packet;
    while readIndex < |packet|
      invariant 0 <= readIndex <= |packet| && |output| <= MAX_RAW_FRAME
      invariant Decode(packet) == Prepend(output, DecodeBlocks(packet[readIndex..], |output|))
    {
      ghost var p, before := packet[readIndex..], output;
      var code := packet[readIndex];
      readIndex := readIndex + 1;
      var copyLength := code - 1;
      if copyLength < 0 || copyLength > |packet| - readIndex {
        return Err(Malformed);
      }
      output := output + packet[readIndex..readIndex + copyLength];
      readIndex := readIndex + copyLength;
      if code != 0xFF && readIndex < |packet| {
        output := output + [0];
      }
      assert p[1..code] == packet[readIndex - copyLength..readIndex] && output == before + BlockBytes(p);
      assert p[code..] == packet[readIndex..];
      PrependTwice(before, BlockBytes(p), DecodeBlocks(packet[readIndex..], |output|));
      if |output| > MAX_RAW_FRAME {
        return Err(TooLarge);
      }
    }
    assert output + [] == output;
    return Ok(output);
  }

  // ---------------------------------------------------------------- inverses

  /** Decoding one block and then `rest`. */
  lemma DecodeClosed(block: seq<byte>, rest: seq<byte>, used: nat)
    requires |block| <= FULL_RUN && used + |block| <= MAX_RAW_FRAME
    ensures var s := block + if |block| < FULL_RUN && rest != [] then [0] else [];
            DecodeBlocks(Close(block) + rest, used) ==
              if used + |s| > MAX_RAW_FRAME then Err(TooLarge) else Prepend(s, DecodeBlocks(rest, used + |s|))
  {
    var p := Close(block) + rest;
    assert p[1..p[0]] == block && p[p[0]..] == rest;
  }

  lemma DecodeTooLong(block: seq<byte>, rest: seq<byte>, used: nat)
    requires |block| <= FULL_RUN && used + |block| > MAX_RAW_FRAME
    ensures DecodeBlocks(Close(block) + rest, used) == Err(TooLarge)
  {
    var p := Close(block) + rest;
    assert p[1..p[0]] == block;
  }

  /** The encoding that goes on with `d` after `block` is decoded, after `used` bytes, if it fits. */
  predicate Decodes(block: seq<byte>, d: seq<byte>, used: nat)
    requires |block| <= FULL_RUN
  {
    DecodeBlocks(EncodeFrom(block, d), used) ==
      if used + |block| + |d| <= MAX_RAW_FRAME then Ok(block + d) else Err(TooLarge)
  }

  lemma {:induction false} DecodeEncoded(block: seq<byte>, d: seq<byte>, used: nat)
    requires |block| <= FULL_RUN && used <= MAX_RAW_FRAME
    ensures Decodes(block, d, used)
    decreases |d|, |block|
  {
    if |block| < FULL_RUN && d != [] && d[0] != 0 {
      DecodeEncoded(block + [d[0]], d[1..], used);
      assert block + [d[0]] + d[1..] == block + d;
    } else if used + |block| > MAX_RAW_FRAME {
      TooLongDecodes(block, d, used);
    } else if |block| == FULL_RUN {
      DecodeEncoded([], d, used + |block|);
      FullDecodes(block, d, used);
    } else if d == [] {
      DecodeClosed(block, [], used);
      assert Close(block) + [] == Close(block) && block + [] == block && block + [] + [] == block;
    } else {
      if used + |block| + 1 <= MAX_RAW_FRAME {
        DecodeEncoded([], d[1..], used + |block| + 1);
      }
      ZeroDecodes(block, d, used);
    }
  }

  lemma TooLongDecodes(block: seq<byte>, d: seq<byte>, used: nat)
    requires |block| <= FULL_RUN && used + |block| > MAX_RAW_FRAME
    requires |block| == FULL_RUN || d == [] || d[0] == 0
    ensures Decodes(block, d, used)
  {
    var rest := if |block| == FULL_RUN then EncodeFrom([], d) else if d == [] then [] else EncodeFrom([], d[1..]);
    DecodeTooLong(block, rest, used);
    assert Close(block) + [] == Close(block);
  }

  lemma FullDecodes(block: seq<byte>, d: seq<byte>, used: nat)
    requires |block| == FULL_RUN && used + |block| <= MAX_RAW_FRAME && Decodes([], d, used + |block|)
    ensures Decodes(block, d, used)
  {
    DecodeClosed(block, EncodeFrom([], d), used);
    assert block + [] == block && [] + d == d;
  }

  lemma ZeroDecodes(block: seq<byte>, d: seq<byte>, used: nat)
    requires |block| < FULL_RUN && used + |block| <= MAX_RAW_FRAME && d != [] && d[0] == 0
    requires used + |block| + 1 <= MAX_RAW_FRAME ==> Decodes([], d[1..], used + |block| + 1)
    ensures Decodes(block, d, used)
  {
    DecodeClosed(block, EncodeFrom([], d[1..]), used);
    assert [] + d[1..] == d[1..] && block + [0] + d[1..] == block + d;
  }

  /** Decoding inverts encoding for everything up to the frame limit, and rejects everything longer. */
  lemma EncodeThenDecode(d: seq<byte>)
    ensures Decode(Encode(d)) == if |d| <= MAX_RAW_FRAME then Ok(d) else Err(TooLarge)
  {
    EncodingIsZeroFree(d);
    DecodeEncoded([], d, 0);
    assert [] + d == d;
  }

  /** The last block of an accepted packet is a full one. */
  predicate EndsFull(p: seq<byte>)
    decreases |p|
  {
    p != [] && p[0] != 0 && p[0] <= |p| && if p[0] == |p| then p[0] == 0xFF else EndsFull(p[p[0]..])
  }

  /** Encoding again a block that was followed by `rest`. */
  lemma EncodeBlock(block: seq<byte>, rest: seq<byte>)
    requires |block| <= FULL_RUN && ZeroFree(block)
    ensures Encode(block + if |block| < FULL_RUN then [0] + rest else rest) == Close(block) + Encode(rest)
  {
    var d := if |block| < FULL_RUN then [0] + rest else rest;
    EncodeRun([], block, d);
    assert [] + block == block && ([0] + rest)[1..] == rest;
  }

  lemma EncodeLastBlock(block: seq<byte>)
    requires |block| <= FULL_RUN && ZeroFree(block)
    ensures Encode(block) == if |block| == FULL_RUN then Close(block) + [1] else Close(block)
  {
    EncodeRun([], block, []);
    assert [] + block == block && block + [] == block && EncodeFrom([], []) == [1];
  }

  lemma SplitBlock(p: seq<byte>)
    requires p != [] && ZeroFree(p) && p[0] <= |p|
    ensures var block, tail := p[1..p[0]], p[p[0]..];
            |block| <= FULL_RUN && ZeroFree(block) && ZeroFree(tail) && Close(block) + tail == p
  {
    var block, tail := p[1..p[0]], p[p[0]..];
    forall i | 0 <= i < |block| ensures block[i] != 0 {
      assert block[i] == p[i + 1];
    }
    forall i | 0 <= i < |tail| ensures tail[i] != 0 {
      assert tail[i] == p[p[0] + i];
    }
  }

  lemma {:induction false} EncodeDecoded(p: seq<byte>, used: nat, d: seq<byte>)
    requires p != [] && ZeroFree(p) && DecodeBlocks(p, used) == Ok(d)
    ensures Encode(d) == Completed(p)
    decreases |p|
  {
    var block, tail := p[1..p[0]], p[p[0]..];
    SplitBlock(p);
    if tail == [] {
      assert d == block;
      EncodeLastBlock(block);
    } else {
      var rest := DecodeBlocks(tail, used + |BlockBytes(p)|).value;
      EncodeDecoded(tail, used + |BlockBytes(p)|, rest);
      EncodeBlock(block, rest);
      assert d == block + if |block| < FULL_RUN then [0] + rest else rest;
      CompletedTail(p, block, tail);
    }
  }

  /** The packet with the final 1 that it may omit. */
  function Completed(p: seq<byte>): seq<byte> { if EndsFull(p) then p + [1] else p }

  lemma CompletedTail(p: seq<byte>, block: seq<byte>, tail: seq<byte>)
    requires |block| <= FULL_RUN && p == Close(block) + tail && tail != []
    ensures Completed(p) == Close(block) + Completed(tail)
  {
    assert p[p[0]..] == tail;
    assert Close(block) + (tail + [1]) == Close(block) + tail + [1];
  }

  /** Encoding inverts decoding, up to the final 1 that a packet ending in a full block may omit. */
  lemma DecodeThenEncode(p: seq<byte>)
    requires Decode(p).Ok?
    ensures Encode(Decode(p).value) == if EndsFull(p) then p + [1] else p
  {
    EncodeDecoded(p, 0, Decode(p).value);
  }

  /** Two packets decode to the same bytes only if they are equal or one omits that final 1. */
  lemma AmbiguityIsTheFinalOne(p: seq<byte>, q: seq<byte>)
    requires Decode(p).Ok? && Decode(p) == Decode(q) && |p| <= |q|
    ensures q == p || (EndsFull(p) && q == p + [1])
  {
    DecodeThenEncode(p);
    DecodeThenEncode(q);
    if EndsFull(p) && EndsFull(q) {
      assert p == (p + [1])[..|p|] && q == (q + [1])[..|q|];
    }
  }

  /** Leaving out the final 1 behind a full last block changes nothing for the decoder. */
  lemma {:induction false} FinalOneIsOptional(p: seq<byte>, used: nat)
    requires EndsFull(p)
    ensures DecodeBlocks(p + [1], used) == DecodeBlocks(p, used)
    decreases |p|
  {
    var q := p + [1];
    assert q[0] == p[0] && q[1..p[0]] == p[1..p[0]];
    assert q[p[0]..] == p[p[0]..] + [1];
    var used' := used + |BlockBytes(p)|;
    if p[0] < |p| {
      FinalOneIsOptional(p[p[0]..], used');
    } else {
      assert p[p[0]..] == [] && q[p[0]..] == [1];
      assert BlockBytes([1]) == [] && [1][1..] == [];
      assert used' <= MAX_RAW_FRAME ==> DecodeBlocks([1], used') == Ok([]) == DecodeBlocks([], used');
    }
  }

  /** Which packets are accepted: exactly the encodings of data that fits, and those without an optional final 1. */
  lemma AcceptedExactly(p: seq<byte>, d: seq<byte>)
    ensures Decode(p) == Ok(d) <==>
      |d| <= MAX_RAW_FRAME && (p == Encode(d) || (EndsFull(p) && p + [1] == Encode(d)))
  {
    EncodeThenDecode(d);
    EncodingIsZeroFree(d);
    if Decode(p).Ok? {
      DecodeThenEncode(p);
      DecodedFits(p, 0);
    }
    if EndsFull(p) && p + [1] == Encode(d) {
      FinalOneIsOptional(p, 0);
      assert forall i :: 0 <= i < |p| ==> p[i] == (p + [1])[i];
    }
  }

  lemma {:induction false} DecodedFits(p: seq<byte>, used: nat)
    requires DecodeBlocks(p, used).Ok? && used <= MAX_RAW_FRAME
    ensures used + |DecodeBlocks(p, used).value| <= MAX_RAW_FRAME
    decreases |p|
  {
    if p != [] {
      DecodedFits(p[p[0]..], used + |BlockBytes(p)|);
    }
  }
}
