/**
 * SLIP framing (section "PROTOCOL" of RFC 1055): the stub's byte-at-a-time decoder and sender,
 * and the two host tools' `bytes.replace` codecs, all related to one escaper.
 */
module Slip {
  import opened Bytes

  const END: byte := 0xC0
  const ESC: byte := 0xDB
  const ESC_END: byte := 0xDC
  const ESC_ESC: byte := 0xDD

  function EscapeByte(b: byte): seq<byte> {
    if b == END then [ESC, ESC_END] else if b == ESC then [ESC, ESC_ESC] else [b]
  }

  function Escape(d: seq<byte>): seq<byte> {
    if d == [] then [] else EscapeByte(d[0]) + Escape(d[1..])
  }

  function Encode(d: seq<byte>): seq<byte> { [END] + Escape(d) + [END] }

  // ---------------------------------------------------------------- the stub's decoder

  datatype Phase = Outside | InFrame | AfterEscape

  /** The decoder's fields, with the received bytes `output[..length]` as a value. */
  datatype State = State(phase: Phase, data: seq<byte>, overflow: bool)

  function Append(s: State, b: byte, capacity: nat): State {
    if |s.data| < capacity then State(InFrame, s.data + [b], s.overflow) else State(InFrame, s.data, true)
  }

  function Next(s: State, b: byte, capacity: nat): State {
    if b == END then
      if s.phase.Outside? then State(InFrame, [], false) else s.(phase := Outside)
    else match s.phase
      case Outside => s
      case AfterEscape =>
        if b == ESC_END then Append(s, END, capacity)
        else if b == ESC_ESC then Append(s, ESC, capacity)
        else State(InFrame, s.data, true)
      case InFrame =>
        if b == ESC then s.(phase := AfterEscape) else Append(s, b, capacity)
  }

  predicate Reports(s: State, b: byte) {
    b == END && !s.phase.Outside? && s.data != [] && !s.overflow
  }

  class SlipDecoder {
    var phase: Phase
    var length: nat
    var overflow: bool

    constructor ()
      ensures phase == Outside && length == 0 && !overflow
    {
      phase, length, overflow := Outside, 0, false;
    }

    ghost function View(output: array<byte>): State
      requires length <= output.Length
      reads this, output
    {
      State(phase, output[..length], overflow)
    }

    /** `slip_decode_byte`: true when `b` completes a frame; nothing is written past `capacity`. */
    method DecodeByte(b: byte, output: array<byte>, capacity: nat) returns (complete: bool)
      requires length <= capacity <= output.Length
      modifies this, output
      ensures length <= capacity
      ensures View(output) == Next(old(View(output)), b, capacity)
      ensures complete == Reports(old(View(output)), b)
      ensures output[capacity..] == old(output[capacity..])
    {
      var byte := b;
      if byte == END {
        if phase == Outside {
          phase, length, overflow := InFrame, 0, false;
          return false;
        }
        phase := Outside;
        return length != 0 && !overflow;
      }
      if phase == Outside {
        return false;
      }
      if phase == AfterEscape {
        phase := InFrame;
        if byte == ESC_END {
          byte := END;
        } else if byte == ESC_ESC {
          byte := ESC;
        } else {
          overflow := true;
          return false;
        }
      } else if byte == ESC {
        phase := AfterEscape;
        return false;
      }
      if length < capacity {
        output[length] := byte;
        length := length + 1;
        assert output[..length] == old(output[..length]) + [byte];
      } else {
        overflow := true;
      }
      return false;
    }
  }

  /** `slip_send`, with the bytes put on the wire as the result. */
  method Send(data: array<byte>, length: nat) returns (wire: seq<byte>)
    requires length <= data.Length
    ensures wire == Encode(data[..length])
  {
    wire := [END];
    for i := 0 to length
      invariant wire == [END] + Escape(data[..i])
    {
      EscapeConcat(data[..i], [data[i]]);
      assert data[..i + 1] == data[..i] + [data[i]];
      if data[i] == END {
        wire := wire + [ESC, ESC_END];
      } else if data[i] == ESC {
        wire := wire + [ESC, ESC_ESC];
      } else {
        wire := wire + [data[i]];
      }
    }
    wire := wire + [END];
  }

  lemma {:induction false} EscapeConcat(a: seq<byte>, b: seq<byte>)
    ensures Escape(a + b) == Escape(a) + Escape(b)
  {
    if a == [] {
      assert a + b == b;
    } else {
      EscapeConcat(a[1..], b);
      assert (a + b)[1..] == a[1..] + b;
      Associative(EscapeByte(a[0]), Escape(a[1..]), Escape(b));
    }
  }

  /** The octets of RFC 1055: framed by 192, with 192 sent as 219 220 and 219 as 219 221, and nothing else changed. */
  lemma OctetsOnTheWire(d: seq<byte>, b: byte)
    ensures Encode([]) == [192, 192]
    ensures Encode(d) == [192] + Escape(d) + [192]
    ensures Escape(d + [b]) == Escape(d) + if b == 192 then [219, 220] else if b == 219 then [219, 221] else [b]
  {
    EscapeConcat(d, [b]);
    assert [b][1..] == [] && Escape([b]) == EscapeByte(b) + [];
  }

  // ---------------------------------------------------------------- whole wires

  function Feed(s: State, wire: seq<byte>, capacity: nat): State
    decreases |wire|
  {
    if wire == [] then s else Feed(Next(s, wire[0], capacity), wire[1..], capacity)
  }

  lemma {:induction false} FeedLast(s: State, wire: seq<byte>, b: byte, capacity: nat)
    ensures Feed(s, wire + [b], capacity) == Next(Feed(s, wire, capacity), b, capacity)
    decreases |wire|
  {
    if wire == [] {
      assert [] + [b] == [b] && [b][1..] == [];
    } else {
      assert (wire + [b])[1..] == wire[1..] + [b];
      FeedLast(Next(s, wire[0], capacity), wire[1..], b, capacity);
    }
  }

  /** The frames reported while `wire` is fed, in order. */
  function Reported(s: State, wire: seq<byte>, capacity: nat): seq<seq<byte>>
    decreases |wire|
  {
    if wire == [] then []
    else (if Reports(s, wire[0]) then [s.data] else []) + Reported(Next(s, wire[0], capacity), wire[1..], capacity)
  }

  lemma {:induction false} FeedConcat(s: State, a: seq<byte>, b: seq<byte>, capacity: nat)
    ensures Feed(s, a + b, capacity) == Feed(Feed(s, a, capacity), b, capacity)
    ensures Reported(s, a + b, capacity) == Reported(s, a, capacity) + Reported(Feed(s, a, capacity), b, capacity)
    decreases |a|
  {
    if a == [] {
      assert a + b == b;
    } else {
      assert (a + b)[1..] == a[1..] + b;
      FeedConcat(Next(s, a[0], capacity), a[1..], b, capacity);
    }
  }

  /** What `d` leaves behind a decoder that is inside a frame. */
  function Filled(s: State, d: seq<byte>, capacity: nat): State
    requires |s.data| <= capacity
  {
    if |s.data| + |d| <= capacity then State(InFrame, s.data + d, s.overflow)
    else State(InFrame, (s.data + d)[..capacity], true)
  }

  lemma FeedEscapedByte(s: State, b: byte, capacity: nat)
    requires s.phase == InFrame
    ensures Feed(s, EscapeByte(b), capacity) == Append(s, b, capacity)
    ensures Reported(s, EscapeByte(b), capacity) == []
  {
    var e := EscapeByte(b);
    var s1 := Next(s, e[0], capacity);
    assert Feed(s, e, capacity) == Feed(s1, e[1..], capacity);
    assert Reported(s, e, capacity) == Reported(s1, e[1..], capacity);
    if |e| == 2 {
      assert Feed(s1, e[1..], capacity) == Feed(Next(s1, e[1], capacity), e[1..][1..], capacity);
    }
  }

  lemma {:induction false} FeedEscaped(s: State, d: seq<byte>, capacity: nat)
    requires s.phase == InFrame && |s.data| <= capacity
    ensures Feed(s, Escape(d), capacity) == Filled(s, d, capacity)
    ensures Reported(s, Escape(d), capacity) == []
    decreases |d|
  {
    if d == [] {
      assert s.data + d == s.data;
    } else {
      FeedConcat(s, EscapeByte(d[0]), Escape(d[1..]), capacity);
      FeedEscapedByte(s, d[0], capacity);
      FeedEscaped(Append(s, d[0], capacity), d[1..], capacity);
      FilledNext(s, d, capacity);
    }
  }

  lemma FilledNext(s: State, d: seq<byte>, capacity: nat)
    requires s.phase == InFrame && |s.data| <= capacity && d != []
    ensures Filled(Append(s, d[0], capacity), d[1..], capacity) == Filled(s, d, capacity)
  {
    assert s.data + [d[0]] + d[1..] == s.data + d;
    if |s.data| == capacity {
      assert (s.data + d[1..])[..capacity] == s.data == (s.data + d)[..capacity];
    }
  }

  /** From outside, an encoded frame is reported once, on its last byte, exactly when it fits. */
  lemma FrameRoundTrip(s: State, d: seq<byte>, capacity: nat)
    requires s.phase == Outside
    ensures Reported(s, Encode(d), capacity) == if 1 <= |d| <= capacity then [d] else []
    ensures Reported(s, [END] + Escape(d), capacity) == []
    ensures Feed(s, Encode(d), capacity).phase == Outside
    ensures |d| <= capacity ==> Feed(s, [END] + Escape(d), capacity) == State(InFrame, d, false)
  {
    var inside := State(InFrame, [], false);
    FeedConcat(s, [END], Escape(d), capacity);
    assert Feed(s, [END], capacity) == inside && Reported(s, [END], capacity) == [];
    FeedEscaped(inside, d, capacity);
    assert [] + d == d;
    FeedConcat(s, [END] + Escape(d), [END], capacity);
    var full := Feed(s, [END] + Escape(d), capacity);
    assert Reported(full, [END], capacity) == if Reports(full, END) then [full.data] else [];
    assert Feed(full, [END], capacity) == full.(phase := Outside);
  }

  function EncodeAll(ds: seq<seq<byte>>): seq<byte> {
    if ds == [] then [] else Encode(ds[0]) + EncodeAll(ds[1..])
  }

  function Deliverable(ds: seq<seq<byte>>, capacity: nat): seq<seq<byte>> {
    if ds == [] then []
    else (if 1 <= |ds[0]| <= capacity then [ds[0]] else []) + Deliverable(ds[1..], capacity)
  }

  /** A stream of frames decodes to the list of those that fit. */
  lemma {:induction false} StreamRoundTrip(s: State, ds: seq<seq<byte>>, capacity: nat)
    requires s.phase == Outside
    ensures Reported(s, EncodeAll(ds), capacity) == Deliverable(ds, capacity)
    ensures Feed(s, EncodeAll(ds), capacity).phase == Outside
    decreases |ds|
  {
    if ds != [] {
      FrameRoundTrip(s, ds[0], capacity);
      FeedConcat(s, Encode(ds[0]), EncodeAll(ds[1..]), capacity);
      StreamRoundTrip(Feed(s, Encode(ds[0]), capacity), ds[1..], capacity);
    }
  }

  lemma {:induction false} EncodeAllConcat(ds: seq<seq<byte>>, d: seq<byte>)
    ensures EncodeAll(ds + [d]) == EncodeAll(ds) + Encode(d)
  {
    if ds == [] {
      assert [d][1..] == [];
    } else {
      assert (ds + [d])[1..] == ds[1..] + [d];
      EncodeAllConcat(ds[1..], d);
    }
  }

  /** Once a frame has overflowed or held a bad escape, it stays rejected. */
  lemma {:induction false} OverflowStays(s: State, body: seq<byte>, capacity: nat)
    requires s.overflow && s.phase != Outside && END !in body
    ensures Feed(s, body, capacity).overflow
    decreases |body|
  {
    if body != [] {
      OverflowStays(Next(s, body[0], capacity), body[1..], capacity);
    }
  }

  /** What was fed is escaped data, perhaps with one escape left open at its end. */
  ghost predicate EscapedFrom(s: State, body: seq<byte>, after: State, capacity: nat) {
    && s.data <= after.data && |after.data| <= capacity
    && var d := after.data[|s.data|..];
       || (after.phase == InFrame && body == Escape(d))
       || (after.phase == AfterEscape && body == Escape(d) + [ESC])
  }

  /** A body that does not overflow is escaped data, perhaps with one escape left open at its end. */
  lemma {:induction false} BodyIsEscaped(s: State, body: seq<byte>, capacity: nat)
    requires s.phase == InFrame && END !in body && |s.data| <= capacity && !Feed(s, body, capacity).overflow
    ensures EscapedFrom(s, body, Feed(s, body, capacity), capacity)
    decreases |body|
  {
    if body == [] {
      assert s.data[|s.data|..] == [];
    } else if body == [ESC] {
      assert s.data[|s.data|..] == [] && Escape([]) == [] && body[1..] == [];
    } else {
      var n := if body[0] == ESC then 2 else 1;
      var head, rest := body[..n], body[n..];
      assert body == head + rest;
      FeedConcat(s, head, rest, capacity);
      var next := Feed(s, head, capacity);
      FedHead(s, head, capacity);
      if next.overflow {
        OverflowStays(next, rest, capacity);
        assert false;
      }
      BodyIsEscaped(next, rest, capacity);
      HeadIsEscaped(s, head, next, rest, Feed(next, rest, capacity), capacity);
    }
  }

  lemma HeadIsEscaped(s: State, head: seq<byte>, next: State, rest: seq<byte>, after: State, capacity: nat)
    requires |s.data| < |next.data| && next.data == s.data + [next.data[|s.data|]] && head == EscapeByte(next.data[|s.data|])
    requires EscapedFrom(next, rest, after, capacity)
    ensures EscapedFrom(s, head + rest, after, capacity)
  {
    var b, tail := next.data[|s.data|], after.data[|next.data|..];
    assert after.data[|s.data|..] == [b] + tail;
    EscapedHead(b, tail);
    assert head + (Escape(tail) + [ESC]) == head + Escape(tail) + [ESC];
  }

  lemma FeedTwo(s: State, a: byte, b: byte, capacity: nat)
    ensures Feed(s, [a], capacity) == Next(s, a, capacity)
    ensures Feed(s, [a, b], capacity) == Next(Next(s, a, capacity), b, capacity)
  {
    assert [a][1..] == [] && [b][1..] == [] && [a, b][1..] == [b];
    assert Feed(Next(s, a, capacity), [b], capacity) == Next(Next(s, a, capacity), b, capacity);
  }

  lemma FedHead(s: State, head: seq<byte>, capacity: nat)
    requires s.phase == InFrame && |s.data| <= capacity
    requires (|head| == 1 && head[0] != ESC && head[0] != END) || (|head| == 2 && head[0] == ESC && head[1] != END)
    ensures var next := Feed(s, head, capacity);
      && next.phase == InFrame
      && (!next.overflow ==>
        && |s.data| < |next.data| <= capacity
        && next.data == s.data + [next.data[|s.data|]] && head == EscapeByte(next.data[|s.data|]))
  {
    if |head| == 2 {
      assert head == [head[0], head[1]];
      FeedTwo(s, head[0], head[1], capacity);
    } else {
      assert head == [head[0]];
      FeedTwo(s, head[0], 0, capacity);
    }
  }

  lemma EscapedHead(b: byte, tail: seq<byte>)
    ensures Escape([b] + tail) == EscapeByte(b) + Escape(tail)
  {
    assert ([b] + tail)[1..] == tail;
  }

  /**
   * Which frames are reported: exactly the escaped forms of data that fits, and also those with
   * an escape left open before the closing END.
   */
  lemma ReportedExactly(body: seq<byte>, d: seq<byte>, capacity: nat)
    requires END !in body
    ensures var s := Feed(State(InFrame, [], false), body, capacity);
      Reports(s, END) && s.data == d <==> 1 <= |d| <= capacity && (body == Escape(d) || body == Escape(d) + [ESC])
  {
    var start := State(InFrame, [], false);
    var s := Feed(start, body, capacity);
    assert [] + d == d;
    if !s.overflow {
      BodyIsEscaped(start, body, capacity);
      assert s.data[0..] == s.data;
    }
    if |d| <= capacity {
      FeedEscaped(start, d, capacity);
      FeedConcat(start, Escape(d), [ESC], capacity);
      assert [ESC][1..] == [];
    }
  }

  /** Escaped data never ends in an open escape. */
  lemma EscapeNeverEndsOpen(d: seq<byte>)
    requires d != []
    ensures Escape(d) != [] && Escape(d)[|Escape(d)| - 1] != ESC
  {
    var init, last := d[..|d| - 1], d[|d| - 1];
    assert d == init + [last] && [last][1..] == [];
    EscapeConcat(init, [last]);
    var e := EscapeByte(last);
    assert Escape([last]) == e + [] == e;
    assert Escape(d) == Escape(init) + e;
    assert Escape(d)[|Escape(d)| - 1] == e[|e| - 1];
  }

  /** A reported frame is escaped data, and then of the data reported, exactly when its last byte is not an escape. */
  lemma ReportedFaithfully(body: seq<byte>, capacity: nat)
    requires END !in body && Reports(Feed(State(InFrame, [], false), body, capacity), END)
    ensures body != []
    ensures (exists d :: body == Escape(d)) <==> body[|body| - 1] != ESC
    ensures body == Escape(Feed(State(InFrame, [], false), body, capacity).data) <==> body[|body| - 1] != ESC
  {
    var data := Feed(State(InFrame, [], false), body, capacity).data;
    ReportedExactly(body, data, capacity);
    forall d | body == Escape(d) ensures body[|body| - 1] != ESC {
      EscapeNeverEndsOpen(d);
    }
  }

  /** The letter A and an open escape: reported as A, although no data is escaped like that. */
  lemma OpenEscapeIsReported(capacity: nat)
    requires capacity >= 1
    ensures var s := Feed(State(InFrame, [], false), [0x41, ESC], capacity);
      Reports(s, END) && s.data == [0x41] && forall d :: Escape(d) != [0x41, ESC]
  {
    FeedTwo(State(InFrame, [], false), 0x41, ESC, capacity);
    ReportedFaithfully([0x41, ESC], capacity);
  }

  /** On any wire whatsoever, every report is non-empty and within capacity. */
  lemma {:induction false} ReportsFit(s: State, wire: seq<byte>, capacity: nat)
    requires |s.data| <= capacity
    ensures forall d :: d in Reported(s, wire, capacity) ==> 1 <= |d| <= capacity
    decreases |wire|
  {
    if wire != [] {
      ReportsFit(Next(s, wire[0], capacity), wire[1..], capacity);
    }
  }

  // ---------------------------------------------------------------- the hosts' codecs

  /** `s.replace(bytes([b]), with)`. */
  function ReplaceByte(s: seq<byte>, b: byte, with: seq<byte>): seq<byte> {
    if s == [] then [] else (if s[0] == b then with else [s[0]]) + ReplaceByte(s[1..], b, with)
  }

  /** `s.replace(bytes([first, second]), bytes([with]))`: leftmost matches, never overlapping. */
  function ReplacePair(s: seq<byte>, first: byte, second: byte, with: byte): seq<byte> {
    if s == [] then []
    else if |s| >= 2 && s[0] == first && s[1] == second then [with] + ReplacePair(s[2..], first, second, with)
    else [s[0]] + ReplacePair(s[1..], first, second, with)
  }

  function HostEscape(d: seq<byte>): seq<byte> {
    ReplaceByte(ReplaceByte(d, ESC, [ESC, ESC_ESC]), END, [ESC, ESC_END])
  }

  /** `slip_encode`, the same in both tools. */
  function HostEncode(d: seq<byte>): seq<byte> { [END] + HostEscape(d) + [END] }

  /** `slip_decode` of hl_dump.py. */
  function HostDecode(frame: seq<byte>): seq<byte> {
    ReplacePair(ReplacePair(frame, ESC, ESC_END, END), ESC, ESC_ESC, ESC)
  }

  lemma {:induction false} ReplaceByteConcat(a: seq<byte>, t: seq<byte>, b: byte, with: seq<byte>)
    ensures ReplaceByte(a + t, b, with) == ReplaceByte(a, b, with) + ReplaceByte(t, b, with)
  {
    if a == [] {
      assert a + t == t;
    } else {
      ReplaceByteConcat(a[1..], t, b, with);
      assert (a + t)[1..] == a[1..] + t;
      var x, y, z := if a[0] == b then with else [a[0]], ReplaceByte(a[1..], b, with), ReplaceByte(t, b, with);
      assert x + (y + z) == x + y + z;
    }
  }

  /** The two-pass encoder is the one-pass escaper. */
  lemma {:induction false} HostEncodeIsEncode(d: seq<byte>)
    ensures HostEscape(d) == Escape(d)
    ensures HostEncode(d) == Encode(d)
  {
    if d != [] {
      HostEncodeIsEncode(d[1..]);
      var head := if d[0] == ESC then [ESC, ESC_ESC] else [d[0]];
      ReplaceByteConcat(head, ReplaceByte(d[1..], ESC, [ESC, ESC_ESC]), END, [ESC, ESC_END]);
      if d[0] == ESC {
        assert head[1..] == [ESC_ESC] && head[1..][1..] == [];
      }
      assert ReplaceByte(head, END, [ESC, ESC_END]) == EscapeByte(d[0]);
    }
  }

  /** The text between the two passes: END restored, ESC still doubled. */
  function HalfEscape(d: seq<byte>): seq<byte> {
    if d == [] then [] else (if d[0] == ESC then [ESC, ESC_ESC] else [d[0]]) + HalfEscape(d[1..])
  }

  lemma {:induction false} FirstPass(d: seq<byte>)
    ensures ReplacePair(Escape(d), ESC, ESC_END, END) == HalfEscape(d)
  {
    if d != [] {
      FirstPass(d[1..]);
      var e, rest := Escape(d), Escape(d[1..]);
      if d[0] == END {
        assert e[2..] == rest;
      } else if d[0] == ESC {
        assert e[1..] == [ESC_ESC] + rest;
        assert e[1..][1..] == rest;
      } else {
        assert e[1..] == rest;
      }
    }
  }

  lemma {:induction false} SecondPass(d: seq<byte>)
    ensures ReplacePair(HalfEscape(d), ESC, ESC_ESC, ESC) == d
  {
    if d != [] {
      SecondPass(d[1..]);
      var h, rest := HalfEscape(d), HalfEscape(d[1..]);
      if d[0] == ESC {
        assert h[2..] == rest;
      } else {
        assert h[1..] == rest;
      }
      assert d == [d[0]] + d[1..];
    }
  }

  /** The two-pass decoder inverts the escaper. */
  lemma HostDecodeInverts(d: seq<byte>)
    ensures HostDecode(Escape(d)) == d
  {
    FirstPass(d);
    SecondPass(d);
  }

  // ---------------------------------------------------------------- the hosts' readers

  /** `_read_frame` of hl_dump.py on the bytes that arrive before the deadline. */
  method HlReadFrame(wire: seq<byte>) returns (frame: Option<seq<byte>>)
    ensures frame == HlRead(wire, false, [])
  {
    var buffer: seq<byte> := [];
    var started := false;
    var i := 0;
    while i < |wire|
      invariant 0 <= i <= |wire|
      invariant HlRead(wire, false, []) == HlRead(wire[i..], started, buffer)
    {
      var b := wire[i];
      assert wire[i..][1..] == wire[i + 1..];
      i := i + 1;
      if b == END {
        if !started {
          started := true;
        } else if buffer != [] {
          return Some(HostDecode(buffer));
        }
      } else if started {
        buffer := buffer + [b];
      }
    }
    return None;
  }

  function HlRead(wire: seq<byte>, started: bool, buffer: seq<byte>): Option<seq<byte>> {
    if wire == [] then None
    else if wire[0] != END then HlRead(wire[1..], started, if started then buffer + [wire[0]] else buffer)
    else if started && buffer != [] then Some(HostDecode(buffer))
    else HlRead(wire[1..], true, buffer)
  }

  lemma {:induction false} HlReadBody(body: seq<byte>, buffer: seq<byte>)
    requires END !in body && buffer + body != []
    ensures HlRead(body + [END], true, buffer) == Some(HostDecode(buffer + body))
  {
    if body == [] {
      assert buffer + body == buffer;
    } else {
      assert (body + [END])[1..] == body[1..] + [END];
      assert buffer + [body[0]] + body[1..] == buffer + body;
      HlReadBody(body[1..], buffer + [body[0]]);
    }
  }

  lemma {:induction false} EscapeHasNoEnd(d: seq<byte>)
    ensures END !in Escape(d)
    ensures |Escape(d)| >= |d|
  {
    if d != [] {
      EscapeHasNoEnd(d[1..]);
    }
  }

  /** hl_dump.py reads back every frame the stub sends. */
  lemma HlReadsFrame(d: seq<byte>)
    requires d != []
    ensures HlRead(Encode(d), false, []) == Some(d)
  {
    EscapeHasNoEnd(d);
    assert Encode(d)[1..] == Escape(d) + [END];
    HlReadBody(Escape(d), []);
    assert [] + Escape(d) == Escape(d);
    HostDecodeInverts(d);
  }

  datatype ReadOutcome = Frame(data: seq<byte>) | BadEscape | TimedOut

  /** `slip_read` of hkflash.py. */
  method HkReadFrame(wire: seq<byte>) returns (outcome: ReadOutcome)
    ensures outcome == HkRead(wire, false, false, [])
  {
    var data: seq<byte> := [];
    var inFrame, inEscape := false, false;
    var i := 0;
    while i < |wire|
      invariant 0 <= i <= |wire|
      invariant HkRead(wire, false, false, []) == HkRead(wire[i..], inFrame, inEscape, data)
    {
      var c := wire[i];
      assert wire[i..][1..] == wire[i + 1..];
      i := i + 1;
      if !inFrame {
        if c == END {
          inFrame := true;
        }
      } else if inEscape {
        inEscape := false;
        if c == ESC_END {
          data := data + [END];
        } else if c == ESC_ESC {
          data := data + [ESC];
        } else {
          return BadEscape;
        }
      } else if c == ESC {
        inEscape := true;
      } else if c == END {
        if data != [] {
          return Frame(data);
        }
      } else {
        data := data + [c];
      }
    }
    return TimedOut;
  }

  function HkRead(wire: seq<byte>, inFrame: bool, inEscape: bool, data: seq<byte>): ReadOutcome {
    if wire == [] then TimedOut
    else
      var c, rest := wire[0], wire[1..];
      if !inFrame then HkRead(rest, c == END, inEscape, data)
      else if inEscape then
        if c == ESC_END then HkRead(rest, true, false, data + [END])
        else if c == ESC_ESC then HkRead(rest, true, false, data + [ESC])
        else BadEscape
      else if c == ESC then HkRead(rest, true, true, data)
      else if c != END then HkRead(rest, true, false, data + [c])
      else if data != [] then Frame(data)
      else HkRead(rest, true, false, data)
  }

  lemma {:induction false} HkReadBody(d: seq<byte>, data: seq<byte>)
    requires data + d != []
    ensures HkRead(Escape(d) + [END], true, false, data) == Frame(data + d)
  {
    if d == [] {
      assert Escape(d) + [END] == [END] && data + d == data;
    } else {
      var rest := Escape(d[1..]) + [END];
      assert Escape(d) + [END] == EscapeByte(d[0]) + rest;
      if |EscapeByte(d[0])| == 2 {
        assert (EscapeByte(d[0]) + rest)[1..][1..] == rest;
      } else {
        assert (EscapeByte(d[0]) + rest)[1..] == rest;
      }
      assert data + [d[0]] + d[1..] == data + d;
      HkReadBody(d[1..], data + [d[0]]);
    }
  }

  /** hkflash.py reads back every frame the stub sends. */
  lemma HkReadsFrame(d: seq<byte>)
    requires d != []
    ensures HkRead(Encode(d), false, false, []) == Frame(d)
  {
    assert Encode(d)[1..] == Escape(d) + [END];
    HkReadBody(d, []);
    assert [] + d == d;
  }
}
