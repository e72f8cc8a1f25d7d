/** Octet-stuffed framing (the flag/escape scheme of RFC 1662, sections 4.1 and
    4.2) as used by both FTDI transports: the frame encoder and the three-state
    receive decoder. The Linux and Windows transports carry identical copies of
    both routines, so they are modelled once here. */
module Rfc1662 {
  import opened Common

  const FLAG: byte := 0x7E
  const ESCAPE: byte := 0x7D
  const ESCAPE_XOR: byte := 0x20
  const PROTOCOL_CONTROL: byte := 0
  const PROTOCOL_SHTP: byte := 1

  /** Bytes that may not appear literally inside a frame. */
  predicate NeedsEscape(b: byte) {
    b == FLAG || b == ESCAPE
  }

  /** The stuffed form of one payload byte. */
  function EscapeByte(b: byte): (r: seq<byte>)
    ensures |r| == if NeedsEscape(b) then 2 else 1
  {
    if NeedsEscape(b) then [ESCAPE, b ^ ESCAPE_XOR] else [b]
  }

  /** The stuffed form of a payload, byte by byte in order. */
  function Escape(p: seq<byte>): seq<byte>
  {
    if |p| == 0 then [] else EscapeByte(p[0]) + Escape(p[1..])
  }

  /** Number of payload bytes that need an escape. */
  function CountSpecial(p: seq<byte>): nat
  {
    if |p| == 0 then 0 else (if NeedsEscape(p[0]) then 1 else 0) + CountSpecial(p[1..])
  }

  /** A DATA frame on the wire: flag, protocol id, stuffed payload, flag. */
  function Frame(p: seq<byte>): seq<byte>
  {
    [FLAG, PROTOCOL_SHTP] + Escape(p) + [FLAG]
  }

  /** The fixed Buffer Status Query frame. */
  const BSQ: seq<byte> := [FLAG, PROTOCOL_CONTROL, FLAG]

  lemma {:induction false} EscapeLength(p: seq<byte>)
    ensures |Escape(p)| == |p| + CountSpecial(p)
  {
    if |p| > 0 {
      EscapeLength(p[1..]);
    }
  }

  lemma {:induction false} EscapeSnoc(p: seq<byte>, b: byte)
    ensures Escape(p + [b]) == Escape(p) + EscapeByte(b)
  {
    if |p| == 0 {
      assert p + [b] == [b];
    } else {
      assert (p + [b])[1..] == p[1..] + [b];
      EscapeSnoc(p[1..], b);
    }
  }

  /** The stuffed payload never contains a flag, so a frame's only flags are
      its first and last byte. */
  lemma {:induction false} EscapeHasNoFlag(p: seq<byte>)
    ensures forall i :: 0 <= i < |Escape(p)| ==> Escape(p)[i] != FLAG
  {
    if |p| > 0 {
      EscapeHasNoFlag(p[1..]);
      var e := EscapeByte(p[0]);
      assert forall i :: 0 <= i < |e| ==> e[i] != FLAG;
    }
  }

  /** Frame length: three framing bytes, the payload, and one extra byte per
      escaped payload byte. */
  lemma FrameLength(p: seq<byte>)
    ensures |Frame(p)| == 3 + |p| + CountSpecial(p)
  {
    EscapeLength(p);
  }

  /** txEncode: writes the frame into a buffer of capacity `outLen`, checking
      room before every byte. Reports overflow exactly when the whole frame
      does not fit; on success the frame and its length are returned, on
      overflow the capacity is left as it was. */
  method TxEncode(p: seq<byte>, outLen: nat) returns (overflowed: bool, out: seq<byte>, newLen: nat)
    ensures overflowed <==> |Frame(p)| > outLen
    ensures !overflowed ==> out == Frame(p) && newLen == |Frame(p)|
    ensures overflowed ==> newLen == outLen
  {
    FrameLength(p);
    newLen := outLen;
    out := [];
    if |out| >= outLen {
      overflowed := true;
      return;
    }
    out := out + [FLAG];
    if |out| >= outLen {
      overflowed := true;
      return;
    }
    out := out + [PROTOCOL_SHTP];
    var i := 0;
    while i < |p|
      invariant 0 <= i <= |p|
      invariant out == [FLAG, PROTOCOL_SHTP] + Escape(p[..i])
      invariant |out| == 2 + i + CountSpecial(p[..i])
      invariant |out| <= outLen
    {
      EncodeStep(p, i);
      if NeedsEscape(p[i]) {
        if |out| + 1 >= outLen {
          SpecialPrefix(p, i + 1);
          overflowed := true;
          return;
        }
        out := out + [ESCAPE, p[i] ^ ESCAPE_XOR];
      } else {
        if |out| >= outLen {
          SpecialPrefix(p, i + 1);
          overflowed := true;
          return;
        }
        out := out + [p[i]];
      }
      i := i + 1;
    }
    assert p[..i] == p;
    if |out| >= outLen {
      overflowed := true;
      return;
    }
    out := out + [FLAG];
    newLen := |out|;
    overflowed := false;
  }

  /** Extending the encoded prefix by one payload byte. */
  lemma EncodeStep(p: seq<byte>, i: nat)
    requires i < |p|
    ensures Escape(p[..i + 1]) == Escape(p[..i]) + EscapeByte(p[i])
    ensures CountSpecial(p[..i + 1]) == CountSpecial(p[..i]) + (if NeedsEscape(p[i]) then 1 else 0)
  {
    assert p[..i + 1] == p[..i] + [p[i]];
    EscapeSnoc(p[..i], p[i]);
    CountSnoc(p[..i], p[i]);
  }

  lemma {:induction false} CountSnoc(p: seq<byte>, b: byte)
    ensures CountSpecial(p + [b]) == CountSpecial(p) + (if NeedsEscape(b) then 1 else 0)
  {
    if |p| == 0 {
      assert p + [b] == [b];
    } else {
      assert (p + [b])[1..] == p[1..] + [b];
      CountSnoc(p[1..], b);
    }
  }

  lemma {:induction false} CountAppend(a: seq<byte>, b: seq<byte>)
    ensures CountSpecial(a + b) == CountSpecial(a) + CountSpecial(b)
  {
    if |a| == 0 {
      assert a + b == b;
    } else {
      assert (a + b)[1..] == a[1..] + b;
      CountAppend(a[1..], b);
    }
  }

  /** A prefix of the payload needs no more escapes than the whole payload,
      so once a prefix's frame bytes overflow, the whole frame does. */
  lemma SpecialPrefix(p: seq<byte>, k: nat)
    requires k <= |p|
    ensures CountSpecial(p[..k]) + (|p| - k) <= CountSpecial(p) + (|p| - k)
    ensures CountSpecial(p[..k]) <= CountSpecial(p)
  {
    assert p == p[..k] + p[k..];
    CountAppend(p[..k], p[k..]);
  }

  // ---------------------------------------------------------------------
  // Receive side

  datatype RxState = OutsideFrame | InsideFrame | Escaped

  /** The receiver's frame reassembly state. `frame` is the fixed-size buffer
      (its length is the buffer capacity, and bytes past `frameLen` are
      whatever an earlier frame left there); `frameLen` is the logical length,
      which keeps counting after the buffer is full. */
  datatype Decoder = Decoder(rxState: RxState, frame: seq<byte>, frameLen: nat,
                             ready: bool, startTime: uint32)

  /** One received byte together with the clock reading taken if that byte
      starts a frame. */
  datatype RxByte = RxByte(value: byte, clock: uint32)

  /** rfc1662_reset. */
  function Reset(d: Decoder): (r: Decoder)
    ensures r.rxState == OutsideFrame && r.frameLen == 0 && !r.ready
    ensures r.frame == d.frame && r.startTime == d.startTime
  {
    d.(frameLen := 0, ready := false, rxState := OutsideFrame)
  }

  /** Append one payload byte, or only count it once the buffer is full. */
  function Store(d: Decoder, c: byte): (r: Decoder)
    ensures r.frameLen == d.frameLen + 1 && |r.frame| == |d.frame|
    ensures d.frameLen < |d.frame| ==> r.frame == d.frame[d.frameLen := c]
    ensures d.frameLen >= |d.frame| ==> r.frame == d.frame
    ensures r.rxState == d.rxState && r.ready == d.ready && r.startTime == d.startTime
  {
    if d.frameLen < |d.frame| then d.(frame := d.frame[d.frameLen := c], frameLen := d.frameLen + 1)
    else d.(frameLen := d.frameLen + 1)
  }

  /** rfc1662_decode: feed one byte, received at clock `now`, to the decoder. */
  function Decode(d: Decoder, c: byte, now: uint32): (r: Decoder)
    ensures |r.frame| == |d.frame|
    // outside a frame only a flag matters; it opens an empty frame
    ensures d.rxState == OutsideFrame && c != FLAG ==> r == d
    ensures d.rxState == OutsideFrame && c == FLAG ==>
              r.rxState == InsideFrame && r.frameLen == 0 && !r.ready && r.startTime == now
    // a flag on an empty frame is another opening flag; on a non-empty one it closes the frame
    ensures d.rxState == InsideFrame && c == FLAG && d.frameLen == 0 ==>
              r.rxState == InsideFrame && r.frameLen == 0 && r.ready == d.ready
    ensures d.rxState == InsideFrame && c == FLAG && d.frameLen > 0 ==>
              r.ready && r.rxState == OutsideFrame && r.frameLen == d.frameLen && r.frame == d.frame
    // a frame is complete only when a closing flag arrives
    ensures r.ready && !d.ready ==> d.rxState == InsideFrame && c == FLAG && r.frameLen > 0
    // overflow: once the buffer is full, payload bytes are only counted
    ensures d.frameLen >= |d.frame| && (d.rxState == Escaped || (d.rxState == InsideFrame && !NeedsEscape(c))) ==>
              r.frame == d.frame && r.frameLen == d.frameLen + 1
  {
    match d.rxState
    case OutsideFrame =>
      if c == FLAG then d.(startTime := now, frameLen := 0, ready := false, rxState := InsideFrame)
      else d
    case InsideFrame =>
      if c == FLAG then
        if d.frameLen > 0 then d.(ready := true, rxState := OutsideFrame)
        else d.(rxState := InsideFrame)
      else if c == ESCAPE then d.(rxState := Escaped)
      else Store(d, c)
    case Escaped =>
      Store(d, c ^ ESCAPE_XOR).(rxState := InsideFrame)
  }

  /** Feed a byte sequence to the decoder, first byte first. */
  function DecodeAll(d: Decoder, s: seq<RxByte>): (r: Decoder)
    ensures |r.frame| == |d.frame|
    decreases |s|
  {
    if |s| == 0 then d else DecodeAll(Decode(d, s[0].value, s[0].clock), s[1..])
  }

  /** No frame completes while `s` is fed to `d`. */
  predicate Quiet(d: Decoder, s: seq<RxByte>)
    decreases |s|
  {
    |s| == 0 || (!Decode(d, s[0].value, s[0].clock).ready && Quiet(Decode(d, s[0].value, s[0].clock), s[1..]))
  }

  /** Bytes all received at one clock reading. */
  function Timed(bs: seq<byte>, t: uint32): (r: seq<RxByte>)
    ensures |r| == |bs|
    ensures forall i :: 0 <= i < |bs| ==> r[i] == RxByte(bs[i], t)
  {
    seq(|bs|, i requires 0 <= i < |bs| => RxByte(bs[i], t))
  }

  lemma TimedAppend(a: seq<byte>, b: seq<byte>, t: uint32)
    ensures Timed(a + b, t) == Timed(a, t) + Timed(b, t)
  {
  }

  lemma {:induction false} DecodeAllAppend(d: Decoder, s: seq<RxByte>, u: seq<RxByte>)
    ensures DecodeAll(d, s + u) == DecodeAll(DecodeAll(d, s), u)
    ensures Quiet(d, s) && Quiet(DecodeAll(d, s), u) ==> Quiet(d, s + u)
    decreases |s|
  {
    if |s| == 0 {
      assert s + u == u;
    } else {
      assert (s + u)[1..] == s[1..] + u;
      DecodeAllAppend(Decode(d, s[0].value, s[0].clock), s[1..], u);
    }
  }

  /** A frame on the wire around an arbitrary body (protocol id included). */
  function Wire(body: seq<byte>): seq<byte>
  {
    [FLAG] + Escape(body) + [FLAG]
  }

  lemma FrameIsWire(p: seq<byte>)
    ensures Frame(p) == Wire([PROTOCOL_SHTP] + p)
  {
    assert ([PROTOCOL_SHTP] + p)[1..] == p;
  }

  /** Inside a frame, the stuffed form of one byte stores that byte (or only
      counts it when the buffer is full) and leaves the decoder inside the
      frame, completing nothing. */
  lemma DecodeEscapedByte(d: Decoder, b: byte, t: uint32)
    requires d.rxState == InsideFrame && !d.ready
    ensures DecodeAll(d, Timed(EscapeByte(b), t)) == Store(d, b)
    ensures Quiet(d, Timed(EscapeByte(b), t))
  {
    var te := Timed(EscapeByte(b), t);
    if NeedsEscape(b) {
      var m := Decode(d, ESCAPE, t);
      assert m == d.(rxState := Escaped);
      assert (b ^ ESCAPE_XOR) ^ ESCAPE_XOR == b;
      assert te[0] == RxByte(ESCAPE, t);
      assert te[1..] == [RxByte(b ^ ESCAPE_XOR, t)];
      assert DecodeAll(m, te[1..]) == DecodeAll(Decode(m, b ^ ESCAPE_XOR, t), []);
    } else {
      assert te == [RxByte(b, t)];
      assert DecodeAll(d, te) == DecodeAll(Decode(d, b, t), []);
    }
  }

  /** Inside a frame, the stuffed form of `p` acts as the stuffed form of its
      first byte followed by the stuffed form of the rest. */
  lemma DecodeEscapedSplit(d: Decoder, p: seq<byte>, t: uint32)
    requires d.rxState == InsideFrame && !d.ready && |p| > 0
    ensures DecodeAll(d, Timed(Escape(p), t)) == DecodeAll(Store(d, p[0]), Timed(Escape(p[1..]), t))
    ensures Quiet(Store(d, p[0]), Timed(Escape(p[1..]), t)) ==> Quiet(d, Timed(Escape(p), t))
  {
    var b := p[0];
    var s1 := Timed(EscapeByte(b), t);
    var s2 := Timed(Escape(p[1..]), t);
    assert Timed(Escape(p), t) == s1 + s2 by {
      assert Escape(p) == EscapeByte(b) + Escape(p[1..]);
      TimedAppend(EscapeByte(b), Escape(p[1..]), t);
    }
    DecodeAllAppend(d, s1, s2);
    DecodeEscapedByte(d, b, t);
  }

  /** Inside a frame, the stuffed form of `p` adds |p| to the logical length
      without completing the frame and without touching the first stored
      byte. */
  lemma {:induction false} DecodeEscaped(d: Decoder, p: seq<byte>, t: uint32)
    requires d.rxState == InsideFrame && !d.ready
    ensures var r := DecodeAll(d, Timed(Escape(p), t));
      && r.rxState == InsideFrame && !r.ready && r.startTime == d.startTime
      && r.frameLen == d.frameLen + |p| && |r.frame| == |d.frame|
      && (d.frameLen >= 1 && |d.frame| >= 1 ==> r.frame[0] == d.frame[0])
    ensures Quiet(d, Timed(Escape(p), t))
    decreases |p|
  {
    if |p| > 0 {
      DecodeEscapedSplit(d, p, t);
      DecodeEscaped(Store(d, p[0]), p[1..], t);
    }
  }

  /** Storing into a buffer with room extends the stored prefix by one byte. */
  lemma StoredPrefix(d: Decoder, b: byte)
    requires d.frameLen < |d.frame|
    ensures Store(d, b).frame[..d.frameLen + 1] == d.frame[..d.frameLen] + [b]
  {
  }

  /** When the stuffed form of `p` fits the buffer, it stores exactly `p`
      after what is already buffered. */
  lemma {:induction false} DecodeEscapedContent(d: Decoder, p: seq<byte>, t: uint32)
    requires d.rxState == InsideFrame && !d.ready
    requires d.frameLen + |p| <= |d.frame|
    ensures var r := DecodeAll(d, Timed(Escape(p), t));
      r.frame[..d.frameLen + |p|] == d.frame[..d.frameLen] + p
    decreases |p|
  {
    if |p| > 0 {
      var d1 := Store(d, p[0]);
      DecodeEscapedSplit(d, p, t);
      StoredPrefix(d, p[0]);
      DecodeEscapedContent(d1, p[1..], t);
      assert (d.frame[..d.frameLen] + [p[0]]) + p[1..] == d.frame[..d.frameLen] + p;
    }
  }

  /** A whole frame with a non-empty body, fed from outside a frame, completes
      exactly at its closing flag with logical length |body|, stamped with the
      clock of its opening flag; its first body byte is stored, and when the
      body fits the buffer it is stored in full. */
  lemma DecodeWire(d: Decoder, body: seq<byte>, t: uint32)
    requires d.rxState == OutsideFrame && |body| >= 1 && |d.frame| >= 1
    ensures var r := DecodeAll(d, Timed(Wire(body), t));
      && r.ready && r.rxState == OutsideFrame && r.startTime == t
      && r.frameLen == |body| && r.frame[0] == body[0]
      && (|body| <= |d.frame| ==> r.frame[..r.frameLen] == body)
    ensures Quiet(d, Timed(Wire(body)[..|Wire(body)| - 1], t))
  {
    var s0 := Timed([FLAG], t);
    var sh := Timed(EscapeByte(body[0]), t);
    var st := Timed(Escape(body[1..]), t);
    var sb := Timed(Escape(body), t);
    assert sb == sh + st by {
      assert Escape(body) == EscapeByte(body[0]) + Escape(body[1..]);
      TimedAppend(EscapeByte(body[0]), Escape(body[1..]), t);
    }
    assert Timed(Wire(body), t) == (s0 + sb) + s0 by {
      TimedAppend([FLAG] + Escape(body), [FLAG], t);
      TimedAppend([FLAG], Escape(body), t);
    }
    assert Wire(body)[..|Wire(body)| - 1] == [FLAG] + Escape(body);
    assert Timed(Wire(body)[..|Wire(body)| - 1], t) == s0 + sb by {
      TimedAppend([FLAG], Escape(body), t);
    }
    // opening flag
    var d0 := Decode(d, FLAG, t);
    assert DecodeAll(d, s0) == d0 by {
      assert s0 == [RxByte(FLAG, t)];
      assert DecodeAll(d, s0) == DecodeAll(d0, []);
    }
    assert Quiet(d, s0) by {
      assert s0 == [RxByte(FLAG, t)];
    }
    // first body byte is stored at index 0
    DecodeEscapedByte(d0, body[0], t);
    var d1 := Store(d0, body[0]);
    assert d1.frame[0] == body[0] && d1.frameLen == 1;
    // remaining body bytes
    DecodeEscaped(d1, body[1..], t);
    DecodeAllAppend(d0, sh, st);
    var d2 := DecodeAll(d0, sb);
    assert d2 == DecodeAll(d1, st);
    if |body| <= |d.frame| {
      DecodeEscapedContent(d0, body, t);
      assert d2.frame[..|body|] == [] + body;
    }
    // closing flag
    DecodeAllAppend(d, s0, sb);
    DecodeAllAppend(d, s0 + sb, s0);
    assert DecodeAll(d, s0 + sb) == d2;
    assert DecodeAll(d2, s0) == Decode(d2, FLAG, t) by {
      assert s0 == [RxByte(FLAG, t)];
      assert DecodeAll(d2, s0) == DecodeAll(Decode(d2, FLAG, t), []);
    }
  }

  /** Round trip: from outside a frame, the frame for `p` leaves a completed
      frame whose stored bytes are the protocol id followed by `p`, stamped
      with the time of its opening flag, provided it fits the buffer. No frame
      completes before the closing flag. */
  lemma RoundTrip(d: Decoder, p: seq<byte>, t: uint32)
    requires d.rxState == OutsideFrame
    requires 1 + |p| <= |d.frame|
    ensures var r := DecodeAll(d, Timed(Frame(p), t));
      && r.ready && r.rxState == OutsideFrame && r.startTime == t
      && r.frameLen == 1 + |p|
      && r.frame[..r.frameLen] == [PROTOCOL_SHTP] + p
    ensures Quiet(d, Timed(Frame(p)[..|Frame(p)| - 1], t))
  {
    FrameIsWire(p);
    DecodeWire(d, [PROTOCOL_SHTP] + p, t);
  }
}
