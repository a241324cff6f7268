/** WebSocket framing (section 5.2 of RFC 6455) and masking (section 5.3): the client's
    encoder, its incremental decoder, and the read loop around it. */
module WebSocket {
  import opened Options
  import opened Bytes

  const SATURATING_THRESHOLD: nat := 0x8000_0000_0000_0000
  const MAX_OUTPUT_BYTES: nat := 8 * 1024 * 1024
  const RECEIVE_BYTES: nat := 65_536

  // ----- decoding

  datatype Decoded = Decoded(fin: bool, opcode: nat, payload: Bytes, consumed: nat)

  datatype FrameError = ReservedBit | MaskedByServer | AbsurdLength

  /** `decode_websocket_frame`: no value means that the frame is not complete yet. */
  function DecodeFrame(b: Bytes): Result<Option<Decoded>, FrameError> {
    if |b| < 2 then Ok(None)
    else if b[0] / 16 % 8 != 0 then Err(ReservedBit)
    else if b[1] >= 128 then Err(MaskedByServer)
    else if b[1] == 126 then
      if |b| < 4 then Ok(None) else DecodePayload(b, 4, FromBigEndian(b[2..4]))
    else if b[1] == 127 then
      if |b| < 10 then Ok(None)
      else if FromBigEndian(b[2..10]) >= SATURATING_THRESHOLD then Err(AbsurdLength)
      else DecodePayload(b, 10, FromBigEndian(b[2..10]))
    else DecodePayload(b, 2, b[1])
  }

  function DecodePayload(b: Bytes, offset: nat, length: nat): Result<Option<Decoded>, FrameError>
    requires 2 <= offset <= |b|
  {
    if |b| < offset + length then Ok(None)
    else Ok(Some(Decoded(b[0] >= 128, b[0] % 16, b[offset..offset + length], offset + length)))
  }

  // ----- server frames

  /** How a header spells the payload length; a longer form than needed is allowed. */
  datatype Width = Seven | Sixteen | SixtyFour

  datatype Frame = Frame(fin: bool, opcode: nat, payload: Bytes, width: Width)

  predicate ValidFrame(f: Frame) {
    && f.opcode < 16
    && |f.payload| < match f.width
                     case Seven => 126
                     case Sixteen => 0x1_0000
                     case SixtyFour => SATURATING_THRESHOLD
  }

  function LengthBytes(n: nat, width: Width, maskBit: Byte): Bytes
    requires maskBit == 0 || maskBit == 128
    requires width.Seven? ==> n < 126
  {
    match width
    case Seven => [maskBit + n]
    case Sixteen => [maskBit + 126] + BigEndian(n, 2)
    case SixtyFour => [maskBit + 127] + BigEndian(n, 8)
  }

  /** An unmasked frame on the wire. */
  function Wire(f: Frame): Bytes
    requires ValidFrame(f)
  {
    [(if f.fin then 128 else 0) + f.opcode] + LengthBytes(|f.payload|, f.width, 0) + f.payload
  }

  function HeaderLength(width: Width): nat {
    match width case Seven => 2 case Sixteen => 4 case SixtyFour => 10
  }

  lemma WireParts(f: Frame, rest: Bytes)
    requires ValidFrame(f)
    ensures var h := HeaderLength(f.width);
            var b := Wire(f) + rest;
            && |Wire(f)| == h + |f.payload|
            && b[0] == (if f.fin then 128 else 0) + f.opcode
            && b[h..h + |f.payload|] == f.payload
            && b[1] == (match f.width case Seven => |f.payload| case Sixteen => 126 case SixtyFour => 127)
            && (!f.width.Seven? ==> FromBigEndian(b[2..h]) == |f.payload|)
  {
    hide BigEndian, FromBigEndian, Pow256;
    var b := Wire(f) + rest;
    Powers();
    match f.width {
      case Seven =>
      case Sixteen =>
        BigEndianReadsBack(|f.payload|, 2);
        assert b[2..4] == BigEndian(|f.payload|, 2);
      case SixtyFour =>
        BigEndianReadsBack(|f.payload|, 8);
        assert b[2..10] == BigEndian(|f.payload|, 8);
    }
  }

  /** Exactly when the decoder refuses: by the bits of the first two bytes, and by the top bit of
      an eight-byte length. */
  lemma RefusedExactly(b: Bytes)
    ensures DecodeFrame(b) == Err(ReservedBit) <==> |b| >= 2 && b[0] % 128 >= 16
    ensures DecodeFrame(b) == Err(MaskedByServer) <==> |b| >= 2 && b[0] % 128 < 16 && b[1] >= 128
    ensures DecodeFrame(b) == Err(AbsurdLength) <==> |b| >= 10 && b[0] % 128 < 16 && b[1] == 127 && b[2] >= 128
  {
    hide FromBigEndian;
    if |b| >= 10 {
      var length := b[2..10];
      FromBigEndianFirst(length);
      assert Pow256(7) == 0x100_0000_0000_0000 by {
        assert Pow256(3) == 0x100_0000;
        assert Pow256(5) == 0x100_0000_0000;
      }
      assert length[0] == b[2];
    }
  }

  /** A complete frame is decoded exactly, whatever follows it. */
  lemma DecodeRecoversFrame(f: Frame, rest: Bytes)
    requires ValidFrame(f)
    ensures DecodeFrame(Wire(f) + rest) == Ok(Some(Decoded(f.fin, f.opcode, f.payload, |Wire(f)|)))
  {
    WireParts(f, rest);
  }

  /** Bytes that arrive later never change a frame that was decoded or an error. */
  lemma LaterBytesChangeNothing(b: Bytes, later: Bytes)
    requires DecodeFrame(b) != Ok(None)
    ensures DecodeFrame(b + later) == DecodeFrame(b)
  {
    var c := b + later;
    assert c[0] == b[0] && c[1] == b[1];
    if |b| >= 4 {
      assert c[2..4] == b[2..4];
    }
    if |b| >= 10 {
      assert c[2..10] == b[2..10];
    }
    var d := DecodeFrame(b);
    if d.Ok? {
      var offset := d.value.value.consumed - |d.value.value.payload|;
      assert c[offset..d.value.value.consumed] == b[offset..d.value.value.consumed];
    }
  }

  /** The decoder waits on every proper prefix of a frame. */
  lemma ProperPrefixIsIncomplete(f: Frame, n: nat)
    requires ValidFrame(f) && n < |Wire(f)|
    ensures DecodeFrame(Wire(f)[..n]) == Ok(None)
  {
    var b := Wire(f)[..n];
    if DecodeFrame(b) != Ok(None) {
      assert b + Wire(f)[n..] == Wire(f) + [];
      LaterBytesChangeNothing(b, Wire(f)[n..]);
      DecodeRecoversFrame(f, []);
      ConsumedFits(b);
    }
  }

  lemma ConsumedFits(b: Bytes)
    ensures DecodeFrame(b).Ok? && DecodeFrame(b).value.Some? ==> 2 <= DecodeFrame(b).value.value.consumed <= |b|
  {
  }

  // ----- client frames

  function Pow2(width: nat): nat {
    if width == 0 then 1 else 2 * Pow2(width - 1)
  }

  /** Exclusive or of the lowest `width` bits. */
  function XorBits(a: nat, b: nat, width: nat): (x: nat)
    ensures x < Pow2(width)
  {
    if width == 0 then 0 else XorBits(a / 2, b / 2, width - 1) * 2 + (if a % 2 == b % 2 then 0 else 1)
  }

  lemma {:induction false} XorBitsTwice(a: nat, b: nat, width: nat)
    requires a < Pow2(width)
    ensures XorBits(XorBits(a, b, width), b, width) == a
  {
    if width > 0 {
      var rest := XorBits(a / 2, b / 2, width - 1);
      var bit := if a % 2 == b % 2 then 0 else 1;
      var x := rest * 2 + bit;
      assert x / 2 == rest && x % 2 == bit;
      XorBitsTwice(a / 2, b / 2, width - 1);
      assert XorBits(x, b, width) == XorBits(rest, b / 2, width - 1) * 2 + (if bit == b % 2 then 0 else 1);
    }
  }

  /** Bit `i` of a number. */
  function Bit(n: nat, i: nat): bool {
    if i == 0 then n % 2 == 1 else Bit(n / 2, i - 1)
  }

  /** Each bit is set exactly when it is set in one of the two. */
  lemma {:induction false} XorIsBitwise(a: nat, b: nat, width: nat, i: nat)
    requires i < width
    ensures Bit(XorBits(a, b, width), i) <==> Bit(a, i) != Bit(b, i)
  {
    var rest := XorBits(a / 2, b / 2, width - 1);
    var bit := if a % 2 == b % 2 then 0 else 1;
    assert XorBits(a, b, width) == rest * 2 + bit && (rest * 2 + bit) / 2 == rest && (rest * 2 + bit) % 2 == bit;
    if i > 0 {
      XorIsBitwise(a / 2, b / 2, width - 1, i - 1);
    }
  }

  lemma {:induction false} XorWithNothingAndItself(a: nat, width: nat)
    requires a < Pow2(width)
    ensures XorBits(a, 0, width) == a && XorBits(a, a, width) == 0
  {
    if width > 0 {
      XorWithNothingAndItself(a / 2, width - 1);
    }
  }

  function Xor(a: Byte, b: Byte): Byte {
    assert Pow2(8) == 256;
    XorBits(a, b, 8)
  }

  function Mask(payload: Bytes, mask: Bytes): (m: Bytes)
    requires |mask| == 4
    ensures |m| == |payload|
    ensures forall i :: 0 <= i < |payload| ==> m[i] == Xor(payload[i], mask[i % 4])
  {
    seq(|payload|, i requires 0 <= i < |payload| => Xor(payload[i], mask[i % 4]))
  }

  lemma MaskTwice(payload: Bytes, mask: Bytes)
    requires |mask| == 4
    ensures Mask(Mask(payload, mask), mask) == payload
  {
    forall i | 0 <= i < |payload|
      ensures Xor(Xor(payload[i], mask[i % 4]), mask[i % 4]) == payload[i]
    {
      assert Pow2(8) == 256;
      XorBitsTwice(payload[i], mask[i % 4], 8);
    }
  }

  datatype EncodeError = BadMask | BadOpcode | TooLong

  function MinimalWidth(n: nat): Width {
    if n < 126 then Seven else if n <= 0xFFFF then Sixteen else SixtyFour
  }

  /** `encode_websocket_frame`. */
  function EncodeFrame(opcode: int, payload: Bytes, mask: Bytes): Result<Bytes, EncodeError> {
    if |mask| != 4 then Err(BadMask)
    else if !(0 <= opcode <= 15) then Err(BadOpcode)
    else if |payload| >= 0x1_0000_0000_0000_0000 then Err(TooLong)
    else Ok([128 + opcode] + LengthBytes(|payload|, MinimalWidth(|payload|), 128) + mask + Mask(payload, mask))
  }

  lemma EncodeRefusesExactly(opcode: int, payload: Bytes, mask: Bytes)
    ensures EncodeFrame(opcode, payload, mask).Ok? <==> |mask| == 4 && 0 <= opcode <= 15 && |payload| < 0x1_0000_0000_0000_0000
    ensures EncodeFrame(opcode, payload, mask) == Err(BadMask) <==> |mask| != 4
    ensures EncodeFrame(opcode, payload, mask) == Err(BadOpcode) <==> |mask| == 4 && !(0 <= opcode <= 15)
  {
  }

  /** The receiving side of section 5.2, for a masked frame at the front of `b`. */
  function ParseMasked(b: Bytes): Option<Decoded> {
    if |b| < 2 || b[1] < 128 then None
    else
      var length := b[1] - 128;
      if length == 126 then if |b| < 4 then None else ParseMaskedPayload(b, 4, FromBigEndian(b[2..4]))
      else if length == 127 then if |b| < 10 then None else ParseMaskedPayload(b, 10, FromBigEndian(b[2..10]))
      else ParseMaskedPayload(b, 2, length)
  }

  function ParseMaskedPayload(b: Bytes, offset: nat, length: nat): Option<Decoded>
    requires 2 <= offset <= |b|
  {
    if |b| < offset + 4 + length then None
    else
      var mask := b[offset..offset + 4];
      var payload := b[offset + 4..offset + 4 + length];
      Some(Decoded(b[0] >= 128, b[0] % 16, Mask(payload, mask), offset + 4 + length))
  }

  /** A receiver unmasks an encoded client frame to its payload; the header is minimal; and
      the client's own decoder refuses the frame, as it must refuse masked server frames. */
  lemma ClientFrameIsReadBack(opcode: int, payload: Bytes, mask: Bytes, rest: Bytes)
    requires EncodeFrame(opcode, payload, mask).Ok?
    ensures var e := EncodeFrame(opcode, payload, mask).value;
            && |e| == (if |payload| <= 125 then 2 else if |payload| <= 65535 then 4 else 10) + 4 + |payload|
            && e[0] == 0x80 + opcode && e[1] == 0x80 + (if |payload| <= 125 then |payload| else if |payload| <= 65535 then 126 else 127)
            && ParseMasked(e + rest) == Some(Decoded(true, opcode, payload, |e|))
            && DecodeFrame(e) == Err(MaskedByServer)
  {
    hide XorBits, FromBigEndian, Mask, LengthBytes;
    var e := EncodeFrame(opcode, payload, mask).value;
    var head := [128 + opcode] + LengthBytes(|payload|, MinimalWidth(|payload|), 128);
    var b := e + rest;
    HeadOfClientFrame(opcode, |payload|, mask + Mask(payload, mask) + rest);
    assert e == head + mask + Mask(payload, mask);
    assert b == head + (mask + Mask(payload, mask) + rest);
    FrameBody(head, mask, Mask(payload, mask), rest);
    MaskTwice(payload, mask);
  }

  lemma FrameBody(head: Bytes, mask: Bytes, masked: Bytes, rest: Bytes)
    requires |mask| == 4
    ensures var b, h := head + (mask + masked + rest), |head|;
            b[h..h + 4] == mask && b[h + 4..h + 4 + |masked|] == masked && |b| >= h + 4 + |masked|
  {
  }

  /** The header of a client frame, whatever follows it. */
  lemma HeadOfClientFrame(opcode: nat, n: nat, after: Bytes)
    requires opcode < 16 && n < 0x1_0000_0000_0000_0000
    ensures var head := [128 + opcode] + LengthBytes(n, MinimalWidth(n), 128);
            var b := head + after;
            && |head| == (if n <= 125 then 2 else if n <= 65535 then 4 else 10)
            && head[0] == 0x80 + opcode && head[1] == 0x80 + (if n <= 125 then n else if n <= 65535 then 126 else 127)
            && (126 <= n <= 65535 ==> FromBigEndian(b[2..4]) == n) && (65535 < n ==> FromBigEndian(b[2..10]) == n)
  {
    hide BigEndian, FromBigEndian, Pow256;
    Powers();
    var b := [128 + opcode] + LengthBytes(n, MinimalWidth(n), 128) + after;
    if n > 65535 {
      BigEndianReadsBack(n, 8);
      assert b[2..10] == BigEndian(n, 8);
    } else if n >= 126 {
      BigEndianReadsBack(n, 2);
      assert b[2..4] == BigEndian(n, 2);
    }
  }

  // ----- the read loop

  /** What one wait on the socket gives. An empty block means that the peer closed. */
  datatype Arrival = Block(bytes: Bytes) | Idle | Expired

  datatype ReadError = Protocol(e: FrameError) | Closed | Timeout | BufferFull

  /** One `recv` gives at most this much. */
  predicate ReceiveOk(arrivals: seq<Arrival>) {
    forall a :: a in arrivals && a.Block? ==> |a.bytes| <= RECEIVE_BYTES
  }

  /** Neither closed nor out of time. */
  predicate Quiet(arrivals: seq<Arrival>) {
    forall i :: 0 <= i < |arrivals| ==> !arrivals[i].Expired? && (arrivals[i].Block? ==> arrivals[i].bytes != [])
  }

  function Received(arrivals: seq<Arrival>): Bytes {
    if arrivals == [] then []
    else
      var last := |arrivals| - 1;
      Received(arrivals[..last]) + BytesOf(arrivals[last])
  }

  /** The buffer after `n` arrivals, nothing taken from it yet. */
  function Filled(buffer: Bytes, arrivals: seq<Arrival>, n: nat): Bytes
    requires n <= |arrivals|
  {
    buffer + Received(arrivals[..n])
  }

  /** The loop is still going after `n` arrivals: none ended it, no block took the buffer over
      its cap, and the decoder was waiting before each of them. */
  ghost predicate Reaches(buffer: Bytes, arrivals: seq<Arrival>, n: nat) {
    && n <= |arrivals| && Quiet(arrivals[..n])
    && forall k :: 0 <= k < n ==>
                     && DecodeFrame(Filled(buffer, arrivals, k)) == Ok(None)
                     && (arrivals[k].Block? ==> |Filled(buffer, arrivals, k + 1)| <= 8_388_608)
  }

  /** How a read ends after `n` arrivals. */
  ghost predicate EndsWith(buffer: Bytes, arrivals: seq<Arrival>, n: nat, r: Result<Decoded, ReadError>) {
    && Reaches(buffer, arrivals, n)
    && var d := DecodeFrame(Filled(buffer, arrivals, n));
    match r
    case Ok(frame) => d == Ok(Some(frame))
    case Err(Protocol(e)) => d == Err(e)
    case Err(Timeout) => d == Ok(None) && (n == |arrivals| || arrivals[n].Expired?)
    case Err(Closed) => d == Ok(None) && n < |arrivals| && arrivals[n] == Block([])
    case Err(BufferFull) =>
      && d == Ok(None) && n < |arrivals| && arrivals[n].Block? && arrivals[n].bytes != []
      && |Filled(buffer, arrivals, n + 1)| > 8_388_608
  }

  lemma NotLater(buffer: Bytes, arrivals: seq<Arrival>, n: nat, r: Result<Decoded, ReadError>, m: nat, q: Result<Decoded, ReadError>)
    requires EndsWith(buffer, arrivals, n, r) && EndsWith(buffer, arrivals, m, q)
    ensures m <= n
  {
    hide DecodeFrame, Filled;
    assert n < m <= |arrivals| ==> arrivals[..m][n] == arrivals[n];
  }

  /** A read can end in one way only: its contract fixes result and arrivals used. */
  lemma EndsOneWay(buffer: Bytes, arrivals: seq<Arrival>, n: nat, r: Result<Decoded, ReadError>, m: nat, q: Result<Decoded, ReadError>)
    requires EndsWith(buffer, arrivals, n, r) && EndsWith(buffer, arrivals, m, q)
    ensures n == m && r == q
  {
    hide DecodeFrame, Filled;
    NotLater(buffer, arrivals, n, r, m, q);
    NotLater(buffer, arrivals, m, q, n, r);
  }

  function BytesOf(a: Arrival): Bytes {
    if a.Block? then a.bytes else []
  }

  lemma ReceivedOneMore(arrivals: seq<Arrival>, a: Arrival)
    ensures Received(arrivals + [a]) == Received(arrivals) + BytesOf(a)
  {
    assert (arrivals + [a])[..|arrivals|] == arrivals;
  }

  lemma SnocLast(xs: seq<Arrival>, ys: seq<Arrival>)
    requires ys != []
    ensures var last := |ys| - 1;
            ys[..last] + [ys[last]] == ys && xs + ys == (xs + ys[..last]) + [ys[last]]
  {
  }

  lemma {:induction false} ReceivedAppend(xs: seq<Arrival>, ys: seq<Arrival>)
    ensures Received(xs + ys) == Received(xs) + Received(ys)
    decreases |ys|
  {
    hide BytesOf;
    if ys == [] {
      assert xs + ys == xs;
    } else {
      hide Received;
      var last := |ys| - 1;
      SnocLast(xs, ys);
      ReceivedAppend(xs, ys[..last]);
      ReceivedOneMore(xs + ys[..last], ys[last]);
      ReceivedOneMore(ys[..last], ys[last]);
      Associate(Received(xs), Received(ys[..last]), BytesOf(ys[last]));
    }
  }

  lemma ReceivedInTwo(arrivals: seq<Arrival>, n: nat)
    requires n <= |arrivals|
    ensures Received(arrivals) == Received(arrivals[..n]) + Received(arrivals[n..])
  {
    hide Received;
    ReceivedAppend(arrivals[..n], arrivals[n..]);
    assert arrivals[..n] + arrivals[n..] == arrivals;
  }

  lemma ReceivedNext(arrivals: seq<Arrival>, n: nat)
    requires n < |arrivals|
    ensures Received(arrivals[..n + 1]) == Received(arrivals[..n]) + BytesOf(arrivals[n])
  {
    assert arrivals[..n + 1][..n] == arrivals[..n];
  }

  class Client {
    var buffer: Bytes
    // what the socket will still deliver
    var arrivals: seq<Arrival>

    constructor (arrivals: seq<Arrival>)
      ensures buffer == [] && this.arrivals == arrivals
    {
      this.buffer, this.arrivals := [], arrivals;
    }

    /** Everything not yet handed out as frames. */
    function Pending(): Bytes
      reads this
    {
      buffer + Received(arrivals)
    }

    /** `read_frame`: the frame is the first one of all the bytes that will arrive, however
        they are split; the split decides only whether the buffer passes its cap first. */
    method ReadFrame() returns (r: Result<Decoded, ReadError>, ghost n: nat)
      modifies this
      ensures EndsWith(old(buffer), old(arrivals), n, r)
      ensures r.Ok? ==> && DecodeFrame(old(Pending())) == Ok(Some(r.value))
                        && r.value.consumed <= |Filled(old(buffer), old(arrivals), n)|
                        && buffer == Filled(old(buffer), old(arrivals), n)[r.value.consumed..]
                        && arrivals == old(arrivals)[n..]
      ensures r.Err? && r.error.Protocol? ==> DecodeFrame(old(Pending())) == Err(r.error.e)
    {
      hide DecodeFrame, Received;
      ghost var b, all := buffer, arrivals;
      n := 0;
      StartOfRead(b, all);
      while true
        invariant n <= |all| && arrivals == all[n..] && buffer == Filled(b, all, n)
        invariant Reaches(b, all, n)
        decreases |arrivals|
      {
        var d := DecodeFrame(buffer);
        if d != Ok(None) {
          ReceivedInTwo(all, n);
          assert buffer + Received(all[n..]) == b + Received(all);
          LaterBytesChangeNothing(buffer, Received(all[n..]));
          ConsumedFits(buffer);
          if d.Err? {
            return Err(Protocol(d.error)), n;
          }
          buffer := buffer[d.value.value.consumed..];
          return Ok(d.value.value), n;
        }
        if arrivals == [] || arrivals[0].Expired? {
          return Err(Timeout), n;
        }
        var a := arrivals[0];
        ReceivedNext(all, n);
        if a == Block([]) {
          return Err(Closed), n;
        }
        arrivals := arrivals[1..];
        if a.Block? {
          buffer := buffer + a.bytes;
          if |buffer| > MAX_OUTPUT_BYTES {
            return Err(BufferFull), n;
          }
        }
        assert all[..n + 1] == all[..n] + [a];
        n := n + 1;
      }
    }
  }

  lemma StartOfRead(buffer: Bytes, arrivals: seq<Arrival>)
    ensures Filled(buffer, arrivals, 0) == buffer && Reaches(buffer, arrivals, 0)
  {
  }

  function WireAll(frames: seq<Frame>): Bytes
    requires forall f :: f in frames ==> ValidFrame(f)
  {
    if frames == [] then [] else Wire(frames[0]) + WireAll(frames[1..])
  }

  function Content(f: Frame): Decoded
    requires ValidFrame(f)
  {
    Decoded(f.fin, f.opcode, f.payload, |Wire(f)|)
  }


  // ----- many frames

  /** The length of the first `i` frames on the wire. */
  function Sent(frames: seq<Frame>, i: nat): nat
    requires i <= |frames| && forall f :: f in frames ==> ValidFrame(f)
  {
    if i == 0 then 0 else Sent(frames, i - 1) + |Wire(frames[i - 1])|
  }

  /** Arrival `n` comes while frame `i` is incomplete and takes the buffer over its cap. */
  ghost predicate Crosses(frames: seq<Frame>, buffer: Bytes, arrivals: seq<Arrival>, i: nat, n: nat)
    requires forall f :: f in frames ==> ValidFrame(f)
  {
    && i < |frames| && n < |arrivals| && arrivals[n].Block?
    && Sent(frames, i) <= |Filled(buffer, arrivals, n)| < Sent(frames, i + 1)
    && |Filled(buffer, arrivals, n + 1)| - Sent(frames, i) > 8_388_608
  }

  /** The chunking stays within the buffer cap. */
  ghost predicate CapHolds(frames: seq<Frame>, buffer: Bytes, arrivals: seq<Arrival>)
    requires forall f :: f in frames ==> ValidFrame(f)
  {
    forall i: nat, n: nat :: !Crosses(frames, buffer, arrivals, i, n)
  }

  lemma FilledIsPrefix(buffer: Bytes, arrivals: seq<Arrival>, m: nat)
    requires m <= |arrivals|
    ensures Filled(buffer, arrivals, m) <= buffer + Received(arrivals)
    ensures m == |arrivals| ==> Filled(buffer, arrivals, m) == buffer + Received(arrivals)
  {
    hide Received;
    ReceivedInTwo(arrivals, m);
    assert m == |arrivals| ==> arrivals[..m] == arrivals;
  }

  lemma FilledGrows(buffer: Bytes, arrivals: seq<Arrival>, m: nat, n: nat)
    requires m <= n <= |arrivals|
    ensures |Filled(buffer, arrivals, m)| <= |Filled(buffer, arrivals, n)|
  {
    hide Received;
    ReceivedInTwo(arrivals[..n], m);
    assert arrivals[..n][..m] == arrivals[..m];
  }

  /** While a frame is coming the decoder waits exactly as long as it is incomplete. */
  lemma WaitsUntilComplete(f: Frame, tail: Bytes, b: Bytes)
    requires ValidFrame(f) && b <= Wire(f) + tail
    ensures DecodeFrame(b) == Ok(None) <==> |b| < |Wire(f)|
    ensures |b| >= |Wire(f)| ==> DecodeFrame(b) == Ok(Some(Content(f)))
  {
    hide DecodeFrame, Wire;
    if |b| < |Wire(f)| {
      ProperPrefixIsIncomplete(f, |b|);
      assert b == Wire(f)[..|b|];
    } else {
      var rest := b[|Wire(f)|..];
      assert b == Wire(f) + rest;
      DecodeRecoversFrame(f, rest);
    }
  }

  /** One read of a frame that is coming: the frame, or a full buffer. */
  lemma ReadOfFrame(buffer: Bytes, arrivals: seq<Arrival>, f: Frame, tail: Bytes, n: nat, r: Result<Decoded, ReadError>)
    requires ValidFrame(f) && Quiet(arrivals) && buffer + Received(arrivals) == Wire(f) + tail
    requires EndsWith(buffer, arrivals, n, r)
    ensures forall m :: 0 <= m < n ==>
                          && |Filled(buffer, arrivals, m)| < |Wire(f)|
                          && (arrivals[m].Block? ==> |Filled(buffer, arrivals, m + 1)| <= MAX_OUTPUT_BYTES)
    ensures r == Ok(Content(f)) || r == Err(BufferFull)
    ensures r.Ok? <==> |Filled(buffer, arrivals, n)| >= |Wire(f)|
  {
    hide DecodeFrame, Received, Filled, Wire;
    forall m | 0 <= m <= |arrivals|
      ensures DecodeFrame(Filled(buffer, arrivals, m)) == Ok(None) <==> |Filled(buffer, arrivals, m)| < |Wire(f)|
      ensures |Filled(buffer, arrivals, m)| >= |Wire(f)| ==> DecodeFrame(Filled(buffer, arrivals, m)) == Ok(Some(Content(f)))
    {
      FilledIsPrefix(buffer, arrivals, m);
      WaitsUntilComplete(f, tail, Filled(buffer, arrivals, m));
    }
    FilledIsPrefix(buffer, arrivals, |arrivals|);
  }

  /** Reading on from a later point of the same arrivals. */
  lemma FilledFromThere(buffer: Bytes, arrivals: seq<Arrival>, n: nat, w: nat, m: nat)
    requires n + m <= |arrivals| && w <= |Filled(buffer, arrivals, n)|
    ensures w <= |Filled(buffer, arrivals, n + m)|
    ensures Filled(Filled(buffer, arrivals, n)[w..], arrivals[n..], m) == Filled(buffer, arrivals, n + m)[w..]
  {
    hide Received;
    ReceivedInTwo(arrivals[..n + m], n);
    assert arrivals[..n + m][..n] == arrivals[..n] && arrivals[..n + m][n..] == arrivals[n..][..m];
  }

  /** Where a run of reads stands: the first `i` frames are out, `n` arrivals are used. */
  ghost predicate Stands(frames: seq<Frame>, b: Bytes, all: seq<Arrival>, i: nat, n: nat, buffer: Bytes, arrivals: seq<Arrival>)
    requires forall f :: f in frames ==> ValidFrame(f)
  {
    && i <= |frames| && n <= |all| && arrivals == all[n..]
    && Sent(frames, i) <= |Filled(b, all, n)| && buffer == Filled(b, all, n)[Sent(frames, i)..]
    && (forall m :: 0 <= m < n ==> |Filled(b, all, m)| < Sent(frames, i))
    && (forall j: nat, m: nat :: j < i ==> !Crosses(frames, b, all, j, m))
  }

  /** One read in such a run: it moves on, or it is stopped by a crossing of the cap. */
  lemma ReadMovesOn(frames: seq<Frame>, b: Bytes, all: seq<Arrival>, i: nat, n: nat,
                    buffer: Bytes, arrivals: seq<Arrival>, tail: Bytes, k: nat, r: Result<Decoded, ReadError>)
    requires (forall f :: f in frames ==> ValidFrame(f)) && Quiet(all)
    requires i < |frames| && Stands(frames, b, all, i, n, buffer, arrivals)
    requires buffer + Received(arrivals) == Wire(frames[i]) + tail && EndsWith(buffer, arrivals, k, r)
    ensures r == Ok(Content(frames[i])) || r == Err(BufferFull)
    ensures r.Err? ==> Crosses(frames, b, all, i, n + k)
    ensures r.Ok? ==> && |Wire(frames[i])| <= |Filled(buffer, arrivals, k)|
                      && Stands(frames, b, all, i + 1, n + k, Filled(buffer, arrivals, k)[|Wire(frames[i])|..], arrivals[k..])
  {
    hide DecodeFrame, Received, Filled, Wire;
    assert frames[i] in frames;
    var w, len := Sent(frames, i), |Wire(frames[i])|;
    assert Quiet(arrivals);
    ReadOfFrame(buffer, arrivals, frames[i], tail, k, r);
    forall m | 0 <= m <= |arrivals|
      ensures |Filled(buffer, arrivals, m)| == |Filled(b, all, n + m)| - w
    {
      FilledGrows(b, all, n, n + m);
      FilledFromThere(b, all, n, w, m);
    }
    FilledFromThere(b, all, n, w, k);
    forall m | n <= m < n + k
      ensures |Filled(b, all, m)| < Sent(frames, i + 1)
      ensures all[m].Block? ==> |Filled(b, all, m + 1)| - w <= MAX_OUTPUT_BYTES
    {
      var j := m - n;
      assert |Filled(buffer, arrivals, j)| == |Filled(b, all, n + j)| - w;
      assert |Filled(buffer, arrivals, j + 1)| == |Filled(b, all, n + (j + 1))| - w;
      assert arrivals[j] == all[m];
    }
    if r.Ok? {
      MovedOn(frames, b, all, i, n, k);
      var whole := Filled(b, all, n + k);
      assert whole[w..][len..] == whole[w + len..];
    }
  }

  lemma MovedOn(frames: seq<Frame>, b: Bytes, all: seq<Arrival>, i: nat, n: nat, k: nat)
    requires (forall f :: f in frames ==> ValidFrame(f)) && i < |frames| && n + k <= |all|
    requires forall m :: 0 <= m < n ==> |Filled(b, all, m)| < Sent(frames, i)
    requires forall m :: n <= m < n + k ==>
                           && |Filled(b, all, m)| < Sent(frames, i + 1)
                           && (all[m].Block? ==> |Filled(b, all, m + 1)| - Sent(frames, i) <= MAX_OUTPUT_BYTES)
    requires |Filled(b, all, n + k)| >= Sent(frames, i + 1)
    ensures forall m :: 0 <= m < n + k ==> |Filled(b, all, m)| < Sent(frames, i + 1)
    ensures forall m: nat :: !Crosses(frames, b, all, i, m)
  {
    hide Filled, Wire;
    assert Sent(frames, i) <= Sent(frames, i + 1);
    forall m: nat
      ensures !Crosses(frames, b, all, i, m)
    {
      if n + k <= m <= |all| {
        FilledGrows(b, all, n + k, m);
      }
    }
  }

  /** For every list of frames and every way their bytes arrive, repeated reads give back the
      frames in order, all of them exactly when the chunking stays within the buffer cap. */
  method ReadAll(c: Client, frames: seq<Frame>, ghost rest: Bytes) returns (got: seq<Decoded>, full: bool)
    requires forall f :: f in frames ==> ValidFrame(f)
    requires Quiet(c.arrivals) && c.Pending() == WireAll(frames) + rest
    modifies c
    ensures |got| <= |frames| && forall i :: 0 <= i < |got| ==> got[i] == Content(frames[i])
    ensures !full <==> CapHolds(frames, old(c.buffer), old(c.arrivals))
    ensures !full <==> |got| == |frames|
    ensures !full ==> c.Pending() == rest
  {
    hide DecodeFrame, Wire, Received, Filled, Quiet;
    ghost var b, all := c.buffer, c.arrivals;
    ghost var n := 0;
    got, full := [], false;
    StartOfRead(b, all);
    for i := 0 to |frames|
      invariant |got| == i && forall j :: 0 <= j < i ==> got[j] == Content(frames[j])
      invariant Stands(frames, b, all, i, n, c.buffer, c.arrivals)
      invariant c.Pending() == WireAll(frames[i..]) + rest
    {
      ghost var f := frames[i];
      assert frames[i..][0] == f && frames[i..][1..] == frames[i + 1..];
      ghost var tail := WireAll(frames[i + 1..]) + rest;
      ghost var buffer, arrivals := c.buffer, c.arrivals;
      assert c.Pending() == Wire(f) + tail;
      ghost var k;
      var r;
      r, k := c.ReadFrame();
      ReadMovesOn(frames, b, all, i, n, buffer, arrivals, tail, k, r);
      if r.Err? {
        return got, true;
      }
      TakenFromFront(buffer, arrivals, k, f, tail);
      n := n + k;
      got := got + [r.value];
    }
  }

  lemma TakenFromFront(buffer: Bytes, arrivals: seq<Arrival>, k: nat, f: Frame, tail: Bytes)
    requires ValidFrame(f) && k <= |arrivals| && buffer + Received(arrivals) == Wire(f) + tail
    requires |Wire(f)| <= |Filled(buffer, arrivals, k)|
    ensures Filled(buffer, arrivals, k)[|Wire(f)|..] + Received(arrivals[k..]) == tail
  {
    hide Received, Wire;
    ReceivedInTwo(arrivals, k);
    var filled := Filled(buffer, arrivals, k);
    assert filled + Received(arrivals[k..]) == Wire(f) + tail;
    assert (filled + Received(arrivals[k..]))[|Wire(f)|..] == filled[|Wire(f)|..] + Received(arrivals[k..]);
    assert (Wire(f) + tail)[|Wire(f)|..] == tail;
  }

  // ----- which frames fit

  lemma {:induction false} ReceivedIsBounded(arrivals: seq<Arrival>, n: nat)
    requires n < |arrivals| && ReceiveOk(arrivals)
    ensures |Received(arrivals[..n + 1])| <= |Received(arrivals[..n])| + RECEIVE_BYTES
  {
    ReceivedNext(arrivals, n);
    assert arrivals[n] in arrivals;
  }

  /** A frame that leaves room for one more block fits under every chunking. */
  lemma SmallFramesFit(frames: seq<Frame>, buffer: Bytes, arrivals: seq<Arrival>)
    requires forall f :: f in frames ==> ValidFrame(f) && |Wire(f)| + RECEIVE_BYTES <= MAX_OUTPUT_BYTES + 1
    requires ReceiveOk(arrivals)
    ensures CapHolds(frames, buffer, arrivals)
  {
    hide Received, Wire;
    forall i: nat, n: nat
      ensures !Crosses(frames, buffer, arrivals, i, n)
    {
      if i < |frames| && n < |arrivals| {
        ReceivedIsBounded(arrivals, n);
        assert frames[i] in frames && Sent(frames, i + 1) == Sent(frames, i) + |Wire(frames[i])|;
      }
    }
  }

  /** The first `n` bytes of a stream, one at a time. */
  function Singly(stream: Bytes, n: nat): seq<Arrival>
    requires n <= |stream|
  {
    seq(n, i requires 0 <= i < n => Block([stream[i]]))
  }

  lemma {:induction false} SinglyReceived(stream: Bytes, n: nat, after: seq<Arrival>, m: nat)
    requires m <= n <= |stream|
    ensures Received((Singly(stream, n) + after)[..m]) == stream[..m]
  {
    var all := Singly(stream, n) + after;
    if m > 0 {
      SinglyReceived(stream, n, after, m - 1);
      ReceivedNext(all, m - 1);
    }
  }

  /** Byte by byte, a frame up to the cap fits. */
  lemma FitsByteByByte(f: Frame, tail: Bytes)
    requires ValidFrame(f) && |Wire(f)| <= MAX_OUTPUT_BYTES
    ensures var all := Singly(Wire(f) + tail, |Wire(f) + tail|);
            && ReceiveOk(all) && Quiet(all) && Received(all) == Wire(f) + tail
            && CapHolds([f], [], all)
  {
    hide Received, Wire;
    var stream := Wire(f) + tail;
    var all := Singly(stream, |stream|);
    assert all + [] == all && all[..|all|] == all && stream[..|stream|] == stream;
    SinglyReceived(stream, |stream|, [], |stream|);
    forall i: nat, n: nat
      ensures !Crosses([f], [], all, i, n)
    {
      if i < 1 && n < |all| {
        SinglyReceived(stream, |stream|, [], n);
        SinglyReceived(stream, |stream|, [], n + 1);
        assert Sent([f], 1) == |Wire(f)|;
      }
    }
  }

  lemma WireIsLong(f: Frame)
    requires ValidFrame(f)
    ensures |Wire(f)| >= 2
  {
    WireParts(f, []);
  }

  /** With its last byte at the front of a full block, a frame within one block of the cap does
      not. */
  lemma OverflowsInOneBlock(f: Frame, tail: Bytes)
    requires ValidFrame(f) && |Wire(f)| + RECEIVE_BYTES > MAX_OUTPUT_BYTES + 1 && |tail| == RECEIVE_BYTES - 1
    ensures var n := |Wire(f)| - 1;
            var all := Singly(Wire(f) + tail, n) + [Block((Wire(f) + tail)[n..])];
            && ReceiveOk(all) && Quiet(all) && Received(all) == Wire(f) + tail
            && !CapHolds([f], [], all)
  {
    hide Received, Wire, LengthBytes;
    WireIsLong(f);
    var stream, n := Wire(f) + tail, |Wire(f)| - 1;
    var last := [Block(stream[n..])];
    var all := Singly(stream, n) + last;
    SinglyReceived(stream, n, last, n);
    ReceivedNext(all, n);
    assert all[..n + 1] == all && stream[..n] + stream[n..] == stream;
    assert Sent([f], 0) == 0 && Sent([f], 1) == |Wire(f)|;
    assert Crosses([f], [], all, 0, n);
  }

  /** A frame above the cap fits under no chunking. */
  lemma LargeFrameNeverFits(f: Frame, tail: Bytes, arrivals: seq<Arrival>)
    requires ValidFrame(f) && |Wire(f)| > MAX_OUTPUT_BYTES && Received(arrivals) == Wire(f) + tail
    ensures !CapHolds([f], [], arrivals)
  {
    hide Wire, Received, CapHolds;
    assert arrivals[..|arrivals|] == arrivals;
    FirstCrossing(f, arrivals, |arrivals|);
  }

  lemma {:induction false} FirstCrossing(f: Frame, arrivals: seq<Arrival>, n: nat)
    requires ValidFrame(f) && |Wire(f)| > MAX_OUTPUT_BYTES && n <= |arrivals|
    requires |Filled([], arrivals, n)| > MAX_OUTPUT_BYTES
    ensures !CapHolds([f], [], arrivals)
  {
    hide Wire;
    assert arrivals[..0] == [];
    if n > 0 {
      if |Filled([], arrivals, n - 1)| > MAX_OUTPUT_BYTES {
        FirstCrossing(f, arrivals, n - 1);
      } else {
        ReceivedNext(arrivals, n - 1);
        assert Sent([f], 0) == 0 && Sent([f], 1) == |Wire(f)|;
        assert Crosses([f], [], arrivals, 0, n - 1);
      }
    }
  }

  /** Such a frame: with header and payload it fills the buffer exactly, so the same bytes give
      the frame under one chunking and a full buffer under another. */
  lemma ChunkingDecides()
    ensures var f := Frame(true, 2, seq(MAX_OUTPUT_BYTES - 10, _ => 0), SixtyFour);
            var stream := Wire(f) + seq(RECEIVE_BYTES - 1, _ => 0);
            exists one, other ::
              && ReceiveOk(one) && Quiet(one) && Received(one) == stream && CapHolds([f], [], one)
              && ReceiveOk(other) && Quiet(other) && Received(other) == stream && !CapHolds([f], [], other)
  {
    hide Wire, Received, CapHolds, Quiet, ReceiveOk;
    var f := Frame(true, 2, seq(MAX_OUTPUT_BYTES - 10, _ => 0), SixtyFour);
    var tail := seq(RECEIVE_BYTES - 1, _ => 0);
    WireParts(f, []);
    FitsByteByByte(f, tail);
    OverflowsInOneBlock(f, tail);
  }
}
