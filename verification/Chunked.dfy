/** HTTP chunked bodies (section 7.1 of RFC 9112), decoded the way the script does it:
    Python slices, and chunk sizes read by `int(text, 16)`. */
module Chunked {
  import opened Options
  import opened Bytes

  const SEMICOLON: Byte := 59
  const MINUS: Byte := 45
  const PLUS: Byte := 43
  const UNDERSCORE: Byte := 95

  // ----- int(text, 16)

  predicate IsSpace(x: Byte) {
    9 <= x <= 13 || x == 32
  }

  function HexDigit(x: Byte): Option<nat> {
    if 48 <= x <= 57 then Some(x - 48)
    else if 97 <= x <= 102 then Some(x - 87)
    else if 65 <= x <= 70 then Some(x - 55)
    else None
  }

  function StripLeft(t: Bytes): Bytes {
    if t != [] && IsSpace(t[0]) then StripLeft(t[1..]) else t
  }

  function StripRight(t: Bytes): Bytes {
    if t != [] && IsSpace(t[|t| - 1]) then StripRight(t[..|t| - 1]) else t
  }

  /** Digits with single underscores between them; `value` has been read so far. */
  function Digits(t: Bytes, value: nat, afterDigit: bool): Option<nat> {
    if t == [] then (if afterDigit then Some(value) else None)
    else if t[0] == UNDERSCORE then (if afterDigit then Digits(t[1..], value, false) else None)
    else
      match HexDigit(t[0])
      case Some(d) => Digits(t[1..], value * 16 + d, true)
      case None => None
  }

  function Unsigned(t: Bytes): Option<nat> {
    if |t| >= 2 && t[0] == 48 && (t[1] == 120 || t[1] == 88) then
      Digits(if |t| > 2 && t[2] == UNDERSCORE then t[3..] else t[2..], 0, false)
    else Digits(t, 0, false)
  }

  /** `int(text, 16)`: surrounding space, a sign, a `0x` prefix and underscores are accepted. */
  function ParseInt(text: Bytes): Option<int> {
    Signed(StripRight(StripLeft(text)))
  }

  function Signed(t: Bytes): Option<int> {
    if t != [] && t[0] == MINUS then
      match Unsigned(t[1..])
      case Some(n) => var magnitude: int := n; Some(-magnitude)
      case None => None
    else if t != [] && t[0] == PLUS then Unsigned(t[1..])
    else Unsigned(t)
  }

  // ----- decoding

  /** A Python index into a sequence of the given length. */
  function Index(i: int, length: nat): (k: nat)
    ensures k <= length
    ensures 0 <= i <= length ==> k == i
  {
    if i < 0 then (if i + length < 0 then 0 else i + length)
    else if i > length then length
    else i
  }

  function Slice(v: Bytes, i: int, j: int): Bytes {
    var lo, hi := Index(i, |v|), Index(j, |v|);
    if lo <= hi then v[lo..hi] else []
  }

  predicate CrlfAt(v: Bytes, i: nat) {
    i + 1 < |v| && v[i] == CR && v[i + 1] == LF
  }

  /** The first CRLF at or after `from`. */
  function FindCrlf(v: Bytes, from: nat): (r: Option<nat>)
    ensures r.Some? ==> from <= r.value && CrlfAt(v, r.value)
    ensures r.Some? ==> forall i :: from <= i < r.value ==> !CrlfAt(v, i)
    ensures r.None? ==> forall i :: from <= i ==> !CrlfAt(v, i)
    decreases |v| - from
  {
    if from >= |v| then None
    else if CrlfAt(v, from) then Some(from)
    else FindCrlf(v, from + 1)
  }

  function UpToSemicolon(t: Bytes): Bytes {
    if t == [] || t[0] == SEMICOLON then [] else [t[0]] + UpToSemicolon(t[1..])
  }

  datatype ChunkError = NoSizeDelimiter | InvalidSize | Truncated | NoTrailingCrlf

  /** One pass of the loop: it ends, or it goes on from a new offset with more output. */
  datatype Pass = Finished(body: Bytes) | Rejected(e: ChunkError) | GoesOn(offset: int, output: Bytes, size: int)

  function OnePass(v: Bytes, offset: int, output: Bytes): Pass {
    match FindCrlf(v, Index(offset, |v|))
    case None => Rejected(NoSizeDelimiter)
    case Some(end) =>
      match ParseInt(UpToSemicolon(Slice(v, offset, end)))
      case None => Rejected(InvalidSize)
      case Some(size) => TakeData(v, end + 2, size, output)
  }

  /** The part of the loop body that follows the size. */
  function TakeData(v: Bytes, start: nat, size: int, output: Bytes): Pass {
    if size == 0 then Finished(output)
    else if start + size + 2 > |v| then Rejected(Truncated)
    else if Slice(v, start + size, start + size + 2) != [CR, LF] then Rejected(NoTrailingCrlf)
    else GoesOn(start + size + 2, output + Slice(v, start, start + size), size)
  }

  /** What decoding gives: a body, an error, or nothing ever, because a negative size took
      the loop back to an offset where it had already been. */
  datatype Outcome = Body(bytes: Bytes) | Invalid(e: ChunkError) | NeverReturns

  /** The offsets the loop can reach, counted from the start or from the end. */
  function Offsets(v: Bytes): (r: set<int>)
    ensures forall i :: i in r <==> -|v| <= i <= |v|
  {
    Between(-|v|, |v|)
  }

  function Between(low: int, high: int): (r: set<int>)
    ensures forall i :: i in r <==> low <= i <= high
    decreases high - low
  {
    if high < low then {} else Between(low, high - 1) + {high}
  }

  lemma PassStaysInside(v: Bytes, offset: int, output: Bytes)
    ensures var p := OnePass(v, offset, output); p.GoesOn? ==> p.offset in Offsets(v)
  {
    hide ParseInt, UpToSemicolon;
  }

  /** A positive size moves the offset forward. */
  lemma PassMovesOn(v: Bytes, offset: int, output: Bytes)
    ensures var p := OnePass(v, offset, output);
            p.GoesOn? && p.size > 0 ==> offset < p.offset <= |v|
  {
    hide ParseInt, UpToSemicolon;
  }

  /** Decoding from one offset, after having been at those in `visited`. */
  function Decode(v: Bytes, offset: int, output: Bytes, visited: set<int>): Outcome
    requires offset in Offsets(v)
    decreases Offsets(v) - visited
  {
    if offset in visited then NeverReturns
    else
      PassStaysInside(v, offset, output);
      match OnePass(v, offset, output)
      case Finished(body) => Body(body)
      case Rejected(e) => Invalid(e)
      case GoesOn(next, output', _) => Decode(v, next, output', visited + {offset})
  }

  /** The loop body. */
  method RunPass(v: Bytes, offset: int, output: Bytes) returns (p: Pass)
    ensures p == OnePass(v, offset, output)
  {
    var found := FindCrlf(v, Index(offset, |v|));
    if found.None? {
      return Rejected(NoSizeDelimiter);
    }
    var size := ParseInt(UpToSemicolon(Slice(v, offset, found.value)));
    if size.None? {
      return Rejected(InvalidSize);
    }
    var start := found.value + 2;
    if size.value == 0 {
      return Finished(output);
    }
    if start + size.value + 2 > |v| {
      return Rejected(Truncated);
    }
    var output' := output + Slice(v, start, start + size.value);
    if Slice(v, start + size.value, start + size.value + 2) != [CR, LF] {
      return Rejected(NoTrailingCrlf);
    }
    p := GoesOn(start + size.value + 2, output', size.value);
  }

  /** `decode_chunked`, which stops here where the script would go round for ever. */
  method DecodeChunked(v: Bytes) returns (r: Outcome)
    ensures r == Decode(v, 0, [], {})
    ensures forall chunks, zero, trailer :: Encodable(chunks, zero) && v == Encoded(chunks, zero, trailer) ==> r == Body(Joined(chunks))
  {
    hide OnePass, Encoded, Joined, SizeOk, Placed;
    forall chunks, zero, trailer | Encodable(chunks, zero) && v == Encoded(chunks, zero, trailer)
      ensures Decode(v, 0, [], {}) == Body(Joined(chunks))
    {
      EncodedChunksDecode(chunks, zero, trailer);
    }
    var output: Bytes, offset, visited: set<int> := [], 0, {};
    while offset !in visited
      invariant offset in Offsets(v)
      invariant Decode(v, 0, [], {}) == Decode(v, offset, output, visited)
      decreases Offsets(v) - visited
    {
      PassStaysInside(v, offset, output);
      var p := RunPass(v, offset, output);
      match p {
        case Finished(body) => return Body(body);
        case Rejected(e) => return Invalid(e);
        case GoesOn(offset', output', _) =>
          visited := visited + {offset};
          offset, output := offset', output';
      }
    }
    r := NeverReturns;
  }

  // ----- encoded bodies

  predicate AllHex(t: Bytes) {
    forall i :: 0 <= i < |t| ==> HexDigit(t[i]).Some?
  }

  function HexValue(t: Bytes, value: nat): nat
    requires AllHex(t)
  {
    if t == [] then value else HexValue(t[1..], value * 16 + HexDigit(t[0]).value)
  }

  /** A size line: hex digits in any case and with any leading zeros, and an extension. */
  datatype SizeLine = SizeLine(digits: Bytes, extension: Bytes)

  predicate ValidLine(l: SizeLine) {
    && l.digits != [] && AllHex(l.digits)
    && (l.extension == [] || l.extension[0] == SEMICOLON)
    && forall i: nat :: i < |l.extension| ==> !CrlfAt(l.extension, i)
  }

  datatype Chunk = Chunk(line: SizeLine, data: Bytes)

  predicate ValidChunk(c: Chunk) {
    ValidLine(c.line) && c.data != [] && HexValue(c.line.digits, 0) == |c.data|
  }

  function LineBytes(l: SizeLine): Bytes {
    l.digits + l.extension + [CR, LF]
  }

  function Payload(chunks: seq<Chunk>): Bytes {
    if chunks == [] then [] else chunks[0].data + Payload(chunks[1..])
  }

  lemma {:induction false} DigitsOfHex(t: Bytes, value: nat, afterDigit: bool)
    requires AllHex(t) && (t != [] || afterDigit)
    ensures Digits(t, value, afterDigit) == Some(HexValue(t, value))
  {
    if t != [] {
      DigitsOfHex(t[1..], value * 16 + HexDigit(t[0]).value, true);
    }
  }

  lemma ParseHexDigits(t: Bytes)
    requires t != [] && AllHex(t)
    ensures ParseInt(t) == Some(HexValue(t, 0))
  {
    assert HexDigit(t[0]).Some? && HexDigit(t[|t| - 1]).Some?;
    assert StripRight(StripLeft(t)) == t;
    if |t| >= 2 {
      assert HexDigit(t[1]).Some?;
    }
    DigitsOfHex(t, 0, false);
  }

  lemma {:induction false} SplitAtExtension(digits: Bytes, extension: Bytes)
    requires AllHex(digits) && (extension == [] || extension[0] == SEMICOLON)
    ensures UpToSemicolon(digits + extension) == digits
  {
    if digits == [] {
      assert digits + extension == extension;
    } else {
      assert HexDigit(digits[0]).Some?;
      assert (digits + extension)[1..] == digits[1..] + extension;
      SplitAtExtension(digits[1..], extension);
      assert [digits[0]] + digits[1..] == digits;
    }
  }

  /** `part` is what `v` holds from `n` on. */
  ghost predicate Has(v: Bytes, n: nat, part: Bytes) {
    n + |part| <= |v| && forall k :: 0 <= k < |part| ==> v[n + k] == part[k]
  }

  lemma LineEndsOnce(l: SizeLine)
    requires ValidLine(l)
    ensures CrlfAt(LineBytes(l), |l.digits| + |l.extension|)
    ensures forall i: nat :: i < |l.digits| + |l.extension| ==> !CrlfAt(LineBytes(l), i)
  {
    var line, d := LineBytes(l), |l.digits|;
    forall i: nat | i < d + |l.extension|
      ensures !CrlfAt(line, i)
    {
      if i < d {
        assert line[i] == l.digits[i] && HexDigit(l.digits[i]).Some?;
      } else {
        assert line[i] == l.extension[i - d] && !CrlfAt(l.extension, i - d);
        if i - d + 1 < |l.extension| {
          assert line[i + 1] == l.extension[i - d + 1];
        }
      }
    }
  }

  lemma LineEndIsFound(v: Bytes, n: nat, l: SizeLine)
    requires ValidLine(l) && Has(v, n, LineBytes(l))
    ensures FindCrlf(v, n) == Some(n + |l.digits| + |l.extension|)
  {
    LineEndsOnce(l);
    var line, end := LineBytes(l), n + |l.digits| + |l.extension|;
    assert v[n + (end - n)] == line[end - n] && v[n + (end - n + 1)] == line[end - n + 1];
    assert CrlfAt(v, end);
    forall i | n <= i < end
      ensures !CrlfAt(v, i)
    {
      assert !CrlfAt(line, i - n);
      assert v[n + (i - n)] == line[i - n] && v[n + (i - n + 1)] == line[i - n + 1];
    }
  }

  lemma LineText(v: Bytes, n: nat, l: SizeLine)
    requires Has(v, n, LineBytes(l))
    ensures Slice(v, n, n + |l.digits| + |l.extension|) == l.digits + l.extension
  {
    var text := l.digits + l.extension;
    forall k | 0 <= k < |text|
      ensures v[n + k] == text[k]
    {
      assert text[k] == LineBytes(l)[k];
    }
    assert v[n..n + |text|] == text;
  }

  lemma SizeIsRead(v: Bytes, n: nat, l: SizeLine)
    requires ValidLine(l) && Has(v, n, LineBytes(l))
    ensures ParseInt(UpToSemicolon(Slice(v, n, n + |l.digits| + |l.extension|))) == Some(HexValue(l.digits, 0))
  {
    hide ParseInt, UpToSemicolon, HexValue, Has, LineBytes, Slice, AllHex;
    LineText(v, n, l);
    SplitAtExtension(l.digits, l.extension);
    ParseHexDigits(l.digits);
  }

  lemma LineLength(l: SizeLine)
    ensures |LineBytes(l)| == |l.digits| + |l.extension| + 2
  {
  }

  lemma LineIsRead(v: Bytes, n: nat, l: SizeLine, output: Bytes)
    requires n <= |v| && ValidLine(l) && Has(v, n, LineBytes(l))
    ensures OnePass(v, n, output) == TakeData(v, n + |LineBytes(l)|, HexValue(l.digits, 0), output)
  {
    hide ParseInt, UpToSemicolon, FindCrlf, LineBytes, Has, ValidLine, AllHex, HexValue, TakeData, Slice, Index;
    LineLength(l);
    LineEndIsFound(v, n, l);
    SizeIsRead(v, n, l);
  }

  lemma DataIsTaken(v: Bytes, start: nat, data: Bytes, output: Bytes)
    requires data != [] && Has(v, start, data) && Has(v, start + |data|, [CR, LF])
    ensures TakeData(v, start, |data|, output) == GoesOn(start + |data| + 2, output + data, |data|)
  {
    assert v[start..start + |data|] == data;
    assert v[start + |data|..start + |data| + 2] == [CR, LF] by {
      assert [CR, LF][0] == v[start + |data|] && [CR, LF][1] == v[start + |data| + 1];
    }
  }

  /** One chunk is one pass of the loop. */
  lemma ChunkIsOnePass(v: Bytes, n: nat, c: Chunk, output: Bytes)
    requires n <= |v| && ValidChunk(c) && Has(v, n, LineBytes(c.line))
    requires Has(v, n + |LineBytes(c.line)|, c.data) && Has(v, n + |LineBytes(c.line)| + |c.data|, [CR, LF])
    ensures OnePass(v, n, output) == GoesOn(n + |LineBytes(c.line)| + |c.data| + 2, output + c.data, |c.data|)
    ensures c.data != []
  {
    hide OnePass, TakeData, LineBytes, Has, ValidLine, AllHex, HexValue, Slice, Index;
    LineIsRead(v, n, c.line, output);
    DataIsTaken(v, n + |LineBytes(c.line)|, c.data, output);
  }

  lemma HasSplits(v: Bytes, n: nat, part: Bytes, rest: Bytes)
    requires Has(v, n, part + rest)
    ensures Has(v, n, part) && Has(v, n + |part|, rest)
  {
    forall k | 0 <= k < |part|
      ensures v[n + k] == part[k]
    {
      assert (part + rest)[k] == part[k];
    }
    forall k | 0 <= k < |rest|
      ensures v[n + |part| + k] == rest[k]
    {
      assert (part + rest)[|part| + k] == rest[k];
    }
  }

  lemma ChunksSplit(v: Bytes, n: nat, c: Chunk, after: Bytes)
    requires Has(v, n, LineBytes(c.line) + (c.data + ([CR, LF] + after)))
    ensures Has(v, n, LineBytes(c.line)) && Has(v, n + |LineBytes(c.line)|, c.data)
    ensures Has(v, n + |LineBytes(c.line)| + |c.data|, [CR, LF])
    ensures Has(v, n + |LineBytes(c.line)| + |c.data| + 2, after)
  {
    var m := n + |LineBytes(c.line)|;
    HasSplits(v, n, LineBytes(c.line), c.data + ([CR, LF] + after));
    HasSplits(v, m, c.data, [CR, LF] + after);
    HasSplits(v, m + |c.data|, [CR, LF], after);
  }

  /** A body on the wire: the chunks, the zero chunk, and anything at all. */
  function Message(chunks: seq<Chunk>, zero: SizeLine, trailer: Bytes): Bytes {
    if chunks == [] then LineBytes(zero) + trailer
    else LineBytes(chunks[0].line) + (chunks[0].data + ([CR, LF] + Message(chunks[1..], zero, trailer)))
  }

  lemma {:induction false} MessageDecodes(v: Bytes, n: nat, chunks: seq<Chunk>, zero: SizeLine, trailer: Bytes,
                                          output: Bytes, visited: set<int>)
    requires forall c :: c in chunks ==> ValidChunk(c)
    requires ValidLine(zero) && HexValue(zero.digits, 0) == 0
    requires n <= |v| && Has(v, n, Message(chunks, zero, trailer))
    requires forall o :: o in visited ==> o < n
    ensures Decode(v, n, output, visited) == Body(output + Payload(chunks))
    decreases chunks
  {
    hide Decode, Offsets, OnePass, Has, LineBytes, ValidChunk, ValidLine, HexValue, AllHex;
    if chunks == [] {
      ZeroChunkEnds(v, n, zero, trailer, output, visited);
      assert output + Payload(chunks) == output;
    } else {
      var c, rest := chunks[0], chunks[1..];
      var n' := n + |LineBytes(c.line)| + |c.data| + 2;
      FirstChunkDecodes(v, n, c, Message(rest, zero, trailer), output, visited);
      MessageDecodes(v, n', rest, zero, trailer, output + c.data, visited + {n});
      assert output + c.data + Payload(rest) == output + Payload(chunks);
    }
  }

  lemma FirstChunkDecodes(v: Bytes, n: nat, c: Chunk, after: Bytes, output: Bytes, visited: set<int>)
    requires ValidChunk(c) && n <= |v| && Has(v, n, LineBytes(c.line) + (c.data + ([CR, LF] + after)))
    requires n !in visited
    ensures var n' := n + |LineBytes(c.line)| + |c.data| + 2;
            && n < n' <= |v| && Has(v, n', after)
            && Decode(v, n, output, visited) == Decode(v, n', output + c.data, visited + {n})
  {
    hide Decode, Offsets, OnePass, Has, LineBytes, ValidChunk;
    ChunksSplit(v, n, c, after);
    ChunkIsOnePass(v, n, c, output);
    PassMovesOn(v, n, output);
    PassGoesOn(v, n, output, n + |LineBytes(c.line)| + |c.data| + 2, output + c.data, |c.data|, visited);
  }

  lemma PassGoesOn(v: Bytes, n: nat, output: Bytes, n': nat, output': Bytes, size: nat, visited: set<int>)
    requires n <= |v| && n' <= |v| && n !in visited && OnePass(v, n, output) == GoesOn(n', output', size)
    ensures Decode(v, n, output, visited) == Decode(v, n', output', visited + {n})
  {
    hide OnePass;
  }

  lemma {:induction false} ZeroChunkEnds(v: Bytes, n: nat, zero: SizeLine, trailer: Bytes, output: Bytes, visited: set<int>)
    requires ValidLine(zero) && HexValue(zero.digits, 0) == 0
    requires n <= |v| && Has(v, n, LineBytes(zero) + trailer) && n !in visited
    ensures Decode(v, n, output, visited) == Body(output)
  {
    hide OnePass, Has, LineBytes, ValidLine, HexValue, AllHex;
    HasSplits(v, n, LineBytes(zero), trailer);
    LineIsRead(v, n, zero, output);
  }

  /** Every list of non-empty chunks decodes to the concatenation of their data, whatever
      follows the zero chunk. */
  lemma {:induction false} DecodeRecoversChunks(chunks: seq<Chunk>, zero: SizeLine, trailer: Bytes)
    requires forall c :: c in chunks ==> ValidChunk(c)
    requires ValidLine(zero) && HexValue(zero.digits, 0) == 0
    ensures Decode(Message(chunks, zero, trailer), 0, [], {}) == Body(Payload(chunks))
  {
    MessageDecodes(Message(chunks, zero, trailer), 0, chunks, zero, trailer, [], {});
    assert [] + Payload(chunks) == Payload(chunks);
  }

  // ----- an encoder that writes digits by their place

  /** Digits by place, each in lower or upper case, and an extension. */
  datatype Size = Size(places: seq<nat>, upper: seq<bool>, extension: Bytes)

  predicate SizeOk(s: Size) {
    && s.places != [] && |s.upper| == |s.places| && (forall i :: 0 <= i < |s.places| ==> s.places[i] < 16)
    && (s.extension == [] || s.extension[0] == 59)
    && forall i: nat :: i + 1 < |s.extension| ==> !(s.extension[i] == 13 && s.extension[i + 1] == 10)
  }

  /** What the places stand for, after `value` has been read. */
  function Placed(places: seq<nat>, value: nat): nat {
    if places == [] then value else Placed(places[1..], value * 16 + places[0])
  }

  function Written(place: nat, upper: bool): Byte
    requires place < 16
  {
    if upper then Ascii("0123456789ABCDEF")[place] else Ascii("0123456789abcdef")[place]
  }

  function Text(s: Size): (t: Bytes)
    requires SizeOk(s)
    ensures |t| == |s.places| && forall i :: 0 <= i < |t| ==> t[i] == Written(s.places[i], s.upper[i])
  {
    seq(|s.places|, i requires 0 <= i < |s.places| => Written(s.places[i], s.upper[i]))
  }

  predicate AllSizesOk(chunks: seq<(Size, Bytes)>, zero: Size) {
    SizeOk(zero) && forall i :: 0 <= i < |chunks| ==> SizeOk(chunks[i].0)
  }

  /** No chunk is empty, and each size says how long its chunk is. */
  ghost predicate Encodable(chunks: seq<(Size, Bytes)>, zero: Size) {
    && AllSizesOk(chunks, zero) && Placed(zero.places, 0) == 0
    && forall i :: 0 <= i < |chunks| ==> chunks[i].1 != [] && Placed(chunks[i].0.places, 0) == |chunks[i].1|
  }

  /** A chunked body on the wire: each chunk with its size, the zero chunk, and anything. */
  function Encoded(chunks: seq<(Size, Bytes)>, zero: Size, trailer: Bytes): Bytes
    requires AllSizesOk(chunks, zero)
  {
    if chunks == [] then Text(zero) + zero.extension + [13, 10] + trailer
    else Text(chunks[0].0) + chunks[0].0.extension + [13, 10]
         + (chunks[0].1 + ([13, 10] + Encoded(chunks[1..], zero, trailer)))
  }

  function Joined(chunks: seq<(Size, Bytes)>): Bytes {
    if chunks == [] then [] else chunks[0].1 + Joined(chunks[1..])
  }

  lemma WrittenIsRead(place: nat, upper: bool)
    requires place < 16
    ensures HexDigit(Written(place, upper)) == Some(place)
  {
    var lower, capital := "0123456789abcdef", "0123456789ABCDEF";
    assert lower[place] as int == if place < 10 then 48 + place else 87 + place;
    assert capital[place] as int == if place < 10 then 48 + place else 55 + place;
  }

  lemma {:induction false} TextIsRead(t: Bytes, places: seq<nat>, upper: seq<bool>, value: nat)
    requires |t| == |places| == |upper| && forall i :: 0 <= i < |t| ==> places[i] < 16 && t[i] == Written(places[i], upper[i])
    ensures AllHex(t) && HexValue(t, value) == Placed(places, value)
  {
    hide Written, HexDigit;
    if t != [] {
      WrittenIsRead(places[0], upper[0]);
      TextIsRead(t[1..], places[1..], upper[1..], value * 16 + places[0]);
      forall i | 0 <= i < |t|
        ensures HexDigit(t[i]).Some?
      {
        WrittenIsRead(places[i], upper[i]);
      }
    }
  }

  function AsLine(s: Size): SizeLine
    requires SizeOk(s)
  {
    SizeLine(Text(s), s.extension)
  }

  lemma SizeIsLine(s: Size)
    requires SizeOk(s)
    ensures ValidLine(AsLine(s)) && HexValue(Text(s), 0) == Placed(s.places, 0)
    ensures Text(s) + s.extension + [13, 10] == LineBytes(AsLine(s))
  {
    hide Written, HexDigit;
    TextIsRead(Text(s), s.places, s.upper, 0);
  }

  function AsChunks(chunks: seq<(Size, Bytes)>): (r: seq<Chunk>)
    requires forall i :: 0 <= i < |chunks| ==> SizeOk(chunks[i].0)
    ensures |r| == |chunks| && forall i :: 0 <= i < |r| ==> r[i] == Chunk(AsLine(chunks[i].0), chunks[i].1)
  {
    seq(|chunks|, i requires 0 <= i < |chunks| => Chunk(AsLine(chunks[i].0), chunks[i].1))
  }

  lemma {:induction false} EncodedIsMessage(chunks: seq<(Size, Bytes)>, zero: Size, trailer: Bytes)
    requires AllSizesOk(chunks, zero)
    ensures Encoded(chunks, zero, trailer) == Message(AsChunks(chunks), AsLine(zero), trailer)
    ensures Joined(chunks) == Payload(AsChunks(chunks))
  {
    hide SizeOk, Text, LineBytes, AsLine;
    if chunks == [] {
      SizeIsLine(zero);
    } else {
      SizeIsLine(chunks[0].0);
      EncodedIsMessage(chunks[1..], zero, trailer);
      assert AsChunks(chunks)[1..] == AsChunks(chunks[1..]);
    }
  }

  /** The data of every encoded list of non-empty chunks comes back, whatever the spelling of
      the sizes and whatever follows the zero chunk. */
  lemma {:induction false} EncodedChunksDecode(chunks: seq<(Size, Bytes)>, zero: Size, trailer: Bytes)
    requires Encodable(chunks, zero)
    ensures Decode(Encoded(chunks, zero, trailer), 0, [], {}) == Body(Joined(chunks))
  {
    hide Decode, SizeOk, Text, Placed, HexValue, LineBytes, ValidLine, AllHex, Message, Encoded, Joined, Payload;
    EncodedIsMessage(chunks, zero, trailer);
    SizeIsLine(zero);
    forall c | c in AsChunks(chunks)
      ensures ValidChunk(c)
    {
      var i :| 0 <= i < |chunks| && c == AsChunks(chunks)[i];
      SizeIsLine(chunks[i].0);
    }
    DecodeRecoversChunks(AsChunks(chunks), AsLine(zero), trailer);
  }

  /** Every length can be written. */
  function Places(n: nat): (places: seq<nat>)
    ensures places != [] && forall i :: 0 <= i < |places| ==> places[i] < 16
  {
    if n < 16 then [n] else Places(n / 16) + [n % 16]
  }

  lemma {:induction false} PlacedLast(places: seq<nat>, last: nat, value: nat)
    ensures Placed(places + [last], value) == Placed(places, value) * 16 + last
  {
    if places == [] {
      assert places + [last] == [last] && [last][1..] == [];
      assert Placed([last], value) == Placed([last][1..], value * 16 + last);
    } else {
      assert (places + [last])[1..] == places[1..] + [last];
      PlacedLast(places[1..], last, value * 16 + places[0]);
    }
  }

  lemma {:induction false} PlacesStandFor(n: nat)
    ensures Placed(Places(n), 0) == n
  {
    if n < 16 {
      assert Places(n)[1..] == [];
      assert Placed(Places(n), 0) == Placed(Places(n)[1..], 0 * 16 + n);
    } else {
      PlacesStandFor(n / 16);
      PlacedLast(Places(n / 16), n % 16, 0);
    }
  }

  // ----- what `int(text, 16)` and slices accept beyond that

  predicate Blank(t: Bytes) {
    forall i :: 0 <= i < |t| ==> t[i] in {9, 10, 11, 12, 13, 32}
  }

  lemma {:induction false} LeftBlanksGo(blank: Bytes, t: Bytes)
    requires Blank(blank) && t != [] && !IsSpace(t[0])
    ensures StripLeft(blank + t) == t
  {
    if blank == [] {
      assert blank + t == t;
    } else {
      assert (blank + t)[1..] == blank[1..] + t;
      LeftBlanksGo(blank[1..], t);
    }
  }

  lemma {:induction false} RightBlanksGo(t: Bytes, blank: Bytes)
    requires Blank(blank) && t != [] && !IsSpace(t[|t| - 1])
    ensures StripRight(t + blank) == t
  {
    if blank == [] {
      assert t + blank == t;
    } else {
      var n := |blank| - 1;
      assert (t + blank)[..|t + blank| - 1] == t + blank[..n];
      RightBlanksGo(t, blank[..n]);
    }
  }

  datatype Sign = NoSign | Plus | Minus

  function SignText(sign: Sign): Bytes {
    match sign case NoSign => [] case Plus => [43] case Minus => [45]
  }

  lemma BlanksGo(left: Bytes, core: Bytes, right: Bytes)
    requires Blank(left) && Blank(right) && core != [] && !IsSpace(core[0]) && !IsSpace(core[|core| - 1])
    ensures ParseInt(left + (core + right)) == Signed(core)
  {
    hide StripLeft, StripRight, Signed;
    LeftBlanksGo(left, core + right);
    RightBlanksGo(core, right);
  }

  lemma SignIsRead(sign: Sign, unsigned: Bytes)
    requires unsigned != [] && unsigned[0] != MINUS && unsigned[0] != PLUS
    ensures Signed(SignText(sign) + unsigned) ==
            match Unsigned(unsigned)
            case Some(n) => Some(if sign.Minus? then -(n as int) else n)
            case None => None
  {
    hide Unsigned;
    var t := SignText(sign) + unsigned;
    assert sign.NoSign? ==> t == unsigned;
    assert !sign.NoSign? ==> t[1..] == unsigned;
  }

  function Prefixed(prefix: bool, digits: Bytes): Bytes {
    (if prefix then [48, 120] else []) + digits
  }

  /** Blanks around it, a sign and a prefix change only the sign of the number. */
  lemma IntIsRead(left: Bytes, sign: Sign, prefix: bool, s: Size, right: Bytes)
    requires Blank(left) && Blank(right) && SizeOk(s)
    ensures ParseInt(left + ((SignText(sign) + Prefixed(prefix, Text(s))) + right)) ==
            Some(if sign.Minus? then -(Placed(s.places, 0) as int) else Placed(s.places, 0))
  {
    hide Text, ParseInt, Signed, Unsigned, Placed, HexValue, SignText, Prefixed, AllHex;
    TextIsRead(Text(s), s.places, s.upper, 0);
    SignedEnds(sign, prefix, Text(s));
    BlanksGo(left, SignText(sign) + Prefixed(prefix, Text(s)), right);
    SignIsRead(sign, Prefixed(prefix, Text(s)));
    UnsignedIsRead(prefix, Text(s));
  }

  /** A signed number begins with its sign and ends in a digit. */
  lemma SignedEnds(sign: Sign, prefix: bool, digits: Bytes)
    requires digits != [] && AllHex(digits)
    ensures var unsigned := Prefixed(prefix, digits);
            var signed := SignText(sign) + unsigned;
            && unsigned != [] && unsigned[0] != MINUS && unsigned[0] != PLUS
            && signed != [] && !IsSpace(signed[0]) && !IsSpace(signed[|signed| - 1])
  {
    var unsigned := Prefixed(prefix, digits);
    var signed := SignText(sign) + unsigned;
    assert HexDigit(digits[|digits| - 1]).Some? && HexDigit(digits[0]).Some?;
    assert signed[|signed| - 1] == digits[|digits| - 1];
    assert unsigned[0] == if prefix then 48 else digits[0];
  }

  lemma UnsignedIsRead(prefix: bool, digits: Bytes)
    requires digits != [] && AllHex(digits)
    ensures Unsigned(Prefixed(prefix, digits)) == Some(HexValue(digits, 0))
  {
    hide Digits, HexValue;
    DigitsOfHex(digits, 0, false);
    var t := Prefixed(prefix, digits);
    if prefix {
      assert t[2..] == digits && HexDigit(digits[0]).Some?;
    } else {
      assert t == digits;
      if |digits| >= 2 {
        assert HexDigit(digits[1]).Some?;
      }
    }
  }

  /** A slice counts negative indices from the end, as Python does. */
  lemma SliceFromEnd(v: Bytes, i: int, j: int)
    requires 0 < j <= i <= |v|
    ensures Slice(v, -i, -j) == v[|v| - i..|v| - j] && Slice(v, -i, |v|) == v[|v| - i..]
    ensures Slice(v, -|v| - i, |v|) == v && Slice(v, 0, |v| + i) == v
  {
  }

  /** What a pass rejects after a size that it can read, and when it ends. */
  lemma PassErrors(v: Bytes, n: nat, l: SizeLine, output: Bytes)
    requires n <= |v| && ValidLine(l) && Has(v, n, LineBytes(l))
    ensures var start, size := n + |LineBytes(l)|, HexValue(l.digits, 0);
            var p := OnePass(v, n, output);
            && (size == 0 <==> p == Finished(output))
            && (size > 0 && |v| < start + size + 2 <==> p == Rejected(Truncated))
            && (size > 0 && start + size + 2 <= |v| && !CrlfAt(v, start + size) <==> p == Rejected(NoTrailingCrlf))
  {
    hide OnePass, LineBytes, Has, AllHex, HexValue;
    LineIsRead(v, n, l, output);
    var start, size := n + |LineBytes(l)|, HexValue(l.digits, 0);
    if start + size + 2 <= |v| {
      var slice := v[start + size..start + size + 2];
      assert slice == [v[start + size], v[start + size + 1]];
    }
  }

  /** And before it. */
  lemma NoSizeErrors(v: Bytes, n: nat, output: Bytes)
    requires n <= |v|
    ensures OnePass(v, n, output) == Rejected(NoSizeDelimiter) <==> forall i :: n <= i ==> !CrlfAt(v, i)
    ensures OnePass(v, n, output) == Rejected(InvalidSize) <==> FindCrlf(v, n).Some? && ParseInt(SizeText(v, n)).None?
  {
    hide ParseInt, UpToSemicolon;
  }

  // ----- termination

  lemma {:induction false} StripKeepsBytes(t: Bytes, x: Byte)
    requires x !in t
    ensures x !in StripLeft(t)
    ensures x !in StripRight(t)
  {
    if t != [] {
      StripKeepsBytes(t[1..], x);
      StripKeepsBytes(t[..|t| - 1], x);
    }
  }

  lemma {:induction false} UpToSemicolonIsPart(t: Bytes, x: Byte)
    requires x !in t
    ensures x !in UpToSemicolon(t)
  {
    if t != [] {
      UpToSemicolonIsPart(t[1..], x);
    }
  }

  lemma NoMinusNotNegative(text: Bytes)
    requires MINUS !in text
    ensures ParseInt(text).Some? ==> ParseInt(text).value >= 0
  {
    StripKeepsBytes(text, MINUS);
    StripKeepsBytes(StripLeft(text), MINUS);
  }

  /** The text of the size read at an offset. */
  function SizeText(v: Bytes, offset: int): Bytes {
    match FindCrlf(v, Index(offset, |v|))
    case None => []
    case Some(end) => UpToSemicolon(Slice(v, offset, end))
  }

  /** Where one pass leads; the output has no say in it. */
  function Next(v: Bytes, offset: int): Option<int> {
    match OnePass(v, offset, [])
    case GoesOn(next, _, _) => Some(next)
    case _ => None
  }

  lemma OutputDoesNotSteer(v: Bytes, offset: int, output: Bytes)
    ensures match OnePass(v, offset, output)
            case GoesOn(next, _, _) => Next(v, offset) == Some(next)
            case _ => Next(v, offset) == None
  {
    hide ParseInt, UpToSemicolon, Slice, TakeData, FindCrlf, Index;
    var found := FindCrlf(v, Index(offset, |v|));
    if found.Some? {
      var size := ParseInt(UpToSemicolon(Slice(v, offset, found.value)));
      if size.Some? {
        DataDoesNotSteer(v, found.value + 2, size.value, output);
      }
    }
  }

  lemma DataDoesNotSteer(v: Bytes, start: nat, size: int, output: Bytes)
    ensures match TakeData(v, start, size, output)
            case GoesOn(next, _, _) => var p := TakeData(v, start, size, []); p.GoesOn? && p.offset == next
            case _ => !TakeData(v, start, size, []).GoesOn?
  {
    hide Slice;
  }

  /** Where `n` steps from the start lead, while each leads somewhere. */
  function Path(step: int -> Option<int>, n: nat): Option<int> {
    if n == 0 then Some(0)
    else
      match Path(step, n - 1)
      case None => None
      case Some(at) => step(at)
  }

  lemma {:induction false} StoppedStaysStopped(step: int -> Option<int>, m: nat, n: nat)
    requires m <= n && Path(step, n).Some?
    ensures Path(step, m).Some?
    decreases n
  {
    if m < n {
      StoppedStaysStopped(step, m, n - 1);
    }
  }

  lemma {:induction false} SamePlaceSamePath(step: int -> Option<int>, m: nat, k: nat, d: nat)
    requires Path(step, m) == Path(step, k)
    ensures Path(step, m + d) == Path(step, k + d)
  {
    if d > 0 {
      SamePlaceSamePath(step, m, k, d - 1);
    }
  }

  /** Back at a place where it has been, a path never ends. */
  lemma {:induction false} RevisitLoops(step: int -> Option<int>, m: nat, k: nat, n: nat)
    requires m < k && Path(step, m) == Path(step, k) && Path(step, k).Some?
    ensures Path(step, n).Some?
    decreases n
  {
    if n <= k {
      StoppedStaysStopped(step, n, k);
    } else {
      SamePlaceSamePath(step, m, k, n - k);
      RevisitLoops(step, m, k, n - (k - m));
    }
  }

  ghost predicate Been(step: int -> Option<int>, n: nat, at: int) {
    exists m: nat :: m < n && Path(step, m) == Some(at)
  }

  lemma {:induction false} BeenOneMore(step: int -> Option<int>, n: nat, at: int)
    requires Path(step, n).Some?
    ensures Been(step, n + 1, at) <==> Been(step, n, at) || Path(step, n) == Some(at)
  {
    if Path(step, n) == Some(at) {
      assert n < n + 1;
    }
    if Been(step, n, at) {
      var m: nat :| m < n && Path(step, m) == Some(at);
      assert m < n + 1;
    }
  }

  /** The offset after `n` passes of the loop, while it goes on. */
  function OffsetAt(v: Bytes, n: nat): Option<int> {
    Path(offset => Next(v, offset), n)
  }

  ghost predicate GoesOnForEver(v: Bytes) {
    forall n: nat :: OffsetAt(v, n).Some?
  }

  lemma StopsAt(v: Bytes, n: nat)
    requires OffsetAt(v, n).None?
    ensures !GoesOnForEver(v)
  {
  }

  lemma {:induction false} OutcomeTellsTheEnd(v: Bytes, n: nat, offset: int, output: Bytes, visited: set<int>)
    requires offset in Offsets(v) && OffsetAt(v, n) == Some(offset)
    requires forall o :: o in visited <==> Been(x => Next(v, x), n, o)
    ensures Decode(v, offset, output, visited) == NeverReturns <==> GoesOnForEver(v)
    decreases Offsets(v) - visited
  {
    hide OnePass, Next;
    var step := x => Next(v, x);
    if offset in visited {
      var m: nat :| m < n && Path(step, m) == Some(offset);
      forall k: nat
        ensures OffsetAt(v, k).Some?
      {
        RevisitLoops(step, m, n, k);
      }
    } else {
      PassStaysInside(v, offset, output);
      OutputDoesNotSteer(v, offset, output);
      var p := OnePass(v, offset, output);
      assert OffsetAt(v, n + 1) == Next(v, offset);
      if p.GoesOn? {
        forall o
          ensures o in visited + {offset} <==> Been(step, n + 1, o)
        {
          BeenOneMore(step, n, o);
        }
        OutcomeTellsTheEnd(v, n + 1, p.offset, p.output, visited + {offset});
        assert Decode(v, offset, output, visited) == Decode(v, p.offset, p.output, visited + {offset});
      } else {
        StopsAt(v, n + 1);
      }
    }
  }

  lemma {:induction false} BetweenCounts(low: int, high: int)
    requires low <= high + 1
    ensures |Between(low, high)| == high + 1 - low
    decreases high - low
  {
    if low <= high {
      BetweenCounts(low, high - 1);
    }
  }

  /** A decoder that returns does so before it runs out of offsets it has not been at. */
  lemma {:induction false} ReturnsSoon(v: Bytes, n: nat, offset: int, output: Bytes, visited: set<int>)
    requires offset in Offsets(v) && OffsetAt(v, n) == Some(offset)
    requires Decode(v, offset, output, visited) != NeverReturns
    ensures OffsetAt(v, n + |Offsets(v) - visited|).None?
    decreases Offsets(v) - visited
  {
    hide OnePass, Next, Offsets, Path;
    PassStaysInside(v, offset, output);
    OutputDoesNotSteer(v, offset, output);
    NextOffset(v, n);
    OneFewer(Offsets(v), visited, offset);
    var p := OnePass(v, offset, output);
    if p.GoesOn? {
      ReturnsSoon(v, n + 1, p.offset, p.output, visited + {offset});
    } else {
      StaysStopped(v, n + 1, n + |Offsets(v) - visited|);
    }
  }

  lemma NextOffset(v: Bytes, n: nat)
    requires OffsetAt(v, n).Some?
    ensures OffsetAt(v, n + 1) == Next(v, OffsetAt(v, n).value)
  {
    hide Next;
  }

  lemma StaysStopped(v: Bytes, m: nat, n: nat)
    requires m <= n && OffsetAt(v, m).None?
    ensures OffsetAt(v, n).None?
  {
    hide Next, Path;
    if OffsetAt(v, n).Some? {
      StoppedStaysStopped(x => Next(v, x), m, n);
    }
  }

  lemma OneFewer(all: set<int>, visited: set<int>, x: int)
    requires x in all && x !in visited
    ensures |all - (visited + {x})| == |all - visited| - 1
  {
    assert all - (visited + {x}) == (all - visited) - {x};
  }

  /** The decoder fails to return exactly when the loop is still going after one pass for each
      offset there is, and then it goes on after every pass. */
  lemma {:induction false} NeverReturnsExactly(v: Bytes)
    ensures Decode(v, 0, [], {}) == NeverReturns <==> OffsetAt(v, 2 * |v| + 1).Some?
    ensures Decode(v, 0, [], {}) == NeverReturns <==> GoesOnForEver(v)
  {
    hide OnePass, Next, Decode;
    OutcomeTellsTheEnd(v, 0, 0, [], {});
    BetweenCounts(-|v|, |v|);
    assert Offsets(v) - {} == Offsets(v);
    if Decode(v, 0, [], {}) != NeverReturns {
      ReturnsSoon(v, 0, 0, [], {});
    }
  }

  /** Pass number `n` reads a negative size and goes on. */
  ghost predicate NegativeAt(v: Bytes, n: nat) {
    && OffsetAt(v, n).Some?
    && var p := OnePass(v, OffsetAt(v, n).value, []);
    p.GoesOn? && p.size < 0
  }

  lemma PositiveMovesOn(v: Bytes, n: nat)
    requires OffsetAt(v, n + 1).Some? && !NegativeAt(v, n)
    ensures OffsetAt(v, n).Some? && OffsetAt(v, n).value < OffsetAt(v, n + 1).value
  {
    hide OnePass;
    StoppedStaysStopped(x => Next(v, x), n, n + 1);
    var offset := OffsetAt(v, n).value;
    PassMovesOn(v, offset, []);
    ZeroDoesNotGoOn(v, offset, []);
  }

  lemma ZeroDoesNotGoOn(v: Bytes, offset: int, output: Bytes)
    ensures var p := OnePass(v, offset, output); p.GoesOn? ==> p.size != 0
  {
    hide ParseInt, UpToSemicolon;
  }

  lemma {:induction false} PositiveKeepsMoving(v: Bytes, m: nat, k: nat)
    requires m < k && OffsetAt(v, k).Some? && forall n :: m <= n < k ==> !NegativeAt(v, n)
    ensures OffsetAt(v, m).Some? && OffsetAt(v, m).value < OffsetAt(v, k).value
    decreases k
  {
    hide NegativeAt, OffsetAt;
    PositiveMovesOn(v, k - 1);
    if m < k - 1 {
      PositiveKeepsMoving(v, m, k - 1);
    }
  }

  /** Every way round the loop goes through a negative size. */
  lemma {:induction false} EveryCycleHasNegativeSize(v: Bytes, m: nat, k: nat)
    requires m < k && OffsetAt(v, k).Some? && OffsetAt(v, m) == OffsetAt(v, k)
    ensures exists n :: m <= n < k && NegativeAt(v, n)
  {
    hide NegativeAt, OffsetAt;
    if forall n :: m <= n < k ==> !NegativeAt(v, n) {
      PositiveKeepsMoving(v, m, k);
    }
  }

  lemma UnsignedMovesOn(v: Bytes, offset: nat)
    requires MINUS !in SizeText(v, offset)
    ensures Next(v, offset).Some? ==> offset < Next(v, offset).value <= |v|
  {
    hide ParseInt, UpToSemicolon;
    PassMovesOn(v, offset, []);
    NoMinusNotNegative(SizeText(v, offset));
  }

  lemma {:induction false} OffsetGrows(v: Bytes, n: nat)
    requires forall k: nat :: k < n && OffsetAt(v, k).Some? ==> MINUS !in SizeText(v, OffsetAt(v, k).value)
    ensures OffsetAt(v, n).Some? ==> n <= OffsetAt(v, n).value <= |v|
  {
    hide SizeText, Next;
    if n > 0 && OffsetAt(v, n).Some? {
      OffsetGrows(v, n - 1);
      UnsignedMovesOn(v, OffsetAt(v, n - 1).value);
    }
  }

  /** Where no size that is read has a minus sign, the offset grows and the decoder returns. */
  lemma {:induction false} UnsignedSizesReturn(v: Bytes)
    requires forall n: nat :: OffsetAt(v, n).Some? ==> MINUS !in SizeText(v, OffsetAt(v, n).value)
    ensures Decode(v, 0, [], {}) != NeverReturns
  {
    hide SizeText, Decode, Next;
    NeverReturnsExactly(v);
    OffsetGrows(v, |v| + 1);
    StopsAt(v, |v| + 1);
  }

  lemma SizeTextIsPart(v: Bytes, offset: int, x: Byte)
    requires x !in v
    ensures x !in SizeText(v, offset)
  {
    hide UpToSemicolon;
    var found := FindCrlf(v, Index(offset, |v|));
    if found.Some? {
      UpToSemicolonIsPart(Slice(v, offset, found.value), x);
    }
  }

  /** So it returns on every input without a minus sign. */
  lemma {:induction false} NoMinusReturns(v: Bytes)
    requires MINUS !in v
    ensures Decode(v, 0, [], {}) != NeverReturns
  {
    hide Decode, SizeText, OffsetAt;
    forall n: nat | OffsetAt(v, n).Some?
      ensures MINUS !in SizeText(v, OffsetAt(v, n).value)
    {
      SizeTextIsPart(v, OffsetAt(v, n).value, MINUS);
    }
    UnsignedSizesReturn(v);
  }

  /** With a minus sign it may not: this input holds the loop at offset six for ever. */
  lemma NegativeSizeLoopsForEver()
    ensures Decode(Endless(), 0, [], {}) == NeverReturns
  {
    hide Decode, OnePass;
    var v := Endless();
    FirstChunkOfEndless();
    OutputDoesNotSteer(v, 0, []);
    BackToSix();
    OutputDoesNotSteer(v, 6, [65]);
    assert OffsetAt(v, 0) == Some(0);
    assert OffsetAt(v, 1) == Some(6);
    assert OffsetAt(v, 2) == Some(6);
    forall n: nat
      ensures OffsetAt(v, n).Some?
    {
      RevisitLoops(offset => Next(v, offset), 1, 2, n);
    }
    NeverReturnsExactly(v);
  }

  lemma FirstChunkOfEndless()
    ensures OnePass(Endless(), 0, []) == GoesOn(6, [65], 1)
  {
    var v, c := Endless(), Chunk(SizeLine([49], []), [65]);
    assert HexValue([49], 0) == 1;
    assert LineBytes(c.line) == [49, 13, 10] && v[0..3] == [49, 13, 10] && v[3..4] == [65] && v[4..6] == [CR, LF];
    ChunkIsOnePass(v, 0, c, []);
    assert [] + [65] == [65];
  }

  /** A one-byte chunk and then the size line `-6`. */
  function Endless(): Bytes {
    [49, 13, 10, 65, 13, 10, 45, 54, 13, 10]
  }

  lemma BackToSix()
    ensures OnePass(Endless(), 6, [65]) == GoesOn(6, [65], -6)
  {
    var v := Endless();
    assert !CrlfAt(v, 6) && !CrlfAt(v, 7) && CrlfAt(v, 8);
    assert FindCrlf(v, 6) == Some(8);
    assert v[6..8] == [45, 54] && v[4..6] == [CR, LF];
    assert Slice(v, 6, 8) == [45, 54];
    assert UpToSemicolon([45, 54]) == [45, 54] by {
      assert [45, 54][1..] == [54];
      assert UpToSemicolon([54]) == [54];
    }
    assert StripRight(StripLeft([45, 54])) == [45, 54];
    assert [45, 54][1..] == [54];
    assert Unsigned([54]) == Some(6) by {
      DigitsOfHex([54], 0, false);
      assert HexValue([54], 0) == 6;
    }
    assert Slice(v, 4, 6) == [CR, LF];
    assert Slice(v, 10, 4) == [];
  }
}
