/** The last lines of a log, read from a bounded tail of the file: lossy UTF-8 decoding,
    line splitting and per-line bounding. */
module LogTail {
  import opened Bytes

  const REPLACEMENT: char := '\U{FFFD}'
  const LINE_CHARACTERS: nat := 4096
  const MARKER := "...[truncated]"
  const TAIL_BYTES: nat := 64 * 1024

  // ----- lossy decoding

  function At(b: Bytes, i: nat): Byte {
    if i < |b| then b[i] else 0
  }

  predicate Continues(x: Byte) {
    0x80 <= x <= 0xBF
  }

  /** Whether `y` may follow the lead byte `x` of a three- or four-byte character. */
  predicate SecondOk(x: Byte, y: Byte) {
    if x == 0xE0 then 0xA0 <= y <= 0xBF
    else if x == 0xED then 0x80 <= y <= 0x9F
    else if x == 0xF0 then 0x90 <= y <= 0xBF
    else if x == 0xF4 then 0x80 <= y <= 0x8F
    else Continues(y)
  }

  /** Six more bits of a scalar value. */
  function More(bits: int, y: Byte): int {
    bits * 64 + (y - 0x80)
  }

  /** The first character of a non-empty string and the bytes it takes; an ill-formed
      sequence gives one replacement character for its longest well-formed start. */
  function First(b: Bytes): (char, nat)
    requires b != []
  {
    var x := b[0];
    if x < 0x80 then (x as char, 1)
    else if 0xC2 <= x <= 0xDF then
      if Continues(At(b, 1)) then (More(x - 0xC0, b[1]) as char, 2) else (REPLACEMENT, 1)
    else if 0xE0 <= x <= 0xEF then
      if !SecondOk(x, At(b, 1)) then (REPLACEMENT, 1)
      else if !Continues(At(b, 2)) then (REPLACEMENT, 2)
      else (More(More(x - 0xE0, b[1]), b[2]) as char, 3)
    else if 0xF0 <= x <= 0xF4 then
      if !SecondOk(x, At(b, 1)) then (REPLACEMENT, 1)
      else if !Continues(At(b, 2)) then (REPLACEMENT, 2)
      else if !Continues(At(b, 3)) then (REPLACEMENT, 3)
      else (More(More(More(x - 0xF0, b[1]), b[2]), b[3]) as char, 4)
    else (REPLACEMENT, 1)
  }

  lemma FirstTakesSome(b: Bytes)
    requires b != []
    ensures 1 <= First(b).1 <= |b|
  {
  }

  function Decode(b: Bytes): string {
    if b == [] then []
    else
      FirstTakesSome(b);
      var (c, n) := First(b);
      [c] + Decode(b[n..])
  }

  /** A line feed looks to the decoder like the end of the input. */
  lemma FirstStopsAtLineFeed(a: Bytes, b: Bytes)
    requires a != []
    ensures First(a + [LF] + b) == First(a)
  {
    var whole := a + [LF] + b;
    assert forall i :: 0 <= i < |a| ==> whole[i] == a[i];
    assert whole[|a|] == LF;
  }

  lemma {:induction false} DecodeSplitsAtLineFeed(a: Bytes, b: Bytes)
    ensures Decode(a + [LF] + b) == Decode(a) + ['\n'] + Decode(b)
    decreases |a|
  {
    var whole := a + [LF] + b;
    if a == [] {
      assert whole[1..] == b;
    } else {
      FirstStopsAtLineFeed(a, b);
      FirstTakesSome(a);
      var n := First(a).1;
      assert whole[n..] == a[n..] + [LF] + b;
      DecodeSplitsAtLineFeed(a[n..], b);
    }
  }

  // ----- lines

  /** The index of the first line feed, or the length. */
  function LineEnd(text: string): (p: nat)
    ensures p <= |text|
    ensures p < |text| ==> text[p] == '\n'
    ensures forall i :: 0 <= i < p ==> text[i] != '\n'
  {
    if text == [] || text[0] == '\n' then 0 else 1 + LineEnd(text[1..])
  }

  function StripReturn(line: string): string {
    if line != [] && line[|line| - 1] == '\r' then line[..|line| - 1] else line
  }

  /** `str::lines`: a terminated line loses its line feed and one carriage return before
      it; an unterminated last line is kept as it is. */
  function Lines(text: string): seq<string>
    decreases |text|
  {
    var p := LineEnd(text);
    if text == [] then []
    else if p == |text| then [text]
    else [StripReturn(text[..p])] + Lines(text[p + 1..])
  }

  lemma LineEndUnique(text: string, p: nat)
    requires p < |text| && text[p] == '\n' && forall i :: 0 <= i < p ==> text[i] != '\n'
    ensures LineEnd(text) == p
  {
  }

  /** One terminated line, then the rest. */
  lemma LinesOfLine(line: string, rest: string)
    requires '\n' !in line
    ensures Lines(line + ['\n'] + rest) == [StripReturn(line)] + Lines(rest)
  {
    var text := line + ['\n'] + rest;
    LineEndUnique(text, |line|);
    assert text[..|line|] == line && text[|line| + 1..] == rest;
  }

  lemma {:induction false} LinesSplitAtLineFeed(u: string, v: string)
    ensures Lines(u + ['\n'] + v) == Lines(u + ['\n']) + Lines(v)
    decreases |u|
  {
    hide Lines, StripReturn;
    var p := LineEnd(u);
    if p == |u| {
      LinesOfLine(u, v);
      LinesOfLine(u, []);
      NoLines();
      assert u + ['\n'] + [] == u + ['\n'];
    } else {
      var line, more := u[..p], u[p + 1..];
      assert u + ['\n'] + v == line + ['\n'] + (more + ['\n'] + v);
      assert u + ['\n'] == line + ['\n'] + (more + ['\n']);
      LinesOfLine(line, more + ['\n'] + v);
      LinesOfLine(line, more + ['\n']);
      LinesSplitAtLineFeed(more, v);
    }
  }

  lemma NoLines()
    ensures Lines([]) == []
  {
  }

  // ----- bounding

  predicate IsControl(c: char) {
    c < ' ' || '\U{7F}' <= c <= '\U{9F}'
  }

  function Bounded(line: string): (b: string)
    ensures |b| <= LINE_CHARACTERS + |MARKER|
    ensures forall i :: 0 <= i < |b| ==> !IsControl(b[i])
    ensures |line| <= 4096 ==> |b| == |line|
    ensures |line| > 4096 ==> |b| == 4096 + 14 && b[4096..] == "...[truncated]"
    ensures forall i :: 0 <= i < |line| && i < 4096 ==>
                          b[i] == if line[i] as int < 32 || 127 <= line[i] as int < 160 then '\U{FFFD}' else line[i]
  {
    var kept := if |line| <= LINE_CHARACTERS then |line| else LINE_CHARACTERS;
    var shown := seq(kept, i requires 0 <= i < kept => if IsControl(line[i]) then REPLACEMENT else line[i]);
    if |line| > LINE_CHARACTERS then shown + MARKER else shown
  }

  function BoundedAll(lines: seq<string>): (b: seq<string>)
    ensures |b| == |lines|
    ensures forall i :: 0 <= i < |lines| ==> b[i] == Bounded(lines[i])
  {
    seq(|lines|, i requires 0 <= i < |lines| => Bounded(lines[i]))
  }

  function LastOf(lines: seq<string>, count: nat): seq<string> {
    if |lines| <= count then lines else lines[|lines| - count..]
  }

  /** `last_lines`. */
  function LastLines(b: Bytes, count: nat): (lines: seq<string>)
    ensures |lines| <= count
    ensures forall i, j :: 0 <= i < |lines| && 0 <= j < |lines[i]| ==> !IsControl(lines[i][j])
    ensures forall i :: 0 <= i < |lines| ==> |lines[i]| <= LINE_CHARACTERS + |MARKER|
  {
    BoundedAll(LastOf(Lines(Decode(b)), count))
  }

  /** The last lines of a suffix are those of the whole output as soon as the suffix holds
      `count` lines after some line feed in it, even when it starts inside a character. */
  lemma {:induction false} SuffixHasTheSameLastLines(before: Bytes, cut: Bytes, rest: Bytes, count: nat)
    requires |Lines(Decode(rest))| >= count
    ensures LastLines(before + (cut + [LF] + rest), count) == LastLines(cut + [LF] + rest, count)
  {
    assert before + (cut + [LF] + rest) == (before + cut) + [LF] + rest;
    LastLinesAfterLineFeed(before + cut, rest, count);
    LastLinesAfterLineFeed(cut, rest, count);
  }

  lemma {:induction false} LastLinesAfterLineFeed(a: Bytes, rest: Bytes, count: nat)
    requires |Lines(Decode(rest))| >= count
    ensures LastLines(a + [LF] + rest, count) == LastLines(rest, count)
  {
    DecodeSplitsAtLineFeed(a, rest);
    LinesSplitAtLineFeed(Decode(a), Decode(rest));
    LastOfConcat(Lines(Decode(a) + ['\n']), Lines(Decode(rest)), count);
  }

  lemma LastOfConcat(x: seq<string>, y: seq<string>, count: nat)
    requires |y| >= count
    ensures LastOf(x + y, count) == LastOf(y, count)
  {
  }

  /** `read_process_log_tail`, once the file is open: seek near the end and read. */
  function ProcessLogTail(file: Bytes): seq<string> {
    LastLines(if |file| > TAIL_BYTES then file[|file| - TAIL_BYTES..] else file, 10)
  }

  /** The tail tells the truth about the whole log when it holds ten lines after its first
      line feed (or is the whole log). */
  lemma {:induction false} LogTailAgreesWithLog(file: Bytes, p: nat)
    requires |file| > 65_536 ==>
               var tail := file[|file| - 65_536..];
               p < |tail| && tail[p] == LF && |Lines(Decode(tail[p + 1..]))| >= 10
    ensures ProcessLogTail(file) == LastLines(file, 10)
  {
    hide Decode, Lines, LastLines;
    if |file| > TAIL_BYTES {
      var before, tail := file[..|file| - TAIL_BYTES], file[|file| - TAIL_BYTES..];
      assert file == before + tail;
      assert tail == tail[..p] + [LF] + tail[p + 1..];
      SuffixHasTheSameLastLines(before, tail[..p], tail[p + 1..], 10);
    }
  }

  // ----- text that was encoded in UTF-8 comes back

  /** UTF-8, by the ranges of the scalar values. */
  function Encode(c: char): (b: Bytes)
    ensures 1 <= |b| <= 4
  {
    var n := c as int;
    if n < 0x80 then [n]
    else if n < 0x800 then [0xC0 + n / 64, 0x80 + n % 64]
    else if n < 0x10000 then [0xE0 + n / 4096, 0x80 + n / 64 % 64, 0x80 + n % 64]
    else [0xF0 + n / 262144, 0x80 + n / 4096 % 64, 0x80 + n / 64 % 64, 0x80 + n % 64]
  }

  function EncodeAll(text: string): Bytes {
    if text == [] then [] else Encode(text[0]) + EncodeAll(text[1..])
  }

  lemma FirstOfTwo(c: char, b: Bytes)
    requires 0x80 <= c as int < 0x800 && |b| >= 2 && b[0] == 0xC0 + c as int / 64 && b[1] == 0x80 + c as int % 64
    ensures First(b) == (c, 2)
  {
  }

  lemma FirstOfThree(c: char, b: Bytes)
    requires 0x800 <= c as int < 0x10000 && |b| >= 3
    requires b[0] == 0xE0 + c as int / 4096 && b[1] == 0x80 + c as int / 64 % 64 && b[2] == 0x80 + c as int % 64
    ensures First(b) == (c, 3)
  {
    var n := c as int;
    assert n / 4096 * 4096 + n / 64 % 64 * 64 + n % 64 == n;
  }

  lemma FirstOfFour(c: char, b: Bytes)
    requires 0x10000 <= c as int && |b| >= 4
    requires b[0] == 0xF0 + c as int / 262144 && b[1] == 0x80 + c as int / 4096 % 64
    requires b[2] == 0x80 + c as int / 64 % 64 && b[3] == 0x80 + c as int % 64
    ensures First(b) == (c, 4)
  {
    FourParts(c as int);
  }

  /** The four parts of a scalar value beyond the basic plane, and what bounds the second. */
  lemma FourParts(n: int)
    requires 0x10000 <= n < 0x110000
    ensures ((n / 262144 * 64 + n / 4096 % 64) * 64 + n / 64 % 64) * 64 + n % 64 == n
    ensures 0 <= n / 262144 <= 4 && (n / 262144 == 0 ==> n / 4096 % 64 >= 16) && (n / 262144 == 4 ==> n / 4096 % 64 < 16)
  {
    var a, b := n / 64, n / 4096;
    assert a / 64 == b && b / 64 == n / 262144;
    assert n == a * 64 + n % 64 && a == b * 64 + a % 64 && b == b / 64 * 64 + b % 64;
  }

  lemma FirstOfEncoded(c: char, rest: Bytes)
    ensures First(Encode(c) + rest) == (c, |Encode(c)|)
  {
    hide First;
    var n, b := c as int, Encode(c) + rest;
    if n < 0x80 {
      FirstOfOne(c, b);
    } else if n < 0x800 {
      FirstOfTwo(c, b);
    } else if n < 0x10000 {
      FirstOfThree(c, b);
    } else {
      FirstOfFour(c, b);
    }
  }

  lemma FirstOfOne(c: char, b: Bytes)
    requires c as int < 0x80 && b != [] && b[0] == c as int
    ensures First(b) == (c, 1)
  {
  }

  lemma {:induction false} DecodeEncoded(text: string)
    ensures Decode(EncodeAll(text)) == text
  {
    hide First, Encode;
    if text != [] {
      var rest := EncodeAll(text[1..]);
      FirstOfEncoded(text[0], rest);
      FirstTakesSome(Encode(text[0]) + rest);
      assert (Encode(text[0]) + rest)[|Encode(text[0])|..] == rest;
      DecodeEncoded(text[1..]);
    }
  }

  /** A character cut short is one replacement character. */
  lemma CutCharacterIsReplaced(c: char, k: nat)
    requires 0 < k < |Encode(c)|
    ensures Decode(Encode(c)[..k]) == ['\U{FFFD}']
  {
    hide First;
    var n, b := c as int, Encode(c)[..k];
    if n < 0x800 {
      CutOfTwo(c, b);
    } else if n < 0x10000 {
      CutOfThree(c, b);
    } else {
      CutOfFour(c, b);
    }
    assert b[k..] == [];
  }

  lemma CutOfTwo(c: char, b: Bytes)
    requires 0x80 <= c as int < 0x800 && b == Encode(c)[..1]
    ensures First(b) == (REPLACEMENT, 1)
  {
  }

  lemma CutOfThree(c: char, b: Bytes)
    requires 0x800 <= c as int < 0x10000 && 0 < |b| < 3 && b == Encode(c)[..|b|]
    ensures First(b) == (REPLACEMENT, |b|)
  {
  }

  lemma CutOfFour(c: char, b: Bytes)
    requires 0x10000 <= c as int && 0 < |b| < 4 && b == Encode(c)[..|b|]
    ensures First(b) == (REPLACEMENT, |b|)
  {
  }

  // ----- lines that were written come back

  /** Lines, each ended by LF or, where `crlf` says so, by CR LF. */
  function Written(lines: seq<string>, crlf: seq<bool>): string
    requires |lines| == |crlf|
  {
    if lines == [] then [] else lines[0] + (End(crlf[0]) + Written(lines[1..], crlf[1..]))
  }

  function End(crlf: bool): string {
    if crlf then ['\r'] + ['\n'] else ['\n']
  }

  /** Lines that such a text can tell apart. */
  predicate Separable(lines: seq<string>) {
    forall i :: 0 <= i < |lines| ==> '\n' !in lines[i] && (lines[i] != [] ==> lines[i][|lines[i]| - 1] != '\r')
  }

  lemma AssociateText(a: string, b: string, c: string)
    ensures (a + b) + c == a + (b + c)
  {
  }

  /** One line and its end, then the rest. */
  lemma EndOfLine(line: string, crlf: bool, rest: string)
    ensures line + (End(crlf) + rest) == (if crlf then line + ['\r'] else line) + ['\n'] + rest
  {
    AssociateText(line, ['\n'], rest);
    AssociateText(['\r'], ['\n'], rest);
    AssociateText(line, ['\r'], ['\n'] + rest);
    AssociateText(line + ['\r'], ['\n'], rest);
  }

  lemma WrittenFirst(lines: seq<string>, crlf: seq<bool>, open: string)
    requires |lines| == |crlf| > 0
    ensures Written(lines, crlf) + open ==
            (if crlf[0] then lines[0] + ['\r'] else lines[0]) + ['\n'] + (Written(lines[1..], crlf[1..]) + open)
  {
    hide End;
    var rest := Written(lines[1..], crlf[1..]);
    AssociateText(lines[0], End(crlf[0]) + rest, open);
    AssociateText(End(crlf[0]), rest, open);
    EndOfLine(lines[0], crlf[0], rest + open);
  }

  lemma {:induction false} LinesOfWritten(lines: seq<string>, crlf: seq<bool>, open: string)
    requires |lines| == |crlf| && Separable(lines) && '\n' !in open
    ensures Lines(Written(lines, crlf) + open) == lines + (if open == [] then [] else [open])
  {
    hide Lines, StripReturn, Written;
    if lines == [] {
      NothingWritten(lines, crlf, open);
      LinesOfOpen(open);
    } else {
      LinesOfWritten(lines[1..], crlf[1..], open);
      WrittenFirst(lines, crlf, open);
      LinesOfLine(if crlf[0] then lines[0] + ['\r'] else lines[0], Written(lines[1..], crlf[1..]) + open);
      ReturnGoes(lines[0]);
      FirstAndRest(lines, if open == [] then [] else [open]);
    }
  }

  lemma NothingWritten(lines: seq<string>, crlf: seq<bool>, open: string)
    requires lines == [] && crlf == []
    ensures Written(lines, crlf) + open == open
  {
  }

  lemma FirstAndRest(lines: seq<string>, more: seq<string>)
    requires lines != []
    ensures [lines[0]] + (lines[1..] + more) == lines + more
  {
  }

  lemma ReturnGoes(line: string)
    requires line != [] ==> line[|line| - 1] != '\r'
    ensures StripReturn(line + ['\r']) == line && StripReturn(line) == line
  {
  }

  lemma LinesOfOpen(open: string)
    requires '\n' !in open
    ensures Lines(open) == if open == [] then [] else [open]
  {
  }

  /** `last_lines` gives the last lines that were written, in order, each bounded; a last line
      without an end counts. */
  lemma {:induction false} WrittenLinesComeBack(lines: seq<string>, crlf: seq<bool>, open: string, count: nat)
    requires |lines| == |crlf| && Separable(lines) && '\n' !in open
    ensures var all := lines + (if open == [] then [] else [open]);
            var n := if |all| <= count then |all| else count;
            var last := LastLines(EncodeAll(Written(lines, crlf) + open), count);
            |last| == n && forall i :: 0 <= i < n ==> last[i] == Bounded(all[|all| - n + i])
  {
    hide Decode, Lines, Written, EncodeAll, Bounded, LastLines, LastOf, Separable;
    var text := Written(lines, crlf) + open;
    LinesOfWritten(lines, crlf, open);
    DecodeEncoded(text);
    LastLinesOf(EncodeAll(text), count);
    LastOfIs(Lines(text), count);
  }

  lemma LastLinesOf(b: Bytes, count: nat)
    ensures LastLines(b, count) == BoundedAll(LastOf(Lines(Decode(b)), count))
  {
  }

  lemma LastOfIs(lines: seq<string>, count: nat)
    ensures var n := if |lines| <= count then |lines| else count;
            |LastOf(lines, count)| == n && forall i :: 0 <= i < n ==> LastOf(lines, count)[i] == lines[|lines| - n + i]
  {
  }

  /** Short lines without control characters come back as they are. */
  lemma {:induction false} PlainLinesComeBack(lines: seq<string>, crlf: seq<bool>, count: nat)
    requires |lines| == |crlf|
    requires forall i, j :: 0 <= i < |lines| && 0 <= j < |lines[i]| ==> 32 <= lines[i][j] as int < 127 || 160 <= lines[i][j] as int
    requires forall i :: 0 <= i < |lines| ==> |lines[i]| <= 4096
    ensures LastLines(EncodeAll(Written(lines, crlf)), count) == if |lines| <= count then lines else lines[|lines| - count..]
  {
    hide LastLines, Written, EncodeAll, Bounded;
    assert Written(lines, crlf) + [] == Written(lines, crlf) && lines + [] == lines;
    WrittenLinesComeBack(lines, crlf, [], count);
    forall i | 0 <= i < |lines|
      ensures Bounded(lines[i]) == lines[i]
    {
      PlainIsKept(lines[i]);
    }
  }

  lemma PlainIsKept(line: string)
    requires |line| <= 4096 && forall j :: 0 <= j < |line| ==> 32 <= line[j] as int < 127 || 160 <= line[j] as int
    ensures Bounded(line) == line
  {
  }
}
