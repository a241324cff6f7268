/** The multipart user-data document, and a parser for it after section 5.1 of RFC 2046. */
module Multipart {
  import opened Options
  import opened Bytes

  const QUOTE: Byte := 34
  const HASH: Byte := 35
  const SEMICOLON: Byte := 59

  function Crlf(): Bytes { [CR, LF] }

  function Dashes(): Bytes { Ascii("--") }

  function Boundary(): Bytes { Ascii("===============firestone==") }

  function TopStart(): Bytes { Ascii("Content-Type: multipart/mixed; boundary=\"") }

  function TopEnd(): Bytes { Ascii("\"\r\nMIME-Version: 1.0\r\n\r\n") }

  function TypeStart(): Bytes { Crlf() + Ascii("Content-Type: ") }

  function Charset(): Bytes { Ascii("; charset=\"utf-8\"") }

  function Disposition(): Bytes { Ascii("Content-Disposition: ") + Ascii("attachment; filename=\"") }

  function Middle(): Bytes { Charset() + (Crlf() + Disposition()) }

  function HeadEnd(): Bytes { Ascii("\"\r\n\r\n") }

  function CloseEnd(): Bytes { Ascii("--\r\n") }

  // ----- byte strings written in pieces

  function Join(pieces: seq<Bytes>): Bytes {
    if pieces == [] then [] else pieces[0] + Join(pieces[1..])
  }

  lemma {:induction false} JoinAppend(xs: seq<Bytes>, ys: seq<Bytes>)
    ensures Join(xs + ys) == Join(xs) + Join(ys)
  {
    if xs == [] {
      assert xs + ys == ys;
    } else {
      assert (xs + ys)[1..] == xs[1..] + ys;
      JoinAppend(xs[1..], ys);
      Associate(xs[0], Join(xs[1..]), Join(ys));
    }
  }

  lemma JoinPush(xs: seq<Bytes>, x: Bytes)
    ensures Join(xs + [x]) == Join(xs) + x
  {
    JoinAppend(xs, [x]);
    assert [x][1..] == [];
    assert Join([x]) == x;
  }

  // ----- the document

  datatype Part = Part(contentType: Bytes, filename: Bytes, body: Bytes)

  datatype UserDataKind = CloudConfig | ShellScript

  datatype UserDataPart = UserDataPart(kind: UserDataKind, bytes: Bytes)

  function ContentType(kind: UserDataKind): Bytes {
    match kind
    case CloudConfig => Ascii("text/cloud-config")
    case ShellScript => Ascii("text/x-shellscript")
  }

  function FileName(kind: UserDataKind): Bytes {
    match kind
    case CloudConfig => Ascii("user-cloud-config.yaml")
    case ShellScript => Ascii("user-script.sh")
  }

  function FirestonePart(bytes: Bytes): Part {
    Part(Ascii("text/cloud-config"), Ascii("firestone-cloud-config.yaml"), bytes)
  }

  function UserPart(p: UserDataPart): Part {
    Part(ContentType(p.kind), FileName(p.kind), p.bytes)
  }

  /** The parts of a document, in order. */
  function PartsOf(user: Option<UserDataPart>, firestone: Option<Bytes>): seq<Part> {
    (if user.Some? then [UserPart(user.value)] else []) +
    (if firestone.Some? then [FirestonePart(firestone.value)] else [])
  }

  function PartPieces(p: Part): seq<Bytes> {
    [Dashes(), Boundary(), TypeStart(), p.contentType, Middle(), p.filename, HeadEnd(), p.body, Crlf()]
  }

  function AllPieces(parts: seq<Part>): seq<Bytes> {
    if parts == [] then [] else PartPieces(parts[0]) + AllPieces(parts[1..])
  }

  /** The whole document; no parts at all give no bytes at all. */
  function Document(parts: seq<Part>): Bytes {
    if parts == [] then []
    else Join([TopStart(), Boundary(), TopEnd()] + (AllPieces(parts) + [Dashes(), Boundary(), CloseEnd()]))
  }

  /** `append_mime_part`. */
  method AppendMimePart(buffer: Bytes, ghost done: seq<Bytes>, contentType: Bytes, filename: Bytes, body: Bytes)
    returns (longer: Bytes)
    requires buffer == Join(done)
    ensures longer == Join(done + PartPieces(Part(contentType, filename, body)))
  {
    hide Join, Dashes, Boundary, TypeStart, Middle, HeadEnd, Crlf;
    ghost var p := PartPieces(Part(contentType, filename, body));
    longer := buffer + Dashes();
    longer := longer + Boundary();
    longer := longer + TypeStart();
    JoinThree(done, p[0], p[1], p[2]);
    longer := longer + contentType;
    longer := longer + Middle();
    longer := longer + filename;
    JoinThree(done + p[..3], p[3], p[4], p[5]);
    assert done + p[..3] == done + [p[0], p[1], p[2]];
    longer := longer + HeadEnd();
    longer := longer + body;
    longer := longer + Crlf();
    JoinThree(done + p[..6], p[6], p[7], p[8]);
    assert done + p[..6] == done + p[..3] + [p[3], p[4], p[5]];
    assert done + p == done + p[..6] + [p[6], p[7], p[8]];
  }

  lemma JoinThree(xs: seq<Bytes>, a: Bytes, b: Bytes, c: Bytes)
    ensures Join(xs + [a, b, c]) == Join(xs) + a + b + c
  {
    hide Join;
    JoinPush(xs, a);
    JoinPush(xs + [a], b);
    JoinPush(xs + [a] + [b], c);
    assert xs + [a] + [b] + [c] == xs + [a, b, c];
  }

  /** `render_multipart`. */
  method RenderMultipart(user: Option<UserDataPart>, firestone: Option<Bytes>) returns (bytes: Bytes)
    ensures bytes == Document(PartsOf(user, firestone))
    ensures user.None? && firestone.None? <==> bytes == []
    ensures Readable(user, firestone) ==> Parse(bytes).Some? && AreParts(user, firestone, Parse(bytes).value)
  {
    hide Join, Dashes, Boundary, TopStart, TopEnd, CloseEnd, PartPieces, ContentType, FileName, Parse, Readable, AreParts;
    if Readable(user, firestone) {
      RenderedPartsAre(user, firestone);
    }
    DocumentIsNotEmpty(PartsOf(user, firestone));
    if user.None? && firestone.None? {
      return [];
    }
    bytes := TopStart();
    bytes := bytes + Boundary();
    bytes := bytes + TopEnd();
    ghost var done: seq<Bytes> := [TopStart(), Boundary(), TopEnd()];
    JoinTop(TopStart(), Boundary(), TopEnd());
    if user.Some? {
      bytes := AppendMimePart(bytes, done, ContentType(user.value.kind), FileName(user.value.kind), user.value.bytes);
      done := done + PartPieces(UserPart(user.value));
    }
    if firestone.Some? {
      bytes := AppendMimePart(bytes, done, Ascii("text/cloud-config"), Ascii("firestone-cloud-config.yaml"), firestone.value);
      done := done + PartPieces(FirestonePart(firestone.value));
    }
    TwoParts(user, firestone);
    JoinThree(done, Dashes(), Boundary(), CloseEnd());
    bytes := bytes + Dashes();
    bytes := bytes + Boundary();
    bytes := bytes + CloseEnd();
    assert done + [Dashes(), Boundary(), CloseEnd()]
        == [TopStart(), Boundary(), TopEnd()] + (AllPieces(PartsOf(user, firestone)) + [Dashes(), Boundary(), CloseEnd()]);
  }

  lemma JoinTop(a: Bytes, b: Bytes, c: Bytes)
    ensures Join([a, b, c]) == a + b + c
  {
    JoinThree([], a, b, c);
    assert [] + [a, b, c] == [a, b, c];
    assert Join([]) + a == a;
  }

  lemma TwoParts(user: Option<UserDataPart>, firestone: Option<Bytes>)
    ensures AllPieces(PartsOf(user, firestone)) ==
            (if user.Some? then PartPieces(UserPart(user.value)) else []) +
            (if firestone.Some? then PartPieces(FirestonePart(firestone.value)) else [])
  {
    hide PartPieces, UserPart, FirestonePart;
    var parts := PartsOf(user, firestone);
    if |parts| == 2 {
      assert parts[1..] == [parts[1]];
      assert AllPieces([parts[1]]) == PartPieces(parts[1]) + AllPieces([parts[1]][1..]);
    } else if |parts| == 1 {
      assert parts[1..] == [];
    }
  }

  // ----- the parser

  function StripPrefix(h: Bytes, prefix: Bytes): Option<Bytes> {
    if |prefix| <= |h| && h[..|prefix|] == prefix then Some(h[|prefix|..]) else None
  }

  /** Everything before the first `x`, and the rest from there. */
  function Cut(h: Bytes, x: Byte): (Bytes, Bytes) {
    if h == [] || h[0] == x then ([], h)
    else
      var (before, rest) := Cut(h[1..], x);
      ([h[0]] + before, rest)
  }

  ghost predicate Occurs(h: Bytes, d: Bytes, i: nat) {
    i + |d| <= |h| && forall k :: 0 <= k < |d| ==> h[i + k] == d[k]
  }

  /** The first occurrence of `d` in `h` at or after `from`. */
  function Find(h: Bytes, d: Bytes, from: nat): (r: Option<nat>)
    ensures r.Some? ==> from <= r.value && Occurs(h, d, r.value)
    ensures r.Some? ==> forall i :: from <= i < r.value ==> !Occurs(h, d, i)
    ensures r.None? ==> forall i :: from <= i ==> !Occurs(h, d, i)
    decreases |h| - from
  {
    if from + |d| > |h| then None
    else
      OccursIsSlice(h, d, from);
      if h[from..from + |d|] == d then Some(from)
      else if from == |h| then None
      else Find(h, d, from + 1)
  }

  lemma OccursIsSlice(h: Bytes, d: Bytes, i: nat)
    requires i + |d| <= |h|
    ensures Occurs(h, d, i) <==> h[i..i + |d|] == d
  {
    var slice := h[i..i + |d|];
    assert forall k :: 0 <= k < |d| ==> slice[k] == h[i + k];
  }

  /** The headers and body of one part; `t` starts with the line end of its delimiter. */
  function ParsePart(t: Bytes): Option<Part> {
    match StripPrefix(t, TypeStart())
    case None => None
    case Some(afterType) =>
      var (contentType, r1) := Cut(afterType, SEMICOLON);
      match StripPrefix(r1, Middle())
      case None => None
      case Some(afterName) =>
        var (filename, r2) := Cut(afterName, QUOTE);
        match StripPrefix(r2, HeadEnd())
        case None => None
        case Some(body) => Some(Part(contentType, filename, body))
  }

  /** Parts, each up to the next delimiter, until the closing delimiter. */
  function ParseParts(h: Bytes, d: Bytes): Option<seq<Part>>
    requires d != []
    decreases |h|
  {
    match StripPrefix(h, d)
    case None => None
    case Some(after) =>
      if StripPrefix(after, Dashes()).Some? then Some([])
      else
        match Find(after, d, 0)
        case None => None
        case Some(q) =>
          match ParsePart(after[..q])
          case None => None
          case Some(p) =>
            match ParseParts(after[q..], d)
            case None => None
            case Some(ps) => Some([p] + ps)
  }

  /** What separates two parts: a line that starts with two dashes and the boundary. */
  function Delimiter(boundary: Bytes): (d: Bytes)
    ensures d != []
  {
    Crlf() + (Dashes() + boundary)
  }

  /** The boundary is read from the document; the parts begin at the first line that starts
      with it, counting the blank line after the top header as a line end. */
  function Parse(b: Bytes): Option<seq<Part>> {
    match StripPrefix(b, TopStart())
    case None => None
    case Some(r) =>
      var (boundary, r1) := Cut(r, QUOTE);
      match StripPrefix(r1, TopEnd())
      case None => None
      case Some(rest) =>
        var lines := Crlf() + rest;
        match Find(lines, Delimiter(boundary), 0)
        case None => None
        case Some(q) => ParseParts(lines[q..], Delimiter(boundary))
  }

  // ----- reading one part back

  lemma StripOwn(prefix: Bytes, rest: Bytes)
    ensures StripPrefix(prefix + rest, prefix) == Some(rest)
  {
    assert (prefix + rest)[..|prefix|] == prefix && (prefix + rest)[|prefix|..] == rest;
  }

  lemma {:induction false} CutOwn(before: Bytes, x: Byte, rest: Bytes)
    requires x !in before && rest != [] && rest[0] == x
    ensures Cut(before + rest, x) == (before, rest)
  {
    var h := before + rest;
    if before == [] {
      assert h == rest;
    } else {
      assert h[0] == before[0] && h[1..] == before[1..] + rest;
      CutOwn(before[1..], x, rest);
      assert [before[0]] + before[1..] == before;
    }
  }

  /** Names that the header lines can carry. */
  ghost predicate SafeNames(p: Part) {
    && SEMICOLON !in p.contentType && CR !in p.contentType
    && QUOTE !in p.filename && CR !in p.filename
  }

  /** The header lines of a part, from the end of the delimiter line to the blank line. */
  function Head(p: Part): Bytes {
    TypeStart() + (p.contentType + (Middle() + (p.filename + HeadEnd())))
  }

  lemma PieceStarts()
    ensures |Middle()| > 0 && Middle()[0] == SEMICOLON
    ensures HeadEnd() == [QUOTE, CR, LF, CR, LF]
  {
    var end := "\"\r\n\r\n";
    assert end[0] == '\"' && end[1] == '\r' && end[2] == '\n' && end[3] == '\r' && end[4] == '\n';
    assert "; charset=\"utf-8\""[0] == ';';
  }

  lemma HeadFirst(p: Part, body: Bytes)
    ensures Head(p) + body == TypeStart() + (p.contentType + (Middle() + (p.filename + (HeadEnd() + body))))
  {
    hide TypeStart, Middle, HeadEnd;
    Associate(p.filename, HeadEnd(), body);
    Associate(Middle(), p.filename + HeadEnd(), body);
    Associate(p.contentType, Middle() + (p.filename + HeadEnd()), body);
    Associate(TypeStart(), p.contentType + (Middle() + (p.filename + HeadEnd())), body);
  }

  /** A part is read back with whatever follows its blank line as the body. */
  lemma ParsePartReadsBack(p: Part, body: Bytes)
    requires SafeNames(p)
    ensures ParsePart(Head(p) + body) == Some(p.(body := body))
  {
    hide TypeStart, Middle, HeadEnd, Head, Cut, StripPrefix;
    PieceStarts();
    HeadFirst(p, body);
    var r2 := HeadEnd() + body;
    var r1 := Middle() + (p.filename + r2);
    StripOwn(TypeStart(), p.contentType + r1);
    CutOwn(p.contentType, SEMICOLON, r1);
    StripOwn(Middle(), p.filename + r2);
    CutOwn(p.filename, QUOTE, r2);
    StripOwn(HeadEnd(), body);
  }

  lemma StripBack(h: Bytes, prefix: Bytes)
    ensures StripPrefix(h, prefix).Some? ==> h == prefix + StripPrefix(h, prefix).value
  {
  }

  lemma {:induction false} CutBack(h: Bytes, x: Byte)
    ensures Cut(h, x).0 + Cut(h, x).1 == h
  {
    if h != [] && h[0] != x {
      CutBack(h[1..], x);
    }
  }

  /** The only text that parses to a part is the text of that part. */
  lemma ParsePartIsExact(t: Bytes, p: Part)
    requires ParsePart(t) == Some(p)
    ensures t == Head(p) + p.body
  {
    hide TypeStart, Middle, HeadEnd, Head, Cut, StripPrefix;
    HeadFirst(p, p.body);
    StripBack(t, TypeStart());
    var afterType := StripPrefix(t, TypeStart()).value;
    CutBack(afterType, SEMICOLON);
    var r1 := Cut(afterType, SEMICOLON).1;
    StripBack(r1, Middle());
    var afterName := StripPrefix(r1, Middle()).value;
    CutBack(afterName, QUOTE);
    StripBack(Cut(afterName, QUOTE).1, HeadEnd());
  }

  // ----- where delimiters are

  function Separator(): (d: Bytes)
    ensures d != []
  {
    Delimiter(Boundary())
  }

  /** A body that no line of which, counting its first, starts with the delimiter. */
  ghost predicate Clean(body: Bytes) {
    forall i: nat :: !Occurs(Crlf() + body, Separator(), i)
  }

  /** The delimiter starts with the only carriage return in it, so it cannot overlap itself. */
  lemma SeparatorShape()
    ensures |Separator()| == 30
    ensures Separator()[0] == CR && Separator()[1] == LF && Separator()[2] == 45
    ensures forall k :: 0 < k < |Separator()| ==> Separator()[k] != CR
  {
    NoReturn("===============firestone==");
    NoReturn("--");
    assert "--"[0] == '-';
    var b := Dashes() + Boundary();
    assert forall k :: 0 <= k < |b| ==> b[k] != CR;
  }

  lemma NoReturn(text: string)
    requires forall i :: 0 <= i < |text| ==> ' ' <= text[i] <= '~'
    ensures forall i :: 0 <= i < |text| ==> Ascii(text)[i] != CR
  {
  }

  lemma HeaderLines()
    ensures |TypeStart()| == 16 && TypeStart()[0] == CR && TypeStart()[2] == 67
    ensures forall i :: 0 < i < |TypeStart()| ==> TypeStart()[i] != CR
    ensures |Middle()| == 62 && Middle()[19] == 67
    ensures forall i :: 0 <= i < |Middle()| && i != 17 ==> Middle()[i] != CR
  {
    NoReturn("Content-Type: ");
    NoReturn("; charset=\"utf-8\"");
    NoReturn("Content-Disposition: ");
    NoReturn("attachment; filename=\"");
    assert "Content-Type: "[0] == 'C' && "Content-Disposition: "[0] == 'C';
    assert |Charset()| == 17 && |Disposition()| == 43 && Disposition()[0] == 67;
    assert forall i :: 0 <= i < |Disposition()| ==> Disposition()[i] != CR;
  }

  lemma HeadAt(p: Part, i: nat)
    requires i < |Head(p)|
    ensures |Head(p)| == |TypeStart()| + |p.contentType| + |Middle()| + |p.filename| + |HeadEnd()|
    ensures var a := |TypeStart()|;
            var b := a + |p.contentType|;
            var c := b + |Middle()|;
            var e := c + |p.filename|;
            Head(p)[i] == if i < a then TypeStart()[i] else if i < b then p.contentType[i - a]
            else if i < c then Middle()[i - b] else if i < e then p.filename[i - c] else HeadEnd()[i - e]
  {
    hide TypeStart, Middle, HeadEnd;
  }

  /** No line of a head starts with a dash. */
  lemma {:induction false} NoDashLineInHead(p: Part, i: nat)
    requires SafeNames(p) && i + 2 < |Head(p)|
    ensures !(Head(p)[i] == CR && Head(p)[i + 2] == 45)
  {
    hide TypeStart, Middle, HeadEnd, Head;
    HeaderLines();
    PieceStarts();
    HeadAt(p, i);
    HeadAt(p, i + 2);
  }

  lemma HeadEndsWithBlankLine(p: Part)
    ensures |Head(p)| >= 5 && Head(p)[|Head(p)| - 2] == CR && Head(p)[|Head(p)| - 1] == LF
  {
    hide TypeStart, Middle, HeadEnd, Head;
    HeaderLines();
    PieceStarts();
    HeadIsLong(p);
    HeadAt(p, |Head(p)| - 2);
    HeadAt(p, |Head(p)| - 1);
  }

  lemma HeadIsLong(p: Part)
    ensures |Head(p)| >= 80
  {
    HeaderLines();
  }

  /** A delimiter after a head's start is in the body, counting the blank line's end. */
  lemma DelimiterIsInBody(p: Part, x: Bytes, i: nat)
    requires SafeNames(p) && Occurs(Head(p) + x, Separator(), i)
    ensures |Head(p)| - 2 <= i && Occurs(Crlf() + x, Separator(), i - (|Head(p)| - 2))
  {
    hide Head, Separator;
    SeparatorShape();
    HeadEndsWithBlankLine(p);
    var h, d, n := Head(p) + x, Separator(), |Head(p)| - 2;
    assert h[i + 0] == d[0] && h[i + 2] == d[2];
    if i < n {
      NoDashLineInHead(p, i);
    }
    forall k | 0 <= k < |d|
      ensures (Crlf() + x)[i - n + k] == d[k]
    {
      assert h[i + k] == d[k];
    }
  }

  lemma DelimiterFromBody(p: Part, x: Bytes, j: nat)
    requires Occurs(Crlf() + x, Separator(), j)
    ensures |Head(p)| >= 2 && Occurs(Head(p) + x, Separator(), |Head(p)| - 2 + j)
  {
    hide Head, Separator;
    HeadEndsWithBlankLine(p);
    var h, d, n := Head(p) + x, Separator(), |Head(p)| - 2;
    forall k | 0 <= k < |d|
      ensures h[n + j + k] == d[k]
    {
      assert (Crlf() + x)[j + k] == d[k];
    }
  }

  /** An occurrence before the end of `t` lies inside it: it cannot run into the real one. */
  lemma NoStraddling(t: Bytes, more: Bytes, i: nat)
    requires i < |t| && Occurs(t + (Separator() + more), Separator(), i)
    ensures Occurs(t, Separator(), i)
  {
    hide Separator;
    SeparatorShape();
    var h, d := t + (Separator() + more), Separator();
    var overlap := if |t| - i < |d| then |t| - i else 0;
    assert h[i + overlap] == d[overlap] && h[|t|] == d[0];
    forall k | 0 <= k < |d|
      ensures t[i + k] == d[k]
    {
      assert h[i + k] == d[k];
    }
  }

  lemma OccursInLonger(t: Bytes, more: Bytes, i: nat)
    requires Occurs(t, Separator(), i)
    ensures Occurs(t + more, Separator(), i)
  {
    hide Separator;
    forall k | 0 <= k < |Separator()|
      ensures (t + more)[i + k] == Separator()[k]
    {
      assert t[i + k] == Separator()[k];
    }
  }

  lemma OccursAfter(t: Bytes, more: Bytes)
    ensures Occurs(t + (Separator() + more), Separator(), |t|)
  {
    hide Separator;
  }

  /** The parser's next delimiter is the real one exactly when the body is clean. */
  lemma NextDelimiter(p: Part, body: Bytes, more: Bytes)
    requires SafeNames(p)
    ensures var t := Head(p) + body;
            var found := Find(t + (Separator() + more), Separator(), 0);
            && found.Some?
            && (Clean(body) ==> found.value == |t|)
            && (!Clean(body) ==> found.value < |t|)
  {
    hide Head, Separator, Find, Occurs;
    var t := Head(p) + body;
    var h := t + (Separator() + more);
    OccursAfter(t, more);
    var found := Find(h, Separator(), 0);
    if Clean(body) {
      if found.value < |t| {
        NoStraddling(t, more, found.value);
        DelimiterIsInBody(p, body, found.value);
      }
    } else {
      var j: nat :| Occurs(Crlf() + body, Separator(), j);
      DelimiterFromBody(p, body, j);
      OccursInLonger(t, Separator() + more, |Head(p)| - 2 + j);
      SeparatorFits(Crlf() + body, j);
    }
  }

  lemma SeparatorFits(h: Bytes, i: nat)
    requires Occurs(h, Separator(), i)
    ensures i + 30 <= |h|
  {
    SeparatorShape();
  }

  // ----- reading a document back

  /** A document from its first delimiter on. */
  function Tail(parts: seq<Part>): Bytes {
    Separator() + (if parts == [] then CloseEnd() else (Head(parts[0]) + parts[0].body) + Tail(parts[1..]))
  }

  lemma TailStarts(parts: seq<Part>) returns (more: Bytes)
    ensures Tail(parts) == Separator() + more
    ensures parts == [] ==> StripPrefix(more, Dashes()).Some?
    ensures parts != [] ==> StripPrefix(more, Dashes()).None?
  {
    more := if parts == [] then CloseEnd() else (Head(parts[0]) + parts[0].body) + Tail(parts[1..]);
    if parts == [] {
      assert "--\r\n"[0] == '-' && "--\r\n"[1] == '-' && "--"[0] == '-' && "--"[1] == '-';
      assert more[..2] == Dashes();
    } else {
      HeaderLines();
      HeadAt(parts[0], 0);
      assert "--"[0] == '-';
      assert more[0] == CR;
      if |more| >= 2 {
        assert more[..2][0] == more[0];
      }
    }
  }

  /** The parts come back exactly when every body is clean. */
  lemma {:induction false} PartsReadBack(parts: seq<Part>)
    requires forall p :: p in parts ==> SafeNames(p)
    ensures ParseParts(Tail(parts), Separator()) == Some(parts) <==> forall p :: p in parts ==> Clean(p.body)
  {
    hide Head, Separator, Find, Occurs, StripPrefix, ParsePart, Dashes, Clean, CloseEnd;
    var more := TailStarts(parts);
    StripOwn(Separator(), more);
    if parts != [] {
      var p := parts[0];
      var t := Head(p) + p.body;
      var after := TailStarts(parts[1..]);
      TailUnfolds(parts, more);
      NextDelimiter(p, p.body, after);
      var q := Find(more, Separator(), 0).value;
      PartsReadBack(parts[1..]);
      ParsePartReadsBack(p, p.body);
      if Clean(p.body) {
        assert more[..q] == t && more[q..] == Tail(parts[1..]);
        assert forall x :: x in parts <==> x == p || x in parts[1..];
        FirstOf(parts);
      } else {
        assert p in parts;
        assert |more[..q]| == q < |t|;
        if ParsePart(more[..q]) == Some(p) {
          ParsePartIsExact(more[..q], p);
        }
      }
    }
  }

  lemma {:induction false} TailUnfolds(parts: seq<Part>, more: Bytes)
    requires parts != [] && Tail(parts) == Separator() + more
    ensures more == (Head(parts[0]) + parts[0].body) + Tail(parts[1..])
  {
    hide Separator, Head;
    var rest := (Head(parts[0]) + parts[0].body) + Tail(parts[1..]);
    assert Tail(parts) == Separator() + rest;
    assert (Separator() + more)[|Separator()|..] == more;
    assert (Separator() + rest)[|Separator()|..] == rest;
  }

  lemma FirstOf(parts: seq<Part>)
    requires parts != []
    ensures [parts[0]] + parts[1..] == parts
  {
  }

  lemma PartJoined(p: Part, rest: Bytes)
    ensures Crlf() + (Join(PartPieces(p)) + rest) == Separator() + ((Head(p) + p.body) + (Crlf() + rest))
  {
    hide Join, Dashes, Boundary, TypeStart, Middle, HeadEnd, Crlf;
    var tail := p.body + (Crlf() + rest);
    var pieces := PartPieces(p);
    JoinNine(pieces, rest);
    HeadFirst(p, tail);
    Associate(Head(p), p.body, Crlf() + rest);
    var after := Head(p) + tail;
    Associate(Dashes(), Boundary(), after);
    Associate(Crlf(), Dashes() + Boundary(), after);
  }

  lemma JoinNine(p: seq<Bytes>, rest: Bytes)
    requires |p| == 9
    ensures Join(p) + rest == p[0] + (p[1] + (p[2] + (p[3] + (p[4] + (p[5] + (p[6] + (p[7] + (p[8] + rest))))))))
  {
    hide Join;
    JoinFrontThree(p, 0, rest);
    JoinFrontThree(p, 3, rest);
    JoinFrontThree(p, 6, rest);
    assert p[0..] == p;
    JoinNothing(p[9..], rest);
  }

  lemma JoinNothing(none: seq<Bytes>, rest: Bytes)
    requires none == []
    ensures Join(none) + rest == rest
  {
  }

  lemma JoinFrontThree(p: seq<Bytes>, i: nat, rest: Bytes)
    requires i + 3 <= |p|
    ensures Join(p[i..]) + rest == p[i] + (p[i + 1] + (p[i + 2] + (Join(p[i + 3..]) + rest)))
  {
    hide Join;
    JoinFront(p, i, rest);
    JoinFront(p, i + 1, rest);
    JoinFront(p, i + 2, rest);
  }

  lemma JoinFront(p: seq<Bytes>, i: nat, rest: Bytes)
    requires i < |p|
    ensures Join(p[i..]) + rest == p[i] + (Join(p[i + 1..]) + rest)
  {
    assert p[i..][1..] == p[i + 1..];
    Associate(p[i], Join(p[i + 1..]), rest);
  }

  function Closing(): seq<Bytes> {
    [Dashes(), Boundary(), CloseEnd()]
  }

  lemma {:induction false} PiecesAreTail(parts: seq<Part>)
    ensures Crlf() + Join(AllPieces(parts) + Closing()) == Tail(parts)
  {
    hide Join, Dashes, Boundary, CloseEnd, PartPieces, Head, Crlf, Separator;
    if parts == [] {
      ClosingJoined();
      assert AllPieces(parts) + Closing() == Closing();
    } else {
      var rest := AllPieces(parts[1..]) + Closing();
      assert AllPieces(parts) + Closing() == PartPieces(parts[0]) + rest;
      JoinAppend(PartPieces(parts[0]), rest);
      PartJoined(parts[0], Join(rest));
      PiecesAreTail(parts[1..]);
    }
  }

  lemma ClosingJoined()
    ensures Crlf() + Join(Closing()) == Separator() + CloseEnd()
  {
    hide Join, Dashes, Boundary, CloseEnd, Crlf;
    JoinTop(Dashes(), Boundary(), CloseEnd());
    Associate(Crlf(), Dashes() + Boundary(), CloseEnd());
  }

  lemma DocumentIsTail(parts: seq<Part>) returns (rest: Bytes)
    requires parts != []
    ensures Document(parts) == TopStart() + (Boundary() + (TopEnd() + rest))
    ensures Crlf() + rest == Tail(parts)
  {
    hide Join, TopStart, Boundary, TopEnd, Tail;
    rest := Join(AllPieces(parts) + Closing());
    PiecesAreTail(parts);
    JoinAppend([TopStart(), Boundary(), TopEnd()], AllPieces(parts) + Closing());
    JoinTop(TopStart(), Boundary(), TopEnd());
    Associate(TopStart() + Boundary(), TopEnd(), rest);
    Associate(TopStart(), Boundary(), TopEnd() + rest);
  }

  lemma BoundaryIsQuotable()
    ensures QUOTE !in Boundary() && |TopEnd()| > 0 && TopEnd()[0] == QUOTE
  {
    assert forall i :: 0 <= i < 26 ==> '-' <= "===============firestone=="[i] <= '~';
    assert "\"\r\nMIME-Version: 1.0\r\n\r\n"[0] == '\"';
  }

  lemma TailIsFoundAtOnce(parts: seq<Part>)
    ensures Find(Tail(parts), Separator(), 0) == Some(0) && Tail(parts)[0..] == Tail(parts)
  {
    hide Separator;
    var more := TailStarts(parts);
    OccursAfter([], more);
    assert [] + (Separator() + more) == Tail(parts);
  }

  /** The parser recovers type, file name, body and order of all parts of a document
      exactly when no body holds the delimiter. */
  lemma DocumentReadsBack(parts: seq<Part>)
    requires parts != [] && forall p :: p in parts ==> SafeNames(p)
    ensures Parse(Document(parts)) == Some(parts) <==> forall p :: p in parts ==> Clean(p.body)
  {
    hide TopStart, Boundary, TopEnd, Tail, Document, Cut, StripPrefix, Find, ParseParts, Clean, SafeNames, Crlf;
    var rest := DocumentIsTail(parts);
    BoundaryIsQuotable();
    StripOwn(TopStart(), Boundary() + (TopEnd() + rest));
    CutOwn(Boundary(), QUOTE, TopEnd() + rest);
    StripOwn(TopEnd(), rest);
    TailIsFoundAtOnce(parts);
    PartsReadBack(parts);
  }

  // ----- the documents that are rendered

  datatype UserDataError = NotUtf8 | UnsupportedFirstLine

  /** The first line without its line end. */
  function FirstLine(bytes: Bytes): Bytes {
    var line := Cut(bytes, LF).0;
    if line != [] && line[|line| - 1] == CR then line[..|line| - 1] else line
  }

  /** `parse_user_data`: the first line decides the kind. */
  function ParseUserData(bytes: Bytes, isUtf8: bool): Result<UserDataPart, UserDataError> {
    if !isUtf8 then Err(NotUtf8)
    else if FirstLine(bytes) == Ascii("#cloud-config") then Ok(UserDataPart(CloudConfig, bytes))
    else if |FirstLine(bytes)| >= 2 && FirstLine(bytes)[..2] == Ascii("#!") then Ok(UserDataPart(ShellScript, bytes))
    else Err(UnsupportedFirstLine)
  }

  lemma AcceptedUserDataStartsWithHash(bytes: Bytes)
    requires ParseUserData(bytes, true).Ok?
    ensures bytes != [] && bytes[0] == HASH
  {
    assert "#cloud-config"[0] == '#' && "#!"[0] == '#';
    var line := FirstLine(bytes);
    assert |line| >= 2 && line[0] == HASH by {
      if line != Ascii("#cloud-config") {
        assert line[..2][0] == line[0];
      }
    }
    CutBack(bytes, LF);
  }

  /** For a body that starts with a hash, clean means that the delimiter is not in it. */
  lemma CleanAfterHash(body: Bytes)
    requires body != [] && body[0] == HASH
    ensures Clean(body) <==> forall i: nat :: !Occurs(body, Separator(), i)
  {
    hide Separator;
    SeparatorShape();
    var h, d := Crlf() + body, Separator();
    forall i: nat
      ensures Occurs(body, d, i) <==> Occurs(h, d, i + 2)
    {
      if Occurs(h, d, i + 2) {
        forall k | 0 <= k < |d|
          ensures body[i + k] == d[k]
        {
          assert h[i + 2 + k] == d[k];
        }
      }
      if Occurs(body, d, i) {
        forall k | 0 <= k < |d|
          ensures h[i + 2 + k] == d[k]
        {
          assert body[i + k] == d[k];
        }
      }
    }
    assert !Occurs(h, d, 0) by {
      assert h[0 + 2] == HASH && d[2] == 45;
    }
    assert !Occurs(h, d, 1) by {
      assert h[1 + 0] == LF && d[0] == CR;
    }
    if !Clean(body) {
      var i: nat :| Occurs(h, d, i);
      assert i >= 2;
      assert Occurs(body, d, i - 2);
    }
  }

  lemma {:induction false} OwnNamesAreSafe(kind: UserDataKind, user: Bytes, firestone: Bytes)
    ensures SafeNames(UserPart(UserDataPart(kind, user))) && SafeNames(FirestonePart(firestone))
  {
    PlainHeaderText("text/cloud-config");
    PlainHeaderText("text/x-shellscript");
    PlainHeaderText("user-cloud-config.yaml");
    PlainHeaderText("user-script.sh");
    PlainHeaderText("firestone-cloud-config.yaml");
  }

  lemma PlainHeaderText(text: string)
    requires forall i :: 0 <= i < |text| ==> '-' <= text[i] <= '9' || 'a' <= text[i] <= 'z'
    ensures CR !in Ascii(text) && SEMICOLON !in Ascii(text) && QUOTE !in Ascii(text)
  {
  }

  /** What `render_multipart` writes for accepted user-data and Firestone's own part is read
      back exactly when neither body contains the delimiter. */
  lemma RenderedPartsReadBack(user: Option<UserDataPart>, firestone: Option<Bytes>)
    requires user.Some? || firestone.Some?
    requires user.Some? ==> ParseUserData(user.value.bytes, true) == Ok(user.value)
    requires firestone.Some? ==> firestone.value != [] && firestone.value[0] == HASH
    ensures Parse(Document(PartsOf(user, firestone))) == Some(PartsOf(user, firestone)) <==>
            && (user.Some? ==> forall i: nat :: !Occurs(user.value.bytes, Separator(), i))
            && (firestone.Some? ==> forall i: nat :: !Occurs(firestone.value, Separator(), i))
  {
    hide Parse, Document, Separator, Occurs, Clean, SafeNames, ParseUserData, ContentType, FileName;
    var parts := PartsOf(user, firestone);
    if user.Some? {
      AcceptedUserDataStartsWithHash(user.value.bytes);
      CleanAfterHash(user.value.bytes);
      OwnNamesAreSafe(user.value.kind, user.value.bytes, []);
      assert UserPart(user.value) in parts && UserPart(user.value).body == user.value.bytes;
    }
    if firestone.Some? {
      CleanAfterHash(firestone.value);
      OwnNamesAreSafe(CloudConfig, [], firestone.value);
      assert FirestonePart(firestone.value) in parts && FirestonePart(firestone.value).body == firestone.value;
    }
    DocumentReadsBack(parts);
  }

  ghost predicate NoDelimiter(body: Bytes) {
    forall i: nat :: !Occurs(body, Separator(), i)
  }

  /** Accepted user-data and Firestone's part, none of them with the delimiter in it. */
  ghost predicate Readable(user: Option<UserDataPart>, firestone: Option<Bytes>) {
    && (user.Some? || firestone.Some?)
    && (user.Some? ==> ParseUserData(user.value.bytes, true) == Ok(user.value) && NoDelimiter(user.value.bytes))
    && (firestone.Some? ==> firestone.value != [] && firestone.value[0] == HASH && NoDelimiter(firestone.value))
  }

  /** What a reader of the document gets: the user's part first, under the type and name of its
      kind, and Firestone's part last. */
  ghost predicate AreParts(user: Option<UserDataPart>, firestone: Option<Bytes>, parts: seq<Part>) {
    && |parts| == (if user.Some? then 1 else 0) + (if firestone.Some? then 1 else 0)
    && (user.Some? && user.value.kind.CloudConfig? ==>
          parts[0] == Part(Ascii("text/cloud-config"), Ascii("user-cloud-config.yaml"), user.value.bytes))
    && (user.Some? && user.value.kind.ShellScript? ==>
          parts[0] == Part(Ascii("text/x-shellscript"), Ascii("user-script.sh"), user.value.bytes))
    && (firestone.Some? ==>
          parts[|parts| - 1] == Part(Ascii("text/cloud-config"), Ascii("firestone-cloud-config.yaml"), firestone.value))
  }

  lemma RenderedPartsAre(user: Option<UserDataPart>, firestone: Option<Bytes>)
    requires Readable(user, firestone)
    ensures var parsed := Parse(Document(PartsOf(user, firestone))); parsed.Some? && AreParts(user, firestone, parsed.value)
  {
    hide Parse, Document, Separator, Occurs, ParseUserData, Ascii;
    RenderedPartsReadBack(user, firestone);
  }

  lemma DocumentIsNotEmpty(parts: seq<Part>)
    ensures Document(parts) == [] <==> parts == []
  {
    hide Boundary, TopEnd;
    if parts != [] {
      var rest := DocumentIsTail(parts);
      assert |TopStart()| > 0;
    }
  }

  /** The first line decides how user-data is read. */
  lemma CloudConfigIsAccepted(end: Bytes, rest: Bytes)
    requires (end == [] && rest == []) || end == [LF] || end == [CR, LF]
    ensures var bytes := Ascii("#cloud-config") + (end + rest);
            ParseUserData(bytes, true) == Ok(UserDataPart(CloudConfig, bytes))
  {
    hide Cut;
    var line := Ascii("#cloud-config");
    NoControl("#cloud-config");
    var bytes := line + (end + rest);
    if end == [] {
      assert bytes == line;
      CutWhole(line, LF);
    } else if end == [LF] {
      CutOwn(line, LF, end + rest);
    } else {
      assert bytes == (line + [CR]) + ([LF] + rest);
      CutOwn(line + [CR], LF, [LF] + rest);
      assert (line + [CR])[..|line|] == line;
    }
  }

  lemma ScriptIsAccepted(rest: Bytes)
    ensures ParseUserData(Ascii("#!") + rest, true) == Ok(UserDataPart(ShellScript, Ascii("#!") + rest))
  {
    hide Cut;
    var bytes := Ascii("#!") + rest;
    assert "#!"[0] == '#' && "#!"[1] == '!' && "#cloud-config"[1] == 'c';
    assert bytes == [35] + ([33] + rest);
    CutAfter([35], LF, [33] + rest);
    CutAfter([33], LF, rest);
    var line := FirstLine(bytes);
    assert line[..2] == Ascii("#!");
    assert Ascii("#cloud-config")[1] == 99;
  }

  lemma {:induction false} CutAfter(before: Bytes, x: Byte, rest: Bytes)
    requires x !in before
    ensures Cut(before + rest, x) == (before + Cut(rest, x).0, Cut(rest, x).1)
  {
    if before == [] {
      assert before + rest == rest && before + Cut(rest, x).0 == Cut(rest, x).0;
    } else {
      assert (before + rest)[1..] == before[1..] + rest;
      CutAfter(before[1..], x, rest);
      assert [before[0]] + (before[1..] + Cut(rest, x).0) == before + Cut(rest, x).0;
    }
  }

  lemma {:induction false} CutWhole(h: Bytes, x: Byte)
    requires x !in h
    ensures Cut(h, x) == (h, [])
  {
    if h != [] {
      CutWhole(h[1..], x);
      assert [h[0]] + h[1..] == h;
    }
  }

  lemma NoControl(text: string)
    requires forall i :: 0 <= i < |text| ==> ' ' <= text[i] <= '~'
    ensures CR !in Ascii(text) && LF !in Ascii(text)
  {
  }

  /** A document with both parts on the wire, piece by piece. */
  lemma DocumentOnTheWire(kind: UserDataKind, user: Bytes, firestone: Bytes)
    ensures Document(PartsOf(Some(UserDataPart(kind, user)), Some(firestone))) == Join([
                                                                                         Ascii("Content-Type: multipart/mixed; boundary=\""), Ascii("===============firestone=="),
                                                                                         Ascii("\"\r\nMIME-Version: 1.0\r\n\r\n"),
                                                                                         Ascii("--"), Ascii("===============firestone=="), [13, 10] + Ascii("Content-Type: "),
                                                                                         if kind.CloudConfig? then Ascii("text/cloud-config") else Ascii("text/x-shellscript"),
                                                                                         Ascii("; charset=\"utf-8\"") + ([13, 10] + (Ascii("Content-Disposition: ") + Ascii("attachment; filename=\""))),
                                                                                         if kind.CloudConfig? then Ascii("user-cloud-config.yaml") else Ascii("user-script.sh"),
                                                                                         Ascii("\"\r\n\r\n"), user, [13, 10],
                                                                                         Ascii("--"), Ascii("===============firestone=="), [13, 10] + Ascii("Content-Type: "), Ascii("text/cloud-config"),
                                                                                         Ascii("; charset=\"utf-8\"") + ([13, 10] + (Ascii("Content-Disposition: ") + Ascii("attachment; filename=\""))),
                                                                                         Ascii("firestone-cloud-config.yaml"), Ascii("\"\r\n\r\n"), firestone, [13, 10],
                                                                                         Ascii("--"), Ascii("===============firestone=="), Ascii("--\r\n")])
  {
    hide Ascii, Join;
    var part := UserDataPart(kind, user);
    TwoParts(Some(part), Some(firestone));
    var u, f := PartPieces(UserPart(part)), PartPieces(FirestonePart(firestone));
    assert [TopStart(), Boundary(), TopEnd()] + ((u + f) + [Dashes(), Boundary(), CloseEnd()])
        == [TopStart(), Boundary(), TopEnd(), u[0], u[1], u[2], u[3], u[4], u[5], u[6], u[7], u[8],
            f[0], f[1], f[2], f[3], f[4], f[5], f[6], f[7], f[8], Dashes(), Boundary(), CloseEnd()];
  }

  /** Nothing stops such a body: this cloud-config is accepted and is not read back. */
  lemma DelimiterInUserDataIsAccepted()
    ensures var bytes := Ascii("#cloud-config") + Separator();
            var part := UserDataPart(CloudConfig, bytes);
            && ParseUserData(bytes, true) == Ok(part)
            && Parse(Document(PartsOf(Some(part), None))) != Some(PartsOf(Some(part), None))
  {
    hide Parse, Document, Separator, Occurs;
    SeparatorShape();
    var bytes := Ascii("#cloud-config") + Separator();
    var part := UserDataPart(CloudConfig, bytes);
    FirstLineOfExample();
    OccursAfter(Ascii("#cloud-config"), []);
    assert Ascii("#cloud-config") + (Separator() + []) == bytes;
    RenderedPartsReadBack(Some(part), None);
  }

  lemma FirstLineOfExample()
    ensures FirstLine(Ascii("#cloud-config") + Separator()) == Ascii("#cloud-config")
  {
    hide Separator, Cut;
    SeparatorShape();
    var d := Separator();
    var line := Ascii("#cloud-config") + [CR];
    assert Ascii("#cloud-config") + d == line + d[1..];
    assert forall i :: 0 <= i < 13 ==> '#' <= "#cloud-config"[i] <= 'z';
    CutOwn(line, LF, d[1..]);
    assert line[..|line| - 1] == Ascii("#cloud-config");
  }
}
