/** The checkpoint of the acceptance gate: a manifest, evidence files, and a checksum file
    that is written last and covers all of them. */
module Checkpoint {
  import opened Options
  import opened Bytes

  type Name = Bytes

  /** The evidence directory. */
  type Files = map<Name, Bytes>

  type Digest = Bytes -> Bytes

  function ManifestName(): Name { Ascii("acceptance.json") }

  function SumsName(): Name { Ascii("SHA256SUMS") }

  lemma NamesOnDisk()
    ensures ManifestName() == Ascii("acceptance.json") && SumsName() == Ascii("SHA256SUMS")
  {
  }

  // ----- the checksum file

  predicate IsHexDigit(x: Byte) {
    48 <= x <= 57 || 97 <= x <= 102
  }

  /** Sixty-four lower-case hex digits. */
  predicate IsSum(s: Bytes) {
    |s| == 64 && forall i :: 0 <= i < |s| ==> IsHexDigit(s[i])
  }

  /** Letters, digits, dots and dashes. */
  predicate IsPlainName(n: Name) {
    n != [] && forall i :: 0 <= i < |n| ==>
                             48 <= n[i] <= 57 || 65 <= n[i] <= 90 || 97 <= n[i] <= 122 || n[i] == 45 || n[i] == 46
  }

  lemma SumExamples(sum: Bytes)
    requires |sum| == 64
    ensures (forall i :: 0 <= i < 64 ==> sum[i] in Ascii("0123456789abcdef")) ==> IsSum(sum)
    ensures (exists i :: 0 <= i < 64 && sum[i] in Ascii("ABCDEFg :.")) ==> !IsSum(sum)
    ensures !IsSum(sum[1..]) && !IsSum(sum + [48])
  {
    assert forall i :: 0 <= i < 16 ==> IsHexDigit("0123456789abcdef"[i] as int);
    assert forall i :: 0 <= i < 10 ==> !IsHexDigit("ABCDEFg :."[i] as int);
  }

  datatype Entry = Entry(sum: Bytes, name: Name)

  function Line(e: Entry): Bytes {
    e.sum + ([32, 32] + e.name)
  }

  /** The checksum file's text. */
  function SumsText(entries: seq<Entry>): Bytes {
    if entries == [] then [] else Line(entries[0]) + ([LF] + SumsText(entries[1..]))
  }

  /** The index of the first line break, or the length. */
  function BreakAt(b: Bytes): (p: nat)
    ensures p <= |b|
    ensures p < |b| ==> b[p] == LF || b[p] == CR
    ensures forall i :: 0 <= i < p ==> b[i] != LF && b[i] != CR
  {
    if b == [] || b[0] == LF || b[0] == CR then 0 else 1 + BreakAt(b[1..])
  }

  /** `bytes.splitlines()`. */
  function SplitLines(b: Bytes): seq<Bytes>
    decreases |b|
  {
    var p := BreakAt(b);
    if b == [] then []
    else if p == |b| then [b]
    else
      var skip := if b[p] == CR && p + 1 < |b| && b[p + 1] == LF then 2 else 1;
      [b[..p]] + SplitLines(b[p + skip..])
  }

  /** One line matched against the pattern of a checksum line. */
  function ParseLine(l: Bytes): Option<Entry> {
    if |l| > 66 && IsSum(l[..64]) && l[64] == 32 && l[65] == 32 && IsPlainName(l[66..])
    then Some(Entry(l[..64], l[66..])) else None
  }

  ghost predicate ValidEntries(entries: seq<Entry>) {
    forall i :: 0 <= i < |entries| ==> IsSum(entries[i].sum) && IsPlainName(entries[i].name)
  }

  lemma LineReadsBack(e: Entry)
    requires IsSum(e.sum) && IsPlainName(e.name)
    ensures ParseLine(Line(e)) == Some(e)
    ensures forall i :: 0 <= i < |Line(e)| ==> Line(e)[i] != LF && Line(e)[i] != CR
  {
    var l := Line(e);
    assert l[..64] == e.sum && l[66..] == e.name && l[64] == 32 && l[65] == 32;
    assert forall i :: 0 <= i < |l| ==> l[i] == if i < 64 then e.sum[i] else if i < 66 then 32 else e.name[i - 66];
  }

  lemma {:induction false} SplitFirst(l: Bytes, rest: Bytes)
    requires forall i :: 0 <= i < |l| ==> l[i] != LF && l[i] != CR
    ensures SplitLines(l + ([LF] + rest)) == [l] + SplitLines(rest)
  {
    var b := l + ([LF] + rest);
    assert b[|l|] == LF;
    assert forall i :: 0 <= i < |l| ==> b[i] == l[i];
    assert BreakAt(b) == |l|;
    assert b[..|l|] == l && b[|l| + 1..] == rest;
  }

  /** A carriage return ends a line as well, alone or before a line feed. */
  lemma SplitAtReturn(l: Bytes, rest: Bytes)
    requires forall i :: 0 <= i < |l| ==> l[i] != LF && l[i] != CR
    ensures SplitLines(l + ([CR, LF] + rest)) == [l] + SplitLines(rest)
    ensures rest == [] || rest[0] != LF ==> SplitLines(l + ([CR] + rest)) == [l] + SplitLines(rest)
    ensures SplitLines(l) == if l == [] then [] else [l]
  {
    var b, c := l + ([CR, LF] + rest), l + ([CR] + rest);
    assert b[|l|] == CR && b[|l| + 1] == LF && c[|l|] == CR;
    assert forall i :: 0 <= i < |l| ==> b[i] == l[i] && c[i] == l[i];
    assert BreakAt(b) == |l| && BreakAt(c) == |l| && BreakAt(l) == |l|;
    assert b[..|l|] == l && c[..|l|] == l && b[|l| + 2..] == rest && c[|l| + 1..] == rest;
    assert rest != [] ==> c[|l| + 1] == rest[0];
  }

  /** The lines come back in order. */
  lemma {:induction false} TextSplitsIntoLines(entries: seq<Entry>)
    requires ValidEntries(entries)
    ensures |SplitLines(SumsText(entries))| == |entries|
    ensures forall i :: 0 <= i < |entries| ==> SplitLines(SumsText(entries))[i] == Line(entries[i])
  {
    hide Line, IsSum, IsPlainName, SplitLines, ParseLine;
    if entries == [] {
      assert SumsText(entries) == [];
      NothingToSplit();
    } else {
      LineReadsBack(entries[0]);
      SplitFirst(Line(entries[0]), SumsText(entries[1..]));
      TextSplitsIntoLines(entries[1..]);
      forall i | 0 < i < |entries|
        ensures SplitLines(SumsText(entries))[i] == Line(entries[i])
      {
        assert entries[1..][i - 1] == entries[i];
      }
    }
  }

  lemma NothingToSplit()
    ensures SplitLines([]) == []
  {
  }

  // ----- verification

  /** What one line must satisfy to be accepted. */
  predicate LineFits(l: Bytes, files: Files, digest: Digest) {
    var e := ParseLine(l);
    && e.Some? && e.value.name in files && e.value.name != SumsName()
    && digest(files[e.value.name]) == e.value.sum
  }

  ghost predicate Names(lines: seq<Bytes>, i: int, n: Name) {
    0 <= i < |lines| && ParseLine(lines[i]).Some? && ParseLine(lines[i]).value.name == n
  }

  /** Every line fits, none repeats a name, and every file but the checksum file is named. */
  ghost predicate LinesAccept(lines: seq<Bytes>, files: Files, digest: Digest) {
    && (forall i :: 0 <= i < |lines| ==> LineFits(lines[i], files, digest))
    && (forall i, j, n :: Names(lines, i, n) && Names(lines, j, n) ==> i == j)
    && (forall n :: n in files && n != SumsName() ==> exists i :: Names(lines, i, n))
  }

  /** The checksum loop of `verify_checkpoint`. */
  method VerifyLines(lines: seq<Bytes>, files: Files, digest: Digest) returns (ok: bool)
    ensures ok <==> LinesAccept(lines, files, digest)
  {
    hide ParseLine, SumsName;
    var expected := files.Keys - {SumsName()};
    var observed: set<Name> := {};
    for i := 0 to |lines|
      invariant forall j :: 0 <= j < i ==> LineFits(lines[j], files, digest)
      invariant forall j, k, n :: Names(lines, j, n) && Names(lines, k, n) && j < i && k < i ==> j == k
      invariant forall n :: n in observed <==> exists j :: j < i && Names(lines, j, n)
      invariant observed <= expected
    {
      var e := ParseLine(lines[i]);
      if e.None? {
        assert !LineFits(lines[i], files, digest);
        return false;
      }
      var name := e.value.name;
      assert Names(lines, i, name);
      if name in observed {
        ghost var j :| j < i && Names(lines, j, name);
        return false;
      }
      if name !in expected || digest(files[name]) != e.value.sum {
        assert !LineFits(lines[i], files, digest);
        return false;
      }
      forall n
        ensures n in observed + {name} <==> exists j :: j < i + 1 && Names(lines, j, n)
      {
        if j :| j < i + 1 && Names(lines, j, n) {
          if j < i {
            assert n in observed;
          }
        }
      }
      observed := observed + {name};
    }
    ok := observed == expected;
    if ok {
      forall n | n in files && n != SumsName()
        ensures exists i :: Names(lines, i, n)
      {
        assert n in observed;
        var j :| j < |lines| && Names(lines, j, n);
      }
    } else {
      ghost var n :| n in expected && n !in observed;
      assert forall j :: Names(lines, j, n) ==> j < |lines|;
      assert !exists i :: Names(lines, i, n);
    }
  }

  // ----- what a checksum file accepts

  /** `order` visits every name of `covered` once. */
  ghost predicate Visits(order: seq<Name>, covered: Files) {
    && (forall i, j :: 0 <= i < j < |order| ==> order[i] != order[j])
    && (forall i :: 0 <= i < |order| ==> order[i] in covered)
    && (forall n :: n in covered ==> n in order)
  }

  function EntriesOf(order: seq<Name>, covered: Files, digest: Digest): (entries: seq<Entry>)
    requires forall i :: 0 <= i < |order| ==> order[i] in covered
    ensures |entries| == |order|
    ensures forall i :: 0 <= i < |order| ==> entries[i] == Entry(digest(covered[order[i]]), order[i])
  {
    seq(|order|, i requires 0 <= i < |order| => Entry(digest(covered[order[i]]), order[i]))
  }

  /** A checksum file written for the files in `covered`. */
  ghost predicate Covers(text: Bytes, covered: Files, digest: Digest) {
    exists order :: Visits(order, covered) && text == SumsText(EntriesOf(order, covered, digest))
  }

  ghost predicate DigestOk(digest: Digest) {
    forall b :: IsSum(digest(b))
  }

  ghost predicate PlainNames(files: Files) {
    SumsName() !in files && forall n :: n in files ==> IsPlainName(n)
  }

  /** Verification against a checksum file accepts exactly the directories that hold the
      covered names with contents of the covered digests. */
  lemma AcceptsExactlyTheCovered(text: Bytes, covered: Files, files: Files, digest: Digest)
    requires DigestOk(digest) && PlainNames(covered) && Covers(text, covered, digest)
    ensures LinesAccept(SplitLines(text), files, digest) <==>
            && files.Keys - {SumsName()} == covered.Keys
            && forall n :: n in covered ==> digest(files[n]) == digest(covered[n])
  {
    hide SumsName, SplitLines, SumsText, IsSum, IsPlainName, ParseLine, Line;
    var order :| Visits(order, covered) && text == SumsText(EntriesOf(order, covered, digest));
    var entries := EntriesOf(order, covered, digest);
    TextSplitsIntoLines(entries);
    var lines := SplitLines(text);
    forall i | 0 <= i < |order|
      ensures ParseLine(lines[i]) == Some(entries[i]) && Names(lines, i, order[i])
    {
      LineReadsBack(entries[i]);
    }
    if LinesAccept(lines, files, digest) {
      forall n | n in covered
        ensures n in files && digest(files[n]) == digest(covered[n])
      {
        var i :| 0 <= i < |order| && order[i] == n;
        assert LineFits(lines[i], files, digest);
      }
      forall n | n in files && n != SumsName()
        ensures n in covered
      {
        var i :| Names(lines, i, n);
        assert order[i] == n;
      }
    }
    if files.Keys - {SumsName()} == covered.Keys && forall n :: n in covered ==> digest(files[n]) == digest(covered[n]) {
      forall i | 0 <= i < |lines|
        ensures LineFits(lines[i], files, digest)
      {
        assert order[i] in covered && order[i] in files.Keys - {SumsName()};
      }
      forall i, j, n | Names(lines, i, n) && Names(lines, j, n)
        ensures i == j
      {
        assert order[i] == n && order[j] == n;
      }
      forall n | n in files && n != SumsName()
        ensures exists i :: Names(lines, i, n)
      {
        assert n in covered.Keys && n in order;
        var i :| 0 <= i < |order| && order[i] == n;
        assert Names(lines, i, n);
      }
    }
  }

  /** No two different contents at hand share a digest. */
  ghost predicate NoCollision(covered: Files, files: Files, digest: Digest) {
    forall n :: n in covered && n in files && digest(files[n]) == digest(covered[n]) ==> files[n] == covered[n]
  }

  /** Without collisions: exactly the covered files, byte for byte. A manifest that changed
      after the checksum file was written, or a file it does not name, is refused. */
  lemma AcceptsOnlyOneCheckpoint(text: Bytes, covered: Files, files: Files, digest: Digest)
    requires DigestOk(digest) && PlainNames(covered) && Covers(text, covered, digest)
    requires NoCollision(covered, files, digest)
    ensures LinesAccept(SplitLines(text), files, digest) <==> files - {SumsName()} == covered
  {
    hide SumsName, SplitLines, LinesAccept, Covers, DigestOk, PlainNames;
    AcceptsExactlyTheCovered(text, covered, files, digest);
    var rest := files - {SumsName()};
    assert rest.Keys == files.Keys - {SumsName()};
    if rest.Keys == covered.Keys {
      assert forall n :: n in covered ==> n in rest.Keys && rest[n] == files[n];
    }
  }
}
