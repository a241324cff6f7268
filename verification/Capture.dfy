/** Bounded capture of a child's output: the head or the tail of a stream, however the
    reads happen to be chunked. */
module Capture {
  import opened Options
  import opened Bytes

  const BUFFER_BYTES: nat := 16 * 1024

  /** What one read gives, and how much of it can be copied to the log: less than all of it
      is an error. A read that returns nothing ends the stream and is not listed. */
  datatype Arrival = Chunk(bytes: Bytes, logged: nat) | ReadError

  datatype Captured = Captured(bytes: Bytes, truncated: bool)

  datatype CaptureError = CannotRead | CannotLog

  /** `read` returns between one byte and a full buffer. */
  ghost predicate ReadsOk(arrivals: seq<Arrival>) {
    forall a :: a in arrivals && a.Chunk? ==> 0 < |a.bytes| <= BUFFER_BYTES
  }

  function Stream(arrivals: seq<Arrival>): Bytes {
    if arrivals == [] then []
    else
      var a := arrivals[|arrivals| - 1];
      Stream(arrivals[..|arrivals| - 1]) + (if a.Chunk? then a.bytes else [])
  }

  function Head(s: Bytes, limit: nat): Bytes {
    if |s| <= limit then s else s[..limit]
  }

  function Tail(s: Bytes, limit: nat): Bytes {
    if |s| <= limit then s else s[|s| - limit..]
  }

  /** What `truncated` reports: in tail mode a lone read of exactly `limit` bytes counts. */
  predicate ReportsTruncated(total: nat, readCount: nat, limit: nat, tail: bool) {
    total > limit || (tail && readCount == 1 && total == limit)
  }

  lemma NothingRead(limit: nat)
    ensures Stream([]) == Tail([], limit) == Head([], limit) == []
  {
  }

  lemma StreamGrows(arrivals: seq<Arrival>, i: nat)
    requires i < |arrivals|
    ensures Stream(arrivals[..i + 1]) == Stream(arrivals[..i]) + (if arrivals[i].Chunk? then arrivals[i].bytes else [])
  {
    assert arrivals[..i + 1][..i] == arrivals[..i];
  }

  lemma {:induction false} ManyReadsAreLong(arrivals: seq<Arrival>)
    requires ReadsOk(arrivals) && forall a :: a in arrivals ==> a.Chunk?
    ensures |Stream(arrivals)| >= |arrivals|
  {
    if arrivals != [] {
      assert arrivals[|arrivals| - 1] in arrivals;
      ManyReadsAreLong(arrivals[..|arrivals| - 1]);
    }
  }

  /** One read in tail mode. */
  method KeepTail(ghost before: Bytes, bytes: Bytes, chunk: Bytes, limit: nat) returns (kept: Bytes, lost: bool)
    requires bytes == Tail(before, limit)
    ensures kept == Tail(before + chunk, limit)
    ensures chunk != [] ==> (lost <==> |chunk| >= limit || |before| + |chunk| > limit)
  {
    var read := |chunk|;
    if read >= limit {
      kept, lost := chunk[read - limit..], true;
    } else {
      var overflow := if |bytes| + read > limit then |bytes| + read - limit else 0;
      lost := overflow > 0;
      kept := bytes[overflow..] + chunk;
    }
  }

  /** One read in head mode. */
  method KeepHead(ghost before: Bytes, bytes: Bytes, chunk: Bytes, limit: nat) returns (kept: Bytes, lost: bool)
    requires bytes == Head(before, limit)
    ensures kept == Head(before + chunk, limit)
    ensures chunk != [] ==> (lost <==> |before| + |chunk| > limit)
  {
    var remaining := if limit > |bytes| then limit - |bytes| else 0;
    var retained := if remaining < |chunk| then remaining else |chunk|;
    kept, lost := bytes + chunk[..retained], retained < |chunk|;
  }

  /** `capture_stream`. */
  method CaptureStream(arrivals: seq<Arrival>, limit: nat, hasLog: bool, flushes: bool, retainTail: bool)
    returns (r: Result<Captured, CaptureError>, log: Bytes)
    requires ReadsOk(arrivals)
    ensures r.Ok? <==> && (forall a :: a in arrivals ==> a.Chunk? && (hasLog ==> a.logged >= |a.bytes|))
                       && (hasLog ==> flushes)
    ensures r.Ok? ==> r.value.bytes == if retainTail then Tail(Stream(arrivals), limit) else Head(Stream(arrivals), limit)
    ensures r.Ok? ==> r.value.truncated == ReportsTruncated(|Stream(arrivals)|, |arrivals|, limit, retainTail)
    ensures r.Ok? && hasLog ==> log == Stream(arrivals)
    ensures hasLog ==> log <= Stream(arrivals)
    ensures !hasLog ==> log == []
  {
    hide Stream, Tail, Head;
    NothingRead(limit);
    var bytes: Bytes, truncated := [], false;
    log := [];
    assert arrivals[..0] == [];
    for i := 0 to |arrivals|
      invariant forall a :: a in arrivals[..i] ==> a.Chunk? && (hasLog ==> a.logged >= |a.bytes|)
      invariant bytes == if retainTail then Tail(Stream(arrivals[..i]), limit) else Head(Stream(arrivals[..i]), limit)
      invariant truncated == ReportsTruncated(|Stream(arrivals[..i])|, i, limit, retainTail)
      invariant log == if hasLog then Stream(arrivals[..i]) else []
    {
      ghost var before := Stream(arrivals[..i]);
      StreamGrows(arrivals, i);
      PrefixOfStream(arrivals, i + 1);
      assert arrivals[i] in arrivals && arrivals[..i + 1] == arrivals[..i] + [arrivals[i]];
      if arrivals[i].ReadError? {
        return Err(CannotRead), log;
      }
      var chunk := arrivals[i].bytes;
      if hasLog {
        if arrivals[i].logged < |chunk| {
          return Err(CannotLog), log + chunk[..arrivals[i].logged];
        }
        log := log + chunk;
      }
      ManyReadsAreLong(arrivals[..i]);
      var lost;
      if retainTail {
        bytes, lost := KeepTail(before, bytes, chunk, limit);
      } else {
        bytes, lost := KeepHead(before, bytes, chunk, limit);
      }
      truncated := truncated || lost;
    }
    assert arrivals[..|arrivals|] == arrivals;
    if hasLog && !flushes {
      return Err(CannotLog), log;
    }
    r := Ok(Captured(bytes, truncated));
  }

  lemma {:induction false} PrefixOfStream(arrivals: seq<Arrival>, i: nat)
    requires i <= |arrivals|
    ensures Stream(arrivals[..i]) <= Stream(arrivals)
    decreases |arrivals| - i
  {
    if i < |arrivals| {
      StreamGrows(arrivals, i);
      PrefixOfStream(arrivals, i + 1);
    } else {
      assert arrivals[..i] == arrivals;
    }
  }

  /** With a limit above the buffer size, the flag says exactly whether bytes were lost. */
  lemma ReportIsExactForLargeLimits(arrivals: seq<Arrival>, limit: nat, tail: bool)
    requires ReadsOk(arrivals) && (forall a :: a in arrivals ==> a.Chunk?)
    requires limit > BUFFER_BYTES
    ensures ReportsTruncated(|Stream(arrivals)|, |arrivals|, limit, tail) <==> |Stream(arrivals)| > limit
  {
    if |arrivals| == 1 {
      assert arrivals[0] in arrivals;
      assert Stream(arrivals) == Stream(arrivals[..0]) + arrivals[0].bytes;
    }
  }

  /** Exactly when the flag misreports: tail mode, one read, and that read fills the limit. */
  lemma MisreportsExactlyOnLoneFullRead(arrivals: seq<Arrival>, limit: nat, tail: bool)
    requires ReadsOk(arrivals) && (forall a :: a in arrivals ==> a.Chunk?)
    ensures (ReportsTruncated(|Stream(arrivals)|, |arrivals|, limit, tail) <==> |Stream(arrivals)| > limit)
       <==> !(tail && |arrivals| == 1 && |arrivals[0].bytes| == limit)
  {
    if |arrivals| == 1 {
      assert arrivals[0] in arrivals;
      assert Stream(arrivals) == Stream(arrivals[..0]) + arrivals[0].bytes;
    }
  }

  /** Such a read exists: two bytes, captured whole, reported as truncated. */
  lemma LoneFullReadExample()
    ensures var arrivals := [Chunk([104, 105], 2)];
            && ReadsOk(arrivals)
            && Tail(Stream(arrivals), 2) == Stream(arrivals) == [104, 105]
            && ReportsTruncated(|Stream(arrivals)|, |arrivals|, 2, true)
  {
    var arrivals := [Chunk([104, 105], 2)];
    assert arrivals[..0] == [];
    assert Stream(arrivals) == [104, 105];
  }
}
