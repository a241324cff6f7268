/** The resumable acceptance gate: harnesses run in dependency order, a checkpoint after
    each, and a resume that trusts nothing it cannot verify. */
module Gate {
  import opened Options
  import opened Bytes
  import opened Checkpoint
  import opened GateManifest

  // ----- the world around the gate

  /** How a step ends: normally, with an error the gate reports, with an exception of a kind
      it does not catch, or with the death of the process. */
  datatype Outcome = Done | Raised | Escaped | Dead

  datatype WriteStep = AtOpen | AtWrite | AtReplace | AtSync | Completes

  /** Where a private write stops, what its temporary file then holds, and whether the
      process dies there or goes on to unlink that file. */
  datatype WriteFate = WriteFate(step: WriteStep, partial: Bytes, dies: bool, unlinks: bool)

  /** The write stops between creating and renaming its temporary file, and does not unlink it. */
  predicate LeavesTemp(f: WriteFate) {
    (f.step == AtWrite || f.step == AtReplace) && (f.dies || !f.unlinks)
  }

  function StoppedBy(f: WriteFate): Outcome {
    if f.step == Completes then Done else if f.dies then Dead else Raised
  }

  /** Whether the write gets as far as its rename. */
  predicate Replaces(f: WriteFate) {
    f.step == AtSync || f.step == Completes
  }

  datatype RemoveFate = Removes | Refuses | DiesFirst

  datatype Exit = CannotRun | Interrupted | TimedOut | Exited(code: int)

  /** What the gate learns of a harness process: how it ended, whether an interrupt came in the
      meantime, whether the harness removed its home, whether the gate's own cleanup worked,
      whether the repository snapshot is unchanged, and which script ran. */
  datatype Verdict = Verdict(exit: Exit, interrupted: bool, homeRemoved: bool, cleaned: bool, snapshotKept: bool, source: Bytes)

  /** How a harness run ends and which new files it leaves in the evidence directory. */
  datatype RunFate = Ends(verdict: Verdict, made: Files) | Raises(made: Files) | Escapes(made: Files) | Dies(made: Files)

  /** The run itself gives no reason to fail. */
  predicate WentWell(v: Verdict, spec: Spec) {
    v.exit == Exited(0) && !v.interrupted && v.homeRemoved && v.cleaned && v.snapshotKept && v.source == spec.source
  }

  /** Everything that is not up to the gate, indexed by a step counter, and by harness. */
  datatype World = World(write: nat -> WriteFate, tag: nat -> Bytes, remove: nat -> RemoveFate, run: (nat, nat) -> RunFate,
                         prepared: nat -> bool, trouble: nat -> bool)

  datatype Refusal = NotVerified | OtherIdentity | Gap | Evidence | NoRecord

  datatype End = EndSucceeded | EndFailed | EndEscaped | EndDead

  /** What a session reports: how it ended, whether it got as far as a manifest, whether an
      exception escaped it, whether it saved its last manifest, why it refused to resume, when
      it first looked for interrupts and cleanup errors at its end, and the state it left. */
  datatype Report = Report(end: End, started: bool, escaped: bool, saved: bool, refusal: Option<Refusal>, checked: nat,
                           manifest: Manifest, files: Files)

  datatype Request = Request(resume: bool, identity: Bytes)

  datatype Event = Runs(request: Request) | LosesPower(others: Files, which: nat, gone: bool)

  /** What a session finds: the directory, and what its checksum file was written for. */
  datatype Found = Found(files: Files, covered: Option<Files>)

  // ----- names and directories

  predicate IsEvidence(specs: seq<Spec>, n: Name) {
    exists i :: 0 <= i < |specs| && specs[i].evidence == n
  }

  predicate IsAllowed(specs: seq<Spec>, n: Name) {
    n == ManifestName() || n == SumsName() || IsEvidence(specs, n)
  }

  /** `validate_evidence_directory_entries`. */
  predicate EntriesAllowed(specs: seq<Spec>, files: Files) {
    forall n :: n in files ==> IsAllowed(specs, n)
  }

  predicate AllReadable(specs: seq<Spec>, env: Env, files: Files) {
    forall i :: 0 <= i < |specs| && specs[i].evidence in files ==> env.readable(i, files[specs[i].evidence])
  }

  function Temp(name: Name, tag: Bytes): Name {
    [46] + (name + ([46] + (tag + Ascii(".tmp"))))
  }

  ghost predicate Hidden(n: Name) {
    n != [] && n[0] == 46
  }

  ghost predicate HasHidden(files: Files) {
    exists n :: n in files && Hidden(n)
  }

  /** There is an entry that no checkpoint may have, such as a temporary file. */
  ghost predicate Littered(specs: seq<Spec>, files: Files) {
    !EntriesAllowed(specs, files)
  }

  /** Entries that a checkpoint may not have are not removed. */
  ghost predicate KeepsLitter(specs: seq<Spec>, before: Files, after: Files) {
    forall n :: n in before && !IsAllowed(specs, n) ==> n in after
  }

  lemma LitterStays(specs: seq<Spec>, before: Files, after: Files)
    requires KeepsLitter(specs, before, after) && Littered(specs, before)
    ensures Littered(specs, after)
  {
  }

  lemma LitterPassedOn(specs: seq<Spec>, a: Files, b: Files, c: Files)
    requires KeepsLitter(specs, a, b) && KeepsLitter(specs, b, c)
    ensures KeepsLitter(specs, a, c)
  {
  }

  /** Nothing that a checkpoint would stumble over. */
  ghost predicate Clean(specs: seq<Spec>, env: Env, files: Files) {
    EntriesAllowed(specs, files) && AllReadable(specs, env, files)
  }

  /** Every system call works, and no interrupt or cleanup error comes. */
  ghost predicate Calm(world: World) {
    forall k :: world.write(k).step == Completes && world.remove(k).Removes? && !world.trouble(k)
  }

  /** Whenever harness `d` runs, an exception that the gate does not catch comes up, with
      nothing left behind but perhaps readable evidence. */
  ghost predicate EscapesIn(specs: seq<Spec>, env: Env, world: World, d: nat) {
    d < |specs| && forall k :: SlipsAway(specs[d], env, d, world.run(k, d))
  }

  ghost predicate SlipsAway(spec: Spec, env: Env, i: nat, fate: RunFate) {
    && fate.Escapes? && fate.made.Keys <= {spec.evidence}
    && (spec.evidence in fate.made ==> env.readable(i, fate.made[spec.evidence]))
  }

  /** Whenever harness `d` runs, the process dies before that has left any file. */
  ghost predicate DiesIn(world: World, d: nat) {
    forall k :: world.run(k, d) == Dies(map[])
  }

  /** Nothing goes wrong outside the gate up to harness `d`, which ends the session one way or
      the other: each harness before it leaves exactly its own passing evidence. */
  ghost predicate Stops(specs: seq<Spec>, env: Env, world: World, identity: Bytes, d: nat) {
    && Calm(world) && d <= |specs|
    && (forall k, i :: 0 <= i < d ==> Proves(specs[i], env, identity, i, world.run(k, i)))
    && (d < |specs| ==> EscapesIn(specs, env, world, d) || DiesIn(world, d))
  }

  /** Nothing goes wrong at all. */
  ghost predicate Smooth(specs: seq<Spec>, env: Env, world: World, identity: Bytes) {
    Stops(specs, env, world, identity, |specs|)
  }

  ghost predicate Proves(spec: Spec, env: Env, identity: Bytes, i: nat, fate: RunFate) {
    && fate.Ends? && WentWell(fate.verdict, spec) && fate.made.Keys == {spec.evidence}
    && env.readable(i, fate.made[spec.evidence]) && env.passing(identity, i, fate.made[spec.evidence])
  }

  lemma CalmMeans(world: World, k: nat)
    requires Calm(world)
    ensures world.write(k).step == Completes && world.remove(k).Removes? && forall j :: !world.trouble(j)
  {
  }

  lemma StopsMeans(specs: seq<Spec>, env: Env, world: World, identity: Bytes, d: nat, k: nat, i: nat)
    requires Stops(specs, env, world, identity, d) && i <= d && i < |specs|
    ensures Calm(world)
    ensures i < d ==> Proves(specs[i], env, identity, i, world.run(k, i))
    ensures i == d ==> if EscapesIn(specs, env, world, d) then SlipsAway(specs[i], env, i, world.run(k, i)) else world.run(k, i) == Dies(map[])
  {
  }

  /** How such a session's work ends. */
  ghost predicate Stopped(specs: seq<Spec>, env: Env, world: World, d: nat, o: Outcome, failure: bool, files: Files, saved: bool, m: Manifest) {
    && PassedBelow(m, d)
    && if d == |specs| then o.Done? && !failure && Clean(specs, env, files)
       else if EscapesIn(specs, env, world, d) then o.Escaped? && Clean(specs, env, files)
       else o.Dead? && saved
  }

  ghost predicate PassedBelow(m: Manifest, d: nat) {
    d <= |m.records| && forall i :: 0 <= i < d ==> m.records[i].status.Passed?
  }

  /** What `verify_checkpoint` accepts. */
  ghost predicate Verified(specs: seq<Spec>, env: Env, files: Files) {
    && EntriesAllowed(specs, files) && SumsName() in files
    && LinesAccept(SplitLines(files[SumsName()]), files, env.digest)
    && ManifestName() in files && env.decode(files[ManifestName()]).Some? && AllReadable(specs, env, files)
  }

  /** A passed result on a manifest with something left to pass. */
  ghost predicate Overstated(specs: seq<Spec>, m: Manifest) {
    m.result.GatePassed? && !Complete(specs, m)
  }

  /** What a completed `write_checkpoint` covered. */
  ghost predicate Checkpointed(specs: seq<Spec>, env: Env, escaped: bool, c: Files) {
    && PlainNames(c) && EntriesAllowed(specs, c) && AllReadable(specs, env, c)
    && ManifestName() in c && env.decode(c[ManifestName()]).Some?
    && var m := env.decode(c[ManifestName()]).value;
    Sound(specs, env, m, c) && (!escaped ==> !Overstated(specs, m))
  }

  /** The checksum file, if there is one, comes from a completed checkpoint. */
  ghost predicate Recorded(specs: seq<Spec>, env: Env, escaped: bool, files: Files, covered: Option<Files>) {
    && (covered.None? <==> SumsName() !in files)
    && (covered.Some? ==> Covers(files[SumsName()], covered.value, env.digest) && Checkpointed(specs, env, escaped, covered.value))
  }

  lemma ReservedNames()
    ensures ManifestName() != SumsName() && !Hidden(ManifestName()) && !Hidden(SumsName())
    ensures IsPlainName(ManifestName())
  {
    hide IsPlainName;
    PlainText("acceptance.json");
    assert SumsName()[0] == 83;
  }

  /** Temporary files are never among the allowed entries. */
  lemma HiddenIsNotAllowed(specs: seq<Spec>, n: Name)
    requires SpecsOk(specs) && Hidden(n)
    ensures !IsAllowed(specs, n)
  {
    hide ManifestName, SumsName, Partition;
    ReservedNames();
  }

  /** A clean directory has no temporary files, and stays clean when only the reserved files
      change or files go. */
  lemma StaysClean(specs: seq<Spec>, env: Env, before: Files, after: Files)
    requires SpecsOk(specs) && Clean(specs, env, before)
    requires forall n :: n in after && n != ManifestName() && n != SumsName() ==> n in before && after[n] == before[n]
    ensures Clean(specs, env, after) && !HasHidden(before)
  {
    hide ManifestName, SumsName, Partition, IsPlainName, IsAllowed;
    forall n | n in before
      ensures !Hidden(n)
    {
      if Hidden(n) {
        HiddenIsNotAllowed(specs, n);
      }
    }
    forall n | n in after
      ensures IsAllowed(specs, n)
    {
      ReservedAreAllowed(specs);
    }
  }

  lemma ReservedAreAllowed(specs: seq<Spec>)
    ensures IsAllowed(specs, ManifestName()) && IsAllowed(specs, SumsName())
  {
  }

  lemma CleanMeans(specs: seq<Spec>, env: Env, files: Files)
    ensures Clean(specs, env, files) <==> EntriesAllowed(specs, files) && AllReadable(specs, env, files)
    ensures Verified(specs, env, files) ==> Clean(specs, env, files)
  {
  }

  // ----- what verification means

  /** Verification accepts exactly the directory that the last completed checkpoint covered,
      unless a digest collides: a manifest replaced before a crash, a new evidence file, a
      missing or changed one are all refused. */
  lemma VerifiedExactlyWhenCovered(specs: seq<Spec>, env: Env, escaped: bool, files: Files, covered: Option<Files>)
    requires SpecsOk(specs) && EnvOk(env) && Recorded(specs, env, escaped, files, covered)
    requires covered.Some? ==> NoCollision(covered.value, files, env.digest)
    ensures Verified(specs, env, files) <==> covered.Some? && files - {SumsName()} == covered.value
  {
    hide ManifestName, SumsName, LinesAccept, Covers, DigestOk, PlainNames, Sound, Overstated, NoCollision, IsAllowed, SpecsOk;
    if covered.Some? {
      AcceptsOnlyOneCheckpoint(files[SumsName()], covered.value, files, env.digest);
      if files - {SumsName()} == covered.value {
        CoveredIsVerified(specs, env, escaped, files, covered.value);
      }
    }
  }

  lemma CoveredIsVerified(specs: seq<Spec>, env: Env, escaped: bool, files: Files, c: Files)
    requires SpecsOk(specs) && EnvOk(env) && SumsName() in files && files - {SumsName()} == c
    requires Covers(files[SumsName()], c, env.digest) && Checkpointed(specs, env, escaped, c)
    ensures Verified(specs, env, files)
  {
    hide SumsName, ManifestName, LinesAccept, Covers, Sound, Overstated, DigestOk, Partition;
    assert forall n :: n in c ==> files[n] == c[n];
    AcceptsOnlyOneCheckpoint(files[SumsName()], c, files, env.digest);
    forall n | n in files
      ensures IsAllowed(specs, n)
    {
      if n != SumsName() {
        assert n in c;
      }
    }
    forall i | 0 <= i < |specs| && specs[i].evidence in files
      ensures env.readable(i, files[specs[i].evidence])
    {
      assert specs[i].evidence in c;
    }
  }

  // ----- what a checkpoint covers

  /** The names that a checkpoint lists: the manifest and the evidence that is there. */
  ghost predicate Lists(specs: seq<Spec>, files: Files, order: seq<Name>) {
    && (forall i, k :: 0 <= i < k < |order| ==> order[i] != order[k])
    && (forall n :: n in order <==> n in files && (n == ManifestName() || IsEvidence(specs, n)))
  }

  function Chosen(files: Files, order: seq<Name>): Files {
    map n | n in order && n in files :: files[n]
  }

  lemma ChosenIsCheckpointed(specs: seq<Spec>, env: Env, escaped: bool, m: Manifest, files: Files, order: seq<Name>)
    requires SpecsOk(specs) && EnvOk(env) && Sound(specs, env, m, files) && AllReadable(specs, env, files)
    requires ManifestName() in files && files[ManifestName()] == env.encode(m) && Lists(specs, files, order)
    requires !escaped ==> !Overstated(specs, m)
    ensures Visits(order, Chosen(files, order)) && Checkpointed(specs, env, escaped, Chosen(files, order))
    ensures forall i :: 0 <= i < |order| ==> order[i] in files
    ensures Covers(SumsText(EntriesOf(order, files, env.digest)), Chosen(files, order), env.digest)
  {
    hide ManifestName, SumsName, Sound, Overstated, Partition, DigestOk, IsPlainName;
    ReservedNames();
    var c := Chosen(files, order);
    forall i | 0 <= i < |specs| && specs[i].evidence in files
      ensures specs[i].evidence in c && c[specs[i].evidence] == files[specs[i].evidence]
    {
      assert IsEvidence(specs, specs[i].evidence);
    }
    SameEvidenceIsSound(specs, env, m, files, c);
    assert forall n :: n in c ==> n in order;
    assert forall n :: n in c ==> IsPlainName(n) && n != SumsName();
    assert EntriesOf(order, c, env.digest) == EntriesOf(order, files, env.digest);
  }

  /** What a private write does to the directory. */
  ghost predicate AfterWrite(before: Files, after: Files, name: Name, payload: Bytes, replaced: bool) {
    && (forall n :: n in before && n != name ==> n in after && after[n] == before[n])
    && (forall n :: n in after ==> n in before || n == name || Hidden(n))
    && (if replaced then name in after && after[name] == payload
        else (name in after <==> name in before) && (name in after ==> after[name] == before[name]))
  }

  /** The evidence files are the same before and after. */
  ghost predicate SameEvidence(specs: seq<Spec>, before: Files, after: Files) {
    forall i :: 0 <= i < |specs| ==>
                  && (specs[i].evidence in before <==> specs[i].evidence in after)
                  && (specs[i].evidence in before ==> after[specs[i].evidence] == before[specs[i].evidence])
  }

  lemma EvidenceKeepsSound(specs: seq<Spec>, env: Env, m: Manifest, before: Files, after: Files)
    requires Sound(specs, env, m, before) && SameEvidence(specs, before, after)
    ensures Sound(specs, env, m, after)
  {
    SameEvidenceIsSound(specs, env, m, before, after);
  }

  ghost predicate SameSums(before: Files, after: Files) {
    && (SumsName() in before <==> SumsName() in after)
    && (SumsName() in before ==> after[SumsName()] == before[SumsName()])
  }

  lemma WriteKeepsEvidence(specs: seq<Spec>, before: Files, after: Files, name: Name, payload: Bytes, replaced: bool)
    requires SpecsOk(specs) && AfterWrite(before, after, name, payload, replaced)
    requires name == ManifestName() || name == SumsName()
    ensures SameEvidence(specs, before, after)
    ensures !replaced || name == ManifestName() ==> SameSums(before, after)
    ensures replaced ==> name in after && after[name] == payload
    ensures KeepsLitter(specs, before, after)
  {
    hide ManifestName, SumsName, Partition, IsPlainName, IsAllowed;
    ReservedNames();
    ReservedAreAllowed(specs);
  }

  /** How a private write ends in a directory without temporary files, step by step. */
  ghost predicate WriteEnd(f: WriteFate, before: Files, after: Files, o: Outcome, replaced: bool) {
    && o == StoppedBy(f) && (replaced <==> Replaces(f))
    && (HasHidden(after) <==> LeavesTemp(f))
    && (!replaced && !LeavesTemp(f) ==> after == before)
  }

  /** How a checkpoint of a clean directory ends, by the fates of its two writes. */
  ghost predicate CheckpointEnd(specs: seq<Spec>, env: Env, m: Manifest, first: WriteFate, second: WriteFate, before: Files, after: Files,
                                coveredBefore: Option<Files>, coveredAfter: Option<Files>, o: Outcome) {
    var between := before[ManifestName() := env.encode(m)];
    var last := if first.step == Completes then second else first;
    && o == StoppedBy(last)
    && (Littered(specs, after) <==> LeavesTemp(last))
    && (if first.step == Completes && Replaces(second) then coveredAfter == Some(after - {SumsName()}) else coveredAfter == coveredBefore)
    && (!LeavesTemp(last) && !(first.step == Completes && Replaces(second)) ==> after == if Replaces(first) then between else before)
  }

  ghost predicate SumsEnd(specs: seq<Spec>, f: WriteFate, before: Files, after: Files,
                          coveredBefore: Option<Files>, coveredAfter: Option<Files>, o: Outcome) {
    && o == StoppedBy(f)
    && (Littered(specs, after) <==> LeavesTemp(f))
    && (if Replaces(f) then coveredAfter == Some(after - {SumsName()}) else coveredAfter == coveredBefore)
    && (!LeavesTemp(f) && !Replaces(f) ==> after == before)
  }

  /** Where a checkpoint may stop short: nothing changed, an entry is in the way, only the
      manifest is new, or everything is in place. */
  ghost predicate StopPoint(specs: seq<Spec>, env: Env, m: Manifest, before: Files, after: Files,
                            coveredBefore: Option<Files>, coveredAfter: Option<Files>) {
    || (after == before && coveredAfter == coveredBefore)
    || Littered(specs, after)
    || (after == before[ManifestName() := env.encode(m)] && coveredAfter == coveredBefore)
    || coveredAfter == Some(after - {SumsName()})
  }

  /** Every checksum file ever put in place was that of a completed checkpoint. */
  ghost predicate History(specs: seq<Spec>, env: Env, escaped: bool, texts: seq<Bytes>, past: seq<Files>) {
    && |texts| == |past|
    && forall k :: 0 <= k < |texts| ==> Covers(texts[k], past[k], env.digest) && Checkpointed(specs, env, escaped, past[k])
  }

  lemma HiddenIsLitter(specs: seq<Spec>, files: Files)
    requires SpecsOk(specs)
    ensures HasHidden(files) ==> Littered(specs, files)
  {
    hide IsAllowed, SpecsOk;
    if HasHidden(files) {
      var t :| t in files && Hidden(t);
      HiddenIsNotAllowed(specs, t);
    }
  }

  lemma CleanHasNoHidden(specs: seq<Spec>, env: Env, files: Files)
    requires SpecsOk(specs)
    ensures Clean(specs, env, files) ==> !HasHidden(files)
  {
    hide IsAllowed, SpecsOk, HasHidden, AllReadable;
    HiddenIsLitter(specs, files);
  }

  /** After a private write to a clean directory only a temporary file can be in the way. */
  lemma LitterIsHidden(specs: seq<Spec>, env: Env, before: Files, after: Files, name: Name, payload: Bytes, replaced: bool)
    requires SpecsOk(specs) && Clean(specs, env, before) && AfterWrite(before, after, name, payload, replaced)
    requires name == ManifestName() || name == SumsName()
    ensures Littered(specs, after) <==> HasHidden(after)
  {
    hide IsAllowed, SpecsOk, AllReadable, ManifestName, SumsName;
    HiddenIsLitter(specs, after);
    ReservedAreAllowed(specs);
    if !HasHidden(after) {
      forall n | n in after
        ensures IsAllowed(specs, n)
      {
        assert n in before || n == name;
      }
    }
  }

  lemma SumsEnds(specs: seq<Spec>, env: Env, f: WriteFate, before: Files, after: Files, text: Bytes,
                 coveredBefore: Option<Files>, coveredAfter: Option<Files>, stopped: Outcome, o: Outcome, replaced: bool)
    requires SpecsOk(specs) && Clean(specs, env, before) && AfterWrite(before, after, SumsName(), text, replaced)
    requires WriteEnd(f, before, after, stopped, replaced)
    requires o == if stopped.Done? && !EntriesAllowed(specs, after) then Raised else stopped
    requires replaced && EntriesAllowed(specs, after) ==> coveredAfter == Some(after - {SumsName()})
    requires !replaced ==> coveredAfter == coveredBefore
    ensures SumsEnd(specs, f, before, after, coveredBefore, coveredAfter, o)
  {
    hide SpecsOk, AfterWrite, Clean, EntriesAllowed, HasHidden, SumsName;
    LitterIsHidden(specs, env, before, after, SumsName(), text, replaced);
  }

  /** What the first write settles: the end, unless it completes. */
  lemma FirstWriteEnds(specs: seq<Spec>, env: Env, m: Manifest, first: WriteFate, second: WriteFate, before: Files, after: Files,
                       covered: Option<Files>, o: Outcome, replaced: bool)
    requires SpecsOk(specs) && Clean(specs, env, before) && AfterWrite(before, after, ManifestName(), env.encode(m), replaced)
    requires WriteEnd(first, before, after, o, replaced) && (replaced ==> after == before[ManifestName() := env.encode(m)])
    ensures o.Done? <==> first.step == Completes
    ensures !o.Done? ==> CheckpointEnd(specs, env, m, first, second, before, after, covered, covered, o)
    ensures o.Done? ==> after == before[ManifestName() := env.encode(m)] && Clean(specs, env, after)
  {
    hide SpecsOk, AfterWrite, Clean, HasHidden, ManifestName, SumsName, Littered;
    LitterIsHidden(specs, env, before, after, ManifestName(), env.encode(m), replaced);
    if o.Done? {
      StaysClean(specs, env, before, after);
    }
  }

  lemma CheckpointEnds(specs: seq<Spec>, env: Env, m: Manifest, world: World, k: nat, before: Files, between: Files, after: Files,
                       coveredBefore: Option<Files>, coveredAfter: Option<Files>, first: Outcome, o: Outcome)
    requires SpecsOk(specs) && Clean(specs, env, before) && SameEvidence(specs, before, after)
    requires first.Done? <==> world.write(k).step == Completes
    requires !first.Done? ==> o == first && CheckpointEnd(specs, env, m, world.write(k), world.write(k + 1), before, after, coveredBefore, coveredAfter, o)
    requires first.Done? ==> && between == before[ManifestName() := env.encode(m)]
                             && SumsEnd(specs, world.write(k + 1), between, after, coveredBefore, coveredAfter, o)
    ensures CheckpointEnd(specs, env, m, world.write(k), world.write(k + 1), before, after, coveredBefore, coveredAfter, o)
    ensures Calm(world) ==> o.Done? && Clean(specs, env, after)
  {
    hide SpecsOk, ManifestName, SumsName, EntriesAllowed;
    if Calm(world) {
      CalmMeans(world, k);
      CalmMeans(world, k + 1);
    }
  }

  lemma FirstLitters(specs: seq<Spec>, env: Env, m: Manifest, first: WriteFate, second: WriteFate, before: Files, after: Files,
                     coveredBefore: Option<Files>, coveredAfter: Option<Files>, o: Outcome)
    requires LeavesTemp(first) && CheckpointEnd(specs, env, m, first, second, before, after, coveredBefore, coveredAfter, o)
    ensures Littered(specs, after) && o == StoppedBy(first) && !o.Done?
  {
    hide ManifestName, SumsName, Littered;
  }

  lemma EvidenceKept(specs: seq<Spec>, a: Files, b: Files, c: Files)
    requires SameEvidence(specs, a, b)
    ensures SameEvidence(specs, b, c) ==> SameEvidence(specs, a, c)
    ensures SameEvidence(specs, b, b) && KeepsLitter(specs, b, b)
  {
  }

  // ----- the gate

  class Gate {
    const specs: seq<Spec>
    const env: Env
    const world: World
    var clock: nat
    /** The evidence directory: whether it exists, and its files. */
    var made: bool
    var files: Files
    var manifest: Manifest
    /** Every checksum file that was ever put in place, and what each was written for. */
    var texts: seq<Bytes>
    ghost var past: seq<Files>
    /** What the present checksum file was written for. */
    ghost var covered: Option<Files>
    /** Whether an exception of a kind the gate does not catch ever ended a session. */
    ghost var escaped: bool

    ghost predicate Inv()
      reads this
    {
      && SpecsOk(specs) && EnvOk(env)
      && (!made ==> files == map[])
      && Recorded(specs, env, escaped, files, covered)
      && History(specs, env, escaped, texts, past)
    }

    constructor (specs: seq<Spec>, env: Env, world: World)
      requires SpecsOk(specs) && EnvOk(env)
      ensures Inv() && !made && !escaped && this.specs == specs && this.env == env && this.world == world
    {
      this.specs, this.env, this.world := specs, env, world;
      clock, made, files, manifest := 0, false, map[], Fresh(specs, []);
      texts, past, covered, escaped := [], [], None, false;
    }

    /** `atomic_write_private`, step by step. */
    method AtomicWrite(name: Name, payload: Bytes) returns (o: Outcome, replaced: bool)
      requires !Hidden(name)
      modifies this`files, this`clock
      ensures AfterWrite(old(files), files, name, payload, replaced)
      ensures o.Done? ==> files == old(files)[name := payload] && replaced
      ensures !o.Escaped? && clock == old(clock) + 1
      ensures !replaced ==> files == old(files) || HasHidden(files)
      ensures replaced ==> files == old(files)[name := payload]
      ensures !HasHidden(old(files)) ==> WriteEnd(world.write(old(clock)), old(files), files, o, replaced)
    {
      var fate, temp := world.write(clock), Temp(name, world.tag(clock));
      clock, replaced := clock + 1, false;
      var stopped := if fate.dies then Dead else Raised;
      if fate.step == AtOpen || temp in files {
        return stopped, false;
      }
      files := files[temp := []];
      if fate.step == AtWrite || fate.step == AtReplace {
        files := files[temp := if fate.step == AtWrite then fate.partial else payload];
        if !fate.dies && fate.unlinks {
          files := files - {temp};
          assert files == old(files);
        }
        return stopped, false;
      }
      assert files - {temp} == old(files);
      files, replaced := (files - {temp})[name := payload], true;
      o := if fate.step == AtSync then stopped else Done;
    }

    /** The manifest and the evidence that is there, in order; all of it must be readable. */
    method CheckpointNames() returns (ok: bool, order: seq<Name>)
      requires SpecsOk(specs) && ManifestName() in files
      ensures ok <==> AllReadable(specs, env, files)
      ensures ok ==> Lists(specs, files, order)
    {
      hide ManifestName, SumsName, Partition, IsPlainName;
      order := [ManifestName()];
      for i := 0 to |specs|
        invariant forall k :: 0 <= k < i && specs[k].evidence in files ==> env.readable(k, files[specs[k].evidence])
        invariant forall a, b :: 0 <= a < b < |order| ==> order[a] != order[b]
        invariant forall n :: n in order <==> n in files && (n == ManifestName() || IsEvidence(specs[..i], n))
      {
        var name := specs[i].evidence;
        if name in files {
          if !env.readable(i, files[name]) {
            return false, [];
          }
          order := order + [name];
        }
        ghost var earlier, later := specs[..i], specs[..i + 1];
        forall n
          ensures IsEvidence(later, n) <==> IsEvidence(earlier, n) || n == name
        {
          assert later[i].evidence == name;
          if k :| 0 <= k < |earlier| && earlier[k].evidence == n {
            assert later[k].evidence == n;
          }
        }
      }
      assert specs[..|specs|] == specs;
      ok := true;
    }

    /** `write_checkpoint`: the manifest first, then a checksum file over everything. */
    method WriteCheckpoint() returns (o: Outcome)
      requires Inv() && made && Sound(specs, env, manifest, files)
      requires !escaped ==> !Overstated(specs, manifest)
      modifies this`files, this`clock, this`covered, this`texts, this`past
      ensures Inv() && Sound(specs, env, manifest, files) && !o.Escaped?
      ensures SameEvidence(specs, old(files), files)
      ensures old(SumsName() in files) ==> SumsName() in files
      ensures o.Done? ==> Saved() && clock == old(clock) + 2
      ensures !o.Done? ==> StopPoint(specs, env, manifest, old(files), files, old(covered), covered)
      ensures KeepsLitter(specs, old(files), files)
      ensures Clean(specs, env, old(files)) ==>
                CheckpointEnd(specs, env, manifest, world.write(old(clock)), world.write(old(clock) + 1), old(files), files, old(covered), covered, o)
      ensures Calm(world) && Clean(specs, env, old(files)) ==> o.Done? && Clean(specs, env, files)
    {
      hide ManifestName, SumsName, SpecsOk, EnvOk, Sound, Overstated, AllReadable, Recorded, Clean, Calm, AfterWrite, Hidden, HasHidden, Littered, KeepsLitter, History, SameEvidence, SameSums, WriteEnd, SumsEnd, CheckpointEnd, EntriesAllowed, IsSaved, Lists, StoppedBy;
      ReservedNames();
      CleanHasNoHidden(specs, env, files);
      var replaced;
      o, replaced := AtomicWrite(ManifestName(), env.encode(manifest));
      WriteKeepsEvidence(specs, old(files), files, ManifestName(), env.encode(manifest), replaced);
      EvidenceKeepsSound(specs, env, manifest, old(files), files);
      SameSumsSameRecord(specs, env, escaped, old(files), files, covered);
      HiddenIsLitter(specs, files);
      ghost var between, first := files, o;
      if Clean(specs, env, old(files)) {
        FirstWriteEnds(specs, env, manifest, world.write(old(clock)), world.write(old(clock) + 1), old(files), files, covered, o, replaced);
        CleanMeans(specs, env, files);
      }
      if o.Done? {
        var ok, order := CheckpointNames();
        if ok {
          o := WriteSums(order);
        } else {
          o := Raised;
        }
      }
      EvidenceKeepsSound(specs, env, manifest, between, files);
      EvidenceKept(specs, old(files), between, files);
      LitterPassedOn(specs, old(files), between, files);
      if Clean(specs, env, old(files)) {
        CheckpointEnds(specs, env, manifest, world, old(clock), old(files), between, files, old(covered), covered, first, o);
      }
    }

    /** The second write of a checkpoint, and the last look at the directory. */
    method WriteSums(order: seq<Name>) returns (o: Outcome)
      requires Inv() && made && Sound(specs, env, manifest, files)
      requires !escaped ==> !Overstated(specs, manifest)
      requires ManifestName() in files && files[ManifestName()] == env.encode(manifest)
      requires AllReadable(specs, env, files) && Lists(specs, files, order)
      modifies this`files, this`clock, this`covered, this`texts, this`past
      ensures Inv() && !o.Escaped?
      ensures SameEvidence(specs, old(files), files)
      ensures old(SumsName() in files) ==> SumsName() in files
      ensures o.Done? ==> Saved() && clock == old(clock) + 1
      ensures !o.Done? ==>
                || (files == old(files) && covered == old(covered))
                || Littered(specs, files) || covered == Some(files - {SumsName()})
      ensures KeepsLitter(specs, old(files), files)
      ensures Clean(specs, env, old(files)) ==> SumsEnd(specs, world.write(old(clock)), old(files), files, old(covered), covered, o)
    {
      hide ManifestName, SumsName, SpecsOk, EnvOk, Sound, Overstated, Checkpointed, AllReadable, Covers, EntriesAllowed, Lists, SumsText, Clean, AfterWrite, Hidden, HasHidden, SameEvidence, KeepsLitter, Littered, Recorded, History, SameSums, Verified, Chosen, Visits, WriteEnd, SumsEnd, StoppedBy;
      ReservedNames();
      CleanHasNoHidden(specs, env, files);
      ChosenIsCheckpointed(specs, env, escaped, manifest, files, order);
      ghost var c := Chosen(files, order);
      var text := SumsText(EntriesOf(order, files, env.digest));
      var replaced;
      o, replaced := AtomicWrite(SumsName(), text);
      WriteKeepsEvidence(specs, old(files), files, SumsName(), text, replaced);
      HiddenIsLitter(specs, files);
      ghost var stopped := o;
      if replaced {
        covered, texts, past := Some(c), texts + [text], past + [c];
        SumsInPlace(specs, env, escaped, manifest, old(files), files, order, text, old(texts), old(past));
        if o.Done? && !EntriesAllowed(specs, files) {
          o := Raised;
        }
      } else {
        SameSumsSameRecord(specs, env, escaped, old(files), files, covered);
      }
      if Clean(specs, env, old(files)) {
        SumsEnds(specs, env, world.write(old(clock)), old(files), files, text, old(covered), covered, stopped, o, replaced);
      }
    }

    /** `verify_checkpoint`. */
    method VerifyCheckpoint() returns (previous: Option<Manifest>)
      ensures previous.Some? <==> Verified(specs, env, files)
      ensures previous.Some? ==> previous == env.decode(files[ManifestName()])
    {
      hide ManifestName, SumsName, EntriesAllowed, AllReadable, LinesAccept;
      if !EntriesAllowed(specs, files) || SumsName() !in files {
        return None;
      }
      var ok := VerifyLines(SplitLines(files[SumsName()]), files, env.digest);
      if !ok || ManifestName() !in files || !AllReadable(specs, env, files) {
        return None;
      }
      previous := env.decode(files[ManifestName()]);
    }

    /** The first loop of `validate_resume`: carries the passed prefix of the previous manifest
        over to the present one, checking the evidence again. */
    method Readmit(previous: Manifest) returns (refusal: Option<Refusal>, completed: set<nat>)
      requires SpecsOk(specs) && manifest == Fresh(specs, previous.identity)
      modifies this`manifest
      ensures Sound(specs, env, manifest, files)
      ensures manifest.identity == previous.identity && manifest.result.Running?
      ensures refusal.None? <==> Readmissible(specs, env, previous, files)
      ensures refusal.None? ==> Carried(specs, previous, manifest)
      ensures refusal.None? ==> forall i :: i in completed <==> 0 <= i < |specs| && manifest.records[i].status.Passed?
      ensures refusal.Some? ==> !AllPassed(manifest) && (Keeps(specs, previous, manifest) <==> refusal.value.NoRecord?)
      ensures refusal.Some? ==> exists i :: RefusedAt(specs, env, previous, files, i, refusal.value)
    {
      hide SpecsOk, Sound, ManifestName, SumsName, BackedAt, Backs, AllPassed, InOrder, Keeps;
      FreshIsSound(specs, env, previous.identity, files);
      completed, refusal := {}, None;
      var gap := false;
      InOrderAtFirst(specs, env, previous, files);
      for i := 0 to |specs|
        invariant i <= |previous.records| && |manifest.records| == |specs|
        invariant manifest.identity == previous.identity && manifest.result.Running?
        invariant Sound(specs, env, manifest, files)
        invariant forall k :: 0 <= k < |specs| ==> manifest.records[k].source == specs[k].source
        invariant forall k :: k in completed <==> 0 <= k < |specs| && manifest.records[k].status.Passed?
        invariant forall k :: 0 <= k < i ==> (k in completed <==> previous.records[k].status.Passed?)
        invariant forall k :: k in completed ==> k < i && manifest.records[k].sum == previous.records[k].sum
        invariant InOrder(specs, env, previous, files, i)
        invariant gap <==> exists k :: 0 <= k < i && !previous.records[k].status.Passed?
      {
        if i >= |previous.records| {
          NotPassedAt(manifest, i);
          AllKept(specs, previous, manifest);
          RefusedIsNotReadmissible(specs, env, previous, files, i, NoRecord);
          return Some(NoRecord), completed;
        }
        var record := previous.records[i];
        if !record.status.Passed? {
          UnpassedIsBacked(specs[i], env, previous.identity, i, record, files);
          InOrderNext(specs, env, previous, files, i);
          gap := true;
          continue;
        }
        if gap {
          NotPassedAt(manifest, i);
          LostAt(specs, previous, manifest, i);
          RefusedIsNotReadmissible(specs, env, previous, files, i, Gap);
          return Some(Gap), completed;
        }
        var ok := Recheck(manifest.identity, i, record);
        if !ok {
          NotPassedAt(manifest, i);
          LostAt(specs, previous, manifest, i);
          RefusedIsNotReadmissible(specs, env, previous, files, i, Evidence);
          return Some(Evidence), completed;
        }
        var sum := env.digest(files[specs[i].evidence]);
        InOrderNext(specs, env, previous, files, i);
        MarkedIsSound(specs, env, manifest, files, i);
        manifest := MarkHarnessPassed(specs, manifest, i, sum);
        completed := completed + {i};
      }
    }

    /** A record that claims to have passed is checked against its evidence again. */
    method Recheck(identity: Bytes, i: nat, record: Record) returns (ok: bool)
      requires i < |specs| && record.status.Passed?
      ensures ok <==> Backs(specs[i], env, identity, i, record, files)
      ensures ok ==> && specs[i].evidence in files && env.passing(identity, i, files[specs[i].evidence])
                     && record.sum == Some(env.digest(files[specs[i].evidence]))
    {
      var name := specs[i].evidence;
      if name !in files || !env.passing(identity, i, files[name]) {
        return false;
      }
      ok := record.source == specs[i].source && record.sum == Some(env.digest(files[name])) && record.clean;
    }

    /** `remove_owned_evidence_entry`. */
    method RemoveEntry(name: Name) returns (o: Outcome)
      modifies this`files, this`clock
      ensures files == if o.Done? then old(files) - {name} else old(files)
      ensures clock == old(clock) + 1 && (o.Done? <==> world.remove(old(clock)).Removes?)
      ensures !o.Escaped?
    {
      var fate := world.remove(clock);
      clock := clock + 1;
      if fate.Removes? {
        files := files - {name};
      }
      o := if fate.Removes? then Done else if fate.Refuses? then Raised else Dead;
    }

    /** The second loop of `validate_resume`: evidence of harnesses that must run again goes. */
    method ClearStale(completed: set<nat>) returns (o: Outcome)
      requires SpecsOk(specs)
      modifies this`files, this`clock
      ensures !o.Escaped?
      ensures forall n :: n in files ==> n in old(files) && files[n] == old(files)[n]
      ensures forall n :: n in old(files) && n !in files ==> exists i :: 0 <= i < |specs| && i !in completed && specs[i].evidence == n
      ensures o.Done? ==> forall i :: 0 <= i < |specs| && i !in completed ==> specs[i].evidence !in files
      ensures Calm(world) ==> o.Done?
    {
      hide Partition, IsPlainName, ManifestName, SumsName;
      o := Done;
      for i := 0 to |specs|
        invariant o.Done?
        invariant forall n :: n in files ==> n in old(files) && files[n] == old(files)[n]
        invariant forall n :: n in old(files) && n !in files ==> exists k :: 0 <= k < |specs| && k !in completed && specs[k].evidence == n
        invariant forall k :: 0 <= k < i && k !in completed ==> specs[k].evidence !in files
      {
        if i !in completed && specs[i].evidence in files {
          o := RemoveEntry(specs[i].evidence);
          if !o.Done? {
            return;
          }
        }
      }
    }

    /** `validate_resume`. A refusal by the gap check, the evidence checks or a missing record
        never meets a checkpoint that the gate itself completed for the same identity. */
    method ValidateResume() returns (o: Outcome, completed: set<nat>, refusal: Option<Refusal>)
      requires Inv() && made && manifest == Fresh(specs, manifest.identity)
      modifies this`files, this`clock, this`manifest
      ensures Inv() && Sound(specs, env, manifest, files)
      ensures manifest.identity == old(manifest.identity) && manifest.result.Running?
      ensures Reason(specs, env, old(manifest.identity), old(files), refusal)
      ensures refusal.None? <==> Resumable(specs, env, old(manifest.identity), old(files))
      ensures refusal.Some? ==> files == old(files) && !o.Dead?
      ensures refusal.Some? && Verified(specs, env, old(files)) && HasWork(specs, env.decode(old(files)[ManifestName()]).value) ==>
                (Keeps(specs, env.decode(old(files)[ManifestName()]).value, manifest) <==> refusal.value.NoRecord?)
      ensures KeepsLitter(specs, old(files), files)
      ensures refusal.None? ==> Carried(specs, env.decode(old(files)[ManifestName()]).value, manifest)
      ensures refusal == Some(NotVerified) || refusal == Some(OtherIdentity) ==> manifest == old(manifest)
      ensures o.Done? ==> refusal.None?
      ensures o.Escaped? <==> refusal == Some(NoRecord)
      ensures o.Escaped? ==> !AllPassed(manifest)
      ensures o.Done? ==> forall i :: i in completed <==> 0 <= i < |specs| && manifest.records[i].status.Passed?
      ensures o.Done? ==> forall i :: 0 <= i < |specs| && i !in completed ==> specs[i].evidence !in files
      ensures Calm(world) && refusal.None? ==> o.Done? && Clean(specs, env, files)
    {
      hide ManifestName, SumsName, SpecsOk, Sound, Recorded, Verified, Readmissible, Carried, Clean, Proves, SplitLines, RefusedAt, Keeps, KeepsLitter, Fresh, History;
      FreshIsSound(specs, env, manifest.identity, files);
      FreshHasNotPassed(specs, manifest.identity);
      completed := {};
      LitterItself(specs, files);
      var previous := VerifyCheckpoint();
      if previous.None? {
        return Raised, completed, Some(NotVerified);
      }
      if HasWork(specs, previous.value) {
        NoneKept(specs, previous.value, manifest);
      }
      if previous.value.identity != manifest.identity {
        return Raised, completed, Some(OtherIdentity);
      }
      refusal, completed := Readmit(previous.value);
      if refusal.Some? {
        ghost var i :| RefusedAt(specs, env, previous.value, files, i, refusal.value);
        RefusedIsNotReadmissible(specs, env, previous.value, files, i, refusal.value);
        return if refusal.value.NoRecord? then Escaped else Raised, completed, refusal;
      }
      CleanMeans(specs, env, files);
      o := ClearStale(completed);
      StaysClean(specs, env, old(files), files);
      StaleIsNotReserved(specs, old(files), files, completed);
      SameSumsSameRecord(specs, env, escaped, old(files), files, covered);
      SameEvidenceIsSound(specs, env, manifest, old(files), files);
    }

    /** `sanitize_harness_evidence`: of the new entries only readable evidence of this harness
        may stay. No complaint means that nothing else was there. */
    method Sanitize(i: nat, preexisting: set<Name>) returns (o: Outcome, complaints: bool)
      requires i < |specs| && specs[i].evidence !in preexisting && preexisting <= files.Keys
      modifies this`files, this`clock
      ensures !o.Escaped? && !o.Raised?
      ensures Inside(preexisting, old(files), files)
      ensures o.Done? && !complaints <==> Tidy(specs, env, i, preexisting, old(files))
      ensures o.Done? && !complaints ==> files == old(files)
      ensures Wanted(specs[i], env, i, old(files)) ==> specs[i].evidence in files
      ensures old(clock) <= clock && (RemovesAll(world, old(clock), clock) ==> o.Done? && Tidy(specs, env, i, preexisting, files))
    {
      hide Tidy, Inside, RemovesAll, Swept, Wanted;
      ghost var start, from := files, clock;
      ghost var todo;
      o, complaints, todo := Sweep(i, preexisting);
      var expected := specs[i].evidence;
      SweepMeans(specs, env, world, i, preexisting, start, from, clock, todo, files, complaints);
      if o.Done? && expected in files && !env.readable(i, files[expected]) {
        SweepRemoves(specs, env, world, i, preexisting, start, from, clock, todo, files, complaints, expected);
        complaints := true;
        var removed := RemoveEntry(expected);
        OneMoreRemoval(world, from, clock - 1);
        assert todo - {expected} == todo;
        SweepMeans(specs, env, world, i, preexisting, start, from, clock, todo, files, complaints);
        if removed.Dead? {
          o := Dead;
        }
      }
    }

    /** The first pass over the new entries. */
    method Sweep(i: nat, preexisting: set<Name>) returns (o: Outcome, complaints: bool, ghost left: set<Name>)
      requires i < |specs| && specs[i].evidence !in preexisting && preexisting <= files.Keys
      modifies this`files, this`clock
      ensures Swept(specs, env, world, i, preexisting, old(files), old(clock), clock, left, files, complaints)
      ensures if o.Done? then left == {} else o.Dead? && complaints && !RemovesAll(world, old(clock), clock)
    {
      hide Tidy, Inside, RemovesAll, Swept, Wanted;
      var todo := files.Keys - preexisting;
      o, complaints := Done, false;
      ghost var start, from := files, clock;
      SweepStarts(specs, env, world, i, preexisting, files, clock);
      while todo != {}
        invariant o.Done? && from <= clock
        invariant Swept(specs, env, world, i, preexisting, start, from, clock, todo, files, complaints)
        decreases |todo|
      {
        var name :| name in todo;
        var dead;
        dead, complaints := LookAt(i, name, complaints, preexisting, start, from, todo);
        todo := todo - {name};
        if dead {
          return Dead, true, todo;
        }
      }
      left := todo;
    }

    /** One new entry: readable evidence stays, anything else is removed with a complaint. */
    method LookAt(i: nat, name: Name, before: bool, ghost preexisting: set<Name>, ghost start: Files, ghost from: nat, ghost todo: set<Name>)
      returns (dead: bool, complaints: bool)
      requires i < |specs| && name in todo && from <= clock
      requires Swept(specs, env, world, i, preexisting, start, from, clock, todo, files, before)
      modifies this`files, this`clock
      ensures from <= clock && Swept(specs, env, world, i, preexisting, start, from, clock, todo - {name}, files, complaints)
      ensures dead ==> complaints && !RemovesAll(world, from, clock)
    {
      hide Tidy, Inside, RemovesAll, Swept, Wanted;
      SweepHas(specs, env, world, i, preexisting, start, from, clock, todo, files, before, name);
      if name == specs[i].evidence && env.readable(i, files[name]) {
        SweepKeeps(specs, env, world, i, preexisting, start, from, clock, todo, files, before, name);
        return false, before;
      }
      SweepRemoves(specs, env, world, i, preexisting, start, from, clock, todo, files, before, name);
      var removed := RemoveEntry(name);
      OneMoreRemoval(world, from, clock - 1);
      dead, complaints := removed.Dead?, true;
    }

    /** `HarnessExecutor.run`: a harness adds files; its record is passed only with validated
        evidence and nothing to complain about. */
    method RunHarness(i: nat) returns (o: Outcome, record: Record)
      requires i < |specs| && SumsName() in files
      modifies this`files, this`clock
      ensures Grown(old(files), files)
      ensures o.Done? && record.status.Passed? <==>
              Earned(specs, env, manifest.identity, i, old(files), world.run(old(clock), i))
      ensures o.Done? && record.status.Passed? ==>
                && specs[i].evidence in files
                && record == Record(Passed, Some(env.digest(files[specs[i].evidence])), true, specs[i].source)
                && env.passing(manifest.identity, i, files[specs[i].evidence])
      ensures o.Done? ==> RecordOf(specs, env, i, world.run(old(clock), i), old(files), files, record)
      ensures Calm(world) && specs[i].evidence !in old(files) && world.run(old(clock), i).Ends? ==>
                o.Done? && Tidy(specs, env, i, old(files).Keys, files)
      ensures specs[i].evidence !in old(files) && world.run(old(clock), i).Escapes? ==>
                o.Escaped? && files == world.run(old(clock), i).made + old(files)
      ensures specs[i].evidence !in old(files) && world.run(old(clock), i) == Dies(map[]) ==> o.Dead? && files == old(files)
      ensures o.Done? && record.status.Passed? ==> Adds(specs, env, i, old(files), files)
    {
      var expected, preexisting := specs[i].evidence, files.Keys;
      record := Record(Failed, None, false, specs[i].source);
      if expected in files {
        return Raised, record;
      }
      var fate := world.run(clock, i);
      clock := clock + 1;
      files := fate.made + files;
      assert Inside(preexisting, files, files);
      if !fate.Ends? {
        o := if fate.Raises? then Raised else if fate.Escapes? then Escaped else Dead;
        return;
      }
      ghost var left := files;
      var complaints;
      ghost var k := clock;
      o, complaints := Sanitize(i, preexisting);
      if Calm(world) {
        CalmRemovesAll(world, k, clock);
      }
      assert Inside(preexisting, left, files);
      if !o.Done? {
        return;
      }
      var sum := if expected in files then Some(env.digest(files[expected])) else None;
      var v := fate.verdict;
      var clean := v.homeRemoved && v.cleaned && v.snapshotKept && !complaints;
      var failure := v.exit != Exited(0) || v.interrupted || v.source != specs[i].source || !clean;
      var passed := !failure && expected in files && env.passing(manifest.identity, i, files[expected]);
      record := Record(if passed then Passed else Failed, sum, clean, v.source);
    }

    /** `execute_in_dependency_order`: without failure every harness has passed. */
    method ExecuteInDependencyOrder(completed: set<nat>) returns (o: Outcome, failure: bool)
      requires Inv() && made && Saved() && SumsName() in files
      requires Sound(specs, env, manifest, files) && manifest.result.Running?
      requires forall i :: i in completed <==> 0 <= i < |specs| && manifest.records[i].status.Passed?
      modifies this`files, this`clock, this`manifest, this`covered, this`texts, this`past
      ensures Inv() && Sound(specs, env, manifest, files) && manifest.result.Running?
      ensures manifest.identity == old(manifest.identity)
      ensures Keeps(specs, old(manifest), manifest) && KeepsLitter(specs, old(files), files)
      ensures o.Done? && !failure ==> AllPassed(manifest)
      ensures o.Escaped? || (o.Done? && failure) ==> !AllPassed(manifest)
      ensures forall d :: Stops(specs, env, world, manifest.identity, d) && d !in completed && Ready(specs, env, 0, completed, old(files)) ==>
                            Stopped(specs, env, world, d, o, failure, files, Saved(), manifest)
      ensures Calm(world) && AllEnd(specs, world) && Ready(specs, env, 0, completed, old(files)) ==> o.Done? && Clean(specs, env, files)
    {
      hide SpecsOk, Sound, ManifestName, SumsName, Recorded, History, EnvOk, Stops, Stopped, Calm, Clean, AllPassed, KeepsLitter, IsSaved, Proves, SlipsAway, Ready, Keeps;
      failure := false;
      LitterItself(specs, files);
      SoundIsSized(specs, env, manifest, files);
      KeepsItself(specs, manifest);
      for i := 0 to |specs|
        invariant Inv() && Saved() && SumsName() in files && Sound(specs, env, manifest, files) && manifest.result.Running?
        invariant |manifest.records| == |specs| && manifest.identity == old(manifest.identity)
        invariant forall k :: 0 <= k < i ==> manifest.records[k].status.Passed?
        invariant forall k :: i <= k < |specs| ==> (manifest.records[k].status.Passed? <==> k in completed)
        invariant Keeps(specs, old(manifest), manifest) && KeepsLitter(specs, old(files), files)
        invariant forall d :: Stops(specs, env, world, manifest.identity, d) && d !in completed && Ready(specs, env, 0, completed, old(files)) ==>
                                i <= d && Ready(specs, env, i, completed, files)
        invariant Calm(world) && AllEnd(specs, world) && Ready(specs, env, 0, completed, old(files)) ==> Ready(specs, env, i, completed, files)
      {
        ReadyIsClean(specs, env, i, completed, files);
        if i in completed {
          continue;
        }
        ghost var before, m, k := files, manifest, clock;
        var passed;
        o, passed := RunNext(i, completed);
        KeptOnward(specs, old(manifest), m, manifest, i);
        LitterPassedOn(specs, old(files), before, files);
        forall d | Stops(specs, env, world, manifest.identity, d) && d !in completed && Ready(specs, env, 0, completed, old(files))
          ensures if o.Done? && passed then i < d && Ready(specs, env, i + 1, completed, files)
                  else Stopped(specs, env, world, d, o, true, files, Saved(), manifest)
        {
          RoundOfStops(specs, env, world, manifest, i, completed, before, files, k, d, o, passed, Saved());
        }
        if !o.Done? || !passed {
          if !manifest.records[i].status.Passed? {
            NotPassedAt(manifest, i);
          }
          return o, true;
        }
      }
      o := Done;
      ReadyIsClean(specs, env, |specs|, completed, files);
      forall d | Stops(specs, env, world, manifest.identity, d) && d !in completed && Ready(specs, env, 0, completed, old(files))
        ensures Stopped(specs, env, world, d, o, failure, files, Saved(), manifest)
      {
        EndOfStops(specs, env, world, manifest, completed, files, d, Saved());
      }
      EveryOnePassed(manifest);
    }

    /** One round: run the harness, take its record in, write a checkpoint. */
    method RunNext(i: nat, ghost completed: set<nat>) returns (o: Outcome, passed: bool)
      requires Inv() && made && SumsName() in files && Sound(specs, env, manifest, files) && manifest.result.Running?
      requires i < |specs| && i !in completed && !manifest.records[i].status.Passed?
      requires forall k :: 0 <= k < i ==> manifest.records[k].status.Passed?
      modifies this`files, this`clock, this`manifest, this`covered, this`texts, this`past
      ensures Inv() && SumsName() in files && Sound(specs, env, manifest, files) && manifest.result.Running?
      ensures manifest.identity == old(manifest.identity) && |manifest.records| == |specs|
      ensures forall k :: 0 <= k < |specs| && k != i ==> manifest.records[k] == old(manifest).records[k]
      ensures KeepsLitter(specs, old(files), files)
      ensures o.Done? ==> Saved() && (passed <==> manifest.records[i].status.Passed?)
      ensures o.Escaped? ==> !manifest.records[i].status.Passed?
      ensures SlipsAway(specs[i], env, i, world.run(old(clock), i)) && Ready(specs, env, i, completed, old(files)) ==> o.Escaped? && Clean(specs, env, files)
      ensures specs[i].evidence !in old(files) && world.run(old(clock), i) == Dies(map[]) ==>
                o.Dead? && files == old(files) && covered == old(covered) && manifest == old(manifest)
      ensures Calm(world) && Proves(specs[i], env, manifest.identity, i, world.run(old(clock), i))
              && Ready(specs, env, i, completed, old(files)) ==>
                o.Done? && passed && Ready(specs, env, i + 1, completed, files)
      ensures Calm(world) && world.run(old(clock), i).Ends? && Ready(specs, env, i, completed, old(files)) ==>
                o.Done? && Clean(specs, env, files) && (passed ==> Ready(specs, env, i + 1, completed, files))
    {
      hide SpecsOk, EnvOk, Sound, ManifestName, SumsName, Recorded, Calm, Clean, Proves, SlipsAway, Ready, KeepsLitter, History, StopPoint, IsSaved, SameEvidence;
      o, passed := RunAndAccept(i, completed);
      if !o.Done? {
        return;
      }
      ghost var between := files;
      ReadyIsClean(specs, env, i + 1, completed, between);
      o := WriteCheckpoint();
      LitterPassedOn(specs, old(files), between, files);
      if Clean(specs, env, files) && Ready(specs, env, i + 1, completed, between) {
        SameEvidenceIsReady(specs, env, i + 1, completed, between, files);
      }
    }

    /** A harness runs, and its record replaces the one in the manifest. */
    method RunAndAccept(i: nat, ghost completed: set<nat>) returns (o: Outcome, passed: bool)
      requires Inv() && made && SumsName() in files && Sound(specs, env, manifest, files) && manifest.result.Running?
      requires i < |specs| && i !in completed && !manifest.records[i].status.Passed?
      requires forall k :: 0 <= k < i ==> manifest.records[k].status.Passed?
      modifies this`files, this`clock, this`manifest
      ensures Inv() && SumsName() in files && Sound(specs, env, manifest, files) && manifest.result.Running?
      ensures manifest.identity == old(manifest.identity) && |manifest.records| == |specs|
      ensures forall k :: 0 <= k < |specs| && k != i ==> manifest.records[k] == old(manifest).records[k]
      ensures KeepsLitter(specs, old(files), files)
      ensures o.Done? ==> (passed <==> manifest.records[i].status.Passed?)
      ensures !o.Done? ==> manifest == old(manifest)
      ensures SlipsAway(specs[i], env, i, world.run(old(clock), i)) && Ready(specs, env, i, completed, old(files)) ==> o.Escaped? && Clean(specs, env, files)
      ensures specs[i].evidence !in old(files) && world.run(old(clock), i) == Dies(map[]) ==> o.Dead? && files == old(files)
      ensures Proves(specs[i], env, manifest.identity, i, world.run(old(clock), i)) && Ready(specs, env, i, completed, old(files)) ==>
                o.Done? && passed && Ready(specs, env, i + 1, completed, files)
      ensures Calm(world) && world.run(old(clock), i).Ends? && Ready(specs, env, i, completed, old(files)) ==>
                o.Done? && Clean(specs, env, files) && (passed ==> Ready(specs, env, i + 1, completed, files))
    {
      hide SpecsOk, EnvOk, Sound, ManifestName, SumsName, Recorded, Earned, Adds, Proves, SlipsAway, Ready, Clean, Calm, Tidy, RecordOf, KeepsLitter, History, SameSums;
      SoundIsSized(specs, env, manifest, files);
      ReadyIsClean(specs, env, i, completed, files);
      passed := false;
      if Proves(specs[i], env, manifest.identity, i, world.run(clock, i)) && specs[i].evidence !in files {
        ProofEarns(specs, env, manifest.identity, i, files, world.run(clock, i));
      }
      if SlipsAway(specs[i], env, i, world.run(clock, i)) && Ready(specs, env, i, completed, files) {
        SlippedIsClean(specs, env, i, completed, files, world.run(clock, i));
      }
      var record;
      o, record := RunHarness(i);
      SameEvidenceIsSound(specs, env, manifest, old(files), files);
      GrownKeepsLitter(specs, old(files), files);
      SameSumsSameRecord(specs, env, escaped, old(files), files, covered);
      if !o.Done? {
        return;
      }
      passed := record.status.Passed?;
      if Ready(specs, env, i, completed, old(files)) {
        if passed {
          AddedIsReady(specs, env, i, completed, old(files), files);
        }
        if Tidy(specs, env, i, old(files).Keys, files) {
          TidyIsClean(specs, env, i, old(files), files);
        }
      }
      Accept(i, record);
    }

    /** Takes a harness's record into the manifest. */
    method Accept(i: nat, record: Record)
      requires SpecsOk(specs) && Sound(specs, env, manifest, files) && i < |specs|
      requires !manifest.records[i].status.Passed? && !record.status.Pending?
      requires forall k :: 0 <= k < i ==> manifest.records[k].status.Passed?
      requires record.status.Passed? ==>
                 && specs[i].evidence in files
                 && record == Record(Passed, Some(env.digest(files[specs[i].evidence])), true, specs[i].source)
                 && env.passing(manifest.identity, i, files[specs[i].evidence])
      modifies this`manifest
      ensures Sound(specs, env, manifest, files)
      ensures manifest.records == old(manifest.records)[i := record]
      ensures manifest.identity == old(manifest.identity) && manifest.result == old(manifest.result)
    {
      hide SpecsOk, Backs;
      ghost var before := manifest;
      manifest := manifest.(records := manifest.records[i := record]);
      if record.status.Passed? {
        manifest := MarkHarnessPassed(specs, manifest, i, record.sum.value);
        ghost var waiting := record.(status := Failed);
        ghost var m := before.(records := before.records[i := waiting]);
        FailedIsSound(specs, env, before, files, i, waiting);
        assert manifest == Marked(specs, m, i, record.sum.value);
        MarkedIsSound(specs, env, m, files, i);
      } else {
        FailedIsSound(specs, env, before, files, i, record);
      }
    }

    /** The last loop of `run_gate`: stamps the result, saves it, and saves once more when an
        interrupt arrives late. */
    method Finish(failed: bool) returns (o: Outcome, failure: bool)
      requires Inv() && made && Sound(specs, env, manifest, files)
      requires !escaped && !failed ==> Complete(specs, manifest)
      modifies this`files, this`clock, this`manifest, this`covered, this`texts, this`past
      ensures Inv() && Sound(specs, env, manifest, files)
      ensures SameWork(old(manifest), manifest)
      ensures failed ==> failure
      ensures o.Done? ==> Saved() && manifest.result == if failure then GateFailed else GatePassed
      ensures !failure ==> o.Done?
      ensures o.Done? ==> (failure <==> failed || world.trouble(old(clock) + 2))
      ensures KeepsLitter(specs, old(files), files)
      ensures Calm(world) && Clean(specs, env, old(files)) ==> o.Done? && failure == failed
    {
      hide SpecsOk, Sound, ManifestName, SumsName, Checkpointed, Covers, DigestOk, Complete, Verified, Clean, Calm, KeepsLitter, History, StopPoint;
      failure := failed;
      LitterItself(specs, files);
      while true
        invariant Inv() && Sound(specs, env, manifest, files)
        invariant SameWork(old(manifest), manifest)
        invariant failed ==> failure
        invariant !escaped && !failure ==> Complete(specs, manifest)
        invariant if failure == failed then clock == old(clock) else world.trouble(old(clock) + 2)
        invariant KeepsLitter(specs, old(files), files)
        invariant Calm(world) && Clean(specs, env, old(files)) ==> Clean(specs, env, files) && failure == failed
        decreases if failure then 0 else 1
      {
        ghost var before, found := manifest, files;
        manifest := manifest.(result := if failure then GateFailed else GatePassed, stamp := clock);
        ResultIsFree(specs, env, before, manifest, files);
        o := WriteCheckpoint();
        LitterPassedOn(specs, old(files), found, files);
        if !o.Done? {
          return o, true;
        }
        if Calm(world) {
          CalmMeans(world, clock);
        }
        var late := world.trouble(clock);
        clock := clock + 1;
        if !failure && late {
          failure := true;
          continue;
        }
        break;
      }
    }

    /** The body of `run_gate`'s `try`, once there is a manifest. */
    method Work(resume: bool) returns (o: Outcome, failure: bool, refusal: Option<Refusal>)
      requires Inv() && made && manifest == Fresh(specs, manifest.identity)
      modifies this`files, this`clock, this`manifest, this`covered, this`texts, this`past
      ensures Inv() && Sound(specs, env, manifest, files) && manifest.identity == old(manifest.identity)
      ensures o.Done? && !failure ==> AllPassed(manifest)
      ensures o.Escaped? ==> !AllPassed(manifest)
      ensures KeepsLitter(specs, old(files), files)
      ensures resume ==> Answers(specs, env, old(manifest.identity), old(files), refusal, manifest)
      ensures refusal.Some? ==> files == old(files) && !o.Dead?
      ensures refusal == Some(NoRecord) ==> o.Escaped?
      ensures !resume && old(files) == map[] && LeavesTemp(world.write(old(clock))) ==>
                Littered(specs, files) && o == StoppedBy(world.write(old(clock)))
      ensures refusal.Some? ==> resume && !o.Done?
      ensures forall d :: Stops(specs, env, world, manifest.identity, d) && refusal.None?
                          && (if resume then d == |specs| else old(files) == map[]) ==>
                            Stopped(specs, env, world, d, o, failure, files, Saved(), manifest)
      ensures Calm(world) && AllEnd(specs, world) && Clean(specs, env, old(files)) && (!resume ==> old(files) == map[]) ==>
                !o.Dead? && Clean(specs, env, files)
      ensures refusal == Some(NotVerified) || refusal == Some(OtherIdentity) ==> manifest == old(manifest)
    {
      hide SpecsOk, Sound, ManifestName, SumsName, Recorded, History, Verified, Readmissible, Clean, Stops, Stopped, Ready, Calm, AllEnd, KeepsLitter, StopPoint, Reason, HasWork, IsSaved, CheckpointEnd, Littered;
      LitterItself(specs, files);
      FreshIsSound(specs, env, manifest.identity, files);
      if !resume && files == map[] {
        CleanMeans(specs, env, files);
      }
      AnyStopIsCalm(specs, env, world, manifest.identity);
      failure := false;
      var completed := {};
      o, refusal := Done, None;
      if resume {
        o, completed, refusal := ValidateResume();
      }
      if !o.Done? {
        return;
      }
      ghost var found := files;
      ghost var first := world.write(clock);
      o := WriteCheckpoint();
      LitterPassedOn(specs, old(files), found, files);
      if LeavesTemp(first) && !resume && old(files) == map[] {
        FirstLitters(specs, env, manifest, first, world.write(old(clock) + 1), old(files), files, old(covered), covered, o);
      }
      if !o.Done? {
        return;
      }
      SavedMeans(specs, env, files, covered, manifest);
      IsReady(specs, env, completed, files);
      found := files;
      o, failure := ExecuteInDependencyOrder(completed);
      LitterPassedOn(specs, old(files), found, files);
    }

    /** `run_gate`, from the evidence directory on. The session reports success only for a
        complete manifest. A session without success does not end by saving a passed result,
        unless an exception escaped it, which saves one over unfinished work. When only the last
        directory sync raises, a complete passed result is in place although the session fails
        and does not count it as saved. */
    method RunGate(resume: bool, identity: Bytes) returns (r: Report)
      requires Inv()
      modifies this
      ensures Inv() && r.files == files && r.manifest == manifest
      ensures r.end.EndEscaped? ==> r.escaped
      ensures escaped <==> old(escaped) || r.escaped
      ensures r.started <==> world.prepared(old(clock)) && world.prepared(old(clock) + 1) && resume == old(made)
      ensures r.started ==> made
      ensures !r.started ==> files == old(files) && covered == old(covered) && r.end.EndFailed? && !r.saved && r.refusal.None?
      ensures r.started ==> Sound(specs, env, manifest, files) && manifest.identity == identity
      ensures r.saved ==> Saved() && !r.end.EndDead?
      ensures r.end.EndSucceeded? ==> r.started && r.saved && Complete(specs, manifest) && manifest.result.GatePassed?
      ensures r.end.EndFailed? && r.saved ==> manifest.result.GateFailed?
      ensures r.end.EndEscaped? && r.saved ==> (Overstated(specs, manifest) <==> Untroubled(world, r.checked))
      ensures r.started && resume ==> Answers(specs, env, identity, old(files), r.refusal, manifest)
      ensures r.refusal.Some? && Calm(world) && Clean(specs, env, old(files)) ==> r.saved
      ensures r.refusal == Some(NoRecord) && Calm(world) && Clean(specs, env, old(files)) ==> r.end.EndEscaped? && Overstated(specs, manifest)
      ensures r.refusal.Some? ==> r.started && resume && !r.end.EndSucceeded?
      ensures r.refusal == Some(NotVerified) || r.refusal == Some(OtherIdentity) ==> NonePassed(manifest)
      ensures Littered(specs, old(files)) ==> Littered(specs, files) && !r.saved
      ensures r.started && !resume && LeavesTemp(world.write(old(clock) + 2)) ==>
                Littered(specs, files) && !r.saved && (world.write(old(clock) + 2).dies ==> r.end.EndDead?)
      ensures r.started && Calm(world) && AllEnd(specs, world) && Clean(specs, env, old(files)) ==> r.saved
      ensures r.started && r.refusal.None? && Smooth(specs, env, world, identity) ==> r.end.EndSucceeded?
      ensures forall d: nat :: r.started && !resume && Stops(specs, env, world, identity, d) && d < |specs| ==>
                                 Halted(specs, env, world, d, r, Saved())
    {
      hide SpecsOk, Sound, ManifestName, SumsName, Recorded, Complete, Fresh, Clean, Stops, Calm, AllEnd, Littered, KeepsLitter, Answers, History, IsSaved, Halted, Overstated, Smooth;
      r := Report(EndFailed, false, false, false, None, 0, manifest, files);
      LitterIsSeen(specs, env, files);
      var start := clock;
      clock := clock + 2;
      if !world.prepared(start) || resume != made {
        return;
      }
      made := true;
      if !world.prepared(start + 1) {
        return;
      }
      manifest := Fresh(specs, identity);
      FreshHasNotPassed(specs, identity);
      r := RunStarted(resume);
    }

    /** A session that has its evidence directory and a new manifest. */
    method RunStarted(resume: bool) returns (r: Report)
      requires Inv() && made && manifest == Fresh(specs, manifest.identity)
      modifies this
      ensures Inv() && made && r.files == files && r.manifest == manifest && r.started
      ensures r.end.EndEscaped? ==> r.escaped
      ensures escaped <==> old(escaped) || r.escaped
      ensures Sound(specs, env, manifest, files) && manifest.identity == old(manifest.identity)
      ensures r.saved ==> Saved() && !r.end.EndDead?
      ensures r.end.EndSucceeded? ==> r.saved && Complete(specs, manifest) && manifest.result.GatePassed?
      ensures r.end.EndFailed? && r.saved ==> manifest.result.GateFailed?
      ensures r.end.EndEscaped? && r.saved ==> (Overstated(specs, manifest) <==> Untroubled(world, r.checked))
      ensures resume ==> Answers(specs, env, old(manifest.identity), old(files), r.refusal, manifest)
      ensures r.refusal.Some? && Calm(world) && Clean(specs, env, old(files)) ==> r.saved
      ensures r.refusal == Some(NoRecord) && Calm(world) && Clean(specs, env, old(files)) ==> r.end.EndEscaped? && Overstated(specs, manifest)
      ensures r.refusal.Some? ==> resume && !r.end.EndSucceeded?
      ensures r.refusal == Some(NotVerified) || r.refusal == Some(OtherIdentity) ==> NonePassed(manifest)
      ensures Littered(specs, old(files)) ==> Littered(specs, files) && !r.saved
      ensures !resume && old(files) == map[] && LeavesTemp(world.write(old(clock))) ==>
                Littered(specs, files) && !r.saved && (world.write(old(clock)).dies ==> r.end.EndDead?)
      ensures Calm(world) && AllEnd(specs, world) && Clean(specs, env, old(files)) && (!resume ==> old(files) == map[]) ==> r.saved
      ensures (!resume ==> old(files) == map[]) && r.refusal.None? && Smooth(specs, env, world, manifest.identity) ==> r.end.EndSucceeded?
      ensures forall d: nat :: !resume && old(files) == map[] && Stops(specs, env, world, manifest.identity, d) && d < |specs| ==>
                                 Halted(specs, env, world, d, r, Saved())
    {
      hide SpecsOk, Sound, ManifestName, SumsName, Recorded, Complete, Fresh, Clean, Stops, Stopped, Calm, AllEnd, Littered, KeepsLitter, Answers, History, IsSaved, Halted, Overstated;
      FreshHasNotPassed(specs, manifest.identity);
      LitterItself(specs, files);
      var o, failure, refusal := Work(resume);
      ghost var found, before, saved := files, manifest, Saved();
      r := Conclude(o, failure, refusal);
      if Calm(world) {
        CalmMeans(world, r.checked);
      }
      if resume {
        AnswerStands(specs, env, manifest.identity, old(files), refusal, before, manifest);
      }
      LitterPassedOn(specs, old(files), found, files);
      if Littered(specs, old(files)) {
        LitterStays(specs, old(files), files);
      }
      if Littered(specs, found) {
        LitterStays(specs, found, files);
      }
      if Littered(specs, files) {
        SavedIsNotLittered(specs, env, files, covered, manifest);
      }
      forall d: nat | refusal.None? && (if resume then d == |specs| else old(files) == map[]) && Stops(specs, env, world, manifest.identity, d)
        ensures if d == |specs| then r.end.EndSucceeded? else Halted(specs, env, world, d, r, Saved())
      {
        StopsIsCalm(specs, env, world, manifest.identity, d);
        HaltsAsStopped(specs, env, world, d, o, failure, found, saved, before, r, Saved());
      }
    }

    /** The `finally` of `run_gate`. */
    method Conclude(worked: Outcome, failure: bool, refusal: Option<Refusal>) returns (r: Report)
      requires Inv() && made && Sound(specs, env, manifest, files)
      requires worked.Done? && !failure ==> AllPassed(manifest)
      requires worked.Escaped? ==> !AllPassed(manifest)
      requires refusal.Some? ==> !worked.Done?
      modifies this
      ensures Calm(world) && worked.Done? && !failure && Clean(specs, env, old(files)) ==> r.end.EndSucceeded?
      ensures worked.Dead? ==> r.end.EndDead? && files == old(files) && covered == old(covered) && manifest == old(manifest)
      ensures Calm(world) && !worked.Dead? && Clean(specs, env, old(files)) ==> r.saved
      ensures Calm(world) && worked.Escaped? && Clean(specs, env, old(files)) ==> r.end.EndEscaped?
      ensures KeepsLitter(specs, old(files), files)
      ensures Inv() && r.files == files && r.manifest == manifest
      ensures made && Sound(specs, env, manifest, files) && SameWork(old(manifest), manifest)
      ensures r.started && r.refusal == refusal
      ensures r.end.EndEscaped? ==> r.escaped
      ensures escaped <==> old(escaped) || r.escaped
      ensures r.saved ==> Saved() && !r.end.EndDead?
      ensures r.end.EndSucceeded? ==> r.saved && Complete(specs, manifest) && manifest.result.GatePassed?
      ensures r.end.EndFailed? && r.saved ==> manifest.result.GateFailed?
      ensures r.end.EndEscaped? && r.saved ==> (Overstated(specs, manifest) <==> Untroubled(world, r.checked))
      ensures r.refusal.Some? ==> !r.end.EndSucceeded?
    {
      hide SpecsOk, EnvOk, Sound, ManifestName, SumsName, Recorded, Complete, AllPassed, Clean, Calm, KeepsLitter, History, IsSaved;
      LitterItself(specs, files);
      if Calm(world) {
        CalmMeans(world, clock);
      }
      if worked.Dead? {
        return Report(EndDead, true, false, false, refusal, 0, manifest, files);
      }
      if worked.Escaped? {
        EscapeIsRecorded(specs, env, escaped, files, covered, texts, past);
        NotAllPassedIsIncomplete(specs, manifest);
        escaped := true;
      }
      var checked := clock;
      var failed := worked.Raised? || (worked.Done? && failure) || world.trouble(clock);
      clock := clock + 1;
      if worked.Done? && !failure {
        AllPassedIsComplete(specs, env, manifest, files);
      }
      ghost var before := manifest;
      var o;
      o, failed := Finish(failed);
      ResultIsFree(specs, env, before, manifest, files);
      var end := if o.Dead? then EndDead else if worked.Escaped? then EndEscaped else if failed then EndFailed else EndSucceeded;
      r := Report(end, true, worked.Escaped?, o.Done?, refusal, checked, manifest, files);
    }

    /** A session, told by what it found: whatever came before, the gate's own work under the same
        identity is never refused, and none of it is lost. */
    method Session(request: Request) returns (r: Report)
      requires Inv()
      modifies this
      ensures Inv() && (escaped <==> old(escaped) || r.escaped)
      ensures Told(specs, env, request, Found(old(files), old(covered)), Some(r)) && Left(r, Found(files, covered))
    {
      hide SpecsOk, EnvOk, Sound, Complete, Verified, Recorded, History, Keeps, ManifestName, SumsName, Halted, Stops, Smooth, Littered, RefusedAt, Readmissible, HasWork;
      ghost var found := Found(files, covered);
      if OwnWork(specs, env, found, request.identity) {
        OwnCheckpointIsResumable(specs, env, escaped, files, covered, request.identity);
      }
      r := RunGate(request.resume, request.identity);
      SavedIsLeft(specs, env, files, covered, manifest, r);
    }

    /** Power fails between sessions. Private writes sync a file before they rename it, so what is
        left under the checksum file's name is one that was put in place at some time, or none;
        nothing is assumed of the other files. */
    method LosePower(others: Files, which: nat, gone: bool)
      requires Inv()
      modifies this`files, this`made, this`covered
      ensures Inv()
      ensures forall n :: n in files && n != SumsName() ==> n in others && files[n] == others[n]
      ensures SumsName() in files ==> which < |texts| && files[SumsName()] == texts[which]
    {
      hide SpecsOk, EnvOk, Checkpointed, Covers, SumsName;
      if !made || gone {
        made, files, covered := false, map[], None;
      } else if which < |texts| {
        files, covered := others[SumsName() := texts[which]], Some(past[which]);
      } else {
        files, covered := others - {SumsName()}, None;
      }
    }

    /** One event in the life of the evidence directory. */
    method Happens(event: Event) returns (r: Option<Report>)
      requires Inv()
      modifies this
      ensures Inv() && (escaped <==> old(escaped) || (r.Some? && r.value.escaped))
      ensures event.Runs? ==> Told(specs, env, event.request, Found(old(files), old(covered)), r)
      ensures r.Some? ==> Left(r.value, Found(files, covered))
    {
      hide Inv, Told, Left;
      match event {
        case Runs(request) =>
          var report := Session(request);
          r := Some(report);
        case LosesPower(others, which, gone) =>
          LosePower(others, which, gone);
          r := None;
      }
    }

    /** Any sequence of sessions and power failures on one evidence directory. */
    method RunHistory(events: seq<Event>) returns (reports: seq<Option<Report>>, ghost found: seq<Found>)
      requires Inv()
      modifies this
      ensures Inv() && |reports| == |events| && Chronicle(specs, env, events, reports, found)
      ensures escaped <==> old(escaped) || SomeEscaped(reports)
    {
      hide Inv, Chronicle, SomeEscaped, Told, Left;
      reports, found := [], [];
      ChronicleStarts(specs, env, events);
      for k := 0 to |events|
        invariant Inv() && |reports| == k && Chronicle(specs, env, events, reports, found)
        invariant k > 0 && reports[k - 1].Some? ==> Left(reports[k - 1].value, Found(files, covered))
        invariant escaped <==> old(escaped) || SomeEscaped(reports)
      {
        ghost var here := Found(files, covered);
        var r := Happens(events[k]);
        ChronicleGrows(specs, env, events, reports, found, r, here);
        reports, found := reports + [r], found + [here];
      }
    }

    /** The directory holds the present manifest's completed checkpoint and nothing else. */
    ghost predicate Saved()
      reads this
    {
      IsSaved(specs, env, files, covered, manifest)
    }
  }

  ghost predicate IsSaved(specs: seq<Spec>, env: Env, files: Files, covered: Option<Files>, m: Manifest) {
    && Verified(specs, env, files) && covered == Some(files - {SumsName()})
    && env.decode(files[ManifestName()]) == Some(m)
  }

  lemma SavedMeans(specs: seq<Spec>, env: Env, files: Files, covered: Option<Files>, m: Manifest)
    requires IsSaved(specs, env, files, covered, m)
    ensures SumsName() in files && Verified(specs, env, files)
  {
  }

  /** What a resume demands of the previous manifest. */
  ghost predicate Readmissible(specs: seq<Spec>, env: Env, previous: Manifest, files: Files) {
    |previous.records| >= |specs| && InOrder(specs, env, previous, files, |specs|)
  }

  /** The first `i` records are there, passed ones first, and those with their evidence. */
  ghost predicate InOrder(specs: seq<Spec>, env: Env, previous: Manifest, files: Files, i: nat) {
    && i <= |specs| && i <= |previous.records|
    && (forall k :: 0 <= k < i ==> Backs(specs[k], env, previous.identity, k, previous.records[k], files))
    && (forall j, k :: 0 <= j < k < i && previous.records[k].status.Passed? ==> previous.records[j].status.Passed?)
  }

  lemma InOrderAtFirst(specs: seq<Spec>, env: Env, previous: Manifest, files: Files)
    ensures InOrder(specs, env, previous, files, 0)
  {
  }

  lemma InOrderNext(specs: seq<Spec>, env: Env, previous: Manifest, files: Files, i: nat)
    requires InOrder(specs, env, previous, files, i) && i < |specs| && i < |previous.records|
    requires Backs(specs[i], env, previous.identity, i, previous.records[i], files)
    requires previous.records[i].status.Passed? ==> forall k :: 0 <= k < i ==> previous.records[k].status.Passed?
    ensures InOrder(specs, env, previous, files, i + 1)
  {
    hide Backs;
  }

  /** Where the loop of `validate_resume` stops, and why: everything before was in order. */
  ghost predicate RefusedAt(specs: seq<Spec>, env: Env, previous: Manifest, files: Files, i: nat, why: Refusal) {
    && i < |specs| && InOrder(specs, env, previous, files, i)
    && match why
       case NoRecord => i == |previous.records|
       case Gap =>
         && i < |previous.records| && previous.records[i].status.Passed?
         && exists k :: 0 <= k < i && !previous.records[k].status.Passed?
       case Evidence =>
         && i < |previous.records| && (forall k :: 0 <= k < i ==> previous.records[k].status.Passed?)
         && !Backs(specs[i], env, previous.identity, i, previous.records[i], files)
       case _ => false
  }

  /** The reason for every answer to a request to resume. */
  ghost predicate Reason(specs: seq<Spec>, env: Env, identity: Bytes, files: Files, refusal: Option<Refusal>) {
    if !Verified(specs, env, files) then refusal == Some(NotVerified)
    else
      var previous := env.decode(files[ManifestName()]).value;
      if previous.identity != identity then refusal == Some(OtherIdentity)
      else if refusal.None? then Readmissible(specs, env, previous, files)
      else exists i :: RefusedAt(specs, env, previous, files, i, refusal.value)
  }

  lemma RefusedNotLater(specs: seq<Spec>, env: Env, previous: Manifest, files: Files, i: nat, why: Refusal, j: nat, other: Refusal)
    requires RefusedAt(specs, env, previous, files, i, why) && RefusedAt(specs, env, previous, files, j, other)
    ensures i >= j
  {
    hide Backs;
  }

  lemma RefusedAtOnePlace(specs: seq<Spec>, env: Env, previous: Manifest, files: Files, i: nat, why: Refusal, j: nat, other: Refusal)
    requires RefusedAt(specs, env, previous, files, i, why) && RefusedAt(specs, env, previous, files, j, other)
    ensures i == j && why == other
  {
    hide Backs;
    RefusedNotLater(specs, env, previous, files, i, why, j, other);
    RefusedNotLater(specs, env, previous, files, j, other, i, why);
  }

  lemma RefusedIsNotReadmissible(specs: seq<Spec>, env: Env, previous: Manifest, files: Files, i: nat, why: Refusal)
    requires RefusedAt(specs, env, previous, files, i, why)
    ensures !Readmissible(specs, env, previous, files) && why != NotVerified && why != OtherIdentity
  {
    hide Backs;
  }

  /** A request to resume has one answer. */
  lemma OneReason(specs: seq<Spec>, env: Env, identity: Bytes, files: Files, r: Option<Refusal>, q: Option<Refusal>)
    requires Reason(specs, env, identity, files, r) && Reason(specs, env, identity, files, q)
    ensures r == q
    ensures r.None? <==> Resumable(specs, env, identity, files)
  {
    hide Verified, Backs, Readmissible, RefusedAt;
    if Verified(specs, env, files) {
      VerifiedHasManifest(specs, env, files);
      var previous := env.decode(files[ManifestName()]).value;
      if previous.identity == identity && r.Some? {
        var i :| RefusedAt(specs, env, previous, files, i, r.value);
        RefusedIsNotReadmissible(specs, env, previous, files, i, r.value);
        if q.Some? {
          var j :| RefusedAt(specs, env, previous, files, j, q.value);
          RefusedAtOnePlace(specs, env, previous, files, i, r.value, j, q.value);
        }
      } else if previous.identity == identity && q.Some? {
        var j :| RefusedAt(specs, env, previous, files, j, q.value);
        RefusedIsNotReadmissible(specs, env, previous, files, j, q.value);
      }
    }
  }

  /** Something in `previous` is worth keeping. */
  ghost predicate HasWork(specs: seq<Spec>, previous: Manifest) {
    exists i :: 0 <= i < |specs| && i < |previous.records| && previous.records[i].status.Passed?
  }

  /** The answer to a request to resume: accepted exactly when resumable. Passed harnesses are
      then kept, and of the refusals only that for a missing record keeps them all. */
  ghost predicate Answers(specs: seq<Spec>, env: Env, identity: Bytes, before: Files, refusal: Option<Refusal>, m: Manifest) {
    && Reason(specs, env, identity, before, refusal)
    && (refusal.None? <==> Resumable(specs, env, identity, before))
    && (Verified(specs, env, before) ==>
          var previous := env.decode(before[ManifestName()]).value;
          && (refusal.None? ==> Keeps(specs, previous, m))
          && (HasWork(specs, previous) ==>
                (Keeps(specs, previous, m) <==> Resumable(specs, env, identity, before) || refusal == Some(NoRecord))))
  }

  lemma AnswerStands(specs: seq<Spec>, env: Env, identity: Bytes, before: Files, refusal: Option<Refusal>, m: Manifest, m': Manifest)
    requires Answers(specs, env, identity, before, refusal, m) && SameWork(m, m')
    ensures Answers(specs, env, identity, before, refusal, m')
  {
    hide Reason, Resumable, Verified, HasWork, ManifestName;
    if Verified(specs, env, before) {
      VerifiedHasManifest(specs, env, before);
      assert Keeps(specs, env.decode(before[ManifestName()]).value, m) <==> Keeps(specs, env.decode(before[ManifestName()]).value, m');
    }
  }

  /** The same harnesses passed, with the same evidence hashes. */
  ghost predicate Carried(specs: seq<Spec>, previous: Manifest, m: Manifest) {
    && |previous.records| >= |specs| == |m.records|
    && forall i :: 0 <= i < |specs| ==>
                     && (previous.records[i].status.Passed? <==> m.records[i].status.Passed?)
                     && (m.records[i].status.Passed? ==> m.records[i].sum == previous.records[i].sum)
  }

  /** What lets a session resume: a verified checkpoint of the same identity whose passed
      harnesses form a prefix and still have their evidence. */
  ghost predicate Resumable(specs: seq<Spec>, env: Env, identity: Bytes, files: Files) {
    && Verified(specs, env, files)
    && var previous := env.decode(files[ManifestName()]).value;
    previous.identity == identity && Readmissible(specs, env, previous, files)
  }

  /** `after` has only files of `before`, unchanged, and all of `kept`. */
  ghost predicate Inside(kept: set<Name>, before: Files, after: Files) {
    && kept <= after.Keys
    && forall n :: n in after ==> n in before && after[n] == before[n]
  }

  ghost predicate Tidy(specs: seq<Spec>, env: Env, i: nat, preexisting: set<Name>, files: Files)
    requires i < |specs|
  {
    forall n :: n in files && n !in preexisting ==> n == specs[i].evidence && env.readable(i, files[n])
  }

  /** What a run must show for its harness to pass: success, and exactly one new file, its
      own readable and validated evidence. */
  ghost predicate Earned(specs: seq<Spec>, env: Env, identity: Bytes, i: nat, files: Files, fate: RunFate)
    requires i < |specs|
  {
    && specs[i].evidence !in files && fate.Ends? && WentWell(fate.verdict, specs[i])
    && Tidy(specs, env, i, files.Keys, fate.made + files)
    && specs[i].evidence in fate.made && env.passing(identity, i, fate.made[specs[i].evidence])
  }

  /** What the record of a finished run says, passed or not. */
  ghost predicate RecordOf(specs: seq<Spec>, env: Env, i: nat, fate: RunFate, before: Files, after: Files, r: Record)
    requires i < |specs|
  {
    && fate.Ends? && !r.status.Pending? && r.source == fate.verdict.source
    && (r.clean <==> fate.verdict.homeRemoved && fate.verdict.cleaned && fate.verdict.snapshotKept
                     && Tidy(specs, env, i, before.Keys, fate.made + before))
    && r.sum == (if specs[i].evidence in after then Some(env.digest(after[specs[i].evidence])) else None)
    && (specs[i].evidence in fate.made && env.readable(i, fate.made[specs[i].evidence]) ==>
          specs[i].evidence in after && after[specs[i].evidence] == fate.made[specs[i].evidence])
  }

  /** The harness's readable evidence came, and nothing else. */
  ghost predicate Adds(specs: seq<Spec>, env: Env, i: nat, before: Files, after: Files)
    requires i < |specs|
  {
    && specs[i].evidence in after && env.readable(i, after[specs[i].evidence])
    && after == before[specs[i].evidence := after[specs[i].evidence]]
  }

  lemma ProofEarns(specs: seq<Spec>, env: Env, identity: Bytes, i: nat, files: Files, fate: RunFate)
    requires i < |specs| && specs[i].evidence !in files && Proves(specs[i], env, identity, i, fate)
    ensures Earned(specs, env, identity, i, files, fate)
  {
  }

  lemma ReadyIsClean(specs: seq<Spec>, env: Env, i: nat, completed: set<nat>, files: Files)
    ensures Ready(specs, env, i, completed, files) ==>
              && Clean(specs, env, files)
              && (i < |specs| && i !in completed ==> specs[i].evidence !in files)
              && (i < |specs| && i in completed ==> Ready(specs, env, i + 1, completed, files))
  {
  }

  lemma IsReady(specs: seq<Spec>, env: Env, completed: set<nat>, files: Files)
    ensures Clean(specs, env, files) && (forall i :: 0 <= i < |specs| && i !in completed ==> specs[i].evidence !in files) ==>
              Ready(specs, env, 0, completed, files)
  {
  }

  lemma AnyStopIsCalm(specs: seq<Spec>, env: Env, world: World, identity: Bytes)
    ensures forall d: nat :: Stops(specs, env, world, identity, d) ==> Calm(world)
  {
  }

  lemma StopsIsCalm(specs: seq<Spec>, env: Env, world: World, identity: Bytes, d: nat)
    requires Stops(specs, env, world, identity, d)
    ensures Calm(world) && d <= |specs|
  {
  }

  /** One round of a session that stops at harness `d`. */
  lemma RoundOfStops(specs: seq<Spec>, env: Env, world: World, m: Manifest, i: nat, completed: set<nat>, before: Files, after: Files,
                     k: nat, d: nat, o: Outcome, passed: bool, saved: bool)
    requires Stops(specs, env, world, m.identity, d) && d !in completed && i !in completed && i < |specs| == |m.records| && i <= d
    requires Ready(specs, env, i, completed, before)
    requires forall j :: 0 <= j < i ==> m.records[j].status.Passed?
    requires SlipsAway(specs[i], env, i, world.run(k, i)) && Ready(specs, env, i, completed, before) ==> o.Escaped? && Clean(specs, env, after)
    requires world.run(k, i) == Dies(map[]) && specs[i].evidence !in before ==> o.Dead? && saved
    requires Calm(world) && Proves(specs[i], env, m.identity, i, world.run(k, i)) && Ready(specs, env, i, completed, before) ==>
               o.Done? && passed && Ready(specs, env, i + 1, completed, after)
    ensures if o.Done? && passed then i < d && Ready(specs, env, i + 1, completed, after)
            else Stopped(specs, env, world, d, o, true, after, saved, m)
  {
    hide Stops, Ready, Calm, Proves, Clean, EscapesIn, SlipsAway;
    ReadyIsClean(specs, env, i, completed, before);
    StopsMeans(specs, env, world, m.identity, d, k, i);
  }

  lemma EndOfStops(specs: seq<Spec>, env: Env, world: World, m: Manifest, completed: set<nat>, files: Files, d: nat, saved: bool)
    requires Stops(specs, env, world, m.identity, d) && |specs| <= d && Ready(specs, env, |specs|, completed, files)
    requires |m.records| == |specs| && forall j :: 0 <= j < |specs| ==> m.records[j].status.Passed?
    ensures Stopped(specs, env, world, d, Done, false, files, saved, m)
  {
    ReadyIsClean(specs, env, |specs|, completed, files);
  }

  lemma AddedIsReady(specs: seq<Spec>, env: Env, i: nat, completed: set<nat>, before: Files, after: Files)
    requires SpecsOk(specs) && i < |specs| && Ready(specs, env, i, completed, before) && Adds(specs, env, i, before, after)
    ensures Ready(specs, env, i + 1, completed, after) && Clean(specs, env, after)
  {
    hide ManifestName, SumsName, Partition, IsPlainName;
    assert IsEvidence(specs, specs[i].evidence);
  }

  lemma SlippedIsClean(specs: seq<Spec>, env: Env, i: nat, completed: set<nat>, files: Files, fate: RunFate)
    requires SpecsOk(specs) && i < |specs| && Ready(specs, env, i, completed, files) && SlipsAway(specs[i], env, i, fate)
    ensures fate.Escapes? && Clean(specs, env, fate.made + files)
  {
    hide ManifestName, SumsName, Partition, IsPlainName;
    assert IsEvidence(specs, specs[i].evidence);
    assert forall n :: n in fate.made ==> n == specs[i].evidence;
  }

  lemma SameEvidenceIsReady(specs: seq<Spec>, env: Env, i: nat, completed: set<nat>, before: Files, after: Files)
    requires Ready(specs, env, i, completed, before) && SameEvidence(specs, before, after) && Clean(specs, env, after)
    ensures Ready(specs, env, i, completed, after)
  {
  }

  /** Nothing that was there is lost or changed. */
  ghost predicate Grown(before: Files, after: Files) {
    forall n :: n in before ==> n in after && after[n] == before[n]
  }

  /** How far the sweep of new entries has come: `todo` is still to be looked at. */
  ghost predicate Swept(specs: seq<Spec>, env: Env, world: World, i: nat, preexisting: set<Name>, start: Files, from: nat, now: nat,
                        todo: set<Name>, files: Files, complaints: bool) {
    && i < |specs| && from <= now && Inside(preexisting, start, files)
    && (forall n :: n in todo ==> n in files && n !in preexisting)
    && (complaints ==> !Tidy(specs, env, i, preexisting, start))
    && (!complaints ==> files == start)
    && (!complaints || RemovesAll(world, from, now) ==> Tidy(specs, env, i, preexisting + todo, files))
    && (Wanted(specs[i], env, i, start) ==> specs[i].evidence in files)
  }

  lemma SweepStarts(specs: seq<Spec>, env: Env, world: World, i: nat, preexisting: set<Name>, files: Files, now: nat)
    requires i < |specs| && preexisting <= files.Keys
    ensures Swept(specs, env, world, i, preexisting, files, now, now, files.Keys - preexisting, files, false)
  {
  }

  lemma SweepHas(specs: seq<Spec>, env: Env, world: World, i: nat, preexisting: set<Name>, start: Files, from: nat, now: nat,
                 todo: set<Name>, files: Files, complaints: bool, n: Name)
    requires Swept(specs, env, world, i, preexisting, start, from, now, todo, files, complaints) && n in todo
    ensures n in files && n !in preexisting
  {
    hide RemovesAll, Inside, Tidy, Wanted;
  }

  lemma SweepKeeps(specs: seq<Spec>, env: Env, world: World, i: nat, preexisting: set<Name>, start: Files, from: nat, now: nat,
                   todo: set<Name>, files: Files, complaints: bool, n: Name)
    requires Swept(specs, env, world, i, preexisting, start, from, now, todo, files, complaints)
    requires n in files && n == specs[i].evidence && env.readable(i, files[n])
    ensures Swept(specs, env, world, i, preexisting, start, from, now, todo - {n}, files, complaints)
  {
    hide RemovesAll, Inside;
  }

  lemma SweepRemoves(specs: seq<Spec>, env: Env, world: World, i: nat, preexisting: set<Name>, start: Files, from: nat, now: nat,
                     todo: set<Name>, files: Files, complaints: bool, n: Name)
    requires Swept(specs, env, world, i, preexisting, start, from, now, todo, files, complaints)
    requires n in files && n !in preexisting && !(n == specs[i].evidence && env.readable(i, files[n]))
    ensures Swept(specs, env, world, i, preexisting, start, from, now + 1, todo - {n},
                  if world.remove(now).Removes? then files - {n} else files, true)
  {
    hide RemovesAll;
    OneMoreRemoval(world, from, now);
    assert start[n] == files[n];
  }

  lemma SweepMeans(specs: seq<Spec>, env: Env, world: World, i: nat, preexisting: set<Name>, start: Files, from: nat, now: nat,
                   todo: set<Name>, files: Files, complaints: bool)
    requires Swept(specs, env, world, i, preexisting, start, from, now, todo, files, complaints)
    ensures from <= now && Inside(preexisting, start, files) && (!complaints ==> files == start)
    ensures Wanted(specs[i], env, i, start) ==> specs[i].evidence in files
    ensures complaints ==> !Tidy(specs, env, i, preexisting, start)
    ensures todo == {} && !complaints ==> Tidy(specs, env, i, preexisting, start)
    ensures todo == {} && RemovesAll(world, from, now) ==> Tidy(specs, env, i, preexisting, files)
  {
    hide RemovesAll, Inside, Tidy;
    assert todo == {} ==> preexisting + todo == preexisting;
  }

  /** Every removal from one step to another works. */
  ghost predicate RemovesAll(world: World, from: nat, to: nat) {
    forall k :: from <= k < to ==> world.remove(k).Removes?
  }

  lemma OneMoreRemoval(world: World, from: nat, to: nat)
    requires from <= to
    ensures RemovesAll(world, from, to + 1) <==> RemovesAll(world, from, to) && world.remove(to).Removes?
  {
  }

  lemma CalmRemovesAll(world: World, from: nat, to: nat)
    requires Calm(world)
    ensures RemovesAll(world, from, to)
  {
  }

  /** The harness left its evidence, and it can be read. */
  predicate Wanted(spec: Spec, env: Env, i: nat, files: Files) {
    spec.evidence in files && env.readable(i, files[spec.evidence])
  }

  /** A tidy addition keeps a directory clean. */
  lemma TidyIsClean(specs: seq<Spec>, env: Env, i: nat, before: Files, after: Files)
    requires SpecsOk(specs) && i < |specs| && Clean(specs, env, before) && Grown(before, after)
    requires Tidy(specs, env, i, before.Keys, after)
    ensures Clean(specs, env, after)
  {
    hide ManifestName, SumsName, Partition, IsPlainName;
    assert IsEvidence(specs, specs[i].evidence);
  }

  /** Every run ends and lets the gate have its say. */
  ghost predicate AllEnd(specs: seq<Spec>, world: World) {
    forall k, i :: 0 <= i < |specs| ==> world.run(k, i).Ends?
  }

  lemma AllKept(specs: seq<Spec>, previous: Manifest, m: Manifest)
    requires |previous.records| <= |specs| == |m.records|
    requires forall i :: 0 <= i < |previous.records| && previous.records[i].status.Passed? ==>
                           m.records[i].status.Passed? && m.records[i].sum == previous.records[i].sum
    ensures Keeps(specs, previous, m)
  {
  }

  lemma LostAt(specs: seq<Spec>, previous: Manifest, m: Manifest, i: nat)
    requires i < |specs| == |m.records| && i < |previous.records|
    requires previous.records[i].status.Passed? && !m.records[i].status.Passed?
    ensures !Keeps(specs, previous, m)
  {
  }

  lemma KeptOnward(specs: seq<Spec>, a: Manifest, b: Manifest, c: Manifest, i: nat)
    requires Keeps(specs, a, b) && i < |specs| == |b.records| == |c.records| && !b.records[i].status.Passed?
    requires forall k :: 0 <= k < |specs| && k != i ==> c.records[k] == b.records[k]
    ensures Keeps(specs, a, c)
  {
  }

  lemma KeepsItself(specs: seq<Spec>, m: Manifest)
    requires |m.records| == |specs|
    ensures Keeps(specs, m, m)
  {
  }

  lemma NoneKept(specs: seq<Spec>, previous: Manifest, m: Manifest)
    requires NonePassed(m) && |m.records| == |specs| && HasWork(specs, previous)
    ensures !Keeps(specs, previous, m)
  {
    var i :| 0 <= i < |specs| && i < |previous.records| && previous.records[i].status.Passed?;
    assert !m.records[i].status.Passed?;
  }

  lemma StaleIsNotReserved(specs: seq<Spec>, before: Files, after: Files, completed: set<nat>)
    requires SpecsOk(specs)
    requires forall n :: n in before && n !in after ==> exists i :: 0 <= i < |specs| && i !in completed && specs[i].evidence == n
    requires forall n :: n in after ==> n in before && after[n] == before[n]
    ensures SameSums(before, after) && KeepsLitter(specs, before, after)
    ensures forall i :: 0 <= i < |specs| && i in completed && specs[i].evidence in before ==> specs[i].evidence in after
  {
    hide ManifestName, SumsName, Partition, IsPlainName;
  }

  lemma GrownKeepsLitter(specs: seq<Spec>, before: Files, after: Files)
    requires Grown(before, after) && SumsName() in before
    ensures KeepsLitter(specs, before, after) && SameSums(before, after)
  {
  }

  lemma LitterItself(specs: seq<Spec>, files: Files)
    ensures KeepsLitter(specs, files, files)
  {
  }

  /** The gap check and the evidence checks never reject a checkpoint that the gate itself
      completed for the same identity. */
  lemma OwnCheckpointIsResumable(specs: seq<Spec>, env: Env, escaped: bool, files: Files, covered: Option<Files>, identity: Bytes)
    requires SpecsOk(specs) && EnvOk(env) && Recorded(specs, env, escaped, files, covered)
    requires covered.Some? ==> NoCollision(covered.value, files, env.digest)
    requires Verified(specs, env, files) && env.decode(files[ManifestName()]).value.identity == identity
    ensures Resumable(specs, env, identity, files)
  {
    hide ManifestName, SumsName, Covers, DigestOk, NoCollision, Verified, SpecsOk;
    ReservedNames();
    VerifiedExactlyWhenCovered(specs, env, escaped, files, covered);
    assert Verified(specs, env, files) ==> ManifestName() in files by {
      VerifiedHasManifest(specs, env, files);
    }
    var c := covered.value;
    var previous := env.decode(c[ManifestName()]).value;
    assert forall n :: n in c ==> n in files && files[n] == c[n];
    forall i | 0 <= i < |specs|
      ensures Backs(specs[i], env, previous.identity, i, previous.records[i], files)
    {
      assert BackedAt(specs, env, previous, c, i);
    }
  }

  lemma VerifiedHasManifest(specs: seq<Spec>, env: Env, files: Files)
    requires Verified(specs, env, files)
    ensures ManifestName() in files && env.decode(files[ManifestName()]).Some?
  {
  }

  ghost predicate NonePassed(m: Manifest) {
    forall i :: 0 <= i < |m.records| ==> !m.records[i].status.Passed?
  }

  lemma FreshHasNotPassed(specs: seq<Spec>, identity: Bytes)
    ensures NonePassed(Fresh(specs, identity)) && Fresh(specs, identity).identity == identity
    ensures Fresh(specs, identity).result.Running? && |Fresh(specs, identity).records| == |specs|
  {
  }

  lemma NotAllPassedIsIncomplete(specs: seq<Spec>, m: Manifest)
    requires !AllPassed(m)
    ensures !Complete(specs, m)
  {
  }

  lemma EveryOnePassed(m: Manifest)
    requires forall i :: 0 <= i < |m.records| ==> m.records[i].status.Passed?
    ensures AllPassed(m)
  {
  }

  /** Nothing is in the way, and harnesses from `i` on that must run have no evidence yet. */
  ghost predicate Ready(specs: seq<Spec>, env: Env, i: nat, completed: set<nat>, files: Files) {
    && Clean(specs, env, files)
    && forall k :: i <= k < |specs| && k !in completed ==> specs[k].evidence !in files
  }

  lemma UnpassedIsBacked(spec: Spec, env: Env, identity: Bytes, i: nat, r: Record, files: Files)
    requires !r.status.Passed?
    ensures Backs(spec, env, identity, i, r, files)
  {
  }

  lemma NotPassedAt(m: Manifest, i: nat)
    requires i < |m.records| && !m.records[i].status.Passed?
    ensures !AllPassed(m)
  {
  }

  /** Every harness that had passed in `previous` has passed in `m`, with the same evidence. */
  ghost predicate Keeps(specs: seq<Spec>, previous: Manifest, m: Manifest) {
    && |m.records| == |specs|
    && forall i :: 0 <= i < |specs| && i < |previous.records| && previous.records[i].status.Passed? ==>
                     m.records[i].status.Passed? && m.records[i].sum == previous.records[i].sum
  }

  lemma EscapeIsRecorded(specs: seq<Spec>, env: Env, escaped: bool, files: Files, covered: Option<Files>,
                         texts: seq<Bytes>, past: seq<Files>)
    requires Recorded(specs, env, escaped, files, covered) && History(specs, env, escaped, texts, past)
    ensures Recorded(specs, env, true, files, covered) && History(specs, env, true, texts, past)
  {
  }

  /** The two differ at most in result and time. */
  ghost predicate SameWork(a: Manifest, b: Manifest) {
    a.identity == b.identity && a.records == b.records && a.e2e == b.e2e && a.verify == b.verify
  }

  lemma SoundIsSized(specs: seq<Spec>, env: Env, m: Manifest, files: Files)
    requires Sound(specs, env, m, files)
    ensures |m.records| == |specs|
  {
  }

  lemma ResultIsFree(specs: seq<Spec>, env: Env, a: Manifest, b: Manifest, files: Files)
    requires SameWork(a, b)
    ensures Sound(specs, env, a, files) <==> Sound(specs, env, b, files)
    ensures Complete(specs, a) <==> Complete(specs, b)
  {
    assert forall i :: 0 <= i < |specs| && |a.records| == |specs| ==> (BackedAt(specs, env, a, files, i) <==> BackedAt(specs, env, b, files, i));
  }

  /** Neither of the two looks for interrupts and cleanup errors at the end of a session found
      any. */
  predicate Untroubled(world: World, checked: nat) {
    !world.trouble(checked) && !world.trouble(checked + 3)
  }

  /** How a session ends that stops at harness `d`: an escaping exception saves a passed result
      over what is left to do, a death leaves the last checkpoint. */
  ghost predicate Halted(specs: seq<Spec>, env: Env, world: World, d: nat, r: Report, saved: bool) {
    && PassedBelow(r.manifest, d)
    && if EscapesIn(specs, env, world, d) then r.end.EndEscaped? && r.saved && Overstated(specs, r.manifest) else r.end.EndDead? && saved
  }

  lemma HaltsAsStopped(specs: seq<Spec>, env: Env, world: World, d: nat, o: Outcome, failure: bool, files: Files, saved: bool,
                       m: Manifest, r: Report, savedAfter: bool)
    requires Calm(world) && d <= |specs| && Stopped(specs, env, world, d, o, failure, files, saved, m) && SameWork(m, r.manifest)
    requires o.Done? && !failure && Clean(specs, env, files) ==> r.end.EndSucceeded?
    requires o.Escaped? && Clean(specs, env, files) ==> r.end.EndEscaped? && r.saved
    requires r.end.EndEscaped? && r.saved ==> (Overstated(specs, r.manifest) <==> Untroubled(world, r.checked))
    requires o.Dead? ==> r.end.EndDead? && (saved ==> savedAfter)
    ensures if d == |specs| then r.end.EndSucceeded? else Halted(specs, env, world, d, r, savedAfter)
  {
    hide Clean, Overstated, EscapesIn;
  }

  lemma SavedIsNotLittered(specs: seq<Spec>, env: Env, files: Files, covered: Option<Files>, m: Manifest)
    requires Littered(specs, files)
    ensures !IsSaved(specs, env, files, covered, m)
  {
  }

  lemma LitterIsSeen(specs: seq<Spec>, env: Env, files: Files)
    ensures Littered(specs, files) ==> !Verified(specs, env, files)
    ensures Littered(specs, files) ==> forall identity, refusal :: Reason(specs, env, identity, files, refusal) ==> refusal == Some(NotVerified)
  {
  }

  /** What every report means. */
  ghost predicate Truthful(specs: seq<Spec>, env: Env, request: Request, r: Report) {
    && (r.end.EndSucceeded? ==> r.started && r.saved && Complete(specs, r.manifest) && r.manifest.result.GatePassed?)
    && (r.started ==> Sound(specs, env, r.manifest, r.files) && r.manifest.identity == request.identity)
    && (r.saved ==> r.started)
    && (r.saved ==> Verified(specs, env, r.files) && env.decode(r.files[ManifestName()]) == Some(r.manifest))
    && (r.saved && !r.escaped ==> !Overstated(specs, r.manifest))
  }

  /** The directory holds the gate's own work under this identity, and no digest collides. */
  ghost predicate OwnWork(specs: seq<Spec>, env: Env, found: Found, identity: Bytes) {
    && Unmistaken(env, found) && Verified(specs, env, found.files)
    && env.decode(found.files[ManifestName()]).value.identity == identity
  }

  ghost predicate Unmistaken(env: Env, found: Found) {
    found.covered.Some? ==> NoCollision(found.covered.value, found.files, env.digest)
  }

  /** A session takes over all of the gate's own work that it finds under its identity, and the
      gap, evidence and record checks never turn it away. */
  ghost predicate Fair(specs: seq<Spec>, env: Env, request: Request, found: Found, r: Report) {
    request.resume && r.started && Unmistaken(env, found) ==>
      && (r.refusal.None? || r.refusal == Some(NotVerified) || r.refusal == Some(OtherIdentity))
      && (OwnWork(specs, env, found, request.identity) ==>
            r.refusal.None? && Keeps(specs, env.decode(found.files[ManifestName()]).value, r.manifest))
  }

  ghost predicate Told(specs: seq<Spec>, env: Env, request: Request, found: Found, r: Option<Report>) {
    r.Some? && Truthful(specs, env, request, r.value) && Fair(specs, env, request, found, r.value)
  }

  /** The next session finds what the last one left. */
  ghost predicate Left(r: Report, found: Found) {
    found.files == r.files && (r.saved ==> found.covered == Some(r.files - {SumsName()}))
  }

  /** Every session is told by what it found, which is what the event before it left. */
  ghost predicate Chronicle(specs: seq<Spec>, env: Env, events: seq<Event>, reports: seq<Option<Report>>, found: seq<Found>) {
    && |reports| == |found| <= |events|
    && (forall k :: 0 <= k < |reports| && events[k].Runs? ==> Told(specs, env, events[k].request, found[k], reports[k]))
    && (forall k :: 0 < k < |reports| && reports[k - 1].Some? ==> Left(reports[k - 1].value, found[k]))
  }

  ghost predicate SomeEscaped(reports: seq<Option<Report>>) {
    exists k :: 0 <= k < |reports| && reports[k].Some? && reports[k].value.escaped
  }

  lemma ChronicleStarts(specs: seq<Spec>, env: Env, events: seq<Event>)
    ensures Chronicle(specs, env, events, [], []) && !SomeEscaped([])
  {
  }

  lemma ChronicleGrows(specs: seq<Spec>, env: Env, events: seq<Event>, reports: seq<Option<Report>>, found: seq<Found>,
                       r: Option<Report>, here: Found)
    requires Chronicle(specs, env, events, reports, found) && |reports| < |events|
    requires events[|reports|].Runs? ==> Told(specs, env, events[|reports|].request, here, r)
    requires reports != [] && reports[|reports| - 1].Some? ==> Left(reports[|reports| - 1].value, here)
    ensures Chronicle(specs, env, events, reports + [r], found + [here])
    ensures SomeEscaped(reports + [r]) <==> SomeEscaped(reports) || (r.Some? && r.value.escaped)
  {
    hide Told, Left;
    var longer := reports + [r];
    assert longer[|reports|] == r;
    if SomeEscaped(reports) {
      var k :| 0 <= k < |reports| && reports[k].Some? && reports[k].value.escaped;
      assert longer[k] == reports[k];
    }
  }

  lemma SavedIsLeft(specs: seq<Spec>, env: Env, files: Files, covered: Option<Files>, m: Manifest, r: Report)
    requires r.files == files && (r.saved ==> IsSaved(specs, env, files, covered, m))
    ensures Left(r, Found(files, covered))
  {
  }

  /** In every history a resumed session takes over all that the session just before it saved. */
  lemma SavedIsContinued(specs: seq<Spec>, env: Env, events: seq<Event>, reports: seq<Option<Report>>, found: seq<Found>)
    requires Chronicle(specs, env, events, reports, found)
    ensures forall k :: 0 < k < |reports| && events[k - 1].Runs? && events[k].Runs? && reports[k - 1].Some? && reports[k].Some? ==>
                          Continued(specs, events[k - 1].request, reports[k - 1].value, events[k].request, reports[k].value)
  {
    hide Told, Left, Continued;
    forall k | 0 < k < |reports| && events[k - 1].Runs? && events[k].Runs? && reports[k - 1].Some? && reports[k].Some?
      ensures Continued(specs, events[k - 1].request, reports[k - 1].value, events[k].request, reports[k].value)
    {
      ContinuesNext(specs, env, events[k - 1].request, reports[k - 1].value, found[k - 1], found[k], events[k].request, reports[k].value);
    }
  }

  ghost predicate Continued(specs: seq<Spec>, earlier: Request, before: Report, later: Request, after: Report) {
    before.saved && later.resume && later.identity == earlier.identity && after.started ==>
      after.refusal.None? && Keeps(specs, before.manifest, after.manifest)
  }

  lemma ContinuesNext(specs: seq<Spec>, env: Env, earlier: Request, before: Report, foundBefore: Found, found: Found, later: Request, after: Report)
    requires Told(specs, env, earlier, foundBefore, Some(before)) && Left(before, found) && Told(specs, env, later, found, Some(after))
    ensures Continued(specs, earlier, before, later, after)
  {
    hide Sound, Complete, Verified, Keeps, ManifestName, SumsName, Overstated;
    if before.saved {
      assert Unmistaken(env, found);
    }
  }

  /** Exactly when a session may resume: the directory is what the last checkpoint covered, of
      the same identity. After a crash that is so when nothing had changed since, or the new
      checksum file was already in place; it is not after a new manifest alone, a new evidence
      file, or anything else that was left behind. */
  lemma ResumableExactly(specs: seq<Spec>, env: Env, escaped: bool, files: Files, covered: Option<Files>, identity: Bytes)
    requires SpecsOk(specs) && EnvOk(env) && Recorded(specs, env, escaped, files, covered) && Unmistaken(env, Found(files, covered))
    ensures Resumable(specs, env, identity, files) <==>
            && covered.Some? && files - {SumsName()} == covered.value
            && env.decode(covered.value[ManifestName()]).value.identity == identity
  {
    hide SpecsOk, EnvOk, Verified, Covers, Sound, Overstated, Readmissible, ManifestName, SumsName, NoCollision, EntriesAllowed, AllReadable, PlainNames;
    ReservedNames();
    VerifiedExactlyWhenCovered(specs, env, escaped, files, covered);
    if Verified(specs, env, files) {
      VerifiedHasManifest(specs, env, files);
      assert files[ManifestName()] == (files - {SumsName()})[ManifestName()];
      if env.decode(files[ManifestName()]).value.identity == identity {
        OwnCheckpointIsResumable(specs, env, escaped, files, covered, identity);
      }
    }
  }

  /** Whatever crashes came before: a directory that passes verification holds a sound
      manifest, and a passed result there is complete unless an exception once escaped. */
  lemma VerifiedIsSound(specs: seq<Spec>, env: Env, escaped: bool, files: Files, covered: Option<Files>)
    requires SpecsOk(specs) && EnvOk(env) && Recorded(specs, env, escaped, files, covered)
    requires covered.Some? ==> NoCollision(covered.value, files, env.digest)
    requires Verified(specs, env, files)
    ensures Sound(specs, env, env.decode(files[ManifestName()]).value, files)
    ensures !escaped ==> !Overstated(specs, env.decode(files[ManifestName()]).value)
  {
    hide ManifestName, SumsName, Covers, DigestOk, NoCollision, Verified, SpecsOk, Sound, Overstated;
    ReservedNames();
    VerifiedExactlyWhenCovered(specs, env, escaped, files, covered);
    VerifiedHasManifest(specs, env, files);
    var c := covered.value;
    assert forall n :: n in c ==> n in files && files[n] == c[n];
    SoundIsSized(specs, env, env.decode(c[ManifestName()]).value, c);
    SameEvidenceIsSound(specs, env, env.decode(c[ManifestName()]).value, c, files);
  }

  lemma SameSumsSameRecord(specs: seq<Spec>, env: Env, escaped: bool, before: Files, after: Files, covered: Option<Files>)
    requires Recorded(specs, env, escaped, before, covered) && SameSums(before, after)
    ensures Recorded(specs, env, escaped, after, covered)
    ensures SumsName() in before <==> SumsName() in after
  {
    hide SumsName, Covers, Checkpointed;
  }

  /** Once the new checksum file is in place it is on record, and without litter the directory
      is the checkpoint. */
  lemma SumsInPlace(specs: seq<Spec>, env: Env, escaped: bool, m: Manifest, before: Files, after: Files,
                    order: seq<Name>, text: Bytes, texts: seq<Bytes>, past: seq<Files>)
    requires SpecsOk(specs) && EnvOk(env) && Lists(specs, before, order) && after == before[SumsName() := text]
    requires ManifestName() in before && before[ManifestName()] == env.encode(m)
    requires Covers(text, Chosen(before, order), env.digest) && Checkpointed(specs, env, escaped, Chosen(before, order))
    requires History(specs, env, escaped, texts, past)
    ensures Recorded(specs, env, escaped, after, Some(Chosen(before, order)))
    ensures History(specs, env, escaped, texts + [text], past + [Chosen(before, order)])
    ensures SumsName() in after
    ensures EntriesAllowed(specs, after) ==>
              && after - {SumsName()} == Chosen(before, order) && Verified(specs, env, after)
              && env.decode(after[ManifestName()]) == Some(m)
    ensures !EntriesAllowed(specs, after) ==> Littered(specs, after)
  {
    hide ManifestName, SumsName, Covers, Checkpointed, Lists, EntriesAllowed, Chosen, SpecsOk, DigestOk, Verified;
    ReservedNames();
    if EntriesAllowed(specs, after) {
      EverythingIsChosen(specs, before, after, order, text);
      CoveredIsVerified(specs, env, escaped, after, Chosen(before, order));
    }
  }

  lemma EverythingIsChosen(specs: seq<Spec>, before: Files, after: Files, order: seq<Name>, text: Bytes)
    requires Lists(specs, before, order) && SpecsOk(specs)
    requires after == before[SumsName() := text] && EntriesAllowed(specs, after)
    ensures after - {SumsName()} == Chosen(before, order)
  {
    hide ManifestName, SumsName, Partition, IsPlainName;
    ReservedNames();
    forall n | n in after && n != SumsName()
      ensures n in order
    {
      assert IsAllowed(specs, n);
    }
  }

  // ----- runs

  ghost predicate AlwaysPrepared(world: World) {
    forall k :: world.prepared(k)
  }

  /** A refused resume loses work: everything passes under one identity, a resume under another
      is refused, and what it saves has nothing passed, so the first identity starts again. */
  method RefusedResumeLosesWork(g: Gate, first: Bytes, second: Bytes) returns (done: Report, refused: Report, again: Report)
    requires g.Inv() && !g.made && |g.specs| > 0 && first != second
    requires AlwaysPrepared(g.world) && Smooth(g.specs, g.env, g.world, first)
    modifies g
    ensures done.end.EndSucceeded? && Complete(g.specs, done.manifest) && HasWork(g.specs, done.manifest)
    ensures refused.refusal == Some(OtherIdentity) && refused.saved && !Keeps(g.specs, done.manifest, refused.manifest)
    ensures again.refusal == Some(OtherIdentity) && NonePassed(again.manifest)
  {
    hide SpecsOk, EnvOk, Sound, Recorded, History, Verified, ManifestName, SumsName, Calm, Clean, Littered, Halted, Answers, Keeps;
    done := g.RunGate(false, first);
    StopsIsCalm(g.specs, g.env, g.world, first, |g.specs|);
    CompleteIsWork(g.specs, done.manifest);
    SavedAnswers(g.specs, g.env, g.files, g.covered, done.manifest, second);
    refused := g.RunGate(true, second);
    AnswerToSaved(g.specs, g.env, second, done.files, refused.refusal, done.manifest, refused.manifest);
    SavedAnswers(g.specs, g.env, g.files, g.covered, refused.manifest, first);
    again := g.RunGate(true, first);
    AnswerToSaved(g.specs, g.env, first, refused.files, again.refusal, refused.manifest, again.manifest);
  }

  /** A death is survived: the process dies while harness `d` runs, and the resumed session has
      everything before it. */
  method DeathIsSurvived(g: Gate, identity: Bytes, ghost d: nat) returns (died: Report, resumed: Report)
    requires g.Inv() && !g.made && d < |g.specs| && AlwaysPrepared(g.world)
    requires Stops(g.specs, g.env, g.world, identity, d) && !EscapesIn(g.specs, g.env, g.world, d)
    modifies g
    ensures died.end.EndDead? && PassedBelow(died.manifest, d)
    ensures resumed.refusal.None? && PassedBelow(resumed.manifest, d)
  {
    hide SpecsOk, EnvOk, Sound, Recorded, History, Verified, ManifestName, SumsName, Calm, Clean, Littered, Answers, Stops, EscapesIn, Resumable;
    died := g.RunGate(false, identity);
    SavedAnswers(g.specs, g.env, g.files, g.covered, died.manifest, identity);
    OwnCheckpointIsResumable(g.specs, g.env, g.escaped, g.files, g.covered, identity);
    resumed := g.RunGate(true, identity);
    AnswerToSaved(g.specs, g.env, identity, died.files, resumed.refusal, died.manifest, resumed.manifest);
  }

  lemma CompleteIsWork(specs: seq<Spec>, m: Manifest)
    requires Complete(specs, m) && |specs| > 0
    ensures HasWork(specs, m)
  {
    assert m.records[0].status.Passed?;
  }

  lemma SavedAnswers(specs: seq<Spec>, env: Env, files: Files, covered: Option<Files>, m: Manifest, identity: Bytes)
    requires IsSaved(specs, env, files, covered, m)
    ensures Verified(specs, env, files) && Clean(specs, env, files)
    ensures ManifestName() in files && env.decode(files[ManifestName()]) == Some(m)
    ensures covered.Some? && NoCollision(covered.value, files, env.digest)
  {
    hide ManifestName, SumsName, LinesAccept;
  }

  lemma AnswerToSaved(specs: seq<Spec>, env: Env, identity: Bytes, before: Files, refusal: Option<Refusal>, m: Manifest, m': Manifest)
    requires Answers(specs, env, identity, before, refusal, m') && Verified(specs, env, before)
    requires env.decode(before[ManifestName()]) == Some(m)
    ensures m.identity != identity ==> refusal == Some(OtherIdentity)
    ensures m.identity != identity && HasWork(specs, m) ==> !Keeps(specs, m, m')
    ensures Resumable(specs, env, identity, before) ==> refusal.None? && Keeps(specs, m, m')
  {
    hide Verified, Readmissible, HasWork, Keeps, RefusedAt, ManifestName;
  }

  /** A death inside a private write, between creating and renaming the temporary file, ends the
      directory: no later session resumes it or saves in it. */
  method DeathInWriteEndsDirectory(g: Gate, identity: Bytes, later: Bytes) returns (died: Report, refused: Report)
    requires g.Inv() && !g.made && AlwaysPrepared(g.world)
    requires var f := g.world.write(g.clock + 2); f.step == AtWrite && f.dies
    modifies g
    ensures died.end.EndDead? && Littered(g.specs, died.files)
    ensures refused.refusal == Some(NotVerified) && !refused.saved && Littered(g.specs, refused.files)
  {
    hide SpecsOk, EnvOk, Sound, Recorded, History, Verified, ManifestName, SumsName, Calm, Clean, Littered, Answers, Stops, Halted, Complete;
    died := g.RunGate(false, identity);
    refused := g.RunGate(true, later);
    LitterIsRefused(g.specs, g.env, later, died.files, refused.refusal, refused.manifest);
  }

  lemma LitterIsRefused(specs: seq<Spec>, env: Env, identity: Bytes, files: Files, refusal: Option<Refusal>, m: Manifest)
    requires Littered(specs, files) && Answers(specs, env, identity, files, refusal, m)
    ensures refusal == Some(NotVerified)
  {
    hide LinesAccept, AllReadable, ManifestName, SumsName, Readmissible, HasWork, Keeps, RefusedAt;
  }
}
