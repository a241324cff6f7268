/** Crash-safe file replacement: a sibling temporary file is written, synced and renamed
    over the destination, and the parent directory is synced. */
module AtomicFile {
  import opened Options
  import opened Bytes
  import opened CrashDisk

  /** Where a path points, as far as the write cares. */
  datatype Target = NoParent | NoFileName | Named(name: string)

  datatype Step =
    | OpenParent | RemoveStale | CreateTemp | SetMode | WriteTemp | SyncTemp | RenameTemp | SyncParent

  datatype Failure = InvalidMode | UnknownParent | UnknownName | Unserializable | Io(step: Step, cleanupFailed: bool)

  datatype WriteResult = Replaced | Refused(why: Failure) | PowerLost

  /** The fate of each system call of one write, in the order they are made. */
  datatype Fates = Fates(open: Fate, unlink: Fate, create: Fate, chmod: Fate, write: Fate,
                         sync: Fate, rename: Fate, syncParent: Fate, cleanup: Fate)

  ghost predicate AllWork(f: Fates) {
    && f.open.Works? && f.unlink.Works? && f.create.Works? && f.chmod.Works?
    && f.write.Works? && f.sync.Works? && f.rename.Works? && f.syncParent.Works?
  }

  function Cut(f: Fate, otherwise: WriteResult): WriteResult {
    if f.PowerFails? then PowerLost else otherwise
  }

  /** The result after a failure that needs cleaning up. */
  function AfterCleanup(step: Step, cleanup: Fate): WriteResult {
    Cut(cleanup, Refused(Io(step, cleanup.Fails?)))
  }

  /** The first call that does not work decides the result. */
  function Ending(f: Fates, setsMode: bool): WriteResult {
    if !f.open.Works? then Cut(f.open, Refused(Io(OpenParent, false)))
    else if !f.unlink.Works? then Cut(f.unlink, Refused(Io(RemoveStale, false)))
    else if !f.create.Works? then Cut(f.create, Refused(Io(CreateTemp, false)))
    else if setsMode && !f.chmod.Works? then Cut(f.chmod, AfterCleanup(SetMode, f.cleanup))
    else if !f.write.Works? then Cut(f.write, AfterCleanup(WriteTemp, f.cleanup))
    else if !f.sync.Works? then Cut(f.sync, AfterCleanup(SyncTemp, f.cleanup))
    else if !f.rename.Works? then Cut(f.rename, AfterCleanup(RenameTemp, f.cleanup))
    else if !f.syncParent.Works? then Cut(f.syncParent, Refused(Io(SyncParent, false)))
    else Replaced
  }

  const MAX_MODE: nat := 0xFFF

  function TempName(name: string): (temp: string)
    ensures temp != name
  {
    name + ".tmp"
  }

  // ----- what a write promises about the directory

  /** A settled view is carried over; a torn one may turn into anything at a power cut. */
  ghost predicate SameView(d: Image, k: nat, d': Image, k': nat, n: string)
    requires WellFormed(d) && k < |d.listings| && WellFormed(d') && k' < |d'.listings|
  {
    ViewAt(d, k, n) == Torn || ViewAt(d', k', n) == ViewAt(d, k, n)
  }

  ghost predicate SameBut(d: Image, k: nat, d': Image, k': nat, temp: string)
    requires WellFormed(d) && k < |d.listings| && WellFormed(d') && k' < |d'.listings|
  {
    forall n :: n != temp ==> SameView(d, k, d', k', n)
  }

  /** Listing `k'` is one that could already have survived before the write. */
  ghost predicate Kept(d: Image, d': Image, k': nat, temp: string)
    requires WellFormed(d) && WellFormed(d') && k' < |d'.listings|
  {
    exists k :: 0 <= k < |d.listings| && SameBut(d, k, d', k', temp)
  }

  /** Listing `k'` holds all of `bytes` under `t`, and everything else as last seen. */
  ghost predicate Published(d: Image, d': Image, k': nat, t: string, bytes: Bytes)
    requires WellFormed(d) && WellFormed(d') && k' < |d'.listings|
  {
    && ViewAt(d', k', t) == Holds(bytes)
    && forall n :: n != t && n != TempName(t) ==> SameView(d, Newest(d), d', k', n)
  }

  ghost predicate OldOrNew(d: Image, d': Image, t: string, bytes: Bytes)
    requires WellFormed(d) && WellFormed(d')
  {
    forall k' :: 0 <= k' < |d'.listings| ==> Kept(d, d', k', TempName(t)) || Published(d, d', k', t, bytes)
  }

  /** No listing holds anything of the write: each is one that could have survived before. */
  ghost predicate NothingNew(d: Image, d': Image, t: string)
    requires WellFormed(d) && WellFormed(d')
  {
    forall k' :: 0 <= k' < |d'.listings| ==> Kept(d, d', k', TempName(t))
  }

  /** Everything one write promises, however it ends. */
  ghost predicate Attempted(d: Image, d': Image, t: string, bytes: Bytes, r: WriteResult)
    requires WellFormed(d)
  {
    && WellFormed(d')
    && OldOrNew(d, d', t, bytes)
    && match r
       case Replaced =>
         |d'.listings| == 1 && Published(d, d', 0, t, bytes) && TempName(t) !in Seen(d')
       case Refused(Io(SyncParent, _)) =>
         Published(d, d', Newest(d'), t, bytes)
       case Refused(Io(OpenParent, _)) =>
         d' == d
       case Refused(Io(step, cleanupFailed)) =>
         && SameBut(d, Newest(d), d', Newest(d'), TempName(t))
         && NothingNew(d, d', t)
         && (step != RemoveStale && !cleanupFailed ==> TempName(t) !in Seen(d'))
       case Refused(_) =>
         d' == d
       case PowerLost =>
         |d'.listings| == 1
  }

  // ----- the two stages of a write

  ghost predicate AgreeBut(l: Listing, m: Listing, temp: string) {
    forall n :: n != temp ==> (n in l <==> n in m) && (n in l ==> l[n] == m[n])
  }

  ghost predicate FilesKept(d: Image, d': Image) {
    forall i :: i in d.data ==> i in d'.data && d'.data[i] == d.data[i] && (i in d.synced <==> i in d'.synced)
  }

  /** Before the rename: only the temporary name has been touched. */
  ghost predicate Staging(d: Image, d': Image, temp: string) {
    && WellFormed(d) && WellFormed(d') && FilesKept(d, d')
    && |d.listings| <= |d'.listings|
    && (forall k :: 0 <= k < |d.listings| ==> d'.listings[k] == d.listings[k])
    && (forall k :: |d.listings| <= k < |d'.listings| ==> AgreeBut(d'.listings[k], Seen(d), temp))
  }

  /** After the rename: one more listing, in which the destination is complete. */
  ghost predicate Renaming(d: Image, d': Image, t: string, bytes: Bytes) {
    && WellFormed(d) && WellFormed(d') && |d'.listings| > 1
    && Staging(d, d'.(listings := d'.listings[..|d'.listings| - 1]), TempName(t))
    && Published(d, d', Newest(d'), t, bytes)
    && TempName(t) !in Seen(d')
  }

  /** Each call before the rename leaves the write in its first stage. */
  lemma StagingUnlinks(d: Image, s: Image, temp: string)
    requires Staging(d, s, temp)
    ensures WellFormed(Unlinked(s, temp)) && Staging(d, Unlinked(s, temp), temp) && temp !in Seen(Unlinked(s, temp))
  {
  }

  lemma StagingCreates(d: Image, s: Image, temp: string)
    requires Staging(d, s, temp)
    ensures WellFormed(Created(s, temp)) && Staging(d, Created(s, temp), temp)
    ensures s.next !in d.data
  {
    assert s.next !in d.data;
  }

  lemma StagingFileSteps(d: Image, s: Image, temp: string, i: Inode, bytes: Bytes)
    requires Staging(d, s, temp) && i in s.data && i !in d.data
    ensures WellFormed(Written(s, i, bytes)) && Staging(d, Written(s, i, bytes), temp)
    ensures WellFormed(FileSynced(s, i)) && Staging(d, FileSynced(s, i), temp)
  {
  }

  lemma StagingKeeps(d: Image, d': Image, temp: string, k': nat)
    requires Staging(d, d', temp) && k' < |d'.listings|
    ensures SameBut(d, if k' < |d.listings| then k' else Newest(d), d', k', temp)
    ensures Kept(d, d', k', temp)
  {
    var k := if k' < |d.listings| then k' else Newest(d);
    forall n | n != temp
      ensures SameView(d, k, d', k', n)
    {
    }
  }

  lemma SurvivalKeeps(d: Image, k: nat, g: Inode -> Bytes, n: string)
    requires WellFormed(d) && k < |d.listings|
    ensures WellFormed(Survived(d, k, g))
    ensures SameView(d, k, Survived(d, k, g), 0, n)
  {
  }

  lemma StagingSurvives(d: Image, d': Image, t: string, bytes: Bytes, k: nat, g: Inode -> Bytes)
    requires Staging(d, d', TempName(t)) && k < |d'.listings|
    ensures Attempted(d, Survived(d', k, g), t, bytes, PowerLost) && NothingNew(d, Survived(d', k, g), t)
  {
    StagingKeeps(d, d', TempName(t), k);
    var before := if k < |d.listings| then k else Newest(d);
    forall n | n != TempName(t)
      ensures SameView(d, before, Survived(d', k, g), 0, n)
    {
      assert SameView(d, before, d', k, n);
      SurvivalKeeps(d', k, g, n);
    }
    assert SameBut(d, before, Survived(d', k, g), 0, TempName(t));
  }

  lemma StagingRefused(d: Image, d': Image, t: string, bytes: Bytes, step: Step, cleanupFailed: bool)
    requires Staging(d, d', TempName(t))
    requires step != OpenParent && step != SyncParent
    requires step != RemoveStale && !cleanupFailed ==> TempName(t) !in Seen(d')
    ensures Attempted(d, d', t, bytes, Refused(Io(step, cleanupFailed))) && NothingNew(d, d', t)
  {
    forall k' | 0 <= k' < |d'.listings|
      ensures Kept(d, d', k', TempName(t))
    {
      StagingKeeps(d, d', TempName(t), k');
    }
    StagingKeeps(d, d', TempName(t), Newest(d'));
  }

  lemma NotStarted(d: Image, t: string, bytes: Bytes)
    requires WellFormed(d)
    ensures Staging(d, d, TempName(t))
    ensures Attempted(d, d, t, bytes, Refused(Io(OpenParent, false)))
    ensures Attempted(d, d, t, bytes, Refused(InvalidMode))
  {
    StagingRefused(d, d, t, bytes, RemoveStale, false);
  }

  lemma RenamingOldOrNew(d: Image, d': Image, t: string, bytes: Bytes)
    requires Renaming(d, d', t, bytes)
    ensures OldOrNew(d, d', t, bytes)
  {
    var before := d'.(listings := d'.listings[..|d'.listings| - 1]);
    forall k' | 0 <= k' < |before.listings|
      ensures Kept(d, d', k', TempName(t))
    {
      StagingKeeps(d, before, TempName(t), k');
      var k := if k' < |d.listings| then k' else Newest(d);
      assert forall n :: ViewAt(before, k', n) == ViewAt(d', k', n);
      assert SameBut(d, k, d', k', TempName(t));
    }
  }

  lemma RenamingSurvives(d: Image, d': Image, t: string, bytes: Bytes, k: nat, g: Inode -> Bytes)
    requires Renaming(d, d', t, bytes) && k < |d'.listings|
    ensures Attempted(d, Survived(d', k, g), t, bytes, PowerLost)
  {
    var after := Survived(d', k, g);
    RenamingOldOrNew(d, d', t, bytes);
    if Published(d, d', k, t, bytes) {
      SurvivalKeeps(d', k, g, t);
      forall n | n != t && n != TempName(t)
        ensures SameView(d, Newest(d), after, 0, n)
      {
        assert SameView(d, Newest(d), d', k, n);
        SurvivalKeeps(d', k, g, n);
      }
      assert Published(d, after, 0, t, bytes);
    } else {
      var j :| 0 <= j < |d.listings| && SameBut(d, j, d', k, TempName(t));
      forall n | n != TempName(t)
        ensures SameView(d, j, after, 0, n)
      {
        assert SameView(d, j, d', k, n);
        SurvivalKeeps(d', k, g, n);
      }
      assert SameBut(d, j, after, 0, TempName(t));
    }
  }

  /** The rename turns a staged, synced temporary file into the destination. */
  lemma RenameStaged(d: Image, s: Image, t: string, bytes: Bytes)
    requires Staging(d, s, TempName(t)) && TempName(t) in Seen(s)
    requires Seen(s)[TempName(t)] in s.synced && s.data[Seen(s)[TempName(t)]] == bytes
    ensures Renaming(d, Renamed(s, TempName(t), t), t, bytes)
  {
    var r := Renamed(s, TempName(t), t);
    assert r.listings[..|r.listings| - 1] == s.listings;
    assert s == r.(listings := s.listings);
    StagingKeeps(d, s, TempName(t), Newest(s));
    forall n | n != t && n != TempName(t)
      ensures SameView(d, Newest(d), r, Newest(r), n)
    {
      assert SameView(d, Newest(d), s, Newest(s), n);
      assert ViewAt(r, Newest(r), n) == ViewAt(s, Newest(s), n);
    }
  }

  // ----- the operation

  /** `fail_before_rename`: the temporary file is removed; a failed removal is reported too. */
  method FailBeforeRename(dir: Directory, ghost d: Image, t: string, ghost bytes: Bytes, step: Step, f: Fate)
    returns (r: WriteResult)
    requires dir.Valid() && Staging(d, dir.Now(), TempName(t))
    requires step in {SetMode, WriteTemp, SyncTemp, RenameTemp}
    modifies dir
    ensures dir.Valid() && Attempted(d, dir.Now(), t, bytes, r) && NothingNew(d, dir.Now(), t)
    ensures f.PowerFails? ==> r == PowerLost
    ensures !f.PowerFails? ==> r == Refused(Io(step, f.Fails?))
  {
    hide Staging, Attempted;
    ghost var before := dir.Now();
    ghost var gone := Unlinked(before, TempName(t));
    StagingUnlinks(d, before, TempName(t));
    var o := dir.Unlink(TempName(t), f);
    if o == PowerCut {
      r := PowerLost;
      ghost var hit := if f.late then gone else before;
      StagingSurvives(d, hit, t, bytes, Pick(hit, f.survivor), f.garbage);
    } else {
      r := Refused(Io(step, o == Failed));
      StagingRefused(d, dir.Now(), t, bytes, step, o == Failed);
    }
  }

  /** `write_with_options`. */
  method WriteWithOptions(dir: Directory, path: Target, bytes: Bytes, mode: Option<nat>, f: Fates)
    returns (r: WriteResult)
    requires dir.Valid()
    modifies dir
    ensures dir.Valid()
    ensures path.Named? ==> Attempted(old(dir.Now()), dir.Now(), path.name, bytes, r)
    ensures !path.Named? ==> r.Refused? && dir.Now() == old(dir.Now())
    ensures !path.Named? && (mode.Some? ==> mode.value <= 0xFFF) ==> r == Refused(if path.NoParent? then UnknownParent else UnknownName)
    ensures path.Named? && (mode.Some? ==> mode.value <= 0xFFF) ==> r == Ending(f, mode.Some?)
    ensures path.Named? && (mode.Some? ==> mode.value <= MAX_MODE) && AllWork(f) ==> r == Replaced
    ensures mode.Some? && mode.value > MAX_MODE ==> r == Refused(InvalidMode)
  {
    if mode.Some? && mode.value > MAX_MODE {
      if path.Named? {
        NotStarted(dir.Now(), path.name, bytes);
      }
      return Refused(InvalidMode);
    }
    if path.NoParent? {
      return Refused(UnknownParent);
    }
    if path.NoFileName? {
      return Refused(UnknownName);
    }
    r := ReplaceNamed(dir, path.name, bytes, mode, f);
  }

  /** The system calls of `write_with_options`, once the path and mode are known good. */
  method ReplaceNamed(dir: Directory, t: string, bytes: Bytes, mode: Option<nat>, f: Fates)
    returns (r: WriteResult)
    requires dir.Valid()
    modifies dir
    ensures dir.Valid() && Attempted(old(dir.Now()), dir.Now(), t, bytes, r)
    ensures r == Ending(f, mode.Some?)
  {
    hide Staging, Attempted;
    var temp := TempName(t);
    ghost var d := dir.Now();
    NotStarted(d, t, bytes);

    var o := dir.Touch(f.open);
    if o != Done {
      if o == PowerCut {
        StagingSurvives(d, d, t, bytes, Pick(d, f.open.survivor), f.open.garbage);
        return PowerLost;
      }
      return Refused(Io(OpenParent, false));
    }

    o := dir.Unlink(temp, f.unlink);
    ghost var cleared := Unlinked(d, temp);
    StagingUnlinks(d, d, temp);
    if o != Done {
      if o == PowerCut {
        ghost var hit := if f.unlink.late then cleared else d;
        StagingSurvives(d, hit, t, bytes, Pick(hit, f.unlink.survivor), f.unlink.garbage);
        return PowerLost;
      }
      StagingRefused(d, dir.Now(), t, bytes, RemoveStale, false);
      return Refused(Io(RemoveStale, false));
    }
    r := FillTemp(dir, d, t, bytes, mode, f);
  }

  /** From the exclusive create to the end. */
  method FillTemp(dir: Directory, ghost d: Image, t: string, bytes: Bytes, mode: Option<nat>, f: Fates)
    returns (r: WriteResult)
    requires dir.Valid() && Staging(d, dir.Now(), TempName(t)) && TempName(t) !in Seen(dir.Now())
    modifies dir
    ensures dir.Valid() && Attempted(d, dir.Now(), t, bytes, r)
    ensures f.open.Works? && f.unlink.Works? ==> r == Ending(f, mode.Some?)
  {
    hide Staging, Attempted;
    var temp := TempName(t);
    ghost var s := dir.Now();
    ghost var created := Created(s, temp);
    StagingCreates(d, s, temp);
    var o, handle := dir.CreateNew(temp, f.create);
    if o != Done {
      if o == PowerCut {
        ghost var hit := if f.create.late then created else s;
        StagingSurvives(d, hit, t, bytes, Pick(hit, f.create.survivor), f.create.garbage);
        return PowerLost;
      }
      StagingRefused(d, dir.Now(), t, bytes, CreateTemp, false);
      return Refused(Io(CreateTemp, false));
    }

    if mode.Some? {
      o := dir.Touch(f.chmod);
      if o != Done {
        if o == PowerCut {
          StagingSurvives(d, created, t, bytes, Pick(created, f.chmod.survivor), f.chmod.garbage);
          return PowerLost;
        }
        r := FailBeforeRename(dir, d, t, bytes, SetMode, f.cleanup);
        return;
      }
    }

    r := WriteStaged(dir, d, t, handle, bytes, f);
  }

  /** The write and the sync of the temporary file, once it exists. */
  method WriteStaged(dir: Directory, ghost d: Image, t: string, handle: Inode, bytes: Bytes, f: Fates)
    returns (r: WriteResult)
    requires dir.Valid() && Staging(d, dir.Now(), TempName(t)) && handle in dir.data && handle !in d.data
    requires TempName(t) in Seen(dir.Now()) && Seen(dir.Now())[TempName(t)] == handle
    modifies dir
    ensures dir.Valid() && Attempted(d, dir.Now(), t, bytes, r)
    ensures f.open.Works? && f.unlink.Works? && f.create.Works? ==> r == Ending(f, false)
  {
    hide Staging, Attempted;
    ghost var created := dir.Now();
    StagingFileSteps(d, created, TempName(t), handle, bytes);
    var o := dir.Write(handle, bytes, f.write);
    ghost var written := Written(created, handle, bytes);
    if o != Done {
      if o == PowerCut {
        ghost var hit := if f.write.late then written else created;
        StagingSurvives(d, hit, t, bytes, Pick(hit, f.write.survivor), f.write.garbage);
        return PowerLost;
      }
      StagingFileSteps(d, created, TempName(t), handle, f.write.torn);
      r := FailBeforeRename(dir, d, t, bytes, WriteTemp, f.cleanup);
      return;
    }

    o := dir.SyncFile(handle, f.sync);
    ghost var durable := FileSynced(written, handle);
    StagingFileSteps(d, written, TempName(t), handle, bytes);
    if o != Done {
      if o == PowerCut {
        ghost var hit := if f.sync.late then durable else written;
        StagingSurvives(d, hit, t, bytes, Pick(hit, f.sync.survivor), f.sync.garbage);
        return PowerLost;
      }
      r := FailBeforeRename(dir, d, t, bytes, SyncTemp, f.cleanup);
      return;
    }
    r := Publish(dir, d, t, bytes, f);
  }

  /** The rename and the sync of the parent directory. */
  method Publish(dir: Directory, ghost d: Image, t: string, ghost bytes: Bytes, f: Fates) returns (r: WriteResult)
    requires dir.Valid() && Staging(d, dir.Now(), TempName(t)) && TempName(t) in Seen(dir.Now())
    requires Seen(dir.Now())[TempName(t)] in dir.synced && dir.data[Seen(dir.Now())[TempName(t)]] == bytes
    modifies dir
    ensures dir.Valid() && Attempted(d, dir.Now(), t, bytes, r)
    ensures r == if !f.rename.Works? then Cut(f.rename, AfterCleanup(RenameTemp, f.cleanup))
                 else if !f.syncParent.Works? then Cut(f.syncParent, Refused(Io(SyncParent, false))) else Replaced
  {
    hide Staging, Attempted;
    ghost var s := dir.Now();
    ghost var renamed := Renamed(s, TempName(t), t);
    RenameStaged(d, s, t, bytes);
    var o := dir.Rename(TempName(t), t, f.rename);
    if o != Done {
      if o == PowerCut {
        if f.rename.late {
          RenamingSurvives(d, renamed, t, bytes, Pick(renamed, f.rename.survivor), f.rename.garbage);
        } else {
          StagingSurvives(d, s, t, bytes, Pick(s, f.rename.survivor), f.rename.garbage);
        }
        return PowerLost;
      }
      r := FailBeforeRename(dir, d, t, bytes, RenameTemp, f.cleanup);
      return;
    }

    o := dir.SyncDirectory(f.syncParent);
    ghost var settled := DirectorySynced(renamed);
    SyncedIsPublished(d, renamed, t, bytes);
    if o == PowerCut {
      if f.syncParent.late {
        SettledSurvives(d, settled, t, bytes, f.syncParent.garbage);
      } else {
        RenamingSurvives(d, renamed, t, bytes, Pick(renamed, f.syncParent.survivor), f.syncParent.garbage);
      }
      return PowerLost;
    }
    r := if o == Done then Replaced else Refused(Io(SyncParent, false));
    RenamedButNotSynced(d, renamed, t, bytes);
  }

  lemma RenamedButNotSynced(d: Image, d': Image, t: string, bytes: Bytes)
    requires Renaming(d, d', t, bytes)
    ensures Attempted(d, d', t, bytes, Refused(Io(SyncParent, false)))
  {
    RenamingOldOrNew(d, d', t, bytes);
  }

  lemma SyncedIsPublished(d: Image, d': Image, t: string, bytes: Bytes)
    requires Renaming(d, d', t, bytes)
    ensures Attempted(d, DirectorySynced(d'), t, bytes, Replaced)
  {
    var settled := DirectorySynced(d');
    var last := Newest(d');
    forall n | n != t && n != TempName(t)
      ensures SameView(d, Newest(d), settled, 0, n)
    {
      assert SameView(d, Newest(d), d', last, n);
    }
    assert Published(d, settled, 0, t, bytes);
  }

  lemma SettledSurvives(d: Image, d': Image, t: string, bytes: Bytes, g: Inode -> Bytes)
    requires WellFormed(d) && Attempted(d, d', t, bytes, Replaced)
    ensures Attempted(d, Survived(d', 0, g), t, bytes, PowerLost)
  {
    var after := Survived(d', 0, g);
    SurvivalKeeps(d', 0, g, t);
    forall n | n != t && n != TempName(t)
      ensures SameView(d, Newest(d), after, 0, n)
    {
      assert SameView(d, Newest(d), d', 0, n);
      SurvivalKeeps(d', 0, g, n);
    }
    assert Published(d, after, 0, t, bytes);
  }

  /** `write_json`: serialization comes first, so its failure touches nothing. */
  method WriteJson(dir: Directory, path: Target, serialized: Option<Bytes>, f: Fates) returns (r: WriteResult)
    requires dir.Valid()
    modifies dir
    ensures dir.Valid()
    ensures serialized.None? ==> r == Refused(Unserializable) && dir.Now() == old(dir.Now())
    ensures serialized.Some? && path.Named? ==>
              Attempted(old(dir.Now()), dir.Now(), path.name, serialized.value + [LF], r) && r == Ending(f, false)
  {
    if serialized.None? {
      return Refused(Unserializable);
    }
    r := WriteWithOptions(dir, path, serialized.value + [LF], None, f);
  }

  // ----- whole histories

  /** One event in the life of the destination: a write, or a power cut between writes. */
  datatype Event = Wrote(bytes: Bytes, result: WriteResult) | Rebooted

  ghost predicate Follows(d: Image, e: Event, d': Image, t: string)
    requires WellFormed(d)
  {
    match e
    case Wrote(bytes, result) => Attempted(d, d', t, bytes, result)
    case Rebooted => exists k: nat, g :: k < |d.listings| && d' == Survived(d, k, g)
  }

  ghost predicate IsRun(images: seq<Image>, events: seq<Event>, t: string) {
    && |images| == |events| + 1
    && (forall i :: 0 <= i < |images| ==> WellFormed(images[i]))
    && (forall i :: 0 <= i < |events| ==> Follows(images[i], events[i], images[i + 1], t))
  }

  /** Whether the write may have got past its rename. */
  predicate MayHaveReplaced(r: WriteResult) {
    match r
    case Replaced => true
    case Refused(Io(SyncParent, _)) => true
    case Refused(_) => false
    case PowerLost => true
  }

  /** What the destination may hold: the last write that returned Ok fixes it, and a later
      write that failed at its parent sync or lost power may or may not have replaced it. Any
      other refusal leaves no trace. */
  ghost function Candidates(initial: View, events: seq<Event>): set<View> {
    if events == [] then {initial}
    else
      var before := Candidates(initial, events[..|events| - 1]);
      match events[|events| - 1]
      case Wrote(bytes, Replaced) => {Holds(bytes)}
      case Wrote(bytes, result) => if MayHaveReplaced(result) then before + {Holds(bytes)} else before
      case Rebooted => before
  }

  ghost predicate AllWithin(d: Image, n: string, views: set<View>)
    requires WellFormed(d)
  {
    forall k :: 0 <= k < |d.listings| ==> ViewAt(d, k, n) in views
  }

  /** A write refused before its rename adds nothing that a power cut could leave behind. */
  lemma NoTrace(d: Image, d': Image, t: string, bytes: Bytes, r: WriteResult, views: set<View>)
    requires WellFormed(d) && Attempted(d, d', t, bytes, r) && !MayHaveReplaced(r)
    requires AllWithin(d, t, views) && Torn !in views
    ensures AllWithin(d', t, views)
  {
    if d' != d {
      forall k' | 0 <= k' < |d'.listings|
        ensures ViewAt(d', k', t) in views
      {
        assert Kept(d, d', k', TempName(t));
        var k :| 0 <= k < |d.listings| && SameBut(d, k, d', k', TempName(t));
        assert SameView(d, k, d', k', t);
      }
    }
  }

  lemma EventStaysWithin(d: Image, e: Event, d': Image, t: string, views: set<View>)
    requires WellFormed(d) && WellFormed(d') && Follows(d, e, d', t)
    requires AllWithin(d, t, views) && Torn !in views
    ensures e.Rebooted? ==> AllWithin(d', t, views)
    ensures e.Wrote? ==> AllWithin(d', t, views + {Holds(e.bytes)})
    ensures e.Wrote? && !MayHaveReplaced(e.result) ==> AllWithin(d', t, views)
    ensures e.Wrote? && e.result.Replaced? ==> AllWithin(d', t, {Holds(e.bytes)})
  {
    if e.Rebooted? {
      var k: nat, g :| k < |d.listings| && d' == Survived(d, k, g);
      SurvivalKeeps(d, k, g, t);
    } else {
      forall k' | 0 <= k' < |d'.listings|
        ensures ViewAt(d', k', t) in views + {Holds(e.bytes)}
      {
        if Kept(d, d', k', TempName(t)) {
          var k :| 0 <= k < |d.listings| && SameBut(d, k, d', k', TempName(t));
          assert SameView(d, k, d', k', t);
        }
      }
      if !MayHaveReplaced(e.result) {
        NoTrace(d, d', t, e.bytes, e.result, views);
      }
    }
  }

  /** Over every history, whatever a power cut leaves under the destination's name is the
      initial contents or the complete bytes of a write, never torn and never older than
      the last write that returned Ok. */
  lemma {:induction false} DestinationIsNeverTornOrStale(images: seq<Image>, events: seq<Event>, t: string, initial: View)
    requires IsRun(images, events, t)
    requires initial != Torn && AllWithin(images[0], t, {initial})
    ensures Torn !in Candidates(initial, events)
    ensures AllWithin(images[|events|], t, Candidates(initial, events))
  {
    if events != [] {
      var last := |events| - 1;
      var past := events[..last];
      forall i | 0 <= i < |past|
        ensures Follows(images[..|events|][i], past[i], images[..|events|][i + 1], t)
      {
        assert Follows(images[i], events[i], images[i + 1], t);
      }
      DestinationIsNeverTornOrStale(images[..|events|], past, t, initial);
      EventStaysWithin(images[last], events[last], images[|events|], t, Candidates(initial, past));
    }
  }

  ghost predicate NoOkAfter(events: seq<Event>, j: int)
    requires -1 <= j
  {
    forall i :: j < i < |events| ==> !(events[i].Wrote? && events[i].result.Replaced?)
  }

  ghost predicate WrittenLast(v: View, events: seq<Event>, j: nat)
    requires j < |events|
  {
    events[j].Wrote? && MayHaveReplaced(events[j].result) && v == Holds(events[j].bytes) && NoOkAfter(events, j)
  }

  /** The candidates, spelled out: the contents of a write that may have got past its rename
      with no Ok write after it, or the initial contents while no write has returned Ok. */
  lemma {:induction false} CandidatesExactly(initial: View, events: seq<Event>, v: View)
    ensures v in Candidates(initial, events) <==>
            || (v == initial && NoOkAfter(events, -1))
            || exists j :: 0 <= j < |events| && WrittenLast(v, events, j)
  {
    if events != [] {
      var last := |events| - 1;
      var past := events[..last];
      var e := events[last];
      CandidatesExactly(initial, past, v);
      if e.Wrote? && MayHaveReplaced(e.result) && v == Holds(e.bytes) {
        assert WrittenLast(v, events, last);
      }
      if e.Rebooted? || !e.result.Replaced? {
        assert NoOkAfter(past, -1) <==> NoOkAfter(events, -1);
        forall j | 0 <= j < last
          ensures WrittenLast(v, past, j) <==> WrittenLast(v, events, j)
        {
          assert forall i :: 0 <= i < last ==> past[i] == events[i];
        }
      }
    }
  }

  /** A file that is neither the destination nor its temporary sibling keeps its contents
      through every history. */
  lemma {:induction false} OtherFilesAreKept(images: seq<Image>, events: seq<Event>, t: string, n: string, v: View)
    requires IsRun(images, events, t)
    requires n != t && n != t + ".tmp"
    requires v != Torn && AllWithin(images[0], n, {v})
    ensures AllWithin(images[|events|], n, {v})
  {
    if events != [] {
      var last := |events| - 1;
      var past := events[..last];
      forall i | 0 <= i < |past|
        ensures Follows(images[..|events|][i], past[i], images[..|events|][i + 1], t)
      {
        assert Follows(images[i], events[i], images[i + 1], t);
      }
      OtherFilesAreKept(images[..|events|], past, t, n, v);
      OneEventKeepsOthers(images[last], events[last], images[|events|], t, n, {v});
    }
  }

  lemma OneEventKeepsOthers(d: Image, e: Event, d': Image, t: string, n: string, views: set<View>)
    requires WellFormed(d) && WellFormed(d') && Follows(d, e, d', t)
    requires n != t && n != TempName(t)
    requires Torn !in views && AllWithin(d, n, views)
    ensures AllWithin(d', n, views)
  {
    if e.Rebooted? {
      var k: nat, g :| k < |d.listings| && d' == Survived(d, k, g);
      SurvivalKeeps(d, k, g, n);
    } else {
      forall k' | 0 <= k' < |d'.listings|
        ensures ViewAt(d', k', n) in views
      {
        if Kept(d, d', k', TempName(t)) {
          var k :| 0 <= k < |d.listings| && SameBut(d, k, d', k', TempName(t));
          assert SameView(d, k, d', k', n);
        } else {
          assert SameView(d, Newest(d), d', k', n);
        }
      }
    }
  }
}
