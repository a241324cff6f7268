/** Publication of a cloud-init seed: three inspection files in the machine's `seed`
    subdirectory, then the disk image in the machine directory itself. */
module SeedPublication {
  import opened Options
  import opened Bytes
  import opened CrashDisk
  import opened AtomicFile

  const META := "meta-data"
  const USER := "user-data"
  const NETWORK := "network-config"
  const SEED_IMAGE := "seed.img"
  const SEED_DIRECTORY := "seed"
  const SEED_FILE_MODE: nat := 0x180

  datatype Rendered = Rendered(meta: Bytes, user: Bytes, network: Option<Bytes>, image: Bytes)

  datatype PublishResult = SeedPublished | SeedRefused | SeedInterrupted

  /** The fates of the publication's steps. `valid` and `stillValid` are the verdicts of
      the path check before and after the seed directory is made, `trusted` that of the check
      on an existing seed directory; `elsewhere` says what the directory that is not
      being written loses at a power cut. */
  datatype Plan = Plan(valid: bool, stillValid: bool, trusted: bool, mkdir: Fate, meta: Fates, user: Fates,
                       network: Fates, remove: Fate, image: Fates, elsewhere: Fate)

  ghost predicate NothingFails(p: Plan) {
    && p.valid && p.stillValid && p.trusted && p.mkdir.Works? && p.remove.Works?
    && AllWork(p.meta) && AllWork(p.user) && AllWork(p.network) && AllWork(p.image)
  }

  /** What a successful publication leaves under `network-config`. */
  function NetworkView(r: Rendered): View {
    match r.network
    case Some(bytes) => Holds(bytes)
    case None => Absent
  }

  /** Every listing of the seed directory that may survive is within these views. */
  ghost predicate Artifacts(d: Image, meta: set<View>, user: set<View>, network: set<View>)
    requires WellFormed(d)
  {
    AllWithin(d, META, meta) && AllWithin(d, USER, user) && AllWithin(d, NETWORK, network)
  }

  /** The views each artifact may have before a publication; none of them is torn. */
  datatype Before = Before(meta: set<View>, user: set<View>, network: set<View>, image: set<View>)

  ghost predicate Settled(b: Before) {
    Torn !in b.meta && Torn !in b.user && Torn !in b.network && Torn !in b.image
  }

  predicate IsArtifact(n: string) {
    n == META || n == USER || n == NETWORK
  }

  lemma NamesAreApart()
    ensures META != USER && META != NETWORK && USER != NETWORK
    ensures forall a, b :: IsArtifact(a) && IsArtifact(b) ==> a != TempName(b)
    ensures SEED_DIRECTORY != SEED_IMAGE && SEED_DIRECTORY != TempName(SEED_IMAGE)
  {
    assert |META| == 9 && |USER| == 9 && |NETWORK| == 14;
    assert META[0] == 'm' && USER[0] == 'u';
    assert |TempName(META)| == 13 && |TempName(USER)| == 13 && |TempName(NETWORK)| == 18;
    assert |SEED_DIRECTORY| == 4 && |SEED_IMAGE| == 8;
  }

  lemma WriteKeepsWithin(d: Image, d': Image, t: string, bytes: Bytes, r: WriteResult, n: string, views: set<View>)
    requires WellFormed(d) && Attempted(d, d', t, bytes, r)
    requires AllWithin(d, n, views) && Torn !in views && n != TempName(t)
    ensures AllWithin(d', n, if n != t then views else if r.Replaced? then {Holds(bytes)} else views + {Holds(bytes)})
  {
    assert Follows(d, Wrote(bytes, r), d', t);
    if n == t {
      EventStaysWithin(d, Wrote(bytes, r), d', t, views);
    } else {
      OneEventKeepsOthers(d, Wrote(bytes, r), d', t, n, views);
    }
  }

  lemma SurvivalStaysWithin(d: Image, k: nat, g: Inode -> Bytes, n: string, views: set<View>)
    requires WellFormed(d) && k < |d.listings|
    requires AllWithin(d, n, views) && Torn !in views
    ensures WellFormed(Survived(d, k, g)) && AllWithin(Survived(d, k, g), n, views)
  {
    SurvivalKeeps(d, k, g, n);
  }

  /** A write to one directory; a power cut during it hits the other directory as well. */
  method WriteOne(dir: Directory, other: Directory, name: string, bytes: Bytes, f: Fates, elsewhere: Fate)
    returns (r: WriteResult)
    requires dir != other && dir.Valid() && other.Valid() && elsewhere.PowerFails?
    modifies dir, other
    ensures dir.Valid() && other.Valid()
    ensures Attempted(old(dir.Now()), dir.Now(), name, bytes, r)
    ensures other.Now() == if r.PowerLost? then Stepped(old(other.Now()), old(other.Now()), elsewhere) else old(other.Now())
    ensures AllWork(f) <==> r == Replaced
  {
    r := WriteWithOptions(dir, Named(name), bytes, Some(SEED_FILE_MODE), f);
    if r.PowerLost? {
      var _ := other.Touch(elsewhere);
    }
  }

  /** A directory has no contents of its own to lose: its entry is there or not. */
  function EntryViews(): set<View> {
    {Absent, Holds([])}
  }

  /** The state between two steps: which artifacts are already durable. */
  ghost predicate Between(m: Image, s: Image, b: Before)
  {
    && WellFormed(m) && WellFormed(s)
    && Artifacts(s, b.meta, b.user, b.network)
    && AllWithin(m, SEED_IMAGE, b.image)
    && AllWithin(m, SEED_DIRECTORY, EntryViews())
  }

  /** A listing of the machine directory whose image is not an old one has the directory with
      the inspection files in it. */
  ghost predicate ImageHasFiles(m: Image, before: set<View>)
    requires WellFormed(m)
  {
    forall k :: 0 <= k < |m.listings| && ViewAt(m, k, SEED_IMAGE) !in before ==> ViewAt(m, k, SEED_DIRECTORY) == Holds([])
  }

  /** The image write publishes the image beside the directory entry it found. */
  lemma ImageWritten(m: Image, m': Image, bytes: Bytes, w: WriteResult, views: set<View>)
    requires WellFormed(m) && Attempted(m, m', SEED_IMAGE, bytes, w)
    requires Torn !in views && AllWithin(m, SEED_IMAGE, views)
    requires AllWithin(m, SEED_DIRECTORY, EntryViews()) && SEED_DIRECTORY in Seen(m)
    ensures ImageHasFiles(m', views)
    ensures w.Replaced? ==> AllWithin(m', SEED_DIRECTORY, {Holds([])})
  {
    NamesAreApart();
    assert SeenView(m, SEED_DIRECTORY) == Holds([]);
    forall k' | 0 <= k' < |m'.listings|
      ensures ViewAt(m', k', SEED_IMAGE) in views || ViewAt(m', k', SEED_DIRECTORY) == Holds([])
      ensures w.Replaced? ==> ViewAt(m', k', SEED_DIRECTORY) == Holds([])
    {
      if Published(m, m', k', SEED_IMAGE, bytes) {
        assert SameView(m, Newest(m), m', k', SEED_DIRECTORY);
      } else {
        var k :| 0 <= k < |m.listings| && SameBut(m, k, m', k', TempName(SEED_IMAGE));
        assert SameView(m, k, m', k', SEED_IMAGE);
      }
    }
  }

  /** One artifact of the seed directory written, whatever the outcome. */
  lemma ArtifactWritten(s: Image, s': Image, name: string, bytes: Bytes, r: WriteResult, b: Before)
    requires WellFormed(s) && Attempted(s, s', name, bytes, r)
    requires IsArtifact(name)
    requires Settled(b) && Artifacts(s, b.meta, b.user, b.network)
    ensures Artifacts(s', if name == META then b.meta + {Holds(bytes)} else b.meta,
                      if name == USER then b.user + {Holds(bytes)} else b.user,
                      if name == NETWORK then b.network + {Holds(bytes)} else b.network)
    ensures r.Replaced? ==> Artifacts(s', if name == META then {Holds(bytes)} else b.meta,
                                      if name == USER then {Holds(bytes)} else b.user,
                                      if name == NETWORK then {Holds(bytes)} else b.network)
  {
    NamesAreApart();
    WriteKeepsWithin(s, s', name, bytes, r, META, b.meta);
    WriteKeepsWithin(s, s', name, bytes, r, USER, b.user);
    WriteKeepsWithin(s, s', name, bytes, r, NETWORK, b.network);
  }

  lemma ImageSurvives(m: Image, elsewhere: Fate, views: set<View>)
    requires WellFormed(m) && elsewhere.PowerFails? && Torn !in views && AllWithin(m, SEED_IMAGE, views)
    requires AllWithin(m, SEED_DIRECTORY, EntryViews())
    ensures WellFormed(Stepped(m, m, elsewhere)) && AllWithin(Stepped(m, m, elsewhere), SEED_IMAGE, views)
    ensures AllWithin(Stepped(m, m, elsewhere), SEED_DIRECTORY, EntryViews())
  {
    SurvivalStaysWithin(m, Pick(m, elsewhere.survivor), elsewhere.garbage, SEED_IMAGE, views);
    SurvivalStaysWithin(m, Pick(m, elsewhere.survivor), elsewhere.garbage, SEED_DIRECTORY, EntryViews());
  }

  /** Writes one artifact into the seed directory while the image stays as it was. */
  method WriteArtifact(machine: Directory, seed: Directory, name: string, bytes: Bytes, f: Fates, elsewhere: Fate, ghost b: Before)
    returns (r: WriteResult)
    requires machine != seed && Between(machine.Now(), seed.Now(), b) && Settled(b)
    requires elsewhere.PowerFails? && IsArtifact(name)
    modifies machine, seed
    ensures Attempted(old(seed.Now()), seed.Now(), name, bytes, r)
    ensures Between(machine.Now(), seed.Now(),
                    Before(if name == META then b.meta + {Holds(bytes)} else b.meta,
                           if name == USER then b.user + {Holds(bytes)} else b.user,
                           if name == NETWORK then b.network + {Holds(bytes)} else b.network,
                           b.image))
    ensures r.Replaced? ==> machine.Now() == old(machine.Now())
    ensures r.Replaced? ==> Artifacts(seed.Now(), if name == META then {Holds(bytes)} else b.meta,
                                      if name == USER then {Holds(bytes)} else b.user,
                                      if name == NETWORK then {Holds(bytes)} else b.network)
    ensures AllWork(f) <==> r == Replaced
  {
    ghost var s, m := seed.Now(), machine.Now();
    r := WriteOne(seed, machine, name, bytes, f, elsewhere);
    ArtifactWritten(s, seed.Now(), name, bytes, r, b);
    if r.PowerLost? {
      ImageSurvives(m, elsewhere, b.image);
    }
  }

  /** Removing an entry keeps the listing before it as a possible survivor. */
  lemma UnlinkedWithin(s: Image, n: string, m: string, views: set<View>)
    requires WellFormed(s) && AllWithin(s, m, views)
    ensures WellFormed(Unlinked(s, n)) && SeenView(Unlinked(s, n), n) == Absent
    ensures AllWithin(Unlinked(s, n), m, if m == n then views + {Absent} else views)
    ensures |s.listings| == 1 ==> (AllWithin(Unlinked(s, n), n, {Absent}) <==> n !in Seen(s))
  {
    var u := Unlinked(s, n);
    forall k | 0 <= k < |u.listings|
      ensures ViewAt(u, k, m) in if m == n then views + {Absent} else views
    {
      var k0 := if k < |s.listings| then k else Newest(s);
      assert ViewAt(s, k0, m) in views;
    }
    assert ViewAt(u, 0, n) == ViewAt(s, 0, n);
  }

  /** `remove_optional_file` on network-config: no directory sync follows it. */
  method RemoveNetwork(machine: Directory, seed: Directory, f: Fate, elsewhere: Fate, ghost b: Before)
    returns (o: Outcome)
    requires machine != seed && Between(machine.Now(), seed.Now(), b) && Settled(b) && elsewhere.PowerFails?
    modifies machine, seed
    ensures o == OutcomeOf(f)
    ensures Between(machine.Now(), seed.Now(), b.(network := b.network + {Absent}))
    ensures o == Done ==> machine.Now() == old(machine.Now()) && seed.Now() == Unlinked(old(seed.Now()), NETWORK)
  {
    NamesAreApart();
    ghost var s, m := seed.Now(), machine.Now();
    UnlinkedWithin(s, NETWORK, META, b.meta);
    UnlinkedWithin(s, NETWORK, USER, b.user);
    UnlinkedWithin(s, NETWORK, NETWORK, b.network);
    o := seed.Unlink(NETWORK, f);
    if o == PowerCut {
      ghost var hit := if f.late then Unlinked(s, NETWORK) else s;
      SurvivalStaysWithin(hit, Pick(hit, f.survivor), f.garbage, META, b.meta);
      SurvivalStaysWithin(hit, Pick(hit, f.survivor), f.garbage, USER, b.user);
      SurvivalStaysWithin(hit, Pick(hit, f.survivor), f.garbage, NETWORK, b.network + {Absent});
      var _ := machine.Touch(elsewhere);
      ImageSurvives(m, elsewhere, b.image);
    }
  }

  lemma SeenNetworkKept(s: Image, s': Image, name: string, bytes: Bytes)
    requires WellFormed(s) && Attempted(s, s', name, bytes, Replaced)
    requires name == META || name == USER
    requires SeenView(s, NETWORK) != Torn
    ensures SeenView(s', NETWORK) == SeenView(s, NETWORK) && |s'.listings| == 1
  {
    NamesAreApart();
    assert SameView(s, Newest(s), s', 0, NETWORK);
  }

  /** The network-config step: write the new one or remove the old one. */
  method PublishNetwork(machine: Directory, seed: Directory, r: Rendered, p: Plan, ghost b: Before)
    returns (result: PublishResult)
    requires machine != seed && Between(machine.Now(), seed.Now(), b) && Settled(b) && p.elsewhere.PowerFails?
    modifies machine, seed
    ensures Between(machine.Now(), seed.Now(), b.(network := b.network + {NetworkView(r)}))
    ensures result.SeedPublished? ==> machine.Now() == old(machine.Now())
    ensures result.SeedPublished? && r.network.Some? ==> AllWithin(seed.Now(), NETWORK, {NetworkView(r)})
    ensures result.SeedPublished? ==> SeenView(seed.Now(), NETWORK) == NetworkView(r)
    ensures result.SeedPublished? && r.network.None? && |old(seed.Now()).listings| == 1 ==>
              (AllWithin(seed.Now(), NETWORK, {Absent}) <==> NETWORK !in Seen(old(seed.Now())))
    ensures result.SeedPublished? <==> if r.network.Some? then AllWork(p.network) else p.remove.Works?
  {
    hide Attempted, AllWork;
    match r.network {
      case Some(bytes) =>
        var w := WriteArtifact(machine, seed, NETWORK, bytes, p.network, p.elsewhere, b);
        result := if w.Replaced? then SeedPublished else if w.PowerLost? then SeedInterrupted else SeedRefused;
      case None =>
        UnlinkedWithin(seed.Now(), NETWORK, NETWORK, b.network);
        var o := RemoveNetwork(machine, seed, p.remove, p.elsewhere, b);
        result := if o == Done then SeedPublished else if o == PowerCut then SeedInterrupted else SeedRefused;
    }
  }

  /** The three inspection files, in order. */
  method PublishFiles(machine: Directory, seed: Directory, r: Rendered, p: Plan, ghost b: Before)
    returns (result: PublishResult)
    requires machine != seed && Between(machine.Now(), seed.Now(), b) && Settled(b) && p.elsewhere.PowerFails?
    modifies machine, seed
    ensures Between(machine.Now(), seed.Now(),
                    Before(b.meta + {Holds(r.meta)}, b.user + {Holds(r.user)}, b.network + {NetworkView(r)}, b.image))
    ensures result.SeedPublished? ==> machine.Now() == old(machine.Now())
    ensures result.SeedPublished? ==> Artifacts(seed.Now(), {Holds(r.meta)}, {Holds(r.user)},
                                                if r.network.Some? then {NetworkView(r)} else b.network + {Absent})
    ensures result.SeedPublished? ==> SeenView(seed.Now(), NETWORK) == NetworkView(r)
    ensures result.SeedPublished? && r.network.None? ==>
              (AllWithin(seed.Now(), NETWORK, {Absent}) <==> NETWORK !in Seen(old(seed.Now())))
    ensures result.SeedPublished? <==> AllWork(p.meta) && AllWork(p.user) && (if r.network.Some? then AllWork(p.network) else p.remove.Works?)
  {
    hide Attempted, AllWork;
    var w := WriteArtifact(machine, seed, META, r.meta, p.meta, p.elsewhere, b);
    if !w.Replaced? {
      return if w.PowerLost? then SeedInterrupted else SeedRefused;
    }
    ghost var s0 := old(seed.Now());
    assert ViewAt(s0, Newest(s0), NETWORK) in b.network;
    SeenNetworkKept(s0, seed.Now(), META, r.meta);
    ghost var b1 := b.(meta := {Holds(r.meta)});
    ghost var s1 := seed.Now();

    w := WriteArtifact(machine, seed, USER, r.user, p.user, p.elsewhere, b1);
    if !w.Replaced? {
      return if w.PowerLost? then SeedInterrupted else SeedRefused;
    }
    SeenNetworkKept(s1, seed.Now(), USER, r.user);
    ghost var b2 := b1.(user := {Holds(r.user)});
    result := PublishNetwork(machine, seed, r, p, b2);
  }

  /** `ensure_seed_directory`. */
  method EnsureSeedDirectory(machine: Directory, seed: Directory, p: Plan, ghost b: Before) returns (o: Outcome)
    requires machine != seed && Between(machine.Now(), seed.Now(), b) && Settled(b) && p.elsewhere.PowerFails?
    modifies machine, seed
    ensures Between(machine.Now(), seed.Now(), b)
    ensures o == if p.mkdir.Works? && !p.trusted && SEED_DIRECTORY in Seen(old(machine.Now())) then Failed else OutcomeOf(p.mkdir)
    ensures o != PowerCut ==> seed.Now() == old(seed.Now())
    ensures o == Done ==> SEED_DIRECTORY in Seen(machine.Now())
  {
    ghost var m := machine.Now();
    ghost var made := if SEED_DIRECTORY in Seen(m) then m else DirectoryMade(m, SEED_DIRECTORY);
    MadeKeepsImage(m, b.image);
    var existed := SEED_DIRECTORY in machine.Current();
    o := machine.MakeDirectory(SEED_DIRECTORY, p.mkdir);
    if o == PowerCut {
      ghost var s := seed.Now();
      var _ := seed.Touch(p.elsewhere);
      ghost var hit := if p.mkdir.late then made else m;
      SurvivalStaysWithin(hit, Pick(hit, p.mkdir.survivor), p.mkdir.garbage, SEED_IMAGE, b.image);
      SurvivalStaysWithin(hit, Pick(hit, p.mkdir.survivor), p.mkdir.garbage, SEED_DIRECTORY, EntryViews());
      ArtifactsSurvive(s, p.elsewhere, b.meta, b.user, b.network);
    } else if existed && !p.trusted {
      o := Failed;
    }
  }

  /** `publish_rendered_seed`. */
  method PublishRenderedSeed(machine: Directory, seed: Directory, r: Rendered, p: Plan, ghost b: Before)
    returns (result: PublishResult)
    requires machine != seed && Between(machine.Now(), seed.Now(), b) && Settled(b) && p.elsewhere.PowerFails?
    modifies machine, seed
    ensures machine.Valid() && seed.Valid()
    // every artifact is wholly old or wholly new, however the publication ends
    ensures Between(machine.Now(), seed.Now(),
                    Before(b.meta + {Holds(r.meta)}, b.user + {Holds(r.user)}, b.network + {NetworkView(r)},
                           b.image + {Holds(r.image)}))
    // the new image can only survive beside the new inspection files
    ensures || AllWithin(machine.Now(), SEED_IMAGE, b.image)
            || Artifacts(seed.Now(), {Holds(r.meta)}, {Holds(r.user)},
                         if r.network.Some? then {NetworkView(r)} else b.network + {Absent})
    // ... in a machine directory that still has them
    ensures ImageHasFiles(machine.Now(), b.image)
    ensures result.SeedPublished? ==>
              && AllWithin(machine.Now(), SEED_IMAGE, {Holds(r.image)})
              && AllWithin(machine.Now(), SEED_DIRECTORY, {Holds([])})
              && AllWithin(seed.Now(), META, {Holds(r.meta)})
              && AllWithin(seed.Now(), USER, {Holds(r.user)})
              && SeenView(seed.Now(), NETWORK) == NetworkView(r)
              && (r.network.Some? ==> AllWithin(seed.Now(), NETWORK, {NetworkView(r)}))
    ensures result.SeedPublished? ==> VisibleFiles(machine.Now(), seed.Now(), r)
    // a removed network-config stays removed exactly when there was none to remove
    ensures result.SeedPublished? && r.network.None? ==>
              (AllWithin(seed.Now(), NETWORK, {Absent}) <==> NETWORK !in Seen(old(seed.Now())))
    ensures NothingFails(p) ==> result.SeedPublished?
    // and nothing less will do
    ensures result.SeedPublished? <==>
            && p.valid && p.mkdir.Works? && (SEED_DIRECTORY in Seen(old(machine.Now())) ==> p.trusted) && p.stillValid
            && AllWork(p.meta) && AllWork(p.user) && AllWork(p.image)
            && (if r.network.Some? then AllWork(p.network) else p.remove.Works?)
  {
    hide Attempted, AllWork, VisibleFiles;
    if !p.valid {
      return SeedRefused;
    }
    var o := EnsureSeedDirectory(machine, seed, p, b);
    if o != Done {
      return if o == PowerCut then SeedInterrupted else SeedRefused;
    }
    if !p.stillValid {
      return SeedRefused;
    }
    result := PublishFiles(machine, seed, r, p, b);
    if result != SeedPublished {
      return;
    }
    ghost var m1, s1 := machine.Now(), seed.Now();
    var w := WriteOne(machine, seed, SEED_IMAGE, r.image, p.image, p.elsewhere);
    NamesAreApart();
    WriteKeepsWithin(m1, machine.Now(), SEED_IMAGE, r.image, w, SEED_IMAGE, b.image);
    WriteKeepsWithin(m1, machine.Now(), SEED_IMAGE, r.image, w, SEED_DIRECTORY, EntryViews());
    ImageWritten(m1, machine.Now(), r.image, w, b.image);
    if w.PowerLost? {
      ArtifactsSurvive(s1, p.elsewhere, {Holds(r.meta)}, {Holds(r.user)},
                       if r.network.Some? then {NetworkView(r)} else b.network + {Absent});
      return SeedInterrupted;
    }
    result := if w.Replaced? then SeedPublished else SeedRefused;
    if w.Replaced? {
      AllVisible(machine.Now(), seed.Now(), r);
    }
  }

  /** The files by their names. */
  ghost predicate VisibleFiles(m: Image, s: Image, r: Rendered)
    requires WellFormed(m) && WellFormed(s)
  {
    && SeenView(m, "seed.img") == Holds(r.image)
    && SeenView(s, "meta-data") == Holds(r.meta) && SeenView(s, "user-data") == Holds(r.user)
    && SeenView(s, "network-config") == if r.network.Some? then Holds(r.network.value) else Absent
  }

  lemma AllVisible(m: Image, s: Image, r: Rendered)
    requires WellFormed(m) && WellFormed(s) && AllWithin(m, SEED_IMAGE, {Holds(r.image)})
    requires AllWithin(s, META, {Holds(r.meta)}) && AllWithin(s, USER, {Holds(r.user)}) && SeenView(s, NETWORK) == NetworkView(r)
    ensures VisibleFiles(m, s, r)
  {
    assert ViewAt(m, Newest(m), SEED_IMAGE) == Holds(r.image);
    assert ViewAt(s, Newest(s), META) == Holds(r.meta) && ViewAt(s, Newest(s), USER) == Holds(r.user);
  }

  lemma MadeKeepsImage(m: Image, views: set<View>)
    requires WellFormed(m) && AllWithin(m, SEED_IMAGE, views) && AllWithin(m, SEED_DIRECTORY, EntryViews())
    ensures WellFormed(DirectoryMade(m, SEED_DIRECTORY))
    ensures AllWithin(DirectoryMade(m, SEED_DIRECTORY), SEED_IMAGE, views)
    ensures AllWithin(DirectoryMade(m, SEED_DIRECTORY), SEED_DIRECTORY, EntryViews())
  {
    NamesAreApart();
    var d := DirectoryMade(m, SEED_DIRECTORY);
    forall k | 0 <= k < |d.listings|
      ensures ViewAt(d, k, SEED_IMAGE) in views && ViewAt(d, k, SEED_DIRECTORY) in EntryViews()
    {
      var k0 := if k < |m.listings| then k else Newest(m);
      assert ViewAt(d, k, SEED_IMAGE) == ViewAt(m, k0, SEED_IMAGE);
      if k < |m.listings| {
        assert ViewAt(d, k, SEED_DIRECTORY) == ViewAt(m, k, SEED_DIRECTORY);
      }
    }
  }

  lemma ArtifactsSurvive(s: Image, f: Fate, meta: set<View>, user: set<View>, network: set<View>)
    requires WellFormed(s) && f.PowerFails? && Artifacts(s, meta, user, network)
    requires Torn !in meta && Torn !in user && Torn !in network
    ensures WellFormed(Stepped(s, s, f)) && Artifacts(Stepped(s, s, f), meta, user, network)
  {
    SurvivalStaysWithin(s, Pick(s, f.survivor), f.garbage, META, meta);
    SurvivalStaysWithin(s, Pick(s, f.survivor), f.garbage, USER, user);
    SurvivalStaysWithin(s, Pick(s, f.survivor), f.garbage, NETWORK, network);
  }

  const ALL_WORK := Fates(Works, Works, Works, Works, Works, Works, Works, Works, Works)

  /** A removed network-config comes back: both publications succeed, the second removes the
      file, and a power cut afterwards brings it back. */
  method RemovedNetworkReturns(r: Rendered, network: Bytes)
    returns (seed: Directory, first: PublishResult, second: PublishResult, ghost removed: Image)
    ensures first == SeedPublished && second == SeedPublished
    ensures WellFormed(removed) && SeenView(removed, NETWORK) == Absent
    ensures seed.Valid() && SeenView(seed.Now(), NETWORK) == Holds(network)
  {
    hide AllWithin;
    seed, first, second := PublishAndRemove(r, network);
    removed := seed.Now();
    var k := FirstListingWith(seed, NETWORK);
    ListedIsHeld(removed, k, network);
    SurvivalKeeps(removed, k, _ => [], NETWORK);
    var _ := seed.Touch(PowerFails(false, k, _ => []));
  }

  /** A publication with a network-config, then one without, on a new disk where all works. */
  method PublishAndRemove(r: Rendered, network: Bytes) returns (seed: Directory, first: PublishResult, second: PublishResult)
    ensures first == SeedPublished && second == SeedPublished
    ensures fresh(seed) && seed.Valid() && SeenView(seed.Now(), NETWORK) == Absent
    ensures AllWithin(seed.Now(), NETWORK, {Holds(network)} + {Absent}) && !AllWithin(seed.Now(), NETWORK, {Absent})
  {
    hide Attempted;
    var machine := new Directory();
    seed := new Directory();
    var cut := PowerFails(false, 0, _ => []);
    var plan := Plan(true, true, true, Works, ALL_WORK, ALL_WORK, ALL_WORK, Works, ALL_WORK, cut);
    ghost var nothing := Before({Absent}, {Absent}, {Absent}, {Absent});
    first := PublishRenderedSeed(machine, seed, r.(network := Some(network)), plan, nothing);
    ghost var published := Before({Holds(r.meta)}, {Holds(r.user)}, {Holds(network)}, {Holds(r.image)});
    ghost var s := seed.Now();
    assert SeenView(s, NETWORK) == Holds(network);
    second := PublishRenderedSeed(machine, seed, r.(network := None), plan, published);
  }

  lemma ListedIsHeld(s: Image, k: nat, network: Bytes)
    requires WellFormed(s) && AllWithin(s, NETWORK, {Holds(network)} + {Absent}) && !AllWithin(s, NETWORK, {Absent})
    requires k <= |s.listings| && (forall j :: 0 <= j < k ==> NETWORK !in s.listings[j])
    requires k < |s.listings| ==> NETWORK in s.listings[k]
    ensures k < |s.listings| && ViewAt(s, k, NETWORK) == Holds(network)
  {
    var j :| 0 <= j < |s.listings| && ViewAt(s, j, NETWORK) != Absent;
    assert k <= j;
  }

  method FirstListingWith(dir: Directory, name: string) returns (k: nat)
    requires dir.Valid()
    ensures k <= |dir.listings| && (k < |dir.listings| ==> name in dir.listings[k])
    ensures forall j :: 0 <= j < k ==> name !in dir.listings[j]
  {
    k := 0;
    while k < |dir.listings| && name !in dir.listings[k]
      invariant 0 <= k <= |dir.listings|
      invariant forall j :: 0 <= j < k ==> name !in dir.listings[j]
    {
      k := k + 1;
    }
  }
}
