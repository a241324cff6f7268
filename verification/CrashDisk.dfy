/** One directory on a disk that can lose power.
    Processes see the newest listing; until the directory is synced, a power cut may leave
    any listing since the last sync (a prefix of the directory's operations), and the
    contents of every file that was not synced become arbitrary. */
module CrashDisk {
  import opened Bytes

  type Inode = nat

  type Listing = map<string, Inode>

  /** `next` is the inode number the next created file gets. */
  datatype Image = Image(listings: seq<Listing>, data: map<Inode, Bytes>, synced: set<Inode>, next: Inode)

  ghost predicate WellFormed(d: Image) {
    && |d.listings| > 0
    && d.synced <= d.data.Keys
    && (forall i :: i in d.data ==> i < d.next)
    && forall k, n :: 0 <= k < |d.listings| && n in d.listings[k] ==> d.listings[k][n] in d.data
  }

  /** What running processes see. */
  function Seen(d: Image): Listing
    requires |d.listings| > 0
  {
    d.listings[|d.listings| - 1]
  }

  /** The index of the listing that running processes see. */
  function Newest(d: Image): (k: nat)
    requires |d.listings| > 0
    ensures k == |d.listings| - 1
  {
    |d.listings| - 1
  }

  /** What a name stands for in one of the listings that may survive. */
  datatype View = Absent | Torn | Holds(bytes: Bytes)

  function ViewAt(d: Image, k: nat, n: string): View
    requires WellFormed(d) && k < |d.listings|
  {
    if n !in d.listings[k] then Absent
    else if d.listings[k][n] !in d.synced then Torn
    else Holds(d.data[d.listings[k][n]])
  }

  function SeenView(d: Image, n: string): View
    requires WellFormed(d)
  {
    ViewAt(d, Newest(d), n)
  }

  function Relisted(d: Image, l: Listing): Image {
    d.(listings := d.listings + [l])
  }

  function Unlinked(d: Image, n: string): Image
    requires WellFormed(d)
  {
    if n in Seen(d) then Relisted(d, Seen(d) - {n}) else d
  }

  function Created(d: Image, n: string): Image
    requires WellFormed(d)
  {
    Relisted(d, Seen(d)[n := d.next]).(data := d.data[d.next := []], next := d.next + 1)
  }

  /** A new subdirectory; its entry becomes durable like any other listing change. */
  function DirectoryMade(d: Image, n: string): Image
    requires WellFormed(d)
  {
    FileSynced(Created(d, n), d.next)
  }

  function Written(d: Image, i: Inode, bytes: Bytes): Image {
    d.(data := d.data[i := bytes], synced := d.synced - {i})
  }

  function FileSynced(d: Image, i: Inode): Image {
    d.(synced := d.synced + {i})
  }

  function Renamed(d: Image, from: string, to: string): Image
    requires WellFormed(d) && from in Seen(d)
  {
    Relisted(d, (Seen(d) - {from})[to := Seen(d)[from]])
  }

  function DirectorySynced(d: Image): Image
    requires WellFormed(d)
  {
    d.(listings := [Seen(d)])
  }

  /** The disk after power returns: one listing, all of it durable. */
  function Survived(d: Image, k: nat, garbage: Inode -> Bytes): Image
    requires WellFormed(d) && k < |d.listings|
  {
    Image([d.listings[k]],
          map i | i in d.data :: if i in d.synced then d.data[i] else garbage(i),
          d.data.Keys,
          d.next)
  }

  /** What happens to one system call: it takes effect, it reports an error, or the power
      fails before it (`late` false) or just after it (`late` true). */
  datatype Fate =
    | Works
    | Fails(torn: Bytes)
    | PowerFails(late: bool, survivor: nat, garbage: Inode -> Bytes)

  datatype Outcome = Done | Failed | PowerCut

  function OutcomeOf(f: Fate): Outcome {
    match f
    case Works => Done
    case Fails(_) => Failed
    case PowerFails(_, _, _) => PowerCut
  }

  function Pick(d: Image, survivor: nat): (k: nat)
    requires WellFormed(d)
    ensures k < |d.listings|
  {
    if survivor < |d.listings| then survivor else |d.listings| - 1
  }

  /** The image after a system call with the given effect and fate. */
  function Stepped(d: Image, effect: Image, f: Fate): Image
    requires WellFormed(d) && WellFormed(effect)
  {
    match f
    case Works => effect
    case Fails(_) => d
    case PowerFails(late, survivor, garbage) =>
      var hit := if late then effect else d;
      Survived(hit, Pick(hit, survivor), garbage)
  }

  predicate TakesEffect(f: Fate) {
    f.Works? || (f.PowerFails? && f.late)
  }

  class Directory {
    var listings: seq<Listing>
    var data: map<Inode, Bytes>
    var synced: set<Inode>
    var next: Inode

    ghost function Now(): Image
      reads this
    {
      Image(listings, data, synced, next)
    }

    ghost predicate Valid()
      reads this
    {
      WellFormed(Now())
    }

    constructor ()
      ensures Valid() && Now() == Image([map[]], map[], {}, 0)
    {
      listings, data, synced, next := [map[]], map[], {}, 0;
    }

    /** The newest listing. */
    function Current(): (l: Listing)
      requires Valid()
      reads this
      ensures l == Seen(Now())
    {
      listings[|listings| - 1]
    }

    /** Cuts the power if that is the call's fate, and reports how the call ended. */
    method Finish(f: Fate) returns (o: Outcome)
      requires Valid()
      modifies this
      ensures Valid() && o == OutcomeOf(f)
      ensures Now() == if f.PowerFails? then Survived(old(Now()), Pick(old(Now()), f.survivor), f.garbage) else old(Now())
    {
      if f.PowerFails? {
        var k := if f.survivor < |listings| then f.survivor else |listings| - 1;
        listings := [listings[k]];
        data := map i | i in data :: if i in synced then data[i] else f.garbage(i);
        synced := data.Keys;
      }
      o := OutcomeOf(f);
    }

    /** `remove_file`, with a missing file counted as removed, as every caller does. */
    method Unlink(n: string, f: Fate) returns (o: Outcome)
      requires Valid()
      modifies this
      ensures Valid() && o == OutcomeOf(f)
      ensures Now() == Stepped(old(Now()), Unlinked(old(Now()), n), f)
    {
      if TakesEffect(f) && n in Current() {
        listings := listings + [Current() - {n}];
      }
      o := Finish(f);
    }

    /** An exclusive create: it fails, whatever its fate, when the name exists. */
    method CreateNew(n: string, f: Fate) returns (o: Outcome, handle: Inode)
      requires Valid()
      modifies this
      ensures Valid() && handle == old(next)
      ensures n in old(Seen(Now())) && !f.PowerFails? ==> o == Failed && Now() == old(Now())
      ensures n !in old(Seen(Now())) || f.PowerFails? ==> o == OutcomeOf(f)
      ensures n in old(Seen(Now())) && f.PowerFails? ==> Now() == Stepped(old(Now()), old(Now()), f)
      ensures n !in old(Seen(Now())) ==> Now() == Stepped(old(Now()), Created(old(Now()), n), f)
    {
      handle := next;
      if n in Current() && !f.PowerFails? {
        return Failed, handle;
      }
      if TakesEffect(f) && n !in Current() {
        listings, data, next := listings + [Current()[n := next]], data[next := []], next + 1;
      }
      o := Finish(f);
    }

    /** `create_dir`, with an existing directory counted as success, as the caller does. */
    method MakeDirectory(n: string, f: Fate) returns (o: Outcome)
      requires Valid()
      modifies this
      ensures Valid() && o == OutcomeOf(f)
      ensures Now() == Stepped(old(Now()), if n in Seen(old(Now())) then old(Now()) else DirectoryMade(old(Now()), n), f)
    {
      if TakesEffect(f) && n !in Current() {
        listings := listings + [Current()[n := next]];
        data, synced, next := data[next := []], synced + {next}, next + 1;
      }
      o := Finish(f);
    }

    /** A write through an open handle; an error may leave any torn contents behind. */
    method Write(handle: Inode, bytes: Bytes, f: Fate) returns (o: Outcome)
      requires Valid() && handle in data
      modifies this
      ensures Valid() && o == OutcomeOf(f)
      ensures f.Fails? ==> Now() == Written(old(Now()), handle, f.torn)
      ensures !f.Fails? ==> Now() == Stepped(old(Now()), Written(old(Now()), handle, bytes), f)
    {
      if TakesEffect(f) || f.Fails? {
        data, synced := data[handle := if f.Fails? then f.torn else bytes], synced - {handle};
      }
      o := Finish(f);
    }

    method SyncFile(handle: Inode, f: Fate) returns (o: Outcome)
      requires Valid() && handle in data
      modifies this
      ensures Valid() && o == OutcomeOf(f)
      ensures Now() == Stepped(old(Now()), FileSynced(old(Now()), handle), f)
    {
      if TakesEffect(f) {
        synced := synced + {handle};
      }
      o := Finish(f);
    }

    method Rename(from: string, to: string, f: Fate) returns (o: Outcome)
      requires Valid() && from in Seen(Now())
      modifies this
      ensures Valid() && o == OutcomeOf(f)
      ensures Now() == Stepped(old(Now()), Renamed(old(Now()), from, to), f)
    {
      if TakesEffect(f) {
        listings := listings + [(Current() - {from})[to := Current()[from]]];
      }
      o := Finish(f);
    }

    method SyncDirectory(f: Fate) returns (o: Outcome)
      requires Valid()
      modifies this
      ensures Valid() && o == OutcomeOf(f)
      ensures Now() == Stepped(old(Now()), DirectorySynced(old(Now())), f)
    {
      if TakesEffect(f) {
        listings := [Current()];
      }
      o := Finish(f);
    }

    /** A call that does not change the directory (opening it, setting a file's mode). */
    method Touch(f: Fate) returns (o: Outcome)
      requires Valid()
      modifies this
      ensures Valid() && o == OutcomeOf(f)
      ensures Now() == Stepped(old(Now()), old(Now()), f)
    {
      o := Finish(f);
    }
  }
}
