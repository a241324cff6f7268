/** Catalog references: validation, first-match lookup, and the ranked suggestions offered
    for a reference that names nothing. */
module Catalog {
  import opened Options
  import EditDistance

  datatype Firmware = Rhf | Edk2

  datatype ImageFormat = Qcow2 | Raw

  datatype Algorithm = Sha256 | Sha512

  datatype Checksum = ManifestUrl(url: string) | Digest(hex: string)

  datatype ArchSource = ArchSource(url: string, checksum: Checksum, algorithm: Algorithm, firmware: Option<Firmware>)

  datatype Entry = Entry(distro: string, version: string, aliases: seq<string>, isDefault: bool,
                         firmware: Firmware, format: ImageFormat, sshdPath: string, arch: map<string, ArchSource>)

  // ----- references

  function Canonical(e: Entry): string {
    e.distro + ":" + e.version
  }

  function Selectors(e: Entry): seq<string> {
    e.aliases + [e.version]
  }

  predicate IsAlphanumeric(c: char) {
    'a' <= c <= 'z' || 'A' <= c <= 'Z' || '0' <= c <= '9'
  }

  predicate IsReferenceComponent(s: string) {
    && s != []
    && IsAlphanumeric(s[0])
    && forall i :: 1 <= i < |s| ==> IsAlphanumeric(s[i]) || s[i] in {'.', '_', '+', '-'}
  }

  predicate WellNamed(e: Entry) {
    IsReferenceComponent(e.distro) && forall s :: s in Selectors(e) ==> IsReferenceComponent(s)
  }

  /** A reference split at its first colon. */
  function SplitOnce(reference: string): (string, Option<string>) {
    if reference == [] then ([], None)
    else if reference[0] == ':' then ([], Some(reference[1..]))
    else
      var (distro, selector) := SplitOnce(reference[1..]);
      ([reference[0]] + distro, selector)
  }

  lemma {:induction false} SplitJoined(distro: string, selector: string)
    requires ':' !in distro
    ensures SplitOnce(distro + ":" + selector) == (distro, Some(selector))
  {
    var joined := distro + ":" + selector;
    if distro == [] {
      assert joined[1..] == selector;
    } else {
      assert joined[0] == distro[0] && joined[1..] == distro[1..] + ":" + selector;
      SplitJoined(distro[1..], selector);
      assert [distro[0]] + distro[1..] == distro;
    }
  }

  lemma {:induction false} SplitBack(reference: string)
    ensures var (distro, selector) := SplitOnce(reference);
            && ':' !in distro
            && reference == if selector.Some? then distro + ":" + selector.value else distro
  {
    if reference != [] && reference[0] != ':' {
      SplitBack(reference[1..]);
    }
  }

  lemma SplitPlain(distro: string)
    requires ':' !in distro
    ensures SplitOnce(distro) == (distro, None)
  {
    SplitBack(distro);
    var (d, selector) := SplitOnce(distro);
    assert forall s :: (d + ":" + s)[|d|] == ':';
  }

  lemma ComponentExamples()
    ensures IsReferenceComponent("ubuntu") && IsReferenceComponent("24.04") && IsReferenceComponent("a_B+9-")
    ensures !IsReferenceComponent("") && !IsReferenceComponent("-a") && !IsReferenceComponent("a/b") && !IsReferenceComponent("a:b")
  {
    assert "-a"[0] == '-' && "a/b"[1] == '/' && "a:b"[1] == ':';
  }

  lemma ComponentHasNoColon(s: string)
    requires IsReferenceComponent(s)
    ensures ':' !in s
  {
  }

  lemma CanonicalIsInjective(e: Entry, f: Entry)
    requires IsReferenceComponent(e.distro) && IsReferenceComponent(f.distro)
    ensures Canonical(e) == Canonical(f) <==> e.distro == f.distro && e.version == f.version
  {
    ComponentHasNoColon(e.distro);
    ComponentHasNoColon(f.distro);
    SplitJoined(e.distro, e.version);
    SplitJoined(f.distro, f.version);
  }

  // ----- lookup

  predicate Matches(e: Entry, reference: string) {
    var (distro, selector) := SplitOnce(reference);
    match selector
    case Some(s) => e.distro == distro && (e.version == s || s in e.aliases)
    case None => e.distro == distro && e.isDefault
  }

  /** `find`: the first entry, in iteration order, that matches. */
  function Find(entries: seq<Entry>, reference: string): Option<Entry> {
    if entries == [] then None
    else if Matches(entries[0], reference) then Some(entries[0])
    else Find(entries[1..], reference)
  }

  lemma {:induction false} FindIsFirst(entries: seq<Entry>, reference: string)
    ensures match Find(entries, reference)
            case Some(e) => e in entries && Matches(e, reference)
            case None => forall e :: e in entries ==> !Matches(e, reference)
  {
    if entries != [] {
      FindIsFirst(entries[1..], reference);
    }
  }

  // ----- validation

  /** Entries come from a map keyed by canonical reference. */
  ghost predicate Keyed(entries: seq<Entry>) {
    forall i, j :: 0 <= i < j < |entries| ==> Canonical(entries[i]) != Canonical(entries[j])
  }

  ghost predicate IsDefaultAt(entries: seq<Entry>, i: int, distro: string) {
    0 <= i < |entries| && entries[i].distro == distro && entries[i].isDefault
  }

  ghost predicate HasOneDefault(entries: seq<Entry>, distro: string) {
    exists i :: IsDefaultAt(entries, i, distro) && forall j :: IsDefaultAt(entries, j, distro) ==> j == i
  }

  ghost predicate OneDefaultEach(entries: seq<Entry>) {
    forall e :: e in entries ==> HasOneDefault(entries, e.distro)
  }

  /** No name belongs to two entries. */
  ghost predicate Unambiguous(entries: seq<Entry>) {
    forall e, f, s :: e in entries && f in entries && e.distro == f.distro && s in Selectors(e) && s in Selectors(f)
                      ==> Canonical(e) == Canonical(f)
  }

  ghost predicate Validated(entries: seq<Entry>) {
    && Keyed(entries) && OneDefaultEach(entries) && Unambiguous(entries)
    && forall e :: e in entries ==> WellNamed(e)
  }

  function CountDefaults(entries: seq<Entry>, distro: string): nat {
    if entries == [] then 0
    else
      var last := entries[|entries| - 1];
      CountDefaults(entries[..|entries| - 1], distro) + (if last.distro == distro && last.isDefault then 1 else 0)
  }

  lemma {:induction false} CountZero(entries: seq<Entry>, distro: string)
    ensures CountDefaults(entries, distro) == 0 <==> forall j :: !IsDefaultAt(entries, j, distro)
  {
    if entries != [] {
      var n := |entries| - 1;
      CountZero(entries[..n], distro);
      DefaultsBelow(entries, distro);
      if CountDefaults(entries, distro) == 0 {
        assert !IsDefaultAt(entries, n, distro);
      } else if CountDefaults(entries[..n], distro) == 0 {
        assert IsDefaultAt(entries, n, distro);
      } else {
        var j :| IsDefaultAt(entries[..n], j, distro);
        assert IsDefaultAt(entries, j, distro);
      }
    }
  }

  lemma DefaultsBelow(entries: seq<Entry>, distro: string)
    requires entries != []
    ensures forall j :: IsDefaultAt(entries[..|entries| - 1], j, distro) <==>
                        IsDefaultAt(entries, j, distro) && j != |entries| - 1
  {
  }

  lemma {:induction false} CountOne(entries: seq<Entry>, distro: string)
    ensures CountDefaults(entries, distro) == 1 <==> HasOneDefault(entries, distro)
  {
    if entries != [] {
      var n := |entries| - 1;
      var before := entries[..n];
      CountZero(before, distro);
      CountOne(before, distro);
      DefaultsBelow(entries, distro);
      if IsDefaultAt(entries, n, distro) {
        if CountDefaults(before, distro) == 0 {
          assert forall j :: IsDefaultAt(entries, j, distro) ==> j == n;
        } else {
          var i :| IsDefaultAt(before, i, distro);
          assert IsDefaultAt(entries, i, distro) && i != n;
        }
      } else {
        SameDefaultsSameCount(before, entries, distro);
      }
    }
  }

  lemma SameDefaultsSameCount(a: seq<Entry>, b: seq<Entry>, distro: string)
    requires forall j :: IsDefaultAt(a, j, distro) <==> IsDefaultAt(b, j, distro)
    ensures HasOneDefault(a, distro) <==> HasOneDefault(b, distro)
  {
    if HasOneDefault(a, distro) {
      var i :| IsDefaultAt(a, i, distro) && forall j :: IsDefaultAt(a, j, distro) ==> j == i;
      assert IsDefaultAt(b, i, distro);
    }
    if HasOneDefault(b, distro) {
      var i :| IsDefaultAt(b, i, distro) && forall j :: IsDefaultAt(b, j, distro) ==> j == i;
      assert IsDefaultAt(a, i, distro);
    }
  }

  /** The releases of one distro, in iteration order. */
  function Releases(entries: seq<Entry>, distro: string): seq<Entry> {
    if entries == [] then []
    else
      var n := |entries| - 1;
      Releases(entries[..n], distro) + (if entries[n].distro == distro then [entries[n]] else [])
  }

  lemma {:induction false} ReleasesKeepDefaults(entries: seq<Entry>, distro: string)
    ensures CountDefaults(Releases(entries, distro), distro) == CountDefaults(entries, distro)
    ensures forall e :: e in Releases(entries, distro) ==> e.distro == distro
  {
    if entries != [] {
      var n := |entries| - 1;
      ReleasesKeepDefaults(entries[..n], distro);
      var kept := Releases(entries[..n], distro);
      if entries[n].distro == distro {
        assert (kept + [entries[n]])[..|kept|] == kept;
      } else {
        assert kept + [] == kept;
      }
    }
  }

  ghost predicate IsGrouping(groups: map<string, seq<Entry>>, entries: seq<Entry>) {
    && (forall d :: d in groups ==> groups[d] == Releases(entries, d))
    && (forall d :: d !in groups ==> Releases(entries, d) == [])
    && (forall d :: d in groups ==> exists e :: e in entries && e.distro == d)
    && (forall e :: e in entries ==> e.distro in groups)
  }

  lemma ReleasesSnoc(entries: seq<Entry>, e: Entry, distro: string)
    ensures Releases(entries + [e], distro) == Releases(entries, distro) + if e.distro == distro then [e] else []
  {
    assert (entries + [e])[..|entries|] == entries;
  }

  lemma GroupingGrows(groups: map<string, seq<Entry>>, entries: seq<Entry>, e: Entry)
    requires IsGrouping(groups, entries)
    ensures IsGrouping(groups[e.distro := (if e.distro in groups then groups[e.distro] else []) + [e]], entries + [e])
  {
    var grown := groups[e.distro := (if e.distro in groups then groups[e.distro] else []) + [e]];
    forall d
      ensures d in grown ==> grown[d] == Releases(entries + [e], d)
      ensures d !in grown ==> Releases(entries + [e], d) == []
    {
      ReleasesSnoc(entries, e, d);
    }
    forall d | d in grown
      ensures exists f :: f in entries + [e] && f.distro == d
    {
      if d == e.distro {
        assert e in entries + [e];
      } else {
        var f :| f in entries && f.distro == d;
        assert f in entries + [e];
      }
    }
  }

  lemma NothingToGroup()
    ensures IsGrouping(map[], [])
  {
  }

  method CountGroup(group: seq<Entry>, distro: string) returns (defaults: nat)
    requires forall e :: e in group ==> e.distro == distro
    ensures defaults == CountDefaults(group, distro)
  {
    defaults := 0;
    for i := 0 to |group|
      invariant defaults == CountDefaults(group[..i], distro)
    {
      assert group[..i + 1][..i] == group[..i];
      assert group[i] in group;
      if group[i].isDefault {
        defaults := defaults + 1;
      }
    }
    assert group[..|group|] == group;
  }

  /** `validate_defaults`: group by distro, then count the defaults of each group. */
  method ValidateDefaults(entries: seq<Entry>) returns (ok: bool)
    ensures ok <==> OneDefaultEach(entries)
  {
    hide CountDefaults, Releases, HasOneDefault;
    var groups: map<string, seq<Entry>> := map[];
    NothingToGroup();
    for i := 0 to |entries|
      invariant IsGrouping(groups, entries[..i])
    {
      var e := entries[i];
      GroupingGrows(groups, entries[..i], e);
      assert entries[..i + 1] == entries[..i] + [e];
      var group := if e.distro in groups then groups[e.distro] else [];
      groups := groups[e.distro := group + [e]];
    }
    assert entries[..|entries|] == entries;
    var todo := groups.Keys;
    while todo != {}
      invariant todo <= groups.Keys
      invariant forall d :: d in groups.Keys && d !in todo ==> HasOneDefault(entries, d)
      decreases todo
    {
      var d :| d in todo;
      ReleasesKeepDefaults(entries, d);
      CountOne(entries, d);
      var defaults := CountGroup(groups[d], d);
      if defaults != 1 {
        return false;
      }
      todo := todo - {d};
    }
    ok := true;
  }

  /** Every name of the entries read so far is recorded, with the entry that owns it. */
  ghost predicate Recorded(names: map<(string, string), string>, entries: seq<Entry>) {
    forall e, s :: e in entries && s in Selectors(e) ==>
                     (e.distro, s) in names && names[(e.distro, s)] == Canonical(e)
  }

  ghost predicate Owned(names: map<(string, string), string>, entries: seq<Entry>) {
    forall d, s :: (d, s) in names ==>
                     exists e :: e in entries && e.distro == d && s in Selectors(e) && names[(d, s)] == Canonical(e)
  }

  /** The inner loop of `validate_reference_names`: one entry's names. */
  method RecordNames(names: map<(string, string), string>, entries: seq<Entry>, i: nat)
    returns (ok: bool, names': map<(string, string), string>)
    requires i < |entries| && Recorded(names, entries[..i]) && Owned(names, entries[..i])
    ensures ok ==> Recorded(names', entries[..i + 1]) && Owned(names', entries[..i + 1])
    ensures !ok ==> !Unambiguous(entries)
  {
    var e := entries[i];
    var selectors := Selectors(e);
    names' := names;
    for k := 0 to |selectors|
      invariant Recorded(names', entries[..i])
      invariant forall s :: s in selectors[..k] ==> (e.distro, s) in names' && names'[(e.distro, s)] == Canonical(e)
      invariant forall d, s :: (d, s) in names' && (d != e.distro || s !in selectors[..k]) ==>
                                 (d, s) in names && names'[(d, s)] == names[(d, s)]
    {
      var key := (e.distro, selectors[k]);
      if key in names' && names'[key] != Canonical(e) {
        var owner :| owner in entries[..i] && owner.distro == e.distro && selectors[k] in Selectors(owner)
                     && names[key] == Canonical(owner);
        assert owner in entries && e in entries && selectors[k] in Selectors(e);
        return false, names';
      }
      names' := names'[key := Canonical(e)];
    }
    assert selectors[..|selectors|] == selectors;
    assert entries[..i + 1] == entries[..i] + [e];
    ok := true;
    forall d, s | (d, s) in names'
      ensures exists f :: f in entries[..i + 1] && f.distro == d && s in Selectors(f) && names'[(d, s)] == Canonical(f)
    {
      if d == e.distro && s in selectors {
        assert e in entries[..i + 1];
      } else {
        var f :| f in entries[..i] && f.distro == d && s in Selectors(f) && names[(d, s)] == Canonical(f);
        assert f in entries[..i + 1];
      }
    }
  }

  /** `validate_reference_names`. */
  method ValidateReferenceNames(entries: seq<Entry>) returns (ok: bool)
    ensures ok <==> Unambiguous(entries)
  {
    var names: map<(string, string), string> := map[];
    for i := 0 to |entries|
      invariant Recorded(names, entries[..i]) && Owned(names, entries[..i])
    {
      ok, names := RecordNames(names, entries, i);
      if !ok {
        return;
      }
    }
    assert entries[..|entries|] == entries;
    ok := true;
  }

  // ----- what validation gives

  lemma MatchMeansName(e: Entry, reference: string)
    requires WellNamed(e)
    ensures Matches(e, reference) <==>
            || (e.isDefault && reference == e.distro)
            || exists s :: s in Selectors(e) && reference == e.distro + ":" + s
  {
    ComponentHasNoColon(e.distro);
    SplitPlain(e.distro);
    SplitBack(reference);
    var (distro, selector) := SplitOnce(reference);
    forall s | s in Selectors(e)
      ensures SplitOnce(e.distro + ":" + s) == (e.distro, Some(s))
    {
      SplitJoined(e.distro, s);
    }
    if selector.Some? && Matches(e, reference) {
      assert selector.value in Selectors(e);
    }
  }

  /** At most one entry of a validated catalog matches any string. */
  lemma AtMostOneMatch(entries: seq<Entry>, reference: string, i: nat, j: nat)
    requires Validated(entries) && i < |entries| && j < |entries|
    requires Matches(entries[i], reference) && Matches(entries[j], reference)
    ensures i == j
  {
    var e, f := entries[i], entries[j];
    var (distro, selector) := SplitOnce(reference);
    if selector.Some? {
      assert selector.value in Selectors(e) && selector.value in Selectors(f);
      assert Canonical(e) == Canonical(f);
    } else {
      assert HasOneDefault(entries, e.distro);
      var k :| IsDefaultAt(entries, k, e.distro) && forall m :: IsDefaultAt(entries, m, e.distro) ==> m == k;
      assert IsDefaultAt(entries, i, e.distro) && IsDefaultAt(entries, j, e.distro);
    }
  }

  /** Lookup does not depend on the order in which entries are visited. */
  lemma {:induction false} FindIgnoresOrder(entries: seq<Entry>, shuffled: seq<Entry>, reference: string)
    requires Validated(entries)
    requires forall e :: e in entries <==> e in shuffled
    ensures Find(shuffled, reference) == Find(entries, reference)
  {
    FindIsFirst(entries, reference);
    FindIsFirst(shuffled, reference);
    if Find(entries, reference).Some? {
      var e, f := Find(entries, reference).value, Find(shuffled, reference).value;
      var i :| 0 <= i < |entries| && entries[i] == e;
      var j :| 0 <= j < |entries| && entries[j] == f;
      AtMostOneMatch(entries, reference, i, j);
    }
  }

  /** Each entry is found by its canonical reference, by each alias, and, when it is the
      default, by the bare distro name; every distro has such a default. */
  lemma EveryNameFindsItsEntry(entries: seq<Entry>, e: Entry)
    requires Validated(entries) && e in entries
    ensures Find(entries, Canonical(e)) == Some(e)
    ensures forall s :: s in e.aliases ==> Find(entries, e.distro + ":" + s) == Some(e)
    ensures e.isDefault ==> Find(entries, e.distro) == Some(e)
    ensures Find(entries, e.distro).Some? && Find(entries, e.distro).value.distro == e.distro
  {
    forall s | s in Selectors(e)
      ensures Find(entries, e.distro + ":" + s) == Some(e)
    {
      MatchMeansName(e, e.distro + ":" + s);
      MatchedIsFound(entries, e, e.distro + ":" + s);
    }
    assert e.version in Selectors(e);
    forall s | s in e.aliases
      ensures s in Selectors(e)
    {
    }
    assert HasOneDefault(entries, e.distro);
    var k :| IsDefaultAt(entries, k, e.distro);
    var d := entries[k];
    MatchMeansName(d, d.distro);
    MatchedIsFound(entries, d, d.distro);
    if e.isDefault {
      var i :| 0 <= i < |entries| && entries[i] == e;
      assert IsDefaultAt(entries, i, e.distro);
    }
  }

  lemma MatchedIsFound(entries: seq<Entry>, e: Entry, reference: string)
    requires Validated(entries) && e in entries && Matches(e, reference)
    ensures Find(entries, reference) == Some(e)
  {
    FindIsFirst(entries, reference);
    var f := Find(entries, reference).value;
    var i :| 0 <= i < |entries| && entries[i] == e;
    var j :| 0 <= j < |entries| && entries[j] == f;
    AtMostOneMatch(entries, reference, i, j);
  }

  // ----- suggestions

  function NamesOf(e: Entry): set<string> {
    (set s | s in Selectors(e) :: e.distro + ":" + s) + (if e.isDefault then {e.distro} else {})
  }

  ghost predicate IsName(entries: seq<Entry>, name: string) {
    exists e :: e in entries && name in NamesOf(e)
  }

  /** The candidate names are exactly the strings that `find` resolves. */
  lemma NamesAreTheDomainOfFind(entries: seq<Entry>, reference: string)
    requires forall e :: e in entries ==> WellNamed(e)
    ensures IsName(entries, reference) <==> Find(entries, reference).Some?
  {
    FindIsFirst(entries, reference);
    forall e | e in entries
      ensures Matches(e, reference) <==> reference in NamesOf(e)
    {
      MatchMeansName(e, reference);
    }
  }

  /** Strings compare by their characters, as the names' bytes do. */
  predicate Before(a: string, b: string) {
    if b == [] then false
    else if a == [] then true
    else if a[0] != b[0] then a[0] < b[0]
    else Before(a[1..], b[1..])
  }

  lemma {:induction false} BeforeIsTotal(a: string, b: string)
    ensures a == b || Before(a, b) || Before(b, a)
    ensures !(Before(a, b) && Before(b, a)) && !Before(a, a)
  {
    if a != [] {
      BeforeIsTotal(a[1..], if b == [] || a[0] != b[0] then a[1..] else b[1..]);
      if b != [] && a[0] == b[0] {
        assert a == [a[0]] + a[1..] && b == [b[0]] + b[1..];
        BeforeIsTotal(a[1..], a[1..]);
      }
    }
  }

  lemma {:induction false} BeforeIsTransitive(a: string, b: string, c: string)
    requires Before(a, b) && Before(b, c)
    ensures Before(a, c)
  {
    if a != [] && a[0] == b[0] == c[0] {
      BeforeIsTransitive(a[1..], b[1..], c[1..]);
    }
  }

  /** The first place where two strings differ decides, and a prefix comes first. */
  lemma {:induction false} BeforeMeans(a: string, b: string)
    ensures Before(a, b) <==> exists k :: FirstDifference(a, b, k) && k < |b| && (k < |a| ==> a[k] < b[k])
  {
    if a != [] && b != [] && a[0] == b[0] {
      BeforeMeans(a[1..], b[1..]);
      forall k | 0 <= k < |a|
        ensures FirstDifference(a[1..], b[1..], k) <==> FirstDifference(a, b, k + 1)
      {
        assert forall i :: 0 < i <= k && i < |a| && i < |b| ==> (a[i] == b[i] <==> a[1..][i - 1] == b[1..][i - 1]);
        assert forall i :: 0 <= i < k && i + 1 < |a| && i + 1 < |b| ==> (a[1..][i] == b[1..][i] <==> a[i + 1] == b[i + 1]);
      }
      if k :| FirstDifference(a, b, k) && k < |b| && (k < |a| ==> a[k] < b[k]) {
        assert FirstDifference(a[1..], b[1..], k - 1);
      }
      if k :| FirstDifference(a[1..], b[1..], k) && k < |b[1..]| && (k < |a[1..]| ==> a[1..][k] < b[1..][k]) {
        assert FirstDifference(a, b, k + 1);
      }
    } else if b != [] {
      assert FirstDifference(a, b, 0);
    }
  }

  ghost predicate FirstDifference(a: string, b: string, k: int) {
    && 0 <= k <= |a| && k <= |b| && (forall i :: 0 <= i < k ==> a[i] == b[i])
    && (k < |a| && k < |b| ==> a[k] != b[k])
  }

  /** `x` ranks ahead of `y` as a suggestion for `reference`. */
  predicate Ahead(reference: string, x: string, y: string) {
    var dx, dy := EditDistance.Distance(reference, x), EditDistance.Distance(reference, y);
    dx < dy || (dx == dy && Before(x, y))
  }

  lemma AheadIsOrder(reference: string, x: string, y: string, z: string)
    ensures x == y || Ahead(reference, x, y) || Ahead(reference, y, x)
    ensures !Ahead(reference, x, x)
    ensures Ahead(reference, x, y) && Ahead(reference, y, z) ==> Ahead(reference, x, z)
  {
    BeforeIsTotal(x, y);
    BeforeIsTotal(x, x);
    if Before(x, y) && Before(y, z) {
      BeforeIsTransitive(x, y, z);
    }
  }

  ghost predicate Ranked(reference: string, names: seq<string>) {
    forall i, j :: 0 <= i < j < |names| ==> Ahead(reference, names[i], names[j])
  }

  lemma InsertKeepsRank(reference: string, names: seq<string>, p: nat, x: string)
    requires Ranked(reference, names) && p <= |names|
    requires forall i :: 0 <= i < p ==> Ahead(reference, names[i], x)
    requires p < |names| ==> Ahead(reference, x, names[p])
    ensures Ranked(reference, names[..p] + [x] + names[p..])
  {
    forall i | p <= i < |names|
      ensures Ahead(reference, x, names[i])
    {
      AheadIsOrder(reference, x, names[p], names[i]);
    }
  }

  ghost predicate RankedPairs(reference: string, ranked: seq<(nat, string)>) {
    && Ranked(reference, NamesIn(ranked))
    && forall i :: 0 <= i < |ranked| ==> ranked[i].0 == EditDistance.Distance(reference, ranked[i].1)
  }

  /** Where a name of the given distance belongs. */
  method FindPlace(reference: string, ranked: seq<(nat, string)>, d: nat, x: string) returns (p: nat)
    requires RankedPairs(reference, ranked) && x !in NamesIn(ranked)
    requires d == EditDistance.Distance(reference, x)
    ensures p <= |ranked|
    ensures forall i :: 0 <= i < p ==> Ahead(reference, NamesIn(ranked)[i], x)
    ensures p < |ranked| ==> Ahead(reference, x, NamesIn(ranked)[p])
  {
    p := 0;
    while p < |ranked| && (ranked[p].0 < d || (ranked[p].0 == d && Before(ranked[p].1, x)))
      invariant 0 <= p <= |ranked|
      invariant forall i :: 0 <= i < p ==> Ahead(reference, NamesIn(ranked)[i], x)
    {
      p := p + 1;
    }
    if p < |ranked| {
      assert NamesIn(ranked)[p] in NamesIn(ranked);
      AheadIsOrder(reference, x, NamesIn(ranked)[p], x);
    }
  }

  /** One name put in its place; the ranks are the distances `levenshtein` returns. */
  method InsertRanked(reference: string, ranked: seq<(nat, string)>, x: string) returns (longer: seq<(nat, string)>)
    requires RankedPairs(reference, ranked) && x !in NamesIn(ranked)
    ensures RankedPairs(reference, longer)
    ensures forall n :: n in NamesIn(longer) <==> n in NamesIn(ranked) || n == x
  {
    hide EditDistance.Distance, EditDistance.IsLeastCost, Ahead, Before;
    var d := EditDistance.Levenshtein(reference, x);
    var p := FindPlace(reference, ranked, d, x);
    ghost var names := NamesIn(ranked);
    InsertKeepsRank(reference, names, p, x);
    longer := ranked[..p] + [(d, x)] + ranked[p..];
    assert NamesIn(longer) == names[..p] + [x] + names[p..];
    assert names == names[..p] + names[p..];
  }

  function NamesIn(ranked: seq<(nat, string)>): (names: seq<string>)
    ensures |names| == |ranked|
  {
    seq(|ranked|, i requires 0 <= i < |ranked| => ranked[i].1)
  }

  /** The candidate set built by `closest_names`. */
  method CollectNames(entries: seq<Entry>) returns (names: set<string>)
    ensures forall n :: n in names <==> IsName(entries, n)
  {
    names := {};
    for i := 0 to |entries|
      invariant forall n :: n in names <==> IsName(entries[..i], n)
    {
      var e := entries[i];
      assert entries[..i + 1] == entries[..i] + [e];
      names := names + {Canonical(e)};
      if e.isDefault {
        names := names + {e.distro};
      }
      names := names + set s | s in e.aliases :: e.distro + ":" + s;
      assert NamesOf(e) == {Canonical(e)} + (if e.isDefault then {e.distro} else {}) + set s | s in e.aliases :: e.distro + ":" + s;
      forall n
        ensures IsName(entries[..i + 1], n) <==> IsName(entries[..i], n) || n in NamesOf(e)
      {
        if IsName(entries[..i], n) {
          var f :| f in entries[..i] && n in NamesOf(f);
          assert f in entries[..i + 1];
        }
        if n in NamesOf(e) {
          assert e in entries[..i + 1];
        }
      }
    }
    assert entries[..|entries|] == entries;
  }

  /** The result of ranking: the first `limit` names of all of them. */
  ghost predicate IsClosest(entries: seq<Entry>, reference: string, limit: nat, names: seq<string>) {
    && Ranked(reference, names)
    && (forall n :: n in names ==> IsName(entries, n))
    && (forall n, m :: IsName(entries, n) && n !in names && m in names ==> Ahead(reference, m, n))
    && |names| <= limit
    && (|names| < limit ==> forall n :: IsName(entries, n) ==> n in names)
  }

  /** `closest_names`. */
  method ClosestNames(entries: seq<Entry>, reference: string, limit: nat) returns (closest: seq<string>)
    ensures IsClosest(entries, reference, limit, closest)
  {
    var names := CollectNames(entries);
    var ranked: seq<(nat, string)> := [];
    var todo := names;
    while todo != {}
      invariant todo <= names
      invariant RankedPairs(reference, ranked)
      invariant forall n :: n in NamesIn(ranked) <==> n in names && n !in todo
      decreases todo
    {
      var x :| x in todo;
      ranked := InsertRanked(reference, ranked, x);
      todo := todo - {x};
    }
    var all := NamesIn(ranked);
    assert forall n :: n in all <==> IsName(entries, n);
    closest := if limit < |all| then all[..limit] else all;
    forall n, m | IsName(entries, n) && n !in closest && m in closest
      ensures Ahead(reference, m, n)
    {
      assert n in all;
      var j :| 0 <= j < |all| && all[j] == n;
      var i :| 0 <= i < |closest| && closest[i] == m;
      assert j >= |closest|;
    }
  }

  /** Every suggestion resolves, and one offered for an unknown reference is not that
      reference: its distance is at least one. */
  lemma SuggestionsResolve(entries: seq<Entry>, reference: string, limit: nat, closest: seq<string>, n: string)
    requires forall e :: e in entries ==> WellNamed(e)
    requires IsClosest(entries, reference, limit, closest) && n in closest
    ensures Find(entries, n).Some?
    ensures Find(entries, reference).None? ==> EditDistance.Distance(reference, n) > 0
  {
    NamesAreTheDomainOfFind(entries, n);
    EditDistance.ZeroOnlyForEqual(reference, n);
  }

  // ----- resolution

  datatype Resolved = Resolved(canonical: string, source: ArchSource, algorithm: Algorithm, firmware: Firmware,
                               format: ImageFormat, sshdPath: string, architecture: string)

  datatype ResolveError = UnknownImage(closest: seq<string>) | NoSuchArchitecture(canonical: string, available: set<string>)

  /** What an entry gives for one host architecture. */
  ghost predicate Selects(e: Entry, host: string, v: Resolved) {
    && host in e.arch && v.source == e.arch[host] && v.architecture == host
    && v.algorithm == e.arch[host].algorithm && v.format == e.format && v.sshdPath == e.sshdPath
    && v.firmware == (if v.source.firmware.Some? then v.source.firmware.value else e.firmware)
  }

  /** `resolve`, with its three suggestions on an unknown image. */
  method Resolve(entries: seq<Entry>, reference: string, host: string) returns (r: Result<Resolved, ResolveError>)
    requires Validated(entries)
    ensures r.Ok? ==> exists e :: e in entries && Find(entries, r.value.canonical) == Some(e) == Find(entries, reference) && Selects(e, host, r.value)
    ensures r.Err? && r.error.UnknownImage? ==> Find(entries, reference).None? && IsClosest(entries, reference, 3, r.error.closest)
    ensures r.Err? && r.error.UnknownImage? ==> forall n :: n in r.error.closest ==> Find(entries, n).Some? && n != reference
    ensures r.Err? && r.error.NoSuchArchitecture? ==>
              exists e :: Find(entries, reference) == Some(e) && Find(entries, r.error.canonical) == Some(e)
                          && r.error.available == e.arch.Keys && host !in r.error.available
  {
    var found := Find(entries, reference);
    if found.None? {
      var closest := ClosestNames(entries, reference, 3);
      forall n | n in closest
        ensures Find(entries, n).Some? && n != reference
      {
        SuggestionsResolve(entries, reference, 3, closest, n);
      }
      return Err(UnknownImage(closest));
    }
    var e := found.value;
    FindIsFirst(entries, reference);
    EveryNameFindsItsEntry(entries, e);
    if host !in e.arch {
      return Err(NoSuchArchitecture(Canonical(e), e.arch.Keys));
    }
    var source := e.arch[host];
    var firmware := if source.firmware.Some? then source.firmware.value else e.firmware;
    r := Ok(Resolved(Canonical(e), source, source.algorithm, firmware, e.format, e.sshdPath, host));
  }

  // ----- layered documents

  /** `e` is the entry that the layered documents leave under its canonical reference. */
  ghost predicate LastWord(documents: seq<seq<Entry>>, e: Entry) {
    exists d :: 0 <= d < |documents| && e in documents[d]
                && forall d', f :: d < d' < |documents| && f in documents[d'] ==> Canonical(f) != Canonical(e)
  }

  /** `merge_catalog_file`: the document's entries replace those with the same reference. */
  method MergeOne(earlier: map<string, Entry>, document: seq<Entry>) returns (merged: map<string, Entry>)
    requires Keyed(document)
    ensures forall e :: e in document ==> Canonical(e) in merged && merged[Canonical(e)] == e
    ensures forall k :: k in merged && (forall e :: e in document ==> Canonical(e) != k) ==> k in earlier && merged[k] == earlier[k]
    ensures earlier.Keys <= merged.Keys
  {
    merged := earlier;
    for i := 0 to |document|
      invariant forall e :: e in document[..i] ==> Canonical(e) in merged && merged[Canonical(e)] == e
      invariant forall k :: k in merged && (forall e :: e in document[..i] ==> Canonical(e) != k) ==> k in earlier && merged[k] == earlier[k]
      invariant earlier.Keys <= merged.Keys
    {
      var next := document[i];
      forall e | e in document[..i]
        ensures Canonical(e) != Canonical(next)
      {
        var j :| 0 <= j < i && document[j] == e;
      }
      assert document[..i + 1] == document[..i] + [next];
      assert next in document[..i + 1];
      merged := merged[Canonical(next) := next];
    }
    assert document[..|document|] == document;
  }

  lemma LastWordExtends(documents: seq<seq<Entry>>, document: seq<Entry>, e: Entry)
    requires e in document || (LastWord(documents, e) && forall f :: f in document ==> Canonical(f) != Canonical(e))
    ensures LastWord(documents + [document], e)
  {
    var longer := documents + [document];
    if e in document {
      assert e in longer[|documents|];
    } else {
      var d :| 0 <= d < |documents| && e in documents[d]
               && forall d', f :: d < d' < |documents| && f in documents[d'] ==> Canonical(f) != Canonical(e);
      assert e in longer[d];
    }
  }

  /** `load`: later documents replace entries with the same canonical reference, and no
      reference is lost. No single document repeats a reference. */
  method MergeDocuments(documents: seq<seq<Entry>>) returns (merged: map<string, Entry>)
    requires forall d :: 0 <= d < |documents| ==> Keyed(documents[d])
    ensures forall k :: k in merged ==> Canonical(merged[k]) == k && LastWord(documents, merged[k])
    ensures forall d, e :: 0 <= d < |documents| && e in documents[d] ==> Canonical(e) in merged
  {
    merged := map[];
    for d := 0 to |documents|
      invariant forall k :: k in merged ==> Canonical(merged[k]) == k && LastWord(documents[..d], merged[k])
      invariant forall d', e :: 0 <= d' < d && e in documents[d'] ==> Canonical(e) in merged
    {
      var earlier := merged;
      merged := MergeOne(earlier, documents[d]);
      assert documents[..d + 1] == documents[..d] + [documents[d]];
      forall k | k in merged
        ensures Canonical(merged[k]) == k && LastWord(documents[..d + 1], merged[k])
      {
        LastWordExtends(documents[..d], documents[d], merged[k]);
      }
    }
    assert documents[..|documents|] == documents;
  }

  // ----- loading

  /** A catalog file: absent, not readable or not parsable, or its raw entries. */
  datatype Source = Missing | Unreadable | Parsed(entries: seq<Entry>)

  predicate IsArchitecture(name: string) {
    name == "x86_64" || name == "aarch64"
  }

  predicate IsHexDigit(c: char) {
    '0' <= c <= '9' || 'a' <= c <= 'f' || 'A' <= c <= 'F'
  }

  /** The checks of `convert_arch_source`; `https` says which addresses the URL parser accepts. */
  predicate SourceOk(s: ArchSource, https: string -> bool) {
    && https(s.url)
    && match s.checksum
       case ManifestUrl(url) => https(url)
       case Digest(hex) => s.algorithm.Sha256? && |hex| == 64 && forall i :: 0 <= i < |hex| ==> IsHexDigit(hex[i])
  }

  ghost predicate Accepted(e: Entry, https: string -> bool) {
    && WellNamed(e) && e.arch != map[]
    && (forall a :: a in e.arch ==> IsArchitecture(a) && SourceOk(e.arch[a], https))
    && forall i, j :: 0 <= i < j < |e.aliases| ==> e.aliases[i] != e.aliases[j]
  }

  ghost predicate AcceptedDocument(document: seq<Entry>, https: string -> bool) {
    Keyed(document) && forall i :: 0 <= i < |document| ==> Accepted(document[i], https)
  }

  /** The checks of `convert_entry`. */
  method CheckEntry(e: Entry, https: string -> bool) returns (ok: bool)
    ensures ok <==> Accepted(e, https)
  {
    if !IsReferenceComponent(e.distro) || !IsReferenceComponent(e.version) {
      assert e.version in Selectors(e);
      return false;
    }
    var seen: set<string> := {};
    for i := 0 to |e.aliases|
      invariant forall s :: s in seen <==> s in e.aliases[..i]
      invariant forall j :: 0 <= j < i ==> IsReferenceComponent(e.aliases[j])
      invariant forall j, k :: 0 <= j < k < i ==> e.aliases[j] != e.aliases[k]
    {
      var alias := e.aliases[i];
      if !IsReferenceComponent(alias) {
        assert alias in Selectors(e);
        return false;
      }
      if alias in seen {
        var j :| 0 <= j < i && e.aliases[j] == alias;
        return false;
      }
      assert e.aliases[..i + 1] == e.aliases[..i] + [alias];
      seen := seen + {alias};
    }
    if e.arch == map[] {
      return false;
    }
    var todo := e.arch.Keys;
    while todo != {}
      invariant todo <= e.arch.Keys
      invariant forall a :: a in e.arch && a !in todo ==> IsArchitecture(a) && SourceOk(e.arch[a], https)
      decreases todo
    {
      var a :| a in todo;
      if !IsArchitecture(a) || !SourceOk(e.arch[a], https) {
        return false;
      }
      todo := todo - {a};
    }
    ok := true;
  }

  /** `parse_document`, after the TOML: every entry is checked and no reference repeats. */
  method CheckDocument(document: seq<Entry>, https: string -> bool) returns (ok: bool)
    ensures ok <==> AcceptedDocument(document, https)
  {
    hide Accepted;
    var seen: set<string> := {};
    for i := 0 to |document|
      invariant forall j :: 0 <= j < i ==> Accepted(document[j], https) && Canonical(document[j]) in seen
      invariant forall s :: s in seen ==> exists j :: 0 <= j < i && Canonical(document[j]) == s
      invariant forall j, k :: 0 <= j < k < i ==> Canonical(document[j]) != Canonical(document[k])
    {
      var fine := CheckEntry(document[i], https);
      if !fine {
        return false;
      }
      if Canonical(document[i]) in seen {
        return false;
      }
      seen := seen + {Canonical(document[i])};
    }
    ok := true;
  }

  /** The documents that `load` reads, in order, or nothing when one of them is in error: only
      the user's own catalog may be absent. */
  function Documents(builtIn: Source, config: Source, extras: seq<Source>): Option<seq<seq<Entry>>> {
    Readable([builtIn] + (if config.Missing? then [] else [config]) + extras)
  }

  function Readable(sources: seq<Source>): (r: Option<seq<seq<Entry>>>)
    ensures r.Some? <==> forall i :: 0 <= i < |sources| ==> sources[i].Parsed?
    ensures r.Some? ==> |r.value| == |sources| && forall i :: 0 <= i < |sources| ==> r.value[i] == sources[i].entries
  {
    if forall i :: 0 <= i < |sources| ==> sources[i].Parsed?
    then Some(seq(|sources|, i requires 0 <= i < |sources| => sources[i].entries)) else None
  }

  /** The entries that the documents leave, each once, in some order. */
  ghost predicate IsMerge(documents: seq<seq<Entry>>, entries: seq<Entry>) {
    Keyed(entries) && forall e :: e in entries <==> LastWord(documents, e)
  }

  ghost predicate AllAccepted(documents: seq<seq<Entry>>, https: string -> bool) {
    forall d :: 0 <= d < |documents| ==> AcceptedDocument(documents[d], https)
  }

  lemma OneLastWord(documents: seq<seq<Entry>>, e: Entry, f: Entry, https: string -> bool)
    requires AllAccepted(documents, https) && LastWord(documents, e) && LastWord(documents, f) && Canonical(e) == Canonical(f)
    ensures e == f
  {
    hide Accepted, Canonical;
    var d :| 0 <= d < |documents| && e in documents[d]
             && forall d', x :: d < d' < |documents| && x in documents[d'] ==> Canonical(x) != Canonical(e);
    var c :| 0 <= c < |documents| && f in documents[c]
             && forall d', x :: c < d' < |documents| && x in documents[d'] ==> Canonical(x) != Canonical(f);
    assert c == d && AcceptedDocument(documents[d], https);
    var i :| 0 <= i < |documents[d]| && documents[d][i] == e;
    var j :| 0 <= j < |documents[d]| && documents[d][j] == f;
  }

  /** The merged map visited key by key. */
  method Visit(merged: map<string, Entry>) returns (entries: seq<Entry>)
    requires forall k :: k in merged ==> Canonical(merged[k]) == k
    ensures Keyed(entries)
    ensures forall e :: e in entries <==> Canonical(e) in merged && merged[Canonical(e)] == e
  {
    hide Canonical;
    entries := [];
    var todo := merged.Keys;
    while todo != {}
      invariant todo <= merged.Keys && Keyed(entries)
      invariant forall e :: e in entries <==> Canonical(e) in merged && Canonical(e) !in todo && merged[Canonical(e)] == e
      decreases todo
    {
      var k :| k in todo;
      forall i | 0 <= i < |entries|
        ensures Canonical(entries[i]) != k
      {
        assert entries[i] in entries;
      }
      entries := entries + [merged[k]];
      todo := todo - {k};
    }
  }

  /** Some entry of the source has this reference. */
  ghost predicate Names(source: Source, reference: string) {
    source.Parsed? && exists e :: e in source.entries && Canonical(e) == reference
  }

  ghost predicate NamedFrom(extras: seq<Source>, i: nat, reference: string) {
    exists j :: i <= j < |extras| && Names(extras[j], reference)
  }

  /** Which entries win: of the extra catalogs a later one, any of them over the user's own
      catalog, and that over the built-in one. */
  ghost predicate Wins(builtIn: Source, config: Source, extras: seq<Source>, e: Entry) {
    || (exists i :: 0 <= i < |extras| && extras[i].Parsed? && e in extras[i].entries && !NamedFrom(extras, i + 1, Canonical(e)))
    || (config.Parsed? && e in config.entries && !NamedFrom(extras, 0, Canonical(e)))
    || (builtIn.Parsed? && e in builtIn.entries && !Names(config, Canonical(e)) && !NamedFrom(extras, 0, Canonical(e)))
  }

  lemma {:induction false} LastWordAt(documents: seq<seq<Entry>>, d: nat, e: Entry)
    requires d < |documents| && e in documents[d]
    requires forall c, f :: d < c < |documents| && f in documents[c] ==> Canonical(f) != Canonical(e)
    ensures LastWord(documents, e)
  {
  }

  /** How the documents are laid out: the built-in one, the user's if present, the extra ones. */
  ghost predicate Laid(builtIn: Source, config: Source, extras: seq<Source>, documents: seq<seq<Entry>>) {
    var n := if config.Missing? then 1 else 2;
    && |documents| == n + |extras|
    && builtIn.Parsed? && documents[0] == builtIn.entries
    && (n == 2 ==> config.Parsed? && documents[1] == config.entries)
    && forall i :: 0 <= i < |extras| ==> extras[i].Parsed? && documents[n + i] == extras[i].entries
  }

  lemma DocumentsAreLaid(builtIn: Source, config: Source, extras: seq<Source>)
    requires Documents(builtIn, config, extras).Some?
    ensures Laid(builtIn, config, extras, Documents(builtIn, config, extras).value)
  {
    var sources := [builtIn] + (if config.Missing? then [] else [config]) + extras;
    var n := if config.Missing? then 1 else 2;
    assert sources[0] == builtIn && (n == 2 ==> sources[1] == config);
    assert forall i :: 0 <= i < |extras| ==> sources[n + i] == extras[i];
  }

  /** No extra from `i` on names the reference exactly when no such document has it. */
  lemma NamedInDocuments(builtIn: Source, config: Source, extras: seq<Source>, documents: seq<seq<Entry>>, i: nat, e: Entry)
    requires Laid(builtIn, config, extras, documents)
    ensures var n := if config.Missing? then 1 else 2;
            !NamedFrom(extras, i, Canonical(e)) <==>
            forall c, f :: n + i <= c < |documents| && f in documents[c] ==> Canonical(f) != Canonical(e)
  {
    hide Canonical;
    var n := if config.Missing? then 1 else 2;
    if NamedFrom(extras, i, Canonical(e)) {
      var j :| i <= j < |extras| && Names(extras[j], Canonical(e));
      assert documents[n + j] == extras[j].entries;
    } else {
      forall c, f | n + i <= c < |documents| && f in documents[c]
        ensures Canonical(f) != Canonical(e)
      {
        var j := c - n;
        assert documents[n + j] == extras[j].entries && !Names(extras[j], Canonical(e));
      }
    }
  }

  lemma LastWordIsWinner(builtIn: Source, config: Source, extras: seq<Source>, documents: seq<seq<Entry>>, e: Entry)
    requires Laid(builtIn, config, extras, documents) && LastWord(documents, e)
    ensures Wins(builtIn, config, extras, e)
  {
    hide Canonical, NamedFrom;
    var n := if config.Missing? then 1 else 2;
    var d :| 0 <= d < |documents| && e in documents[d]
             && forall c, f :: d < c < |documents| && f in documents[c] ==> Canonical(f) != Canonical(e);
    if d >= n {
      NamedInDocuments(builtIn, config, extras, documents, d - n + 1, e);
      assert documents[n + (d - n)] == extras[d - n].entries;
    } else {
      NamedInDocuments(builtIn, config, extras, documents, 0, e);
      assert d == 0 && n == 2 ==> !Names(config, Canonical(e));
    }
  }

  lemma WinnerHasLastWord(builtIn: Source, config: Source, extras: seq<Source>, documents: seq<seq<Entry>>, e: Entry)
    requires Laid(builtIn, config, extras, documents) && Wins(builtIn, config, extras, e)
    ensures LastWord(documents, e)
  {
    hide Canonical, NamedFrom, LastWord;
    var n := if config.Missing? then 1 else 2;
    NamedInDocuments(builtIn, config, extras, documents, 0, e);
    if i :| 0 <= i < |extras| && extras[i].Parsed? && e in extras[i].entries && !NamedFrom(extras, i + 1, Canonical(e)) {
      NamedInDocuments(builtIn, config, extras, documents, i + 1, e);
      assert documents[n + i] == extras[i].entries;
      LastWordAt(documents, n + i, e);
    } else if config.Parsed? && e in config.entries && !NamedFrom(extras, 0, Canonical(e)) {
      LastWordAt(documents, 1, e);
    } else {
      LastWordAt(documents, 0, e);
    }
  }

  /** The last word is the winner's. */
  lemma LastWordWins(builtIn: Source, config: Source, extras: seq<Source>, e: Entry)
    requires Documents(builtIn, config, extras).Some?
    ensures LastWord(Documents(builtIn, config, extras).value, e) <==> Wins(builtIn, config, extras, e)
  {
    hide LastWord, Wins, Laid, Documents;
    var documents := Documents(builtIn, config, extras).value;
    DocumentsAreLaid(builtIn, config, extras);
    if LastWord(documents, e) {
      LastWordIsWinner(builtIn, config, extras, documents, e);
    }
    if Wins(builtIn, config, extras, e) {
      WinnerHasLastWord(builtIn, config, extras, documents, e);
    }
  }

  /** `load`: it succeeds exactly when every document is accepted and what they leave is
      valid, and then that is the catalog. */
  method Load(builtIn: Source, config: Source, extras: seq<Source>, https: string -> bool) returns (r: Option<seq<Entry>>)
    ensures r.Some? ==> forall e :: e in r.value <==> Wins(builtIn, config, extras, e)
    ensures Documents(builtIn, config, extras).None? ==> r.None?
    ensures Documents(builtIn, config, extras).Some? ==>
              var documents := Documents(builtIn, config, extras).value;
              && (r.Some? ==> IsMerge(documents, r.value) && Validated(r.value))
              && (r.Some? <==> AllAccepted(documents, https) && exists entries :: IsMerge(documents, entries) && Validated(entries))
  {
    hide AcceptedDocument, LastWord, Wins, Keyed, OneDefaultEach, Unambiguous, WellNamed, Canonical;
    var read := Documents(builtIn, config, extras);
    if read.None? {
      return None;
    }
    var documents := read.value;
    for d := 0 to |documents|
      invariant forall k :: 0 <= k < d ==> AcceptedDocument(documents[k], https)
    {
      var ok := CheckDocument(documents[d], https);
      if !ok {
        return None;
      }
    }
    AcceptedAreKeyed(documents, https);
    var merged := MergeDocuments(documents);
    var entries := Visit(merged);
    VisitIsMerge(documents, merged, entries, https);
    var defaults := ValidateDefaults(entries);
    var names := ValidateReferenceNames(entries);
    MergeIsWellNamed(documents, entries, https);
    forall other | IsMerge(documents, other) && Validated(other)
      ensures Validated(entries)
    {
      SameEntriesSameVerdict(other, entries);
    }
    r := if defaults && names then Some(entries) else None;
    forall e
      ensures LastWord(documents, e) <==> Wins(builtIn, config, extras, e)
    {
      LastWordWins(builtIn, config, extras, e);
    }
  }

  lemma AcceptedAreKeyed(documents: seq<seq<Entry>>, https: string -> bool)
    requires AllAccepted(documents, https)
    ensures forall d :: 0 <= d < |documents| ==> Keyed(documents[d])
  {
    hide Accepted, Canonical;
    forall d | 0 <= d < |documents|
      ensures Keyed(documents[d])
    {
      assert AcceptedDocument(documents[d], https);
    }
  }

  lemma VisitIsMerge(documents: seq<seq<Entry>>, merged: map<string, Entry>, entries: seq<Entry>, https: string -> bool)
    requires AllAccepted(documents, https) && Keyed(entries)
    requires forall k :: k in merged ==> Canonical(merged[k]) == k && LastWord(documents, merged[k])
    requires forall d, e :: 0 <= d < |documents| && e in documents[d] ==> Canonical(e) in merged
    requires forall e :: e in entries <==> Canonical(e) in merged && merged[Canonical(e)] == e
    ensures IsMerge(documents, entries)
  {
    hide Accepted, AcceptedDocument, Canonical;
    forall e
      ensures e in entries <==> LastWord(documents, e)
    {
      if LastWord(documents, e) {
        var d :| 0 <= d < |documents| && e in documents[d];
        OneLastWord(documents, e, merged[Canonical(e)], https);
      }
    }
  }

  lemma MergeIsWellNamed(documents: seq<seq<Entry>>, entries: seq<Entry>, https: string -> bool)
    requires AllAccepted(documents, https) && IsMerge(documents, entries)
    ensures forall e :: e in entries ==> WellNamed(e)
  {
    hide WellNamed, Canonical;
    forall e | e in entries
      ensures WellNamed(e)
    {
      assert LastWord(documents, e);
      var d :| 0 <= d < |documents| && e in documents[d];
      assert AcceptedDocument(documents[d], https);
      var i :| 0 <= i < |documents[d]| && documents[d][i] == e;
      assert Accepted(documents[d][i], https);
    }
  }

  /** Validity does not depend on the order of the entries. */
  lemma SameEntriesSameVerdict(a: seq<Entry>, b: seq<Entry>)
    requires Validated(a) && Keyed(b) && forall e :: e in a <==> e in b
    ensures Validated(b)
  {
    hide WellNamed, Canonical, Unambiguous;
    forall e | e in b
      ensures HasOneDefault(b, e.distro)
    {
      assert HasOneDefault(a, e.distro);
      var i :| IsDefaultAt(a, i, e.distro) && forall m :: IsDefaultAt(a, m, e.distro) ==> m == i;
      assert a[i] in b;
      var j :| 0 <= j < |b| && b[j] == a[i];
      assert IsDefaultAt(b, j, e.distro);
      forall m | IsDefaultAt(b, m, e.distro)
        ensures m == j
      {
        assert b[m] in a;
        var n :| 0 <= n < |a| && a[n] == b[m];
        assert IsDefaultAt(a, n, e.distro);
      }
    }
    SameNames(a, b);
  }

  lemma SameNames(a: seq<Entry>, b: seq<Entry>)
    requires Unambiguous(a) && forall e :: e in a <==> e in b
    ensures Unambiguous(b)
  {
  }
}
