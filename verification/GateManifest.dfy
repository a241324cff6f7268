/** The acceptance gate's manifest: harness records in dependency order, E2E and verify
    items, and what every manifest the gate holds or writes satisfies. */
module GateManifest {
  import opened Options
  import opened Bytes
  import opened Checkpoint

  // ----- the manifest

  /** `source` stands for the harness script's path and expected hash. */
  datatype Spec = Spec(evidence: Name, source: Bytes, e2e: set<nat>, verify: set<nat>)

  datatype Status = Pending | Failed | Passed

  /** A harness's record: `clean` says that its cleanup was recorded as complete, `source`
      which script it ran. */
  datatype Record = Record(status: Status, sum: Option<Bytes>, clean: bool, source: Bytes)

  datatype Item = Item(id: nat, passed: bool, sum: Option<Bytes>)

  datatype GateResult = Running | GatePassed | GateFailed

  /** `identity` stands for repository, release artifact, pins and deferrals. */
  datatype Manifest = Manifest(identity: Bytes, records: seq<Record>, e2e: seq<Item>, verify: seq<Item>,
                               result: GateResult, stamp: nat)

  /** What the gate takes from outside: the digest, JSON, and the two evidence validators. */
  datatype Env = Env(digest: Digest, encode: Manifest -> Bytes, decode: Bytes -> Option<Manifest>,
                     readable: (nat, Bytes) -> bool, passing: (Bytes, nat, Bytes) -> bool)

  ghost predicate EnvOk(env: Env) {
    DigestOk(env.digest) && forall m :: env.decode(env.encode(m)) == Some(m)
  }

  const E2E_ITEMS: nat := 11
  const VERIFY_ITEMS: nat := 17

  function E2eSets(specs: seq<Spec>): (sets: seq<set<nat>>)
    ensures |sets| == |specs| && forall i :: 0 <= i < |specs| ==> sets[i] == specs[i].e2e
  {
    seq(|specs|, i requires 0 <= i < |specs| => specs[i].e2e)
  }

  function VerifySets(specs: seq<Spec>): (sets: seq<set<nat>>)
    ensures |sets| == |specs| && forall i :: 0 <= i < |specs| ==> sets[i] == specs[i].verify
  {
    seq(|specs|, i requires 0 <= i < |specs| => specs[i].verify)
  }

  ghost predicate Owned(sets: seq<set<nat>>, id: nat) {
    exists i :: 0 <= i < |sets| && id in sets[i]
  }

  /** Each identifier from 1 to `count` belongs to exactly one set. */
  ghost predicate Partition(sets: seq<set<nat>>, count: nat) {
    && (forall i, k :: 0 <= i < k < |sets| ==> sets[i] !! sets[k])
    && (forall id :: 1 <= id <= count ==> Owned(sets, id))
  }

  ghost predicate SpecsOk(specs: seq<Spec>) {
    && (forall i, k :: 0 <= i < k < |specs| ==> specs[i].evidence != specs[k].evidence)
    && (forall i :: 0 <= i < |specs| ==>
                      IsPlainName(specs[i].evidence) && specs[i].evidence[0] != 46
                      && specs[i].evidence != ManifestName() && specs[i].evidence != SumsName())
    && Partition(E2eSets(specs), E2E_ITEMS)
    && Partition(VerifySets(specs), VERIFY_ITEMS)
  }

  function FreshItems(count: nat): (items: seq<Item>)
    ensures |items| == count && forall j :: 0 <= j < count ==> items[j] == Item(j + 1, false, None)
  {
    seq(count, j requires 0 <= j < count => Item(j + 1, false, None))
  }

  /** `build_manifest`. */
  function Fresh(specs: seq<Spec>, identity: Bytes): Manifest {
    Manifest(identity, seq(|specs|, i requires 0 <= i < |specs| => Record(Pending, None, false, specs[i].source)), FreshItems(E2E_ITEMS), FreshItems(VERIFY_ITEMS), Running, 0)
  }

  // ----- what every manifest keeps

  /** The passed harnesses form a prefix of the dependency order. */
  ghost predicate Prefix(records: seq<Record>) {
    forall i, j :: 0 <= i < j < |records| && records[j].status.Passed? ==> records[i].status.Passed?
  }

  /** An item is passed exactly when its harness is, with that harness's evidence hash. */
  ghost predicate Follow(items: seq<Item>, sets: seq<set<nat>>, records: seq<Record>) {
    |sets| == |records| &&
    forall j, i :: 0 <= j < |items| && 0 <= i < |sets| && items[j].id in sets[i] ==>
                     && (items[j].passed <==> records[i].status.Passed?)
                     && (items[j].passed ==> items[j].sum == records[i].sum && items[j].sum.Some?)
  }

  ghost predicate Numbered(items: seq<Item>, count: nat) {
    |items| == count && forall j :: 0 <= j < count ==> items[j].id == j + 1
  }

  ghost predicate ManifestOk(specs: seq<Spec>, m: Manifest) {
    && |m.records| == |specs| && Prefix(m.records)
    && Numbered(m.e2e, E2E_ITEMS) && Follow(m.e2e, E2eSets(specs), m.records)
    && Numbered(m.verify, VERIFY_ITEMS) && Follow(m.verify, VerifySets(specs), m.records)
  }

  /** A passed record has its evidence in place: validated, hashed and cleaned up. */
  ghost predicate Backs(spec: Spec, env: Env, identity: Bytes, i: nat, r: Record, files: Files) {
    r.status.Passed? ==>
      && spec.evidence in files && r.clean && r.source == spec.source
      && r.sum == Some(env.digest(files[spec.evidence]))
      && env.passing(identity, i, files[spec.evidence])
  }

  ghost predicate BackedAt(specs: seq<Spec>, env: Env, m: Manifest, files: Files, i: nat)
    requires i < |m.records| && i < |specs|
  {
    Backs(specs[i], env, m.identity, i, m.records[i], files)
  }

  ghost predicate Sound(specs: seq<Spec>, env: Env, m: Manifest, files: Files) {
    ManifestOk(specs, m) && forall i :: 0 <= i < |specs| ==> BackedAt(specs, env, m, files, i)
  }

  ghost predicate AllPassed(m: Manifest) {
    forall i :: 0 <= i < |m.records| ==> m.records[i].status.Passed?
  }

  /** Everything passed, every item with its own harness's evidence hash. */
  ghost predicate Complete(specs: seq<Spec>, m: Manifest) {
    && |m.records| == |specs|
    && (forall i :: 0 <= i < |specs| ==> m.records[i].status.Passed? && m.records[i].sum.Some?)
    && (forall j :: 0 <= j < |m.e2e| ==> m.e2e[j].passed)
    && (forall j :: 0 <= j < |m.verify| ==> m.verify[j].passed)
    && (forall j, i :: 0 <= j < |m.e2e| && 0 <= i < |specs| && m.e2e[j].id in specs[i].e2e ==> m.e2e[j].sum == m.records[i].sum)
    && (forall j, i :: 0 <= j < |m.verify| && 0 <= i < |specs| && m.verify[j].id in specs[i].verify ==> m.verify[j].sum == m.records[i].sum)
  }

  lemma FreshIsSound(specs: seq<Spec>, env: Env, identity: Bytes, files: Files)
    requires SpecsOk(specs)
    ensures Sound(specs, env, Fresh(specs, identity), files)
    ensures |Fresh(specs, identity).e2e| == 11 && |Fresh(specs, identity).verify| == 17 && |Fresh(specs, identity).records| == |specs|
  {
  }

  lemma AllPassedIsComplete(specs: seq<Spec>, env: Env, m: Manifest, files: Files)
    requires SpecsOk(specs) && Sound(specs, env, m, files)
    requires AllPassed(m)
    ensures Complete(specs, m)
  {
    forall i | 0 <= i < |specs|
      ensures m.records[i].sum.Some?
    {
      assert BackedAt(specs, env, m, files, i);
    }
    ItemsPassed(m.e2e, E2eSets(specs), m.records, E2E_ITEMS);
    ItemsPassed(m.verify, VerifySets(specs), m.records, VERIFY_ITEMS);
  }

  lemma ItemsPassed(items: seq<Item>, sets: seq<set<nat>>, records: seq<Record>, count: nat)
    requires Numbered(items, count) && Follow(items, sets, records) && Partition(sets, count)
    requires forall i :: 0 <= i < |records| ==> records[i].status.Passed?
    ensures forall j :: 0 <= j < |items| ==> items[j].passed
    ensures forall j, i :: 0 <= j < |items| && 0 <= i < |sets| && items[j].id in sets[i] ==> items[j].sum == records[i].sum
  {
    forall j | 0 <= j < |items|
      ensures items[j].passed
    {
      assert Owned(sets, items[j].id);
      var i :| 0 <= i < |sets| && items[j].id in sets[i];
    }
  }

  // ----- marking

  function MarkedItems(items: seq<Item>, ids: set<nat>, sum: Bytes): (marked: seq<Item>)
    ensures |marked| == |items|
    ensures forall j :: 0 <= j < |items| ==>
                          marked[j] == if items[j].id in ids then Item(items[j].id, true, Some(sum)) else items[j]
  {
    seq(|items|, j requires 0 <= j < |items| => if items[j].id in ids then Item(items[j].id, true, Some(sum)) else items[j])
  }

  function Marked(specs: seq<Spec>, m: Manifest, i: nat, sum: Bytes): Manifest
    requires i < |specs| == |m.records|
  {
    m.(records := m.records[i := m.records[i].(status := Passed, sum := Some(sum), clean := true)],
    e2e := MarkedItems(m.e2e, specs[i].e2e, sum),
    verify := MarkedItems(m.verify, specs[i].verify, sum))
  }

  method MarkItems(items: seq<Item>, ids: set<nat>, sum: Bytes) returns (marked: seq<Item>)
    ensures marked == MarkedItems(items, ids, sum)
  {
    marked := items;
    for j := 0 to |items|
      invariant |marked| == |items|
      invariant forall k :: 0 <= k < j ==> marked[k] == MarkedItems(items, ids, sum)[k]
      invariant forall k :: j <= k < |items| ==> marked[k] == items[k]
    {
      if marked[j].id in ids {
        marked := marked[j := Item(marked[j].id, true, Some(sum))];
      }
    }
  }

  /** `mark_harness_passed`, for a harness whose cleanup is complete. */
  method MarkHarnessPassed(specs: seq<Spec>, m: Manifest, i: nat, sum: Bytes) returns (m': Manifest)
    requires i < |specs| == |m.records|
    ensures m' == Marked(specs, m, i, sum)
  {
    var e2e := MarkItems(m.e2e, specs[i].e2e, sum);
    var verify := MarkItems(m.verify, specs[i].verify, sum);
    m' := m.(records := m.records[i := m.records[i].(status := Passed, sum := Some(sum), clean := true)], e2e := e2e, verify := verify);
  }

  lemma MarkedFollow(items: seq<Item>, sets: seq<set<nat>>, records: seq<Record>, count: nat, i: nat, sum: Bytes, r: Record)
    requires Follow(items, sets, records) && Partition(sets, count) && i < |sets|
    requires r.status.Passed? && r.sum == Some(sum)
    ensures Follow(MarkedItems(items, sets[i], sum), sets, records[i := r])
  {
  }

  /** Marking the next harness in order keeps the manifest sound. */
  lemma MarkedIsSound(specs: seq<Spec>, env: Env, m: Manifest, files: Files, i: nat)
    requires SpecsOk(specs) && Sound(specs, env, m, files) && i < |specs|
    requires forall j :: 0 <= j < i ==> m.records[j].status.Passed?
    requires specs[i].evidence in files && env.passing(m.identity, i, files[specs[i].evidence])
    requires m.records[i].source == specs[i].source
    ensures Sound(specs, env, Marked(specs, m, i, env.digest(files[specs[i].evidence])), files)
  {
    var sum := env.digest(files[specs[i].evidence]);
    var m' := Marked(specs, m, i, sum);
    MarkedFollow(m.e2e, E2eSets(specs), m.records, E2E_ITEMS, i, sum, m'.records[i]);
    MarkedFollow(m.verify, VerifySets(specs), m.records, VERIFY_ITEMS, i, sum, m'.records[i]);
    forall k | 0 <= k < |specs|
      ensures BackedAt(specs, env, m', files, k)
    {
      assert BackedAt(specs, env, m, files, k);
    }
  }

  /** A failed record replaces one that had not passed. */
  lemma FailedIsSound(specs: seq<Spec>, env: Env, m: Manifest, files: Files, i: nat, r: Record)
    requires Sound(specs, env, m, files) && i < |specs| && !m.records[i].status.Passed? && !r.status.Passed?
    ensures Sound(specs, env, m.(records := m.records[i := r]), files)
  {
    var m' := m.(records := m.records[i := r]);
    forall k | 0 <= k < |specs|
      ensures BackedAt(specs, env, m', files, k)
    {
      assert BackedAt(specs, env, m, files, k);
    }
  }

  /** Soundness depends only on the evidence files. */
  lemma SameEvidenceIsSound(specs: seq<Spec>, env: Env, m: Manifest, files: Files, files': Files)
    requires Sound(specs, env, m, files)
    requires forall i :: 0 <= i < |specs| && m.records[i].status.Passed? && specs[i].evidence in files ==>
                           specs[i].evidence in files' && files'[specs[i].evidence] == files[specs[i].evidence]
    ensures Sound(specs, env, m, files')
  {
    forall i | 0 <= i < |specs|
      ensures BackedAt(specs, env, m, files', i)
    {
      assert BackedAt(specs, env, m, files, i);
    }
  }

  // ----- the concrete harnesses

  function Harnesses(): seq<Spec> {
    [Spec(Ascii("m1.json"), Ascii("scripts/m1-kvm-e2e.py"), {1, 5, 6, 7}, {1, 2, 4, 5, 6, 9, 12}),
     Spec(Ascii("m2.json"), Ascii("scripts/m2-kvm-e2e.py"), {2, 10}, {11, 13, 17}),
     Spec(Ascii("m3.json"), Ascii("scripts/m3-kvm-e2e.py"), {3, 4, 8}, {7, 8, 10, 14, 15, 16}),
     Spec(Ascii("m4.json"), Ascii("scripts/m4-kvm-e2e.py"), {9}, {}),
     Spec(Ascii("m5-catalog.json"), Ascii("scripts/m5-catalog-kvm-e2e.py"), {11}, {3})]
  }

  /** The shipped list meets what the gate's guarantees rest on: distinct evidence names,
      and every E2E and verify item owned by exactly one harness. */
  lemma HarnessesAreOk()
    ensures SpecsOk(Harnesses())
  {
    hide SumsName, ManifestName, Harnesses, IsPlainName, Partition;
    EvidenceNames();
    E2eIsPartitioned();
    VerifyIsPartitioned();
  }

  lemma E2eIsPartitioned()
    ensures Partition(E2eSets(Harnesses()), E2E_ITEMS)
  {
    hide Ascii;
    var sets := E2eSets(Harnesses());
    assert sets == [{1, 5, 6, 7}, {2, 10}, {3, 4, 8}, {9}, {11}];
    forall id | 1 <= id <= E2E_ITEMS
      ensures Owned(sets, id)
    {
      assert id in sets[0] || id in sets[1] || id in sets[2] || id in sets[3] || id in sets[4];
    }
  }

  lemma VerifyIsPartitioned()
    ensures Partition(VerifySets(Harnesses()), VERIFY_ITEMS)
  {
    hide Ascii;
    var a, b, c, d: set<nat>, e := {1, 2, 4, 5, 6, 9, 12}, {11, 13, 17}, {7, 8, 10, 14, 15, 16}, {}, {3};
    var sets := VerifySets(Harnesses());
    assert sets == [a, b, c, d, e];
    assert a !! b && a !! c && a !! e && b !! c && b !! e && c !! e;
    VerifyIsOwned(sets);
  }

  lemma VerifyIsOwned(sets: seq<set<nat>>)
    requires sets == [{1, 2, 4, 5, 6, 9, 12}, {11, 13, 17}, {7, 8, 10, 14, 15, 16}, {}, {3}]
    ensures forall id :: 1 <= id <= VERIFY_ITEMS ==> Owned(sets, id)
  {
    forall id | 1 <= id <= VERIFY_ITEMS
      ensures Owned(sets, id)
    {
      assert id in sets[0] || id in sets[1] || id in sets[2] || id in sets[4];
    }
  }

  lemma EvidenceNames()
    ensures |Harnesses()| == 5
    ensures forall i :: 0 <= i < 5 ==> Harnesses()[i].evidence[1..] != [] && Harnesses()[i].evidence[1] == 49 + i
    ensures forall i :: 0 <= i < 5 ==> IsPlainName(Harnesses()[i].evidence) && Harnesses()[i].evidence[0] == 109
    ensures ManifestName()[0] == 97 && SumsName()[0] == 83
  {
    hide IsPlainName;
    PlainText("m1.json");
    PlainText("m2.json");
    PlainText("m3.json");
    PlainText("m4.json");
    PlainText("m5-catalog.json");
  }

  lemma PlainText(text: string)
    requires |text| > 1
    requires forall i :: 0 <= i < |text| ==> '-' <= text[i] <= '.' || '0' <= text[i] <= '9' || 'a' <= text[i] <= 'z'
    ensures IsPlainName(Ascii(text)) && Ascii(text)[0] == text[0] as int && Ascii(text)[1] == text[1] as int
  {
  }
}
