/** The stable de-duplication of the SSH keys a guest accepts. */
module PublicKeys {

  /** A key line as written, and the key data it parses to. */
  datatype Key = Key(rendered: string, data: string)

  predicate HasData(keys: seq<Key>, data: string) {
    exists i :: 0 <= i < |keys| && keys[i].data == data
  }

  /** The keys kept so far, one more at a time. */
  function FirstSeen(own: string, keys: seq<Key>): seq<Key> {
    if keys == [] then []
    else
      var before, key := FirstSeen(own, keys[..|keys| - 1]), keys[|keys| - 1];
      if key.data == own || HasData(before, key.data) then before else before + [key]
  }

  function Rendered(keys: seq<Key>): (lines: seq<string>)
    ensures |lines| == |keys|
    ensures forall i :: 0 <= i < |keys| ==> lines[i] == keys[i].rendered
  {
    seq(|keys|, i requires 0 <= i < |keys| => keys[i].rendered)
  }

  /** `deduplicate_user_keys`. */
  method DeduplicateUserKeys(own: string, keys: seq<Key>) returns (lines: seq<string>)
    ensures lines == Rendered(FirstSeen(own, keys))
  {
    var unique: seq<Key> := [];
    for i := 0 to |keys|
      invariant unique == FirstSeen(own, keys[..i])
    {
      var key := keys[i];
      assert keys[..i + 1][..i] == keys[..i];
      var seen := false;
      for j := 0 to |unique|
        invariant seen <==> HasData(unique[..j], key.data)
      {
        assert unique[..j + 1] == unique[..j] + [unique[j]];
        if unique[j].data == key.data {
          assert unique[..j + 1][j].data == key.data;
          seen := true;
        }
        assert HasData(unique[..j], key.data) ==> HasData(unique[..j + 1], key.data) by {
          if HasData(unique[..j], key.data) {
            var m :| 0 <= m < j && unique[..j][m].data == key.data;
            assert unique[..j + 1][m].data == key.data;
          }
        }
      }
      assert unique[..|unique|] == unique;
      if key.data == own || seen {
        continue;
      }
      unique := unique + [key];
    }
    assert keys[..|keys|] == keys;
    lines := Rendered(unique);
  }

  // ----- what is kept

  /** Exactly the key data other than Firestone's own is represented. */
  lemma {:induction false} KeptData(own: string, keys: seq<Key>, data: string)
    ensures HasData(FirstSeen(own, keys), data) <==> HasData(keys, data) && data != own
  {
    if keys != [] {
      var n := |keys| - 1;
      var before, key := FirstSeen(own, keys[..n]), keys[n];
      KeptData(own, keys[..n], data);
      KeptData(own, keys[..n], key.data);
      DataSnoc(keys[..n], key, data);
      assert keys[..n] + [key] == keys;
      DataSnoc(before, key, data);
    }
  }

  lemma DataSnoc(keys: seq<Key>, key: Key, data: string)
    ensures HasData(keys + [key], data) <==> HasData(keys, data) || key.data == data
  {
    var longer := keys + [key];
    assert longer[|keys|] == key;
    if HasData(keys, data) {
      var i :| 0 <= i < |keys| && keys[i].data == data;
      assert longer[i].data == data;
    }
  }

  ghost predicate Distinct(keys: seq<Key>) {
    forall i, j :: 0 <= i < j < |keys| ==> keys[i].data != keys[j].data
  }

  /** No key data is kept twice, so each is represented exactly once. */
  lemma {:induction false} KeptOnce(own: string, keys: seq<Key>)
    ensures Distinct(FirstSeen(own, keys))
  {
    if keys != [] {
      KeptOnce(own, keys[..|keys| - 1]);
    }
  }

  /** A key is a first occurrence when no earlier key has its data. */
  ghost predicate IsFirst(own: string, keys: seq<Key>, i: nat)
    requires i < |keys|
  {
    keys[i].data != own && !HasData(keys[..i], keys[i].data)
  }

  /** The first occurrences themselves, in input order. */
  ghost function FirstOccurrences(own: string, keys: seq<Key>, n: nat): seq<Key>
    requires n <= |keys|
  {
    if n == 0 then []
    else FirstOccurrences(own, keys, n - 1) + (if IsFirst(own, keys, n - 1) then [keys[n - 1]] else [])
  }

  /** The result is the subsequence of first occurrences: which line is kept and the order of
      the lines depend on the input alone. */
  lemma {:induction false} KeepsFirstOccurrences(own: string, keys: seq<Key>, n: nat)
    requires n <= |keys|
    ensures FirstSeen(own, keys[..n]) == FirstOccurrences(own, keys, n)
  {
    if n > 0 {
      KeepsFirstOccurrences(own, keys, n - 1);
      assert keys[..n][..n - 1] == keys[..n - 1];
      KeptData(own, keys[..n - 1], keys[n - 1].data);
    }
  }

  // ----- what changes nothing

  lemma {:induction false} CleanIsKept(own: string, keys: seq<Key>)
    requires Distinct(keys) && !HasData(keys, own)
    ensures FirstSeen(own, keys) == keys
  {
    if keys != [] {
      var n := |keys| - 1;
      assert keys[..n] + [keys[n]] == keys;
      DataSnoc(keys[..n], keys[n], own);
      CleanIsKept(own, keys[..n]);
    }
  }

  /** Running it again changes nothing. */
  lemma {:induction false} Idempotent(own: string, keys: seq<Key>)
    ensures FirstSeen(own, FirstSeen(own, keys)) == FirstSeen(own, keys)
  {
    KeptOnce(own, keys);
    KeptData(own, keys, own);
    CleanIsKept(own, FirstSeen(own, keys));
  }

  /** Inserting a key whose data is Firestone's or has come before changes nothing. */
  lemma {:induction false} RepeatsChangeNothing(own: string, a: seq<Key>, key: Key, b: seq<Key>)
    requires key.data == own || HasData(a, key.data)
    ensures FirstSeen(own, a + [key] + b) == FirstSeen(own, a + b)
  {
    var longer, shorter := a + [key] + b, a + b;
    if b == [] {
      assert longer == a + [key] && (a + [key])[..|a|] == a && shorter == a;
      KeptData(own, a, key.data);
    } else {
      var n := |b| - 1;
      assert longer[..|longer| - 1] == a + [key] + b[..n];
      assert shorter[..|shorter| - 1] == a + b[..n];
      RepeatsChangeNothing(own, a, key, b[..n]);
    }
  }
}
