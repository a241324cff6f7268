/** The instance identity: a digest of a byte string that must determine the rendered
    user-data and the optional network-config. */
module InstanceId {
  import opened Options
  import opened Bytes
  import Multipart

  function Tag(): Bytes { Ascii("firestone-instance-v1") + [0] }

  /** What is hashed: framed and tagged when there is a network-config, bare otherwise. */
  function Preimage(user: Bytes, network: Option<Bytes>): Bytes {
    match network
    case Some(n) => Tag() + (BigEndian(|user|, 8) + (user + (BigEndian(|n|, 8) + n)))
    case None => user
  }

  const MAX_LENGTH: nat := 0x1_0000_0000_0000_0000

  /** Lengths fit the eight bytes that frame them. */
  predicate Fits(user: Bytes, network: Option<Bytes>) {
    |user| < MAX_LENGTH && (network.Some? ==> |network.value| < MAX_LENGTH)
  }

  lemma SplitEqual(a: Bytes, b: Bytes, c: Bytes, d: Bytes)
    requires a + b == c + d && |a| == |c|
    ensures a == c && b == d
  {
    assert (a + b)[..|a|] == a && (c + d)[..|c|] == c;
    assert (a + b)[|a|..] == b && (c + d)[|c|..] == d;
  }

  lemma SameLength(m: nat, n: nat)
    requires m < MAX_LENGTH && n < MAX_LENGTH && BigEndian(m, 8) == BigEndian(n, 8)
    ensures m == n
  {
    hide BigEndian, FromBigEndian, Pow256;
    Powers();
    BigEndianReadsBack(m, 8);
    BigEndianReadsBack(n, 8);
  }

  /** The framed form, field by field: tag, length and user-data, length and network-config. */
  lemma FramedFields(user: Bytes, network: Bytes)
    requires |user| < MAX_LENGTH && |network| < MAX_LENGTH
    ensures var p := Preimage(user, Some(network));
            var n := 30 + |user|;
            && |p| == n + 8 + |network|
            && p[..22] == Ascii("firestone-instance-v1") + [0]
            && FromBigEndian(p[22..30]) == |user| && p[30..n] == user
            && FromBigEndian(p[n..n + 8]) == |network| && p[n + 8..] == network
  {
    hide BigEndian, FromBigEndian, Pow256, Ascii;
    Powers();
    BigEndianReadsBack(|user|, 8);
    BigEndianReadsBack(|network|, 8);
    assert |Tag()| == 22;
    var p, n := Preimage(user, Some(network)), 30 + |user|;
    assert p[22..30] == BigEndian(|user|, 8) && p[n..n + 8] == BigEndian(|network|, 8);
  }

  /** The framed form determines both of its parts. */
  lemma FramedIsInjective(u: Bytes, m: Bytes, v: Bytes, n: Bytes)
    requires |u| < MAX_LENGTH && |m| < MAX_LENGTH && |v| < MAX_LENGTH && |n| < MAX_LENGTH
    requires Preimage(u, Some(m)) == Preimage(v, Some(n))
    ensures u == v && m == n
  {
    hide Tag, BigEndian;
    var ru, rv := u + (BigEndian(|m|, 8) + m), v + (BigEndian(|n|, 8) + n);
    SplitEqual(Tag(), BigEndian(|u|, 8) + ru, Tag(), BigEndian(|v|, 8) + rv);
    SplitEqual(BigEndian(|u|, 8), ru, BigEndian(|v|, 8), rv);
    SameLength(|u|, |v|);
    SplitEqual(u, BigEndian(|m|, 8) + m, v, BigEndian(|n|, 8) + n);
    SplitEqual(BigEndian(|m|, 8), m, BigEndian(|n|, 8), n);
  }

  lemma TagStartsWithF(u: Bytes, n: Bytes)
    ensures var p := Preimage(u, Some(n)); p != [] && p[0] == 102
  {
    hide BigEndian;
    assert "firestone-instance-v1"[0] == 'f';
    assert Tag()[0] == 102;
  }

  /** The top header that every rendered document begins with. */
  function Header(): Bytes {
    Multipart.TopStart() + (Multipart.Boundary() + Multipart.TopEnd())
  }

  /** Rendered user-data is empty or begins with the multipart header. */
  lemma RenderedIsEmptyOrHeader(parts: seq<Multipart.Part>)
    ensures var d := Multipart.Document(parts);
            if parts == [] then d == [] else Header() <= d
  {
    hide Multipart.TopStart, Multipart.Boundary, Multipart.TopEnd;
    if parts != [] {
      var rest := Multipart.DocumentIsTail(parts);
      Associate(Multipart.Boundary(), Multipart.TopEnd(), rest);
      Associate(Multipart.TopStart(), Multipart.Boundary() + Multipart.TopEnd(), rest);
      assert Header() <= Header() + rest;
    }
  }

  lemma HeaderStartsWithC()
    ensures |Header()| > 0 && Header()[0] == 67
  {
    hide Multipart.Boundary, Multipart.TopEnd;
    assert "Content-Type: multipart/mixed; boundary=\""[0] == 'C';
    assert Multipart.TopStart()[0] == 67;
  }

  /** Over everything the renderer can emit, the hashed bytes determine the inputs. */
  lemma PreimageIsInjective(p: seq<Multipart.Part>, m: Option<Bytes>, q: seq<Multipart.Part>, n: Option<Bytes>)
    requires Fits(Multipart.Document(p), m) && Fits(Multipart.Document(q), n)
    ensures Preimage(Multipart.Document(p), m) == Preimage(Multipart.Document(q), n) <==>
            Multipart.Document(p) == Multipart.Document(q) && m == n
  {
    hide Multipart.Document, Header;
    var u, v := Multipart.Document(p), Multipart.Document(q);
    HeaderStartsWithC();
    RenderedIsEmptyOrHeader(p);
    RenderedIsEmptyOrHeader(q);
    if m.Some? {
      TagStartsWithF(u, m.value);
    }
    if n.Some? {
      TagStartsWithF(v, n.value);
    }
    if Preimage(u, m) == Preimage(v, n) && m.Some? && n.Some? {
      FramedIsInjective(u, m.value, v, n.value);
    }
  }

  /** The guarantee rests on what the renderer emits: user-data that is itself a framed
      preimage would collide. */
  lemma TaggedUserDataCollides(user: Bytes, network: Bytes)
    ensures Preimage(Preimage(user, Some(network)), None) == Preimage(user, Some(network))
  {
  }

  // ----- the identifier

  function Hex(d: int): (c: Byte)
    requires 0 <= d < 16
    ensures c == if d < 10 then 48 + d else 87 + d
  {
    Ascii("0123456789abcdef")[d]
  }

  function HexOf(b: Bytes): (h: Bytes)
    ensures |h| == 2 * |b|
  {
    if b == [] then [] else HexOf(b[..|b| - 1]) + [Hex(b[|b| - 1] / 16), Hex(b[|b| - 1] % 16)]
  }

  /** Each byte gives its high digit and then its low one. */
  lemma {:induction false} HexAt(b: Bytes, i: nat)
    requires i < |b|
    ensures HexOf(b)[2 * i] == (if b[i] / 16 < 10 then 48 + b[i] / 16 else 87 + b[i] / 16)
    ensures HexOf(b)[2 * i + 1] == (if b[i] % 16 < 10 then 48 + b[i] % 16 else 87 + b[i] % 16)
  {
    var n := |b| - 1;
    if i < n {
      HexAt(b[..n], i);
      assert b[..n][i] == b[i];
    }
  }

  lemma HexByteIsInjective(x: Byte, y: Byte)
    requires Hex(x / 16) == Hex(y / 16) && Hex(x % 16) == Hex(y % 16)
    ensures x == y
  {
    hide Hex;
    assert x / 16 == y / 16 && x % 16 == y % 16;
  }

  lemma {:induction false} HexIsInjective(a: Bytes, b: Bytes)
    requires |a| == |b| && HexOf(a) == HexOf(b)
    ensures a == b
  {
    hide Hex;
    if a != [] {
      var n := |a| - 1;
      var ta, tb := [Hex(a[n] / 16), Hex(a[n] % 16)], [Hex(b[n] / 16), Hex(b[n] % 16)];
      SplitEqual(HexOf(a[..n]), ta, HexOf(b[..n]), tb);
      assert ta[0] == tb[0] && ta[1] == tb[1];
      HexByteIsInjective(a[n], b[n]);
      HexIsInjective(a[..n], b[..n]);
      assert a == a[..n] + [a[n]] && b == b[..n] + [b[n]];
    }
  }

  /** The identifier, given the digest of the preimage. */
  function Identifier(name: Bytes, digest: Bytes): Bytes
    requires |digest| >= 6
  {
    Ascii("iid-") + (name + (Ascii("-") + HexOf(digest[..6])))
  }

  /** The hex loop of `instance_id`. */
  method FormatIdentifier(name: Bytes, digest: Bytes) returns (id: Bytes)
    requires |digest| >= 6
    ensures id == Identifier(name, digest)
  {
    var prefix: Bytes := [];
    for i := 0 to 6
      invariant prefix == HexOf(digest[..i])
    {
      assert digest[..i + 1][..i] == digest[..i];
      var high := prefix + [Hex(digest[i] / 16)];
      prefix := high + [Hex(digest[i] % 16)];
    }
    id := Ascii("iid-") + (name + (Ascii("-") + prefix));
  }

  /** The identifier, field by field. */
  lemma IdentifierFields(name: Bytes, digest: Bytes)
    requires |digest| >= 6
    ensures var id := Identifier(name, digest);
            && |id| == 4 + |name| + 1 + 12 && id[..4] == Ascii("iid-") && id[4..4 + |name|] == name && id[4 + |name|] == 45
            && forall i :: 0 <= i < 6 ==> id[5 + |name| + 2 * i] == Hex(digest[i] / 16) && id[6 + |name| + 2 * i] == Hex(digest[i] % 16)
  {
    hide HexOf, Hex;
    var id, h := Identifier(name, digest), HexOf(digest[..6]);
    assert "-"[0] == '-';
    assert id[5 + |name|..] == h;
    forall i | 0 <= i < 6
      ensures id[5 + |name| + 2 * i] == Hex(digest[i] / 16) && id[6 + |name| + 2 * i] == Hex(digest[i] % 16)
    {
      HexAt(digest[..6], i);
      assert digest[..6][i] == digest[i];
      assert id[5 + |name| + 2 * i] == h[2 * i] && id[6 + |name| + 2 * i] == h[2 * i + 1];
    }
  }

  /** An identifier determines the machine name and the digest bytes it shows. */
  lemma IdentifierIsInjective(name: Bytes, digest: Bytes, name': Bytes, digest': Bytes)
    requires |digest| >= 6 && |digest'| >= 6
    ensures Identifier(name, digest) == Identifier(name', digest') <==> name == name' && digest[..6] == digest'[..6]
  {
    hide HexOf;
    if Identifier(name, digest) == Identifier(name', digest') {
      var t, t' := Ascii("-") + HexOf(digest[..6]), Ascii("-") + HexOf(digest'[..6]);
      SplitEqual(Ascii("iid-"), name + t, Ascii("iid-"), name' + t');
      SplitEqual(name, t, name', t');
      SplitEqual(Ascii("-"), HexOf(digest[..6]), Ascii("-"), HexOf(digest'[..6]));
      HexIsInjective(digest[..6], digest'[..6]);
    }
  }

  /** Two machines get the same identity exactly when name, user-data and network-config
      agree, provided the shown digest bytes of their two preimages do not collide. */
  lemma SameIdentityMeansSameInputs(digest: Bytes -> Bytes, name: Bytes, p: seq<Multipart.Part>, m: Option<Bytes>,
                                    name': Bytes, q: seq<Multipart.Part>, n: Option<Bytes>)
    requires Fits(Multipart.Document(p), m) && Fits(Multipart.Document(q), n)
    requires forall b :: |digest(b)| == 32
    requires var x, y := Preimage(Multipart.Document(p), m), Preimage(Multipart.Document(q), n);
             digest(x)[..6] == digest(y)[..6] ==> x == y
    ensures Identifier(name, digest(Preimage(Multipart.Document(p), m))) ==
            Identifier(name', digest(Preimage(Multipart.Document(q), n))) <==>
            name == name' && Multipart.Document(p) == Multipart.Document(q) && m == n
  {
    hide Multipart.Document, Preimage, Identifier;
    var x, y := Preimage(Multipart.Document(p), m), Preimage(Multipart.Document(q), n);
    IdentifierIsInjective(name, digest(x), name', digest(y));
    PreimageIsInjective(p, m, q, n);
  }
}
