/** pkg/leaf/status.go: the leaf that commits the log to a status artifact. */
module StatusAnchors {
  import opened Bytes
  import opened Crypto
  import opened Wire

  const KIND: Byte := 3
  const DOMAIN := Ascii("coc-status-v1")

  datatype StatusAnchor = StatusAnchor(
    schemaVersion: U32,
    artifactVersion: U64,
    artifactHash: Hash,
    issuedAt: U64,
    issuerPubKey: Key,
    issuerSignature: Signature)

  function Items(a: StatusAnchor): seq<Item> {
    [Num(1, KIND), Num(4, a.schemaVersion), Num(8, a.artifactVersion), Raw(a.artifactHash),
     Num(8, a.issuedAt), Raw(a.issuerPubKey), Raw(a.issuerSignature)]
  }

  const PLAN := [NumShape(1), NumShape(4), NumShape(8), RawShape(32), NumShape(8), RawShape(32), RawShape(64)]

  /** The leaf bytes stored in the log. */
  function Marshalled(a: StatusAnchor): Bytes {
    Flatten(Items(a))
  }

  function PayloadItems(a: StatusAnchor): seq<Item> {
    [Var(DOMAIN), Num(4, a.schemaVersion), Num(8, a.artifactVersion), Raw(a.artifactHash),
     Num(8, a.issuedAt), Raw(a.issuerPubKey)]
  }

  const PAYLOAD_PLAN := [VarShape, NumShape(4), NumShape(8), RawShape(32), NumShape(8), RawShape(32)]

  /** The bytes covered by the signature. */
  function Payload(a: StatusAnchor): Bytes {
    Flatten(PayloadItems(a))
  }

  predicate Verifies(c: Suite, a: StatusAnchor) {
    c.verify(a.issuerPubKey, Payload(a), a.issuerSignature)
  }

  function Signed(c: Suite, secret: Bytes, a: StatusAnchor): (s: StatusAnchor)
    ensures Sound(c) ==> Verifies(c, s)
  {
    var keyed := a.(issuerPubKey := c.publicKey(secret));
    keyed.(issuerSignature := c.sign(secret, Payload(keyed)))
  }

  lemma FollowsPlan(a: StatusAnchor)
    ensures Matches(Items(a), PLAN) && Matches(PayloadItems(a), PAYLOAD_PLAN)
  {
    WordSizes();
  }

  /** No anchor's leaf is a proper prefix of another's, and equal leaves are
      equal anchors. */
  lemma MarshalledIsPrefixFree(a: StatusAnchor, b: StatusAnchor, r: Bytes, t: Bytes)
    requires Marshalled(a) + r == Marshalled(b) + t
    ensures a == b && r == t
  {
    FollowsPlan(a);
    FollowsPlan(b);
    PlanIsPrefixFree(Items(a), Items(b), PLAN, r, t);
    assert forall i :: 0 <= i < 7 ==> Items(a)[i] == Items(b)[i];
  }

  /** What is signed determines every field but the signature. */
  lemma PayloadDeterminesAnchor(a: StatusAnchor, b: StatusAnchor)
    requires Payload(a) == Payload(b)
    ensures a.(issuerSignature := b.issuerSignature) == b
  {
    FollowsPlan(a);
    FollowsPlan(b);
    PlanIsPrefixFree(PayloadItems(a), PayloadItems(b), PAYLOAD_PLAN, [], []);
    assert forall i :: 0 <= i < 6 ==> PayloadItems(a)[i] == PayloadItems(b)[i];
  }

  /** Signing sets the key and the signature and nothing else. */
  lemma SigningKeepsTheRest(c: Suite, secret: Bytes, a: StatusAnchor)
    ensures var s := Signed(c, secret, a);
      && s.schemaVersion == a.schemaVersion && s.artifactVersion == a.artifactVersion
      && s.artifactHash == a.artifactHash && s.issuedAt == a.issuedAt
      && s.issuerPubKey == c.publicKey(secret) && s.issuerSignature == c.sign(secret, Payload(s))
  {
    var keyed := a.(issuerPubKey := c.publicKey(secret));
    assert PayloadItems(Signed(c, secret, a)) == PayloadItems(keyed);
  }

  /** A signature is good for the anchor it was made for and for no other: an anchor that
      carries the signature of b verifies exactly if it agrees with b in every other field. */
  lemma SignatureCovers(c: Suite, secret: Bytes, a: StatusAnchor, b: StatusAnchor)
    requires Sound(c) && TellsApart(c, secret, Payload(a), Payload(b))
    requires a.issuerPubKey == c.publicKey(secret) && a.issuerSignature == c.sign(secret, Payload(b))
    ensures Verifies(c, a) <==>
      && a.schemaVersion == b.schemaVersion && a.artifactVersion == b.artifactVersion
      && a.artifactHash == b.artifactHash && a.issuedAt == b.issuedAt && a.issuerPubKey == b.issuerPubKey
  {
    if Payload(a) == Payload(b) {
      PayloadDeterminesAnchor(a, b);
    } else {
      assert PayloadItems(a) != PayloadItems(b);
    }
  }

  lemma FirstByte(a: StatusAnchor)
    ensures |Marshalled(a)| > 0 && Marshalled(a)[0] == KIND
  {
    assert BigEndian(1, KIND) == [KIND];
  }

  /** What decoding b must answer, in each case. */
  ghost predicate Decoding(b: Bytes, r: Result<StatusAnchor, DecodeError>) {
    match r
    case Success(a) => b == Marshalled(a)
    case Failure(WrongKind) => b != [] && b[0] != KIND
    case Failure(Truncated) => (b == [] || b[0] == KIND) && forall a :: !(Marshalled(a) <= b)
    case Failure(TrailingBytes) => exists a :: Marshalled(a) < b
  }

  /** Decoding is a function of the bytes: the four cases exclude each other and
      the anchor is determined. */
  lemma DecodingIsUnique(b: Bytes, r: Result<StatusAnchor, DecodeError>, s: Result<StatusAnchor, DecodeError>)
    requires Decoding(b, r) && Decoding(b, s)
    ensures r == s
  {
    if r.Success? {
      Exclusive(b, r.value, s);
    } else if s.Success? {
      Exclusive(b, s.value, r);
    } else if r.error == TrailingBytes {
      var a :| Marshalled(a) < b;
      FirstByte(a);
    } else if s.error == TrailingBytes {
      var a :| Marshalled(a) < b;
      FirstByte(a);
    }
  }

  lemma Exclusive(b: Bytes, a: StatusAnchor, s: Result<StatusAnchor, DecodeError>)
    requires b == Marshalled(a) && Decoding(b, s)
    ensures s == Success(a)
  {
    FirstByte(a);
    assert Marshalled(a) <= b;
    if s.Success? {
      MarshalledIsPrefixFree(a, s.value, [], []);
    } else if s.error == TrailingBytes {
      var a' :| Marshalled(a') < b;
      var rest := PrefixRest(Marshalled(a'), b);
      assert b + [] == b;
      MarshalledIsPrefixFree(a, a', [], rest);
    }
  }

  /** The anchor a leaf decodes to, if it does. */
  ghost function AnchorOf(b: Bytes): (r: Option<StatusAnchor>)
    ensures r.Some? ==> b == Marshalled(r.value)
    ensures r.None? ==> forall a :: b != Marshalled(a)
  {
    if a :| b == Marshalled(a) then Some(a) else None
  }

  lemma AnchorOfMarshalled(a: StatusAnchor)
    ensures AnchorOf(Marshalled(a)) == Some(a)
  {
    MarshalledIsPrefixFree(a, AnchorOf(Marshalled(a)).value, [], []);
  }

  /** Decoding what was marshalled gives the anchor back, always. */
  lemma RoundTrip(a: StatusAnchor, r: Result<StatusAnchor, DecodeError>)
    requires Decoding(Marshalled(a), r)
    ensures r == Success(a)
  {
    Exclusive(Marshalled(a), a, r);
  }

  lemma DecodingIsAnchorOf(b: Bytes, r: Result<StatusAnchor, DecodeError>)
    requires Decoding(b, r)
    ensures AnchorOf(b) == if r.Success? then Some(r.value) else None
  {
    var o := AnchorOf(b);
    if o.Some? {
      Exclusive(b, o.value, r);
    }
  }

  class StatusAnchorLeaf {
    var fields: StatusAnchor

    constructor (fields: StatusAnchor)
      ensures this.fields == fields
    {
      this.fields := fields;
    }

    method SigningPayload() returns (b: Bytes)
      ensures b == Payload(fields)
    {
      var e := new Encoder();
      e.VarBytes(DOMAIN);
      e.U32(fields.schemaVersion);
      e.U64(fields.artifactVersion);
      e.Fixed(fields.artifactHash);
      e.U64(fields.issuedAt);
      e.Fixed(fields.issuerPubKey);
      assert e.items == PayloadItems(fields);
      return e.buf;
    }

    method Sign(c: Suite, issuer: Bytes)
      modifies this
      ensures fields == Signed(c, issuer, old(fields))
    {
      fields := fields.(issuerPubKey := c.publicKey(issuer));
      var payload := SigningPayload();
      fields := fields.(issuerSignature := c.sign(issuer, payload));
    }

    method Verify(c: Suite) returns (ok: bool)
      ensures ok <==> Verifies(c, fields)
    {
      var payload := SigningPayload();
      ok := c.verify(fields.issuerPubKey, payload, fields.issuerSignature);
    }

    method Marshal() returns (b: Bytes)
      ensures b == Marshalled(fields)
    {
      var e := new Encoder();
      e.U8(KIND);
      e.U32(fields.schemaVersion);
      e.U64(fields.artifactVersion);
      e.Fixed(fields.artifactHash);
      e.U64(fields.issuedAt);
      e.Fixed(fields.issuerPubKey);
      e.Fixed(fields.issuerSignature);
      assert e.items == Items(fields);
      return e.buf;
    }
  }

  lemma HopelessMeansTruncated(b: Bytes)
    requires Hopeless(PLAN, b)
    ensures forall a :: !(Marshalled(a) <= b)
  {
    forall a
      ensures !(Marshalled(a) <= b)
    {
      FollowsPlan(a);
    }
  }

  lemma ItemsInOrder(a: StatusAnchor)
    ensures [Num(1, KIND)] + [Num(4, a.schemaVersion)] + [Num(8, a.artifactVersion)] + [Raw(a.artifactHash)] + [Num(8, a.issuedAt)]
         + [Raw(a.issuerPubKey), Raw(a.issuerSignature)] == Items(a)
  {}

  /** Everything after the kind tag. */
  method DecodeFields(d: Decoder) returns (r: Result<StatusAnchor, DecodeError>)
    requires d.Valid() && d.pos == 1 && d.items == [Num(1, KIND)] && d.plan == PLAN
    modifies d
    ensures r.Success? ==> d.pos <= |d.buf| && d.buf[..d.pos] == Marshalled(r.value)
    ensures r.Failure? ==> r.error == Truncated && Hopeless(d.plan, d.buf)
  {
    var a := StatusAnchor(0, 0, ZeroHash(), 0, ZeroKey(), ZeroSignature());
    var schemaVersion :- d.U32();
    a := a.(schemaVersion := schemaVersion);
    var artifactVersion :- d.U64();
    a := a.(artifactVersion := artifactVersion);
    var hash :- d.Fixed(32);
    a := a.(artifactHash := hash);
    var issuedAt :- d.U64();
    a := a.(issuedAt := issuedAt);
    var issuer :- d.KeyAndSignature();
    a := a.(issuerPubKey := issuer.0, issuerSignature := issuer.1);
    ItemsInOrder(a);
    return Success(a);
  }

  method UnmarshalStatusAnchor(b: Bytes) returns (r: Result<StatusAnchor, DecodeError>)
    ensures Decoding(b, r)
  {
    var d := new Decoder(b, PLAN);
    if Hopeless(PLAN, b) {
      HopelessMeansTruncated(b);
    }
    var kind :- d.U8();
    if kind != KIND {
      return Failure(WrongKind);
    }
    var a :- DecodeFields(d);
    var _ :- d.Finish();
    return Success(a);
  }
}
