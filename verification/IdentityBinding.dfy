/** pkg/leaf/binding.go: the leaf that maps a signing key to a creator. */
module IdentityBindings {
  import opened Bytes
  import opened Crypto
  import opened Wire

  const KIND: Byte := 2
  const DOMAIN := Ascii("coc-identity-binding-v1")

  datatype IdentityBinding = IdentityBinding(
    creatorId: Bytes,
    authorizedKey: Key,
    keyType: Byte,
    validFrom: U64,
    issuerPubKey: Key,
    issuerSignature: Signature)
  {
    /** The one field with a 32-bit length prefix is not too long for it. */
    predicate Fits() { |creatorId| < TWO32 }
  }

  function Items(b: IdentityBinding): seq<Item> {
    [Num(1, KIND), Var(b.creatorId), Raw(b.authorizedKey), Num(1, b.keyType),
     Num(8, b.validFrom), Raw(b.issuerPubKey), Raw(b.issuerSignature)]
  }

  const PLAN := [NumShape(1), VarShape, RawShape(32), NumShape(1), NumShape(8), RawShape(32), RawShape(64)]

  /** The leaf bytes stored in the log. */
  function Marshalled(b: IdentityBinding): Bytes {
    Flatten(Items(b))
  }

  function PayloadItems(b: IdentityBinding): seq<Item> {
    [Var(DOMAIN), Var(b.creatorId), Raw(b.authorizedKey), Num(1, b.keyType),
     Num(8, b.validFrom), Raw(b.issuerPubKey)]
  }

  const PAYLOAD_PLAN := [VarShape, VarShape, RawShape(32), NumShape(1), NumShape(8), RawShape(32)]

  /** The bytes covered by the signature. */
  function Payload(b: IdentityBinding): Bytes {
    Flatten(PayloadItems(b))
  }

  predicate Verifies(c: Suite, b: IdentityBinding) {
    c.verify(b.issuerPubKey, Payload(b), b.issuerSignature)
  }

  function Signed(c: Suite, secret: Bytes, b: IdentityBinding): (s: IdentityBinding)
    ensures Sound(c) ==> Verifies(c, s)
  {
    var keyed := b.(issuerPubKey := c.publicKey(secret));
    keyed.(issuerSignature := c.sign(secret, Payload(keyed)))
  }

  lemma FollowsPlan(b: IdentityBinding)
    requires b.Fits()
    ensures Matches(Items(b), PLAN) && Matches(PayloadItems(b), PAYLOAD_PLAN)
  {
    WordSizes();
  }

  /** No binding's leaf is a proper prefix of another's, and equal leaves are
      equal bindings. */
  lemma MarshalledIsPrefixFree(a: IdentityBinding, b: IdentityBinding, r: Bytes, t: Bytes)
    requires a.Fits() && b.Fits()
    requires Marshalled(a) + r == Marshalled(b) + t
    ensures a == b && r == t
  {
    FollowsPlan(a);
    FollowsPlan(b);
    PlanIsPrefixFree(Items(a), Items(b), PLAN, r, t);
    assert forall i :: 0 <= i < 7 ==> Items(a)[i] == Items(b)[i];
  }

  /** What is signed determines every field but the signature. */
  lemma PayloadDeterminesBinding(a: IdentityBinding, b: IdentityBinding)
    requires a.Fits() && b.Fits() && Payload(a) == Payload(b)
    ensures a.(issuerSignature := b.issuerSignature) == b
  {
    FollowsPlan(a);
    FollowsPlan(b);
    PlanIsPrefixFree(PayloadItems(a), PayloadItems(b), PAYLOAD_PLAN, [], []);
    assert forall i :: 0 <= i < 6 ==> PayloadItems(a)[i] == PayloadItems(b)[i];
  }

  /** Signing sets the key and the signature and nothing else. */
  lemma SigningKeepsTheRest(c: Suite, secret: Bytes, b: IdentityBinding)
    ensures var s := Signed(c, secret, b);
      && s.creatorId == b.creatorId && s.authorizedKey == b.authorizedKey
      && s.keyType == b.keyType && s.validFrom == b.validFrom
      && s.issuerPubKey == c.publicKey(secret) && s.issuerSignature == c.sign(secret, Payload(s))
  {
    var keyed := b.(issuerPubKey := c.publicKey(secret));
    assert PayloadItems(Signed(c, secret, b)) == PayloadItems(keyed);
  }

  /** A binding that carries the signature of another verifies exactly if it agrees with
      that one in every other field. */
  lemma SignatureCovers(c: Suite, secret: Bytes, a: IdentityBinding, b: IdentityBinding)
    requires Sound(c) && TellsApart(c, secret, Payload(a), Payload(b)) && a.Fits() && b.Fits()
    requires a.issuerPubKey == c.publicKey(secret) && a.issuerSignature == c.sign(secret, Payload(b))
    ensures Verifies(c, a) <==>
      && a.creatorId == b.creatorId && a.authorizedKey == b.authorizedKey && a.keyType == b.keyType
      && a.validFrom == b.validFrom && a.issuerPubKey == b.issuerPubKey
  {
    if Payload(a) == Payload(b) {
      PayloadDeterminesBinding(a, b);
    } else {
      assert PayloadItems(a) != PayloadItems(b);
    }
  }

  lemma FirstByte(b: IdentityBinding)
    ensures |Marshalled(b)| > 0 && Marshalled(b)[0] == KIND
  {
    assert BigEndian(1, KIND) == [KIND];
  }

  /** What decoding buf must answer, in each case. */
  ghost predicate Decoding(buf: Bytes, r: Result<IdentityBinding, DecodeError>) {
    match r
    case Success(b) => b.Fits() && buf == Marshalled(b)
    case Failure(WrongKind) => buf != [] && buf[0] != KIND
    case Failure(Truncated) =>
      (buf == [] || buf[0] == KIND) && forall b: IdentityBinding :: b.Fits() ==> !(Marshalled(b) <= buf)
    case Failure(TrailingBytes) => exists b: IdentityBinding :: b.Fits() && Marshalled(b) < buf
  }

  /** Decoding is a function of the bytes. */
  lemma DecodingIsUnique(buf: Bytes, r: Result<IdentityBinding, DecodeError>, s: Result<IdentityBinding, DecodeError>)
    requires Decoding(buf, r) && Decoding(buf, s)
    ensures r == s
  {
    if r.Success? {
      Exclusive(buf, r.value, s);
    } else if s.Success? {
      Exclusive(buf, s.value, r);
    } else if r.error == TrailingBytes || s.error == TrailingBytes {
      var b: IdentityBinding :| b.Fits() && Marshalled(b) < buf;
      FirstByte(b);
    }
  }

  lemma Exclusive(buf: Bytes, b: IdentityBinding, s: Result<IdentityBinding, DecodeError>)
    requires b.Fits() && buf == Marshalled(b) && Decoding(buf, s)
    ensures s == Success(b)
  {
    FirstByte(b);
    assert Marshalled(b) <= buf;
    if s.Success? {
      MarshalledIsPrefixFree(b, s.value, [], []);
    } else if s.error == TrailingBytes {
      var b': IdentityBinding :| b'.Fits() && Marshalled(b') < buf;
      var rest := PrefixRest(Marshalled(b'), buf);
      assert buf + [] == buf;
      MarshalledIsPrefixFree(b, b', [], rest);
    }
  }

  /** Decoding what was marshalled gives the binding back exactly when its
      variable field fits its length prefix. */
  lemma RoundTrip(b: IdentityBinding, r: Result<IdentityBinding, DecodeError>)
    requires Decoding(Marshalled(b), r)
    ensures r == Success(b) <==> b.Fits()
  {
    if b.Fits() {
      Exclusive(Marshalled(b), b, r);
    }
  }

  class IdentityBindingLeaf {
    var fields: IdentityBinding

    constructor (fields: IdentityBinding)
      ensures this.fields == fields
    {
      this.fields := fields;
    }

    method SigningPayload() returns (b: Bytes)
      ensures b == Payload(fields)
    {
      var e := new Encoder();
      e.VarBytes(DOMAIN);
      e.VarBytes(fields.creatorId);
      e.Fixed(fields.authorizedKey);
      e.U8(fields.keyType);
      e.U64(fields.validFrom);
      e.Fixed(fields.issuerPubKey);
      assert e.items == PayloadItems(fields);
      return e.buf;
    }

    method Sign(c: Suite, issuer: Bytes)
      modifies this
      ensures fields == Signed(c, issuer, old(fields))
    {
      fields := fields.(issuerPubKey := c.publicKey(issuer));
      var payload := SigningPayload();
      fields := fields.(issuerSignature := c.sign(issuer, payload));
    }

    method Verify(c: Suite) returns (ok: bool)
      ensures ok <==> Verifies(c, fields)
    {
      var payload := SigningPayload();
      ok := c.verify(fields.issuerPubKey, payload, fields.issuerSignature);
    }

    method Marshal() returns (b: Bytes)
      ensures b == Marshalled(fields)
    {
      var e := new Encoder();
      e.U8(KIND);
      e.VarBytes(fields.creatorId);
      e.Fixed(fields.authorizedKey);
      e.U8(fields.keyType);
      e.U64(fields.validFrom);
      e.Fixed(fields.issuerPubKey);
      e.Fixed(fields.issuerSignature);
      assert e.items == Items(fields);
      return e.buf;
    }
  }

  lemma HopelessMeansTruncated(buf: Bytes)
    requires Hopeless(PLAN, buf)
    ensures forall b: IdentityBinding :: b.Fits() ==> !(Marshalled(b) <= buf)
  {
    forall b: IdentityBinding | b.Fits()
      ensures !(Marshalled(b) <= buf)
    {
      FollowsPlan(b);
    }
  }

  lemma ItemsInOrder(b: IdentityBinding)
    ensures [Num(1, KIND)] + [Var(b.creatorId)] + [Raw(b.authorizedKey)] + [Num(1, b.keyType)] + [Num(8, b.validFrom)]
         + [Raw(b.issuerPubKey), Raw(b.issuerSignature)] == Items(b)
  {}

  /** Everything after the kind tag. */
  method DecodeFields(d: Decoder) returns (r: Result<IdentityBinding, DecodeError>)
    requires d.Valid() && d.pos == 1 && d.items == [Num(1, KIND)] && d.plan == PLAN
    modifies d
    ensures r.Success? ==> d.pos <= |d.buf| && d.buf[..d.pos] == Marshalled(r.value) && r.value.Fits()
    ensures r.Failure? ==> r.error == Truncated && Hopeless(d.plan, d.buf)
  {
    var b := IdentityBinding([], ZeroKey(), 0, 0, ZeroKey(), ZeroSignature());
    var creatorId :- d.VarBytes();
    b := b.(creatorId := creatorId);
    var authorizedKey :- d.Fixed(32);
    b := b.(authorizedKey := authorizedKey);
    var keyType :- d.U8();
    b := b.(keyType := keyType);
    var validFrom :- d.U64();
    b := b.(validFrom := validFrom);
    var issuer :- d.KeyAndSignature();
    b := b.(issuerPubKey := issuer.0, issuerSignature := issuer.1);
    ItemsInOrder(b);
    return Success(b);
  }

  method UnmarshalIdentityBinding(buf: Bytes) returns (r: Result<IdentityBinding, DecodeError>)
    ensures Decoding(buf, r)
  {
    var d := new Decoder(buf, PLAN);
    if Hopeless(PLAN, buf) {
      HopelessMeansTruncated(buf);
    }
    var kind :- d.U8();
    if kind != KIND {
      return Failure(WrongKind);
    }
    var b :- DecodeFields(d);
    var _ :- d.Finish();
    return Success(b);
  }

  /** The kind tag of a leaf, read without decoding the rest. */
  method PeekKind(b: Bytes) returns (r: Result<Byte, DecodeError>)
    ensures r == if b == [] then Failure(Truncated) else Success(b[0])
  {
    var d := new Decoder(b, [NumShape(1)]);
    r := d.U8();
  }
}
