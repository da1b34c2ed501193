/** What keeps the three leaf kinds, and the three signed payloads, apart. */
module Signing {
  import opened Bytes
  import opened Crypto
  import opened Wire
  import A = Attestations
  import B = IdentityBindings
  import S = StatusAnchors

  /** Payloads that open with different domain strings never agree, whatever
      follows either of them. */
  lemma DomainsSeparate(d: Bytes, xs: seq<Item>, e: Bytes, ys: seq<Item>, r: Bytes, t: Bytes)
    requires |d| < TWO32 && |e| < TWO32 && d != e
    ensures Flatten([Var(d)] + xs) + r != Flatten([Var(e)] + ys) + t
  {
    if Flatten([Var(d)] + xs) + r == Flatten([Var(e)] + ys) + t {
      A.SameSection([Var(d)], [Var(e)], [VarShape], xs, ys, r, t);
    }
  }

  /** No payload of one kind is a payload of another, or a prefix of one: a
      signature over one message type cannot be replayed as another. */
  lemma PayloadKindsAreDisjoint(c: Suite, a: A.Attestation, b: B.IdentityBinding, s: S.StatusAnchor, r: Bytes, t: Bytes)
    ensures A.Payload(c, a) + r != B.Payload(b) + t
    ensures A.Payload(c, a) + r != S.Payload(s) + t
    ensures B.Payload(b) + r != S.Payload(s) + t
  {
    assert B.PayloadItems(b) == [Var(B.DOMAIN)] + B.PayloadItems(b)[1..];
    assert S.PayloadItems(s) == [Var(S.DOMAIN)] + S.PayloadItems(s)[1..];
    var rest := A.PayloadItems(c, a)[1..];
    assert A.PayloadItems(c, a) == [Var(A.DOMAIN)] + rest;
    DomainsSeparate(A.DOMAIN, rest, B.DOMAIN, B.PayloadItems(b)[1..], r, t);
    DomainsSeparate(A.DOMAIN, rest, S.DOMAIN, S.PayloadItems(s)[1..], r, t);
    DomainsSeparate(B.DOMAIN, B.PayloadItems(b)[1..], S.DOMAIN, S.PayloadItems(s)[1..], r, t);
  }

  /** At most one of the three decoders accepts a leaf, and only the one its
      first byte names. */
  lemma LeafKindsAreDisjoint(buf: Bytes, a: Result<A.Attestation, DecodeError>,
                             b: Result<B.IdentityBinding, DecodeError>, s: Result<S.StatusAnchor, DecodeError>)
    requires A.Decoding(buf, a) && B.Decoding(buf, b) && S.Decoding(buf, s)
    ensures a.Success? ==> buf[0] == 1 && b == Failure(WrongKind) && s == Failure(WrongKind)
    ensures b.Success? ==> buf[0] == 2 && a == Failure(WrongKind) && s == Failure(WrongKind)
    ensures s.Success? ==> buf[0] == 3 && a == Failure(WrongKind) && b == Failure(WrongKind)
  {
    AttestationFirstByte(buf, a);
    BindingFirstByte(buf, b);
    AnchorFirstByte(buf, s);
  }

  lemma AttestationFirstByte(buf: Bytes, r: Result<A.Attestation, DecodeError>)
    requires A.Decoding(buf, r)
    ensures buf != [] && buf[0] != 1 <==> r == Failure(WrongKind)
    ensures r.Success? ==> buf != []
  {
    if r.Success? {
      A.FixedOffsets(r.value, buf[29]);
    } else if r.error == TrailingBytes {
      var a: A.Attestation, f: Byte :| a.Fits() && a.Admits(f) && A.Wired(a, f) < buf;
      A.FixedOffsets(a, f);
    }
  }

  lemma BindingFirstByte(buf: Bytes, r: Result<B.IdentityBinding, DecodeError>)
    requires B.Decoding(buf, r)
    ensures buf != [] && buf[0] != 2 <==> r == Failure(WrongKind)
    ensures r.Success? ==> buf != []
  {
    if r.Success? {
      B.FirstByte(r.value);
    } else if r.error == TrailingBytes {
      var b: B.IdentityBinding :| b.Fits() && B.Marshalled(b) < buf;
      B.FirstByte(b);
    }
  }

  lemma AnchorFirstByte(buf: Bytes, r: Result<S.StatusAnchor, DecodeError>)
    requires S.Decoding(buf, r)
    ensures buf != [] && buf[0] != 3 <==> r == Failure(WrongKind)
    ensures r.Success? ==> buf != []
  {
    if r.Success? {
      S.FirstByte(r.value);
    } else if r.error == TrailingBytes {
      var a :| S.Marshalled(a) < buf;
      S.FirstByte(a);
    }
  }
}
