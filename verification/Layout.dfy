/** The leaves and the signing payloads, byte by byte: every field at its offset, said
    without the encoder, the decoder or their lists of fields. */
module Layouts {
  import opened Bytes
  import opened Crypto
  import opened Wire
  import A = Attestations
  import B = IdentityBindings
  import S = StatusAnchors

  /** A number of so many bytes, each of its weight, the most significant first. */
  predicate NumberAt(b: Bytes, at: nat, width: nat, v: nat) {
    at + width <= |b| && forall j :: at <= j < at + width ==> b[j] == v / Pow256(at + width - 1 - j) % 256
  }

  predicate BytesAt(b: Bytes, at: nat, x: Bytes) {
    at + |x| <= |b| && b[at..at + |x|] == x
  }

  /** Four bytes of length, of which only the low 32 bits are kept, and the bytes. */
  predicate PrefixedAt(b: Bytes, at: nat, x: Bytes) {
    NumberAt(b, at, 4, |x| % 0x1_0000_0000) && BytesAt(b, at + 4, x)
  }

  predicate TextAt(b: Bytes, at: nat, s: string) {
    && NumberAt(b, at, 4, |s|) && at + 4 + |s| <= |b|
    && forall j :: at + 4 <= j < at + 4 + |s| ==> b[j] == s[j - at - 4] as int
  }

  // ----- Reading off one field after the other

  function Size(it: Item): nat {
    match it
    case Num(w, _) => w
    case Raw(x) => |x|
    case Var(x) => 4 + |x|
  }

  predicate FieldAt(b: Bytes, at: nat, it: Item) {
    match it
    case Num(w, v) => NumberAt(b, at, w, v)
    case Raw(x) => BytesAt(b, at, x)
    case Var(x) => PrefixedAt(b, at, x)
  }

  /** From an offset on, these fields and nothing else. */
  predicate Remains(b: Bytes, at: nat, items: seq<Item>) {
    if at == 0 then b == Flatten(items) else b != [] && Remains(b[1..], at - 1, items)
  }

  lemma {:induction false} RemainsFrom(b: Bytes, at: nat, items: seq<Item>)
    ensures Remains(b, at, items) <==> at <= |b| && b[at..] == Flatten(items)
  {
    if at > 0 && b != [] {
      RemainsFrom(b[1..], at - 1, items);
      assert at <= |b| ==> b[1..][at - 1..] == b[at..];
    }
  }

  lemma NumberIsAt(b: Bytes, at: nat, width: nat, v: nat)
    requires BytesAt(b, at, BigEndian(width, v))
    ensures NumberAt(b, at, width, v)
  {
    forall j | at <= j < at + width
      ensures b[j] == v / Pow256(at + width - 1 - j) % 256
    {
      assert b[at..at + width][j - at] == b[j];
      BigEndianByte(width, v, j - at);
    }
  }

  lemma BothAt(b: Bytes, at: nat, x: Bytes, y: Bytes)
    requires BytesAt(b, at, x + y)
    ensures BytesAt(b, at, x) && BytesAt(b, at + |x|, y)
  {
    var all := x + y;
    assert all[..|x|] == x && all[|x|..] == y;
  }

  lemma NumberThenBytes(b: Bytes, at: nat, width: nat, v: nat, x: Bytes)
    requires BytesAt(b, at, BigEndian(width, v) + x)
    ensures NumberAt(b, at, width, v) && BytesAt(b, at + width, x)
  {
    BothAt(b, at, BigEndian(width, v), x);
    NumberIsAt(b, at, width, v);
  }

  lemma LowBits(n: nat)
    ensures Low32(n) == n % 0x1_0000_0000
  {}

  lemma LengthThenBytes(b: Bytes, at: nat, width: nat, length: nat, x: Bytes)
    requires width == 4 && length == |x| % 0x1_0000_0000 && BytesAt(b, at, BigEndian(width, length) + x)
    ensures PrefixedAt(b, at, x)
  {
    NumberThenBytes(b, at, width, length, x);
  }

  lemma PrefixedIsAt(b: Bytes, at: nat, x: Bytes)
    requires BytesAt(b, at, Encode(Var(x)))
    ensures PrefixedAt(b, at, x)
  {
    LowBits(|x|);
    LengthThenBytes(b, at, 4, Low32(|x|), x);
  }

  lemma FieldIsAt(b: Bytes, at: nat, it: Item)
    requires BytesAt(b, at, Encode(it))
    ensures FieldAt(b, at, it)
  {
    match it
    case Num(w, v) => NumberIsAt(b, at, w, v);
    case Raw(x) =>
    case Var(x) => PrefixedIsAt(b, at, x);
  }

  lemma PeelBytes(b: Bytes, at: nat, x: Bytes, rest: Bytes)
    requires at <= |b| && b[at..] == x + rest
    ensures BytesAt(b, at, x) && at + |x| <= |b| && b[at + |x|..] == rest
  {
    assert b[at..at + |x|] == b[at..][..|x|];
    assert b[at + |x|..] == b[at..][|x|..];
  }

  lemma Peel(b: Bytes, at: nat, it: Item, rest: seq<Item>)
    requires Remains(b, at, [it] + rest)
    ensures FieldAt(b, at, it) && Remains(b, at + Size(it), rest)
  {
    RemainsFrom(b, at, [it] + rest);
    RemainsFrom(b, at + Size(it), rest);
    FlattenAppend([it], rest);
    FlattenOne(it);
    PeelBytes(b, at, Encode(it), Flatten(rest));
    FieldIsAt(b, at, it);
  }

  /** Nothing remains: the end. */
  lemma Ends(b: Bytes, at: nat)
    requires Remains(b, at, [])
    ensures |b| == at
  {
    RemainsFrom(b, at, []);
  }

  lemma PeelTwo(b: Bytes, at: nat, x: Item, y: Item, rest: seq<Item>)
    requires Remains(b, at, [x, y] + rest)
    ensures FieldAt(b, at, x) && FieldAt(b, at + Size(x), y) && Remains(b, at + Size(x) + Size(y), rest)
  {
    assert [x, y] + rest == [x] + ([y] + rest);
    Peel(b, at, x, [y] + rest);
    Peel(b, at + Size(x), y, rest);
  }

  lemma PeelThree(b: Bytes, at: nat, x: Item, y: Item, z: Item, rest: seq<Item>)
    requires Remains(b, at, [x, y, z] + rest)
    ensures FieldAt(b, at, x) && FieldAt(b, at + Size(x), y) && FieldAt(b, at + Size(x) + Size(y), z)
    ensures Remains(b, at + Size(x) + Size(y) + Size(z), rest)
  {
    assert [x, y, z] + rest == [x, y] + ([z] + rest);
    PeelTwo(b, at, x, y, [z] + rest);
    Peel(b, at + Size(x) + Size(y), z, rest);
  }

  lemma DomainAt(b: Bytes, at: nat, s: string)
    requires |s| < 256 && forall i :: 0 <= i < |s| ==> (s[i] as int) < 256
    requires PrefixedAt(b, at, Ascii(s))
    ensures TextAt(b, at, s)
  {
    forall j | at + 4 <= j < at + 4 + |s|
      ensures b[j] == s[j - at - 4] as int
    {
      var i := j - at - 4;
      assert Ascii(s)[i] == s[i] as int % 256 == s[i] as int;
      assert b[at + 4..at + 4 + |s|][i] == b[j];
    }
  }

  /** A payload begins with its domain. */
  lemma PeelDomain(b: Bytes, s: string, rest: seq<Item>)
    requires |s| < 256 && forall i :: 0 <= i < |s| ==> (s[i] as int) < 256
    requires b == Flatten([Var(Ascii(s))] + rest)
    ensures TextAt(b, 0, s) && Remains(b, 4 + |s|, rest)
  {
    Starts(b, [Var(Ascii(s))] + rest);
    Peel(b, 0, Var(Ascii(s)), rest);
    DomainAt(b, 0, s);
  }

  lemma Starts(b: Bytes, items: seq<Item>)
    requires b == Flatten(items)
    ensures Remains(b, 0, items)
  {}

  // ----- Status anchors

  /** The fields the leaf and the payload share, from an offset on. */
  predicate AnchorLaidOut(b: Bytes, at: nat, a: S.StatusAnchor) {
    && NumberAt(b, at, 4, a.schemaVersion) && NumberAt(b, at + 4, 8, a.artifactVersion) && BytesAt(b, at + 12, a.artifactHash)
    && NumberAt(b, at + 44, 8, a.issuedAt) && BytesAt(b, at + 52, a.issuerPubKey)
  }

  lemma PeelAnchor(b: Bytes, at: nat, a: S.StatusAnchor, rest: seq<Item>)
    requires Remains(b, at, [Num(4, a.schemaVersion), Num(8, a.artifactVersion)]
                            + ([Raw(a.artifactHash), Num(8, a.issuedAt), Raw(a.issuerPubKey)] + rest))
    ensures AnchorLaidOut(b, at, a) && Remains(b, at + 84, rest)
  {
    PeelTwo(b, at, Num(4, a.schemaVersion), Num(8, a.artifactVersion), [Raw(a.artifactHash), Num(8, a.issuedAt), Raw(a.issuerPubKey)] + rest);
    PeelThree(b, at + 12, Raw(a.artifactHash), Num(8, a.issuedAt), Raw(a.issuerPubKey), rest);
  }

  /** The leaf of an anchor: 149 bytes, with each field at its place. */
  predicate AnchorLeafLaidOut(b: Bytes, a: S.StatusAnchor) {
    |b| == 149 && NumberAt(b, 0, 1, 3) && AnchorLaidOut(b, 1, a) && BytesAt(b, 85, a.issuerSignature)
  }

  lemma AnchorLeaf(a: S.StatusAnchor, b: Bytes)
    requires b == S.Marshalled(a)
    ensures AnchorLeafLaidOut(b, a)
  {
    var shared := [Num(4, a.schemaVersion), Num(8, a.artifactVersion)]
      + ([Raw(a.artifactHash), Num(8, a.issuedAt), Raw(a.issuerPubKey)] + [Raw(a.issuerSignature)]);
    Starts(b, S.Items(a));
    assert S.Items(a) == [Num(1, S.KIND)] + shared;
    Peel(b, 0, Num(1, S.KIND), shared);
    PeelAnchor(b, 1, a, [Raw(a.issuerSignature)]);
    assert [Raw(a.issuerSignature)] == [Raw(a.issuerSignature)] + [];
    Peel(b, 85, Raw(a.issuerSignature), []);
    Ends(b, 149);
  }

  lemma AnchorPayload(a: S.StatusAnchor, b: Bytes)
    requires b == S.Payload(a)
    ensures |b| == 101 && TextAt(b, 0, "coc-status-v1") && AnchorLaidOut(b, 17, a)
  {
    var shared := [Num(4, a.schemaVersion), Num(8, a.artifactVersion)]
      + ([Raw(a.artifactHash), Num(8, a.issuedAt), Raw(a.issuerPubKey)] + []);
    assert S.PayloadItems(a) == [Var(S.DOMAIN)] + shared;
    PeelDomain(b, "coc-status-v1", shared);
    PeelAnchor(b, 17, a, []);
    Ends(b, 101);
  }

  // ----- Identity bindings

  /** The fields the leaf and the payload share, from an offset on. */
  predicate BindingLaidOut(b: Bytes, at: nat, x: B.IdentityBinding) {
    var n := at + 4 + |x.creatorId|;
    && PrefixedAt(b, at, x.creatorId) && BytesAt(b, n, x.authorizedKey) && NumberAt(b, n + 32, 1, x.keyType)
    && NumberAt(b, n + 33, 8, x.validFrom) && BytesAt(b, n + 41, x.issuerPubKey)
  }

  lemma PeelBinding(b: Bytes, at: nat, x: B.IdentityBinding, rest: seq<Item>)
    requires Remains(b, at, [Var(x.creatorId), Raw(x.authorizedKey)] + ([Num(1, x.keyType), Num(8, x.validFrom), Raw(x.issuerPubKey)] + rest))
    ensures BindingLaidOut(b, at, x) && Remains(b, at + 77 + |x.creatorId|, rest)
  {
    PeelTwo(b, at, Var(x.creatorId), Raw(x.authorizedKey), [Num(1, x.keyType), Num(8, x.validFrom), Raw(x.issuerPubKey)] + rest);
    PeelThree(b, at + 36 + |x.creatorId|, Num(1, x.keyType), Num(8, x.validFrom), Raw(x.issuerPubKey), rest);
  }

  /** The leaf of a binding. */
  predicate BindingLeafLaidOut(b: Bytes, x: B.IdentityBinding) {
    && |b| == 142 + |x.creatorId| && NumberAt(b, 0, 1, 2)
    && BindingLaidOut(b, 1, x) && BytesAt(b, 78 + |x.creatorId|, x.issuerSignature)
  }

  lemma BindingLeaf(x: B.IdentityBinding, b: Bytes)
    requires b == B.Marshalled(x)
    ensures BindingLeafLaidOut(b, x)
  {
    var shared := [Var(x.creatorId), Raw(x.authorizedKey)]
      + ([Num(1, x.keyType), Num(8, x.validFrom), Raw(x.issuerPubKey)] + [Raw(x.issuerSignature)]);
    Starts(b, B.Items(x));
    assert B.Items(x) == [Num(1, B.KIND)] + shared;
    Peel(b, 0, Num(1, B.KIND), shared);
    PeelBinding(b, 1, x, [Raw(x.issuerSignature)]);
    assert [Raw(x.issuerSignature)] == [Raw(x.issuerSignature)] + [];
    Peel(b, 78 + |x.creatorId|, Raw(x.issuerSignature), []);
    Ends(b, 142 + |x.creatorId|);
  }

  lemma BindingPayload(x: B.IdentityBinding, b: Bytes)
    requires b == B.Payload(x)
    ensures |b| == 104 + |x.creatorId| && TextAt(b, 0, "coc-identity-binding-v1") && BindingLaidOut(b, 27, x)
  {
    var shared := [Var(x.creatorId), Raw(x.authorizedKey)] + ([Num(1, x.keyType), Num(8, x.validFrom), Raw(x.issuerPubKey)] + []);
    assert B.PayloadItems(x) == [Var(B.DOMAIN)] + shared;
    PeelDomain(b, "coc-identity-binding-v1", shared);
    PeelBinding(b, 27, x, []);
    Ends(b, 104 + |x.creatorId|);
  }

  // ----- Attestations

  /** The length of the hash of the previous event, if it is there. */
  function PrevSize(a: A.Attestation): nat {
    if a.prevEventHash.Some? then 32 else 0
  }

  function LabelsSize(a: A.Attestation): nat {
    12 + |a.eventType| + |a.mediaType| + |a.algorithmId|
  }

  function CoreSize(a: A.Attestation): nat {
    69 + PrevSize(a) + LabelsSize(a) + |a.fuzzyDigest| + |a.exactAlg|
  }

  predicate StartLaidOut(b: Bytes, at: nat, a: A.Attestation, flag: Byte) {
    && NumberAt(b, at, 4, a.schemaVersion) && BytesAt(b, at + 4, a.workId)
    && NumberAt(b, at + 20, 8, a.eventSeq) && NumberAt(b, at + 28, 1, flag)
    && (a.prevEventHash.Some? ==> BytesAt(b, at + 29, a.prevEventHash.value))
  }

  predicate LabelsLaidOut(b: Bytes, at: nat, a: A.Attestation) {
    var media := at + 4 + |a.eventType|;
    PrefixedAt(b, at, a.eventType) && PrefixedAt(b, media, a.mediaType) && PrefixedAt(b, media + 4 + |a.mediaType|, a.algorithmId)
  }

  predicate DigestsLaidOut(b: Bytes, at: nat, a: A.Attestation) {
    var exact := at + 4 + |a.fuzzyDigest|;
    PrefixedAt(b, at, a.fuzzyDigest) && BytesAt(b, exact, a.exactHash) && PrefixedAt(b, exact + 32, a.exactAlg)
  }

  /** The fields the leaf and the payload share, from an offset on. */
  predicate CoreLaidOut(b: Bytes, at: nat, a: A.Attestation, flag: Byte) {
    var labels := at + 29 + PrevSize(a);
    StartLaidOut(b, at, a, flag) && LabelsLaidOut(b, labels, a) && DigestsLaidOut(b, labels + LabelsSize(a), a)
  }

  lemma PeelPrev(b: Bytes, at: nat, a: A.Attestation, rest: seq<Item>)
    requires Remains(b, at, A.Prev(a) + rest)
    ensures a.prevEventHash.Some? ==> BytesAt(b, at, a.prevEventHash.value)
    ensures Remains(b, at + PrevSize(a), rest)
  {
    if a.prevEventHash.Some? {
      Peel(b, at, Raw(a.prevEventHash.value), rest);
    } else {
      assert [] + rest == rest;
    }
  }

  lemma PeelStart(b: Bytes, at: nat, a: A.Attestation, flag: Byte, rest: seq<Item>)
    requires Remains(b, at, A.Start(a, flag) + (A.Prev(a) + rest))
    ensures StartLaidOut(b, at, a, flag) && Remains(b, at + 29 + PrevSize(a), rest)
  {
    var end := A.Prev(a) + rest;
    assert A.Start(a, flag) + end == [Num(4, a.schemaVersion), Raw(a.workId)] + ([Num(8, a.eventSeq), Num(1, flag)] + end);
    PeelTwo(b, at, Num(4, a.schemaVersion), Raw(a.workId), [Num(8, a.eventSeq), Num(1, flag)] + end);
    PeelTwo(b, at + 20, Num(8, a.eventSeq), Num(1, flag), end);
    PeelPrev(b, at + 29, a, rest);
  }

  lemma PeelLabels(b: Bytes, at: nat, a: A.Attestation, rest: seq<Item>)
    requires Remains(b, at, A.Labels(a) + rest)
    ensures LabelsLaidOut(b, at, a) && Remains(b, at + LabelsSize(a), rest)
  {
    PeelThree(b, at, Var(a.eventType), Var(a.mediaType), Var(a.algorithmId), rest);
  }

  lemma PeelDigests(b: Bytes, at: nat, a: A.Attestation, rest: seq<Item>)
    requires Remains(b, at, A.Digests(a) + rest)
    ensures DigestsLaidOut(b, at, a) && Remains(b, at + 40 + |a.fuzzyDigest| + |a.exactAlg|, rest)
  {
    PeelThree(b, at, Var(a.fuzzyDigest), Raw(a.exactHash), Var(a.exactAlg), rest);
  }

  lemma PeelMedia(b: Bytes, at: nat, a: A.Attestation, rest: seq<Item>)
    requires Remains(b, at, A.Labels(a) + (A.Digests(a) + rest))
    ensures LabelsLaidOut(b, at, a) && DigestsLaidOut(b, at + LabelsSize(a), a)
    ensures Remains(b, at + LabelsSize(a) + 40 + |a.fuzzyDigest| + |a.exactAlg|, rest)
  {
    PeelLabels(b, at, a, A.Digests(a) + rest);
    PeelDigests(b, at + LabelsSize(a), a, rest);
  }

  lemma CoreInOrder(s: seq<Item>, p: seq<Item>, l: seq<Item>, d: seq<Item>, rest: seq<Item>)
    ensures (s + (p + (l + d))) + rest == s + (p + (l + (d + rest)))
  {}

  lemma PeelSections(b: Bytes, at: nat, a: A.Attestation, flag: Byte, media: seq<Item>, rest: seq<Item>)
    requires Remains(b, at, A.Start(a, flag) + (A.Prev(a) + media)) && media == A.Labels(a) + (A.Digests(a) + rest)
    ensures CoreLaidOut(b, at, a, flag) && Remains(b, at + CoreSize(a), rest)
  {
    PeelStart(b, at, a, flag, media);
    PeelMedia(b, at + 29 + PrevSize(a), a, rest);
  }

  lemma PeelCore(b: Bytes, at: nat, a: A.Attestation, flag: Byte, rest: seq<Item>)
    requires Remains(b, at, A.Core(a, flag) + rest)
    ensures CoreLaidOut(b, at, a, flag) && Remains(b, at + CoreSize(a), rest)
  {
    CoreInOrder(A.Start(a, flag), A.Prev(a), A.Labels(a), A.Digests(a), rest);
    PeelSections(b, at, a, flag, A.Labels(a) + (A.Digests(a) + rest), rest);
  }

  predicate TrailerLaidOut(b: Bytes, at: nat, a: A.Attestation) {
    && BytesAt(b, at, a.signerPubKey) && BytesAt(b, at + 32, a.signature)
    && NumberAt(b, at + 96, 8, a.submittedAt) && PrefixedAt(b, at + 104, a.toolTrace)
  }

  lemma PeelTrailer(b: Bytes, at: nat, a: A.Attestation)
    requires Remains(b, at, A.Trailer(a))
    ensures |b| == at + 108 + |a.toolTrace| && TrailerLaidOut(b, at, a)
  {
    var end := [Num(8, a.submittedAt), Var(a.toolTrace)];
    assert A.Trailer(a) == [Raw(a.signerPubKey), Raw(a.signature)] + end && end == end + [];
    PeelTwo(b, at, Raw(a.signerPubKey), Raw(a.signature), end);
    PeelTwo(b, at + 96, Num(8, a.submittedAt), Var(a.toolTrace), []);
    Ends(b, at + 108 + |a.toolTrace|);
  }

  /** The whole leaf. */
  predicate AttestationLaidOut(b: Bytes, a: A.Attestation, flag: Byte) {
    var n := 1 + CoreSize(a);
    && |b| == n + 108 + |a.toolTrace| && NumberAt(b, 0, 1, 1)
    && CoreLaidOut(b, 1, a, flag) && TrailerLaidOut(b, n, a)
  }

  lemma AttestationLeaf(b: Bytes, a: A.Attestation, flag: Byte)
    requires b == A.Wired(a, flag)
    ensures AttestationLaidOut(b, a, flag)
  {
    Starts(b, A.Items(a, flag));
    Peel(b, 0, Num(1, A.KIND), A.Core(a, flag) + A.Trailer(a));
    PeelCore(b, 1, a, flag, A.Trailer(a));
    PeelTrailer(b, 1 + CoreSize(a), a);
  }

  /** What is marshalled has the presence byte 1 before the hash of the previous event, and
      0 if there is none. */
  lemma AttestationMarshalled(a: A.Attestation)
    ensures AttestationLaidOut(A.Marshalled(a), a, if a.prevEventHash.Some? then 1 else 0)
  {
    AttestationLeaf(A.Marshalled(a), a, a.Flag());
  }

  /** And what decoding answers lies in the bytes that were decoded, for every answer. */
  lemma DecodedFieldsLieThere(b: Bytes, r: Result<A.Attestation, DecodeError>)
    requires A.Decoding(b, r) && r.Success?
    ensures |b| >= 30 && (b[29] == 1 <==> r.value.prevEventHash.Some?) && AttestationLaidOut(b, r.value, b[29])
  {
    AttestationLeaf(b, r.value, b[29]);
  }

  lemma DecodedBindingLiesThere(b: Bytes, r: Result<B.IdentityBinding, DecodeError>)
    requires B.Decoding(b, r) && r.Success?
    ensures BindingLeafLaidOut(b, r.value)
  {
    BindingLeaf(r.value, b);
  }

  lemma DecodedAnchorLiesThere(b: Bytes, r: Result<S.StatusAnchor, DecodeError>)
    requires S.Decoding(b, r) && r.Success?
    ensures AnchorLeafLaidOut(b, r.value)
  {
    AnchorLeaf(r.value, b);
  }

  lemma PeelPayloadTrailer(c: Suite, b: Bytes, at: nat, a: A.Attestation)
    requires Remains(b, at, A.PayloadTrailer(c, a))
    ensures |b| == at + 72 && BytesAt(b, at, a.signerPubKey) && NumberAt(b, at + 32, 8, a.submittedAt)
    ensures BytesAt(b, at + 40, if a.toolTrace == [] then seq(32, _ => 0) else c.hash(a.toolTrace))
  {
    assert A.PayloadTrailer(c, a) == A.PayloadTrailer(c, a) + [];
    PeelThree(b, at, Raw(a.signerPubKey), Num(8, a.submittedAt), Raw(A.ToolTraceHash(c, a)), []);
    Ends(b, at + 72);
  }

  /** The payload of an attestation. The tool trace is signed by its hash, and the absence
      of one by zeros. */
  lemma AttestationPayload(c: Suite, a: A.Attestation, b: Bytes)
    requires b == A.Payload(c, a)
    ensures var n := 22 + CoreSize(a);
      && |b| == n + 72 && TextAt(b, 0, "coc-attestation-v1")
      && CoreLaidOut(b, 22, a, if a.prevEventHash.Some? then 1 else 0)
      && BytesAt(b, n, a.signerPubKey) && NumberAt(b, n + 32, 8, a.submittedAt)
      && BytesAt(b, n + 40, if a.toolTrace == [] then seq(32, _ => 0) else c.hash(a.toolTrace))
  {
    PeelDomain(b, "coc-attestation-v1", A.Core(a, a.Flag()) + A.PayloadTrailer(c, a));
    PeelCore(b, 22, a, a.Flag(), A.PayloadTrailer(c, a));
    PeelPayloadTrailer(c, b, 22 + CoreSize(a), a);
  }
}
