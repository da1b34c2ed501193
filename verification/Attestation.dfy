/** pkg/leaf/attestation.go: one signed provenance event. */
module Attestations {
  import opened Bytes
  import opened Crypto
  import opened Wire

  const KIND: Byte := 1
  const DOMAIN := Ascii("coc-attestation-v1")

  datatype Attestation = Attestation(
    schemaVersion: U32,
    workId: WorkId,
    eventSeq: U64,
    prevEventHash: Option<Hash>,
    eventType: Bytes,
    mediaType: Bytes,
    algorithmId: Bytes,
    fuzzyDigest: Bytes,
    exactHash: Hash,
    exactAlg: Bytes,
    signerPubKey: Key,
    signature: Signature,
    submittedAt: U64,
    toolTrace: Bytes)
  {
    /** The length-prefixed fields of the signing payload are not too long. */
    predicate PayloadFits() {
      |eventType| < TWO32 && |mediaType| < TWO32 && |algorithmId| < TWO32 && |fuzzyDigest| < TWO32 && |exactAlg| < TWO32
    }

    predicate Fits() { PayloadFits() && |toolTrace| < TWO32 }

    /** The presence byte Marshal writes. */
    function Flag(): Byte {
      if prevEventHash.Some? then 1 else 0
    }

    /** The presence bytes Unmarshal reads as this attestation's: 1 says a hash
        follows, and every other value says none does. */
    predicate Admits(flag: Byte) {
      flag == 1 <==> prevEventHash.Some?
    }
  }

  /** The fields, in sections. `Core` is what the leaf and the signing payload
      have in common. */
  function Start(a: Attestation, flag: Byte): seq<Item> {
    [Num(4, a.schemaVersion), Raw(a.workId), Num(8, a.eventSeq), Num(1, flag)]
  }

  function Prev(a: Attestation): seq<Item> {
    if a.prevEventHash.Some? then [Raw(a.prevEventHash.value)] else []
  }

  function Labels(a: Attestation): seq<Item> {
    [Var(a.eventType), Var(a.mediaType), Var(a.algorithmId)]
  }

  function Digests(a: Attestation): seq<Item> {
    [Var(a.fuzzyDigest), Raw(a.exactHash), Var(a.exactAlg)]
  }

  function Core(a: Attestation, flag: Byte): seq<Item> {
    Start(a, flag) + (Prev(a) + (Labels(a) + Digests(a)))
  }

  function Trailer(a: Attestation): seq<Item> {
    [Raw(a.signerPubKey), Raw(a.signature), Num(8, a.submittedAt), Var(a.toolTrace)]
  }

  function PayloadTrailer(c: Suite, a: Attestation): seq<Item> {
    [Raw(a.signerPubKey), Num(8, a.submittedAt), Raw(ToolTraceHash(c, a))]
  }

  const START_PLAN := [NumShape(4), RawShape(16), NumShape(8), NumShape(1)]
  const LABELS_PLAN := [VarShape, VarShape, VarShape]
  const DIGESTS_PLAN := [VarShape, RawShape(32), VarShape]
  const TRAILER_PLAN := [RawShape(32), RawShape(64), NumShape(8), VarShape]
  const PAYLOAD_TRAILER_PLAN := [RawShape(32), NumShape(8), RawShape(32)]

  function PrevPlan(flag: Byte): seq<Shape> {
    if flag == 1 then [RawShape(32)] else []
  }

  function CorePlan(flag: Byte): seq<Shape> {
    START_PLAN + (PrevPlan(flag) + (LABELS_PLAN + DIGESTS_PLAN))
  }

  function Items(a: Attestation, flag: Byte): seq<Item> {
    [Num(1, KIND)] + (Core(a, flag) + Trailer(a))
  }

  function Plan(flag: Byte): seq<Shape> {
    [NumShape(1)] + (CorePlan(flag) + TRAILER_PLAN)
  }

  /** The leaf bytes of an attestation written with the given presence byte. */
  function Wired(a: Attestation, flag: Byte): Bytes {
    Flatten(Items(a, flag))
  }

  /** The leaf bytes stored in the log. */
  function Marshalled(a: Attestation): Bytes {
    Wired(a, a.Flag())
  }

  function LeafHash(c: Suite, a: Attestation): Hash {
    c.hash(Marshalled(a))
  }

  function ToolTraceHash(c: Suite, a: Attestation): Hash {
    if a.toolTrace == [] then ZeroHash() else c.hash(a.toolTrace)
  }

  function PayloadItems(c: Suite, a: Attestation): seq<Item> {
    [Var(DOMAIN)] + (Core(a, a.Flag()) + PayloadTrailer(c, a))
  }

  /** The bytes covered by the signature. */
  function Payload(c: Suite, a: Attestation): Bytes {
    Flatten(PayloadItems(c, a))
  }

  predicate Verifies(c: Suite, a: Attestation) {
    c.verify(a.signerPubKey, Payload(c, a), a.signature)
  }

  function Signed(c: Suite, secret: Bytes, a: Attestation): (s: Attestation)
    ensures Sound(c) ==> Verifies(c, s)
  {
    var keyed := a.(signerPubKey := c.publicKey(secret));
    keyed.(signature := c.sign(secret, Payload(c, keyed)))
  }

  lemma SectionsFollowPlan(a: Attestation, flag: Byte)
    requires a.PayloadFits() && a.Admits(flag)
    ensures Matches(Start(a, flag), START_PLAN) && Matches(Prev(a), PrevPlan(flag))
    ensures Matches(Labels(a), LABELS_PLAN) && Matches(Digests(a), DIGESTS_PLAN)
  {
    WordSizes();
  }

  lemma FollowsPlan(a: Attestation, flag: Byte)
    requires a.Fits() && a.Admits(flag)
    ensures Matches(Items(a, flag), Plan(flag)) && Matches(Trailer(a), TRAILER_PLAN)
  {
    WordSizes();
    SectionsFollowPlan(a, flag);
    Joined(Labels(a), LABELS_PLAN, Digests(a), DIGESTS_PLAN);
    Joined(Prev(a), PrevPlan(flag), Labels(a) + Digests(a), LABELS_PLAN + DIGESTS_PLAN);
    Joined(Start(a, flag), START_PLAN, Prev(a) + (Labels(a) + Digests(a)), PrevPlan(flag) + (LABELS_PLAN + DIGESTS_PLAN));
    Joined(Core(a, flag), CorePlan(flag), Trailer(a), TRAILER_PLAN);
    Joined([Num(1, KIND)], [NumShape(1)], Core(a, flag) + Trailer(a), CorePlan(flag) + TRAILER_PLAN);
  }

  lemma Joined(xs: seq<Item>, p: seq<Shape>, ys: seq<Item>, q: seq<Shape>)
    requires Matches(xs, p) && Matches(ys, q)
    ensures Matches(xs + ys, p + q)
  {}

  /** If bytes start with two lists of fields of the same plan, the lists and
      what follows them are the same. Used to compare one section at a time. */
  lemma SameSection(xs: seq<Item>, ys: seq<Item>, plan: seq<Shape>, xs': seq<Item>, ys': seq<Item>, r: Bytes, t: Bytes)
    requires Matches(xs, plan) && Matches(ys, plan)
    requires Flatten(xs + xs') + r == Flatten(ys + ys') + t
    ensures xs == ys && Flatten(xs') + r == Flatten(ys') + t
  {
    FlattenAppend(xs, xs');
    FlattenAppend(ys, ys');
    Associative(Flatten(xs), Flatten(xs'), r);
    Associative(Flatten(ys), Flatten(ys'), t);
    PlanIsPrefixFree(xs, ys, plan, Flatten(xs') + r, Flatten(ys') + t);
  }

  /** The two attestations agree on every field of `Core`. */
  ghost predicate SameCore(a: Attestation, b: Attestation) {
    a.(signerPubKey := b.signerPubKey, signature := b.signature, submittedAt := b.submittedAt, toolTrace := b.toolTrace) == b
  }

  lemma CoreIsPrefixFree(a: Attestation, f: Byte, b: Attestation, g: Byte, r: Bytes, t: Bytes)
    requires a.PayloadFits() && b.PayloadFits() && a.Admits(f) && b.Admits(g)
    requires Flatten(Core(a, f)) + r == Flatten(Core(b, g)) + t
    ensures SameCore(a, b) && f == g && r == t
  {
    SectionsFollowPlan(a, f);
    SectionsFollowPlan(b, g);
    var xs, ys := Labels(a) + Digests(a), Labels(b) + Digests(b);
    SameSection(Start(a, f), Start(b, g), START_PLAN, Prev(a) + xs, Prev(b) + ys, r, t);
    assert forall i :: 0 <= i < 4 ==> Start(a, f)[i] == Start(b, g)[i];
    SameSection(Prev(a), Prev(b), PrevPlan(f), xs, ys, r, t);
    assert Prev(a) != [] ==> Prev(a)[0] == Prev(b)[0];
    SameSection(Labels(a), Labels(b), LABELS_PLAN, Digests(a), Digests(b), r, t);
    PlanIsPrefixFree(Digests(a), Digests(b), DIGESTS_PLAN, r, t);
    SameMedia(a, b);
  }

  lemma SameMedia(a: Attestation, b: Attestation)
    requires Labels(a) == Labels(b) && Digests(a) == Digests(b)
    ensures a.eventType == b.eventType && a.mediaType == b.mediaType && a.algorithmId == b.algorithmId
    ensures a.fuzzyDigest == b.fuzzyDigest && a.exactHash == b.exactHash && a.exactAlg == b.exactAlg
  {
    assert forall i :: 0 <= i < 3 ==> Labels(a)[i] == Labels(b)[i] && Digests(a)[i] == Digests(b)[i];
  }

  /** Peels the first field and the core off two leaves or two payloads. */
  lemma AfterCore(x: Item, y: Item, s: Shape, a: Attestation, f: Byte, b: Attestation, g: Byte,
                  xs: seq<Item>, ys: seq<Item>, r: Bytes, t: Bytes)
    requires HasShape(x, s) && HasShape(y, s)
    requires a.PayloadFits() && b.PayloadFits() && a.Admits(f) && b.Admits(g)
    requires Flatten([x] + (Core(a, f) + xs)) + r == Flatten([y] + (Core(b, g) + ys)) + t
    ensures x == y && SameCore(a, b) && f == g && Flatten(xs) + r == Flatten(ys) + t
  {
    SameSection([x], [y], [s], Core(a, f) + xs, Core(b, g) + ys, r, t);
    assert [x][0] == [y][0];
    FlattenAppend(Core(a, f), xs);
    FlattenAppend(Core(b, g), ys);
    Associative(Flatten(Core(a, f)), Flatten(xs), r);
    Associative(Flatten(Core(b, g)), Flatten(ys), t);
    CoreIsPrefixFree(a, f, b, g, Flatten(xs) + r, Flatten(ys) + t);
  }

  /** No attestation's leaf is a proper prefix of another's, and equal leaves are
      equal attestations with equal presence bytes. */
  lemma WiredIsPrefixFree(a: Attestation, f: Byte, b: Attestation, g: Byte, r: Bytes, t: Bytes)
    requires a.Fits() && b.Fits() && a.Admits(f) && b.Admits(g)
    requires Wired(a, f) + r == Wired(b, g) + t
    ensures a == b && f == g && r == t
  {
    WordSizes();
    AfterCore(Num(1, KIND), Num(1, KIND), NumShape(1), a, f, b, g, Trailer(a), Trailer(b), r, t);
    FollowsPlan(a, f);
    FollowsPlan(b, g);
    PlanIsPrefixFree(Trailer(a), Trailer(b), TRAILER_PLAN, r, t);
    assert forall i :: 0 <= i < 4 ==> Trailer(a)[i] == Trailer(b)[i];
  }

  /** What is signed determines every field but the signature and the tool trace,
      and the tool trace up to its hash. */
  lemma PayloadDeterminesAttestation(c: Suite, a: Attestation, b: Attestation)
    requires a.PayloadFits() && b.PayloadFits() && Payload(c, a) == Payload(c, b)
    ensures a.(signature := b.signature, toolTrace := b.toolTrace) == b
    ensures ToolTraceHash(c, a) == ToolTraceHash(c, b)
  {
    WordSizes();
    var xs, ys := PayloadTrailer(c, a), PayloadTrailer(c, b);
    AfterCore(Var(DOMAIN), Var(DOMAIN), VarShape, a, a.Flag(), b, b.Flag(), xs, ys, [], []);
    PlanIsPrefixFree(xs, ys, PAYLOAD_TRAILER_PLAN, [], []);
    SamePayloadTrailer(c, a, b);
  }

  lemma SamePayloadTrailer(c: Suite, a: Attestation, b: Attestation)
    requires PayloadTrailer(c, a) == PayloadTrailer(c, b)
    ensures a.signerPubKey == b.signerPubKey && a.submittedAt == b.submittedAt && ToolTraceHash(c, a) == ToolTraceHash(c, b)
  {
    assert forall i :: 0 <= i < 3 ==> PayloadTrailer(c, a)[i] == PayloadTrailer(c, b)[i];
  }

  /** Signing sets the key and the signature and nothing else. */
  lemma SigningKeepsTheRest(c: Suite, secret: Bytes, a: Attestation)
    ensures var s := Signed(c, secret, a);
      && s.signerPubKey == c.publicKey(secret) && s.signature == c.sign(secret, Payload(c, s))
      && s.(signerPubKey := a.signerPubKey, signature := a.signature) == a
  {
    var keyed := a.(signerPubKey := c.publicKey(secret));
    assert PayloadItems(c, Signed(c, secret, a)) == PayloadItems(c, keyed);
  }

  /** An attestation that carries the signature of another verifies exactly if the two
      agree in every field but the signature and the tool trace, and in the hashes of
      their traces. */
  lemma SignatureCovers(c: Suite, secret: Bytes, a: Attestation, b: Attestation)
    requires Sound(c) && TellsApart(c, secret, Payload(c, a), Payload(c, b)) && a.PayloadFits() && b.PayloadFits()
    requires a.signerPubKey == c.publicKey(secret) && a.signature == c.sign(secret, Payload(c, b))
    ensures Verifies(c, a) <==> a.(signature := b.signature, toolTrace := b.toolTrace) == b && ToolTraceHash(c, a) == ToolTraceHash(c, b)
  {
    if Payload(c, a) == Payload(c, b) {
      PayloadDeterminesAttestation(c, a, b);
    } else {
      assert PayloadItems(c, a) != PayloadItems(c, b);
    }
  }

  /** Where the kind tag and the presence byte sit. */
  lemma FixedOffsets(a: Attestation, flag: Byte)
    ensures |Wired(a, flag)| >= 30 && Wired(a, flag)[0] == KIND && Wired(a, flag)[29] == flag
  {
    var before := [Num(1, KIND)] + [Num(4, a.schemaVersion), Raw(a.workId), Num(8, a.eventSeq)];
    var rest := Prev(a) + (Labels(a) + Digests(a)) + Trailer(a);
    assert Items(a, flag) == before + ([Num(1, flag)] + rest);
    assert Items(a, flag) == [] + ([Num(1, KIND)] + Items(a, flag)[1..]);
    BeforeFlagLength(a);
    ByteAt(before, flag, rest);
    ByteAt([], KIND, Items(a, flag)[1..]);
  }

  lemma ByteAt(before: seq<Item>, v: Byte, rest: seq<Item>)
    ensures var b, k := Flatten(before + ([Num(1, v)] + rest)), |Flatten(before)|; |b| > k && b[k] == v
  {
    FlattenAppend(before, [Num(1, v)] + rest);
    FlattenAppend([Num(1, v)], rest);
    FlattenOne(Num(1, v));
    assert BigEndian(1, v) == [v];
  }

  lemma BeforeFlagLength(a: Attestation)
    ensures |Flatten([Num(1, KIND)] + [Num(4, a.schemaVersion), Raw(a.workId), Num(8, a.eventSeq)])| == 29
  {
    var three := [Num(4, a.schemaVersion), Raw(a.workId), Num(8, a.eventSeq)];
    FlattenAppend([Num(1, KIND)], three);
    FlattenOne(Num(1, KIND));
    assert three == [Num(4, a.schemaVersion)] + ([Raw(a.workId)] + [Num(8, a.eventSeq)]);
    FlattenAppend([Num(4, a.schemaVersion)], [Raw(a.workId)] + [Num(8, a.eventSeq)]);
    FlattenAppend([Raw(a.workId)], [Num(8, a.eventSeq)]);
    FlattenOne(Num(4, a.schemaVersion));
    FlattenOne(Raw(a.workId));
    FlattenOne(Num(8, a.eventSeq));
  }

  /** b is the leaf of a, written with some presence byte that reads as a's. */
  ghost predicate Writes(b: Bytes, a: Attestation, flag: Byte) {
    a.Fits() && a.Admits(flag) && b == Wired(a, flag)
  }

  /** What decoding b must answer, in each case. */
  ghost predicate Decoding(b: Bytes, r: Result<Attestation, DecodeError>) {
    match r
    case Success(a) => |b| >= 30 && Writes(b, a, b[29])
    case Failure(WrongKind) => b != [] && b[0] != KIND
    case Failure(Truncated) =>
      (b == [] || b[0] == KIND) && forall a: Attestation, f: Byte :: a.Fits() && a.Admits(f) ==> !(Wired(a, f) <= b)
    case Failure(TrailingBytes) => exists a: Attestation, f: Byte :: a.Fits() && a.Admits(f) && Wired(a, f) < b
  }

  lemma Exclusive(b: Bytes, a: Attestation, f: Byte, s: Result<Attestation, DecodeError>)
    requires Writes(b, a, f) && Decoding(b, s)
    ensures s == Success(a)
  {
    FixedOffsets(a, f);
    assert Wired(a, f) <= b;
    if s.Success? {
      WiredIsPrefixFree(a, f, s.value, b[29], [], []);
    } else if s.error == TrailingBytes {
      var a': Attestation, f': Byte :| a'.Fits() && a'.Admits(f') && Wired(a', f') < b;
      var rest := PrefixRest(Wired(a', f'), b);
      assert b + [] == b;
      WiredIsPrefixFree(a, f, a', f', [], rest);
    }
  }

  /** Decoding is a function of the bytes. */
  lemma DecodingIsUnique(b: Bytes, r: Result<Attestation, DecodeError>, s: Result<Attestation, DecodeError>)
    requires Decoding(b, r) && Decoding(b, s)
    ensures r == s
  {
    if r.Success? {
      Exclusive(b, r.value, b[29], s);
    } else if s.Success? {
      Exclusive(b, s.value, b[29], r);
    } else if r.error == TrailingBytes || s.error == TrailingBytes {
      var a: Attestation, f: Byte :| a.Fits() && a.Admits(f) && Wired(a, f) < b;
      FixedOffsets(a, f);
    }
  }

  /** Decoding what was marshalled gives the attestation back exactly when its
      variable fields fit their length prefixes. */
  lemma RoundTrip(a: Attestation, r: Result<Attestation, DecodeError>)
    requires Decoding(Marshalled(a), r)
    ensures r == Success(a) <==> a.Fits()
  {
    if a.Fits() {
      Exclusive(Marshalled(a), a, a.Flag(), r);
    }
  }

  /** Marshalling what was decoded gives the bytes back exactly when the presence
      byte is one that Marshal writes. Decoding accepts 254 others. */
  lemma Canonical(b: Bytes, r: Result<Attestation, DecodeError>)
    requires Decoding(b, r) && r.Success?
    ensures Marshalled(r.value) == b <==> b[29] <= 1
  {
    FixedOffsets(r.value, r.value.Flag());
  }

  /** The leaf hash, taken by marshalling again, is the hash of the leaf bytes as
      received, which is what status resolution looks up. */
  lemma LeafHashIsRawHash(c: Suite, b: Bytes, r: Result<Attestation, DecodeError>)
    requires Decoding(b, r) && r.Success? && b[29] <= 1
    ensures LeafHash(c, r.value) == c.hash(b)
  {
    Canonical(b, r);
  }

  /** A leaf that decodes and is not canonical: presence byte 2. */
  lemma NonCanonicalLeaf(b: Bytes, a: Attestation, r: Result<Attestation, DecodeError>)
    requires a.Fits() && a.prevEventHash.None? && b == Wired(a, 2) && Decoding(b, r)
    ensures r == Success(a) && Marshalled(a) != b
  {
    Exclusive(b, a, 2, r);
    FixedOffsets(a, 2);
    Canonical(b, r);
  }

  /** Fields written one after the other are the sections they make up. */
  lemma FourThenTwo(before: seq<Item>, w: Item, x: Item, y: Item, z: Item, prev: seq<Item>, rest: seq<Item>)
    ensures before + [w] + [x] + [y] + [z] + prev + rest == before + ([w, x, y, z] + (prev + rest))
  {}

  lemma ThreeAtTheEnd(head: seq<Item>, core: seq<Item>, w: Item, x: Item, y: Item)
    ensures [] + head + core + [w] + [x] + [y] == head + (core + [w, x, y])
  {}

  lemma FourAtTheEnd(head: seq<Item>, core: seq<Item>, w: Item, x: Item, y: Item, z: Item)
    ensures [] + head + core + [w] + [x] + [y] + [z] == head + (core + [w, x, y, z])
  {}

  class AttestationLeaf {
    var fields: Attestation

    constructor (fields: Attestation)
      ensures this.fields == fields
    {
      this.fields := fields;
    }

    /** The presence byte and the hash, if there is one. */
    method EncodePrev(e: Encoder)
      requires e.Valid()
      modifies e
      ensures e.Valid() && e.items == old(e.items) + [Num(1, fields.Flag())] + Prev(fields)
    {
      if fields.prevEventHash.Some? {
        e.U8(1);
        e.Fixed(fields.prevEventHash.value);
      } else {
        e.U8(0);
      }
    }

    method EncodeMedia(e: Encoder)
      requires e.Valid()
      modifies e
      ensures e.Valid() && e.items == old(e.items) + (Labels(fields) + Digests(fields))
    {
      e.VarBytes(fields.eventType);
      e.VarBytes(fields.mediaType);
      e.VarBytes(fields.algorithmId);
      e.VarBytes(fields.fuzzyDigest);
      e.Fixed(fields.exactHash);
      e.VarBytes(fields.exactAlg);
    }

    /** The fields the leaf and the signing payload share. */
    method EncodeCore(e: Encoder)
      requires e.Valid()
      modifies e
      ensures e.Valid() && e.items == old(e.items) + Core(fields, fields.Flag())
    {
      e.U32(fields.schemaVersion);
      e.Fixed(fields.workId);
      e.U64(fields.eventSeq);
      EncodePrev(e);
      EncodeMedia(e);
      FourThenTwo(old(e.items), Num(4, fields.schemaVersion), Raw(fields.workId), Num(8, fields.eventSeq), Num(1, fields.Flag()),
                  Prev(fields), Labels(fields) + Digests(fields));
    }

    method SigningPayload(c: Suite) returns (b: Bytes)
      ensures b == Payload(c, fields)
    {
      var e := new Encoder();
      e.VarBytes(DOMAIN);
      EncodeCore(e);
      e.Fixed(fields.signerPubKey);
      e.U64(fields.submittedAt);
      e.Fixed(ToolTraceHash(c, fields));
      ThreeAtTheEnd([Var(DOMAIN)], Core(fields, fields.Flag()), Raw(fields.signerPubKey), Num(8, fields.submittedAt),
                    Raw(ToolTraceHash(c, fields)));
      assert e.items == PayloadItems(c, fields);
      return e.buf;
    }

    method Sign(c: Suite, secret: Bytes)
      modifies this
      ensures fields == Signed(c, secret, old(fields))
    {
      fields := fields.(signerPubKey := c.publicKey(secret));
      var payload := SigningPayload(c);
      fields := fields.(signature := c.sign(secret, payload));
    }

    method Verify(c: Suite) returns (ok: bool)
      ensures ok <==> Verifies(c, fields)
    {
      var payload := SigningPayload(c);
      ok := c.verify(fields.signerPubKey, payload, fields.signature);
    }

    method Marshal() returns (b: Bytes)
      ensures b == Marshalled(fields)
    {
      var e := new Encoder();
      e.U8(KIND);
      EncodeCore(e);
      e.Fixed(fields.signerPubKey);
      e.Fixed(fields.signature);
      e.U64(fields.submittedAt);
      e.VarBytes(fields.toolTrace);
      FourAtTheEnd([Num(1, KIND)], Core(fields, fields.Flag()), Raw(fields.signerPubKey), Raw(fields.signature),
                   Num(8, fields.submittedAt), Var(fields.toolTrace));
      assert e.items == Items(fields, fields.Flag());
      return e.buf;
    }
  }

  /** If the plan chosen by the presence byte is hopeless, so is every leaf. */
  lemma HopelessMeansTruncated(b: Bytes, flag: Byte)
    requires Hopeless(Plan(flag), b) && (|b| > 29 ==> b[29] == flag)
    ensures forall a: Attestation, f: Byte :: a.Fits() && a.Admits(f) ==> !(Wired(a, f) <= b)
  {
    forall a: Attestation, f: Byte | a.Fits() && a.Admits(f) && Wired(a, f) <= b
      ensures false
    {
      FixedOffsets(a, f);
      FollowsPlan(a, f);
    }
  }

  method DecodeStart(d: Decoder) returns (r: Result<(Attestation, Byte), DecodeError>)
    requires d.Valid() && d.pos == 1
    requires d.Expects(NumShape(4)) && d.Later(1, RawShape(16)) && d.Later(2, NumShape(8)) && d.Later(3, NumShape(1))
    modifies d
    ensures r.Success? ==> d.Valid() && |d.buf| > 29 && r.value.1 == d.buf[29]
    ensures r.Success? ==> d.items == old(d.items) + Start(r.value.0, r.value.1)
    ensures r.Success? ==> r.value.0.Fits() && r.value.0.prevEventHash.None?
    ensures r.Failure? ==> r.error == Truncated && Hopeless(d.plan, d.buf)
  {
    var a := Attestation(0, ZeroWork(), 0, None, [], [], [], [], ZeroHash(), [], ZeroKey(), ZeroSignature(), 0, []);
    var schemaVersion :- d.U32();
    a := a.(schemaVersion := schemaVersion);
    var workId :- d.Fixed(16);
    a := a.(workId := workId);
    var eventSeq :- d.U64();
    a := a.(eventSeq := eventSeq);
    var hasPrev :- d.U8();
    return Success((a, hasPrev));
  }

  method DecodePrev(d: Decoder, start: Attestation, hasPrev: Byte) returns (r: Result<Attestation, DecodeError>)
    requires d.Valid() && start.Fits() && start.prevEventHash.None?
    requires hasPrev == 1 ==> d.Expects(RawShape(32))
    modifies d
    ensures r.Success? ==> d.Valid() && d.items == old(d.items) + Prev(r.value)
    ensures r.Success? ==> r.value.Fits() && r.value.Admits(hasPrev)
    ensures r.Success? ==> Start(r.value, hasPrev) == Start(start, hasPrev)
    ensures r.Failure? ==> r.error == Truncated && Hopeless(d.plan, d.buf)
  {
    if hasPrev != 1 {
      return Success(start);
    }
    var prev :- d.Fixed(32);
    return Success(start.(prevEventHash := Some(prev)));
  }

  method DecodeLabels(d: Decoder, start: Attestation) returns (r: Result<Attestation, DecodeError>)
    requires d.Valid() && start.Fits()
    requires d.Expects(VarShape) && d.Later(1, VarShape) && d.Later(2, VarShape)
    modifies d
    ensures r.Success? ==> d.Valid() && d.items == old(d.items) + Labels(r.value) && r.value.Fits()
    ensures r.Success? ==> Prev(r.value) == Prev(start) && forall f :: Start(r.value, f) == Start(start, f)
    ensures r.Failure? ==> r.error == Truncated && Hopeless(d.plan, d.buf)
  {
    var a := start;
    var eventType :- d.VarBytes();
    a := a.(eventType := eventType);
    var mediaType :- d.VarBytes();
    a := a.(mediaType := mediaType);
    var algorithmId :- d.VarBytes();
    a := a.(algorithmId := algorithmId);
    return Success(a);
  }

  method DecodeDigests(d: Decoder, start: Attestation) returns (r: Result<Attestation, DecodeError>)
    requires d.Valid() && start.Fits()
    requires d.Expects(VarShape) && d.Later(1, RawShape(32)) && d.Later(2, VarShape)
    modifies d
    ensures r.Success? ==> d.Valid() && d.items == old(d.items) + Digests(r.value) && r.value.Fits()
    ensures r.Success? ==> Prev(r.value) == Prev(start) && forall f :: Start(r.value, f) == Start(start, f)
    ensures r.Success? ==> Labels(r.value) == Labels(start)
    ensures r.Failure? ==> r.error == Truncated && Hopeless(d.plan, d.buf)
  {
    var a := start;
    var fuzzyDigest :- d.VarBytes();
    a := a.(fuzzyDigest := fuzzyDigest);
    var exactHash :- d.Fixed(32);
    a := a.(exactHash := exactHash);
    var exactAlg :- d.VarBytes();
    a := a.(exactAlg := exactAlg);
    return Success(a);
  }

  method DecodeMedia(d: Decoder, start: Attestation) returns (r: Result<Attestation, DecodeError>)
    requires d.Valid() && start.Fits()
    requires d.Expects(VarShape) && d.Later(1, VarShape) && d.Later(2, VarShape)
    requires d.Later(3, VarShape) && d.Later(4, RawShape(32)) && d.Later(5, VarShape)
    requires d.Later(6, RawShape(32)) && d.Later(7, RawShape(64)) && d.Later(8, NumShape(8)) && d.Later(9, VarShape)
    modifies d
    ensures r.Success? ==> d.Valid() && d.items == old(d.items) + (Labels(r.value) + Digests(r.value)) && r.value.Fits()
    ensures r.Success? ==> Prev(r.value) == Prev(start) && forall f :: Start(r.value, f) == Start(start, f)
    ensures r.Success? ==> d.Expects(RawShape(32)) && d.Later(1, RawShape(64)) && d.Later(2, NumShape(8)) && d.Later(3, VarShape)
    ensures r.Failure? ==> r.error == Truncated && Hopeless(d.plan, d.buf)
  {
    var a :- DecodeLabels(d, start);
    a :- DecodeDigests(d, a);
    return Success(a);
  }

  method DecodeTrailer(d: Decoder, start: Attestation) returns (r: Result<Attestation, DecodeError>)
    requires d.Valid() && start.Fits()
    requires d.Expects(RawShape(32)) && d.Later(1, RawShape(64)) && d.Later(2, NumShape(8)) && d.Later(3, VarShape)
    modifies d
    ensures r.Success? ==> d.Valid() && d.items == old(d.items) + Trailer(r.value) && r.value.Fits()
    ensures r.Success? ==> SameCore(r.value, start)
    ensures r.Success? ==> forall f :: Start(r.value, f) == Start(start, f)
    ensures r.Success? ==> Prev(r.value) == Prev(start) && Labels(r.value) == Labels(start) && Digests(r.value) == Digests(start)
    ensures r.Failure? ==> r.error == Truncated && Hopeless(d.plan, d.buf)
  {
    var a := start;
    var signer :- d.KeyAndSignature();
    a := a.(signerPubKey := signer.0, signature := signer.1);
    var submittedAt :- d.U64();
    a := a.(submittedAt := submittedAt);
    var toolTrace :- d.VarBytes();
    a := a.(toolTrace := toolTrace);
    return Success(a);
  }

  /** Where the sections of the plan start. */
  lemma PlanSections(flag: Byte)
    ensures var plan, n := Plan(flag), 5 + |PrevPlan(flag)|;
      && |plan| == n + 10
      && plan[0] == NumShape(1) && plan[1] == NumShape(4) && plan[2] == RawShape(16)
      && plan[3] == NumShape(8) && plan[4] == NumShape(1) && (flag == 1 ==> plan[5] == RawShape(32))
      && plan[n] == plan[n + 1] == plan[n + 2] == plan[n + 3] == plan[n + 5] == VarShape
      && plan[n + 4] == RawShape(32) && plan[n + 6] == RawShape(32) && plan[n + 7] == RawShape(64)
      && plan[n + 8] == NumShape(8) && plan[n + 9] == VarShape
  {}

  /** After the kind tag, up to the hash of the previous event. */
  method DecodeHead(d: Decoder) returns (r: Result<Attestation, DecodeError>)
    requires d.Valid() && d.pos == 1 && d.items == [Num(1, KIND)]
    requires d.plan == Plan(if |d.buf| > 29 then d.buf[29] else 0)
    modifies d
    ensures r.Success? ==> d.Valid() && |d.buf| > 29 && r.value.Fits() && r.value.Admits(d.buf[29])
    ensures r.Success? ==> d.items == [Num(1, KIND)] + Start(r.value, d.buf[29]) + Prev(r.value)
    ensures r.Success? ==> d.Expects(VarShape) && d.Later(1, VarShape) && d.Later(2, VarShape)
    ensures r.Success? ==> d.Later(3, VarShape) && d.Later(4, RawShape(32)) && d.Later(5, VarShape)
    ensures r.Success? ==> d.Later(6, RawShape(32)) && d.Later(7, RawShape(64)) && d.Later(8, NumShape(8)) && d.Later(9, VarShape)
    ensures r.Failure? ==> r.error == Truncated && Hopeless(d.plan, d.buf)
  {
    PlanSections(if |d.buf| > 29 then d.buf[29] else 0);
    var start :- DecodeStart(d);
    var a :- DecodePrev(d, start.0, start.1);
    return Success(a);
  }

  lemma CoreFollows(head: Attestation, a: Attestation, flag: Byte)
    requires Prev(a) == Prev(head) && Start(a, flag) == Start(head, flag)
    ensures [Num(1, KIND)] + Start(head, flag) + Prev(head) + (Labels(a) + Digests(a)) == [Num(1, KIND)] + Core(a, flag)
  {}

  /** After the kind tag, what the leaf shares with the signing payload. */
  method DecodeCore(d: Decoder) returns (r: Result<Attestation, DecodeError>)
    requires d.Valid() && d.pos == 1 && d.items == [Num(1, KIND)]
    requires d.plan == Plan(if |d.buf| > 29 then d.buf[29] else 0)
    modifies d
    ensures r.Success? ==> d.Valid() && |d.buf| > 29 && r.value.Fits() && r.value.Admits(d.buf[29])
    ensures r.Success? ==> d.items == [Num(1, KIND)] + Core(r.value, d.buf[29])
    ensures r.Success? ==> d.Expects(RawShape(32)) && d.Later(1, RawShape(64)) && d.Later(2, NumShape(8)) && d.Later(3, VarShape)
    ensures r.Failure? ==> r.error == Truncated && Hopeless(d.plan, d.buf)
  {
    var head :- DecodeHead(d);
    var a :- DecodeMedia(d, head);
    CoreFollows(head, a, d.buf[29]);
    return Success(a);
  }

  /** Everything after the kind tag. */
  method DecodeFields(d: Decoder) returns (r: Result<Attestation, DecodeError>)
    requires d.Valid() && d.pos == 1 && d.items == [Num(1, KIND)]
    requires d.plan == Plan(if |d.buf| > 29 then d.buf[29] else 0)
    modifies d
    ensures r.Success? ==> |d.buf| > 29 && d.pos <= |d.buf| && r.value.Fits() && r.value.Admits(d.buf[29])
    ensures r.Success? ==> d.buf[..d.pos] == Wired(r.value, d.buf[29])
    ensures r.Failure? ==> r.error == Truncated && Hopeless(d.plan, d.buf)
  {
    var core :- DecodeCore(d);
    var a :- DecodeTrailer(d, core);
    assert Core(a, d.buf[29]) == Core(core, d.buf[29]);
    assert d.items == Items(a, d.buf[29]);
    return Success(a);
  }

  method UnmarshalAttestation(b: Bytes) returns (r: Result<Attestation, DecodeError>)
    ensures Decoding(b, r)
  {
    ghost var flag: Byte := if |b| > 29 then b[29] else 0;
    var d := new Decoder(b, Plan(flag));
    if Hopeless(Plan(flag), b) {
      HopelessMeansTruncated(b, flag);
    }
    var kind :- d.U8();
    if kind != KIND {
      return Failure(WrongKind);
    }
    var a :- DecodeFields(d);
    var _ :- d.Finish();
    return Success(a);
  }
}
