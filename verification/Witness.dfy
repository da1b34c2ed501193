/** The hypotheses on the uninterpreted libraries can hold: one concrete document
    format and one signature scheme that satisfy them. */
module Witnesses {
  import opened Bytes
  import opened Crypto
  import opened Wire
  import opened Resolution
  import opened Publication
  import opened Recovery
  import opened ReachedStates

  const ENTRY_PLAN := [NumShape(1), VarShape, VarShape, NumShape(8)]
  const HEAD_PLAN := [NumShape(8), NumShape(8), NumShape(8)]
  const HINT_PLAN := [NumShape(8), NumShape(8)]

  function EntryItems(e: Entry): seq<Item> {
    [Num(1, 1), Var(e.leafHash), Var(e.reason), Num(8, e.withdrawnAt)]
  }

  function HeadItems(a: Artifact): seq<Item> {
    [Num(8, a.issuedAt), Num(8, a.logSizeAtIssue), Num(8, a.version)]
  }

  function HintItems(h: Hint): seq<Item> {
    [Num(8, h.version), Num(8, h.anchorIndex)]
  }

  predicate Short(b: Bytes) { |b| < TWO32 }

  /** Each entry after a byte 1, and a byte 0 at the end. */
  function EncodeEntries(es: seq<Entry>): Bytes {
    if es == [] then [0] else Flatten(EntryItems(es[0])) + EncodeEntries(es[1..])
  }

  function EncodeArtifact(a: Artifact): Bytes {
    Flatten(HeadItems(a)) + EncodeEntries(a.withdrawn)
  }

  function EncodeHint(h: Hint): Bytes { Flatten(HintItems(h)) }

  ghost predicate AllShort(es: seq<Entry>) {
    forall e :: e in es ==> Short(e.leafHash) && Short(e.reason)
  }

  lemma EntryStartsWithOne(e: Entry)
    ensures Flatten(EntryItems(e)) != [] && Flatten(EntryItems(e))[0] == 1
  {
    assert BigEndian(1, 1) == [1];
  }

  lemma EntryIsPrefixFree(a: Entry, b: Entry, r: Bytes, t: Bytes)
    requires Short(a.leafHash) && Short(a.reason) && Short(b.leafHash) && Short(b.reason)
    requires Flatten(EntryItems(a)) + r == Flatten(EntryItems(b)) + t
    ensures a == b && r == t
  {
    WordSizes();
    PlanIsPrefixFree(EntryItems(a), EntryItems(b), ENTRY_PLAN, r, t);
    assert forall i :: 0 <= i < 4 ==> EntryItems(a)[i] == EntryItems(b)[i];
  }

  lemma EntriesStart(es: seq<Entry>)
    ensures EncodeEntries(es) != [] && EncodeEntries(es)[0] == if es == [] then 0 else 1
  {
    if es != [] {
      EntryStartsWithOne(es[0]);
    }
  }

  lemma FirstEntriesAgree(a: seq<Entry>, b: seq<Entry>)
    requires a != [] && b != [] && AllShort(a) && AllShort(b) && EncodeEntries(a) == EncodeEntries(b)
    ensures a[0] == b[0] && EncodeEntries(a[1..]) == EncodeEntries(b[1..])
  {
    EntryIsPrefixFree(a[0], b[0], EncodeEntries(a[1..]), EncodeEntries(b[1..]));
  }

  lemma {:induction false} EntriesAreUnique(a: seq<Entry>, b: seq<Entry>)
    requires AllShort(a) && AllShort(b) && EncodeEntries(a) == EncodeEntries(b)
    ensures a == b
  {
    EntriesStart(a);
    EntriesStart(b);
    if a != [] {
      FirstEntriesAgree(a, b);
      EntriesAreUnique(a[1..], b[1..]);
      assert a == [a[0]] + a[1..] && b == [b[0]] + b[1..];
    }
  }

  lemma ArtifactIsUnique(a: Artifact, b: Artifact)
    requires a.schema == b.schema && AllShort(a.withdrawn) && AllShort(b.withdrawn)
    requires EncodeArtifact(a) == EncodeArtifact(b)
    ensures a == b
  {
    WordSizes();
    PlanIsPrefixFree(HeadItems(a), HeadItems(b), HEAD_PLAN, EncodeEntries(a.withdrawn), EncodeEntries(b.withdrawn));
    assert forall i :: 0 <= i < 3 ==> HeadItems(a)[i] == HeadItems(b)[i];
    EntriesAreUnique(a.withdrawn, b.withdrawn);
  }

  lemma HintIsUnique(a: Hint, b: Hint)
    requires EncodeHint(a) == EncodeHint(b)
    ensures a == b
  {
    WordSizes();
    PlanIsPrefixFree(HintItems(a), HintItems(b), HINT_PLAN, [], []);
    assert forall i :: 0 <= i < 2 ==> HintItems(a)[i] == HintItems(b)[i];
  }

  ghost predicate Encodes(a: Artifact, b: Bytes) {
    a.schema == SCHEMA && AllShort(a.withdrawn) && EncodeArtifact(a) == b
  }

  ghost function ParseArtifact(b: Bytes): Result<Artifact, Bytes> {
    if exists a :: Encodes(a, b) then
      var a :| Encodes(a, b);
      Success(a)
    else Failure([])
  }

  ghost function ParseHint(b: Bytes): Result<Hint, Bytes> {
    if exists h :: EncodeHint(h) == b then
      var h :| EncodeHint(h) == b;
      Success(h)
    else Failure([])
  }

  /** Whatever the hash, some publisher meets every hypothesis, with strings as long as
      2^32 - 1. */
  lemma HypothesesCanHold(hash: Bytes -> Hash) returns (p: Issuer)
    ensures p.crypto.hash == hash && Sound(p.crypto) && RoundTrips(p.documents)
    ensures forall a: Artifact :: p.documents.encodeArtifact(a) == EncodeArtifact(a)
    ensures forall b: Bytes :: p.documents.preserved(b) <==> |b| < TWO32
    ensures forall g: Hash, h: Hash :: p.documents.base64(g) == p.documents.base64(h) ==> g == h
  {
    var crypto := Suite(hash, _ => ZeroKey(), (_, _) => ZeroSignature(), (_, _, _) => true);
    var documents := Documents(
      b => Short(b), a => EncodeArtifact(a), b => ParseArtifact(b), h => EncodeHint(h), b => ParseHint(b), h => h);
    forall a: Artifact | a.schema == SCHEMA && Preserved(documents, a.withdrawn)
      ensures documents.parseArtifact(documents.encodeArtifact(a)) == Success(a)
    {
      var b := EncodeArtifact(a);
      assert Encodes(a, b);
      var other := ParseArtifact(b).value;
      ArtifactIsUnique(a, other);
    }
    forall h: Hint
      ensures documents.parseHint(documents.encodeHint(h)) == Success(h)
    {
      var other := ParseHint(EncodeHint(h)).value;
      HintIsUnique(h, other);
    }
    p := Issuer(crypto, documents, [], []);
  }

  function OneSignature(): Signature { seq(64, _ => 1) }

  /** And for any two messages some scheme that is sound tells them apart. */
  lemma SchemesCanTellApart(hash: Bytes -> Hash, m: Bytes, n: Bytes) returns (c: Suite)
    ensures c.hash == hash && Sound(c)
    ensures forall secret: Bytes :: TellsApart(c, secret, m, n) && TellsApart(c, secret, n, m)
  {
    c := Suite(hash, _ => ZeroKey(),
               (_, x) => if x == m then OneSignature() else ZeroSignature(),
               (_, x, s) => s == if x == m then OneSignature() else ZeroSignature());
    assert OneSignature()[0] != ZeroSignature()[0];
  }

  function OneHash(): Hash { seq(32, _ => 1) }

  /** So may those on rewritten artifacts: one publisher's calls from the empty log spoil
      a checkpoint. */
  lemma SpoilingCanHappen(w: Withdrawal) returns (p: Issuer, h: History)
    requires Short(w.leafHashB64) && Short(w.reason)
    ensures Sound(p.crypto) && RoundTrips(p.documents) && Preserved(p.documents, [ToEntry(w)])
    ensures IsHistory(p, h) && |h.calls| == 2 && Republished(p, h.states[1], h.Last(), 0, 1)
    ensures !SameHash(p, h.states[1], h.Last(), 1)
  {
    var first, second := Document(0, 1, 0, [ToEntry(w)]), Document(0, 1, 1, [ToEntry(w)]);
    if EncodeArtifact(first) == EncodeArtifact(second) {
      ArtifactIsUnique(first, second);
    }
    p := HypothesesCanHold(b => if b == EncodeArtifact(first) then OneHash() else ZeroHash());
    assert OneHash()[0] != ZeroHash()[0];
    h := ACheckpointIsSpoiled(p, w, Hint(0, 0));
  }
}
