/** What a resolution trusts and answers, in terms of bytes, keys and signatures alone. */
module Trust {
  import opened Bytes
  import opened Crypto
  import opened StatusAnchors
  import opened Resolution
  import opened ResolutionProperties

  /** A pinned key vouches for the anchor: the scheme takes its signature for its payload. */
  predicate Vouched(v: Verifier, a: StatusAnchor) {
    a.issuerPubKey in v.roots && v.crypto.verify(a.issuerPubKey, Payload(a), a.issuerSignature)
  }

  /** A leaf counts as a trusted anchor exactly if it is the leaf of one that a pinned key
      vouches for, and as an untrusted one exactly if it is the leaf of any other. */
  lemma TrustedExactlyWhenVouched(v: Verifier, raw: Bytes, a: StatusAnchor)
    ensures TrustedAnchor(v, raw) == Some(a) <==> raw == Marshalled(a) && Vouched(v, a)
    ensures raw == Marshalled(a) ==> (Untrusted(v, raw) <==> !Vouched(v, a))
    ensures Untrusted(v, raw) ==> exists b :: raw == Marshalled(b)
  {
    AnchorOfMarshalled(a);
  }

  // ----- Tampering

  /** The anchor carries the signature its key made for another one, which differs from
      it in some other field. */
  ghost predicate Tampered(c: Suite, secret: Bytes, a: StatusAnchor, original: StatusAnchor) {
    && a.issuerPubKey == c.publicKey(secret) && a.issuerSignature == c.sign(secret, Payload(original))
    && TellsApart(c, secret, Payload(a), Payload(original))
    && (|| a.schemaVersion != original.schemaVersion || a.artifactVersion != original.artifactVersion
        || a.artifactHash != original.artifactHash || a.issuedAt != original.issuedAt
        || a.issuerPubKey != original.issuerPubKey)
  }

  /** Such an anchor is never trusted, whatever keys are pinned. */
  lemma TamperedIsNotTrusted(v: Verifier, secret: Bytes, a: StatusAnchor, original: StatusAnchor)
    requires Sound(v.crypto) && Tampered(v.crypto, secret, a, original)
    ensures !Vouched(v, a) && TrustedAnchor(v, Marshalled(a)) == None && Untrusted(v, Marshalled(a))
  {
    SignatureCovers(v.crypto, secret, a, original);
    TrustedExactlyWhenVouched(v, Marshalled(a), a);
    AnchorOfMarshalled(a);
  }

  // ----- Any fetcher

  lemma {:induction false} ServedByABundle(f: Fetcher, pass: nat, b: nat, logSize: U64, raw: Bytes)
    requires LeavesFrom(f, pass, b, logSize).Success? && raw in LeavesFrom(f, pass, b, logSize).value
    ensures exists n: nat :: n * BUNDLE < logSize && f.bundle(pass, n).Success? && raw in f.bundle(pass, n).value
    decreases logSize - b * BUNDLE
  {
    if raw !in f.bundle(pass, b).value {
      ServedByABundle(f, pass, b + 1, logSize, raw);
    }
  }

  /** Whatever is served, the anchor acted on was served, and a pinned key vouches for it. */
  lemma SelectedIsVouched(v: Verifier, f: Fetcher, logSize: U64)
    requires FinalScan(v, f, logSize).Success? && FinalScan(v, f, logSize).value.newest.Some?
    ensures var a := FinalScan(v, f, logSize).value.newest.value;
      && Vouched(v, a)
      && exists pass: nat, b: nat :: f.bundle(pass, b).Success? && Marshalled(a) in f.bundle(pass, b).value
  {
    var a := FinalScan(v, f, logSize).value.newest.value;
    var start := StartIndex(f, logSize);
    if ScanFrom(v, f, 0, start, logSize).value.newest.Some? {
      FoundIsVouched(v, f, 0, start, logSize);
    } else {
      FoundIsVouched(v, f, 1, 0, logSize);
    }
  }

  lemma FoundIsVouched(v: Verifier, f: Fetcher, pass: nat, from: U64, logSize: U64)
    requires ScanFrom(v, f, pass, from, logSize).Success? && ScanFrom(v, f, pass, from, logSize).value.newest.Some?
    ensures var a := ScanFrom(v, f, pass, from, logSize).value.newest.value;
      Vouched(v, a) && exists b: nat :: f.bundle(pass, b).Success? && Marshalled(a) in f.bundle(pass, b).value
  {
    var leaves := LeavesFrom(f, pass, from / BUNDLE, logSize).value;
    var a := Newest(v, leaves).value;
    var i := NewestIsFirstOfMaximalVersion(TrustedAnchors(v, leaves));
    assert TrustedAnchor(v, leaves[i]) == Some(a);
    TrustedExactlyWhenVouched(v, leaves[i], a);
    ServedByABundle(f, pass, from / BUNDLE, logSize, leaves[i]);
  }

  /** Where the scheme rejects every signature under a key, no anchor of that key is acted on. */
  lemma RejectedKeyIsNeverSelected(v: Verifier, f: Fetcher, logSize: U64, key: Key)
    requires forall m: Bytes, s: Signature :: !v.crypto.verify(key, m, s)
    ensures var scan := FinalScan(v, f, logSize);
      scan.Success? && scan.value.newest.Some? ==> scan.value.newest.value.issuerPubKey != key
  {
    var scan := FinalScan(v, f, logSize);
    if scan.Success? && scan.value.newest.Some? {
      SelectedIsVouched(v, f, logSize);
    }
  }

  // ----- An honestly served log

  /** The bundle of 256 leaves, or what there is of it. */
  function Cut(leaves: seq<Bytes>, b: nat): seq<Bytes>
    requires b * 256 < |leaves|
  {
    leaves[b * 256..if (b + 1) * 256 < |leaves| then (b + 1) * 256 else |leaves|]
  }

  ghost predicate Serves(f: Fetcher, leaves: seq<Bytes>) {
    forall pass: nat, b: nat :: b * 256 < |leaves| ==> f.bundle(pass, b) == Success(Cut(leaves, b))
  }

  lemma {:induction false} ServedSuffix(f: Fetcher, leaves: seq<Bytes>, pass: nat, b: nat)
    requires Serves(f, leaves) && |leaves| < TWO64 && b * 256 <= |leaves| + 255
    ensures LeavesFrom(f, pass, b, |leaves|) == Success(if b * 256 < |leaves| then leaves[b * 256..] else [])
    decreases |leaves| - b * 256
  {
    if b * 256 < |leaves| {
      ServedSuffix(f, leaves, pass, b + 1);
      if (b + 1) * 256 < |leaves| {
        assert Cut(leaves, b) + leaves[(b + 1) * 256..] == leaves[b * 256..];
      } else {
        assert Cut(leaves, b) + [] == leaves[b * 256..];
      }
    }
  }

  /** With nothing vouched for in the log, the answer under every hint is a plain VERIFIED
      if no leaf is an anchor, and otherwise INDETERMINATE for want of trust. */
  lemma NothingVouched(v: Verifier, f: Fetcher, leaves: seq<Bytes>, leafHash: Hash)
    requires Serves(f, leaves) && |leaves| < TWO64
    requires forall i, a :: 0 <= i < |leaves| && leaves[i] == Marshalled(a) ==> !Vouched(v, a)
    ensures Resolved(v, f, leafHash, |leaves|) ==
      if exists i, a :: 0 <= i < |leaves| && leaves[i] == Marshalled(a) then Outcome(Indeterminate, None, AnchorUntrusted, None)
      else Outcome(Verified, None, NoReason, None)
  {
    var start := StartIndex(f, |leaves|);
    ServedSuffix(f, leaves, 0, start / 256);
    ServedSuffix(f, leaves, 0, 0);
    ServedSuffix(f, leaves, 1, 0);
    assert leaves[0..] == leaves;
    NoneTrusted(v, leaves);
    if start / 256 * 256 < |leaves| {
      NoneTrusted(v, leaves[start / 256 * 256..]);
    }
  }

  lemma NoneTrusted(v: Verifier, leaves: seq<Bytes>)
    requires forall i, a :: 0 <= i < |leaves| && leaves[i] == Marshalled(a) ==> !Vouched(v, a)
    ensures Newest(v, leaves).None?
    ensures SawUntrusted(v, leaves) <==> exists i, a :: 0 <= i < |leaves| && leaves[i] == Marshalled(a)
  {
    var trusted := TrustedAnchors(v, leaves);
    var _ := NewestIsFirstOfMaximalVersion(trusted);
    forall i | 0 <= i < |leaves|
      ensures trusted[i].None? && (Untrusted(v, leaves[i]) <==> exists a :: leaves[i] == Marshalled(a))
    {
      var o := AnchorOf(leaves[i]);
      if o.Some? {
        TrustedExactlyWhenVouched(v, leaves[i], o.value);
      }
    }
  }

  /** So a log whose only anchor is a tampered one answers INDETERMINATE. */
  lemma TamperedLogIsIndeterminate(v: Verifier, f: Fetcher, leaves: seq<Bytes>, leafHash: Hash,
                                   k: nat, secret: Bytes, a: StatusAnchor, original: StatusAnchor)
    requires Serves(f, leaves) && k < |leaves| < TWO64 && leaves[k] == Marshalled(a)
    requires Sound(v.crypto) && Tampered(v.crypto, secret, a, original)
    requires forall i, b :: 0 <= i < |leaves| && i != k ==> leaves[i] != Marshalled(b)
    ensures Resolved(v, f, leafHash, |leaves|) == Outcome(Indeterminate, None, AnchorUntrusted, None)
  {
    TamperedIsNotTrusted(v, secret, a, original);
    forall i, b | 0 <= i < |leaves| && leaves[i] == Marshalled(b)
      ensures !Vouched(v, b)
    {
      MarshalledIsPrefixFree(a, b, [], []);
    }
    NothingVouched(v, f, leaves, leafHash);
  }

  /** The first entry listed for a leaf. */
  ghost predicate IsFirstEntry(d: Documents, withdrawn: seq<Entry>, leafHash: Hash, i: nat) {
    && i < |withdrawn| && withdrawn[i].leafHash == d.base64(leafHash)
    && forall j :: 0 <= j < i ==> withdrawn[j].leafHash != d.base64(leafHash)
  }

  lemma {:induction false} FindsTheFirst(d: Documents, withdrawn: seq<Entry>, leafHash: Hash) returns (i: nat)
    ensures Find(d, withdrawn, leafHash).Some? ==>
      IsFirstEntry(d, withdrawn, leafHash, i) && Find(d, withdrawn, leafHash).value == withdrawn[i]
    ensures Find(d, withdrawn, leafHash).None? ==> forall e :: e in withdrawn ==> e.leafHash != d.base64(leafHash)
  {
    i := 0;
    if withdrawn != [] && withdrawn[0].leafHash != d.base64(leafHash) {
      i := FindsTheFirst(d, withdrawn[1..], leafHash);
      i := i + 1;
    }
  }

  /** What the answer must be, given the bytes served for the artifact of an anchor. */
  ghost predicate Answers(v: Verifier, a: StatusAnchor, served: Result<Bytes, Bytes>, leafHash: Hash, o: Outcome) {
    if served.Failure? then o == Outcome(Indeterminate, None, ArtifactUnreachable, Some(served.error))
    else
      var parsed := v.documents.parseArtifact(served.value);
      if parsed.Failure? then o == Outcome(Indeterminate, None, ArtifactParseError, Some(parsed.error))
      else if v.crypto.hash(served.value) != a.artifactHash then o == Outcome(Indeterminate, None, ArtifactHashMismatch, None)
      else
        var w := parsed.value.withdrawn;
        if exists i: nat :: IsFirstEntry(v.documents, w, leafHash, i) then
          exists i: nat :: IsFirstEntry(v.documents, w, leafHash, i) && o == Outcome(Withdrawn, Some(w[i]), NoReason, None)
        else o == Outcome(Verified, None, NoReason, None)
  }

  lemma ConsultedAnswers(v: Verifier, a: StatusAnchor, served: Result<Bytes, Bytes>, leafHash: Hash)
    ensures Answers(v, a, served, leafHash, Consulted(v, a, served, leafHash))
  {
    if served.Success? && v.documents.parseArtifact(served.value).Success? {
      var i := FindsTheFirst(v.documents, v.documents.parseArtifact(served.value).value.withdrawn, leafHash);
    }
  }

  /** Against any fetcher, what each answer of an anchor's artifact must be. */
  lemma ArtifactDecides(v: Verifier, f: Fetcher, leafHash: Hash, logSize: U64)
    requires FinalScan(v, f, logSize).Success? && FinalScan(v, f, logSize).value.newest.Some?
    ensures var a := FinalScan(v, f, logSize).value.newest.value;
      Answers(v, a, f.artifact(a.artifactVersion), leafHash, Resolved(v, f, leafHash, logSize))
  {
    var a := FinalScan(v, f, logSize).value.newest.value;
    ConsultedAnswers(v, a, f.artifact(a.artifactVersion), leafHash);
  }

  /** In an honestly served log, the vouched anchor of the strictly greatest version decides,
      under every hint that does not point beyond its bundle. */
  lemma GreatestVouchedDecides(v: Verifier, f: Fetcher, leaves: seq<Bytes>, leafHash: Hash, k: nat, a: StatusAnchor)
    requires Serves(f, leaves) && k < |leaves| < TWO64 && leaves[k] == Marshalled(a) && Vouched(v, a)
    requires forall i, b :: 0 <= i < |leaves| && i != k && leaves[i] == Marshalled(b) && Vouched(v, b) ==>
      b.artifactVersion < a.artifactVersion
    requires f.hint.Success? && f.hint.value.Some? && f.hint.value.value.anchorIndex < |leaves| ==>
      f.hint.value.value.anchorIndex / 256 <= k / 256
    ensures Answers(v, a, f.artifact(a.artifactVersion), leafHash, Resolved(v, f, leafHash, |leaves|))
  {
    var o := StartIndex(f, |leaves|) / 256 * 256;
    ServedSuffix(f, leaves, 0, StartIndex(f, |leaves|) / 256);
    GreatestIsNewest(v, leaves, k, a, o);
    ConsultedAnswers(v, a, f.artifact(a.artifactVersion), leafHash);
  }

  lemma GreatestIsNewest(v: Verifier, leaves: seq<Bytes>, k: nat, a: StatusAnchor, o: nat)
    requires o <= k < |leaves| && leaves[k] == Marshalled(a) && Vouched(v, a)
    requires forall i, b :: 0 <= i < |leaves| && i != k && leaves[i] == Marshalled(b) && Vouched(v, b) ==>
      b.artifactVersion < a.artifactVersion
    ensures Newest(v, leaves[o..]) == Some(a)
  {
    var trusted := TrustedAnchors(v, leaves[o..]);
    var i := NewestIsFirstOfMaximalVersion(trusted);
    TrustedExactlyWhenVouched(v, leaves[k], a);
    assert trusted[k - o] == Some(a);
    var b := trusted[i].value;
    assert leaves[o..][i] == leaves[o + i];
    TrustedExactlyWhenVouched(v, leaves[o + i], b);
  }
}
