/** pkg/status/resolve.go and the parts of artifact.go it uses: has a leaf been
    withdrawn? */
module Resolution {
  import opened Bytes
  import opened Crypto
  import opened StatusAnchors
  import IdentityBindings

  const BUNDLE: int := 256

  datatype Entry = Entry(leafHash: Bytes, reason: Bytes, withdrawnAt: U64)

  datatype Artifact = Artifact(issuedAt: U64, logSizeAtIssue: U64, schema: int, version: U64, withdrawn: seq<Entry>)

  datatype Hint = Hint(version: U64, anchorIndex: U64)

  /** JSON and base64, as values. `preserved` are the strings JSON carries
      unchanged (the valid UTF-8 ones). */
  datatype Documents = Documents(
    preserved: Bytes -> bool,
    encodeArtifact: Artifact -> Bytes,
    parseArtifact: Bytes -> Result<Artifact, Bytes>,
    encodeHint: Hint -> Bytes,
    parseHint: Bytes -> Result<Hint, Bytes>,
    base64: Hash -> Bytes)

  /** What a verifier is configured with. */
  datatype Verifier = Verifier(crypto: Suite, documents: Documents, roots: seq<Key>)

  /** Everything a resolution may ask for, with every answer it may get. A
      resolution reads each bundle at most once per pass over the log, so letting
      the bundle depend on the pass admits a fetcher that changes its mind. */
  datatype Fetcher = Fetcher(
    hint: Result<Option<Hint>, Bytes>,
    bundle: (nat, nat) -> Result<seq<Bytes>, Bytes>,
    artifact: U64 -> Result<Bytes, Bytes>)

  datatype Verdict = Verified | Withdrawn | Indeterminate

  datatype Reason =
    | NoReason
    | AnchorScanFailed
    | AnchorUntrusted
    | ArtifactUnreachable
    | ArtifactParseError
    | ArtifactHashMismatch

  datatype Outcome = Outcome(verdict: Verdict, entry: Option<Entry>, reason: Reason, cause: Option<Bytes>)

  datatype Scan = Scan(newest: Option<StatusAnchor>, sawUntrusted: bool)

  /** The anchor in a leaf, if it decodes, is validly signed and is pinned. */
  ghost function TrustedAnchor(v: Verifier, raw: Bytes): Option<StatusAnchor> {
    match AnchorOf(raw)
    case None => None
    case Some(a) => if Verifies(v.crypto, a) && a.issuerPubKey in v.roots then Some(a) else None
  }

  /** The leaf decodes as an anchor nobody pinned vouches for. */
  ghost predicate Untrusted(v: Verifier, raw: Bytes) {
    AnchorOf(raw).Some? && TrustedAnchor(v, raw).None?
  }

  ghost function TrustedAnchors(v: Verifier, leaves: seq<Bytes>): seq<Option<StatusAnchor>> {
    seq(|leaves|, i requires 0 <= i < |leaves| => TrustedAnchor(v, leaves[i]))
  }

  function Better(n: Option<StatusAnchor>, o: Option<StatusAnchor>): Option<StatusAnchor> {
    if o.Some? && (n.None? || o.value.artifactVersion > n.value.artifactVersion) then o else n
  }

  function NewestOf(found: seq<Option<StatusAnchor>>): Option<StatusAnchor> {
    if found == [] then None else Better(NewestOf(found[..|found| - 1]), found[|found| - 1])
  }

  ghost function Newest(v: Verifier, leaves: seq<Bytes>): Option<StatusAnchor> {
    NewestOf(TrustedAnchors(v, leaves))
  }

  ghost predicate SawUntrusted(v: Verifier, leaves: seq<Bytes>) {
    exists i :: 0 <= i < |leaves| && Untrusted(v, leaves[i])
  }

  /** The leaves of bundles b, b + 1, ... up to the one that holds the tip. */
  ghost function LeavesFrom(f: Fetcher, pass: nat, b: nat, logSize: U64): Result<seq<Bytes>, Bytes>
    decreases logSize - b * BUNDLE
  {
    if b * BUNDLE >= logSize then Success([])
    else
      match f.bundle(pass, b)
      case Failure(cause) => Failure(cause)
      case Success(leaves) =>
        match LeavesFrom(f, pass, b + 1, logSize)
        case Failure(cause) => Failure(cause)
        case Success(rest) => Success(leaves + rest)
  }

  ghost function ScanFrom(v: Verifier, f: Fetcher, pass: nat, from: U64, logSize: U64): Result<Scan, Bytes> {
    match LeavesFrom(f, pass, from / BUNDLE, logSize)
    case Failure(cause) => Failure(cause)
    case Success(leaves) => Success(Scan(Newest(v, leaves), SawUntrusted(v, leaves)))
  }

  function StartIndex(f: Fetcher, logSize: U64): U64 {
    if f.hint.Success? && f.hint.value.Some? && f.hint.value.value.anchorIndex < logSize
    then f.hint.value.value.anchorIndex else 0
  }

  /** The scan a resolution acts on: from the hinted index, and again from the
      beginning if that found nothing. */
  ghost function FinalScan(v: Verifier, f: Fetcher, logSize: U64): Result<Scan, Bytes> {
    var start := StartIndex(f, logSize);
    var first := ScanFrom(v, f, 0, start, logSize);
    if first.Success? && first.value.newest.None? && start > 0 then ScanFrom(v, f, 1, 0, logSize) else first
  }

  /** The first listed entry for a leaf hash. */
  function Find(d: Documents, withdrawn: seq<Entry>, leafHash: Hash): Option<Entry> {
    if withdrawn == [] then None
    else if withdrawn[0].leafHash == d.base64(leafHash) then Some(withdrawn[0])
    else Find(d, withdrawn[1..], leafHash)
  }

  function Inconclusive(reason: Reason, cause: Option<Bytes>): Outcome {
    Outcome(Indeterminate, None, reason, cause)
  }

  function Listed(d: Documents, withdrawn: seq<Entry>, leafHash: Hash): Outcome {
    var entry := Find(d, withdrawn, leafHash);
    Outcome(if entry.Some? then Withdrawn else Verified, entry, NoReason, None)
  }

  /** What the selected anchor's artifact says. */
  function Consulted(v: Verifier, a: StatusAnchor, fetched: Result<Bytes, Bytes>, leafHash: Hash): Outcome {
    match fetched
    case Failure(cause) => Inconclusive(ArtifactUnreachable, Some(cause))
    case Success(raw) =>
      match v.documents.parseArtifact(raw)
      case Failure(cause) => Inconclusive(ArtifactParseError, Some(cause))
      case Success(artifact) =>
        if v.crypto.hash(raw) != a.artifactHash then Inconclusive(ArtifactHashMismatch, None)
        else Listed(v.documents, artifact.withdrawn, leafHash)
  }

  ghost function Resolved(v: Verifier, f: Fetcher, leafHash: Hash, logSize: U64): Outcome {
    match FinalScan(v, f, logSize)
    case Failure(cause) => Inconclusive(AnchorScanFailed, Some(cause))
    case Success(Scan(None, sawUntrusted)) =>
      if sawUntrusted then Inconclusive(AnchorUntrusted, None) else Outcome(Verified, None, NoReason, None)
    case Success(Scan(Some(a), _)) => Consulted(v, a, f.artifact(a.artifactVersion), leafHash)
  }

  method IsPinned(key: Key, roots: seq<Key>) returns (pinned: bool)
    ensures pinned <==> key in roots
  {
    for i := 0 to |roots|
      invariant key !in roots[..i]
    {
      if key == roots[i] {
        return true;
      }
    }
    return false;
  }

  /** The loop guard of the scan, which multiplies in 64 bits. */
  predicate BeforeTip(b: U64, logSize: U64) {
    b * BUNDLE % TWO64 < logSize
  }

  lemma GuardIsExact(b: U64, logSize: U64)
    requires logSize <= TWO64 - BUNDLE && b * BUNDLE < TWO64
    ensures BeforeTip(b, logSize) <==> b * BUNDLE < logSize
    ensures b * BUNDLE < logSize ==> (b + 1) * BUNDLE < TWO64
  {}

  /** The guard can end the scan exactly when the log is at least one bundle
      short of 2^64 leaves; otherwise it holds of every index. */
  lemma GuardCanFail(logSize: U64)
    ensures (exists b: U64 :: !BeforeTip(b, logSize)) <==> logSize <= TWO64 - BUNDLE
  {
    if logSize <= TWO64 - BUNDLE {
      var b: U64 := 0xFF_FFFF_FFFF_FFFF;
      assert b * BUNDLE == TWO64 - BUNDLE;
      assert !BeforeTip(b, logSize);
    } else {
      forall b: U64
        ensures BeforeTip(b, logSize)
      {
        var n: int := b % 0x100_0000_0000_0000;
        assert b * BUNDLE % TWO64 == n * BUNDLE;
      }
    }
  }

  lemma NewestSnoc(v: Verifier, leaves: seq<Bytes>, raw: Bytes)
    ensures Newest(v, leaves + [raw]) == Better(Newest(v, leaves), TrustedAnchor(v, raw))
    ensures SawUntrusted(v, leaves + [raw]) <==> SawUntrusted(v, leaves) || Untrusted(v, raw)
  {
    var found := TrustedAnchors(v, leaves + [raw]);
    assert found[..|leaves|] == TrustedAnchors(v, leaves);
    if SawUntrusted(v, leaves) {
      var i :| 0 <= i < |leaves| && Untrusted(v, leaves[i]);
      assert (leaves + [raw])[i] == leaves[i];
    }
  }

  /** One leaf of a bundle. */
  method ConsiderLeaf(v: Verifier, raw: Bytes, scan: Scan) returns (r: Scan)
    ensures r.newest == Better(scan.newest, TrustedAnchor(v, raw))
    ensures r.sawUntrusted <==> scan.sawUntrusted || Untrusted(v, raw)
  {
    r := scan;
    var kind := IdentityBindings.PeekKind(raw);
    var decoded := UnmarshalStatusAnchor(raw);
    DecodingIsAnchorOf(raw, decoded);
    if kind.Failure? || kind.value != KIND {
      if decoded.Success? {
        FirstByte(decoded.value);
      }
      return;
    }
    if decoded.Failure? {
      return;
    }
    var a := decoded.value;
    var leaf := new StatusAnchorLeaf(a);
    var valid := leaf.Verify(v.crypto);
    var pinned := IsPinned(a.issuerPubKey, v.roots);
    if !valid || !pinned {
      return r.(sawUntrusted := true);
    }
    if r.newest.None? || a.artifactVersion > r.newest.value.artifactVersion {
      r := r.(newest := Some(a));
    }
  }

  /** One bundle of leaves. */
  method ConsiderBundle(v: Verifier, leaves: seq<Bytes>, scan: Scan, ghost before: seq<Bytes>) returns (r: Scan)
    requires scan == Scan(Newest(v, before), SawUntrusted(v, before))
    ensures r == Scan(Newest(v, before + leaves), SawUntrusted(v, before + leaves))
  {
    r := scan;
    assert before + leaves[..0] == before;
    for i := 0 to |leaves|
      invariant r == Scan(Newest(v, before + leaves[..i]), SawUntrusted(v, before + leaves[..i]))
    {
      NewestSnoc(v, before + leaves[..i], leaves[i]);
      assert before + leaves[..i + 1] == (before + leaves[..i]) + [leaves[i]];
      r := ConsiderLeaf(v, leaves[i], r);
    }
    assert leaves[..|leaves|] == leaves;
  }

  /** What has been seen and what remains, before and after a bundle. */
  lemma OneBundle(f: Fetcher, pass: nat, b: nat, logSize: U64, seen: seq<Bytes>)
    requires b * BUNDLE < logSize && f.bundle(pass, b).Success?
    ensures var rest := LeavesFrom(f, pass, b + 1, logSize);
      LeavesFrom(f, pass, b, logSize).Success? == rest.Success?
      && (rest.Success? ==> seen + LeavesFrom(f, pass, b, logSize).value == (seen + f.bundle(pass, b).value) + rest.value)
      && (rest.Failure? ==> LeavesFrom(f, pass, b, logSize) == rest)
  {}

  /** Walks the bundles from the one that holds `from` to the tip. `asked` records
      which bundles were asked for, in order. */
  method ScanForNewestAnchor(v: Verifier, f: Fetcher, pass: nat, from: U64, logSize: U64)
      returns (r: Result<Scan, Bytes>, ghost asked: seq<nat>)
    requires logSize <= TWO64 - BUNDLE
    ensures r == ScanFrom(v, f, pass, from, logSize)
    ensures forall i :: 0 <= i < |asked| ==> asked[i] == from / 256 + i
    ensures r.Success? ==> forall b :: b in asked <==> from / 256 <= b && b * 256 < logSize
  {
    var scan := Scan(None, false);
    var b: U64 := from / BUNDLE;
    asked := [];
    ghost var seen: seq<Bytes> := [];
    ghost var all := LeavesFrom(f, pass, b, logSize);
    assert all.Success? ==> seen + all.value == all.value;
    while BeforeTip(b, logSize)
      invariant from / BUNDLE <= b && b * BUNDLE < TWO64
      invariant scan == Scan(Newest(v, seen), SawUntrusted(v, seen))
      invariant forall i :: 0 <= i < |asked| ==> asked[i] == from / BUNDLE + i && asked[i] * BUNDLE < logSize
      invariant |asked| == b - from / BUNDLE
      invariant match LeavesFrom(f, pass, b, logSize)
        case Failure(cause) => all == Failure(cause)
        case Success(rest) => all == Success(seen + rest)
      decreases logSize + BUNDLE - b * BUNDLE
    {
      GuardIsExact(b, logSize);
      var leaves := f.bundle(pass, b);
      asked := asked + [b];
      if leaves.Failure? {
        return Failure(leaves.error), asked;
      }
      scan := ConsiderBundle(v, leaves.value, scan, seen);
      OneBundle(f, pass, b, logSize, seen);
      seen := seen + leaves.value;
      b := b + 1;
    }
    GuardIsExact(b, logSize);
    assert seen + [] == seen;
    forall k | from / BUNDLE <= k && k * BUNDLE < logSize
      ensures k in asked
    {
      assert asked[k - from / BUNDLE] == k;
    }
    return Success(scan), asked;
  }

  method FindEntry(d: Documents, withdrawn: seq<Entry>, leafHash: Hash) returns (r: Option<Entry>)
    ensures r == Find(d, withdrawn, leafHash)
  {
    var want := d.base64(leafHash);
    for i := 0 to |withdrawn|
      invariant Find(d, withdrawn, leafHash) == Find(d, withdrawn[i..], leafHash)
    {
      if withdrawn[i].leafHash == want {
        return Some(withdrawn[i]);
      }
      assert withdrawn[i..][1..] == withdrawn[i + 1..];
    }
    return None;
  }

  /** The entry found is listed for the leaf, and an entry is found exactly when
      one is listed. */
  lemma {:induction false} FindFindsListed(d: Documents, withdrawn: seq<Entry>, leafHash: Hash)
    ensures var r := Find(d, withdrawn, leafHash);
      && (r.Some? ==> r.value in withdrawn && r.value.leafHash == d.base64(leafHash))
      && (r.Some? <==> exists e :: e in withdrawn && e.leafHash == d.base64(leafHash))
  {
    if withdrawn != [] && withdrawn[0].leafHash != d.base64(leafHash) {
      FindFindsListed(d, withdrawn[1..], leafHash);
    }
  }

  method Resolve(v: Verifier, f: Fetcher, leafHash: Hash, logSize: U64) returns (r: Outcome)
    requires logSize <= TWO64 - BUNDLE
    ensures r == Resolved(v, f, leafHash, logSize)
  {
    var start: U64 := 0;
    if f.hint.Success? && f.hint.value.Some? && f.hint.value.value.anchorIndex < logSize {
      start := f.hint.value.value.anchorIndex;
    }
    var scan, asked := ScanForNewestAnchor(v, f, 0, start, logSize);
    if scan.Failure? {
      return Inconclusive(AnchorScanFailed, Some(scan.error));
    }
    if scan.value.newest.None? && start > 0 {
      scan, asked := ScanForNewestAnchor(v, f, 1, 0, logSize);
      if scan.Failure? {
        return Inconclusive(AnchorScanFailed, Some(scan.error));
      }
    }
    if scan.value.newest.None? {
      if scan.value.sawUntrusted {
        return Inconclusive(AnchorUntrusted, None);
      }
      return Outcome(Verified, None, NoReason, None);
    }
    var newest := scan.value.newest.value;
    var raw := f.artifact(newest.artifactVersion);
    if raw.Failure? {
      return Inconclusive(ArtifactUnreachable, Some(raw.error));
    }
    var artifact := v.documents.parseArtifact(raw.value);
    if artifact.Failure? {
      return Inconclusive(ArtifactParseError, Some(artifact.error));
    }
    if v.crypto.hash(raw.value) != newest.artifactHash {
      return Inconclusive(ArtifactHashMismatch, None);
    }
    var entry := FindEntry(v.documents, artifact.value.withdrawn, leafHash);
    if entry.Some? {
      return Outcome(Withdrawn, entry, NoReason, None);
    }
    return Outcome(Verified, None, NoReason, None);
  }
}
