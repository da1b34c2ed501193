/** What a status resolution guarantees, whatever it is served. */
module ResolutionProperties {
  import opened Bytes
  import opened StatusAnchors
  import opened Resolution

  /** The version of an anchor, and -1 if there is none. */
  function VersionOf(a: Option<StatusAnchor>): int {
    if a.Some? then a.value.artifactVersion else -1
  }

  /** Of the first n leaves, the i-th holds an anchor whose version no anchor
      exceeds and no earlier one reaches. */
  ghost predicate FirstNewest(found: seq<Option<StatusAnchor>>, n: nat, i: int)
    requires n <= |found|
  {
    && 0 <= i < n && found[i].Some?
    && (forall j :: 0 <= j < n ==> VersionOf(found[j]) <= VersionOf(found[i]))
    && forall j :: 0 <= j < i ==> VersionOf(found[j]) < VersionOf(found[i])
  }

  /** The scan returns the first anchor in log order of the greatest version
      among the trusted ones, and nothing exactly when there are none. */
  lemma NewestIsFirstOfMaximalVersion(found: seq<Option<StatusAnchor>>) returns (i: int)
    ensures NewestOf(found).None? <==> forall j :: 0 <= j < |found| ==> found[j].None?
    ensures NewestOf(found).Some? ==> FirstNewest(found, |found|, i) && found[i] == NewestOf(found)
  {
    i := NewestUpTo(found, |found|);
    assert found[..|found|] == found;
  }

  lemma {:induction false} NewestUpTo(found: seq<Option<StatusAnchor>>, n: nat) returns (i: int)
    requires n <= |found|
    ensures NewestOf(found[..n]).None? <==> forall j :: 0 <= j < n ==> found[j].None?
    ensures NewestOf(found[..n]).Some? ==> FirstNewest(found, n, i) && found[i] == NewestOf(found[..n])
  {
    if n == 0 {
      return 0;
    }
    i := NewestUpTo(found, n - 1);
    assert found[..n][..n - 1] == found[..n - 1];
    if found[n - 1].Some? && (NewestOf(found[..n - 1]).None? || VersionOf(found[n - 1]) > VersionOf(found[i])) {
      i := n - 1;
    }
  }

  lemma {:induction false} NewestJoin(xs: seq<Option<StatusAnchor>>, ys: seq<Option<StatusAnchor>>)
    ensures NewestOf(xs + ys) == Better(NewestOf(xs), NewestOf(ys))
  {
    if ys == [] {
      assert xs + ys == xs;
    } else {
      var n := |ys| - 1;
      NewestJoin(xs, ys[..n]);
      assert (xs + ys)[..|xs| + n] == xs + ys[..n];
    }
  }

  // ----- Fail closed

  /** The pass that scans every bundle: the only one, unless the hint made the first
      start further on. */
  function WholePass(f: Fetcher, logSize: U64): nat {
    if StartIndex(f, logSize) == 0 then 0 else 1
  }

  /** That pass completed, and none of the leaves it was served decodes as an anchor. */
  ghost predicate NoAnchorServed(f: Fetcher, logSize: U64) {
    var served := LeavesFrom(f, WholePass(f, logSize), 0, logSize);
    served.Success? && forall i :: 0 <= i < |served.value| ==> AnchorOf(served.value[i]).None?
  }

  /** The selected anchor's artifact was fetched, parses, hashes to what the
      anchor commits to, and lists exactly these entries. */
  ghost predicate Matched(v: Verifier, f: Fetcher, logSize: U64, withdrawn: seq<Entry>) {
    var scan := FinalScan(v, f, logSize);
    && scan.Success? && scan.value.newest.Some?
    && var a := scan.value.newest.value;
    && f.artifact(a.artifactVersion).Success?
    && var raw := f.artifact(a.artifactVersion).value;
    && v.documents.parseArtifact(raw).Success?
    && v.documents.parseArtifact(raw).value.withdrawn == withdrawn
    && v.crypto.hash(raw) == a.artifactHash
  }

  ghost predicate Lists(v: Verifier, withdrawn: seq<Entry>, leafHash: Hash) {
    exists e :: e in withdrawn && e.leafHash == v.documents.base64(leafHash)
  }

  /** Against any fetcher whatever: the two definite verdicts need evidence, and
      the reasons and causes say which evidence is missing. */
  lemma FailClosed(v: Verifier, f: Fetcher, leafHash: Hash, logSize: U64)
    ensures var o := Resolved(v, f, leafHash, logSize);
      && (o.verdict == Verified ==>
            || NoAnchorServed(f, logSize)
            || exists w :: Matched(v, f, logSize, w) && !Lists(v, w, leafHash))
      && (o.verdict == Withdrawn <==> exists w :: Matched(v, f, logSize, w) && Lists(v, w, leafHash))
      && (o.verdict == Withdrawn <==> o.entry.Some?)
      && (o.entry.Some? ==> o.entry.value.leafHash == v.documents.base64(leafHash))
      && (o.verdict == Indeterminate <==> o.reason != NoReason)
      && (o.cause.Some? <==> o.reason in {AnchorScanFailed, ArtifactUnreachable, ArtifactParseError})
  {
    var scan := FinalScan(v, f, logSize);
    if scan.Success? && scan.value.newest.Some? {
      var a := scan.value.newest.value;
      var fetched := f.artifact(a.artifactVersion);
      if fetched.Success? && v.documents.parseArtifact(fetched.value).Success? {
        var w := v.documents.parseArtifact(fetched.value).value.withdrawn;
        FindFindsListed(v.documents, w, leafHash);
        assert v.crypto.hash(fetched.value) == a.artifactHash <==> Matched(v, f, logSize, w);
      }
    } else if scan.Success? && !scan.value.sawUntrusted {
      NothingServed(v, f, logSize);
    }
  }

  lemma NothingServed(v: Verifier, f: Fetcher, logSize: U64)
    requires FinalScan(v, f, logSize) == Success(Scan(None, false))
    ensures NoAnchorServed(f, logSize)
  {
    NoneDecodes(v, LeavesFrom(f, WholePass(f, logSize), 0, logSize).value);
  }

  lemma NoneDecodes(v: Verifier, leaves: seq<Bytes>)
    requires Newest(v, leaves).None? && !SawUntrusted(v, leaves)
    ensures forall i :: 0 <= i < |leaves| ==> AnchorOf(leaves[i]).None?
  {
    var trusted := TrustedAnchors(v, leaves);
    var _ := NewestIsFirstOfMaximalVersion(trusted);
    forall i | 0 <= i < |leaves|
      ensures AnchorOf(leaves[i]).None?
    {
      assert trusted[i].None? && !Untrusted(v, leaves[i]);
    }
  }

  // ----- The hint

  /** Every bundle can be read, and a second reading gives the same leaves. */
  ghost predicate Readable(f: Fetcher, logSize: U64) {
    forall b: nat :: b * BUNDLE < logSize ==> f.bundle(0, b).Success? && f.bundle(1, b) == f.bundle(0, b)
  }

  ghost predicate Increasing(found: seq<Option<StatusAnchor>>) {
    forall i, j :: 0 <= i < j < |found| && found[i].Some? && found[j].Some? ==> VersionOf(found[i]) < VersionOf(found[j])
  }

  /** Along the leaves, trusted versions strictly increase. */
  ghost predicate VersionsIncrease(v: Verifier, leaves: seq<Bytes>) {
    Increasing(TrustedAnchors(v, leaves))
  }

  lemma {:induction false} ReadableIsServed(f: Fetcher, pass: nat, b: nat, logSize: U64)
    requires Readable(f, logSize) && pass <= 1
    ensures LeavesFrom(f, pass, b, logSize).Success?
    ensures LeavesFrom(f, pass, b, logSize) == LeavesFrom(f, 0, b, logSize)
    decreases logSize - b * BUNDLE
  {
    if b * BUNDLE < logSize {
      ReadableIsServed(f, pass, b + 1, logSize);
      ReadableIsServed(f, 0, b + 1, logSize);
    }
  }

  /** Scanning from bundle b is scanning a suffix of the log. */
  lemma {:induction false} ServedFromIsSuffix(f: Fetcher, pass: nat, b: nat, logSize: U64) returns (k: nat)
    requires LeavesFrom(f, pass, 0, logSize).Success?
    ensures k <= |LeavesFrom(f, pass, 0, logSize).value|
    ensures LeavesFrom(f, pass, b, logSize) == Success(LeavesFrom(f, pass, 0, logSize).value[k..])
    decreases b
  {
    var all := LeavesFrom(f, pass, 0, logSize).value;
    if b == 0 {
      k := 0;
    } else {
      var j := ServedFromIsSuffix(f, pass, b - 1, logSize);
      if (b - 1) * BUNDLE >= logSize {
        k := j;
      } else {
        var here, rest := f.bundle(pass, b - 1).value, LeavesFrom(f, pass, b, logSize).value;
        assert all[j..] == here + rest;
        k := j + |here|;
        assert all[k..] == all[j..][|here|..] == rest;
      }
    }
  }

  lemma NewestOfSuffix(v: Verifier, leaves: seq<Bytes>, k: nat)
    requires k <= |leaves| && VersionsIncrease(v, leaves)
    ensures Newest(v, leaves[k..]).None? || Newest(v, leaves[k..]) == Newest(v, leaves)
  {
    assert TrustedAnchors(v, leaves)[k..] == TrustedAnchors(v, leaves[k..]);
    NewestOfDrop(TrustedAnchors(v, leaves), k);
  }

  lemma NewestOfDrop(found: seq<Option<StatusAnchor>>, k: nat)
    requires k <= |found| && Increasing(found)
    ensures NewestOf(found[k..]).None? || NewestOf(found[k..]) == NewestOf(found)
  {
    var suffix := found[k..];
    var j := NewestIsFirstOfMaximalVersion(found);
    var i := NewestIsFirstOfMaximalVersion(suffix);
    if NewestOf(suffix).Some? {
      assert suffix[i] == found[k + i];
      assert suffix[j - k] == found[j];
    }
  }

  /** The newest anchor at or after bundle b. */
  ghost function NewestFrom(v: Verifier, f: Fetcher, b: nat, logSize: U64): Option<StatusAnchor>
    requires LeavesFrom(f, 0, b, logSize).Success?
  {
    Newest(v, LeavesFrom(f, 0, b, logSize).value)
  }

  /** The same answers, and no hint: a scan of the whole log. */
  function WithoutHint(f: Fetcher): Fetcher {
    f.(hint := Success(None))
  }

  function WithHint(f: Fetcher, at: U64): Fetcher {
    f.(hint := Success(Some(Hint(0, at))))
  }

  lemma {:induction false} HintDoesNotReachBundles(f: Fetcher, g: Fetcher, pass: nat, b: nat, logSize: U64)
    requires f.bundle == g.bundle
    ensures LeavesFrom(f, pass, b, logSize) == LeavesFrom(g, pass, b, logSize)
    decreases logSize - b * BUNDLE
  {
    if b * BUNDLE < logSize {
      HintDoesNotReachBundles(f, g, pass, b + 1, logSize);
    }
  }

  /** The final scan, in terms of the suffix the start index names. */
  lemma FinalScanNewest(v: Verifier, f: Fetcher, logSize: U64)
    requires Readable(f, logSize)
    ensures forall b: nat {:trigger LeavesFrom(f, 0, b, logSize)} :: LeavesFrom(f, 0, b, logSize).Success?
    ensures var s, from := FinalScan(v, f, logSize), NewestFrom(v, f, StartIndex(f, logSize) / BUNDLE, logSize);
      && s.Success?
      && s.value.newest == (if from.None? then NewestFrom(v, f, 0, logSize) else from)
      && (s.value.newest.None? ==> s.value.sawUntrusted == SawUntrusted(v, LeavesFrom(f, 0, 0, logSize).value))
  {
    forall b: nat
      ensures LeavesFrom(f, 0, b, logSize).Success?
    {
      ReadableIsServed(f, 0, b, logSize);
    }
    ReadableIsServed(f, 1, 0, logSize);
  }

  /** If the log can be read and trusted versions increase along it, no hint
      (absent, failing, stale, out of range or pointing anywhere) changes the
      verdict, the entry, the reason or the cause. */
  lemma HintIndependence(v: Verifier, f: Fetcher, leafHash: Hash, logSize: U64)
    requires Readable(f, logSize)
    requires LeavesFrom(f, 0, 0, logSize).Success? ==> VersionsIncrease(v, LeavesFrom(f, 0, 0, logSize).value)
    ensures Resolved(v, f, leafHash, logSize) == Resolved(v, WithoutHint(f), leafHash, logSize)
  {
    var g := WithoutHint(f);
    var b := StartIndex(f, logSize) / BUNDLE;
    FinalScanNewest(v, f, logSize);
    FinalScanNewest(v, g, logSize);
    HintDoesNotReachBundles(f, g, 0, 0, logSize);
    var k := ServedFromIsSuffix(f, 0, b, logSize);
    NewestOfSuffix(v, LeavesFrom(f, 0, 0, logSize).value, k);
  }

  // ----- Blocking requests

  ghost predicate Blocked<T(!new)>(f: Result<T, Bytes>, g: Result<T, Bytes>) {
    g.Failure? || g == f
  }

  /** g answers like f, except that it may refuse. */
  ghost predicate BlocksSome(f: Fetcher, g: Fetcher) {
    && Blocked(f.hint, g.hint)
    && (forall pass, b :: Blocked(f.bundle(pass, b), g.bundle(pass, b)))
    && forall version :: Blocked(f.artifact(version), g.artifact(version))
  }

  lemma {:induction false} BlockedServesSame(f: Fetcher, g: Fetcher, pass: nat, b: nat, logSize: U64)
    requires BlocksSome(f, g) && LeavesFrom(g, pass, b, logSize).Success?
    ensures LeavesFrom(g, pass, b, logSize) == LeavesFrom(f, pass, b, logSize)
    decreases logSize - b * BUNDLE
  {
    if b * BUNDLE < logSize {
      assert Blocked(f.bundle(pass, b), g.bundle(pass, b));
      BlockedServesSame(f, g, pass, b + 1, logSize);
    }
  }

  /** Whoever can only block requests cannot turn one definite verdict into the
      other: the answer stays the same or becomes indeterminate. */
  lemma BlockingNeverFlipsAVerdict(v: Verifier, f: Fetcher, g: Fetcher, leafHash: Hash, logSize: U64)
    requires Readable(f, logSize) && BlocksSome(f, g)
    requires LeavesFrom(f, 0, 0, logSize).Success? ==> VersionsIncrease(v, LeavesFrom(f, 0, 0, logSize).value)
    ensures Resolved(v, g, leafHash, logSize) == Resolved(v, f, leafHash, logSize)
      || Resolved(v, g, leafHash, logSize).verdict == Indeterminate
  {
    var sg := FinalScan(v, g, logSize);
    if sg.Success? {
      BlockedScanAgrees(v, f, g, logSize);
      if sg.value.newest.Some? {
        var version := sg.value.newest.value.artifactVersion;
        assert Blocked(f.artifact(version), g.artifact(version));
      }
    }
  }

  lemma BlockedScanAgrees(v: Verifier, f: Fetcher, g: Fetcher, logSize: U64)
    requires Readable(f, logSize) && BlocksSome(f, g) && FinalScan(v, g, logSize).Success?
    requires LeavesFrom(f, 0, 0, logSize).Success? ==> VersionsIncrease(v, LeavesFrom(f, 0, 0, logSize).value)
    ensures var sf, sg := FinalScan(v, f, logSize), FinalScan(v, g, logSize);
      sf.Success? && sf.value.newest == sg.value.newest
      && (sg.value.newest.None? ==> sf.value.sawUntrusted == sg.value.sawUntrusted)
  {
    FinalScanNewest(v, f, logSize);
    var all := LeavesFrom(f, 0, 0, logSize).value;
    var bf, bg := StartIndex(f, logSize) / BUNDLE, StartIndex(g, logSize) / BUNDLE;
    var k := ServedFromIsSuffix(f, 0, bf, logSize);
    var l := ServedFromIsSuffix(f, 0, bg, logSize);
    NewestOfSuffix(v, all, k);
    NewestOfSuffix(v, all, l);
    BlockedServesSame(f, g, 0, bg, logSize);
    if Newest(v, all[l..]).None? && StartIndex(g, logSize) > 0 {
      BlockedServesSame(f, g, 1, 0, logSize);
      ReadableIsServed(f, 1, 0, logSize);
    }
  }
}
