/** When a hint can change an answer, in terms of where the trusted anchors lie. */
module HintInfluence {
  import opened Bytes
  import opened Crypto
  import opened StatusAnchors
  import opened Resolution
  import opened ResolutionProperties

  // ----- Positions in the log

  /** The trusted anchor at leaf i of bundle b, if there is one. */
  ghost function At(v: Verifier, f: Fetcher, b: nat, i: nat): Option<StatusAnchor> {
    if f.bundle(0, b).Success? && i < |f.bundle(0, b).value| then TrustedAnchor(v, f.bundle(0, b).value[i]) else None
  }

  ghost predicate Holds(v: Verifier, f: Fetcher, logSize: U64, b: nat, i: nat) {
    b * BUNDLE < logSize && At(v, f, b, i).Some?
  }

  /** A trusted anchor whose version no other exceeds. */
  ghost predicate Top(v: Verifier, f: Fetcher, logSize: U64, b: nat, i: nat) {
    && Holds(v, f, logSize, b, i)
    && forall c: nat, j: nat :: Holds(v, f, logSize, c, j) ==> VersionOf(At(v, f, c, j)) <= VersionOf(At(v, f, b, i))
  }

  /** The first of those in its bundle. */
  ghost predicate FirstTop(v: Verifier, f: Fetcher, logSize: U64, b: nat, i: nat) {
    Top(v, f, logSize, b, i) && forall j: nat :: j < i ==> !Top(v, f, logSize, b, j)
  }

  /** Two anchors no artifact can tell apart: they name one version, and one hash or
      only hashes that no document has. */
  ghost predicate Interchangeable(v: Verifier, x: StatusAnchor, y: StatusAnchor) {
    && x.artifactVersion == y.artifactVersion
    && (x.artifactHash == y.artifactHash
        || forall raw :: v.documents.parseArtifact(raw).Success? ==>
             v.crypto.hash(raw) != x.artifactHash && v.crypto.hash(raw) != y.artifactHash)
  }

  /** An anchor of the greatest version lies in bundle b or after it. */
  ghost predicate TopFrom(v: Verifier, f: Fetcher, logSize: U64, b: nat) {
    exists c: nat, j: nat :: b <= c && Top(v, f, logSize, c, j)
  }

  /** No trusted anchor lies in a bundle after the last one that holds an anchor of the
      greatest version; and where that version is repeated, the first of each bundle is
      interchangeable with the first of every other. */
  ghost predicate EndsWithTheNewest(v: Verifier, f: Fetcher, logSize: U64) {
    && (forall b: nat, i: nat {:trigger TopFrom(v, f, logSize, b), At(v, f, b, i)} ::
          Holds(v, f, logSize, b, i) ==> TopFrom(v, f, logSize, b))
    && forall b: nat, i: nat, c: nat, j: nat :: FirstTop(v, f, logSize, b, i) && FirstTop(v, f, logSize, c, j) ==>
         Interchangeable(v, At(v, f, b, i).value, At(v, f, c, j).value)
  }

  // ----- What a scan from a bundle finds

  /** Of the trusted anchors from bundle b on, the one at (c, i) is the first of the
      greatest version. */
  ghost predicate FirstNewestFrom(v: Verifier, f: Fetcher, logSize: U64, b: nat, c: nat, i: nat) {
    && b <= c && Holds(v, f, logSize, c, i)
    && (forall d: nat, j: nat :: b <= d && Holds(v, f, logSize, d, j) ==>
          VersionOf(At(v, f, d, j)) <= VersionOf(At(v, f, c, i)))
    && forall d: nat, j: nat :: b <= d && Holds(v, f, logSize, d, j) && (d < c || (d == c && j < i)) ==>
         VersionOf(At(v, f, d, j)) < VersionOf(At(v, f, c, i))
  }

  /** x is the newest of bundle b, and lies first at i. */
  ghost predicate IsNewestIn(v: Verifier, f: Fetcher, b: nat, x: Option<StatusAnchor>, i: nat) {
    if x.None? then forall j: nat :: At(v, f, b, j).None?
    else
      && At(v, f, b, i) == x
      && (forall j: nat :: VersionOf(At(v, f, b, j)) <= VersionOf(x))
      && forall j: nat :: j < i ==> VersionOf(At(v, f, b, j)) < VersionOf(x)
  }

  /** x is the newest from bundle b on, and lies first at (c, i). */
  ghost predicate IsNewestFrom(v: Verifier, f: Fetcher, logSize: U64, b: nat, x: Option<StatusAnchor>, c: nat, i: nat) {
    if x.None? then forall d: nat, j: nat :: b <= d ==> !Holds(v, f, logSize, d, j)
    else FirstNewestFrom(v, f, logSize, b, c, i) && At(v, f, c, i) == x
  }

  lemma NewestInBundle(v: Verifier, f: Fetcher, b: nat) returns (i: nat)
    requires f.bundle(0, b).Success?
    ensures IsNewestIn(v, f, b, Newest(v, f.bundle(0, b).value), i)
  {
    var found := TrustedAnchors(v, f.bundle(0, b).value);
    var k := NewestIsFirstOfMaximalVersion(found);
    assert forall j: nat :: At(v, f, b, j) == if j < |found| then found[j] else None;
    i := if k >= 0 then k else 0;
  }

  /** The newest of a bundle and of those after it. */
  lemma NewestOfTwo(v: Verifier, f: Fetcher, logSize: U64, b: nat,
                    x: Option<StatusAnchor>, i: nat, y: Option<StatusAnchor>, d: nat, j: nat)
      returns (c: nat, k: nat)
    requires b * BUNDLE < logSize
    requires IsNewestIn(v, f, b, x, i) && IsNewestFrom(v, f, logSize, b + 1, y, d, j)
    ensures IsNewestFrom(v, f, logSize, b, Better(x, y), c, k)
  {
    c, k := if Better(x, y) == x && x.Some? then b else d, if Better(x, y) == x && x.Some? then i else j;
    assert forall e: nat, l: nat :: b <= e && Holds(v, f, logSize, e, l) ==> e == b || b + 1 <= e;
  }

  lemma {:induction false} NewestFromIsFirst(v: Verifier, f: Fetcher, logSize: U64, b: nat) returns (c: nat, i: nat)
    requires Readable(f, logSize) && LeavesFrom(f, 0, b, logSize).Success?
    ensures IsNewestFrom(v, f, logSize, b, NewestFrom(v, f, b, logSize), c, i)
    decreases logSize - b * BUNDLE
  {
    if b * BUNDLE >= logSize {
      c, i := b, 0;
    } else {
      var here, rest := f.bundle(0, b).value, LeavesFrom(f, 0, b + 1, logSize).value;
      NewestOfBoth(v, here, rest);
      var k := NewestInBundle(v, f, b);
      var d, j := NewestFromIsFirst(v, f, logSize, b + 1);
      c, i := NewestOfTwo(v, f, logSize, b, Newest(v, here), k, Newest(v, rest), d, j);
    }
  }

  lemma NewestOfBoth(v: Verifier, here: seq<Bytes>, rest: seq<Bytes>)
    ensures Newest(v, here + rest) == Better(Newest(v, here), Newest(v, rest))
  {
    assert TrustedAnchors(v, here + rest) == TrustedAnchors(v, here) + TrustedAnchors(v, rest);
    NewestJoin(TrustedAnchors(v, here), TrustedAnchors(v, rest));
  }

  // ----- From the positions to the selected anchors

  /** From every bundle on, a scan selects no anchor or one interchangeable with the
      newest of all. */
  ghost predicate SelectsAlike(v: Verifier, f: Fetcher, logSize: U64)
    requires Served(f, logSize)
  {
    forall b: nat :: b * BUNDLE < logSize && NewestFrom(v, f, b, logSize).Some? ==>
      && NewestFrom(v, f, 0, logSize).Some?
      && Interchangeable(v, NewestFrom(v, f, b, logSize).value, NewestFrom(v, f, 0, logSize).value)
  }

  ghost predicate Served(f: Fetcher, logSize: U64) {
    forall b: nat {:trigger LeavesFrom(f, 0, b, logSize)} :: LeavesFrom(f, 0, b, logSize).Success?
  }

  lemma FirstOfAllIsTop(v: Verifier, f: Fetcher, logSize: U64, c: nat, i: nat)
    requires FirstNewestFrom(v, f, logSize, 0, c, i)
    ensures FirstTop(v, f, logSize, c, i)
  {}

  /** From bundle b on, where the greatest version occurs, the first of it is the first
      of its bundle. */
  lemma FirstFromIsTop(v: Verifier, f: Fetcher, logSize: U64, b: nat, c: nat, i: nat, d: nat, j: nat)
    requires FirstNewestFrom(v, f, logSize, b, c, i) && b <= d && Top(v, f, logSize, d, j)
    ensures FirstTop(v, f, logSize, c, i)
  {
    assert VersionOf(At(v, f, c, i)) == VersionOf(At(v, f, d, j));
  }

  lemma SelectedAlike(v: Verifier, f: Fetcher, logSize: U64, b: nat, c: nat, i: nat, c0: nat, i0: nat)
    requires EndsWithTheNewest(v, f, logSize)
    requires FirstNewestFrom(v, f, logSize, b, c, i) && FirstTop(v, f, logSize, c0, i0)
    ensures Interchangeable(v, At(v, f, c, i).value, At(v, f, c0, i0).value)
  {
    assert TopFrom(v, f, logSize, c);
    var d: nat, j: nat :| c <= d && Top(v, f, logSize, d, j);
    FirstFromIsTop(v, f, logSize, b, c, i, d, j);
  }

  lemma EndsWithTheNewestSelectsAlike(v: Verifier, f: Fetcher, logSize: U64)
    requires Readable(f, logSize) && Served(f, logSize) && EndsWithTheNewest(v, f, logSize)
    ensures SelectsAlike(v, f, logSize)
  {
    var c0, i0 := NewestFromIsFirst(v, f, logSize, 0);
    var top := NewestFrom(v, f, 0, logSize);
    forall b: nat | b * BUNDLE < logSize && NewestFrom(v, f, b, logSize).Some?
      ensures top.Some? && Interchangeable(v, NewestFrom(v, f, b, logSize).value, top.value)
    {
      var c, i := NewestFromIsFirst(v, f, logSize, b);
      assert Holds(v, f, logSize, c, i);
      FirstOfAllIsTop(v, f, logSize, c0, i0);
      SelectedAlike(v, f, logSize, b, c, i, c0, i0);
    }
  }

  lemma SelectsAlikeEndsWithTheNewest(v: Verifier, f: Fetcher, logSize: U64)
    requires Readable(f, logSize) && Served(f, logSize) && SelectsAlike(v, f, logSize)
    ensures EndsWithTheNewest(v, f, logSize)
  {
    var c0, i0 := NewestFromIsFirst(v, f, logSize, 0);
    forall b: nat, i: nat | Holds(v, f, logSize, b, i)
      ensures TopFrom(v, f, logSize, b)
    {
      var c, j := NewestFromIsFirst(v, f, logSize, b);
      FirstOfAllIsTop(v, f, logSize, c0, i0);
      SameVersionIsTop(v, f, logSize, c0, i0, c, j);
    }
    forall b: nat, i: nat | FirstTop(v, f, logSize, b, i)
      ensures NewestFrom(v, f, b, logSize) == At(v, f, b, i)
    {
      var c, j := NewestFromIsFirst(v, f, logSize, b);
      FirstTopIsFirstFrom(v, f, logSize, b, i, c, j);
    }
    forall b: nat, i: nat, c: nat, j: nat | FirstTop(v, f, logSize, b, i) && FirstTop(v, f, logSize, c, j)
      ensures Interchangeable(v, At(v, f, b, i).value, At(v, f, c, j).value)
    {
      assert NewestFrom(v, f, b, logSize) == At(v, f, b, i) && NewestFrom(v, f, c, logSize) == At(v, f, c, j);
      AlikeIsTransitive(v, At(v, f, b, i).value, NewestFrom(v, f, 0, logSize).value, At(v, f, c, j).value);
    }
  }

  lemma SameVersionIsTop(v: Verifier, f: Fetcher, logSize: U64, b: nat, i: nat, c: nat, j: nat)
    requires Top(v, f, logSize, b, i) && Holds(v, f, logSize, c, j)
    requires VersionOf(At(v, f, b, i)) == VersionOf(At(v, f, c, j))
    ensures Top(v, f, logSize, c, j)
  {}

  lemma FirstTopIsFirstFrom(v: Verifier, f: Fetcher, logSize: U64, b: nat, i: nat, c: nat, j: nat)
    requires FirstTop(v, f, logSize, b, i) && IsNewestFrom(v, f, logSize, b, At(v, f, c, j), c, j)
    ensures At(v, f, c, j) == At(v, f, b, i)
  {
    assert Holds(v, f, logSize, b, i);
    assert VersionOf(At(v, f, b, i)) == VersionOf(At(v, f, c, j));
    SameVersionIsTop(v, f, logSize, b, i, c, j);
  }

  lemma AlikeIsTransitive(v: Verifier, x: StatusAnchor, y: StatusAnchor, z: StatusAnchor)
    requires Interchangeable(v, x, y) && Interchangeable(v, z, y)
    ensures Interchangeable(v, x, z)
  {}

  // ----- From the selected anchors to the outcomes

  /** The same verdict, entry and reason; the cause is a diagnostic. */
  predicate SameAnswer(o: Outcome, q: Outcome) {
    o.verdict == q.verdict && o.entry == q.entry && o.reason == q.reason
  }

  /** No hint changes any answer, whatever the artifact requests are answered. */
  ghost predicate HintIsHarmless(v: Verifier, f: Fetcher, logSize: U64) {
    forall g: Fetcher, leafHash: Hash :: g.bundle == f.bundle ==>
      SameAnswer(Resolved(v, g, leafHash, logSize), Resolved(v, WithoutHint(g), leafHash, logSize))
  }

  lemma InterchangeableConsultedAlike(v: Verifier, x: StatusAnchor, y: StatusAnchor, fetched: Result<Bytes, Bytes>, leafHash: Hash)
    requires Interchangeable(v, x, y)
    ensures Consulted(v, x, fetched, leafHash) == Consulted(v, y, fetched, leafHash)
  {}

  /** Anchors that are not interchangeable are told apart by some artifact. */
  lemma ToldApart(v: Verifier, x: StatusAnchor, y: StatusAnchor) returns (artifact: U64 -> Result<Bytes, Bytes>)
    requires !Interchangeable(v, x, y)
    ensures forall leafHash: Hash ::
      Consulted(v, x, artifact(x.artifactVersion), leafHash).reason != Consulted(v, y, artifact(y.artifactVersion), leafHash).reason
  {
    if x.artifactVersion != y.artifactVersion {
      artifact := (version: U64) => if version == x.artifactVersion then Failure([]) else Success([]);
    } else {
      var raw :| v.documents.parseArtifact(raw).Success?
        && (v.crypto.hash(raw) == x.artifactHash || v.crypto.hash(raw) == y.artifactHash);
      artifact := (version: U64) => Success(raw);
    }
  }

  /** The final scan of a fetcher with these bundles. */
  lemma FinalScanOf(v: Verifier, f: Fetcher, g: Fetcher, logSize: U64)
    requires Readable(f, logSize) && Served(f, logSize) && g.bundle == f.bundle
    ensures var s, from := FinalScan(v, g, logSize), NewestFrom(v, f, StartIndex(g, logSize) / BUNDLE, logSize);
      var all := NewestFrom(v, f, 0, logSize);
      && s.Success?
      && s.value.newest == (if from.None? then all else from)
      && (s.value.newest.None? ==> s.value.sawUntrusted == SawUntrusted(v, LeavesFrom(f, 0, 0, logSize).value))
  {
    FinalScanNewest(v, g, logSize);
    HintDoesNotReachBundles(f, g, 0, StartIndex(g, logSize) / BUNDLE, logSize);
    HintDoesNotReachBundles(f, g, 0, 0, logSize);
  }

  lemma SelectsAlikeIsHarmless(v: Verifier, f: Fetcher, logSize: U64)
    requires Readable(f, logSize) && Served(f, logSize) && SelectsAlike(v, f, logSize)
    ensures HintIsHarmless(v, f, logSize)
  {
    forall g: Fetcher, leafHash: Hash | g.bundle == f.bundle
      ensures Resolved(v, g, leafHash, logSize) == Resolved(v, WithoutHint(g), leafHash, logSize)
    {
      HarmlessFor(v, f, g, leafHash, logSize);
    }
  }

  lemma HarmlessFor(v: Verifier, f: Fetcher, g: Fetcher, leafHash: Hash, logSize: U64)
    requires Readable(f, logSize) && Served(f, logSize) && SelectsAlike(v, f, logSize) && g.bundle == f.bundle
    ensures Resolved(v, g, leafHash, logSize) == Resolved(v, WithoutHint(g), leafHash, logSize)
  {
    FinalScanOf(v, f, g, logSize);
    FinalScanOf(v, f, WithoutHint(g), logSize);
    var from, all := NewestFrom(v, f, StartIndex(g, logSize) / BUNDLE, logSize), NewestFrom(v, f, 0, logSize);
    if from.Some? {
      StartIsInLog(v, f, g, logSize);
      InterchangeableConsultedAlike(v, from.value, all.value, g.artifact(all.value.artifactVersion), leafHash);
    }
  }

  lemma StartIsInLog(v: Verifier, f: Fetcher, g: Fetcher, logSize: U64)
    requires Served(f, logSize) && NewestFrom(v, f, StartIndex(g, logSize) / BUNDLE, logSize).Some?
    ensures StartIndex(g, logSize) / BUNDLE * BUNDLE < logSize
  {}

  lemma HarmlessSelectsAlike(v: Verifier, f: Fetcher, logSize: U64)
    requires Readable(f, logSize) && Served(f, logSize) && HintIsHarmless(v, f, logSize)
    ensures SelectsAlike(v, f, logSize)
  {
    forall b: nat | b * BUNDLE < logSize && NewestFrom(v, f, b, logSize).Some?
      ensures NewestFrom(v, f, 0, logSize).Some?
      ensures Interchangeable(v, NewestFrom(v, f, b, logSize).value, NewestFrom(v, f, 0, logSize).value)
    {
      LaterIsInAll(v, f, logSize, b);
      if !Interchangeable(v, NewestFrom(v, f, b, logSize).value, NewestFrom(v, f, 0, logSize).value) {
        HarmfulHint(v, f, logSize, b);
      }
    }
  }

  lemma LaterIsInAll(v: Verifier, f: Fetcher, logSize: U64, b: nat)
    requires Readable(f, logSize) && Served(f, logSize) && NewestFrom(v, f, b, logSize).Some?
    ensures NewestFrom(v, f, 0, logSize).Some?
  {
    var c, i := NewestFromIsFirst(v, f, logSize, b);
    var d, j := NewestFromIsFirst(v, f, logSize, 0);
    assert Holds(v, f, logSize, c, i);
  }

  /** If scans from bundle b and from the beginning select anchors that are not
      interchangeable, a hint at that bundle changes an outcome. */
  lemma HarmfulHint(v: Verifier, f: Fetcher, logSize: U64, b: nat)
    requires Readable(f, logSize) && Served(f, logSize) && b * BUNDLE < logSize
    requires NewestFrom(v, f, b, logSize).Some? && NewestFrom(v, f, 0, logSize).Some?
    requires !Interchangeable(v, NewestFrom(v, f, b, logSize).value, NewestFrom(v, f, 0, logSize).value)
    ensures !HintIsHarmless(v, f, logSize)
  {
    var artifact := ToldApart(v, NewestFrom(v, f, b, logSize).value, NewestFrom(v, f, 0, logSize).value);
    var at: U64 := b * BUNDLE;
    var g := WithHint(f.(artifact := artifact), at);
    FinalScanOf(v, f, g, logSize);
    FinalScanOf(v, f, WithoutHint(g), logSize);
    assert StartIndex(g, logSize) / BUNDLE == b;
    assert !SameAnswer(Resolved(v, g, ZeroHash(), logSize), Resolved(v, WithoutHint(g), ZeroHash(), logSize));
  }

  /** If the log can be read, hints change no answer exactly when the newest trusted
      anchors close the log in the sense above. */
  lemma HintMattersExactlyWhen(v: Verifier, f: Fetcher, logSize: U64)
    requires Readable(f, logSize)
    ensures HintIsHarmless(v, f, logSize) <==> EndsWithTheNewest(v, f, logSize)
  {
    forall b: nat
      ensures LeavesFrom(f, 0, b, logSize).Success?
    {
      ReadableIsServed(f, 0, b, logSize);
    }
    if EndsWithTheNewest(v, f, logSize) {
      EndsWithTheNewestSelectsAlike(v, f, logSize);
      SelectsAlikeIsHarmless(v, f, logSize);
    }
    if HintIsHarmless(v, f, logSize) {
      HarmlessSelectsAlike(v, f, logSize);
      SelectsAlikeEndsWithTheNewest(v, f, logSize);
    }
  }
}
