/** Publications under versions that need not be new, with leaves of others between them:
    what every checkpoint then shows, from wherever the hint makes the scan start. */
module Recovery {
  import opened Bytes
  import opened Crypto
  import opened Resolution
  import opened ResolutionProperties
  import opened Order
  import opened Publication
  import opened PublicationProperties
  import opened Reconciliation

  // ----- What such publications leave behind

  /** Only artifacts of the versions v + 1 to v + k differ. */
  ghost predicate Kept(before: map<U64, Bytes>, after: map<U64, Bytes>, v: nat, k: nat) {
    forall version :: version in before && !(v < version <= v + k) ==>
      version in after && after[version] == before[version]
  }

  /** From index n on, the anchors have the versions v + 1, v + 2, ... and are backed. */
  ghost predicate GoodFrom(p: Issuer, objects: map<U64, Bytes>, log: seq<Slot>, n: nat, v: nat) {
    forall i :: n <= i < |log| ==> GoodAt(p, objects, log, n, v, i)
  }

  ghost predicate GoodAt(p: Issuer, objects: map<U64, Bytes>, log: seq<Slot>, n: nat, v: nat, i: nat)
    requires n <= i < |log|
  {
    GoodSlot(p, objects, log[i], v + Count(log[n..i + 1]))
  }

  /** t is s after k publications under the versions v + 1 to v + k, in that order among
      leaves of others: each anchor is backed by its artifact, and only the artifacts
      of those versions have been replaced. */
  ghost predicate Republished(p: Issuer, s: State, t: State, v: nat, k: nat) {
    && s.log <= t.log && |t.log| <= TWO64 - BUNDLE && v + k < TWO64
    && Count(t.log[|s.log|..]) == k
    && GoodFrom(p, t.objects, t.log, |s.log|, v)
    && Kept(s.objects, t.objects, v, k)
  }

  lemma NothingRepublished(p: Issuer, s: State, v: nat)
    requires |s.log| <= TWO64 - BUNDLE && v < TWO64
    ensures Republished(p, s, s, v, 0)
  {
    assert s.log[|s.log|..] == [];
  }

  lemma RankSince(log: seq<Slot>, n: nat, slot: Slot, more: seq<Slot>, i: nat)
    requires more == log + [slot] && n <= |log| && n <= i < |more|
    ensures more[i] == if i < |log| then log[i] else slot
    ensures i < |log| ==> Count(more[n..i + 1]) == Count(log[n..i + 1]) <= Count(log[n..])
    ensures i == |log| ==> Count(more[n..i + 1]) == Count(log[n..]) + if slot.Anchor? then 1 else 0
    ensures Count(more[n..]) == Count(log[n..]) + if slot.Anchor? then 1 else 0
  {
    Snoc(log[n..], slot);
    assert more[n..] == log[n..] + [slot];
    if i < |log| {
      assert more[n..i + 1] == log[n..i + 1] == log[n..][..i + 1 - n];
      CountOfPrefix(log[n..], i + 1 - n);
    } else {
      assert more[n..i + 1] == more[n..];
    }
  }

  /** One leaf more: somebody else's, or the anchor of the next version. */
  lemma OneMoreSlot(p: Issuer, s: State, t: State, v: nat, k: nat, u: State, slot: Slot, raw: Bytes)
    requires Republished(p, s, t, v, k) && HasRoom(t) && v + k + 1 < TWO64
    requires u.log == t.log + [slot]
    requires u.objects == if slot.Anchor? then t.objects[v + k + 1 := raw] else t.objects
    requires GoodSlot(p, u.objects, slot, v + k + if slot.Anchor? then 1 else 0)
    ensures Republished(p, s, u, v, k + if slot.Anchor? then 1 else 0)
  {
    RankSince(t.log, |s.log|, slot, u.log, |t.log|);
    OthersStay(s.objects, t.objects, v, k, u.objects, slot, raw);
    SlotsStayGood(p, s, t, v, k, u.objects, u.log, slot, raw);
  }

  lemma OthersStay(a: map<U64, Bytes>, b: map<U64, Bytes>, v: nat, k: nat, c: map<U64, Bytes>, slot: Slot, raw: Bytes)
    requires v + k + 1 < TWO64 && Kept(a, b, v, k)
    requires c == if slot.Anchor? then b[v + k + 1 := raw] else b
    ensures Kept(a, c, v, k + if slot.Anchor? then 1 else 0)
  {}

  lemma SlotsStayGood(p: Issuer, s: State, t: State, v: nat, k: nat, objects: map<U64, Bytes>, log: seq<Slot>, slot: Slot, raw: Bytes)
    requires Republished(p, s, t, v, k) && v + k + 1 < TWO64 && log == t.log + [slot]
    requires objects == t.objects || objects == t.objects[v + k + 1 := raw]
    requires GoodSlot(p, objects, slot, v + k + if slot.Anchor? then 1 else 0)
    ensures GoodFrom(p, objects, log, |s.log|, v)
  {
    forall i | |s.log| <= i < |log|
      ensures GoodAt(p, objects, log, |s.log|, v, i)
    {
      SlotStaysGood(p, s, t, v, k, objects, log, slot, raw, i);
    }
  }

  lemma SlotStaysGood(p: Issuer, s: State, t: State, v: nat, k: nat, objects: map<U64, Bytes>, log: seq<Slot>,
                      slot: Slot, raw: Bytes, i: nat)
    requires Republished(p, s, t, v, k) && v + k + 1 < TWO64
    requires log == t.log + [slot] && |s.log| <= i < |log|
    requires objects == t.objects || objects == t.objects[v + k + 1 := raw]
    requires GoodSlot(p, objects, slot, v + k + if slot.Anchor? then 1 else 0)
    ensures GoodAt(p, objects, log, |s.log|, v, i)
  {
    RankSince(t.log, |s.log|, slot, log, i);
    assert i < |t.log| ==> GoodAt(p, t.objects, t.log, |s.log|, v, i);
    if i < |t.log| && objects != t.objects {
      StoringKeepsSlot(p, t.objects, v + k + 1, raw, t.log[i], v + Count(t.log[|s.log|..i + 1]));
    }
  }

  // ----- The calls that do it

  /** A call that loads another set than its own, and fails at nothing after that before
      the hint write. */
  lemma ContinuedPublishes(p: Issuer, a: State, c: Call) returns (raw: Bytes)
    requires a.pc.Loaded? && HasRoom(a) && c.size.Some? && c.artifactWrite.Done? && c.appendOk
    requires a.pc.prev.Some? ==> a.pc.prev.value.withdrawn != a.pc.entries
    requires RoundTrips(p.documents) && Preserved(p.documents, a.pc.entries)
    ensures var t, version := Continued(p, a, c), NextVersion(a.pc.prevVersion);
      && t.pc.Idle? && t.objects == a.objects[version := raw]
      && t.log == a.log + [Anchor(NewAnchor(p, version, p.crypto.hash(raw), c.now), a.pc.entries)]
      && t.hint == (if c.hintWrite.Lost? then a.hint else Some(p.documents.encodeHint(Hint(version, |a.log|))))
      && raw == p.documents.encodeArtifact(Document(c.size.value, version, c.now, a.pc.entries))
      && p.documents.parseArtifact(raw) == Success(Document(c.size.value, version, c.now, a.pc.entries))
  {
    raw := p.documents.encodeArtifact(Document(c.size.value, NextVersion(a.pc.prevVersion), c.now, a.pc.entries));
  }

  lemma NewSlotIsGood(p: Issuer, objects: map<U64, Bytes>, version: U64, raw: Bytes, now: U64, entries: seq<Entry>)
    requires Sound(p.crypto) && Sorted(entries, LeafHashKey)
    requires p.documents.parseArtifact(raw).Success? && p.documents.parseArtifact(raw).value.withdrawn == entries
    ensures GoodSlot(p, objects[version := raw], Anchor(NewAnchor(p, version, p.crypto.hash(raw), now), entries), version)
  {}

  /** What the hint leads a call to. */
  ghost function Loads(p: Issuer, s: State, c: Call): (Option<Artifact>, U64) {
    Load(p.documents, s, c.hintRead, c.artifactRead)
  }

  /** Nothing fails between the two reads of the beginning and the hint write. */
  predicate Appends(c: Call) {
    c.size.Some? && c.artifactWrite.Done? && c.appendOk
  }

  /** What a call that publishes leaves behind. */
  lemma CallPublishes(p: Issuer, t: State, c: Call, entries: seq<Entry>) returns (raw: Bytes)
    requires RoundTrips(p.documents) && MayBegin(p, t, c, entries) && Preserved(p.documents, entries) && Appends(c)
    requires Loads(p, t, c).0.Some? ==> Loads(p, t, c).0.value.withdrawn != entries
    ensures var u, version := Called(p, t, c, entries), NextVersion(Loads(p, t, c).1);
      && u.pc.Idle? && u.objects == t.objects[version := raw]
      && u.log == t.log + [Anchor(NewAnchor(p, version, p.crypto.hash(raw), c.now), entries)]
      && u.hint == (if c.hintWrite.Lost? then t.hint else Some(p.documents.encodeHint(Hint(version, |t.log|))))
      && raw == p.documents.encodeArtifact(Document(c.size.value, version, c.now, entries))
      && p.documents.parseArtifact(raw) == Success(Document(c.size.value, version, c.now, entries))
  {
    raw := ContinuedPublishes(p, Step(p, t, Begin(c.withdrawn, entries, c.hintRead, c.artifactRead)), c);
  }

  /** A call whose hint leads to version v + k, to no artifact or to another set, adds
      the publication of v + k + 1. */
  lemma CallRepublishes(p: Issuer, s: State, t: State, v: nat, k: nat, c: Call, entries: seq<Entry>) returns (raw: Bytes)
    requires Sound(p.crypto) && RoundTrips(p.documents)
    requires Republished(p, s, t, v, k) && v + k + 1 < TWO64
    requires MayBegin(p, t, c, entries) && Preserved(p.documents, entries) && Appends(c)
    requires Loads(p, t, c).1 == v + k && (Loads(p, t, c).0.Some? ==> Loads(p, t, c).0.value.withdrawn != entries)
    ensures var u := Called(p, t, c, entries);
      && Republished(p, s, u, v, k + 1) && u.pc.Idle? && |u.log| == |t.log| + 1
      && Committed(u.log) == Some(entries) && LastIndex(u.log) == |t.log|
      && u.log[|t.log|].Anchor? && u.log[|t.log|].anchor.artifactVersion == v + k + 1
      && u.hint == (if c.hintWrite.Lost? then t.hint else Some(p.documents.encodeHint(Hint(v + k + 1, |t.log|))))
      && u.objects == t.objects[v + k + 1 := raw]
      && raw == p.documents.encodeArtifact(Document(c.size.value, v + k + 1, c.now, entries))
  {
    raw := CallPublishes(p, t, c, entries);
    AnchorAdded(p, s, t, v, k, Called(p, t, c, entries), raw, c.now, entries);
  }

  lemma AnchorAdded(p: Issuer, s: State, t: State, v: nat, k: nat, u: State, raw: Bytes, now: U64, entries: seq<Entry>)
    requires Sound(p.crypto) && Sorted(entries, LeafHashKey)
    requires Republished(p, s, t, v, k) && v + k + 1 < TWO64 && HasRoom(t)
    requires p.documents.parseArtifact(raw).Success? && p.documents.parseArtifact(raw).value.withdrawn == entries
    requires u.objects == t.objects[v + k + 1 := raw]
    requires u.log == t.log + [Anchor(NewAnchor(p, v + k + 1, p.crypto.hash(raw), now), entries)]
    ensures Republished(p, s, u, v, k + 1)
    ensures Committed(u.log) == Some(entries) && LastIndex(u.log) == |t.log|
  {
    var slot := u.log[|t.log|];
    NewSlotIsGood(p, t.objects, v + k + 1, raw, now, entries);
    Snoc(t.log, slot);
    OneMoreSlot(p, s, t, v, k, u, slot, raw);
  }

  /** The hint names the last anchor, of this version. */
  predicate HintNamesLast(p: Issuer, t: State, version: nat) {
    0 <= LastIndex(t.log) < TWO64 && version < TWO64 && t.hint == Some(p.documents.encodeHint(Hint(version, LastIndex(t.log))))
  }

  lemma LastSince(t: seq<Slot>, n: nat)
    requires n <= |t| && Count(t[n..]) > 0
    ensures LastIndex(t) == n + LastIndex(t[n..]) >= n && Committed(t) == Committed(t[n..])
  {
    IndexSince(t, n, t[n..]);
    CommittedSince(t, n, t[n..]);
  }

  lemma IndexSince(t: seq<Slot>, n: nat, since: seq<Slot>)
    requires n <= |t| && since == t[n..] && Count(since) > 0
    ensures LastIndex(t) == n + LastIndex(since) >= n
  {
    CountAndLast(since);
    LastIndexSince(t, n);
  }

  lemma CommittedSince(t: seq<Slot>, n: nat, since: seq<Slot>)
    requires n <= |t| && since == t[n..] && LastIndex(t) == n + LastIndex(since) >= n
    ensures Committed(t) == Committed(since)
  {}

  lemma CountSinceLast(t: seq<Slot>, n: nat, since: seq<Slot>, m: nat)
    requires n <= m <= |t| && since == t[n..] && m - n == LastIndex(since) + 1 > 0
    ensures Count(t[n..m]) == Count(since)
  {
    CountAtLast(since);
    PrefixOfSuffix(t, n, m);
  }

  lemma LastOfSince(t: seq<Slot>, n: nat) returns (i: nat)
    requires n <= |t| && Count(t[n..]) > 0
    ensures n <= i == LastIndex(t) && t[i].Anchor? && Count(t[n..i + 1]) == Count(t[n..])
  {
    IndexSince(t, n, t[n..]);
    i := LastIndex(t);
    CountSinceLast(t, n, t[n..], i + 1);
  }

  lemma PrefixOfSuffix(t: seq<Slot>, n: nat, m: nat)
    requires n <= m <= |t|
    ensures t[n..][..m - n] == t[n..m] == t[..m][n..]
  {}

  lemma {:induction false} LastIndexSince(t: seq<Slot>, n: nat)
    requires n <= |t|
    ensures LastIndex(t[n..]) >= 0 ==> LastIndex(t) == n + LastIndex(t[n..])
    ensures LastIndex(t[n..]) < 0 ==> LastIndex(t) < n
  {
    if n < |t| {
      var m := |t| - 1;
      PrefixOfSuffix(t, n, m);
      LastIndexSince(t[..m], n);
    }
  }

  lemma LastIsPublished(p: Issuer, s: State, t: State, v: nat, k: nat)
    requires Republished(p, s, t, v, k) && k > 0
    ensures v + k in t.objects && LastIndex(t.log) >= |s.log|
    ensures var parsed := p.documents.parseArtifact(t.objects[v + k]);
      parsed.Success? && Committed(t.log) == Some(parsed.value.withdrawn)
  {
    var slot := LastIsBacked(p, s, t, v, k);
  }

  lemma LastIsBacked(p: Issuer, s: State, t: State, v: nat, k: nat) returns (slot: Slot)
    requires Republished(p, s, t, v, k) && k > 0
    ensures slot.Anchor? && slot.anchor.artifactVersion == v + k
    ensures LastIndex(t.log) >= |s.log| && Committed(t.log) == Some(slot.withdrawn)
    ensures Backed(p, t.objects, slot.anchor.artifactVersion, slot.anchor.artifactHash, slot.withdrawn)
  {
    var i := LastOfSince(t.log, |s.log|);
    AnchorSince(p, s, t, v, k, i);
    slot := t.log[i];
  }

  lemma AnchorSince(p: Issuer, s: State, t: State, v: nat, k: nat, i: nat)
    requires Republished(p, s, t, v, k) && |s.log| <= i < |t.log| && t.log[i].Anchor?
    ensures var a := t.log[i].anchor;
      && a.artifactVersion == v + Count(t.log[|s.log|..i + 1])
      && Backed(p, t.objects, a.artifactVersion, a.artifactHash, t.log[i].withdrawn)
  {
    var rank := v + Count(t.log[|s.log|..i + 1]);
    assert GoodAt(p, t.objects, t.log, |s.log|, v, i);
    SlotIsBacked(p, t.objects, t.log[i], rank);
  }

  lemma HintLeadsTo(p: Issuer, t: State, version: U64, index: U64, c: Call)
    requires RoundTrips(p.documents) && c.hintRead && c.artifactRead
    requires t.hint == Some(p.documents.encodeHint(Hint(version, index)))
    requires version in t.objects && p.documents.parseArtifact(t.objects[version]).Success?
    ensures Loads(p, t, c) == (Some(p.documents.parseArtifact(t.objects[version]).value), version)
  {}

  lemma RepublishedLoads(p: Issuer, s: State, t: State, v: nat, k: nat, c: Call)
    requires RoundTrips(p.documents) && Republished(p, s, t, v, k) && k > 0 && HintNamesLast(p, t, v + k)
    requires c.hintRead && c.artifactRead
    ensures var (prev, version) := Loads(p, t, c);
      version == v + k && prev.Some? && Committed(t.log) == Some(prev.value.withdrawn)
  {
    LastIsPublished(p, s, t, v, k);
    HintLeadsTo(p, t, v + k, LastIndex(t.log), c);
  }

  /** Each later call, its reads succeeding: under the next version if its set is another
      than the last, and otherwise without a write. */
  lemma RepublishingContinues(p: Issuer, s: State, t: State, v: nat, k: nat, c: Call, entries: seq<Entry>)
    requires Sound(p.crypto) && RoundTrips(p.documents)
    requires Republished(p, s, t, v, k) && k > 0 && v + k + 1 < TWO64 && HintNamesLast(p, t, v + k)
    requires MayBegin(p, t, c, entries) && Preserved(p.documents, entries) && c.FaultFree()
    ensures var u := Called(p, t, c, entries);
      if Committed(t.log) == Some(entries) then u == t
      else Republished(p, s, u, v, k + 1) && HintNamesLast(p, u, v + k + 1) && Committed(u.log) == Some(entries)
  {
    RepublishedLoads(p, s, t, v, k, c);
    if Committed(t.log) != Some(entries) {
      var raw := CallRepublishes(p, s, t, v, k, c, entries);
    }
  }

  /** And a leaf of somebody else in between. */
  lemma ForeignStaysRepublished(p: Issuer, s: State, t: State, v: nat, k: nat, leaf: Bytes)
    requires Republished(p, s, t, v, k) && v + k + 1 < TWO64 && Enabled(p, t, Foreign(leaf))
    ensures var u := Step(p, t, Foreign(leaf));
      && Republished(p, s, u, v, k) && Committed(u.log) == Committed(t.log)
      && forall version: nat :: HintNamesLast(p, t, version) ==> HintNamesLast(p, u, version)
  {
    Snoc(t.log, Other(leaf));
    OneMoreSlot(p, s, t, v, k, Step(p, t, Foreign(leaf)), Other(leaf), []);
  }

  // ----- What a scan finds

  /** Bundles cut at a checkpoint, and every stored artifact. Nothing is asked of the hint. */
  ghost predicate ServesAll(f: Fetcher, t: State, size: U64)
    requires size <= |t.log|
  {
    && (forall pass: nat, b: nat :: b * BUNDLE < size ==> f.bundle(pass, b) == Success(Bundle(Raws(t.log), b, size)))
    && forall version :: version in t.objects ==> f.artifact(version) == Success(t.objects[version])
  }

  /** Where the bundle of the start index begins. */
  function StartOf(f: Fetcher, size: U64): nat {
    StartIndex(f, size) / BUNDLE * BUNDLE
  }

  lemma StartInLog(f: Fetcher, size: U64)
    ensures StartOf(f, size) <= StartIndex(f, size) && StartOf(f, size) <= size
  {}

  lemma ServedFrom(f: Fetcher, t: State, size: U64, pass: nat, b: nat)
    requires size <= |t.log| && ServesAll(f, t, size) && b * BUNDLE <= size
    ensures LeavesFrom(f, pass, b, size) == Success(Raws(t.log[..size][b * BUNDLE..]))
  {
    HonestlyServed(f, t.(objects := map[]), size, pass, b);
    assert Raws(t.log)[b * BUNDLE..size] == Raws(t.log[..size][b * BUNDLE..]);
  }

  /** The first pass, and the second if the first found nothing. */
  lemma FinalScanServed(v: Verifier, f: Fetcher, t: State, size: U64)
    requires size <= |t.log| && ServesAll(f, t, size)
    ensures var all, part := Raws(t.log[..size]), Raws(t.log[..size][StartOf(f, size)..]);
      FinalScan(v, f, size) == Success(
        if Newest(v, part).Some? then Scan(Newest(v, part), SawUntrusted(v, part))
        else Scan(Newest(v, all), SawUntrusted(v, all)))
  {
    StartInLog(f, size);
    ServedFrom(f, t, size, 0, StartIndex(f, size) / BUNDLE);
    ServedFrom(f, t, size, 1, 0);
    assert t.log[..size][0..] == t.log[..size];
  }

  // ----- Which anchor it selects

  /** What is below the checkpoint of s, and what came since. */
  function Before(s: State, size: nat): seq<Slot> {
    s.log[..Min(size, |s.log|)]
  }

  function Since(s: State, t: State, size: nat): seq<Slot>
    requires size <= |t.log|
  {
    t.log[Min(size, |s.log|)..size]
  }

  lemma Parts(p: Issuer, s: State, t: State, v: nat, k: nat, size: nat)
    requires GoodLog(p, s) && Republished(p, s, t, v, k) && size <= |t.log|
    ensures t.log[..size] == Before(s, size) + Since(s, t, size)
    ensures Ranked(Before(s, size), 0) && Ranked(Since(s, t, size), v)
    ensures Count(Since(s, t, size)) <= k
  {
    var n := Min(size, |s.log|);
    assert s.log == t.log[..|s.log|];
    assert t.log[..size] == t.log[..n] + t.log[n..size];
    GoodIsRanked(p, s);
    RankedPrefix(s.log, 0, n);
    SinceIsRanked(p, s, t, v, k, size);
  }

  lemma SinceIsRanked(p: Issuer, s: State, t: State, v: nat, k: nat, size: nat)
    requires Republished(p, s, t, v, k) && size <= |t.log|
    ensures Ranked(Since(s, t, size), v) && Count(Since(s, t, size)) <= k
  {
    var after := Since(s, t, size);
    if size > |s.log| {
      PrefixOfSuffix(t.log, |s.log|, size);
      CountOfPrefix(t.log[|s.log|..], size - |s.log|);
    }
    forall i | 0 <= i < |after|
      ensures RankedAt(after, v, i)
    {
      var j := |s.log| + i;
      assert after[i] == t.log[j] && after[..i + 1] == t.log[|s.log|..j + 1];
      if after[i].Anchor? {
        AnchorSince(p, s, t, v, k, j);
      }
    }
  }

  lemma TrustsRepublished(p: Issuer, s: State, t: State, v: nat, k: nat, w: Verifier, size: nat)
    requires GoodLog(p, s) && Republished(p, s, t, v, k) && Pins(w, p) && SameLibraries(w, p) && size <= |t.log|
    ensures TrustedAnchors(w, Raws(t.log[..size])) == Found(t.log[..size])
    ensures SawUntrusted(w, Raws(t.log[..size])) <==> HasStrange(t.log[..size])
  {
    forall i | 0 <= i < size
      ensures OwnSlot(p, t.log[..size][i])
    {
      if i < |s.log| {
        assert t.log[i] == s.log[i];
        assert GoodPosition(p, s.objects, s.log, i);
        GoodIsOwn(p, s.objects, s.log[i], Count(s.log[..i + 1]));
      } else {
        assert GoodAt(p, t.objects, t.log, |s.log|, v, i);
        GoodIsOwn(p, t.objects, t.log[i], v + Count(t.log[|s.log|..i + 1]));
      }
    }
    TrustsOwn(p, t.log[..size], w);
  }

  lemma TrustsSuffix(w: Verifier, log: seq<Slot>, o: nat)
    requires o <= |log| && TrustedAnchors(w, Raws(log)) == Found(log)
    ensures Newest(w, Raws(log[o..])) == NewestOf(Found(log[o..]))
  {
    assert TrustedAnchors(w, Raws(log[o..])) == TrustedAnchors(w, Raws(log))[o..];
    assert Found(log[o..]) == Found(log)[o..];
  }

  /** Whose anchor is selected: the last of before, the last since, or nobody's. */
  datatype Selected = Old | New | Nobody

  /** From index o on, an old anchor is seen if the last one lies there, and so for a new
      one; if both are, the greater version wins, and the old one where they are equal. */
  function SelectedFrom(before: seq<Slot>, after: seq<Slot>, v: nat, o: nat): Selected {
    var oldSeen, newSeen := LastIndex(before) >= o, LastIndex(after) >= 0 && |before| + LastIndex(after) >= o;
    if newSeen && (!oldSeen || v + Count(after) > Count(before)) then New
    else if oldSeen then Old
    else Nobody
  }

  lemma FoundJoin(a: seq<Slot>, b: seq<Slot>)
    ensures Found(a + b) == Found(a) + Found(b)
  {}

  lemma SuffixOfJoin(a: seq<Slot>, b: seq<Slot>, o: nat)
    requires o <= |a| + |b|
    ensures var m := Min(o, |a|); (a + b)[o..] == a[m..] + b[o - m..]
  {
    if o <= |a| {
      assert (a + b)[o..] == a[o..] + b && b[0..] == b;
    } else {
      assert (a + b)[o..] == b[o - |a|..] && a[|a|..] == [];
    }
  }

  lemma SelectedIsNewest(before: seq<Slot>, after: seq<Slot>, v: nat, o: nat)
    requires Ranked(before, 0) && Ranked(after, v) && o <= |before| + |after|
    ensures NewestOf(Found((before + after)[o..])) ==
      match SelectedFrom(before, after, v, o)
      case New => LastAnchor(after)
      case Old => LastAnchor(before)
      case Nobody => None
  {
    var m := Min(o, |before|);
    NewestAfter(before, after, o);
    NewestInSuffix(before, 0, m);
    NewestInSuffix(after, v, o - m);
  }

  lemma NewestAfter(before: seq<Slot>, after: seq<Slot>, o: nat)
    requires o <= |before| + |after|
    ensures var m := Min(o, |before|);
      NewestOf(Found((before + after)[o..])) == Better(NewestOf(Found(before[m..])), NewestOf(Found(after[o - m..])))
  {
    var m := Min(o, |before|);
    SuffixOfJoin(before, after, o);
    FoundJoin(before[m..], after[o - m..]);
    NewestJoin(Found(before[m..]), Found(after[o - m..]));
  }

  /** Whose anchor a resolution acts on, after its second pass if it makes one. */
  function Acts(before: seq<Slot>, after: seq<Slot>, v: nat, o: nat): Selected {
    if SelectedFrom(before, after, v, o).Nobody? then SelectedFrom(before, after, v, 0) else SelectedFrom(before, after, v, o)
  }

  lemma ScanActs(p: Issuer, s: State, t: State, v: nat, k: nat, w: Verifier, f: Fetcher, size: U64)
    requires GoodLog(p, s) && Republished(p, s, t, v, k) && Pins(w, p) && SameLibraries(w, p)
    requires size <= |t.log| && ServesAll(f, t, size)
    ensures var before, after := Before(s, size), Since(s, t, size);
      var scan := FinalScan(w, f, size);
      && scan.Success?
      && (match Acts(before, after, v, StartOf(f, size))
          case New => scan.value.newest == LastAnchor(after)
          case Old => scan.value.newest == LastAnchor(before)
          case Nobody => scan.value == Scan(None, HasStrange(t.log[..size])))
  {
    Parts(p, s, t, v, k, size);
    TrustsRepublished(p, s, t, v, k, w, size);
    StartInLog(f, size);
    NewestActs(w, Before(s, size), Since(s, t, size), t.log[..size], v, StartOf(f, size));
    FinalScanServed(w, f, t, size);
  }

  lemma NewestActs(w: Verifier, before: seq<Slot>, after: seq<Slot>, log: seq<Slot>, v: nat, o: nat)
    requires Ranked(before, 0) && Ranked(after, v) && log == before + after && o <= |log|
    requires TrustedAnchors(w, Raws(log)) == Found(log)
    ensures var all, part := Newest(w, Raws(log)), Newest(w, Raws(log[o..]));
      (if part.Some? then part else all) ==
        match Acts(before, after, v, o)
        case New => LastAnchor(after)
        case Old => LastAnchor(before)
        case Nobody => None
    ensures Newest(w, Raws(log[o..])).Some? ==> !Acts(before, after, v, o).Nobody?
  {
    TrustsSuffix(w, log, o);
    SelectedIsNewest(before, after, v, o);
    TrustsSuffix(w, log, 0);
    assert log[0..] == log;
    SelectedIsNewest(before, after, v, 0);
  }

  // ----- What it answers

  /** Writing the artifact of a version again left its hash as it was. */
  ghost predicate SameHash(p: Issuer, s: State, t: State, version: U64) {
    version in s.objects && version in t.objects && p.crypto.hash(s.objects[version]) == p.crypto.hash(t.objects[version])
  }

  /** The set in the artifact stored under a version. */
  ghost function StoredSet(p: Issuer, t: State, version: U64): seq<Entry> {
    if version in t.objects && p.documents.parseArtifact(t.objects[version]).Success?
    then p.documents.parseArtifact(t.objects[version]).value.withdrawn else []
  }

  /** What a resolution answers at a checkpoint, before those publications or since. A
      new anchor shows its set. An old one shows its own while its artifact stands, and
      once it has been replaced a mismatch, or what the new artifact lists if that
      happens to have the same hash. */
  ghost function Shown(p: Issuer, s: State, t: State, v: nat, k: nat, size: nat, o: nat, leafHash: Hash): Outcome
    requires size <= |t.log|
  {
    var before, after, m := Before(s, size), Since(s, t, size), Count(Before(s, size));
    match Acts(before, after, v, o)
    case New => Answer(p.documents, after, leafHash)
    case Nobody => Answer(p.documents, t.log[..size], leafHash)
    case Old =>
      if !(v < m <= v + k) || m >= TWO64 then Answer(p.documents, before, leafHash)
      else if SameHash(p, s, t, m) then Listed(p.documents, StoredSet(p, t, m), leafHash)
      else Inconclusive(ArtifactHashMismatch, None)
  }

  lemma LastBefore(s: State, size: nat)
    requires LastIndex(Before(s, size)) >= 0
    ensures var i := LastIndex(Before(s, size));
      && i < |s.log| && s.log[i].Anchor? && Count(s.log[..i + 1]) == Count(Before(s, size)) > 0
      && LastAnchor(Before(s, size)) == Some(s.log[i].anchor)
      && Committed(Before(s, size)) == Some(s.log[i].withdrawn)
  {
    var log := Before(s, size);
    CountAndLast(log);
    CountAtLast(log);
    assert log[..LastIndex(log) + 1] == s.log[..LastIndex(log) + 1];
  }

  lemma OldConsulted(p: Issuer, s: State, t: State, v: nat, k: nat, w: Verifier, f: Fetcher, leafHash: Hash, i: nat, m: nat)
    requires GoodLog(p, s) && Republished(p, s, t, v, k) && SameLibraries(w, p)
    requires i < |s.log| && s.log[i].Anchor? && m == Count(s.log[..i + 1])
    requires forall version :: version in t.objects ==> f.artifact(version) == Success(t.objects[version])
    ensures m < TWO64
    ensures Consulted(w, s.log[i].anchor, f.artifact(s.log[i].anchor.artifactVersion), leafHash) ==
      if !(v < m <= v + k) then Listed(p.documents, s.log[i].withdrawn, leafHash)
      else if SameHash(p, s, t, m) then Listed(p.documents, StoredSet(p, t, m), leafHash)
      else Inconclusive(ArtifactHashMismatch, None)
  {
    AnchorIsBacked(p, s, i);
    if !(v < m <= v + k) {
      BackedConsulted(p, t.objects, s.log[i], w, f, leafHash);
    } else {
      ReplacedIsBacked(p, s, t, v, k, m);
    }
  }

  lemma AnchorOfVersion(t: seq<Slot>, n: nat, r: nat) returns (i: nat)
    requires n <= |t| && 1 <= r <= Count(t[n..])
    ensures n <= i < |t| && t[i].Anchor? && Count(t[n..i + 1]) == r
  {
    i := AnchorOfRank(t[n..], r);
    PrefixOfSuffix(t, n, n + i + 1);
    i := n + i;
  }

  lemma BackedIn(p: Issuer, s: State, t: State, v: nat, k: nat, m: U64) returns (slot: Slot)
    requires Republished(p, s, t, v, k) && v < m <= v + k
    ensures slot.Anchor? && slot.anchor.artifactVersion == m
    ensures Backed(p, t.objects, slot.anchor.artifactVersion, slot.anchor.artifactHash, slot.withdrawn)
  {
    var i := AnchorOfVersion(t.log, |s.log|, m - v);
    AnchorSince(p, s, t, v, k, i);
    slot := t.log[i];
  }

  /** Each of the new versions is stored. */
  lemma ReplacedIsBacked(p: Issuer, s: State, t: State, v: nat, k: nat, m: U64)
    requires Republished(p, s, t, v, k) && v < m <= v + k
    ensures m in t.objects && p.documents.parseArtifact(t.objects[m]).Success?
  {
    var slot := BackedIn(p, s, t, v, k, m);
  }

  lemma {:induction false} AnchorOfRank(log: seq<Slot>, r: nat) returns (i: nat)
    requires 1 <= r <= Count(log)
    ensures i < |log| && log[i].Anchor? && Count(log[..i + 1]) == r
  {
    var n := |log| - 1;
    if log[n].Anchor? && Count(log) == r {
      i := n;
      assert log[..n + 1] == log;
    } else {
      i := AnchorOfRank(log[..n], r);
      assert log[..n][..i + 1] == log[..i + 1];
    }
  }

  lemma NewConsulted(p: Issuer, s: State, t: State, v: nat, k: nat, w: Verifier, f: Fetcher, leafHash: Hash, size: nat)
    requires Republished(p, s, t, v, k) && SameLibraries(w, p) && size <= |t.log|
    requires LastIndex(Since(s, t, size)) >= 0
    requires forall version :: version in t.objects ==> f.artifact(version) == Success(t.objects[version])
    ensures var a := LastAnchor(Since(s, t, size)).value;
      Consulted(w, a, f.artifact(a.artifactVersion), leafHash) == Answer(p.documents, Since(s, t, size), leafHash)
  {
    var after := Since(s, t, size);
    var j := |s.log| + LastIndex(after);
    assert after[LastIndex(after)] == t.log[j];
    AnchorSince(p, s, t, v, k, j);
    BackedConsulted(p, t.objects, t.log[j], w, f, leafHash);
  }

  lemma ResolvedByAnchor(w: Verifier, f: Fetcher, leafHash: Hash, size: U64)
    requires FinalScan(w, f, size).Success? && FinalScan(w, f, size).value.newest.Some?
    ensures var a := FinalScan(w, f, size).value.newest.value;
      Resolved(w, f, leafHash, size) == Consulted(w, a, f.artifact(a.artifactVersion), leafHash)
  {}

  lemma ActsOnAnAnchor(before: seq<Slot>, after: seq<Slot>, v: nat, o: nat)
    ensures Acts(before, after, v, o).New? ==> LastIndex(after) >= 0
    ensures Acts(before, after, v, o).Old? ==> LastIndex(before) >= 0
    ensures Acts(before, after, v, o).Nobody? ==> Committed(before + after).None?
  {
    if Acts(before, after, v, o).Nobody? {
      NoneInEither(before, after);
    }
  }

  lemma NoneInEither(before: seq<Slot>, after: seq<Slot>)
    requires LastIndex(before) < 0 && LastIndex(after) < 0
    ensures LastIndex(before + after) < 0
  {
    LastIndexSince(before + after, |before|);
    assert (before + after)[|before|..] == after;
  }

  lemma NewGoverns(p: Issuer, s: State, t: State, v: nat, k: nat, w: Verifier, f: Fetcher, leafHash: Hash, size: U64)
    requires SameLibraries(w, p) && Republished(p, s, t, v, k) && size <= |t.log| && ServesAll(f, t, size)
    requires LastIndex(Since(s, t, size)) >= 0
    requires FinalScan(w, f, size).Success? && FinalScan(w, f, size).value.newest == LastAnchor(Since(s, t, size))
    ensures Resolved(w, f, leafHash, size) == Answer(p.documents, Since(s, t, size), leafHash)
  {
    NewConsulted(p, s, t, v, k, w, f, leafHash, size);
    ResolvedByAnchor(w, f, leafHash, size);
  }

  lemma OldGoverns(p: Issuer, s: State, t: State, v: nat, k: nat, w: Verifier, f: Fetcher, leafHash: Hash, size: U64)
    requires SameLibraries(w, p) && GoodLog(p, s) && Republished(p, s, t, v, k) && size <= |t.log| && ServesAll(f, t, size)
    requires LastIndex(Before(s, size)) >= 0
    requires FinalScan(w, f, size).Success? && FinalScan(w, f, size).value.newest == LastAnchor(Before(s, size))
    ensures var m := Count(Before(s, size));
      m < TWO64 && Resolved(w, f, leafHash, size) ==
        if !(v < m <= v + k) then Answer(p.documents, Before(s, size), leafHash)
        else if SameHash(p, s, t, m) then Listed(p.documents, StoredSet(p, t, m), leafHash)
        else Inconclusive(ArtifactHashMismatch, None)
  {
    LastBefore(s, size);
    OldConsulted(p, s, t, v, k, w, f, leafHash, LastIndex(Before(s, size)), Count(Before(s, size)));
    ResolvedByAnchor(w, f, leafHash, size);
  }

  /** After any number of publications under versions from v + 1 on, with leaves of others
      among them: what every resolution answers, at every checkpoint, wherever its hint
      makes it start. */
  lemma RepublishedAnswers(p: Issuer, s: State, t: State, v: nat, k: nat, w: Verifier, f: Fetcher, leafHash: Hash, size: U64)
    requires Pins(w, p) && SameLibraries(w, p) && GoodLog(p, s) && Republished(p, s, t, v, k)
    requires size <= |t.log| && ServesAll(f, t, size)
    ensures Resolved(w, f, leafHash, size) == Shown(p, s, t, v, k, size, StartOf(f, size), leafHash)
  {
    var before, after := Before(s, size), Since(s, t, size);
    Parts(p, s, t, v, k, size);
    ScanActs(p, s, t, v, k, w, f, size);
    ActsOnAnAnchor(before, after, v, StartOf(f, size));
    match Acts(before, after, v, StartOf(f, size))
    case New => NewGoverns(p, s, t, v, k, w, f, leafHash, size);
    case Old => OldGoverns(p, s, t, v, k, w, f, leafHash, size);
    case Nobody =>
  }
}
