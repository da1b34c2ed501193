/** The publisher's methods, step by step over the store and the log, and what a
    run of calls adds up to. */
module Reconciliation {
  import opened Bytes
  import opened Crypto
  import opened StatusAnchors
  import opened Resolution
  import opened Order
  import opened Publication

  /** One call of Reconcile: its input, what the clock and the log size say, and
      which of its reads and writes fail. */
  datatype Call = Call(
    withdrawn: seq<Withdrawal>,
    now: U64,
    hintRead: bool,
    artifactRead: bool,
    size: Option<U64>,
    artifactWrite: Write,
    appendOk: bool,
    hintWrite: Write)
  {
    predicate FaultFree() {
      hintRead && artifactRead && size.Some? && artifactWrite.Done? && appendOk && hintWrite.Done?
    }
  }

  datatype PublishResult = PublishResult(changed: bool, version: U64, anchorIndex: U64)

  datatype PublishError = LogSizeFailed | ArtifactFailed | AnchorFailed | HintFailed

  /** The steps of a call after the first, with nobody else in between. */
  ghost function Continued(p: Issuer, s: State, c: Call): State
    requires s.pc.Loaded? && HasRoom(s)
  {
    var measured := Step(p, s, Measure(c.size));
    if measured.pc.Idle? then measured
    else
      var stored := Step(p, measured, PutArtifact(c.now, c.artifactWrite));
      if stored.pc.Idle? then stored
      else
        var anchored := Step(p, stored, Append(c.appendOk));
        if anchored.pc.Idle? then anchored else Step(p, anchored, PutHint(c.hintWrite))
  }

  ghost predicate MayBegin(p: Issuer, s: State, c: Call, entries: seq<Entry>) {
    s.pc.Idle? && HasRoom(s) && Normalised(c.withdrawn, entries)
  }

  /** A whole call. */
  ghost function Called(p: Issuer, s: State, c: Call, entries: seq<Entry>): State
    requires MayBegin(p, s, c, entries)
  {
    Continued(p, Step(p, s, Begin(c.withdrawn, entries, c.hintRead, c.artifactRead)), c)
  }

  /** The publisher's state is good, its hint names the last anchor, and the set has one
      withdrawal for each leaf and strings that can be written down. */
  ghost predicate MayPublish(p: Issuer, s: State, c: Call, entries: seq<Entry>) {
    && Sound(p.crypto) && RoundTrips(p.documents) && Inv(p, s) && HintCurrent(p.documents, s)
    && OnePerLeaf(c.withdrawn) && Preserved(p.documents, entries)
  }

  method Normalise(ws: seq<Withdrawal>) returns (entries: seq<Entry>)
    ensures Normalised(ws, entries)
  {
    var out: seq<Entry> := [];
    for i := 0 to |ws|
      invariant out == ToEntries(ws)[..i]
    {
      out := out + [Entry(ws[i].leafHashB64, ws[i].reason, ws[i].withdrawnAt)];
    }
    assert out == ToEntries(ws);
    entries := SortBy(out, LeafHashKey);
  }

  /** No entry comes after one with a greater leaf hash. */
  lemma NormalisedInOrder(ws: seq<Withdrawal>, entries: seq<Entry>)
    requires Normalised(ws, entries)
    ensures forall i, j :: 0 <= i < j < |entries| ==> !ComesBefore(entries[j].leafHash, entries[i].leafHash)
  {
    forall i, j | 0 <= i < j < |entries|
      ensures !ComesBefore(entries[j].leafHash, entries[i].leafHash)
    {
      LessIsLexicographic(entries[j].leafHash, entries[i].leafHash);
    }
  }

  method SameSet(a: seq<Entry>, b: seq<Entry>) returns (same: bool)
    ensures same <==> a == b
  {
    if |a| != |b| {
      return false;
    }
    for i := 0 to |a|
      invariant a[..i] == b[..i]
    {
      if a[i] != b[i] {
        return false;
      }
    }
    return true;
  }

  class Publisher {
    const issuer: Issuer
    var objects: map<U64, Bytes>
    var hint: Option<Bytes>
    var log: seq<Bytes>
    ghost var slots: seq<Slot>

    ghost predicate Valid()
      reads this
    {
      log == Raws(slots)
    }

    /** The state of the step system between two calls. */
    ghost function View(): State
      reads this
    {
      State(objects, hint, slots, Idle)
    }

    constructor (issuer: Issuer)
      ensures Valid() && View() == START && this.issuer == issuer
    {
      this.issuer := issuer;
      objects, hint, log, slots := map[], None, [], [];
    }

    method CurrentlyPublished(c: Call) returns (prev: Option<Artifact>, version: U64)
      ensures (prev, version) == Load(issuer.documents, View(), c.hintRead, c.artifactRead)
      ensures !c.hintRead || hint.None? || issuer.documents.parseHint(hint.value).Failure? ==> prev == None && version == 0
      ensures c.hintRead && hint.Some? && issuer.documents.parseHint(hint.value).Success? ==>
        && version == issuer.documents.parseHint(hint.value).value.version
        && (prev.Some? <==> c.artifactRead && version in objects && issuer.documents.parseArtifact(objects[version]).Success?)
        && (prev.Some? ==> issuer.documents.parseArtifact(objects[version]) == Success(prev.value))
    {
      if !c.hintRead || hint.None? {
        return None, 0;
      }
      var h := issuer.documents.parseHint(hint.value);
      if h.Failure? {
        return None, 0;
      }
      if !c.artifactRead || h.value.version !in objects {
        return None, h.value.version;
      }
      var artifact := issuer.documents.parseArtifact(objects[h.value.version]);
      if artifact.Failure? {
        return None, h.value.version;
      }
      return Some(artifact.value), h.value.version;
    }

    /** A write of the store; whether it took effect and what it reported. */
    method Put(version: U64, body: Bytes, write: Write) returns (ok: bool)
      modifies this`objects
      ensures objects == if write.Lost? then old(objects) else old(objects)[version := body]
      ensures ok <==> write.Done?
    {
      if !write.Lost? {
        objects := objects[version := body];
      }
      ok := write.Done?;
    }

    method AppendAnchor(anchor: StatusAnchor, ghost withdrawn: seq<Entry>) returns (index: U64)
      requires Valid() && |slots| < TWO64 - BUNDLE
      modifies this`log, this`slots
      ensures Valid() && slots == old(slots) + [Anchor(anchor, withdrawn)]
      ensures index == |old(slots)|
    {
      var leaf := new StatusAnchorLeaf(anchor);
      var bytes := leaf.Marshal();
      index := |log|;
      log := log + [bytes];
      slots := slots + [Anchor(anchor, withdrawn)];
    }

    /** The anchor that commits to an artifact. */
    method SignedAnchor(version: U64, raw: Bytes, now: U64) returns (anchor: StatusAnchor)
      ensures anchor == NewAnchor(issuer, version, issuer.crypto.hash(raw), now)
    {
      var leaf := new StatusAnchorLeaf(StatusAnchor(SCHEMA, version, issuer.crypto.hash(raw), now, ZeroKey(), ZeroSignature()));
      leaf.Sign(issuer.crypto, issuer.secret);
      anchor := leaf.fields;
    }

    /** Publishes the set if it is not the one loaded: the artifact, then the
        anchor, then the hint. */
    method Publish(prev: Option<Artifact>, prevVersion: U64, size: U64, c: Call)
        returns (r: Result<PublishResult, PublishError>, ghost entries: seq<Entry>)
      requires Valid() && HasRoom(View()) && c.size == Some(size)
      modifies this`objects, this`hint, this`log, this`slots
      ensures Valid() && Normalised(c.withdrawn, entries)
      ensures View() == Continued(issuer, old(View()).(pc := Loaded(prev, prevVersion, entries)), c)
      ensures r == Success(PublishResult(false, prevVersion, 0)) <==> prev.Some? && prev.value.withdrawn == entries
      ensures prev.None? || prev.value.withdrawn != entries ==>
        && (!c.artifactWrite.Done? ==> r == Failure(ArtifactFailed))
        && (c.artifactWrite.Done? && !c.appendOk ==> r == Failure(AnchorFailed))
        && (c.artifactWrite.Done? && c.appendOk && !c.hintWrite.Done? ==> r == Failure(HintFailed))
        && (c.artifactWrite.Done? && c.appendOk && c.hintWrite.Done? ==>
              r == Success(PublishResult(true, NextVersion(prevVersion), |old(slots)|)))
      ensures r.Success? && !r.value.changed ==> View() == old(View())
      ensures r.Success? && r.value.changed ==>
        |slots| == |old(slots)| + 1 && hint == Some(issuer.documents.encodeHint(Hint(r.value.version, r.value.anchorIndex)))
      ensures r.Failure? && r.error != HintFailed ==> slots == old(slots) && hint == old(hint)
      ensures r == Failure(HintFailed) ==> |slots| == |old(slots)| + 1
    {
      var set_ := Normalise(c.withdrawn);
      entries := set_;
      if prev.Some? {
        var same := SameSet(prev.value.withdrawn, set_);
        if same {
          return Success(PublishResult(false, prevVersion, 0)), entries;
        }
      }
      var version := NextVersion(prevVersion);
      var raw := issuer.documents.encodeArtifact(Document(size, version, c.now, set_));
      var ok := Put(version, raw, c.artifactWrite);
      if !ok {
        return Failure(ArtifactFailed), entries;
      }
      var anchor := SignedAnchor(version, raw, c.now);
      if !c.appendOk {
        return Failure(AnchorFailed), entries;
      }
      var index := AppendAnchor(anchor, entries);
      if !c.hintWrite.Lost? {
        hint := Some(issuer.documents.encodeHint(Hint(version, index)));
      }
      if !c.hintWrite.Done? {
        return Failure(HintFailed), entries;
      }
      return Success(PublishResult(true, version, index)), entries;
    }

    method Reconcile(c: Call) returns (r: Result<PublishResult, PublishError>, ghost entries: seq<Entry>)
      requires Valid() && HasRoom(View())
      modifies this`objects, this`hint, this`log, this`slots
      ensures Valid() && MayBegin(issuer, old(View()), c, entries)
      ensures View() == Called(issuer, old(View()), c, entries)
      ensures var (prev, version) := Load(issuer.documents, old(View()), c.hintRead, c.artifactRead);
        if c.size.None? then r == Failure(LogSizeFailed)
        else if prev.Some? && prev.value.withdrawn == entries then r == Success(PublishResult(false, version, 0))
        else if !c.artifactWrite.Done? then r == Failure(ArtifactFailed)
        else if !c.appendOk then r == Failure(AnchorFailed)
        else if !c.hintWrite.Done? then r == Failure(HintFailed)
        else r == Success(PublishResult(true, NextVersion(version), |old(slots)|))
      ensures r.Success? && !r.value.changed ==> View() == old(View())
      ensures r.Success? && r.value.changed ==> |slots| == |old(slots)| + 1
      ensures c.FaultFree() && MayPublish(issuer, old(View()), c, entries) ==>
        && r.Success? && (r.value.changed <==> !CommitsTo(old(slots), c.withdrawn))
        && r.value.version == Count(slots) && CommitsTo(slots, c.withdrawn)
    {
      ghost var before := View();
      var prev, prevVersion := CurrentlyPublished(c);
      if c.size.None? {
        var sorted := Normalise(c.withdrawn);
        return Failure(LogSizeFailed), sorted;
      }
      r, entries := Publish(prev, prevVersion, c.size.value, c);
      if c.FaultFree() && MayPublish(issuer, before, c, entries) {
        FaultFreeCall(issuer, before, c, entries);
        FaultFreeAnswer(issuer, before, c, entries, r);
      }
    }
  }

  // ----- Runs of calls in which nothing fails

  /** No two different withdrawals name the same leaf. */
  ghost predicate OnePerLeaf(ws: seq<Withdrawal>) {
    KeysIdentify(ToEntries(ws), LeafHashKey)
  }

  lemma NormalisedIdentifies(ws: seq<Withdrawal>, entries: seq<Entry>)
    requires Normalised(ws, entries) && OnePerLeaf(ws)
    ensures KeysIdentify(entries, LeafHashKey)
  {
    forall i, j | 0 <= i < |entries| && 0 <= j < |entries| && LeafHashKey(entries[i]) == LeafHashKey(entries[j])
      ensures entries[i] == entries[j]
    {
      assert entries[i] in multiset(ToEntries(ws)) && entries[j] in multiset(ToEntries(ws));
    }
  }

  /** The log commits to a set with exactly these members. */
  ghost predicate CommitsTo(log: seq<Slot>, ws: seq<Withdrawal>) {
    Committed(log).Some? && multiset(Committed(log).value) == multiset(ToEntries(ws))
  }

  /** The committed set is the sorted one of any permutation of its members. */
  lemma CommittedIsNormalised(p: Issuer, s: State, ws: seq<Withdrawal>, entries: seq<Entry>)
    requires Inv(p, s) && Normalised(ws, entries) && OnePerLeaf(ws)
    ensures CommitsTo(s.log, ws) <==> Committed(s.log) == Some(entries)
  {
    if CommitsTo(s.log, ws) {
      var i := LastIndex(s.log);
      assert GoodPosition(p, s.objects, s.log, i);
      NormalisedIdentifies(ws, entries);
      SortedIsUnique(entries, Committed(s.log).value, LeafHashKey);
    }
  }

  /** A call in which nothing fails: given the members already committed, in any
      order, it writes and appends nothing; given others it appends one anchor. */
  lemma FaultFreeCall(p: Issuer, s: State, c: Call, entries: seq<Entry>)
    requires Sound(p.crypto) && RoundTrips(p.documents)
    requires Inv(p, s) && HintCurrent(p.documents, s) && MayBegin(p, s, c, entries)
    requires c.FaultFree() && OnePerLeaf(c.withdrawn) && Preserved(p.documents, entries)
    ensures var t := Called(p, s, c, entries);
      && Inv(p, t) && HintCurrent(p.documents, t) && t.pc.Idle? && CommitsTo(t.log, c.withdrawn)
      && (CommitsTo(s.log, c.withdrawn) ==> t == s)
      && (!CommitsTo(s.log, c.withdrawn) ==> |t.log| == |s.log| + 1 && Count(t.log) == Count(s.log) + 1)
  {
    var begin := Begin(c.withdrawn, entries, true, true);
    var a := Step(p, s, begin);
    StepKeepsInv(p, s, begin);
    LoadFromCurrentHint(p, s, true);
    CommittedIsNormalised(p, s, c.withdrawn, entries);
    CountAndLast(s.log);
    if !CommitsTo(s.log, c.withdrawn) {
      ChangedCall(p, a, c);
    }
  }

  /** And what it answers: success, a change exactly if the members were not committed, and
      the number of anchors there are then as the version. */
  lemma FaultFreeAnswer(p: Issuer, s: State, c: Call, entries: seq<Entry>, r: Result<PublishResult, PublishError>)
    requires Sound(p.crypto) && RoundTrips(p.documents)
    requires Inv(p, s) && HintCurrent(p.documents, s) && MayBegin(p, s, c, entries)
    requires c.FaultFree() && OnePerLeaf(c.withdrawn) && Preserved(p.documents, entries)
    requires var (prev, version) := Load(p.documents, s, true, true);
      if prev.Some? && prev.value.withdrawn == entries then r == Success(PublishResult(false, version, 0))
      else r == Success(PublishResult(true, NextVersion(version), |s.log|))
    ensures r.Success? && (r.value.changed <==> !CommitsTo(s.log, c.withdrawn))
    ensures r.value.version == Count(Called(p, s, c, entries).log)
    ensures r.value.changed ==> r.value.anchorIndex == |s.log| && LastIndex(Called(p, s, c, entries).log) == |s.log|
  {
    LoadFromCurrentHint(p, s, true);
    CommittedIsNormalised(p, s, c.withdrawn, entries);
    CountAndLast(s.log);
    FaultFreeCall(p, s, c, entries);
    if r.value.changed {
      ChangedCallWrites(p, Step(p, s, Begin(c.withdrawn, entries, true, true)), c);
    }
  }

  /** What a call that changes something writes, field by field: the artifact under its
      version, the anchor that commits to it, and the hint that names the anchor. */
  lemma ChangedCallWrites(p: Issuer, a: State, c: Call)
    requires Sound(p.crypto) && RoundTrips(p.documents)
    requires a.pc.Loaded? && HasRoom(a) && c.FaultFree() && Preserved(p.documents, a.pc.entries)
    requires a.pc.prev.Some? ==> a.pc.prev.value.withdrawn != a.pc.entries
    ensures var t, version := Continued(p, a, c), NextVersion(a.pc.prevVersion);
      && (a.pc.prevVersion < 0xFFFF_FFFF_FFFF_FFFF ==> version == a.pc.prevVersion + 1)
      && t.objects.Keys == a.objects.Keys + {version} && WritesArtifact(p, t, version, c.now, c.size.value, a.pc.entries)
      && |t.log| == |a.log| + 1 && t.log[..|a.log|] == a.log && WritesAnchor(p, t, |a.log|, version, c.now)
      && t.hint.Some? && p.documents.parseHint(t.hint.value) == Success(Hint(version, |a.log|))
  {
    var t, version := Continued(p, a, c), NextVersion(a.pc.prevVersion);
    var raw := p.documents.encodeArtifact(Document(c.size.value, version, c.now, a.pc.entries));
    assert t.objects == a.objects[version := raw];
    assert t.log == a.log + [Anchor(NewAnchor(p, version, p.crypto.hash(raw), c.now), a.pc.entries)];
    SigningKeepsTheRest(p.crypto, p.secret, StatusAnchor(SCHEMA, version, p.crypto.hash(raw), c.now, ZeroKey(), ZeroSignature()));
  }

  ghost predicate WritesArtifact(p: Issuer, t: State, version: U64, now: U64, size: U64, entries: seq<Entry>) {
    && version in t.objects && p.documents.parseArtifact(t.objects[version]).Success?
    && var artifact := p.documents.parseArtifact(t.objects[version]).value;
    && artifact.issuedAt == now && artifact.logSizeAtIssue == size && artifact.schema == 1
    && artifact.version == version && artifact.withdrawn == entries
  }

  ghost predicate WritesAnchor(p: Issuer, t: State, index: nat, version: U64, now: U64) {
    && index < |t.log| && t.log[index].Anchor? && version in t.objects
    && var anchor := t.log[index].anchor;
    && anchor.schemaVersion == 1 && anchor.artifactVersion == version && anchor.issuedAt == now
    && anchor.artifactHash == p.crypto.hash(t.objects[version])
    && anchor.issuerPubKey == p.crypto.publicKey(p.secret)
    && p.crypto.verify(anchor.issuerPubKey, Payload(anchor), anchor.issuerSignature)
  }

  lemma ChangedCall(p: Issuer, a: State, c: Call)
    requires Sound(p.crypto) && RoundTrips(p.documents)
    requires Inv(p, a) && a.pc.Loaded? && HasRoom(a) && c.FaultFree()
    requires a.pc.prev.Some? ==> a.pc.prev.value.withdrawn != a.pc.entries
    requires HintCurrent(p.documents, a)
    ensures var t := Continued(p, a, c);
      && Inv(p, t) && HintCurrent(p.documents, t) && t.pc.Idle?
      && |t.log| == |a.log| + 1 && Count(t.log) == Count(a.log) + 1 && Committed(t.log) == Some(a.pc.entries)
  {
    var b := Step(p, a, Measure(c.size));
    MeasureKeepsInv(p, a, c.size);
    var d := Step(p, b, PutArtifact(c.now, Done));
    PutArtifactKeepsInv(p, b, c.now, Done);
    var e := Step(p, d, Append(true));
    AppendKeepsInv(p, d);
    Snoc(d.log, e.log[|d.log|]);
    CountAndLast(d.log);
    HintFollows(p, e, PutHint(Done));
  }
}
