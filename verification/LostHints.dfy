/** What happens when the hint cannot be relied on: the publisher takes its next
    version from it, so a hint that cannot be read restarts at version 1, and a
    lost hint write makes the next publication reuse a version. */
module LostHints {
  import opened Bytes
  import opened Crypto
  import opened Resolution
  import opened ResolutionProperties
  import opened Order
  import opened Publication
  import opened PublicationProperties
  import opened Reconciliation
  import opened Recovery

  // ----- Reused versions

  /** The whole of a publication but the hint, under a given version. */
  ghost function PublishedAs(p: Issuer, s: State, version: U64, entries: seq<Entry>, size: U64, now: U64): State
    requires HasRoom(s)
  {
    Step(p, Step(p, s.(pc := Measured(version, entries, size)), PutArtifact(now, Done)), Append(true))
  }

  /** A call that cannot read the hint publishes whatever set it is given, even the
      committed one, under version 1. */
  lemma UnreadableHintRestarts(p: Issuer, s: State, withdrawn: seq<Withdrawal>, entries: seq<Entry>,
                               artifactRead: bool, size: U64, now: U64)
    requires s.pc.Idle? && HasRoom(s) && Normalised(withdrawn, entries)
    ensures var begun := Step(p, s, Begin(withdrawn, entries, false, artifactRead));
      var measured := Step(p, begun, Measure(Some(size)));
      Step(p, Step(p, measured, PutArtifact(now, Done)), Append(true)) == PublishedAs(p, s, 1, entries, size, now)
  {}

  /** The state after an append whose hint write is lost. */
  lemma LostHintState(p: Issuer, s: State, t: State)
    requires Sound(p.crypto) && RoundTrips(p.documents) && Inv(p, s)
    requires s.pc.Stored? && HasRoom(s)
    requires t == Step(p, Step(p, s, Append(true)), PutHint(Lost))
    ensures Inv(p, t) && t.pc.Idle? && t.hint == s.hint
    ensures |t.log| == |s.log| + 1 && Count(t.log) == Count(s.log) + 1 && LastIndex(t.log) == |s.log|
  {
    AppendKeepsInv(p, s);
    Snoc(s.log, t.log[|s.log|]);
    assert t.log == s.log + [t.log[|s.log|]];
  }

  lemma OldHintLoads(p: Issuer, s: State, t: State, c: Call)
    requires RoundTrips(p.documents) && HintCurrent(p.documents, s) && t.hint == s.hint && c.hintRead
    ensures Loads(p, t, c).1 == Count(s.log)
  {}

  /** After a lost hint write, the next call that publishes appends a second anchor of the
      version of the last one. */
  lemma LostHintWriteRepeats(p: Issuer, s: State, t: State, c: Call, entries: seq<Entry>)
    requires Sound(p.crypto) && RoundTrips(p.documents) && Inv(p, s) && HintCurrent(p.documents, s)
    requires s.pc.Stored? && HasRoom(s) && t == Step(p, Step(p, s, Append(true)), PutHint(Lost))
    requires MayBegin(p, t, c, entries) && Preserved(p.documents, entries) && c.hintRead && Appends(c)
    requires Loads(p, t, c).0.Some? ==> Loads(p, t, c).0.value.withdrawn != entries
    ensures var u := Called(p, t, c, entries);
      && |u.log| == |t.log| + 1 && Committed(u.log) == Some(entries)
      && t.log[|s.log|].Anchor? && u.log[|s.log| + 1].Anchor?
      && u.log[|s.log| + 1].anchor.artifactVersion == t.log[|s.log|].anchor.artifactVersion == Count(t.log)
  {
    LostHintState(p, s, t);
    OldHintLoads(p, s, t, c);
    NothingRepublished(p, t, Count(s.log));
    CountAndLast(t.log);
    var raw := CallRepublishes(p, t, t, Count(s.log), 0, c, entries);
    AnchorIsBacked(p, t, |s.log|);
    assert t.log[..|s.log| + 1] == t.log;
  }

  // ----- One publication under any version

  /** Such a publication, under a version up to the next. */
  lemma PublishedIsRepublished(p: Issuer, s: State, version: U64, entries: seq<Entry>, size: U64, now: U64)
    requires Sound(p.crypto) && RoundTrips(p.documents) && Preserved(p.documents, entries) && Sorted(entries, LeafHashKey)
    requires GoodLog(p, s) && HasRoom(s) && 1 <= version
    ensures var t := PublishedAs(p, s, version, entries, size, now);
      && Republished(p, s, t, version - 1, 1)
      && |t.log| == |s.log| + 1 && t.log[|s.log|].Anchor? && t.log[|s.log|].withdrawn == entries
      && StoredSet(p, t, version) == entries
  {
    var t := PublishedAs(p, s, version, entries, size, now);
    var raw := p.documents.encodeArtifact(Document(size, version, now, entries));
    NewSlotIsGood(p, s.objects, version, raw, now, entries);
    NothingRepublished(p, s, version - 1);
    OneMoreSlot(p, s, s, version - 1, 0, t, t.log[|s.log|], raw);
  }

  /** Which set a resolution answers from after publishing `entries` over s under a
      version, with its scan starting at o. */
  ghost function ShownAtTip(p: Issuer, s: State, t: State, version: U64, entries: seq<Entry>, o: nat, leafHash: Hash): Outcome {
    var n := Count(s.log);
    if version > n || LastIndex(s.log) < o || (version == n && SameHash(p, s, t, n)) then Listed(p.documents, entries, leafHash)
    else if version == n then Inconclusive(ArtifactHashMismatch, None)
    else Answer(p.documents, s.log, leafHash)
  }

  /** What every resolution at the tip answers from after such a publication. The next
      version shows the new set, and so does any version to a scan that starts after the
      old anchors. To all others, reusing the last version makes the log and the store
      disagree, and any earlier version leaves the new set invisible, and a withdrawn
      leaf VERIFIED. */
  lemma PublishedUnderAnyVersion(p: Issuer, s: State, version: U64, entries: seq<Entry>, size: U64, now: U64,
                                 v: Verifier, f: Fetcher, leafHash: Hash)
    requires Sound(p.crypto) && RoundTrips(p.documents) && Preserved(p.documents, entries) && Sorted(entries, LeafHashKey)
    requires Pins(v, p) && SameLibraries(v, p) && GoodLog(p, s) && HasRoom(s)
    requires 1 <= version <= Count(s.log) + 1
    requires ServesAll(f, PublishedAs(p, s, version, entries, size, now), |s.log| + 1)
    ensures var t := PublishedAs(p, s, version, entries, size, now);
      Resolved(v, f, leafHash, |t.log|) == ShownAtTip(p, s, t, version, entries, StartOf(f, |t.log|), leafHash)
  {
    var t := PublishedAs(p, s, version, entries, size, now);
    PublishedIsRepublished(p, s, version, entries, size, now);
    TipAnswers(p, s, t, version, entries, v, f, leafHash);
  }

  lemma TipAnswers(p: Issuer, s: State, t: State, version: U64, entries: seq<Entry>, v: Verifier, f: Fetcher, leafHash: Hash)
    requires Pins(v, p) && SameLibraries(v, p) && GoodLog(p, s) && 1 <= version <= Count(s.log) + 1
    requires Republished(p, s, t, version - 1, 1) && StoredSet(p, t, version) == entries
    requires |t.log| == |s.log| + 1 && t.log[|s.log|].Anchor? && t.log[|s.log|].withdrawn == entries
    requires ServesAll(f, t, |t.log|)
    ensures Resolved(v, f, leafHash, |t.log|) == ShownAtTip(p, s, t, version, entries, StartOf(f, |t.log|), leafHash)
  {
    RepublishedAnswers(p, s, t, version - 1, 1, v, f, leafHash, |t.log|);
    StartInTip(f, |s.log|);
    ShownIsShownAtTip(p, s, t, version, entries, StartOf(f, |t.log|), leafHash);
  }

  lemma ShownIsShownAtTip(p: Issuer, s: State, t: State, version: U64, entries: seq<Entry>, o: nat, leafHash: Hash)
    requires |t.log| == |s.log| + 1 && t.log[|s.log|].Anchor? && t.log[|s.log|].withdrawn == entries
    requires StoredSet(p, t, version) == entries
    requires 1 <= version <= Count(s.log) + 1 && o <= |s.log|
    ensures Shown(p, s, t, version - 1, 1, |t.log|, o, leafHash) == ShownAtTip(p, s, t, version, entries, o, leafHash)
  {
    TipParts(s, t);
    SingleSlot(t.log[|s.log|]);
    CountAndLast(s.log);
  }

  lemma StartInTip(f: Fetcher, size: U64)
    requires size + 1 < TWO64
    ensures StartOf(f, size + 1) <= size
  {}

  lemma TipParts(s: State, t: State)
    requires |t.log| == |s.log| + 1
    ensures Before(s, |t.log|) == s.log && Since(s, t, |t.log|) == [t.log[|s.log|]]
  {}

  lemma SingleSlot(slot: Slot)
    ensures Count([slot]) == (if slot.Anchor? then 1 else 0) && LastIndex([slot]) == if slot.Anchor? then 0 else -1
  {
    assert [slot][..0] == [];
  }

  /** So the new set is what every leaf is answered from exactly when the version is new,
      or the scan starts after the old anchors, or the reused artifact happens to hash the
      same, or the two sets answer alike. */
  lemma NewSetIsVisibleExactlyWhen(p: Issuer, s: State, version: U64, entries: seq<Entry>, size: U64, now: U64,
                                   v: Verifier, f: Fetcher)
    requires Sound(p.crypto) && RoundTrips(p.documents) && Preserved(p.documents, entries) && Sorted(entries, LeafHashKey)
    requires Pins(v, p) && SameLibraries(v, p) && GoodLog(p, s) && HasRoom(s)
    requires 1 <= version <= Count(s.log) + 1
    requires ServesAll(f, PublishedAs(p, s, version, entries, size, now), |s.log| + 1)
    ensures var n, t := Count(s.log), PublishedAs(p, s, version, entries, size, now);
      (forall leafHash: Hash :: Resolved(v, f, leafHash, |t.log|) == Listed(p.documents, entries, leafHash))
      <==> || version == n + 1
           || LastIndex(s.log) < StartOf(f, |t.log|)
           || (version == n && SameHash(p, s, t, n))
           || (version < n && forall leafHash: Hash ::
                 Answer(p.documents, s.log, leafHash) == Listed(p.documents, entries, leafHash))
  {
    var t := PublishedAs(p, s, version, entries, size, now);
    forall leafHash: Hash
      ensures Resolved(v, f, leafHash, |t.log|) == ShownAtTip(p, s, t, version, entries, StartOf(f, |t.log|), leafHash)
    {
      PublishedUnderAnyVersion(p, s, version, entries, size, now, v, f, leafHash);
    }
    if version == Count(s.log) && !SameHash(p, s, t, version) && LastIndex(s.log) >= StartOf(f, |t.log|) {
      assert Resolved(v, f, ZeroHash(), |t.log|) != Listed(p.documents, entries, ZeroHash());
    }
  }

  lemma OldSetIsSeen(p: Issuer, s: State, version: U64, entries: seq<Entry>, size: U64, now: U64,
                     v: Verifier, f: Fetcher, leafHash: Hash)
    requires Sound(p.crypto) && RoundTrips(p.documents) && Preserved(p.documents, entries) && Sorted(entries, LeafHashKey)
    requires Pins(v, p) && SameLibraries(v, p) && GoodLog(p, s) && HasRoom(s)
    requires 1 <= version < Count(s.log)
    requires ServesAll(f, PublishedAs(p, s, version, entries, size, now), |s.log| + 1)
    requires StartOf(f, |s.log| + 1) <= LastIndex(s.log)
    ensures Resolved(v, f, leafHash, |s.log| + 1) == Answer(p.documents, s.log, leafHash)
  {
    PublishedUnderAnyVersion(p, s, version, entries, size, now, v, f, leafHash);
  }

  /** The cost of an unreadable hint: with two or more anchors in the log, a call that
      withdraws a leaf under version 1 leaves every scan that starts no later than the
      last of them answering VERIFIED for it. */
  lemma UnreadableHintHidesAWithdrawal(p: Issuer, s: State, entries: seq<Entry>, size: U64, now: U64,
                                       v: Verifier, f: Fetcher, leafHash: Hash)
    requires Sound(p.crypto) && RoundTrips(p.documents) && Preserved(p.documents, entries) && Sorted(entries, LeafHashKey)
    requires Pins(v, p) && SameLibraries(v, p) && GoodLog(p, s) && HasRoom(s)
    requires Count(s.log) >= 2 && Committed(s.log).Some? && !Lists(v, Committed(s.log).value, leafHash)
    requires Lists(v, entries, leafHash)
    requires ServesAll(f, PublishedAs(p, s, 1, entries, size, now), |s.log| + 1)
    requires StartOf(f, |s.log| + 1) <= LastIndex(s.log)
    ensures Resolved(v, f, leafHash, |s.log| + 1).verdict == Verified
    ensures Listed(p.documents, entries, leafHash).verdict == Withdrawn
  {
    OldSetIsSeen(p, s, 1, entries, size, now, v, f, leafHash);
    OldVerdict(p, v, s.log, leafHash);
    FindFindsListed(p.documents, entries, leafHash);
  }

  lemma OldVerdict(p: Issuer, v: Verifier, log: seq<Slot>, leafHash: Hash)
    requires SameLibraries(v, p) && Committed(log).Some? && !Lists(v, Committed(log).value, leafHash)
    ensures Answer(p.documents, log, leafHash).verdict == Verified
  {
    FindFindsListed(p.documents, Committed(log).value, leafHash);
  }

  /** A repeat of the same call, with nothing failing, does not repair it: the
      hint now leads to the new artifact, the set is found unchanged, and nothing
      is written. */
  lemma RepeatingTheCallWritesNothing(p: Issuer, s: State, version: U64, entries: seq<Entry>, size: U64, now: U64,
                                      withdrawn: seq<Withdrawal>, newSize: U64)
    requires RoundTrips(p.documents) && Preserved(p.documents, entries) && Normalised(withdrawn, entries)
    requires HasRoom(s)
    ensures var u := Step(p, PublishedAs(p, s, version, entries, size, now), PutHint(Done));
      && Enabled(p, u, Begin(withdrawn, entries, true, true))
      && Step(p, Step(p, u, Begin(withdrawn, entries, true, true)), Measure(Some(newSize))) == u
  {}

  lemma OldSetIsSeenWithoutHint(p: Issuer, s: State, version: U64, entries: seq<Entry>, size: U64, now: U64,
                                v: Verifier, f: Fetcher, leafHash: Hash)
    requires Sound(p.crypto) && RoundTrips(p.documents) && Preserved(p.documents, entries) && Sorted(entries, LeafHashKey)
    requires Pins(v, p) && SameLibraries(v, p) && GoodLog(p, s) && HasRoom(s) && 1 <= version < Count(s.log)
    requires ServesAll(f, PublishedAs(p, s, version, entries, size, now), |s.log| + 1)
    ensures Resolved(v, WithoutHint(f), leafHash, |s.log| + 1) == Answer(p.documents, s.log, leafHash)
  {
    CountAndLast(s.log);
    OldSetIsSeen(p, s, version, entries, size, now, v, WithoutHint(f), leafHash);
  }

  /** And which set is seen then depends on the hint. One that makes the scan start after
      the old anchors shows the new set, under any version; without a hint an old version
      shows the old one. */
  lemma HintDecidesWhatIsSeen(p: Issuer, s: State, version: U64, entries: seq<Entry>, size: U64, now: U64,
                              v: Verifier, f: Fetcher, leafHash: Hash)
    requires Sound(p.crypto) && RoundTrips(p.documents) && Preserved(p.documents, entries) && Sorted(entries, LeafHashKey)
    requires Pins(v, p) && SameLibraries(v, p) && GoodLog(p, s) && HasRoom(s)
    requires 1 <= version < Count(s.log) && LastIndex(s.log) < StartOf(f, |s.log| + 1)
    requires ServesAll(f, PublishedAs(p, s, version, entries, size, now), |s.log| + 1)
    ensures Resolved(v, f, leafHash, |s.log| + 1) == Listed(p.documents, entries, leafHash)
    ensures Resolved(v, WithoutHint(f), leafHash, |s.log| + 1) == Answer(p.documents, s.log, leafHash)
  {
    PublishedUnderAnyVersion(p, s, version, entries, size, now, v, f, leafHash);
    OldSetIsSeenWithoutHint(p, s, version, entries, size, now, v, f, leafHash);
  }

  // ----- Several

  /** With n anchors before, after k publications from version v + 1 on, at the tip: a scan
      that starts no later than the last of the n shows the old set while v + k < n, a
      mismatch at v + k == n, and each new set from then on. One that starts after it, and
      no later than the last new anchor, always shows the new set. */
  lemma RecoversAfterAsManyCalls(p: Issuer, s: State, t: State, v: nat, k: nat, w: Verifier, f: Fetcher, leafHash: Hash, size: U64)
    requires Pins(w, p) && SameLibraries(w, p) && GoodLog(p, s) && Republished(p, s, t, v, k) && k > 0
    requires size == |t.log| && ServesAll(f, t, size) && StartOf(f, size) <= LastIndex(t.log)
    requires v + k == Count(s.log) ==> !SameHash(p, s, t, v + k)
    ensures var n := Count(s.log);
      Resolved(w, f, leafHash, size) ==
        if LastIndex(s.log) < StartOf(f, size) || v + k > n then Answer(p.documents, t.log, leafHash)
        else if v + k == n then Inconclusive(ArtifactHashMismatch, None)
        else Answer(p.documents, s.log, leafHash)
  {
    RepublishedAnswers(p, s, t, v, k, w, f, leafHash, size);
    LastSince(t.log, |s.log|);
    ShownAtEnd(p, s, t, v, k, StartOf(f, size), leafHash);
  }

  lemma ShownAtEnd(p: Issuer, s: State, t: State, v: nat, k: nat, o: nat, leafHash: Hash)
    requires s.log <= t.log && v + k < TWO64 && k == Count(t.log[|s.log|..]) > 0
    requires LastIndex(t.log) == |s.log| + LastIndex(t.log[|s.log|..]) && Committed(t.log) == Committed(t.log[|s.log|..])
    requires o <= LastIndex(t.log) && (v + k == Count(s.log) ==> !SameHash(p, s, t, v + k))
    ensures Shown(p, s, t, v, k, |t.log|, o, leafHash) ==
      if LastIndex(s.log) < o || v + k > Count(s.log) then Answer(p.documents, t.log, leafHash)
      else if v + k == Count(s.log) then Inconclusive(ArtifactHashMismatch, None)
      else Answer(p.documents, s.log, leafHash)
  {
    WholeParts(s, t);
    CountAndLast(t.log[|s.log|..]);
    CountAndLast(s.log);
    CountAndLast(t.log);
  }

  lemma WholeParts(s: State, t: State)
    requires s.log <= t.log
    ensures Before(s, |t.log|) == s.log && Since(s, t, |t.log|) == t.log[|s.log|..]
  {
    assert s.log[..|s.log|] == s.log;
  }

  /** And a checkpoint of before is spoiled, under every hint, as soon as its version is
      used again. */
  lemma EarlierCheckpointsAreSpoiled(p: Issuer, s: State, t: State, v: nat, k: nat, w: Verifier, f: Fetcher, leafHash: Hash, size: U64)
    requires Pins(w, p) && SameLibraries(w, p) && GoodLog(p, s) && Republished(p, s, t, v, k)
    requires size <= |s.log| && ServesAll(f, t, size) && Committed(s.log[..size]).Some?
    requires v < Count(s.log[..size]) <= v + k ==> !SameHash(p, s, t, Count(s.log[..size]))
    ensures Resolved(w, f, leafHash, size) ==
      if v < Count(s.log[..size]) <= v + k then Inconclusive(ArtifactHashMismatch, None)
      else Answer(p.documents, s.log[..size], leafHash)
  {
    RepublishedAnswers(p, s, t, v, k, w, f, leafHash, size);
    assert Before(s, size) == s.log[..size] && Since(s, t, size) == [];
    CountAndLast(s.log[..size]);
    CountOfPrefix(s.log, size);
  }
}
