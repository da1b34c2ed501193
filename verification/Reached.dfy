/** Runs from the empty log that end where the hint cannot be relied on. */
module ReachedStates {
  import opened Bytes
  import opened Crypto
  import opened StatusAnchors
  import opened Resolution
  import opened ResolutionProperties
  import opened HintInfluence
  import opened Publication
  import opened PublicationProperties
  import opened Reconciliation
  import opened Recovery
  import LostHints

  // ----- Reaching a state

  /** Some run from the empty log ends here. */
  ghost predicate Reached(p: Issuer, s: State) {
    exists r: Run :: EndsIn(p, r, s)
  }

  ghost predicate EndsIn(p: Issuer, r: Run, s: State) {
    IsRun(p, r) && r.states[|r.actions|] == s
  }

  lemma StartIsReached(p: Issuer)
    ensures Reached(p, START)
  {
    assert EndsIn(p, Run([START], []), START);
  }

  lemma StepIsReached(p: Issuer, s: State, act: Action)
    requires Reached(p, s) && Enabled(p, s, act)
    ensures Reached(p, Step(p, s, act))
  {
    var r: Run :| EndsIn(p, r, s);
    OneMoreStep(p, r, act);
  }

  lemma OneMoreStep(p: Issuer, r: Run, act: Action)
    requires IsRun(p, r) && Enabled(p, r.states[|r.actions|], act)
    ensures var t := Step(p, r.states[|r.actions|], act);
      EndsIn(p, Run(r.states + [t], r.actions + [act]), t)
  {
    var t := Step(p, r.states[|r.actions|], act);
    var q := Run(r.states + [t], r.actions + [act]);
    forall i | 0 <= i < |q.actions|
      ensures Enabled(p, q.states[i], q.actions[i]) && q.states[i + 1] == Step(p, q.states[i], q.actions[i])
    {
      if i < |r.actions| {
        assert q.actions[i] == r.actions[i] && q.states[i] == r.states[i] && q.states[i + 1] == r.states[i + 1];
      }
    }
  }

  lemma CallIsReached(p: Issuer, s: State, c: Call, entries: seq<Entry>)
    requires Reached(p, s) && MayBegin(p, s, c, entries)
    ensures Reached(p, Called(p, s, c, entries))
  {
    var begin := Begin(c.withdrawn, entries, c.hintRead, c.artifactRead);
    StepIsReached(p, s, begin);
    ContinuedIsReached(p, Step(p, s, begin), c);
  }

  lemma ContinuedIsReached(p: Issuer, s: State, c: Call)
    requires Reached(p, s) && s.pc.Loaded? && HasRoom(s)
    ensures Reached(p, Continued(p, s, c))
  {
    var measured := Step(p, s, Measure(c.size));
    StepIsReached(p, s, Measure(c.size));
    if measured.pc.Measured? {
      var stored := Step(p, measured, PutArtifact(c.now, c.artifactWrite));
      StepIsReached(p, measured, PutArtifact(c.now, c.artifactWrite));
      if stored.pc.Stored? {
        StoredIsReached(p, stored, c);
      }
    }
  }

  lemma StoredIsReached(p: Issuer, s: State, c: Call)
    requires Reached(p, s) && s.pc.Stored? && HasRoom(s)
    ensures var anchored := Step(p, s, Append(c.appendOk));
      Reached(p, if anchored.pc.Idle? then anchored else Step(p, anchored, PutHint(c.hintWrite)))
  {
    var anchored := Step(p, s, Append(c.appendOk));
    StepIsReached(p, s, Append(c.appendOk));
    if anchored.pc.Anchored? {
      StepIsReached(p, anchored, PutHint(c.hintWrite));
    }
  }

  /** k empty leaves of somebody else. */
  ghost function Padded(p: Issuer, s: State, k: nat): (t: State)
    requires |s.log| + k <= TWO64 - BUNDLE
    ensures t.log == s.log + seq(k, _ => Other([])) && t.objects == s.objects && t.hint == s.hint && t.pc == s.pc
  {
    if k == 0 then s
    else
      EmptyIsUnvouched(p);
      Step(p, Padded(p, s, k - 1), Foreign([]))
  }

  lemma EmptyIsUnvouched(p: Issuer)
    ensures Unvouched(p, [])
  {
    if AnchorOf([]).Some? {
      FirstByte(AnchorOf([]).value);
    }
  }

  lemma {:induction false} PaddedIsReached(p: Issuer, s: State, k: nat)
    requires |s.log| + k <= TWO64 - BUNDLE && Reached(p, s)
    ensures Reached(p, Padded(p, s, k))
  {
    if k > 0 {
      PaddedIsReached(p, s, k - 1);
      EmptyIsUnvouched(p);
      StepIsReached(p, Padded(p, s, k - 1), Foreign([]));
    }
  }

  lemma {:induction false} PaddedKeepsInv(p: Issuer, s: State, k: nat)
    requires |s.log| + k <= TWO64 - BUNDLE && Inv(p, s)
    ensures var t := Padded(p, s, k);
      Inv(p, t) && Count(t.log) == Count(s.log) && LastIndex(t.log) == LastIndex(s.log) && Committed(t.log) == Committed(s.log)
  {
    if k > 0 {
      PaddedKeepsInv(p, s, k - 1);
      EmptyIsUnvouched(p);
      ForeignKeepsInv(p, Padded(p, s, k - 1), []);
      Snoc(Padded(p, s, k - 1).log, Other([]));
    }
  }

  // ----- Calls

  /** A call in which nothing fails. */
  function Plain(withdrawn: seq<Withdrawal>): Call {
    Call(withdrawn, 0, true, true, Some(0), Done, true, Done)
  }

  function Unread(withdrawn: seq<Withdrawal>): Call {
    Plain(withdrawn).(hintRead := false)
  }

  function Unhinted(withdrawn: seq<Withdrawal>): Call {
    Plain(withdrawn).(hintWrite := Lost)
  }

  lemma SingleIsNormalised(w: Withdrawal)
    ensures Normalised([w], [ToEntry(w)]) && OnePerLeaf([w])
    ensures Normalised([], []) && OnePerLeaf([])
    ensures multiset(ToEntries([w])) == multiset{ToEntry(w)} && multiset(ToEntries([])) == multiset{}
  {
    assert ToEntries([w]) == [ToEntry(w)] && ToEntries([]) == [];
  }

  lemma CommitsToOne(log: seq<Slot>, w: Withdrawal)
    requires CommitsTo(log, [w])
    ensures !CommitsTo(log, [])
  {
    SingleIsNormalised(w);
  }

  lemma CommitsToNone(log: seq<Slot>)
    requires CommitsTo(log, [])
    ensures Committed(log) == Some([])
  {
    assert |multiset(Committed(log).value)| == |Committed(log).value|;
  }

  // ----- Histories

  /** Calls from the empty log, each after so many empty leaves of somebody else. */
  datatype History = History(states: seq<State>, gaps: seq<nat>, calls: seq<Call>, sets: seq<seq<Entry>>) {
    ghost predicate Shaped() {
      |states| == |calls| + 1 == |gaps| + 1 == |sets| + 1 && states[0] == START
    }

    ghost predicate Makes(p: Issuer, i: nat)
      requires Shaped() && i < |calls|
    {
      && |states[i].log| + gaps[i] <= TWO64 - BUNDLE
      && var s := Padded(p, states[i], gaps[i]);
        MayBegin(p, s, calls[i], sets[i]) && states[i + 1] == Called(p, s, calls[i], sets[i])
    }

    function Last(): State
      requires Shaped()
    {
      states[|calls|]
    }
  }

  ghost predicate IsHistory(p: Issuer, h: History) {
    h.Shaped() && forall i :: 0 <= i < |h.calls| ==> h.Makes(p, i)
  }

  lemma EmptyHistory(p: Issuer) returns (h: History)
    ensures IsHistory(p, h) && h.calls == [] && h.gaps == [] && h.Last() == START
  {
    h := History([START], [], [], []);
  }

  lemma OneMoreCall(p: Issuer, h: History, k: nat, c: Call, entries: seq<Entry>) returns (g: History)
    requires IsHistory(p, h) && |h.Last().log| + k <= TWO64 - BUNDLE
    requires MayBegin(p, Padded(p, h.Last(), k), c, entries)
    ensures IsHistory(p, g) && g.calls == h.calls + [c] && g.gaps == h.gaps + [k] && h.states <= g.states
    ensures g.Last() == Called(p, Padded(p, h.Last(), k), c, entries)
  {
    var t := Called(p, Padded(p, h.Last(), k), c, entries);
    g := History(h.states + [t], h.gaps + [k], h.calls + [c], h.sets + [entries]);
    forall i | 0 <= i < |g.calls|
      ensures g.Makes(p, i)
    {
      if i < |h.calls| {
        MakesStays(p, h, g, i);
      }
    }
  }

  lemma MakesStays(p: Issuer, h: History, g: History, i: nat)
    requires h.Shaped() && g.Shaped() && i < |h.calls| && h.Makes(p, i)
    requires h.states <= g.states && h.gaps <= g.gaps && h.calls <= g.calls && h.sets <= g.sets
    ensures g.Makes(p, i)
  {
    assert g.states[i] == h.states[i] && g.states[i + 1] == h.states[i + 1];
  }

  /** A state such a history ends in is reached by a run of steps. */
  lemma {:induction false} HistoryIsReached(p: Issuer, h: History, n: nat)
    requires IsHistory(p, h) && n < |h.states|
    ensures Reached(p, h.states[n])
  {
    if n == 0 {
      StartIsReached(p);
    } else {
      HistoryIsReached(p, h, n - 1);
      assert h.Makes(p, n - 1);
      var s := h.states[n - 1];
      PaddedIsReached(p, s, h.gaps[n - 1]);
      CallIsReached(p, Padded(p, s, h.gaps[n - 1]), h.calls[n - 1], h.sets[n - 1]);
    }
  }

  // ----- The calls of the examples

  /** Committed to nothing but w, by one anchor, with the hint current. */
  ghost predicate HasWithdrawn(p: Issuer, s: State, w: Withdrawal) {
    && Inv(p, s) && HintCurrent(p.documents, s) && s.pc.Idle?
    && |s.log| == Count(s.log) == 1 && CommitsTo(s.log, [w])
  }

  /** From the empty log: a leaf is withdrawn. */
  lemma WithdrawnFirst(p: Issuer, w: Withdrawal) returns (h: History)
    requires Sound(p.crypto) && RoundTrips(p.documents) && Preserved(p.documents, [ToEntry(w)])
    ensures IsHistory(p, h) && h.calls == [Plain([w])] && h.gaps == [0] && HasWithdrawn(p, h.Last(), w)
    ensures h.Last().objects == map[1 := p.documents.encodeArtifact(Document(0, 1, 0, [ToEntry(w)]))]
  {
    SingleIsNormalised(w);
    StartIsGood(p);
    h := EmptyHistory(p);
    FaultFreeCall(p, START, Plain([w]), [ToEntry(w)]);
    var raw := CallPublishes(p, START, Plain([w]), [ToEntry(w)]);
    h := OneMoreCall(p, h, 0, Plain([w]), [ToEntry(w)]);
  }

  /** And reinstated. */
  lemma Reinstated(p: Issuer, w: Withdrawal, h: History) returns (g: History)
    requires Sound(p.crypto) && RoundTrips(p.documents) && IsHistory(p, h) && HasWithdrawn(p, h.Last(), w)
    ensures IsHistory(p, g) && g.calls == h.calls + [Plain([])] && g.gaps == h.gaps + [0] && h.states <= g.states
    ensures Inv(p, g.Last()) && g.Last().pc.Idle?
    ensures |g.Last().log| == Count(g.Last().log) == 2 && Committed(g.Last().log) == Some([])
  {
    SingleIsNormalised(w);
    CommitsToOne(h.Last().log, w);
    FaultFreeCall(p, h.Last(), Plain([]), []);
    g := OneMoreCall(p, h, 0, Plain([]), []);
    CommitsToNone(g.Last().log);
  }

  /** After k leaves of others it is withdrawn once more, by a call that cannot read the hint. */
  lemma WithdrawnUnread(p: Issuer, h: History, k: nat, w: Withdrawal) returns (g: History)
    requires Sound(p.crypto) && RoundTrips(p.documents) && Preserved(p.documents, [ToEntry(w)])
    requires IsHistory(p, h) && Inv(p, h.Last()) && h.Last().pc.Idle? && |h.Last().log| + k < TWO64 - BUNDLE
    ensures IsHistory(p, g) && g.calls == h.calls + [Unread([w])] && g.gaps == h.gaps + [k] && h.states <= g.states
    ensures var s, t := Padded(p, h.Last(), k), g.Last();
      && Republished(p, s, t, 0, 1) && HintNamesLast(p, t, 1) && t.pc.Idle? && |t.log| == |s.log| + 1
      && LastIndex(t.log) == |s.log| && Committed(t.log) == Some([ToEntry(w)])
  {
    var s := Padded(p, h.Last(), k);
    SingleIsNormalised(w);
    PaddedKeepsInv(p, h.Last(), k);
    NothingRepublished(p, s, 0);
    var raw := CallRepublishes(p, s, s, 0, 0, Unread([w]), [ToEntry(w)]);
    g := OneMoreCall(p, h, k, Unread([w]), [ToEntry(w)]);
  }

  /** The same call repeated, nothing failing, changes nothing. */
  lemma RepeatedInVain(p: Issuer, s: State, t: State, w: Withdrawal)
    requires Sound(p.crypto) && RoundTrips(p.documents) && Preserved(p.documents, [ToEntry(w)])
    requires Republished(p, s, t, 0, 1) && HintNamesLast(p, t, 1) && t.pc.Idle? && HasRoom(t)
    requires Committed(t.log) == Some([ToEntry(w)])
    ensures MayBegin(p, t, Plain([w]), [ToEntry(w)]) && Called(p, t, Plain([w]), [ToEntry(w)]) == t
  {
    SingleIsNormalised(w);
    RepublishingContinues(p, s, t, 0, 1, Plain([w]), [ToEntry(w)]);
  }

  /** Two anchors in s, the last for no withdrawal; then w, published under version 1. */
  ghost predicate StartedOver(p: Issuer, w: Withdrawal, k: nat, s: State, t: State) {
    && |t.log| == k + 3 && t.pc.Idle? && HintNamesLast(p, t, 1)
    && GoodLog(p, s) && Republished(p, s, t, 0, 1) && LastIndex(t.log) == |s.log| == k + 2
    && Count(s.log) == 2 && LastIndex(s.log) == 1 && Committed(s.log) == Some([]) && Committed(t.log) == Some([ToEntry(w)])
  }

  /** A leaf is withdrawn, reinstated, and after k leaves of others withdrawn again by a call
      whose hint read fails. */
  lemma WithdrawnTwice(p: Issuer, w: Withdrawal, k: nat) returns (h: History, s: State)
    requires Sound(p.crypto) && RoundTrips(p.documents) && Preserved(p.documents, [ToEntry(w)]) && k <= 1000
    ensures IsHistory(p, h) && h.calls == [Plain([w]), Plain([]), Unread([w])] && h.gaps == [0, 0, k]
    ensures StartedOver(p, w, k, s, h.Last())
  {
    h := WithdrawnAndReinstated(p, w);
    s := Padded(p, h.Last(), k);
    h := WithdrawnOver(p, h, k, w);
  }

  lemma WithdrawnOver(p: Issuer, h: History, k: nat, w: Withdrawal) returns (g: History)
    requires Sound(p.crypto) && RoundTrips(p.documents) && Preserved(p.documents, [ToEntry(w)])
    requires IsHistory(p, h) && Inv(p, h.Last()) && h.Last().pc.Idle? && k <= 1000
    requires |h.Last().log| == Count(h.Last().log) == 2 && Committed(h.Last().log) == Some([])
    ensures IsHistory(p, g) && g.calls == h.calls + [Unread([w])] && g.gaps == h.gaps + [k]
    ensures StartedOver(p, w, k, Padded(p, h.Last(), k), g.Last())
  {
    PaddedShowsNone(p, h.Last(), k);
    g := WithdrawnUnread(p, h, k, w);
  }

  lemma WithdrawnAndReinstated(p: Issuer, w: Withdrawal) returns (h: History)
    requires Sound(p.crypto) && RoundTrips(p.documents) && Preserved(p.documents, [ToEntry(w)])
    ensures IsHistory(p, h) && h.calls == [Plain([w]), Plain([])] && h.gaps == [0, 0]
    ensures Inv(p, h.Last()) && h.Last().pc.Idle?
    ensures |h.Last().log| == Count(h.Last().log) == 2 && Committed(h.Last().log) == Some([])
  {
    h := WithdrawnFirst(p, w);
    h := Reinstated(p, w, h);
  }

  lemma PaddedShowsNone(p: Issuer, r: State, k: nat)
    requires Inv(p, r) && |r.log| == Count(r.log) == 2 && Committed(r.log) == Some([]) && k <= 1000
    ensures var s := Padded(p, r, k);
      && GoodLog(p, s) && |s.log| == k + 2 && Count(s.log) == 2 && LastIndex(s.log) == 1 && Committed(s.log) == Some([])
  {
    LastOfTwo(r.log);
    PaddedKeepsInv(p, r, k);
  }

  lemma LastOfTwo(log: seq<Slot>)
    requires |log| == Count(log) == 2
    ensures LastIndex(log) == 1
  {
    CountAndLast(log[..1]);
  }

  lemma WithdrawnVerdicts(p: Issuer, w: Withdrawal, leafHash: Hash)
    requires w.leafHashB64 == p.documents.base64(leafHash)
    ensures Listed(p.documents, [ToEntry(w)], leafHash).verdict == Withdrawn
    ensures Listed(p.documents, [], leafHash).verdict == Verified
  {}

  /** Everything as it is stored, and the hint as it was published. */
  function Honest(hint: Hint, t: State, size: nat): Fetcher
    requires size <= |t.log|
  {
    Fetcher(
      Success(Some(hint)),
      (pass: nat, b: nat) => if b * BUNDLE < size then Success(Bundle(Raws(t.log), b, size)) else Success([]),
      (version: U64) => if version in t.objects then Success(t.objects[version]) else Failure([]))
  }

  lemma HonestServes(hint: Hint, t: State, size: U64)
    requires size <= |t.log|
    ensures var f := Honest(hint, t, size);
      && ServesAll(f, t, size) && ServesAll(WithoutHint(f), t, size) && Readable(f, size)
      && StartOf(WithoutHint(f), size) == 0
      && (hint.anchorIndex < size ==> StartOf(f, size) == hint.anchorIndex / BUNDLE * BUNDLE)
  {}

  /** What a full scan and a scan from after the old anchors answer then. */
  lemma SeenAfterRestart(p: Issuer, w: Withdrawal, k: nat, s: State, t: State, leafHash: Hash, v: Verifier, f: Fetcher, size: U64)
    requires Pins(v, p) && SameLibraries(v, p) && w.leafHashB64 == p.documents.base64(leafHash)
    requires StartedOver(p, w, k, s, t) && size == |t.log| && ServesAll(f, t, size) && StartOf(f, size) <= |s.log|
    ensures Resolved(v, f, leafHash, size).verdict == if StartOf(f, size) > 1 then Withdrawn else Verified
  {
    LostHints.RecoversAfterAsManyCalls(p, s, t, 0, 1, v, f, leafHash, size);
    WithdrawnVerdicts(p, w, leafHash);
  }

  /** The failure is real. An honest fetcher with the published hint answers VERIFIED for a
      leaf that the last call has withdrawn, and the same call repeated, nothing failing,
      changes nothing. */
  lemma AWithdrawalIsHidden(p: Issuer, w: Withdrawal, leafHash: Hash, v: Verifier) returns (h: History)
    requires Sound(p.crypto) && RoundTrips(p.documents) && Preserved(p.documents, [ToEntry(w)])
    requires Pins(v, p) && SameLibraries(v, p) && w.leafHashB64 == p.documents.base64(leafHash)
    ensures IsHistory(p, h) && h.calls == [Plain([w]), Plain([]), Unread([w])] && h.gaps == [0, 0, 0]
    ensures var t := h.Last();
      && |t.log| == 3 && t.hint == Some(p.documents.encodeHint(Hint(1, 2)))
      && Committed(t.log) == Some([ToEntry(w)]) && Listed(p.documents, [ToEntry(w)], leafHash).verdict == Withdrawn
      && Resolved(v, Honest(Hint(1, 2), t, 3), leafHash, 3).verdict == Verified
      && MayBegin(p, t, Plain([w]), [ToEntry(w)]) && Called(p, t, Plain([w]), [ToEntry(w)]) == t
  {
    var s;
    h, s := WithdrawnTwice(p, w, 0);
    HonestServes(Hint(1, 2), h.Last(), 3);
    SeenAfterRestart(p, w, 0, s, h.Last(), leafHash, v, Honest(Hint(1, 2), h.Last(), 3), 3);
    WithdrawnVerdicts(p, w, leafHash);
    RepeatedInVain(p, s, h.Last(), w);
  }

  /** And a hint does change answers. With 254 leaves of others before that call, the honest
      fetcher answers WITHDRAWN with the published hint, and VERIFIED without one. */
  lemma AHintChangesTheAnswer(p: Issuer, w: Withdrawal, leafHash: Hash, v: Verifier) returns (h: History)
    requires Sound(p.crypto) && RoundTrips(p.documents) && Preserved(p.documents, [ToEntry(w)])
    requires Pins(v, p) && SameLibraries(v, p) && w.leafHashB64 == p.documents.base64(leafHash)
    ensures IsHistory(p, h) && h.calls == [Plain([w]), Plain([]), Unread([w])] && h.gaps == [0, 0, 254]
    ensures |h.Last().log| == 257 && h.Last().hint == Some(p.documents.encodeHint(Hint(1, 256)))
    ensures var f := Honest(Hint(1, 256), h.Last(), 257);
      && Resolved(v, f, leafHash, 257).verdict == Withdrawn
      && Resolved(v, WithoutHint(f), leafHash, 257).verdict == Verified
      && !EndsWithTheNewest(v, f, 257)
  {
    var s;
    h, s := WithdrawnTwice(p, w, 254);
    var f := Honest(Hint(1, 256), h.Last(), 257);
    HonestServes(Hint(1, 256), h.Last(), 257);
    SeenAfterRestart(p, w, 254, s, h.Last(), leafHash, v, f, 257);
    SeenAfterRestart(p, w, 254, s, h.Last(), leafHash, v, WithoutHint(f), 257);
    HarmfulWhere(v, f, leafHash, 257);
  }

  lemma HarmfulWhere(v: Verifier, f: Fetcher, leafHash: Hash, size: U64)
    requires Readable(f, size) && Resolved(v, f, leafHash, size).verdict != Resolved(v, WithoutHint(f), leafHash, size).verdict
    ensures !EndsWithTheNewest(v, f, size)
  {
    assert !SameAnswer(Resolved(v, f, leafHash, size), Resolved(v, WithoutHint(f), leafHash, size));
    HintMattersExactlyWhen(v, f, size);
  }

  // ----- A checkpoint that is spoiled

  /** The first artifact of a leaf's withdrawal, written at a time. */
  function FirstArtifact(p: Issuer, w: Withdrawal, now: U64): Bytes {
    p.documents.encodeArtifact(Document(0, 1, now, [ToEntry(w)]))
  }

  /** The same call once more, one second later, its hint read failing. */
  lemma WithdrawnLater(p: Issuer, w: Withdrawal, h: History) returns (g: History)
    requires Sound(p.crypto) && RoundTrips(p.documents) && Preserved(p.documents, [ToEntry(w)])
    requires IsHistory(p, h) && HasWithdrawn(p, h.Last(), w) && h.Last().objects == map[1 := FirstArtifact(p, w, 0)]
    ensures h.states <= g.states && IsHistory(p, g) && g.calls == h.calls + [Unread([w]).(now := 1)] && g.gaps == h.gaps + [0]
    ensures Republished(p, h.Last(), g.Last(), 0, 1) && |g.Last().log| == 2
    ensures g.Last().objects == map[1 := FirstArtifact(p, w, 1)]
  {
    var s, c := h.Last(), Unread([w]).(now := 1);
    SingleIsNormalised(w);
    NothingRepublished(p, s, 0);
    var raw := CallRepublishes(p, s, s, 0, 0, c, [ToEntry(w)]);
    g := OneMoreCall(p, h, 0, c, [ToEntry(w)]);
  }

  lemma SpoiledAtOne(p: Issuer, w: Withdrawal, s: State, t: State, hint: Hint, v: Verifier, leafHash: Hash)
    requires HasWithdrawn(p, s, w) && Republished(p, s, t, 0, 1) && !SameHash(p, s, t, 1)
    requires Pins(v, p) && SameLibraries(v, p) && w.leafHashB64 == p.documents.base64(leafHash)
    ensures Resolved(v, Honest(hint, s, 1), leafHash, 1).verdict == Withdrawn
    ensures Resolved(v, Honest(hint, t, 1), leafHash, 1) == Inconclusive(ArtifactHashMismatch, None)
  {
    assert s.log[..1] == s.log;
    HonestServes(hint, s, 1);
    HonestServes(hint, t, 1);
    NothingRepublished(p, s, 0);
    LostHints.EarlierCheckpointsAreSpoiled(p, s, s, 0, 0, v, Honest(hint, s, 1), leafHash, 1);
    LostHints.EarlierCheckpointsAreSpoiled(p, s, t, 0, 1, v, Honest(hint, t, 1), leafHash, 1);
    CommitsToIt(s.log, w);
    WithdrawnVerdicts(p, w, leafHash);
  }

  lemma CommitsToIt(log: seq<Slot>, w: Withdrawal)
    requires CommitsTo(log, [w])
    ensures Committed(log) == Some([ToEntry(w)])
  {
    SingleIsNormalised(w);
    var entries := Committed(log).value;
    assert multiset(entries) == multiset{ToEntry(w)};
    assert |multiset(entries)| == |entries| == 1;
    assert entries[0] in multiset(entries);
    assert entries == [ToEntry(w)];
  }

  /** If the hash tells the two artifacts apart, the checkpoint of the first anchor, which
      answered WITHDRAWN, then answers a mismatch, whatever the hint. */
  lemma ACheckpointIsSpoiled(p: Issuer, w: Withdrawal, hint: Hint) returns (h: History)
    requires Sound(p.crypto) && RoundTrips(p.documents) && Preserved(p.documents, [ToEntry(w)])
    requires p.crypto.hash(FirstArtifact(p, w, 0)) != p.crypto.hash(FirstArtifact(p, w, 1))
    ensures IsHistory(p, h) && h.calls == [Plain([w]), Unread([w]).(now := 1)] && h.gaps == [0, 0]
    ensures |h.states[1].log| == 1 && |h.Last().log| == 2
    ensures Republished(p, h.states[1], h.Last(), 0, 1) && !SameHash(p, h.states[1], h.Last(), 1)
    ensures forall v: Verifier, leafHash: Hash ::
      Pins(v, p) && SameLibraries(v, p) && w.leafHashB64 == p.documents.base64(leafHash) ==>
        && Resolved(v, Honest(hint, h.states[1], 1), leafHash, 1).verdict == Withdrawn
        && Resolved(v, Honest(hint, h.Last(), 1), leafHash, 1) == Inconclusive(ArtifactHashMismatch, None)
  {
    h := WithdrawnFirst(p, w);
    var s := h.Last();
    h := WithdrawnLater(p, w, h);
    var t := h.Last();
    forall v: Verifier, leafHash: Hash |
      Pins(v, p) && SameLibraries(v, p) && w.leafHashB64 == p.documents.base64(leafHash)
      ensures Resolved(v, Honest(hint, s, 1), leafHash, 1).verdict == Withdrawn
      ensures Resolved(v, Honest(hint, t, 1), leafHash, 1) == Inconclusive(ArtifactHashMismatch, None)
    {
      SpoiledAtOne(p, w, s, t, hint, v, leafHash);
    }
  }

  // ----- A version that repeats

  /** The leaf is reinstated by a call whose hint write is lost. */
  lemma ReinstatedUnhinted(p: Issuer, w: Withdrawal, h: History) returns (g: History)
    requires Sound(p.crypto) && RoundTrips(p.documents) && IsHistory(p, h) && HasWithdrawn(p, h.Last(), w)
    ensures IsHistory(p, g) && g.calls == h.calls + [Unhinted([])] && g.gaps == h.gaps + [0] && h.states <= g.states
    ensures var s, t := h.Last(), g.Last();
      && t.pc.Idle? && t.hint == s.hint && Republished(p, s, t, 1, 1)
      && |t.log| == 2 && t.log[1].Anchor? && t.log[1].anchor.artifactVersion == 2
  {
    var s := h.Last();
    SingleIsNormalised(w);
    CommitsToOne(s.log, w);
    LoadFromCurrentHint(p, s, true);
    NothingRepublished(p, s, 1);
    var raw := CallRepublishes(p, s, s, 1, 0, Unhinted([]), []);
    g := OneMoreCall(p, h, 0, Unhinted([]), []);
  }

  /** The stale hint still leads to the first artifact. */
  lemma StaleHintLoads(p: Issuer, s: State, t: State, w: Withdrawal, c: Call)
    requires RoundTrips(p.documents) && HasWithdrawn(p, s, w) && c.hintRead && c.artifactRead
    requires t.hint == s.hint && Republished(p, s, t, 1, 1)
    ensures Loads(p, t, c).1 == 1 && (Loads(p, t, c).0.Some? ==> Loads(p, t, c).0.value.withdrawn != [])
  {
    LoadFromCurrentHint(p, s, true);
    CommitsToOne(s.log, w);
    SingleIsNormalised(w);
    LastIsStored(p, s);
  }

  /** The anchors' versions are 1, 2, 2. */
  ghost predicate OneTwoTwo(log: seq<Slot>) {
    && |log| == 3 && (forall i :: 0 <= i < 3 ==> log[i].Anchor?)
    && log[0].anchor.artifactVersion == 1
    && log[1].anchor.artifactVersion == log[2].anchor.artifactVersion == 2
  }

  /** The call is repeated, nothing failing. */
  lemma RepeatedUnhinted(p: Issuer, w: Withdrawal, s: State, h: History) returns (g: History)
    requires Sound(p.crypto) && RoundTrips(p.documents) && IsHistory(p, h) && HasWithdrawn(p, s, w)
    requires var t := h.Last();
      && t.pc.Idle? && t.hint == s.hint && Republished(p, s, t, 1, 1)
      && |t.log| == 2 && t.log[1].Anchor? && t.log[1].anchor.artifactVersion == 2
    ensures IsHistory(p, g) && g.calls == h.calls + [Plain([])] && g.gaps == h.gaps + [0]
    ensures OneTwoTwo(g.Last().log)
  {
    var t := h.Last();
    SingleIsNormalised(w);
    StaleHintLoads(p, s, t, w, Plain([]));
    NothingRepublished(p, t, 1);
    FirstOfOne(p, s);
    assert t.log[0] == s.log[0];
    var raw := CallRepublishes(p, t, t, 1, 0, Plain([]), []);
    g := OneMoreCall(p, h, 0, Plain([]), []);
  }

  /** A leaf is withdrawn; it is reinstated by a call whose hint write is lost; that call is
      repeated, nothing failing: the versions in the log are 1, 2, 2. */
  lemma AVersionRepeats(p: Issuer, w: Withdrawal) returns (h: History)
    requires Sound(p.crypto) && RoundTrips(p.documents) && Preserved(p.documents, [ToEntry(w)])
    ensures IsHistory(p, h) && h.calls == [Plain([w]), Unhinted([]), Plain([])] && h.gaps == [0, 0, 0]
    ensures OneTwoTwo(h.Last().log) && !Increasing(Found(h.Last().log))
  {
    h := WithdrawnFirst(p, w);
    var s := h.Last();
    h := ReinstatedUnhinted(p, w, h);
    h := RepeatedUnhinted(p, w, s, h);
    var found := Found(h.Last().log);
    assert found[1].Some? && found[2].Some?;
  }

  lemma FirstOfOne(p: Issuer, s: State)
    requires Inv(p, s) && |s.log| == Count(s.log) == 1
    ensures s.log[0].Anchor? && s.log[0].anchor.artifactVersion == 1
  {
    assert s.log[..1] == s.log && s.log[..0] == [];
    AnchorIsBacked(p, s, 0);
  }
}
