/** Runs in which no call fails: how many anchors they leave. */
module FaultFreeRuns {
  import opened Bytes
  import opened Crypto
  import opened Resolution
  import opened Publication
  import opened PublicationProperties
  import opened Reconciliation
  import opened Order

  /** Nothing fails, no call names one leaf twice, and every set can be written down. */
  ghost predicate FaultFree(p: Issuer, act: Action) {
    match act
    case Foreign(_) => true
    case Begin(withdrawn, entries, hintRead, artifactRead) =>
      hintRead && artifactRead && OnePerLeaf(withdrawn) && Preserved(p.documents, entries)
    case Measure(size) => size.Some?
    case PutArtifact(_, write) => write.Done?
    case Append(ok) => ok
    case PutHint(write) => write.Done?
  }

  /** A run with leaves of others anywhere, between calls and within them. */
  ghost predicate IsFaultFree(p: Issuer, r: Run) {
    IsRun(p, r) && forall i :: 0 <= i < |r.actions| ==> FaultFree(p, r.actions[i])
  }

  /** The sets asked for by the calls begun in the first n steps. */
  function Asked(actions: seq<Action>, n: nat): seq<seq<Withdrawal>>
    requires n <= |actions|
  {
    if n == 0 then []
    else Asked(actions, n - 1) + if actions[n - 1].Begin? then [actions[n - 1].withdrawn] else []
  }

  ghost predicate Differ(a: seq<Withdrawal>, b: seq<Withdrawal>) {
    multiset(ToEntries(a)) != multiset(ToEntries(b))
  }

  /** One for the first set, and one for each that differs from the one before. */
  ghost function Changes(sets: seq<seq<Withdrawal>>): nat {
    if sets == [] then 0
    else if |sets| == 1 then 1
    else
      var n := |sets| - 1;
      Changes(sets[..n]) + if Differ(sets[n - 1], sets[n]) then 1 else 0
  }

  /** The log holds what these sets come to. */
  ghost predicate Settled(log: seq<Slot>, sets: seq<seq<Withdrawal>>) {
    && Count(log) == Changes(sets)
    && (sets != [] ==> CommitsTo(log, sets[|sets| - 1]))
  }

  /** All but the call in progress are settled; its set is not the committed one once it
      has gone past the comparison. */
  ghost predicate Progress(s: State, sets: seq<seq<Withdrawal>>) {
    match s.pc
    case Idle => Settled(s.log, sets)
    case Anchored(_, _) => Settled(s.log, sets)
    case Loaded(prev, _, entries) =>
      && sets != [] && Settled(s.log, sets[..|sets| - 1])
      && Normalised(sets[|sets| - 1], entries) && OnePerLeaf(sets[|sets| - 1])
      && (Count(s.log) > 0 ==> prev.Some?)
    case Measured(_, entries, _) => Pending(s.log, sets, entries)
    case Stored(_, entries, _, _) => Pending(s.log, sets, entries)
  }

  ghost predicate Pending(log: seq<Slot>, sets: seq<seq<Withdrawal>>, entries: seq<Entry>) {
    && sets != [] && Settled(log, sets[..|sets| - 1])
    && Normalised(sets[|sets| - 1], entries) && !CommitsTo(log, sets[|sets| - 1])
  }

  lemma SettledWithoutChange(log: seq<Slot>, sets: seq<seq<Withdrawal>>)
    requires sets != [] && Settled(log, sets[..|sets| - 1]) && Count(log) > 0 && CommitsTo(log, sets[|sets| - 1])
    ensures Settled(log, sets)
  {}

  lemma SettledByAnchor(log: seq<Slot>, more: seq<Slot>, sets: seq<seq<Withdrawal>>, entries: seq<Entry>)
    requires Pending(log, sets, entries)
    requires Count(more) == Count(log) + 1 && Committed(more) == Some(entries)
    ensures Settled(more, sets)
  {}

  lemma MeasureProgress(p: Issuer, s: State, size: Option<U64>, sets: seq<seq<Withdrawal>>)
    requires Inv(p, s) && s.pc.Loaded? && size.Some? && Progress(s, sets)
    ensures Progress(Step(p, s, Measure(size)), sets)
  {
    CommittedIsNormalised(p, s, sets[|sets| - 1], s.pc.entries);
    CountAndLast(s.log);
    if s.pc.prev.Some? && s.pc.prev.value.withdrawn == s.pc.entries {
      SettledWithoutChange(s.log, sets);
    }
  }

  lemma AppendProgress(p: Issuer, s: State, sets: seq<seq<Withdrawal>>)
    requires Enabled(p, s, Append(true)) && Progress(s, sets)
    ensures Progress(Step(p, s, Append(true)), sets)
  {
    var t := Step(p, s, Append(true));
    Snoc(s.log, t.log[|s.log|]);
    SettledByAnchor(s.log, t.log, sets, s.pc.entries);
  }

  lemma ForeignProgress(p: Issuer, s: State, leaf: Bytes, sets: seq<seq<Withdrawal>>)
    requires Enabled(p, s, Foreign(leaf)) && Progress(s, sets)
    ensures Progress(Step(p, s, Foreign(leaf)), sets)
  {
    Snoc(s.log, Other(leaf));
  }

  lemma BeginProgress(p: Issuer, s: State, act: Action, sets: seq<seq<Withdrawal>>)
    requires RoundTrips(p.documents) && Inv(p, s) && HintCurrent(p.documents, s)
    requires act.Begin? && Enabled(p, s, act) && FaultFree(p, act) && Progress(s, sets)
    ensures Progress(Step(p, s, act), sets + [act.withdrawn])
  {
    LoadFromCurrentHint(p, s, true);
    assert (sets + [act.withdrawn])[..|sets|] == sets;
  }

  lemma StepProgress(p: Issuer, s: State, act: Action, sets: seq<seq<Withdrawal>>)
    requires Sound(p.crypto) && RoundTrips(p.documents) && Inv(p, s) && (s.pc.Idle? ==> HintCurrent(p.documents, s))
    requires Enabled(p, s, act) && FaultFree(p, act) && Progress(s, sets)
    ensures Progress(Step(p, s, act), sets + if act.Begin? then [act.withdrawn] else [])
  {
    assert sets + [] == sets;
    match act
    case Foreign(leaf) => ForeignProgress(p, s, leaf, sets);
    case Begin(_, _, _, _) => BeginProgress(p, s, act, sets);
    case Measure(size) => MeasureProgress(p, s, size, sets);
    case PutArtifact(_, _) =>
    case Append(_) => AppendProgress(p, s, sets);
    case PutHint(_) =>
  }

  lemma RunKeepsUp(p: Issuer, r: Run, n: nat)
    requires Sound(p.crypto) && RoundTrips(p.documents) && IsFaultFree(p, r) && n < |r.states|
    ensures Inv(p, r.states[n]) && (r.states[n].pc.Idle? ==> HintCurrent(p.documents, r.states[n]))
  {
    FaultFreeIsTame(p, r);
    TameRunKeepsInv(p, r, n);
  }

  lemma ProgressAt(p: Issuer, r: Run, i: nat, sets: seq<seq<Withdrawal>>)
    requires Sound(p.crypto) && RoundTrips(p.documents) && IsFaultFree(p, r) && i < |r.actions|
    requires Progress(r.states[i], sets)
    ensures Progress(r.states[i + 1], sets + if r.actions[i].Begin? then [r.actions[i].withdrawn] else [])
  {
    RunKeepsUp(p, r, i);
    StepProgress(p, r.states[i], r.actions[i], sets);
  }

  lemma StartProgress()
    ensures Progress(START, [])
  {}

  lemma NextProgress(p: Issuer, r: Run, i: nat)
    requires Sound(p.crypto) && RoundTrips(p.documents) && IsFaultFree(p, r) && i < |r.actions|
    requires Progress(r.states[i], Asked(r.actions, i))
    ensures Progress(r.states[i + 1], Asked(r.actions, i + 1))
  {
    ProgressAt(p, r, i, Asked(r.actions, i));
  }

  lemma {:induction false} RunProgress(p: Issuer, r: Run, n: nat)
    requires Sound(p.crypto) && RoundTrips(p.documents) && IsFaultFree(p, r) && n < |r.states|
    ensures Progress(r.states[n], Asked(r.actions, n))
  {
    if n == 0 {
      StartProgress();
    } else {
      RunProgress(p, r, n - 1);
      NextProgress(p, r, n - 1);
    }
  }

  lemma FaultFreeIsTame(p: Issuer, r: Run)
    requires IsFaultFree(p, r)
    ensures TameRun(p, r) && forall n: nat :: n <= |r.actions| ==> !LostHintBefore(r, n)
  {
    forall i | 0 <= i < |r.actions|
      ensures r.actions[i] != PutHint(Lost)
      ensures r.actions[i].Begin? ==> r.actions[i].hintRead && Preserved(p.documents, r.actions[i].entries)
    {
      assert FaultFree(p, r.actions[i]);
    }
  }

  /** Over every run in which no call fails, with leaves of others anywhere: whenever no
      call is in progress, the anchors number 1 plus the later calls that asked for
      another set than the call before. */
  lemma AnchorsCountChanges(p: Issuer, r: Run, n: nat)
    requires Sound(p.crypto) && RoundTrips(p.documents) && IsFaultFree(p, r) && n < |r.states| && r.states[n].pc.Idle?
    ensures Count(r.states[n].log) == Changes(Asked(r.actions, n))
  {
    RunProgress(p, r, n);
  }

  /** From the call to the verifier: after a call in which nothing fails, every resolution
      at the tip answers with the reason and the time that the call gave for a leaf, and
      VERIFIED for every other leaf. */
  lemma PublishedIsSeen(p: Issuer, s: State, c: Call, entries: seq<Entry>, v: Verifier, f: Fetcher, leafHash: Hash)
    requires MayBegin(p, s, c, entries) && c.FaultFree() && MayPublish(p, s, c, entries)
    requires Pins(v, p) && SameLibraries(v, p)
    requires Faithful(f, Called(p, s, c, entries), |Called(p, s, c, entries).log|)
    ensures var o := Resolved(v, f, leafHash, |Called(p, s, c, entries).log|);
      && (forall w :: w in c.withdrawn && w.leafHashB64 == p.documents.base64(leafHash) ==>
            o == Outcome(Withdrawn, Some(Entry(w.leafHashB64, w.reason, w.withdrawnAt)), NoReason, None))
      && ((forall w :: w in c.withdrawn ==> w.leafHashB64 != p.documents.base64(leafHash)) ==>
            o == Outcome(Verified, None, NoReason, None))
  {
    var t := Called(p, s, c, entries);
    FaultFreeCall(p, s, c, entries);
    ExactVerdict(p, t, v, f, leafHash, |t.log|);
    assert t.log[..|t.log|] == t.log;
    ListedAsAsked(p.documents, c.withdrawn, Committed(t.log).value, leafHash);
  }

  lemma ListedAsAsked(d: Documents, ws: seq<Withdrawal>, listed: seq<Entry>, leafHash: Hash)
    requires multiset(listed) == multiset(ToEntries(ws)) && OnePerLeaf(ws)
    ensures forall w :: w in ws && w.leafHashB64 == d.base64(leafHash) ==>
      Listed(d, listed, leafHash) == Outcome(Withdrawn, Some(Entry(w.leafHashB64, w.reason, w.withdrawnAt)), NoReason, None)
    ensures (forall w :: w in ws ==> w.leafHashB64 != d.base64(leafHash)) ==>
      Listed(d, listed, leafHash) == Outcome(Verified, None, NoReason, None)
  {
    FindFindsListed(d, listed, leafHash);
    MembersOfPermutation(ToEntries(ws), listed);
    forall w | w in ws && w.leafHashB64 == d.base64(leafHash)
      ensures Find(d, listed, leafHash) == Some(ToEntry(w))
    {
      var i :| 0 <= i < |ws| && ws[i] == w;
      assert ToEntries(ws)[i] == ToEntry(w);
      assert ToEntry(w) in ToEntries(ws);
      var e := Find(d, listed, leafHash).value;
      assert e in ToEntries(ws);
      var j :| 0 <= j < |ws| && ToEntries(ws)[j] == e;
    }
    if Find(d, listed, leafHash).Some? {
      var e := Find(d, listed, leafHash).value;
      assert e in ToEntries(ws);
      var j :| 0 <= j < |ws| && ToEntries(ws)[j] == e;
      assert ws[j] in ws;
    }
  }
}
