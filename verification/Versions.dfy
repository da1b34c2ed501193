/** When the versions of a publisher's anchors increase along the log, over every run. */
module Versions {
  import opened Bytes
  import opened Crypto
  import opened StatusAnchors
  import opened Resolution
  import opened ResolutionProperties
  import opened Publication
  import opened PublicationProperties

  // ----- What every run keeps

  /** Leaves of others and anchors of this publisher, of versions between 1 and the
      anchor's rank. */
  ghost predicate Versioned(p: Issuer, log: seq<Slot>) {
    |log| <= TWO64 - BUNDLE && forall i :: 0 <= i < |log| ==> VersionedAt(p, log, i)
  }

  ghost predicate VersionedAt(p: Issuer, log: seq<Slot>, i: nat)
    requires i < |log|
  {
    OwnSlot(p, log[i]) && (log[i].Anchor? ==> 1 <= log[i].anchor.artifactVersion <= Count(log[..i + 1]))
  }

  /** The hint is the one published for the anchor at i. */
  predicate HintIsOf(p: Issuer, s: State, i: int) {
    && 0 <= i < |s.log| && |s.log| < TWO64 && s.log[i].Anchor?
    && s.hint == Some(p.documents.encodeHint(Hint(s.log[i].anchor.artifactVersion, i)))
  }

  ghost predicate HintIsSome(p: Issuer, s: State) {
    s.hint.None? || exists i :: HintIsOf(p, s, i)
  }

  ghost predicate PcInRange(s: State) {
    match s.pc
    case Idle => true
    case Loaded(_, version, _) => version <= Count(s.log)
    case Measured(version, _, _) => 1 <= version <= Count(s.log) + 1
    case Stored(version, _, _, _) => 1 <= version <= Count(s.log) + 1
    case Anchored(version, index) => index < |s.log| && s.log[index].Anchor? && s.log[index].anchor.artifactVersion == version
  }

  ghost predicate Kept(p: Issuer, s: State) {
    Versioned(p, s.log) && HintIsSome(p, s) && PcInRange(s)
  }

  lemma OneMoreVersioned(p: Issuer, log: seq<Slot>, slot: Slot)
    requires Versioned(p, log) && |log| < TWO64 - BUNDLE && OwnSlot(p, slot)
    requires slot.Anchor? ==> 1 <= slot.anchor.artifactVersion <= Count(log) + 1
    ensures Versioned(p, log + [slot])
  {
    forall i | 0 <= i <= |log|
      ensures VersionedAt(p, log + [slot], i)
    {
      assert i < |log| ==> VersionedAt(p, log, i);
      RankInMore(log, slot, log + [slot], i);
    }
  }

  lemma HintStays(p: Issuer, s: State, t: State)
    requires HintIsSome(p, s) && t.hint == s.hint && s.log <= t.log && |t.log| < TWO64
    ensures HintIsSome(p, t)
  {
    if t.hint.Some? {
      var i :| HintIsOf(p, s, i);
      assert HintIsOf(p, t, i);
    }
  }

  /** What a begin loads: nothing, or the version of the anchor the hint is of. */
  lemma LoadedVersion(p: Issuer, s: State, hintRead: bool, artifactRead: bool)
    requires RoundTrips(p.documents) && HintIsSome(p, s)
    ensures var version := Load(p.documents, s, hintRead, artifactRead).1;
      if !hintRead || s.hint.None? then version == 0
      else forall i :: HintIsOf(p, s, i) ==> version == s.log[i].anchor.artifactVersion
  {}

  lemma LoadedInRange(p: Issuer, s: State, hintRead: bool, artifactRead: bool)
    requires RoundTrips(p.documents) && HintIsSome(p, s) && Versioned(p, s.log)
    ensures Load(p.documents, s, hintRead, artifactRead).1 <= Count(s.log) < TWO64 - 1
  {
    CountAndLast(s.log);
    LoadedVersion(p, s, hintRead, artifactRead);
    if hintRead && s.hint.Some? {
      var i :| HintIsOf(p, s, i);
      assert VersionedAt(p, s.log, i);
      CountOfPrefix(s.log, i + 1);
    }
  }

  lemma AppendKeeps(p: Issuer, s: State)
    requires Sound(p.crypto) && Kept(p, s) && Enabled(p, s, Append(true))
    ensures Kept(p, Step(p, s, Append(true)))
  {
    var t := Step(p, s, Append(true));
    OneMoreVersioned(p, s.log, t.log[|s.log|]);
    HintStays(p, s, t);
  }

  lemma ForeignKeeps(p: Issuer, s: State, leaf: Bytes)
    requires Kept(p, s) && Enabled(p, s, Foreign(leaf))
    ensures Kept(p, Step(p, s, Foreign(leaf)))
  {
    var t := Step(p, s, Foreign(leaf));
    OneMoreVersioned(p, s.log, Other(leaf));
    Snoc(s.log, Other(leaf));
    HintStays(p, s, t);
  }

  lemma PutHintKeeps(p: Issuer, s: State, write: Write)
    requires Kept(p, s) && Enabled(p, s, PutHint(write))
    ensures Kept(p, Step(p, s, PutHint(write)))
  {
    var t := Step(p, s, PutHint(write));
    if write.Lost? {
      HintStays(p, s, t);
    } else {
      assert HintIsOf(p, t, s.pc.index);
    }
  }

  lemma StepKeeps(p: Issuer, s: State, act: Action)
    requires Sound(p.crypto) && RoundTrips(p.documents)
    requires Kept(p, s) && Enabled(p, s, act)
    ensures Kept(p, Step(p, s, act))
  {
    match act
    case Foreign(leaf) => ForeignKeeps(p, s, leaf);
    case Begin(_, _, hintRead, artifactRead) =>
      LoadedInRange(p, s, hintRead, artifactRead);
      HintStays(p, s, Step(p, s, act));
    case Measure(_) =>
      CountAndLast(s.log);
      HintStays(p, s, Step(p, s, act));
    case PutArtifact(_, _) => HintStays(p, s, Step(p, s, act));
    case Append(ok) =>
      if ok {
        AppendKeeps(p, s);
      } else {
        HintStays(p, s, Step(p, s, act));
      }
    case PutHint(write) => PutHintKeeps(p, s, write);
  }

  lemma {:induction false} RunKeeps(p: Issuer, r: Run, n: nat)
    requires Sound(p.crypto) && RoundTrips(p.documents) && IsRun(p, r) && n < |r.states|
    ensures Kept(p, r.states[n])
  {
    if n > 0 {
      RunKeeps(p, r, n - 1);
      StepKeeps(p, r.states[n - 1], r.actions[n - 1]);
    }
  }

  // ----- One call

  ghost predicate AllBelow(log: seq<Slot>, version: nat) {
    forall i :: 0 <= i < |log| && log[i].Anchor? ==> log[i].anchor.artifactVersion < version
  }

  /** There is nothing to follow, or the hint is read and is that of the last anchor. */
  predicate BeginsCurrent(p: Issuer, s: State, hintRead: bool) {
    LastIndex(s.log) < 0 || (hintRead && HintIsOf(p, s, LastIndex(s.log)))
  }

  lemma HintIsOfOne(p: Issuer, s: State, i: int, j: int)
    requires RoundTrips(p.documents) && HintIsOf(p, s, i) && HintIsOf(p, s, j)
    ensures i == j
  {
    assert p.documents.parseHint(s.hint.value) == Success(Hint(s.log[i].anchor.artifactVersion, i));
    assert p.documents.parseHint(s.hint.value) == Success(Hint(s.log[j].anchor.artifactVersion, j));
  }

  /** Where versions increase so far, the next version of a call exceeds them all exactly
      when the call begins so. */
  lemma NextIsNewExactlyWhen(p: Issuer, s: State, hintRead: bool, artifactRead: bool)
    requires RoundTrips(p.documents) && HintIsSome(p, s) && Versioned(p, s.log) && Increasing(Found(s.log))
    ensures AllBelow(s.log, NextVersion(Load(p.documents, s, hintRead, artifactRead).1)) <==> BeginsCurrent(p, s, hintRead)
  {
    var last := LastIndex(s.log);
    LoadedInRange(p, s, hintRead, artifactRead);
    LoadedVersion(p, s, hintRead, artifactRead);
    if last >= 0 {
      assert VersionedAt(p, s.log, last);
      assert Found(s.log)[last].Some?;
      if hintRead && s.hint.Some? {
        var i :| HintIsOf(p, s, i);
        assert Found(s.log)[i].Some?;
        LastIsGreatest(s.log);
        if HintIsOf(p, s, last) {
          HintIsOfOne(p, s, i, last);
        }
      }
    }
  }

  lemma LastIsGreatest(log: seq<Slot>)
    requires Increasing(Found(log)) && LastIndex(log) >= 0
    ensures forall i :: 0 <= i < |log| && log[i].Anchor? ==>
      i == LastIndex(log) || log[i].anchor.artifactVersion < log[LastIndex(log)].anchor.artifactVersion
  {
    var found, last := Found(log), LastIndex(log);
    forall i | 0 <= i < |log| && log[i].Anchor? && i != last
      ensures log[i].anchor.artifactVersion < log[last].anchor.artifactVersion
    {
      assert i < last && found[i].Some? && found[last].Some?;
    }
  }

  // ----- The calls of a run

  /** The begin of the call in progress after n steps: the last one. */
  function LastBegin(actions: seq<Action>, n: nat): (b: int)
    requires n <= |actions|
    ensures -1 <= b < n && (b >= 0 ==> actions[b].Begin?)
    ensures forall i :: b < i < n ==> !actions[i].Begin?
  {
    if n == 0 then -1 else if actions[n - 1].Begin? then n - 1 else LastBegin(actions, n - 1)
  }

  /** The same anchors, and more leaves of others. */
  ghost predicate SameAnchors(a: seq<Slot>, b: seq<Slot>) {
    a <= b && forall i :: |a| <= i < |b| ==> b[i].Other?
  }

  /** What the call in progress has carried along from its begin. */
  ghost predicate Carries(p: Issuer, s: State, begun: State, act: Action) {
    && act.Begin? && SameAnchors(begun.log, s.log)
    && var version := Load(p.documents, begun, act.hintRead, act.artifactRead).1;
      match s.pc
      case Loaded(_, v, _) => v == version
      case Measured(v, _, _) => v == NextVersion(version)
      case Stored(v, _, _, _) => v == NextVersion(version)
      case _ => true
  }

  ghost predicate InCall(s: State) {
    s.pc.Loaded? || s.pc.Measured? || s.pc.Stored?
  }

  lemma StepCarries(p: Issuer, s: State, act: Action, begun: State, begin: Action)
    requires Enabled(p, s, act) && !act.Begin? && InCall(s) && Carries(p, s, begun, begin)
    ensures InCall(Step(p, s, act)) ==> Carries(p, Step(p, s, act), begun, begin)
  {}

  lemma {:induction false} RunCarries(p: Issuer, r: Run, n: nat)
    requires IsRun(p, r) && n < |r.states| && InCall(r.states[n])
    ensures var b := LastBegin(r.actions, n);
      b >= 0 && Carries(p, r.states[n], r.states[b], r.actions[b])
  {
    if n > 0 {
      var s, act := r.states[n - 1], r.actions[n - 1];
      if !act.Begin? {
        assert InCall(s);
        RunCarries(p, r, n - 1);
        var b := LastBegin(r.actions, n - 1);
        StepCarries(p, s, act, r.states[b], r.actions[b]);
      }
    }
  }

  /** The publication appended by the j-th step began current. */
  ghost predicate AppendedCurrent(p: Issuer, r: Run, j: nat)
    requires |r.states| == |r.actions| + 1 && j < |r.actions|
  {
    var b := LastBegin(r.actions, j);
    b >= 0 && BeginsCurrent(p, r.states[b], r.actions[b].hintRead)
  }

  ghost predicate AllAppendedCurrent(p: Issuer, r: Run, n: nat)
    requires |r.states| == |r.actions| + 1 && n <= |r.actions|
  {
    forall j :: 0 <= j < n && r.actions[j] == Append(true) ==> AppendedCurrent(p, r, j)
  }

  lemma IncreasingPrefix(a: seq<Slot>, b: seq<Slot>)
    requires a <= b && Increasing(Found(b))
    ensures Increasing(Found(a))
  {
    assert forall i :: 0 <= i < |a| ==> Found(a)[i] == Found(b)[i];
  }

  lemma IncreasingSnoc(log: seq<Slot>, slot: Slot)
    ensures Increasing(Found(log + [slot])) <==>
      Increasing(Found(log)) && (slot.Anchor? ==> AllBelow(log, slot.anchor.artifactVersion))
  {
    var more := Found(log + [slot]);
    assert forall i :: 0 <= i < |log| ==> more[i] == Found(log)[i];
    if Increasing(more) {
      IncreasingPrefix(log, log + [slot]);
      if slot.Anchor? {
        forall i | 0 <= i < |log| && log[i].Anchor?
          ensures log[i].anchor.artifactVersion < slot.anchor.artifactVersion
        {
          assert more[i].Some? && more[|log|].Some?;
        }
      }
    }
  }

  lemma SameAnchorsSameBounds(a: seq<Slot>, b: seq<Slot>, version: nat)
    requires SameAnchors(a, b)
    ensures AllBelow(a, version) <==> AllBelow(b, version)
  {
    assert forall i :: 0 <= i < |a| ==> a[i] == b[i];
  }

  /** A step that appends nothing of the publisher's leaves the versions as they were. */
  lemma OtherStep(p: Issuer, s: State, act: Action)
    requires Enabled(p, s, act) && act != Append(true)
    ensures Increasing(Found(Step(p, s, act).log)) <==> Increasing(Found(s.log))
  {
    if act.Foreign? {
      IncreasingSnoc(s.log, Other(act.leaf));
    }
  }

  /** An append, where versions increase so far: they go on to exactly if its call began
      current. */
  lemma AppendStep(p: Issuer, r: Run, n: nat)
    requires Sound(p.crypto) && RoundTrips(p.documents) && IsRun(p, r)
    requires n < |r.actions| && r.actions[n] == Append(true) && Increasing(Found(r.states[n].log))
    ensures Increasing(Found(r.states[n + 1].log)) <==> AppendedCurrent(p, r, n)
  {
    var s, t := r.states[n], r.states[n + 1];
    RunCarries(p, r, n);
    var b := LastBegin(r.actions, n);
    var begun, begin := r.states[b], r.actions[b];
    RunKeeps(p, r, b);
    IncreasingPrefix(begun.log, s.log);
    NextIsNewExactlyWhen(p, begun, begin.hintRead, begin.artifactRead);
    SameAnchorsSameBounds(begun.log, s.log, s.pc.version);
    IncreasingSnoc(s.log, t.log[|s.log|]);
  }

  lemma {:induction false} FoundIncreasesExactlyWhen(p: Issuer, r: Run, n: nat)
    requires Sound(p.crypto) && RoundTrips(p.documents) && IsRun(p, r) && n < |r.states|
    ensures Increasing(Found(r.states[n].log)) <==> AllAppendedCurrent(p, r, n)
  {
    if n > 0 {
      FoundIncreasesExactlyWhen(p, r, n - 1);
      var s, act := r.states[n - 1], r.actions[n - 1];
      if act == Append(true) {
        if Increasing(Found(s.log)) {
          AppendStep(p, r, n - 1);
        } else if Increasing(Found(r.states[n].log)) {
          IncreasingPrefix(s.log, r.states[n].log);
        }
      } else {
        OtherStep(p, s, act);
      }
    }
  }

  lemma VersionedIsTrusted(p: Issuer, log: seq<Slot>, v: Verifier)
    requires Versioned(p, log) && Pins(v, p) && SameLibraries(v, p)
    ensures TrustedAnchors(v, Raws(log)) == Found(log)
  {
    forall i | 0 <= i < |log|
      ensures OwnSlot(p, log[i])
    {
      assert VersionedAt(p, log, i);
    }
    TrustsOwn(p, log, v);
  }

  /** Over every run whatever, the versions a verifier trusts increase along the log
      exactly when every publication that appended had begun with no anchor in the log, or
      with a hint it could read and that was the last anchor's. */
  lemma VersionsIncreaseExactlyWhen(p: Issuer, r: Run, n: nat, v: Verifier)
    requires Sound(p.crypto) && RoundTrips(p.documents) && Pins(v, p) && SameLibraries(v, p)
    requires IsRun(p, r) && n < |r.states|
    ensures VersionsIncrease(v, Raws(r.states[n].log)) <==> AllAppendedCurrent(p, r, n)
  {
    RunKeeps(p, r, n);
    VersionedIsTrusted(p, r.states[n].log, v);
    FoundIncreasesExactlyWhen(p, r, n);
  }
}
