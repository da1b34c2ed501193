/** What a resolver sees of a publisher's runs. */
module PublicationProperties {
  import opened Bytes
  import opened Crypto
  import opened StatusAnchors
  import opened Resolution
  import opened ResolutionProperties
  import opened Publication

  // ----- The anchors a resolver finds

  function Found(log: seq<Slot>): seq<Option<StatusAnchor>> {
    seq(|log|, i requires 0 <= i < |log| => if log[i].Anchor? then Some(log[i].anchor) else None)
  }

  function LastAnchor(log: seq<Slot>): Option<StatusAnchor> {
    if LastIndex(log) < 0 then None else Some(log[LastIndex(log)].anchor)
  }

  /** The version of each anchor is its rank, counted from a base. */
  ghost predicate Ranked(log: seq<Slot>, base: nat) {
    forall i :: 0 <= i < |log| ==> RankedAt(log, base, i)
  }

  predicate RankedAt(log: seq<Slot>, base: nat, i: nat)
    requires i < |log|
  {
    log[i].Anchor? ==> log[i].anchor.artifactVersion == base + Count(log[..i + 1])
  }

  lemma RankedPrefix(log: seq<Slot>, base: nat, n: nat)
    requires Ranked(log, base) && n <= |log|
    ensures Ranked(log[..n], base)
  {
    forall i | 0 <= i < n
      ensures RankedAt(log[..n], base, i)
    {
      assert RankedAt(log, base, i);
      assert log[..n][..i + 1] == log[..i + 1];
    }
  }

  lemma FoundInSuffix(log: seq<Slot>, n: nat, o: nat)
    requires o <= n && |log| == n + 1
    ensures Found(log[o..])[..n - o] == Found(log[..n][o..]) && Found(log[o..])[n - o] == Found(log)[n]
    ensures NewestOf(Found(log[o..])) == Better(NewestOf(Found(log[..n][o..])), Found(log)[n])
  {}

  /** A last anchor beats any before it. */
  lemma LastIsBetter(log: seq<Slot>, n: nat, base: nat, newest: Option<StatusAnchor>)
    requires Ranked(log, base) && |log| == n + 1
    requires newest.Some? ==> newest.value.artifactVersion == base + Count(log[..n])
    ensures Better(newest, Found(log)[n]) == if log[n].Anchor? then Some(log[n].anchor) else newest
  {
    assert RankedAt(log, base, n) && log[..n + 1] == log;
  }

  /** With versions that count the anchors, the newest anchor from an index on is the
      last of all, if it lies there. */
  lemma {:induction false} NewestInSuffix(log: seq<Slot>, base: nat, o: nat)
    requires Ranked(log, base) && o <= |log|
    ensures NewestOf(Found(log[o..])) == if LastIndex(log) >= o then LastAnchor(log) else None
    ensures LastAnchor(log).Some? ==> LastAnchor(log).value.artifactVersion == base + Count(log)
  {
    LastIsRanked(log, base);
    if o < |log| {
      var n := |log| - 1;
      RankedPrefix(log, base, n);
      NewestInSuffix(log[..n], base, o);
      FoundInSuffix(log, n, o);
      LastIsBetter(log, n, base, NewestOf(Found(log[..n][o..])));
    }
  }

  lemma {:induction false} LastIsRanked(log: seq<Slot>, base: nat)
    requires Ranked(log, base)
    ensures LastAnchor(log).Some? ==> LastAnchor(log).value.artifactVersion == base + Count(log)
  {
    if log != [] {
      var n := |log| - 1;
      RankedPrefix(log, base, n);
      LastIsRanked(log[..n], base);
      assert RankedAt(log, base, n) && log[..n + 1] == log;
    }
  }

  /** With versions that count the anchors, the newest anchor is the last. */
  lemma NewestIsLast(log: seq<Slot>, base: nat)
    requires Ranked(log, base)
    ensures NewestOf(Found(log)) == LastAnchor(log)
    ensures LastAnchor(log).Some? ==> LastAnchor(log).value.artifactVersion == base + Count(log)
  {
    assert log[0..] == log;
    NewestInSuffix(log, base, 0);
  }

  lemma {:induction false} CountGrows(log: seq<Slot>, i: nat, j: nat)
    requires i <= j <= |log|
    ensures Count(log[..i]) <= Count(log[..j])
  {
    if i < j {
      CountGrows(log, i, j - 1);
      assert log[..j][..j - 1] == log[..j - 1];
    }
  }

  lemma CountGrowsAtAnchor(log: seq<Slot>, i: nat, j: nat)
    requires i <= j < |log| && log[j].Anchor?
    ensures Count(log[..i]) < Count(log[..j + 1])
  {
    CountGrows(log, i, j);
    assert log[..j + 1][..j] == log[..j];
  }

  lemma RankedIncreases(log: seq<Slot>)
    requires Ranked(log, 0)
    ensures Increasing(Found(log))
  {
    forall i, j | 0 <= i < j < |log| && log[i].Anchor? && log[j].Anchor?
      ensures log[i].anchor.artifactVersion < log[j].anchor.artifactVersion
    {
      assert RankedAt(log, 0, i) && RankedAt(log, 0, j);
      CountGrowsAtAnchor(log, i + 1, j);
    }
  }

  /** The verifier pins the publisher's key, and otherwise only keys nobody signs
      anchors of this log with. */
  predicate Pins(v: Verifier, p: Issuer) {
    p.crypto.publicKey(p.secret) in v.roots && forall key :: key in v.roots ==> Pinnable(p, key)
  }

  /** The verifier uses the publisher's libraries. */
  ghost predicate SameLibraries(v: Verifier, p: Issuer) {
    v.crypto == p.crypto && v.documents == p.documents
  }

  /** A leaf of somebody else that decodes as an anchor. */
  ghost predicate Strange(slot: Slot) {
    slot.Other? && AnchorOf(slot.raw).Some?
  }

  ghost predicate HasStrange(log: seq<Slot>) {
    exists i :: 0 <= i < |log| && Strange(log[i])
  }

  /** A pinned verifier trusts exactly the publisher's anchors, and finds exactly the
      others untrusted. */
  lemma TrustsExactlyOwn(p: Issuer, s: State, v: Verifier, n: nat)
    requires GoodLog(p, s) && Pins(v, p) && SameLibraries(v, p) && n <= |s.log|
    ensures TrustedAnchors(v, Raws(s.log[..n])) == Found(s.log[..n])
    ensures SawUntrusted(v, Raws(s.log[..n])) <==> HasStrange(s.log[..n])
    ensures Ranked(s.log[..n], 0)
  {
    forall i | 0 <= i < n
      ensures OwnSlot(p, s.log[..n][i])
    {
      assert GoodPosition(p, s.objects, s.log, i);
      GoodIsOwn(p, s.objects, s.log[i], Count(s.log[..i + 1]));
    }
    TrustsOwn(p, s.log[..n], v);
    GoodIsRanked(p, s);
    RankedPrefix(s.log, 0, n);
  }

  /** A leaf of somebody else, or an anchor this publisher signed. */
  ghost predicate OwnSlot(p: Issuer, slot: Slot) {
    match slot
    case Other(raw) => Unvouched(p, raw)
    case Anchor(a, _) => a.issuerPubKey == p.crypto.publicKey(p.secret) && Verifies(p.crypto, a)
  }

  lemma SlotIsTrusted(p: Issuer, slot: Slot, v: Verifier)
    requires OwnSlot(p, slot) && Pins(v, p) && SameLibraries(v, p)
    ensures TrustedAnchor(v, Raw(slot)) == if slot.Anchor? then Some(slot.anchor) else None
    ensures Untrusted(v, Raw(slot)) <==> Strange(slot)
  {
    if slot.Anchor? {
      AnchorOfMarshalled(slot.anchor);
    }
  }

  lemma GoodIsRanked(p: Issuer, s: State)
    requires GoodLog(p, s)
    ensures Ranked(s.log, 0)
  {
    forall i | 0 <= i < |s.log|
      ensures RankedAt(s.log, 0, i)
    {
      if s.log[i].Anchor? {
        AnchorIsBacked(p, s, i);
      }
    }
  }

  lemma GoodIsOwn(p: Issuer, objects: map<U64, Bytes>, slot: Slot, rank: nat)
    requires GoodSlot(p, objects, slot, rank)
    ensures OwnSlot(p, slot)
  {}

  /** What a pinned verifier finds in a log of such leaves. */
  lemma TrustsOwn(p: Issuer, log: seq<Slot>, v: Verifier)
    requires (forall i :: 0 <= i < |log| ==> OwnSlot(p, log[i])) && Pins(v, p) && SameLibraries(v, p)
    ensures TrustedAnchors(v, Raws(log)) == Found(log)
    ensures SawUntrusted(v, Raws(log)) <==> HasStrange(log)
  {
    forall i | 0 <= i < |log|
      ensures TrustedAnchor(v, Raws(log)[i]) == Found(log)[i] && (Untrusted(v, Raws(log)[i]) <==> Strange(log[i]))
    {
      SlotIsTrusted(p, log[i], v);
    }
  }

  // ----- An honest fetcher

  function Min(a: int, b: int): int { if a < b then a else b }

  /** The leaves of bundle b of a log of a given size. */
  function Bundle(raws: seq<Bytes>, b: nat, size: nat): seq<Bytes>
    requires b * BUNDLE < size <= |raws|
  {
    raws[b * BUNDLE..Min((b + 1) * BUNDLE, size)]
  }

  /** Bundles are the log's, and artifacts are the stored ones for every version
      an anchor names. Nothing is asked of the hint. */
  ghost predicate Faithful(f: Fetcher, s: State, size: U64)
    requires size <= |s.log|
  {
    && (forall pass: nat, b: nat :: b * BUNDLE < size ==> f.bundle(pass, b) == Success(Bundle(Raws(s.log), b, size)))
    && forall version :: version in s.objects && version <= Count(s.log) ==> f.artifact(version) == Success(s.objects[version])
  }

  lemma {:induction false} HonestlyServed(f: Fetcher, s: State, size: U64, pass: nat, b: nat)
    requires size <= |s.log| && Faithful(f, s, size)
    ensures LeavesFrom(f, pass, b, size) == Success(Raws(s.log)[Min(b * BUNDLE, size)..size])
    decreases size - b * BUNDLE
  {
    if b * BUNDLE < size {
      HonestlyServed(f, s, size, pass, b + 1);
      var raws := Raws(s.log);
      var k := Min((b + 1) * BUNDLE, size);
      assert raws[b * BUNDLE..k] + raws[k..size] == raws[b * BUNDLE..size];
    } else {
      assert Raws(s.log)[size..size] == [];
    }
  }

  // ----- Exact verdicts

  /** What the log, cut at a checkpoint, says about a leaf. */
  ghost function Answer(d: Documents, log: seq<Slot>, leafHash: Hash): Outcome {
    match Committed(log)
    case None =>
      if HasStrange(log) then Inconclusive(AnchorUntrusted, None) else Outcome(Verified, None, NoReason, None)
    case Some(withdrawn) => Listed(d, withdrawn, leafHash)
  }

  /** In every state that satisfies the invariant, at every checkpoint size and
      whatever the hint says, a resolution answers from the set committed by the
      last anchor below the checkpoint. */
  lemma ExactVerdict(p: Issuer, s: State, v: Verifier, f: Fetcher, leafHash: Hash, size: U64)
    requires Inv(p, s) && Pins(v, p) && SameLibraries(v, p)
    requires size <= |s.log| && Faithful(f, s, size)
    ensures Resolved(v, f, leafHash, size) == Answer(p.documents, s.log[..size], leafHash)
  {
    var log := s.log[..size];
    WholeLogServed(p, s, v, f, size);
    HintIndependence(v, f, leafHash, size);
    FullScan(v, f, size, Raws(log));
    if LastIndex(log) >= 0 {
      LastAnchorConsulted(p, s, v, f, leafHash, size);
    }
  }

  lemma FullScan(v: Verifier, f: Fetcher, size: U64, leaves: seq<Bytes>)
    requires LeavesFrom(f, 0, 0, size) == Success(leaves)
    ensures FinalScan(v, WithoutHint(f), size) == Success(Scan(Newest(v, leaves), SawUntrusted(v, leaves)))
  {
    HintDoesNotReachBundles(f, WithoutHint(f), 0, 0, size);
  }

  lemma LastAnchorConsulted(p: Issuer, s: State, v: Verifier, f: Fetcher, leafHash: Hash, size: U64)
    requires GoodLog(p, s) && SameLibraries(v, p)
    requires size <= |s.log| && Faithful(f, s, size) && LastIndex(s.log[..size]) >= 0
    ensures var a := LastAnchor(s.log[..size]).value;
      Consulted(v, a, f.artifact(a.artifactVersion), leafHash) == Answer(p.documents, s.log[..size], leafHash)
  {
    var i := LastIndex(s.log[..size]);
    assert s.log[..size][i] == s.log[i];
    SlotConsulted(p, s, v, f, leafHash, size, i);
  }

  lemma SlotConsulted(p: Issuer, s: State, v: Verifier, f: Fetcher, leafHash: Hash, size: U64, i: nat)
    requires GoodLog(p, s) && SameLibraries(v, p)
    requires i < size <= |s.log| && Faithful(f, s, size) && s.log[i].Anchor?
    ensures var a := s.log[i].anchor;
      Consulted(v, a, f.artifact(a.artifactVersion), leafHash) == Listed(p.documents, s.log[i].withdrawn, leafHash)
  {
    AnchorIsBacked(p, s, i);
    BackedConsulted(p, s.objects, s.log[i], v, f, leafHash);
  }

  lemma BackedConsulted(p: Issuer, objects: map<U64, Bytes>, slot: Slot, v: Verifier, f: Fetcher, leafHash: Hash)
    requires SameLibraries(v, p) && slot.Anchor?
    requires Backed(p, objects, slot.anchor.artifactVersion, slot.anchor.artifactHash, slot.withdrawn)
    requires f.artifact(slot.anchor.artifactVersion) == Success(objects[slot.anchor.artifactVersion])
    ensures Consulted(v, slot.anchor, f.artifact(slot.anchor.artifactVersion), leafHash)
         == Listed(p.documents, slot.withdrawn, leafHash)
  {}

  lemma WholeLogServed(p: Issuer, s: State, v: Verifier, f: Fetcher, size: U64)
    requires GoodLog(p, s) && Pins(v, p) && SameLibraries(v, p)
    requires size <= |s.log| && Faithful(f, s, size)
    ensures Readable(f, size)
    ensures LeavesFrom(f, 0, 0, size) == Success(Raws(s.log[..size]))
    ensures VersionsIncrease(v, Raws(s.log[..size]))
    ensures SawUntrusted(v, Raws(s.log[..size])) <==> HasStrange(s.log[..size])
    ensures Newest(v, Raws(s.log[..size])) == LastAnchor(s.log[..size])
  {
    HonestlyServed(f, s, size, 0, 0);
    assert Raws(s.log)[0..size] == Raws(s.log[..size]);
    TrustsExactlyOwn(p, s, v, size);
    RankedIncreases(s.log[..size]);
    NewestIsLast(s.log[..size], 0);
  }

  /** The same, in terms of the hashes withdrawn: with an encoding that keeps
      hashes apart, a resolver answers WITHDRAWN exactly for the members. */
  lemma WithdrawnExactly(p: Issuer, s: State, v: Verifier, f: Fetcher, leafHash: Hash, size: U64,
                         hashes: set<Hash>, entries: seq<Entry>)
    requires Inv(p, s) && Pins(v, p) && SameLibraries(v, p)
    requires size <= |s.log| && Faithful(f, s, size)
    requires forall g: Hash, h: Hash :: p.documents.base64(g) == p.documents.base64(h) ==> g == h
    requires Committed(s.log[..size]) == Some(entries)
    requires forall e :: e in entries ==> exists h :: h in hashes && e.leafHash == p.documents.base64(h)
    requires forall h :: h in hashes ==> exists e :: e in entries && e.leafHash == p.documents.base64(h)
    ensures Resolved(v, f, leafHash, size).verdict == if leafHash in hashes then Withdrawn else Verified
  {
    ExactVerdict(p, s, v, f, leafHash, size);
    FindFindsListed(p.documents, entries, leafHash);
  }

  // ----- Runs

  datatype Run = Run(states: seq<State>, actions: seq<Action>)

  ghost predicate IsRun(p: Issuer, r: Run) {
    && |r.states| == |r.actions| + 1
    && r.states[0] == START
    && forall i {:trigger r.actions[i]} :: 0 <= i < |r.actions| ==>
        Enabled(p, r.states[i], r.actions[i]) && r.states[i + 1] == Step(p, r.states[i], r.actions[i])
  }

  /** Every hint read succeeds, every set can be written down unchanged, and after
      a lost hint write no call begins. The artifact read, the size read, the
      artifact write and the append may fail at any call. */
  ghost predicate TameRun(p: Issuer, r: Run) {
    && (forall i :: 0 <= i < |r.actions| && r.actions[i].Begin? ==>
          r.actions[i].hintRead && Preserved(p.documents, r.actions[i].entries))
    && forall i, j :: 0 <= i < j < |r.actions| && r.actions[i] == PutHint(Lost) ==> !r.actions[j].Begin?
  }

  ghost predicate LostHintBefore(r: Run, n: nat)
    requires n <= |r.actions|
  {
    exists i :: 0 <= i < n && r.actions[i] == PutHint(Lost)
  }

  lemma {:induction false} TameRunKeepsInv(p: Issuer, r: Run, n: nat)
    requires Sound(p.crypto) && RoundTrips(p.documents)
    requires IsRun(p, r) && TameRun(p, r) && n < |r.states|
    ensures Inv(p, r.states[n])
    ensures LostHintBefore(r, n) || r.states[n].pc.Anchored? || HintCurrent(p.documents, r.states[n])
  {
    if n > 0 {
      TameRunKeepsInv(p, r, n - 1);
      TameAt(p, r, n - 1);
      var s, act := r.states[n - 1], r.actions[n - 1];
      StepKeepsInv(p, s, act);
      if !LostHintBefore(r, n) {
        HintFollows(p, s, act);
      }
    }
  }

  lemma TameAt(p: Issuer, r: Run, n: nat)
    requires IsRun(p, r) && TameRun(p, r) && n < |r.actions|
    requires LostHintBefore(r, n) || r.states[n].pc.Anchored? || HintCurrent(p.documents, r.states[n])
    ensures Tame(p, r.states[n], r.actions[n])
    ensures !LostHintBefore(r, n + 1) ==> !LostHintBefore(r, n) && r.actions[n] != PutHint(Lost)
  {}

  /** Over every tame run, at every state, checkpoint size and hint, for every
      leaf: the exact verdict. It is indeterminate exactly when nothing is committed
      below the checkpoint and somebody else's anchor is there. */
  lemma EveryRunIsExact(p: Issuer, r: Run, n: nat, v: Verifier, f: Fetcher, leafHash: Hash, size: U64)
    requires Sound(p.crypto) && RoundTrips(p.documents) && Pins(v, p) && SameLibraries(v, p)
    requires IsRun(p, r) && TameRun(p, r) && n < |r.states|
    requires size <= |r.states[n].log| && Faithful(f, r.states[n], size)
    ensures Resolved(v, f, leafHash, size) == Answer(p.documents, r.states[n].log[..size], leafHash)
    ensures var log := r.states[n].log[..size];
      Resolved(v, f, leafHash, size).verdict == Indeterminate <==> Committed(log).None? && HasStrange(log)
  {
    TameRunKeepsInv(p, r, n);
    ExactVerdict(p, r.states[n], v, f, leafHash, size);
  }

  // ----- Linearisation

  /** What a step adds to the log. */
  lemma StepLog(p: Issuer, s: State, act: Action) returns (added: seq<Slot>)
    requires Enabled(p, s, act)
    ensures Step(p, s, act).log == s.log + added && |added| <= 1
    ensures act == Append(true) <==> |added| == 1 && added[0].Anchor?
    ensures act == Append(true) ==> added[0].withdrawn == s.pc.entries
  {
    added := Step(p, s, act).log[|s.log|..];
  }

  lemma Grown(log: seq<Slot>, added: seq<Slot>, size: nat)
    requires |added| <= 1 && size <= |log|
    ensures (log + added)[..size] == log[..size]
    ensures added == [] || !added[0].Anchor? ==> Committed(log + added) == Committed(log) && Count(log + added) == Count(log)
    ensures added != [] && added[0].Anchor? ==>
      Committed(log + added) == Some(added[0].withdrawn) && Count(log + added) == Count(log) + 1
  {
    if added == [] {
      assert log + added == log;
    } else {
      Snoc(log, added[0]);
      assert added == [added[0]];
    }
  }

  /** A step changes no answer at any checkpoint that existed before it, and a
      step that is not a successful append commits nothing new at the tip. */
  lemma StepKeepsAnswers(p: Issuer, s: State, act: Action, leafHash: Hash, size: nat)
    requires Enabled(p, s, act) && size <= |s.log|
    ensures var t := Step(p, s, act);
      && size <= |t.log|
      && Answer(p.documents, t.log[..size], leafHash) == Answer(p.documents, s.log[..size], leafHash)
      && (act != Append(true) ==> Committed(t.log) == Committed(s.log))
      && (act == Append(true) ==> |t.log| == |s.log| + 1 && Committed(t.log) == Some(s.pc.entries))
  {
    var added := StepLog(p, s, act);
    Grown(s.log, added, size);
  }

  /** Publication takes effect at the append and nowhere else. A resolution before
      any other step and one after it agree at every checkpoint both can have; at
      the append, only checkpoints that cover the new anchor see the new set. */
  lemma AppendIsTheLinearisationPoint(p: Issuer, s: State, act: Action, v: Verifier, f: Fetcher, g: Fetcher, leafHash: Hash, size: U64)
    requires Sound(p.crypto) && RoundTrips(p.documents) && Pins(v, p) && SameLibraries(v, p)
    requires Inv(p, s) && Enabled(p, s, act) && Tame(p, s, act)
    requires var t := Step(p, s, act); size <= |t.log| && Faithful(g, t, size)
    requires size <= |s.log| ==> Faithful(f, s, size)
    ensures size <= |s.log| ==> Resolved(v, g, leafHash, size) == Resolved(v, f, leafHash, size)
    ensures size > |s.log| && act == Append(true) ==>
      Resolved(v, g, leafHash, size) == Listed(p.documents, s.pc.entries, leafHash)
    ensures size > |s.log| && act != Append(true) ==>
      act.Foreign? && Resolved(v, g, leafHash, size) ==
        if Committed(s.log).None? && AnchorOf(act.leaf).Some? then Inconclusive(AnchorUntrusted, None)
        else Answer(p.documents, s.log, leafHash)
  {
    var t := Step(p, s, act);
    StepKeepsInv(p, s, act);
    ExactVerdict(p, t, v, g, leafHash, size);
    StepKeepsAnswers(p, s, act, leafHash, Min(size, |s.log|));
    if size <= |s.log| {
      ExactVerdict(p, s, v, f, leafHash, size);
    } else {
      AnswerAtTip(p, s, act, leafHash, size);
    }
  }

  /** What a step makes the log say at the checkpoint it adds, if it adds one. */
  lemma AnswerAtTip(p: Issuer, s: State, act: Action, leafHash: Hash, size: nat)
    requires Enabled(p, s, act) && |s.log| < size <= |Step(p, s, act).log|
    ensures act == Append(true) ==> Answer(p.documents, Step(p, s, act).log[..size], leafHash) == Listed(p.documents, s.pc.entries, leafHash)
    ensures act != Append(true) ==>
      act.Foreign? && Answer(p.documents, Step(p, s, act).log[..size], leafHash) ==
        if Committed(s.log).None? && AnchorOf(act.leaf).Some? then Inconclusive(AnchorUntrusted, None)
        else Answer(p.documents, s.log, leafHash)
  {
    var added := StepLog(p, s, act);
    assert (s.log + added)[..size] == s.log + added;
    Snoc(s.log, added[0]);
    assert added == [added[0]];
    if act.Foreign? {
      OneMoreForeign(s.log, act.leaf);
    }
  }

  lemma OneMoreForeign(log: seq<Slot>, leaf: Bytes)
    ensures Committed(log + [Other(leaf)]) == Committed(log)
    ensures HasStrange(log + [Other(leaf)]) <==> HasStrange(log) || AnchorOf(leaf).Some?
  {
    var more := log + [Other(leaf)];
    Snoc(log, Other(leaf));
    if HasStrange(log) {
      var i :| 0 <= i < |log| && Strange(log[i]);
      assert Strange(more[i]);
    }
    if AnchorOf(leaf).Some? {
      assert Strange(more[|log|]);
    }
  }

  // ----- A resolution spread over time

  /** t is a later state than s: the log has grown and no artifact an anchor of s
      names has changed. */
  ghost predicate IsLater(s: State, t: State) {
    && s.log <= t.log && Count(s.log) <= Count(t.log)
    && forall version :: version in s.objects && version <= Count(s.log) ==>
        version in t.objects && t.objects[version] == s.objects[version]
  }

  /** The only artifact a step writes is the next version's. */
  lemma ArtifactsStay(p: Issuer, s: State, act: Action)
    requires GoodPc(p, s) && Enabled(p, s, act)
    ensures var t := Step(p, s, act);
      forall version :: version in s.objects && version <= Count(s.log) ==>
        version in t.objects && t.objects[version] == s.objects[version]
  {}

  lemma LogGrows(p: Issuer, s: State, act: Action)
    requires Enabled(p, s, act)
    ensures s.log <= Step(p, s, act).log && Count(s.log) <= Count(Step(p, s, act).log)
  {
    var added := StepLog(p, s, act);
    Grown(s.log, added, |s.log|);
  }

  lemma StepExtends(p: Issuer, s: State, act: Action)
    requires Inv(p, s) && Enabled(p, s, act)
    ensures IsLater(s, Step(p, s, act))
  {
    ArtifactsStay(p, s, act);
    LogGrows(p, s, act);
  }

  lemma RunStepExtends(p: Issuer, r: Run, j: nat)
    requires Sound(p.crypto) && RoundTrips(p.documents)
    requires IsRun(p, r) && TameRun(p, r) && j < |r.actions|
    ensures IsLater(r.states[j], r.states[j + 1])
  {
    TameRunKeepsInv(p, r, j);
    StepExtends(p, r.states[j], r.actions[j]);
  }

  lemma {:induction false} RunExtends(p: Issuer, r: Run, i: nat, j: nat)
    requires Sound(p.crypto) && RoundTrips(p.documents)
    requires IsRun(p, r) && TameRun(p, r) && i <= j < |r.states|
    ensures IsLater(r.states[i], r.states[j])
  {
    if i == j {
      Unchanged(r.states[i]);
    } else {
      RunExtends(p, r, i, j - 1);
      RunStepExtends(p, r, j - 1);
      Transitive(r.states[i], r.states[j - 1], r.states[j]);
    }
  }

  lemma Unchanged(s: State)
    ensures IsLater(s, s)
  {}

  lemma Transitive(s: State, t: State, u: State)
    requires IsLater(s, t) && IsLater(t, u)
    ensures IsLater(s, u)
  {}

  /** Each answer comes from some state of the run, not before the n-th. */
  ghost predicate ServedDuring(f: Fetcher, r: Run, n: nat, size: U64) {
    && (forall pass: nat, b: nat :: b * BUNDLE < size ==>
          exists j :: n <= j < |r.states| && size <= |r.states[j].log|
            && f.bundle(pass, b) == Success(Bundle(Raws(r.states[j].log), b, size)))
    && forall version: U64 :: HeldDuring(f, r, n, version)
  }

  ghost predicate HeldDuring(f: Fetcher, r: Run, n: nat, version: U64) {
    exists j :: n <= j < |r.states| && HoldsAt(f, r.states[j], version)
  }

  ghost predicate HoldsAt(f: Fetcher, s: State, version: U64) {
    version in s.objects ==> f.artifact(version) == Success(s.objects[version])
  }

  lemma ServedDuringIsFaithful(p: Issuer, r: Run, n: nat, f: Fetcher, size: U64)
    requires Sound(p.crypto) && RoundTrips(p.documents)
    requires IsRun(p, r) && TameRun(p, r) && n < |r.states|
    requires size <= |r.states[n].log| && ServedDuring(f, r, n, size)
    ensures Faithful(f, r.states[n], size)
  {
    var s := r.states[n];
    forall pass: nat, b: nat | b * BUNDLE < size
      ensures f.bundle(pass, b) == Success(Bundle(Raws(s.log), b, size))
    {
      var j :| n <= j < |r.states| && size <= |r.states[j].log|
        && f.bundle(pass, b) == Success(Bundle(Raws(r.states[j].log), b, size));
      RunExtends(p, r, n, j);
      assert Raws(s.log)[..size] == Raws(r.states[j].log)[..size];
      SameBundle(Raws(s.log), Raws(r.states[j].log), b, size);
    }
    forall version | version in s.objects && version <= Count(s.log)
      ensures f.artifact(version) == Success(s.objects[version])
    {
      assert HeldDuring(f, r, n, version);
      var j :| n <= j < |r.states| && HoldsAt(f, r.states[j], version);
      RunExtends(p, r, n, j);
    }
  }

  lemma SameBundle(xs: seq<Bytes>, ys: seq<Bytes>, b: nat, size: nat)
    requires b * BUNDLE < size && size <= |xs| && size <= |ys| && xs[..size] == ys[..size]
    ensures Bundle(xs, b, size) == Bundle(ys, b, size)
  {
    var k := Min((b + 1) * BUNDLE, size);
    assert xs[b * BUNDLE..k] == xs[..size][b * BUNDLE..k];
    assert ys[b * BUNDLE..k] == ys[..size][b * BUNDLE..k];
  }

  /** A resolution need not be atomic. Take a checkpoint at the n-th state of a run,
      and let every later read, and the two passes, see any states from then on,
      while the publisher goes on publishing: the answer is still the one the
      checkpoint determines. */
  lemma InterleavedResolutionIsExact(p: Issuer, r: Run, n: nat, v: Verifier, f: Fetcher, leafHash: Hash, size: U64)
    requires Sound(p.crypto) && RoundTrips(p.documents) && Pins(v, p) && SameLibraries(v, p)
    requires IsRun(p, r) && TameRun(p, r) && n < |r.states|
    requires size <= |r.states[n].log| && ServedDuring(f, r, n, size)
    ensures Resolved(v, f, leafHash, size) == Answer(p.documents, r.states[n].log[..size], leafHash)
  {
    ServedDuringIsFaithful(p, r, n, f, size);
    EveryRunIsExact(p, r, n, v, f, leafHash, size);
  }
}
