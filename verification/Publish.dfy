/** pkg/status/publish.go as a step system: a publisher that writes an artifact,
    then an anchor, then a hint, and can fail at each; and others who append to
    the same log between any two of its steps. */
module Publication {
  import opened Bytes
  import opened Crypto
  import opened StatusAnchors
  import opened Resolution
  import opened Order

  const SCHEMA := 1

  datatype Withdrawal = Withdrawal(leafHashB64: Bytes, reason: Bytes, withdrawnAt: U64)

  /** What the publisher is configured with: the libraries and the identity-root
      secret. `others` are the further keys its verifiers pin. */
  datatype Issuer = Issuer(crypto: Suite, documents: Documents, secret: Bytes, others: seq<Key>)

  /** The key a verifier of this publisher may pin. */
  predicate Pinnable(p: Issuer, key: Key) {
    key == p.crypto.publicKey(p.secret) || key in p.others
  }

  /** A leaf anybody may append: it may decode as an anchor, but not as one that a
      pinned key vouches for. */
  ghost predicate Unvouched(p: Issuer, leaf: Bytes) {
    match AnchorOf(leaf)
    case None => true
    case Some(a) => !Verifies(p.crypto, a) || !Pinnable(p, a.issuerPubKey)
  }

  function ToEntry(w: Withdrawal): Entry {
    Entry(w.leafHashB64, w.reason, w.withdrawnAt)
  }

  function ToEntries(ws: seq<Withdrawal>): seq<Entry> {
    seq(|ws|, i requires 0 <= i < |ws| => ToEntry(ws[i]))
  }

  function LeafHashKey(e: Entry): seq<int> {
    e.leafHash
  }

  /** Some permutation of the input sorted by leaf hash: all that the library
      sort promises. */
  ghost predicate Normalised(ws: seq<Withdrawal>, entries: seq<Entry>) {
    multiset(entries) == multiset(ToEntries(ws)) && Sorted(entries, LeafHashKey)
  }

  predicate Preserved(d: Documents, entries: seq<Entry>) {
    forall e :: e in entries ==> d.preserved(e.leafHash) && d.preserved(e.reason)
  }

  /** Parsing what was encoded gives it back. */
  ghost predicate RoundTrips(d: Documents) {
    && (forall a: Artifact :: a.schema == SCHEMA && Preserved(d, a.withdrawn) ==>
          d.parseArtifact(d.encodeArtifact(a)) == Success(a))
    && forall h: Hint :: d.parseHint(d.encodeHint(h)) == Success(h)
  }

  /** A position of the log: an anchor of this publisher, with the set it
      commits, or a leaf of somebody else. */
  datatype Slot = Other(raw: Bytes) | Anchor(anchor: StatusAnchor, withdrawn: seq<Entry>)

  function Raw(s: Slot): Bytes {
    match s
    case Other(raw) => raw
    case Anchor(a, _) => Marshalled(a)
  }

  function Raws(log: seq<Slot>): seq<Bytes> {
    seq(|log|, i requires 0 <= i < |log| => Raw(log[i]))
  }

  /** Where the publisher is between two of its steps. */
  datatype Pc =
    | Idle
    | Loaded(prev: Option<Artifact>, prevVersion: U64, entries: seq<Entry>)
    | Measured(version: U64, entries: seq<Entry>, size: U64)
    | Stored(version: U64, entries: seq<Entry>, hash: Hash, issuedAt: U64)
    | Anchored(version: U64, index: U64)

  datatype State = State(objects: map<U64, Bytes>, hint: Option<Bytes>, log: seq<Slot>, pc: Pc)

  const START := State(map[], None, [], Idle)

  /** What a write did: it happened, it did not, or it happened and yet an error
      came back. */
  datatype Write = Done | Lost | Doubtful

  datatype Action =
    | Foreign(leaf: Bytes)
    | Begin(withdrawn: seq<Withdrawal>, entries: seq<Entry>, hintRead: bool, artifactRead: bool)
    | Measure(size: Option<U64>)
    | PutArtifact(now: U64, write: Write)
    | Append(ok: bool)
    | PutHint(write: Write)

  /** The set and version the hint leads to, or nothing where a read fails. */
  function Load(d: Documents, s: State, hintRead: bool, artifactRead: bool): (Option<Artifact>, U64) {
    if !hintRead || s.hint.None? then (None, 0)
    else
      match d.parseHint(s.hint.value)
      case Failure(_) => (None, 0)
      case Success(h) =>
        if !artifactRead || h.version !in s.objects then (None, h.version)
        else
          match d.parseArtifact(s.objects[h.version])
          case Failure(_) => (None, h.version)
          case Success(a) => (Some(a), h.version)
  }

  predicate HasRoom(s: State) {
    |s.log| < TWO64 - BUNDLE
  }

  ghost predicate Enabled(p: Issuer, s: State, act: Action) {
    match act
    case Foreign(leaf) => HasRoom(s) && Unvouched(p, leaf)
    case Begin(withdrawn, entries, _, _) => s.pc.Idle? && Normalised(withdrawn, entries)
    case Measure(_) => s.pc.Loaded?
    case PutArtifact(_, _) => s.pc.Measured?
    case Append(_) => s.pc.Stored? && HasRoom(s)
    case PutHint(_) => s.pc.Anchored?
  }

  function Document(size: U64, version: U64, now: U64, entries: seq<Entry>): Artifact {
    Artifact(now, size, SCHEMA, version, entries)
  }

  function NewAnchor(p: Issuer, version: U64, hash: Hash, issuedAt: U64): StatusAnchor {
    Signed(p.crypto, p.secret, StatusAnchor(SCHEMA, version, hash, issuedAt, ZeroKey(), ZeroSignature()))
  }

  /** Addition in 64 bits. */
  function NextVersion(version: U64): U64 {
    if version + 1 < TWO64 then version + 1 else 0
  }

  ghost function Step(p: Issuer, s: State, act: Action): State
    requires Enabled(p, s, act)
  {
    match act
    case Foreign(leaf) => s.(log := s.log + [Other(leaf)])
    case Begin(_, entries, hintRead, artifactRead) =>
      var (prev, version) := Load(p.documents, s, hintRead, artifactRead);
      s.(pc := Loaded(prev, version, entries))
    case Measure(size) =>
      if size.None? then s.(pc := Idle)
      else if s.pc.prev.Some? && s.pc.prev.value.withdrawn == s.pc.entries then s.(pc := Idle)
      else s.(pc := Measured(NextVersion(s.pc.prevVersion), s.pc.entries, size.value))
    case PutArtifact(now, write) =>
      var raw := p.documents.encodeArtifact(Document(s.pc.size, s.pc.version, now, s.pc.entries));
      var t := if write.Lost? then s else s.(objects := s.objects[s.pc.version := raw]);
      t.(pc := if write.Done? then Stored(s.pc.version, s.pc.entries, p.crypto.hash(raw), now) else Idle)
    case Append(ok) =>
      if !ok then s.(pc := Idle)
      else
        var anchor := NewAnchor(p, s.pc.version, s.pc.hash, s.pc.issuedAt);
        s.(log := s.log + [Anchor(anchor, s.pc.entries)], pc := Anchored(s.pc.version, |s.log|))
    case PutHint(write) =>
      var hint := p.documents.encodeHint(Hint(s.pc.version, s.pc.index));
      (if write.Lost? then s else s.(hint := Some(hint))).(pc := Idle)
  }

  /** The number of anchors in the log. */
  function Count(log: seq<Slot>): nat {
    if log == [] then 0 else Count(log[..|log| - 1]) + if log[|log| - 1].Anchor? then 1 else 0
  }

  /** The position of the last anchor, and -1 if there is none. */
  function LastIndex(log: seq<Slot>): (i: int)
    ensures -1 <= i < |log|
    ensures i >= 0 ==> log[i].Anchor?
    ensures forall j :: i < j < |log| ==> !log[j].Anchor?
  {
    if log == [] then -1 else if log[|log| - 1].Anchor? then |log| - 1 else LastIndex(log[..|log| - 1])
  }

  /** The set the log commits to: none, or the last anchor's. */
  function Committed(log: seq<Slot>): Option<seq<Entry>> {
    if LastIndex(log) < 0 then None else Some(log[LastIndex(log)].withdrawn)
  }

  lemma Snoc(log: seq<Slot>, slot: Slot)
    ensures Count(log + [slot]) == Count(log) + if slot.Anchor? then 1 else 0
    ensures LastIndex(log + [slot]) == if slot.Anchor? then |log| else LastIndex(log)
    ensures Committed(log + [slot]) == if slot.Anchor? then Some(slot.withdrawn) else Committed(log)
  {
    assert (log + [slot])[..|log|] == log;
  }

  lemma {:induction false} CountAndLast(log: seq<Slot>)
    ensures Count(log) <= |log|
    ensures Count(log) == 0 <==> LastIndex(log) < 0
  {
    if log != [] {
      CountAndLast(log[..|log| - 1]);
    }
  }

  /** The hint names the last anchor. */
  predicate HintCurrent(d: Documents, s: State) {
    var n := Count(s.log);
    if n == 0 then s.hint.None?
    else n < TWO64 && 0 <= LastIndex(s.log) < TWO64 && s.hint == Some(d.encodeHint(Hint(n, LastIndex(s.log))))
  }

  // ----- The invariant

  /** The artifact stored under a version hashes to what the anchor of that
      version commits to, and lists the set it commits. */
  ghost predicate Backed(p: Issuer, objects: map<U64, Bytes>, version: U64, hash: Hash, withdrawn: seq<Entry>) {
    && version in objects
    && p.crypto.hash(objects[version]) == hash
    && p.documents.parseArtifact(objects[version]).Success?
    && p.documents.parseArtifact(objects[version]).value.withdrawn == withdrawn
  }

  /** An anchor in the log: this publisher signed it, its version is its rank
      among the anchors, and its artifact backs it. */
  ghost predicate GoodSlot(p: Issuer, objects: map<U64, Bytes>, slot: Slot, rank: nat) {
    match slot
    case Other(raw) => Unvouched(p, raw)
    case Anchor(a, withdrawn) =>
      && a.artifactVersion == rank
      && a.issuerPubKey == p.crypto.publicKey(p.secret) && Verifies(p.crypto, a)
      && Backed(p, objects, a.artifactVersion, a.artifactHash, withdrawn)
      && Sorted(withdrawn, LeafHashKey)
  }

  ghost predicate GoodLog(p: Issuer, s: State) {
    && |s.log| <= TWO64 - BUNDLE
    && forall i :: 0 <= i < |s.log| ==> GoodPosition(p, s.objects, s.log, i)
  }

  ghost predicate GoodPosition(p: Issuer, objects: map<U64, Bytes>, log: seq<Slot>, i: nat)
    requires i < |log|
  {
    GoodSlot(p, objects, log[i], Count(log[..i + 1]))
  }

  /** What the publisher remembers is still true. */
  ghost predicate GoodPc(p: Issuer, s: State) {
    var n := Count(s.log);
    match s.pc
    case Idle => true
    case Loaded(prev, version, entries) =>
      && version == n && Preserved(p.documents, entries) && Sorted(entries, LeafHashKey)
      && (prev.Some? ==> Committed(s.log) == Some(prev.value.withdrawn))
    case Measured(version, entries, _) =>
      version == n + 1 && Preserved(p.documents, entries) && Sorted(entries, LeafHashKey)
    case Stored(version, entries, hash, _) =>
      version == n + 1 && Backed(p, s.objects, version, hash, entries) && Sorted(entries, LeafHashKey)
    case Anchored(version, index) => version == n && index == LastIndex(s.log)
  }

  ghost predicate Inv(p: Issuer, s: State) {
    GoodLog(p, s) && GoodPc(p, s)
  }

  /** The steps the exact verdicts are proved for. A call may begin only when the
      hint can be read and names the last anchor, with strings the artifact format
      carries unchanged. */
  ghost predicate Tame(p: Issuer, s: State, act: Action) {
    act.Begin? ==> act.hintRead && HintCurrent(p.documents, s) && Preserved(p.documents, act.entries)
  }

  lemma {:induction false} CountOfPrefix(log: seq<Slot>, i: nat)
    requires i <= |log|
    ensures Count(log[..i]) <= Count(log)
  {
    if i < |log| {
      CountOfPrefix(log[..|log| - 1], i);
      assert log[..|log| - 1][..i] == log[..i];
    } else {
      assert log[..i] == log;
    }
  }

  lemma AppendedIsGood(p: Issuer, s: State, t: State, slot: Slot)
    requires GoodLog(p, s) && HasRoom(s)
    requires t.log == s.log + [slot] && t.objects == s.objects
    requires GoodSlot(p, s.objects, slot, Count(s.log) + if slot.Anchor? then 1 else 0)
    ensures GoodLog(p, t)
  {
    forall i | 0 <= i < |t.log|
      ensures GoodPosition(p, t.objects, t.log, i)
    {
      AppendedSlot(p, t.objects, s.log, slot, t.log, i);
    }
  }

  lemma AppendedSlot(p: Issuer, objects: map<U64, Bytes>, log: seq<Slot>, slot: Slot, more: seq<Slot>, i: nat)
    requires more == log + [slot] && i < |more|
    requires i < |log| ==> GoodPosition(p, objects, log, i)
    requires GoodSlot(p, objects, slot, Count(log) + if slot.Anchor? then 1 else 0)
    ensures GoodPosition(p, objects, more, i)
  {
    RankInMore(log, slot, more, i);
  }

  lemma RankInMore(log: seq<Slot>, slot: Slot, more: seq<Slot>, i: nat)
    requires more == log + [slot] && i < |more|
    ensures more[i] == if i < |log| then log[i] else slot
    ensures i < |log| ==> Count(more[..i + 1]) == Count(log[..i + 1])
    ensures i == |log| ==> Count(more[..i + 1]) == Count(log) + if slot.Anchor? then 1 else 0
  {
    if i < |log| {
      assert more[..i + 1] == log[..i + 1];
    } else {
      assert more[..i + 1] == log + [slot];
      Snoc(log, slot);
    }
  }

  /** Storing the next version disturbs no anchor. */
  lemma StoringKeepsLog(p: Issuer, s: State, t: State, version: U64, raw: Bytes)
    requires GoodLog(p, s) && version == Count(s.log) + 1
    requires t.log == s.log && t.objects == s.objects[version := raw]
    ensures GoodLog(p, t)
  {
    forall i | 0 <= i < |s.log|
      ensures GoodPosition(p, t.objects, t.log, i)
    {
      assert GoodPosition(p, s.objects, s.log, i);
      CountOfPrefix(s.log, i + 1);
      StoringKeepsSlot(p, s.objects, version, raw, s.log[i], Count(s.log[..i + 1]));
    }
  }

  lemma StoringKeepsSlot(p: Issuer, objects: map<U64, Bytes>, version: U64, raw: Bytes, slot: Slot, rank: nat)
    requires GoodSlot(p, objects, slot, rank) && rank < version
    ensures GoodSlot(p, objects[version := raw], slot, rank)
  {}

  lemma AnchorIsBacked(p: Issuer, s: State, i: nat)
    requires GoodLog(p, s) && i < |s.log| && s.log[i].Anchor?
    ensures var a := s.log[i].anchor;
      && a.artifactVersion == Count(s.log[..i + 1]) <= Count(s.log)
      && Backed(p, s.objects, a.artifactVersion, a.artifactHash, s.log[i].withdrawn)
  {
    assert GoodPosition(p, s.objects, s.log, i);
    SlotIsBacked(p, s.objects, s.log[i], Count(s.log[..i + 1]));
    CountOfPrefix(s.log, i + 1);
  }

  lemma SlotIsBacked(p: Issuer, objects: map<U64, Bytes>, slot: Slot, rank: nat)
    requires GoodSlot(p, objects, slot, rank) && slot.Anchor?
    ensures var a := slot.anchor;
      a.artifactVersion == rank && Backed(p, objects, a.artifactVersion, a.artifactHash, slot.withdrawn)
  {}

  /** The last anchor's version is the number of anchors, and its artifact lists what
      the log commits to. */
  lemma LastIsStored(p: Issuer, s: State)
    requires GoodLog(p, s) && Count(s.log) > 0
    ensures LastIndex(s.log) >= 0 && Count(s.log) < TWO64 && Count(s.log) in s.objects
    ensures var parsed := p.documents.parseArtifact(s.objects[Count(s.log)]);
      parsed.Success? && Committed(s.log) == Some(parsed.value.withdrawn)
  {
    CountAndLast(s.log);
    CountAtLast(s.log);
    AnchorIsBacked(p, s, LastIndex(s.log));
  }

  lemma LoadFromCurrentHint(p: Issuer, s: State, artifactRead: bool)
    requires RoundTrips(p.documents) && GoodLog(p, s) && HintCurrent(p.documents, s)
    ensures var (prev, version) := Load(p.documents, s, true, artifactRead);
      && version == Count(s.log)
      && (prev.Some? ==> Committed(s.log) == Some(prev.value.withdrawn))
      && (artifactRead && Count(s.log) > 0 ==> prev.Some?)
  {
    if Count(s.log) > 0 {
      LastIsStored(p, s);
    }
  }

  lemma {:induction false} CountAtLast(log: seq<Slot>)
    requires LastIndex(log) >= 0
    ensures Count(log[..LastIndex(log) + 1]) == Count(log)
  {
    var n := |log| - 1;
    if log[n].Anchor? {
      assert log[..n + 1] == log;
    } else {
      CountAtLast(log[..n]);
      assert log[..n][..LastIndex(log) + 1] == log[..LastIndex(log) + 1];
    }
  }

  lemma ForeignKeepsInv(p: Issuer, s: State, leaf: Bytes)
    requires Inv(p, s) && Enabled(p, s, Foreign(leaf))
    ensures Inv(p, Step(p, s, Foreign(leaf)))
  {
    Snoc(s.log, Other(leaf));
    AppendedIsGood(p, s, Step(p, s, Foreign(leaf)), Other(leaf));
  }

  lemma BeginKeepsInv(p: Issuer, s: State, act: Action)
    requires RoundTrips(p.documents) && act.Begin?
    requires Inv(p, s) && Enabled(p, s, act) && Tame(p, s, act)
    ensures Inv(p, Step(p, s, act))
  {
    LoadFromCurrentHint(p, s, act.artifactRead);
  }

  lemma MeasureKeepsInv(p: Issuer, s: State, size: Option<U64>)
    requires Inv(p, s) && Enabled(p, s, Measure(size))
    ensures Inv(p, Step(p, s, Measure(size)))
  {
    CountAndLast(s.log);
  }

  lemma PutArtifactKeepsInv(p: Issuer, s: State, now: U64, write: Write)
    requires RoundTrips(p.documents) && Inv(p, s) && Enabled(p, s, PutArtifact(now, write))
    ensures Inv(p, Step(p, s, PutArtifact(now, write)))
  {
    var t := Step(p, s, PutArtifact(now, write));
    if !write.Lost? {
      StoringKeepsLog(p, s, t, s.pc.version, t.objects[s.pc.version]);
    }
  }

  lemma AppendKeepsInv(p: Issuer, s: State)
    requires Sound(p.crypto) && Inv(p, s) && Enabled(p, s, Append(true))
    ensures Inv(p, Step(p, s, Append(true)))
  {
    var slot := Anchor(NewAnchor(p, s.pc.version, s.pc.hash, s.pc.issuedAt), s.pc.entries);
    Snoc(s.log, slot);
    AppendedIsGood(p, s, Step(p, s, Append(true)), slot);
  }

  /** Every tame step keeps the invariant. */
  lemma StepKeepsInv(p: Issuer, s: State, act: Action)
    requires Sound(p.crypto) && RoundTrips(p.documents)
    requires Inv(p, s) && Enabled(p, s, act) && Tame(p, s, act)
    ensures Inv(p, Step(p, s, act))
  {
    match act
    case Foreign(leaf) => ForeignKeepsInv(p, s, leaf);
    case Begin(_, _, _, _) => BeginKeepsInv(p, s, act);
    case Measure(size) => MeasureKeepsInv(p, s, size);
    case PutArtifact(now, write) => PutArtifactKeepsInv(p, s, now, write);
    case Append(ok) => if ok { AppendKeepsInv(p, s); }
    case PutHint(_) =>
  }

  lemma StartIsGood(p: Issuer)
    ensures Inv(p, START) && HintCurrent(p.documents, START)
  {}

  /** While no hint write is lost, the hint names the last anchor whenever the
      publisher is not between its last two writes. */
  lemma HintFollows(p: Issuer, s: State, act: Action)
    requires Inv(p, s) && Enabled(p, s, act)
    requires s.pc.Anchored? || HintCurrent(p.documents, s)
    requires act != PutHint(Lost)
    ensures var t := Step(p, s, act); t.pc.Anchored? || HintCurrent(p.documents, t)
  {
    CountAndLast(s.log);
    match act
    case Foreign(leaf) => Snoc(s.log, Other(leaf));
    case _ =>
  }
}
