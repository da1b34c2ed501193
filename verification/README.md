# Chain of Creation: a verified model

The system keeps signed provenance events in an append-only log. This project
models four of its components and one smaller one in Dafny and proves properties
of the model. Paths in the table are relative to the repository root.

- **Leaf codec** (`Bytes`, `Wire`, `Crypto`, `StatusAnchor`, `IdentityBinding`,
  `Attestation`, `Signing`, `Layout`): the mutable encoder and decoder, the three leaf
  kinds and the three signing payloads. Decoding is specified by what the bytes are,
  not by how they are read: a leaf, a proper continuation of a leaf, no continuation of
  any leaf, or a leaf of another kind; and `Layout` gives every field its offset.
- **Revocation status** (`Resolve`, `ResolveProperties`, `Trust`, `HintInfluence`, `Publish`,
  `PublishProperties`, `Reconcile`, `FaultFree`, `Versions`, `Recovery`, `LostHints`,
  `Reached`): a resolver against an arbitrary fetcher; a publisher as a step system
  over store, log, hint and program counter, with a failure possible at every read and
  write and other writers appending between any two steps; the publisher's methods,
  tied to those steps; and exactly what happens when the hint cannot be relied on,
  with runs from the empty log that show it.
- **Provenance graph** (`Order`, `Provenance`, `Histories`, `Linearize`): grouping
  by work, roots, forks and dangling links, and the walk from the root.
- **Fuzzy digests** (`Fingerprint`, `SimHash64`, `SimHashText`, `PHash`): votes on 64
  lanes, Hamming distance and thresholds, edit stability, the median rule and the
  linearity of the cosine transform.
- **Identity** (`Identity`): which creator a key belonged to, over whole histories of
  trusted roots and added bindings.

## What is assumed

BLAKE3, SHA-256, FNV-1a, Ed25519 (section 5.1 of RFC 8032), JSON and base64 (section
4 of RFC 4648) are function values about which nothing is known. Each theorem names
what it needs: `Sound` (a signature made with a secret verifies under its public
key), `TellsApart` (a signature made for one of two given messages is not taken for
the other), `RoundTrips` (parsing what was encoded gives it back, for strings that
JSON carries unchanged), and for the graph that equal hashes among the events at hand
mean equal attestations. No hash is assumed injective. `Witnesses` shows that the
hypotheses can hold together, under any hash function.

The exact verdicts hold for runs in which every hint read succeeds and no call
follows a lost hint write; the artifact read, the size read, the artifact write and
the append may fail at any call, and a write may take effect and still report an
error. An append that takes effect and reports an error leaves the state of a
successful append followed by a lost hint write. There is one publisher, its key is
pinned, and others may append any leaf but an anchor that a pinned key vouches for.
For every other run there are `FailClosed`, `VersionsIncreaseExactlyWhen` and the
theorems of `LostHints` and `Recovery`.

## Where the code and its documentation differ

- `pkg/status/publish.go:75-78` says that treating an unreadable hint as "nothing
  published yet" costs one anchor and corrects itself. The call restarts at version
  1, so from the second published set on, a full scan does not select the new
  anchor, and repeating the call writes nothing. `AWithdrawalIsHidden` is a run from
  the empty log that ends so, `NewSetIsVisibleExactlyWhen` says when the new set is
  seen, and `RepublishedAnswers` what every checkpoint shows until as many changed sets
  have been published as there were anchors (`RecoversAfterAsManyCalls`).
- `pkg/leaf/status.go:21`, and the published format document, call artifact versions
  strictly monotonic across publications. That fails in two ways: a call that cannot
  read the hint restarts at version 1, and the call after a lost hint write uses the
  last version again. `AVersionRepeats` is a run from the empty log to the versions
  1, 2, 2. `VersionsIncreaseExactlyWhen` gives the exact condition over every run: each
  call that appended had begun on a log without an anchor, or had read the hint of the
  last one.
- `pkg/status/resolve.go:59-60` says that correctness never depends on the hint. It
  does not while trusted versions increase along the log (`HintIndependence`), and
  `HintMattersExactlyWhen` gives the exact condition. `AHintChangesTheAnswer` is a run
  from the empty log after which an honest fetcher answers WITHDRAWN with the published
  hint and VERIFIED without it.
- The format document, and the comment at `pkg/leaf/codec.go:114`, ask for a strict
  round trip. The attestation decoder at `pkg/leaf/attestation.go:144-156` reads every
  presence byte but 1 as "absent", so 254 other bytes are accepted and not
  reproduced (`Canonical`, `NonCanonicalLeaf`).
- `internal/provenance/provenance.go:144-145` lists what makes linearising fail: no
  root or several, a fork, or a dangling link. A linear chain with a cycle beside its
  root has none of these and fails as well (`LinearWithoutALine`, and the condition of
  `Linearize`).
- `pkg/identity/identity.go:89-92` says that with a non-zero cutoff, bindings that start
  after it are rejected and earlier ones stay verifiable. Times are compared as
  unsigned numbers. Later bindings are kept out exactly for cutoffs after the start of
  1970 (`CutoffHoldsExactlyWhen`), and all earlier ones kept exactly for the others
  (`EarlierKeptExactlyWhen`).
- `pkg/identity/identity.go:138-141` says that the binding resolved starts "not after" the
  time, and is none when none is in effect. The first holds exactly for times since
  1970 (`StartsNotAfterExactlyWhen`), the second exactly for times before
  (`NoneMissedExactlyWhen`); and only since 1970 does resolution move forward in time
  (`MovesForwardExactlyWhen`).

## Model

| member | source | states |
|---|---|---|
| `PublicationProperties.EveryRunIsExact` | pkg/status/publish.go:79-180 | over every run of the publisher and of other writers in which hint reads succeed and no call follows a lost hint write, at every state, checkpoint size and hint: a resolution answers from the set of the last anchor below the checkpoint; it is INDETERMINATE exactly when there is none and somebody else appended a leaf that decodes as an anchor |
| `PublicationProperties.InterleavedResolutionIsExact` | pkg/status/resolve.go:73-179 | the same when the reads of one resolution are spread over a run in which the publisher goes on publishing |
| `PublicationProperties.AppendIsTheLinearisationPoint` | pkg/status/publish.go:130-180 | a publication takes effect at the append: at every other step the answers before and after agree, and at the append exactly the checkpoints that cover the new anchor see the new set; what the leaf of somebody else changes |
| `PublicationProperties.StepKeepsAnswers` | pkg/status/publish.go:130-180 | no step changes an answer at a checkpoint that existed before it, and only a successful append changes what the log commits to |
| `PublicationProperties.ExactVerdict` | pkg/status/resolve.go:93-138 | under the invariant, an honest fetcher and any hint, the outcome is the one the log cut at the checkpoint determines |
| `PublicationProperties.WithdrawnExactly` | pkg/status/artifact.go:59-68 | with an encoding that keeps hashes apart, WITHDRAWN exactly for the members of the committed set of hashes, VERIFIED for all others |
| `PublicationProperties.TameRunKeepsInv` | pkg/status/publish.go:79-180 | the invariant holds at every state of such a run, and the hint names the last anchor whenever no hint write was lost and none is pending |
| `PublicationProperties.TrustsExactlyOwn` | pkg/status/resolve.go:161-172 | the anchors a verifier trusts are exactly those the publisher appended, at their positions, and an untrusted one is seen exactly where somebody else appended a leaf that decodes as an anchor |
| `PublicationProperties.NewestIsLast` | pkg/status/resolve.go:173-175 | when versions are ranks, the anchor of greatest version is the last one |
| `PublicationProperties.HonestlyServed` | pkg/status/resolve.go:153-160 | bundles cut from the log, read one after the other, are the log up to the checkpoint |
| `PublicationProperties.RunExtends` | pkg/status/publish.go:130-140 | along a run the log only grows, and the artifact of no committed version changes |
| `Publication.StepKeepsInv` | pkg/status/publish.go:130-180 | every step keeps the invariant: the k-th anchor has version k, is signed by the publisher, and its stored artifact hashes to it and lists its set |
| `Publication.LoadFromCurrentHint` | pkg/status/publish.go:95-116 | a current hint yields the number of anchors as the version, and the committed set whenever the artifact can be read |
| `Publication.HintFollows` | pkg/status/publish.go:171-177 | unless a hint write is lost, the hint names the last anchor after every step but the append |
| `Publication.StartIsGood` | pkg/status/publish.go:79-80 | the empty log, store and hint satisfy the invariant |
| `Reconciliation.Publisher.Publish` | pkg/status/publish.go:141-180 | the result from the input: unchanged, with the version loaded, if and only if the set loaded is the sorted input; otherwise the error of the first write that fails, and the next version with the index of the new anchor if none does; the new store, log and hint are those of the steps measure, artifact, anchor, hint, stopping at the first that fails |
| `Reconciliation.Publisher.Reconcile` | pkg/status/publish.go:79-91 | a whole call is the run of those steps from the loaded hint, for every input set, with the result that each pattern of failures must give; where nothing fails and the hint is current it succeeds, reports a change if and only if the members were not committed, and the version is the number of anchors |
| `Reconciliation.Publisher.CurrentlyPublished` | pkg/status/publish.go:95-116 | the artifact and version the hint leads to, with every failing read |
| `Reconciliation.Publisher.AppendAnchor` | pkg/status/publish.go:166-169 | the log grows by the marshalled anchor, at the index returned |
| `Reconciliation.Normalise` | pkg/status/publish.go:207-218 | some permutation of the input sorted by leaf hash |
| `Reconciliation.SameSet` | pkg/status/publish.go:220-230 | equality of the two entry lists |
| `Reconciliation.FaultFreeCall` | pkg/status/publish.go:79-91 | a call in which nothing fails leaves the whole state as it was when its members are already committed in whatever order, and otherwise appends exactly one anchor committing them |
| `Reconciliation.FaultFreeAnswer` | pkg/status/publish.go:141-180 | where nothing fails and the hint is current: success, a change exactly for members not committed, the number of anchors as the version, and the index of the last of them |
| `Reconciliation.ChangedCallWrites` | pkg/status/publish.go:147-179 | field by field, what a call that changes something writes: an artifact with the time, the log size, schema 1, the next version and the sorted set; an anchor with that version, the hash of those bytes and that time, signed with the issuer key; a hint with the version and the index |
| `Reconciliation.NormalisedInOrder` | pkg/status/publish.go:207-218 | in the lexicographic order of the leaf hashes |
| `FaultFreeRuns.PublishedIsSeen` | pkg/status/publish.go:79-91 | from the call to the verifier: after a call in which nothing fails, every resolution at the tip answers WITHDRAWN with the reason and the time the call gave for a leaf, and VERIFIED for every other leaf, under every hint |
| `FaultFreeRuns.AnchorsCountChanges` | pkg/status/publish.go:141-180 | over every run in which no call fails, with leaves of others between the calls and within them: whenever no call is in progress, the anchors number 1 plus the later calls whose set differs from the one before |
| `Reconciliation.CommittedIsNormalised` | pkg/status/publish.go:205-218 | the committed list is the sorted one of any permutation of its members, if no two members share a leaf hash |
| `LostHints.PublishedUnderAnyVersion` | pkg/status/publish.go:147-169 | what every resolution at the tip answers from after a publication under any version up to the next, for every hint: the new set, a hash mismatch, or still the old set |
| `LostHints.NewSetIsVisibleExactlyWhen` | pkg/status/publish.go:147-169 | the new set is answered from for every leaf if and only if the version is new, or the hint makes the scan start after the old anchors, or the rewritten artifact keeps its hash, or both sets answer alike |
| `LostHints.UnreadableHintHidesAWithdrawal` | pkg/status/publish.go:72-78 | a call after a failed hint read withdraws a leaf, and every scan that starts no later than the last old anchor still answers VERIFIED |
| `LostHints.RepeatingTheCallWritesNothing` | pkg/status/publish.go:72-78 | repeating that call with nothing failing writes nothing, so the state does not correct itself |
| `ReachedStates.AWithdrawalIsHidden` | pkg/status/publish.go:72-78 | from the empty log a leaf is withdrawn, reinstated, and withdrawn again by a call whose hint read fails: an honest fetcher with the published hint then answers VERIFIED for it, and repeating the call changes nothing |
| `ReachedStates.AHintChangesTheAnswer` | pkg/status/resolve.go:59-60 | the same calls with 254 leaves of others before the last: the honest fetcher answers WITHDRAWN with the published hint and VERIFIED without one |
| `ReachedStates.AVersionRepeats` | pkg/leaf/status.go:21-21 | from the empty log a leaf is withdrawn, then reinstated by a call whose hint write is lost, and that call is repeated with nothing failing: the versions in the log are 1, 2, 2 |
| `ReachedStates.ACheckpointIsSpoiled` | pkg/status/publish.go:149-156 | from the empty log a leaf is withdrawn, and withdrawn once more by a call whose hint read fails: the checkpoint of the first anchor, which answered WITHDRAWN, then answers a hash mismatch under every hint, if the hash tells the two artifacts apart |
| `ReachedStates.HistoryIsReached` | pkg/status/publish.go:79-91 | every state such a history of calls goes through is one that a run of steps from the empty log reaches |
| `Versions.VersionsIncreaseExactlyWhen` | pkg/leaf/status.go:21-21 | over every run, whatever fails: the versions a verifier trusts increase along the log if and only if every publication that appended had begun with no anchor in the log, or with a hint it could read and that was the one of the last anchor |
| `Versions.NextIsNewExactlyWhen` | pkg/status/publish.go:95-116 | for one call, where versions increase so far: the version it takes is above every version in the log if and only if it begins so |
| `Versions.RunKeeps` | pkg/status/publish.go:141-180 | over every run, whatever fails: the k-th anchor has a version from 1 to k, every hint is that of some anchor, and the version in progress is at most the next |
| `Recovery.RepublishedAnswers` | pkg/status/resolve.go:73-179 | after any number of publications under the versions from any v + 1 on, with leaves of others among them: what a resolution answers at every checkpoint before them or since, from wherever its hint makes it start |
| `Recovery.CallRepublishes` | pkg/status/publish.go:79-180 | a call whose hint leads to version v + k, whatever becomes of its hint write, adds the publication of v + k + 1 |
| `Recovery.RepublishingContinues` | pkg/status/publish.go:141-180 | from then on each call in which nothing fails publishes under the next version if its set differs from the last, and otherwise changes nothing |
| `Recovery.ForeignStaysRepublished` | pkg/status/publish.go:166-169 | a leaf of somebody else in between changes neither this nor what the hint names |
| `LostHints.RecoversAfterAsManyCalls` | pkg/status/publish.go:79-180 | with n anchors before and k publications from version v + 1 on, at the tip: a scan that starts no later than the last of the n shows the old set while v + k < n, a hash mismatch at v + k = n, and each new set from then on; one that starts after it always shows the new set |
| `LostHints.EarlierCheckpointsAreSpoiled` | pkg/status/publish.go:149-156 | under every hint, a checkpoint of before becomes INDETERMINATE as soon as the version of its last anchor is used again with another artifact hash |
| `LostHints.HintDecidesWhatIsSeen` | pkg/status/resolve.go:59-60 | after a publication under an old version, a hint that makes the scan start after the old anchors makes the resolution answer from the new set, and without a hint it answers from the old one |
| `LostHints.UnreadableHintRestarts` | pkg/status/publish.go:95-102 | the steps of a call that cannot read the hint publish its set, even the committed one, under version 1 |
| `LostHints.LostHintWriteRepeats` | pkg/status/publish.go:171-177 | after a lost hint write, the next call that publishes appends a second anchor of the version of the last one |
| `Witnesses.HypothesesCanHold` | pkg/status/artifact.go:40-57 | for every hash function, some document format and signature scheme meet every hypothesis the other rows make on the libraries |
| `Witnesses.SchemesCanTellApart` | pkg/leaf/status.go:44-53 | for any two messages, some scheme that is sound does not take the signature of one for the other, as the rows on tampering suppose |
| `Witnesses.SpoilingCanHappen` | pkg/status/artifact.go:40-57 | and with some hash function calls from the empty log rewrite the artifact of a version under another hash, as the rows on spoiled checkpoints suppose |
| `ResolutionProperties.FailClosed` | pkg/status/resolve.go:73-138 | against any fetcher, even one that answers differently on the second pass: VERIFIED only if the pass over every bundle completed and served no decodable anchor, or the matched artifact does not list the leaf; WITHDRAWN exactly when a matched artifact lists it; INDETERMINATE exactly with a reason; a cause exactly with the scan, fetch and parse reasons |
| `Trust.TrustedExactlyWhenVouched` | pkg/status/resolve.go:165-172 | a leaf counts as a trusted anchor exactly if it is the leaf of one whose key is pinned and whose signature the scheme takes for its payload, and as an untrusted one exactly if it is the leaf of any other |
| `Trust.TamperedIsNotTrusted` | pkg/status/resolve.go:169-172 | an anchor that carries the signature its key made for one that differs in another field is never trusted, whatever keys are pinned |
| `Trust.TamperedLogIsIndeterminate` | pkg/status/resolve.go:103-108 | a log whose only anchor is such a one answers INDETERMINATE for want of trust, under every hint |
| `Trust.SelectedIsVouched` | pkg/status/resolve.go:140-179 | against any fetcher, the anchor acted on was served, its key is pinned, and the scheme takes its signature |
| `Trust.RejectedKeyIsNeverSelected` | pkg/status/resolve.go:169-172 | where the scheme rejects every signature under a key, no anchor of that key is acted on |
| `Trust.NothingVouched` | pkg/status/resolve.go:101-111 | in an honestly served log in which a pinned key vouches for nothing, the answer is VERIFIED if no leaf is an anchor, and INDETERMINATE for want of trust otherwise |
| `Trust.GreatestVouchedDecides` | pkg/status/resolve.go:93-138 | in an honestly served log, the vouched anchor of the strictly greatest version decides, under every hint that does not point beyond its bundle, by the rules of the next row |
| `Trust.ArtifactDecides` | pkg/status/resolve.go:113-137 | against any fetcher, the answer for each thing that may be served as the artifact: unreachable, unparsable and mismatching bytes each have their own reason, the first two with their cause; otherwise the first entry listed for the leaf, or VERIFIED |
| `Trust.FindsTheFirst` | pkg/status/artifact.go:59-68 | the entry found is the first one for the leaf |
| `ResolutionProperties.HintIndependence` | pkg/status/resolve.go:94-120 | if the bundles can be read and trusted versions increase along the log, every hint gives the outcome of a full scan |
| `HintInfluence.HintMattersExactlyWhen` | pkg/status/resolve.go:59-60 | with readable bundles, no hint changes the verdict, the entry or the reason, whatever the artifact requests are answered, if and only if no trusted anchor lies in a bundle after the last one with an anchor of the greatest version, and where that version is repeated the first of each bundle names the same artifact |
| `HintInfluence.NewestFromIsFirst` | pkg/status/resolve.go:153-176 | what a scan from a bundle selects is, by position, the first trusted anchor of the greatest version from there on |
| `ResolutionProperties.BlockingNeverFlipsAVerdict` | pkg/status/resolve.go:73-138 | refusing some requests leaves the outcome as it was or makes it INDETERMINATE |
| `ResolutionProperties.NewestIsFirstOfMaximalVersion` | pkg/status/resolve.go:161-176 | the anchor selected is the first in log order of the greatest version, and none exactly when there is none |
| `Resolution.Resolve` | pkg/status/resolve.go:73-138 | the method meets the specification of a resolution for every fetcher |
| `Resolution.ScanForNewestAnchor` | pkg/status/resolve.go:140-179 | for every start: terminates, asks for each bundle from from/256 to the tip once and in order, and returns the newest trusted anchor and whether an untrusted one was seen |
| `Resolution.GuardCanFail` | pkg/status/resolve.go:153-153 | the loop guard, multiplied in 64 bits, can become false if and only if the log has at most 2^64 - 256 leaves |
| `Resolution.GuardIsExact` | pkg/status/resolve.go:153-153 | up to that size the guard is exact and the counter does not overflow |
| `Resolution.ConsiderLeaf` | pkg/status/resolve.go:161-176 | a leaf replaces the newest anchor only if it decodes, verifies, is pinned and has a greater version; it counts as untrusted exactly if it decodes and is not trusted |
| `Resolution.ConsiderBundle` | pkg/status/resolve.go:160-177 | the scan of a bundle extends the scan of all leaves before it |
| `Resolution.IsPinned` | pkg/status/resolve.go:181-188 | membership among the pinned keys |
| `Resolution.FindEntry` | pkg/status/artifact.go:59-68 | the first entry for the leaf |
| `Resolution.FindFindsListed` | pkg/status/artifact.go:59-68 | an entry is found exactly when one is listed, and it is one for the leaf |
| `Wire.PlanIsPrefixFree` | pkg/leaf/codec.go:30-49 | field lists of one plan whose bytes agree, followed by anything, are equal and so is what follows |
| `Wire.StuckIsHopeless` | pkg/leaf/codec.go:52-120 | a reader stuck in a field proves that no continuation of the plan is a prefix of the input |
| `Wire.VarReadsBack` | pkg/leaf/codec.go:43-49 | a length-prefixed field shorter than 2^32 is read back with its length, body and rest |
| `Bytes.BigEndianByte` | pkg/leaf/codec.go:30-41 | each byte of a number written has its weight, the most significant first |
| `Wire.Encoder.VarBytes` | pkg/leaf/codec.go:43-49 | appends a length in 32 bits, truncated as the conversion does, and the bytes |
| `Wire.Decoder.VarBytes` | pkg/leaf/codec.go:97-104 | reads back what the bytes at the position encode, or proves that the input is too short for the plan |
| `Wire.Decoder.Fixed` | pkg/leaf/codec.go:86-95 | the same for a field of fixed size |
| `Wire.Decoder.U8` | pkg/leaf/codec.go:59-66 | the same for one byte |
| `Wire.Decoder.Finish` | pkg/leaf/codec.go:114-120 | succeeds exactly at the end of the input |
| `Attestations.UnmarshalAttestation` | pkg/leaf/attestation.go:123-201 | the attestation whose leaf the bytes are, or the error that holds of them: wrong kind, no leaf is a prefix, or a leaf is a proper prefix |
| `Attestations.RoundTrip` | pkg/leaf/attestation.go:88-111 | unmarshalling what was marshalled gives the attestation back if and only if its variable fields are shorter than 2^32 |
| `Attestations.Canonical` | pkg/leaf/attestation.go:144-156 | marshalling what was unmarshalled gives the bytes back if and only if the presence byte is 0 or 1 |
| `Attestations.NonCanonicalLeaf` | pkg/leaf/attestation.go:144-156 | a leaf with presence byte 2 is accepted and marshals to other bytes |
| `Attestations.LeafHashIsRawHash` | pkg/cocverify/status.go:73-76 | for such a leaf the hash of the re-marshalled attestation is the hash of the raw bytes that status resolution looks up |
| `Attestations.WiredIsPrefixFree` | pkg/leaf/attestation.go:88-111 | no leaf is a proper prefix of another, and equal leaves are equal attestations |
| `Attestations.PayloadDeterminesAttestation` | pkg/leaf/attestation.go:49-72 | equal signing payloads agree in every field but the signature and the tool trace, whose hashes agree |
| `Layouts.AttestationLeaf` | pkg/leaf/attestation.go:88-111 | the leaf byte by byte: the kind 1, the presence byte, and each of the other thirteen fields at the offset that the lengths before it give, numbers by weight and lengths in four bytes |
| `Layouts.AttestationMarshalled` | pkg/leaf/attestation.go:88-111 | and so for what is marshalled, with presence byte 1 or 0 |
| `Layouts.DecodedFieldsLieThere` | pkg/leaf/attestation.go:123-201 | every field of what is unmarshalled lies at that offset of the bytes that were decoded |
| `Layouts.AttestationPayload` | pkg/leaf/attestation.go:49-72 | the signing payload byte by byte: the domain text, the same fields, the signer, the time, and the hash of the tool trace or 32 zeros |
| `Attestations.SignatureCovers` | pkg/leaf/attestation.go:75-85 | an attestation that carries the signature of another verifies if and only if the two agree in every field but the signature and the tool trace, and in the hashes of their traces |
| `Attestations.SigningKeepsTheRest` | pkg/leaf/attestation.go:75-79 | signing sets the key and the signature and no other field |
| `Attestations.DecodingIsUnique` | pkg/leaf/attestation.go:123-201 | what unmarshalling must answer is a function of the bytes |
| `Attestations.AttestationLeaf.SigningPayload` | pkg/leaf/attestation.go:49-72 | the encoder produces the payload |
| `Attestations.AttestationLeaf.Sign` | pkg/leaf/attestation.go:75-79 | sets the key and the signature over the payload with that key |
| `Attestations.AttestationLeaf.Marshal` | pkg/leaf/attestation.go:88-111 | the encoder produces the leaf |
| `Attestations.Signed` | pkg/leaf/attestation.go:75-85 | a signed attestation verifies |
| `IdentityBindings.UnmarshalIdentityBinding` | pkg/leaf/binding.go:58-98 | the binding whose leaf the bytes are, or the error that holds of them |
| `IdentityBindings.RoundTrip` | pkg/leaf/binding.go:43-53 | unmarshalling what was marshalled gives the binding back if and only if the creator id is shorter than 2^32 |
| `IdentityBindings.MarshalledIsPrefixFree` | pkg/leaf/binding.go:43-53 | no leaf is a proper prefix of another, and equal leaves are equal bindings |
| `IdentityBindings.PayloadDeterminesBinding` | pkg/leaf/binding.go:20-29 | equal signing payloads agree in every field but the signature |
| `Layouts.BindingLeaf` | pkg/leaf/binding.go:43-53 | the leaf byte by byte, with the kind 2 |
| `Layouts.DecodedBindingLiesThere` | pkg/leaf/binding.go:58-98 | every field of what is unmarshalled lies at that offset |
| `Layouts.BindingPayload` | pkg/leaf/binding.go:20-29 | the signing payload byte by byte, with its domain text |
| `IdentityBindings.SignatureCovers` | pkg/leaf/binding.go:31-41 | a binding that carries the signature of another verifies if and only if the two agree in every other field |
| `IdentityBindings.SigningKeepsTheRest` | pkg/leaf/binding.go:31-36 | signing sets the key and the signature and no other field |
| `IdentityBindings.DecodingIsUnique` | pkg/leaf/binding.go:58-98 | what unmarshalling must answer is a function of the bytes |
| `IdentityBindings.IdentityBindingLeaf.Marshal` | pkg/leaf/binding.go:43-53 | the encoder produces the leaf |
| `IdentityBindings.PeekKind` | pkg/leaf/binding.go:102-106 | the first byte, or truncation of the empty input |
| `StatusAnchors.UnmarshalStatusAnchor` | pkg/leaf/status.go:70-108 | the anchor whose leaf the bytes are, or the error that holds of them |
| `StatusAnchors.RoundTrip` | pkg/leaf/status.go:55-65 | unmarshalling what was marshalled gives the anchor back |
| `StatusAnchors.MarshalledIsPrefixFree` | pkg/leaf/status.go:55-65 | no leaf is a proper prefix of another, and equal leaves are equal anchors |
| `StatusAnchors.PayloadDeterminesAnchor` | pkg/leaf/status.go:32-41 | equal signing payloads agree in every field but the signature |
| `Layouts.AnchorLeaf` | pkg/leaf/status.go:55-65 | the 149 bytes of the leaf, with the kind 3 |
| `Layouts.DecodedAnchorLiesThere` | pkg/leaf/status.go:70-108 | every field of what is unmarshalled lies at that offset |
| `Layouts.AnchorPayload` | pkg/leaf/status.go:32-41 | the 101 bytes of the signing payload, with its domain text |
| `StatusAnchors.SignatureCovers` | pkg/leaf/status.go:44-53 | an anchor that carries the signature of another verifies if and only if the two agree in every other field |
| `StatusAnchors.SigningKeepsTheRest` | pkg/leaf/status.go:44-48 | signing sets the key and the signature and no other field |
| `StatusAnchors.DecodingIsUnique` | pkg/leaf/status.go:70-108 | what unmarshalling must answer is a function of the bytes |
| `StatusAnchors.StatusAnchorLeaf.Sign` | pkg/leaf/status.go:44-48 | sets the key and the signature over the payload with that key |
| `Signing.PayloadKindsAreDisjoint` | pkg/leaf/attestation.go:36-72 | no signing payload of one kind is a payload of another kind, or a prefix of one |
| `Signing.LeafKindsAreDisjoint` | pkg/leaf/binding.go:102-106 | at most one of the three decoders accepts a leaf, the one its first byte names |
| `Lines.Linearize` | internal/provenance/provenance.go:144-173 | terminates on every chain in which equal hashes mean equal attestations; succeeds if and only if the chain is linear and has no cycle of parents; the result is the chain in order from its root, each event referring to the one before |
| `Lines.LinearWithoutALine` | internal/provenance/provenance.go:144-173 | under some hash, with every event carrying the hash of its leaf, a root beside an event that is its own parent is reported linear and has no linear order |
| `Lines.LineMeansLinear` | internal/provenance/provenance.go:98-173 | a chain with a linear order has one root, no fork and nothing dangling |
| `Lines.LineMeansAcyclic` | internal/provenance/provenance.go:150-173 | and no cycle |
| `Lines.LineIsUnique` | internal/provenance/provenance.go:144-173 | there is at most one linear order |
| `Lines.LinkedFits` | internal/provenance/provenance.go:150-173 | a walk along single children visits no event twice and is no longer than the chain |
| `Lines.StoppingShortMeansCycle` | internal/provenance/provenance.go:168-171 | a linear chain whose walk misses an event has a cycle |
| `Histories.Analyze` | internal/provenance/provenance.go:116-142 | one fork for each parent with several children, strictly sorted by parent hash, children sorted by sequence number and hash, the root fork last; linear exactly for one root, no fork and nothing dangling |
| `Histories.AnalysisIgnoresOrder` | internal/provenance/provenance.go:116-142 | for distinct hashes, roots, forks and the linear flag do not depend on the order of the events or of the maps, and the dangling events are the same |
| `Histories.AnalysisInOrder` | internal/provenance/provenance.go:116-142 | the children of every fork, and the roots if there are several, stand by sequence number and then by hash, the forks by parent hash, and the fork of the roots at the end |
| `Histories.SharedForks` | internal/provenance/provenance.go:119-128 | the forks are complete and sorted whatever order the map of children yields |
| `Histories.EventLess` | internal/provenance/provenance.go:175-182 | a smaller sequence number, or the same and a hash that comes first |
| `Histories.BytesLess` | internal/provenance/provenance.go:184-191 | smaller at the first of the 32 bytes where the two differ |
| `Provenance.Links` | internal/provenance/provenance.go:96-114 | roots, children by parent, and dangling events are the events hanging there, in order |
| `Provenance.AtCounts` | internal/provenance/provenance.go:96-114 | every event hangs at exactly one place, as often as it occurs |
| `Provenance.PlacesByReference` | internal/provenance/provenance.go:98-113 | roots are the events without a back-reference, the children of a hash those that refer to it where an event of the chain has it, and dangling events those that refer to nothing there |
| `Provenance.AtKeepsOrder` | internal/provenance/provenance.go:101-113 | what hangs at a place stands in the order of the chain |
| `Provenance.OfWorkKeepsOrder` | internal/provenance/provenance.go:32-36 | the events of a work are exactly those added for it, in the order they were added |
| `Provenance.CountIsConserved` | internal/provenance/provenance.go:96-114 | roots, children of present parents and dangling events add up to the chain |
| `Provenance.Index.Add` | internal/provenance/provenance.go:32-36 | the event joins its work, with the hash of its leaf |
| `Provenance.Index.Works` | internal/provenance/provenance.go:39-53 | exactly the works something was added for, each before the next in the lexicographic order of bytes |
| `Provenance.Index.Work` | internal/provenance/provenance.go:56-62 | the events added for a work, in order, over the whole history |
| `Provenance.OfWorkIgnoresOrder` | internal/provenance/provenance.go:32-36 | the events of a work do not depend on the order of insertion |
| `Order.SortedIsUnique` | internal/provenance/provenance.go:175-182 | a permutation sorted by an identifying key is unique |
| `Order.LessIsLexicographic` | internal/provenance/provenance.go:184-191 | the comparison is the lexicographic order: smaller at the first place where the two differ, or ended there |
| `SimHash64.EditMovesScore` | pkg/fuzzy/simhash64.go:73-99 | replacing r tokens by i others moves no accumulator by more than r + i + 4 (6 for one token replaced, 5 for one inserted or deleted), for texts of any length |
| `SimHash64.ScoreCounts` | pkg/fuzzy/simhash64.go:87-100 | an accumulator holds the windows that vote for its lane less those that vote against it |
| `SimHash64.EditsKeepStrongLanes` | pkg/fuzzy/simhash64.go:87-110 | after any list of edits the bits whose accumulator is above their total reach, or at most its negative, are unchanged, and the digests differ in no more bits than there are others |
| `SimHash64.EditedTextStillMatches` | pkg/fuzzy/simhash64.go:112-124 | with at most nine such others the edited text still matches |
| `SimHash64.ReplacementsReach` | pkg/fuzzy/simhash64.go:73-99 | k replaced tokens have a total reach of 6k |
| `SimHash64.WindowsAround` | pkg/fuzzy/simhash64.go:73-85 | changing a stretch of text leaves the shingles before and after it as they are |
| `SimHash64.ShinglesOf` | pkg/fuzzy/simhash64.go:73-85 | all windows of three tokens, or one shingle of a shorter text |
| `SimHash64.DigestByMajority` | pkg/fuzzy/simhash64.go:66-110 | for three or more tokens, each bit says how the majority of the windows of three tokens, joined by single spaces, votes with the first eight bytes of its SHA-256; a tie is a zero |
| `SimHash64.DigestOfOneToken` | pkg/fuzzy/simhash64.go:73-110 | the digest of a single token is the first eight bytes of its SHA-256 |
| `SimHash64.DigestOfTwoTokens` | pkg/fuzzy/simhash64.go:73-110 | that of two tokens the first eight bytes of the SHA-256 of both with a space between |
| `SimHash64.DigestOfNothing` | pkg/fuzzy/simhash64.go:73-110 | that of no token eight zeros |
| `SimHash64.DigestTokens` | pkg/fuzzy/simhash64.go:87-110 | the loops compute the signs of the votes, without overflow |
| `Fingerprints.SmallChangesKeepStrongLanes` | pkg/fuzzy/simhash64.go:103-107 | if every tally moves by at most c, the bits that change are among the lanes with a tally in (-c, c] |
| `Fingerprints.DistanceIsAMetric` | pkg/fuzzy/simhash64.go:112-118 | zero only for equal digests, symmetric, triangle inequality, at most 1 |
| `Fingerprints.DistanceCounts` | pkg/fuzzy/simhash64.go:112-118 | the distance of two 8-byte digests is the number of bits in which they differ, out of 64, and other lengths are an error |
| `Fingerprints.OneBitMovesTheDistance` | pkg/fuzzy/simhash64.go:112-118 | flipping one bit moves every distance by exactly 1/64, up where the two agreed and down where they did not |
| `Fingerprints.ComplementIsFarthest` | pkg/fuzzy/simhash64.go:112-118 | a digest and its complement are at distance 1 |
| `Fingerprints.LaneIsBit` | pkg/fuzzy/simhash64.go:103-109 | lane i is bit i % 8 of byte 7 - i / 8 |
| `Fingerprints.MajorityRules` | pkg/fuzzy/simhash64.go:87-110 | a bit of the digest is set if and only if more than half of the features have it |
| `Fingerprints.ThresholdsInBits` | pkg/fuzzy/simhash64.go:120-124 | 0.15 is at most nine differing bits, 0.1875 at most twelve, counted as the set of positions where the bits differ |
| `Fingerprints.MatchesAreClose` | internal/verify/verify.go:129-138 | two digests that match one leaf differ in at most 18 or 24 bits |
| `Fingerprints.LanesRoundTrip` | pkg/fuzzy/simhash64.go:103-109 | reading the bits of a digest gives back the lanes it was made from |
| `Fingerprints.TallyIgnoresOrder` | pkg/fuzzy/simhash.go:26-38 | a tally does not depend on the order of the votes |
| `Fingerprints.Signs` | pkg/fuzzy/simhash64.go:101-109 | the loop over the accumulators builds the digest of the votes |
| `SimHashText.DigestWords` | pkg/fuzzy/simhash.go:26-49 | counting words and weighting them, in whatever order the map yields them, gives one vote to every occurrence |
| `SimHashText.DigestCounts` | pkg/fuzzy/simhash.go:28-38 | the same for any iteration order over the count map |
| `SimHashText.Tokenize` | pkg/fuzzy/simhash.go:65-74 | each word with the number of its occurrences |
| `SimHashText.DigestIgnoresOrder` | pkg/fuzzy/simhash.go:26-49 | the digest depends only on the multiset of words |
| `SimHashText.DigestByMajority` | pkg/fuzzy/simhash.go:26-49 | each bit says whether more than half of the word occurrences have it in their hash |
| `SimHashText.RepetitionChangesNothing` | pkg/fuzzy/simhash.go:26-49 | multiplying every count by k >= 1 leaves the digest unchanged |
| `PHash.AdjustmentKeepsTheBits` | pkg/fuzzy/phash.go:43-62 | scaling the luminance by a > 0 and shifting it leaves bits 1 to 63 unchanged, given that the cosine rows but the first sum to zero |
| `PHash.AtMostHalfSet` | pkg/fuzzy/phash.go:52-57 | at most 32 bits are set, at most 31 of them not the constant term |
| `PHash.BitsByRank` | pkg/fuzzy/phash.go:43-62 | bit 8v + u is set if and only if at least 32 of the 63 low frequencies after the first have a smaller coefficient than row frequency v and column frequency u |
| `PHash.OnePixel` | pkg/fuzzy/phash.go:116-152 | the transform of an image that is black but for one pixel is, for every coefficient, the product of the pixel and two cosines: the column frequency at its column, the row frequency at its row |
| `PHash.Superposition` | pkg/fuzzy/phash.go:116-152 | the coefficients of a sum of images are the sums of theirs |
| `PHash.CoefficientOfAdjusted` | pkg/fuzzy/phash.go:116-152 | every coefficient but the constant one is scaled by a and does not see the shift |
| `PHash.MedianExcludingFirst` | pkg/fuzzy/phash.go:155-160 | a value of the block with at most half of the values on either side |
| `PHash.MedianIsUnique` | pkg/fuzzy/phash.go:155-160 | there is one such value |
| `PHash.PHashIsUnique` | pkg/fuzzy/phash.go:43-62 | a matrix has one digest |
| `PHash.TransformTransposes` | pkg/fuzzy/phash.go:116-140 | the transform of the transposed matrix is the transposed transform, although rows and columns are worked on in turn |
| `PHash.Dct2d` | pkg/fuzzy/phash.go:116-140 | the separable loops compute, for each pair of frequencies, the double sum by rows and then columns |
| `PHash.Dct1d` | pkg/fuzzy/phash.go:142-152 | the inner products with the cosine rows |
| `PHash.DigestMatrix` | pkg/fuzzy/phash.go:43-62 | the digest has a bit set exactly for each low frequency above the median of all but the first |
| `Identity.Resolver.Resolve` | pkg/identity/identity.go:138-162 | over the whole history of calls: the earliest-added accepted binding with the greatest start not after the time, and none exactly when none qualifies |
| `Identity.ResolutionIsOfABinding` | pkg/identity/identity.go:157-161 | over every history, the creator, the key type and the start resolved are those of a binding of that key that was added and accepted |
| `Identity.IssuedIsResolved` | pkg/identity/identity.go:138-162 | from its start on, and while no other accepted binding of the key supersedes it, a key resolves to exactly the creator, the type and the start that a trusted root issued for it, whatever is called before and after |
| `Identity.Resolver.Add` | pkg/identity/identity.go:111-127 | the error, or acceptance, by the first matching root in force at that call |
| `Identity.JudgedByFirstRoot` | pkg/identity/identity.go:111-127 | the first root with the issuer key decides: expired by its cutoff, or else a bad signature if the scheme does not take it, or else accepted |
| `Identity.UntrustedExactlyWhen` | pkg/identity/identity.go:111-115 | an untrusted issuer exactly when no root has its key |
| `Identity.TamperedBindingIsRefused` | pkg/identity/identity.go:119-121 | a binding that carries the signature of another is never accepted, and by a root in force refused for its signature |
| `Identity.Resolver.TrustRoot` | pkg/identity/identity.go:93-99 | the root joins the end of the list with its unsigned cutoff |
| `Identity.Resolver.MatchRoot` | pkg/identity/identity.go:129-136 | the first root with the key |
| `Identity.ResolvedIsUnique` | pkg/identity/identity.go:138-162 | what is resolved is a function of the accepted bindings |
| `Identity.AcceptanceIsFinal` | pkg/identity/identity.go:111-127 | no later call takes an accepted binding away |
| `Identity.TrustingAgainIsInert` | pkg/identity/identity.go:93-99 | trusting a root again, with whatever cutoff, changes the fate of no binding |
| `Identity.MovesForwardExactlyWhen` | pkg/identity/identity.go:138-161 | for two times in order, over every history of a resolver that trusts a root: the key that is resolved at the earlier time is resolved at the later one to a binding that does not start earlier, if and only if the times are equal or not before 1970 |
| `Identity.StartsNotAfterExactlyWhen` | pkg/identity/identity.go:138-161 | what is resolved does not start after the time, over every history of a resolver that trusts a root, if and only if the time is not before 1970 |
| `Identity.NoneMissedExactlyWhen` | pkg/identity/identity.go:138-161 | a key resolves to none only when all its accepted bindings start after the time, over every history of a resolver that trusts a root, if and only if the time is before 1970 |
| `Identity.CutoffHoldsExactlyWhen` | pkg/identity/identity.go:89-99 | over every history, once a key not trusted before is trusted up to a cutoff, no binding that starts after the cutoff is accepted, if and only if the cutoff lies after the start of 1970 |
| `Identity.EarlierKeptExactlyWhen` | pkg/identity/identity.go:89-99 | and every signed binding that does not start after the cutoff is accepted, if and only if the cutoff does not lie after the start of 1970 |
| `Identity.JudgedByCutoff` | pkg/identity/identity.go:111-127 | such a key is judged by that cutoff, whatever is called in between |
| `Identity.IssuedIsAccepted` | pkg/identity/identity.go:42-51 | a binding signed by a root in force, within its cutoff, is accepted |

## Left out

- Merkle inclusion proofs, tile reconstruction and checkpoint notes: the repository calls libraries for them, and their algorithms are not part of this model.
- The bodies of the hash functions, of Ed25519, JSON and base64: function values, with the hypotheses named above.
- Unicode normalisation, lower-casing and splitting into words: the text digests start from token sequences.
- Image decoding and pixel sampling: the image digest starts from a 32 by 32 matrix.
- PHash.DigestMatrix: computes over real numbers, because what floating-point rounding does to degenerate images is not specified by the repository either.
- PHash.AdjustmentKeepsTheBits: takes as given that the rows of cosines but the first sum to zero, since the cosine is not defined in the model.
- Fingerprints.ThresholdsInBits: compares with the real numbers 0.15 and 0.1875, where the code has the nearest floating-point numbers; no multiple of 1/64 lies between the two.
- Fingerprints.DistanceIsAMetric: the count of set bits of an exclusive or is modelled as the number of differing positions.
- PublicationProperties.EveryRunIsExact: excludes runs in which a hint read fails or a call follows a lost hint write, because the verdicts are then not exact; the theorems of LostHints and Recovery say what they are.
- Recovery.RepublishedAnswers: one stretch of publications under versions that follow one another, over a log whose versions are ranks; what a checkpoint shows after a second failed hint read or a second lost hint write is not given, beyond FailClosed, HintMattersExactlyWhen and VersionsIncreaseExactlyWhen.
- FaultFreeRuns.AnchorsCountChanges: demands that no two different entries of a set share a leaf hash, because the sort leaves their order open and a permutation could then differ.
- Resolution.Resolve: demands a checkpoint of at most 2^64 - 256 leaves, beyond which the loop guard in the code can never become false (GuardCanFail).
- Reconciliation.Publisher.Reconcile: demands that the log still has room for a leaf below that size; contexts, content types, cache headers and object paths are not modelled, artifacts are stored under their version, and an absent reader or size callback is a read that finds nothing or a size of zero.
- Publication.StepKeepsInv: concurrent publishers are not modelled, because the code has no locking to reason about.
- Library sorts: specified as any sorted permutation in the theorems and computed by insertion sort in the methods; what a sort does with equal keys is never relied on.
- Map iteration: every order is admitted, by choosing the next key arbitrarily.
- Attestations.AttestationLeaf.Sign: the fields of a leaf are one record field of an object, so assigning one field replaces the record; nil and empty slices are the same value.
- Identity.Resolver.Add: bindings are values, so changing a binding after adding it is not modelled; the same holds for the events of Provenance.Index.Add.
- JSON reports, the tool-trace parser, the registry of algorithms, the command-line tools and the web pages: they would add only lookups and formatting.
