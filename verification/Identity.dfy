/** pkg/identity/identity.go: which creator a signing key belonged to at a time,
    from the bindings its trusted roots have issued. */
module Identity {
  import opened Bytes
  import opened Crypto
  import opened IdentityBindings

  /** Milliseconds since 1970; a time's conversion to an unsigned field wraps around. */
  type Millis = I64

  function Unsigned(t: Millis): U64 {
    if t < 0 then t + TWO64 else t
  }

  function FromUnsigned(u: U64): Millis {
    if u < TWO63 then u else u - TWO64
  }

  datatype TrustedRoot = TrustedRoot(key: Key, notAfter: U64)

  datatype AddError = UntrustedIssuer | RootExpired | BadSignature

  datatype Resolution = Resolution(creatorId: Bytes, keyType: Byte, validFrom: Millis)

  /** The cutoff a root is stored with. The zero time means none, and so does the
      very start of 1970. */
  function Cutoff(notAfter: Option<Millis>): U64 {
    if notAfter.None? then 0 else Unsigned(notAfter.value)
  }

  function FirstRoot(roots: seq<TrustedRoot>, key: Key): (r: Option<TrustedRoot>)
    ensures r.Some? ==> r.value in roots && r.value.key == key
    ensures r.None? ==> forall t :: t in roots ==> t.key != key
  {
    if roots == [] then None
    else if roots[0].key == key then Some(roots[0])
    else FirstRoot(roots[1..], key)
  }

  /** What these roots say of a binding. */
  function Judgement(c: Suite, roots: seq<TrustedRoot>, b: IdentityBinding): Option<AddError> {
    var root := FirstRoot(roots, b.issuerPubKey);
    if root.None? then Some(UntrustedIssuer)
    else if root.value.notAfter != 0 && b.validFrom > root.value.notAfter then Some(RootExpired)
    else if !Verifies(c, b) then Some(BadSignature)
    else None
  }

  // ----- Histories

  /** A call on the resolver. */
  datatype Call = TrustCall(root: TrustedRoot) | AddCall(binding: IdentityBinding)

  /** The roots trusted in these calls, in order. */
  function Trusted(calls: seq<Call>): seq<TrustedRoot> {
    if calls == [] then []
    else
      var n := |calls| - 1;
      Trusted(calls[..n]) + if calls[n].TrustCall? then [calls[n].root] else []
  }

  /** The roots in force after these calls. */
  function RootsAfter(first: TrustedRoot, calls: seq<Call>): seq<TrustedRoot> {
    [first] + Trusted(calls)
  }

  /** The bindings accepted in these calls, each judged by the roots in force when it
      was added, in the order they were added. */
  function Accepted(c: Suite, first: TrustedRoot, calls: seq<Call>): seq<IdentityBinding> {
    if calls == [] then []
    else
      var n := |calls| - 1;
      var before := Accepted(c, first, calls[..n]);
      if calls[n].AddCall? && Judgement(c, RootsAfter(first, calls[..n]), calls[n].binding).None? then
        before + [calls[n].binding]
      else before
  }

  /** The binding a call adds to those accepted, if any. */
  function NewlyAccepted(c: Suite, roots: seq<TrustedRoot>, call: Call): seq<IdentityBinding> {
    if call.AddCall? && Judgement(c, roots, call.binding).None? then [call.binding] else []
  }

  lemma AcceptedStep(c: Suite, first: TrustedRoot, calls: seq<Call>, call: Call)
    ensures Accepted(c, first, calls + [call]) == Accepted(c, first, calls) + NewlyAccepted(c, RootsAfter(first, calls), call)
  {
    assert (calls + [call])[..|calls|] == calls;
  }

  lemma TrustedStep(calls: seq<Call>, call: Call)
    ensures Trusted(calls + [call]) == Trusted(calls) + if call.TrustCall? then [call.root] else []
  {
    assert (calls + [call])[..|calls|] == calls;
  }

  /** The bindings of one key, in order. */
  function OfKey(bindings: seq<IdentityBinding>, key: Key): seq<IdentityBinding> {
    if bindings == [] then []
    else
      var n := |bindings| - 1;
      OfKey(bindings[..n], key) + if bindings[n].authorizedKey == key then [bindings[n]] else []
  }

  lemma OfKeyStep(bindings: seq<IdentityBinding>, b: IdentityBinding, key: Key)
    ensures OfKey(bindings + [b], key) == OfKey(bindings, key) + if b.authorizedKey == key then [b] else []
  {
    assert (bindings + [b])[..|bindings|] == bindings;
  }

  predicate InEffect(b: IdentityBinding, key: Key, at: Millis) {
    b.authorizedKey == key && b.validFrom <= Unsigned(at)
  }

  /** The binding at `i` is the one in effect: the earliest of those with the greatest
      start not after the time. */
  ghost predicate IsBest(bindings: seq<IdentityBinding>, key: Key, at: Millis, i: nat) {
    && i < |bindings| && InEffect(bindings[i], key, at)
    && forall j :: 0 <= j < |bindings| && InEffect(bindings[j], key, at) ==>
         bindings[j].validFrom < bindings[i].validFrom || (bindings[j].validFrom == bindings[i].validFrom && i <= j)
  }

  function ResolutionOf(b: IdentityBinding): Resolution {
    Resolution(b.creatorId, b.keyType, FromUnsigned(b.validFrom))
  }

  /** What is resolved for a key at a time. */
  ghost predicate IsResolved(bindings: seq<IdentityBinding>, key: Key, at: Millis, r: Option<Resolution>) {
    match r
    case None => forall b :: b in bindings ==> !InEffect(b, key, at)
    case Some(resolution) => exists i: nat :: IsBest(bindings, key, at, i) && resolution == ResolutionOf(bindings[i])
  }

  lemma {:induction false} OfKeyMembers(bindings: seq<IdentityBinding>, key: Key)
    ensures forall b :: b in OfKey(bindings, key) <==> b in bindings && b.authorizedKey == key
  {
    if bindings != [] {
      var n := |bindings| - 1;
      OfKeyMembers(bindings[..n], key);
      assert bindings == bindings[..n] + [bindings[n]];
    }
  }

  lemma BestOfOwnBefore(own: seq<IdentityBinding>, all: seq<IdentityBinding>, key: Key, at: Millis, k: nat)
    requires own <= all && IsBest(all, key, at, k) && k < |own|
    ensures IsBest(own, key, at, k)
  {
    assert forall j :: 0 <= j < |own| ==> own[j] == all[j];
  }

  lemma BestStays(bindings: seq<IdentityBinding>, key: Key, at: Millis, i: nat)
    requires bindings != [] && IsBest(bindings[..|bindings| - 1], key, at, i)
    requires var b := bindings[|bindings| - 1]; InEffect(b, key, at) ==> b.validFrom <= bindings[i].validFrom
    ensures IsBest(bindings, key, at, i)
  {
    assert forall j :: 0 <= j < |bindings| - 1 ==> bindings[..|bindings| - 1][j] == bindings[j];
  }

  lemma LastIsBest(bindings: seq<IdentityBinding>, key: Key, at: Millis)
    requires bindings != [] && InEffect(bindings[|bindings| - 1], key, at)
    requires forall b :: b in bindings[..|bindings| - 1] && InEffect(b, key, at) ==> b.validFrom < bindings[|bindings| - 1].validFrom
    ensures IsBest(bindings, key, at, |bindings| - 1)
  {
    var n := |bindings| - 1;
    forall j | 0 <= j < n && InEffect(bindings[j], key, at)
      ensures bindings[j].validFrom < bindings[n].validFrom
    {
      assert bindings[..n][j] == bindings[j];
    }
  }

  /** The best of a key's own bindings is the best of all. */
  lemma {:induction false} BestOfKey(bindings: seq<IdentityBinding>, key: Key, at: Millis, k: nat) returns (i: nat)
    requires IsBest(OfKey(bindings, key), key, at, k)
    ensures IsBest(bindings, key, at, i) && bindings[i] == OfKey(bindings, key)[k]
  {
    var n := |bindings| - 1;
    var own, all := OfKey(bindings[..n], key), OfKey(bindings, key);
    OfKeyMembers(bindings[..n], key);
    if k < |own| {
      BestOfOwnBefore(own, all, key, at, k);
      i := BestOfKey(bindings[..n], key, at, k);
      assert InEffect(bindings[n], key, at) ==> all[|own|] == bindings[n];
      BestStays(bindings, key, at, i);
    } else {
      i := n;
      forall b | b in bindings[..n] && InEffect(b, key, at)
        ensures b.validFrom < bindings[n].validFrom
      {
        assert b in own;
        var m :| 0 <= m < |own| && own[m] == b;
        assert all[m] == b;
      }
      LastIsBest(bindings, key, at);
    }
  }

  function Lookup(byKey: map<Key, seq<IdentityBinding>>, key: Key): seq<IdentityBinding> {
    if key in byKey then byKey[key] else []
  }

  /** The map holds the bindings, grouped by key. */
  ghost predicate Indexes(byKey: map<Key, seq<IdentityBinding>>, bindings: seq<IdentityBinding>) {
    forall key :: Lookup(byKey, key) == OfKey(bindings, key)
  }

  lemma IndexesOneMore(byKey: map<Key, seq<IdentityBinding>>, bindings: seq<IdentityBinding>, b: IdentityBinding)
    requires Indexes(byKey, bindings)
    ensures Indexes(byKey[b.authorizedKey := Lookup(byKey, b.authorizedKey) + [b]], bindings + [b])
  {
    forall key
      ensures OfKey(bindings + [b], key) == OfKey(bindings, key) + if b.authorizedKey == key then [b] else []
    {
      OfKeyStep(bindings, b, key);
    }
  }

  /** What an added binding changes, given what is wrong with it. */
  lemma JudgedBinding(c: Suite, first: TrustedRoot, calls: seq<Call>, b: IdentityBinding, error: Option<AddError>)
    requires error == Judgement(c, RootsAfter(first, calls), b)
    ensures RootsAfter(first, calls + [AddCall(b)]) == RootsAfter(first, calls)
    ensures Accepted(c, first, calls + [AddCall(b)]) == if error.None? then Accepted(c, first, calls) + [b] else Accepted(c, first, calls)
  {
    TrustedStep(calls, AddCall(b));
    AcceptedStep(c, first, calls, AddCall(b));
  }

  class Resolver {
    var roots: seq<TrustedRoot>
    var byKey: map<Key, seq<IdentityBinding>>
    const crypto: Suite
    const first: TrustedRoot
    ghost var calls: seq<Call>

    function Bindings(key: Key): seq<IdentityBinding>
      reads this
    {
      Lookup(byKey, key)
    }

    ghost predicate Valid()
      reads this
    {
      && roots == RootsAfter(first, calls)
      && Indexes(byKey, Accepted(crypto, first, calls))
    }

    constructor (crypto: Suite, root: Key)
      ensures Valid() && calls == [] && this.crypto == crypto && first == TrustedRoot(root, 0)
    {
      this.crypto := crypto;
      first := TrustedRoot(root, 0);
      roots := [TrustedRoot(root, 0)];
      byKey, calls := map[], [];
    }

    method TrustRoot(key: Key, notAfter: Option<Millis>)
      requires Valid()
      modifies this
      ensures Valid() && calls == old(calls) + [TrustCall(TrustedRoot(key, Cutoff(notAfter)))]
    {
      var na: U64 := 0;
      if notAfter.Some? {
        na := Unsigned(notAfter.value);
      }
      roots := roots + [TrustedRoot(key, na)];
      TrustedStep(calls, TrustCall(TrustedRoot(key, na)));
      AcceptedStep(crypto, first, calls, TrustCall(TrustedRoot(key, na)));
      calls := calls + [TrustCall(TrustedRoot(key, na))];
    }

    method MatchRoot(k: Key) returns (r: Option<TrustedRoot>)
      ensures r == FirstRoot(roots, k)
    {
      for i := 0 to |roots|
        invariant FirstRoot(roots, k) == FirstRoot(roots[i..], k)
      {
        if roots[i].key == k {
          return Some(roots[i]);
        }
      }
      return None;
    }

    method Judge(b: IdentityBinding) returns (error: Option<AddError>)
      ensures error == Judgement(crypto, roots, b)
    {
      var root := MatchRoot(b.issuerPubKey);
      if root.None? {
        return Some(UntrustedIssuer);
      }
      if root.value.notAfter != 0 && b.validFrom > root.value.notAfter {
        return Some(RootExpired);
      }
      if !Verifies(crypto, b) {
        return Some(BadSignature);
      }
      return None;
    }

    /** Answers what is wrong with the binding, or accepts it. */
    method Add(b: IdentityBinding) returns (error: Option<AddError>)
      requires Valid()
      modifies this`byKey, this`calls
      ensures Valid() && calls == old(calls) + [AddCall(b)]
      ensures error == Judgement(crypto, roots, b)
    {
      error := Judge(b);
      JudgedBinding(crypto, first, calls, b, error);
      IndexesOneMore(byKey, Accepted(crypto, first, calls), b);
      calls := calls + [AddCall(b)];
      if error.None? {
        byKey := byKey[b.authorizedKey := Lookup(byKey, b.authorizedKey) + [b]];
      }
    }

    /** The identity bound to a key at a time, over everything ever added. */
    method Resolve(signerKey: Key, at: Millis) returns (r: Option<Resolution>)
      requires Valid()
      ensures IsResolved(Accepted(crypto, first, calls), signerKey, at, r)
    {
      var bindings := Bindings(signerKey);
      var atMs := Unsigned(at);
      ghost var accepted := Accepted(crypto, first, calls);
      OfKeyMembers(accepted, signerKey);
      assert forall b :: b in bindings ==> b.authorizedKey == signerKey;
      var best: Option<IdentityBinding> := None;
      ghost var k: nat := 0;
      for i := 0 to |bindings|
        invariant best.None? ==> forall j :: 0 <= j < i ==> !InEffect(bindings[j], signerKey, at)
        invariant best.Some? ==> IsBest(bindings[..i], signerKey, at, k) && best.value == bindings[k]
      {
        var b := bindings[i];
        assert b in bindings;
        assert forall j :: 0 <= j < i ==> bindings[..i + 1][j] == bindings[..i][j];
        if b.validFrom > atMs {
          continue;
        }
        if best.None? || b.validFrom > best.value.validFrom {
          best := Some(b);
          k := i;
        }
      }
      if best.None? {
        return None;
      }
      assert bindings[..|bindings|] == bindings;
      ghost var i := BestOfKey(accepted, signerKey, at, k);
      return Some(ResolutionOf(best.value));
    }
  }

  // ----- What is resolved, field by field

  lemma {:induction false} AcceptedWasAdded(c: Suite, first: TrustedRoot, calls: seq<Call>, b: IdentityBinding)
    requires b in Accepted(c, first, calls)
    ensures AddCall(b) in calls
  {
    var n := |calls| - 1;
    if b in Accepted(c, first, calls[..n]) {
      AcceptedWasAdded(c, first, calls[..n], b);
    }
  }

  /** Over every history, the creator, the key type and the start resolved are those of a
      binding of that key that was added and accepted. */
  lemma ResolutionIsOfABinding(c: Suite, first: TrustedRoot, calls: seq<Call>, key: Key, at: Millis, r: Resolution)
    requires IsResolved(Accepted(c, first, calls), key, at, Some(r))
    ensures exists b: IdentityBinding ::
      && b in Accepted(c, first, calls) && AddCall(b) in calls && b.authorizedKey == key
      && b.creatorId == r.creatorId && b.keyType == r.keyType
      && (b.validFrom == r.validFrom || b.validFrom == r.validFrom + 0x1_0000_0000_0000_0000)
  {
    var bindings := Accepted(c, first, calls);
    var i: nat :| IsBest(bindings, key, at, i) && r == ResolutionOf(bindings[i]);
    AcceptedWasAdded(c, first, calls, bindings[i]);
  }

  /** A binding as a trusted root issues it. */
  function Issued(c: Suite, secret: Bytes, creator: Bytes, key: Key, keyType: Byte, from: U64): IdentityBinding {
    Signed(c, secret, IdentityBinding(creator, key, keyType, from, ZeroKey(), ZeroSignature()))
  }

  /** The issuer is trusted, and no cutoff it was ever trusted with lies before the start. */
  ghost predicate MayIssue(c: Suite, roots: seq<TrustedRoot>, secret: Bytes, from: U64) {
    && (exists t :: t in roots && t.key == c.publicKey(secret))
    && forall t :: t in roots && t.key == c.publicKey(secret) ==> t.notAfter == 0 || from <= t.notAfter
  }

  /** At every time from its start on, and while no other accepted binding of the key
      supersedes it, the key resolves to exactly the creator, the type and the start that a
      trusted root issued for it, whatever else is called before and after. */
  lemma IssuedIsResolved(c: Suite, first: TrustedRoot, calls: seq<Call>, secret: Bytes, creator: Bytes, key: Key,
                         keyType: Byte, from: Millis, more: seq<Call>, at: Millis, r: Option<Resolution>)
    requires Sound(c) && 0 <= from <= at && MayIssue(c, RootsAfter(first, calls), secret, from)
    requires forall b :: b in Accepted(c, first, calls) && b.authorizedKey == key && b.validFrom <= at ==> b.validFrom < from
    requires var all := calls + [AddCall(Issued(c, secret, creator, key, keyType, from))] + more;
      forall b :: b in Accepted(c, first, all) && b.authorizedKey == key && b.validFrom <= at ==> b.validFrom <= from
    ensures var all := calls + [AddCall(Issued(c, secret, creator, key, keyType, from))] + more;
      IsResolved(Accepted(c, first, all), key, at, r) <==> r == Some(Resolution(creator, keyType, from))
  {
    var b := Issued(c, secret, creator, key, keyType, from);
    var bindings := Accepted(c, first, calls + [AddCall(b)] + more);
    IssuedKeepsItsPlace(c, first, calls, secret, creator, key, keyType, from, more);
    var i := |Accepted(c, first, calls)|;
    forall j | 0 <= j < |bindings| && InEffect(bindings[j], key, at)
      ensures bindings[j].validFrom < from || (bindings[j].validFrom == from && i <= j)
    {
      assert bindings[j] in bindings;
      if j < i {
        assert bindings[j] == Accepted(c, first, calls)[j];
      }
    }
    assert IsBest(bindings, key, at, i);
    assert IsResolved(bindings, key, at, Some(ResolutionOf(b)));
    if IsResolved(bindings, key, at, r) {
      ResolvedIsUnique(bindings, key, at, r, Some(ResolutionOf(b)));
    }
  }

  lemma IssuedKeepsItsPlace(c: Suite, first: TrustedRoot, calls: seq<Call>, secret: Bytes, creator: Bytes, key: Key,
                            keyType: Byte, from: U64, more: seq<Call>)
    requires Sound(c) && MayIssue(c, RootsAfter(first, calls), secret, from)
    ensures var b := Issued(c, secret, creator, key, keyType, from);
      var bindings := Accepted(c, first, calls + [AddCall(b)] + more);
      Accepted(c, first, calls) + [b] <= bindings
      && b.creatorId == creator && b.authorizedKey == key && b.keyType == keyType && b.validFrom == from
  {
    var fields := IdentityBinding(creator, key, keyType, from, ZeroKey(), ZeroSignature());
    SigningKeepsTheRest(c, secret, fields);
    IssuedIsAccepted(c, first, calls, secret, fields);
    AcceptanceIsFinal(c, first, calls + [AddCall(Signed(c, secret, fields))], more);
  }

  // ----- What is refused

  /** The first root with the issuer's key decides: by its cutoff, and then by the signature. */
  lemma JudgedByFirstRoot(c: Suite, roots: seq<TrustedRoot>, b: IdentityBinding, k: nat)
    requires k < |roots| && roots[k].key == b.issuerPubKey && forall j :: 0 <= j < k ==> roots[j].key != b.issuerPubKey
    ensures Judgement(c, roots, b) ==
      if roots[k].notAfter != 0 && b.validFrom > roots[k].notAfter then Some(RootExpired)
      else if !c.verify(b.issuerPubKey, Payload(b), b.issuerSignature) then Some(BadSignature)
      else None
  {
    FirstRootAt(roots, b.issuerPubKey, k);
  }

  lemma {:induction false} FirstRootAt(roots: seq<TrustedRoot>, key: Key, k: nat)
    requires k < |roots| && roots[k].key == key && forall j :: 0 <= j < k ==> roots[j].key != key
    ensures FirstRoot(roots, key) == Some(roots[k])
  {
    if k > 0 {
      FirstRootAt(roots[1..], key, k - 1);
    }
  }

  lemma UntrustedExactlyWhen(c: Suite, roots: seq<TrustedRoot>, b: IdentityBinding)
    ensures Judgement(c, roots, b) == Some(UntrustedIssuer) <==> forall t :: t in roots ==> t.key != b.issuerPubKey
  {}

  /** A binding that carries the signature of another is never accepted; by a root in force
      it is refused for its signature. */
  lemma TamperedBindingIsRefused(c: Suite, first: TrustedRoot, calls: seq<Call>, secret: Bytes, b: IdentityBinding, original: IdentityBinding)
    requires Sound(c) && TellsApart(c, secret, Payload(b), Payload(original)) && b.Fits() && original.Fits()
    requires b.issuerPubKey == c.publicKey(secret) && b.issuerSignature == c.sign(secret, Payload(original))
    requires || b.creatorId != original.creatorId || b.authorizedKey != original.authorizedKey || b.keyType != original.keyType
             || b.validFrom != original.validFrom || b.issuerPubKey != original.issuerPubKey
    ensures Accepted(c, first, calls + [AddCall(b)]) == Accepted(c, first, calls)
    ensures MayIssue(c, RootsAfter(first, calls), secret, b.validFrom) ==>
      Judgement(c, RootsAfter(first, calls), b) == Some(BadSignature)
  {
    SignatureCovers(c, secret, b, original);
    AcceptedStep(c, first, calls, AddCall(b));
  }

  // ----- What resolution depends on

  /** What is resolved is a function of the accepted bindings. */
  lemma ResolvedIsUnique(bindings: seq<IdentityBinding>, key: Key, at: Millis, r: Option<Resolution>, q: Option<Resolution>)
    requires IsResolved(bindings, key, at, r) && IsResolved(bindings, key, at, q)
    ensures r == q
  {
    if r.Some? && q.Some? {
      var i: nat :| IsBest(bindings, key, at, i) && r.value == ResolutionOf(bindings[i]);
      var j: nat :| IsBest(bindings, key, at, j) && q.value == ResolutionOf(bindings[j]);
      assert i == j;
    }
  }

  /** Acceptance is final: nothing added or trusted later takes a binding away. */
  lemma {:induction false} AcceptanceIsFinal(c: Suite, first: TrustedRoot, calls: seq<Call>, more: seq<Call>)
    ensures Accepted(c, first, calls) <= Accepted(c, first, calls + more)
  {
    if more == [] {
      assert calls + more == calls;
    } else {
      var n := |more| - 1;
      AcceptanceIsFinal(c, first, calls, more[..n]);
      assert calls + more == (calls + more[..n]) + [more[n]];
      AcceptedStep(c, first, calls + more[..n], more[n]);
    }
  }

  lemma {:induction false} FirstRootIsFirst(roots: seq<TrustedRoot>, again: TrustedRoot, more: seq<TrustedRoot>, key: Key)
    requires exists t :: t in roots && t.key == again.key
    ensures FirstRoot(roots + [again] + more, key) == FirstRoot(roots + more, key)
  {
    assert (roots + [again] + more)[0] == roots[0] == (roots + more)[0];
    assert (roots + [again] + more)[1..] == roots[1..] + [again] + more && (roots + more)[1..] == roots[1..] + more;
    if roots[0].key != again.key {
      FirstRootIsFirst(roots[1..], again, more, key);
    } else if roots[0].key != key {
      SkippedRoot(roots[1..], again, more, key);
    }
  }

  lemma {:induction false} SkippedRoot(roots: seq<TrustedRoot>, again: TrustedRoot, more: seq<TrustedRoot>, key: Key)
    requires again.key != key
    ensures FirstRoot(roots + [again] + more, key) == FirstRoot(roots + more, key)
  {
    if roots == [] {
      assert (roots + [again] + more)[1..] == more && roots + more == more;
    } else {
      assert (roots + [again] + more)[1..] == roots[1..] + [again] + more && (roots + more)[1..] == roots[1..] + more;
      SkippedRoot(roots[1..], again, more, key);
    }
  }

  lemma {:induction false} TrustedJoin(calls: seq<Call>, more: seq<Call>)
    ensures Trusted(calls + more) == Trusted(calls) + Trusted(more)
  {
    if more == [] {
      assert calls + more == calls;
    } else {
      var n := |more| - 1;
      TrustedJoin(calls, more[..n]);
      assert calls + more == (calls + more[..n]) + [more[n]];
      TrustedStep(calls + more[..n], more[n]);
    }
  }

  lemma TrustedAround(calls: seq<Call>, root: TrustedRoot, more: seq<Call>)
    ensures Trusted(calls + [TrustCall(root)] + more) == Trusted(calls) + [root] + Trusted(more)
  {
    TrustedJoin(calls + [TrustCall(root)], more);
    TrustedStep(calls, TrustCall(root));
  }

  lemma Regroup(first: TrustedRoot, before: seq<TrustedRoot>, root: TrustedRoot, after: seq<TrustedRoot>)
    ensures [first] + (before + [root] + after) == ([first] + before) + [root] + after
    ensures [first] + (before + after) == ([first] + before) + after
  {}

  lemma RootsAround(first: TrustedRoot, calls: seq<Call>, root: TrustedRoot, more: seq<Call>)
    ensures RootsAfter(first, calls + [TrustCall(root)] + more) == RootsAfter(first, calls) + [root] + Trusted(more)
    ensures RootsAfter(first, calls + more) == RootsAfter(first, calls) + Trusted(more)
  {
    TrustedAround(calls, root, more);
    TrustedJoin(calls, more);
    Regroup(first, Trusted(calls), root, Trusted(more));
  }

  lemma SameFirstRoot(first: TrustedRoot, calls: seq<Call>, again: TrustedRoot, more: seq<Call>, key: Key)
    requires exists t :: t in RootsAfter(first, calls) && t.key == again.key
    ensures FirstRoot(RootsAfter(first, calls + [TrustCall(again)] + more), key) == FirstRoot(RootsAfter(first, calls + more), key)
  {
    RootsAround(first, calls, again, more);
    FirstRootIsFirst(RootsAfter(first, calls), again, Trusted(more), key);
  }

  /** Trusting a root again, with whatever cutoff, changes the fate of no binding:
      the first entry for a key is the one that counts. */
  lemma {:induction false} TrustingAgainIsInert(c: Suite, first: TrustedRoot, calls: seq<Call>, again: TrustedRoot, more: seq<Call>)
    requires exists t :: t in RootsAfter(first, calls) && t.key == again.key
    ensures Accepted(c, first, calls + [TrustCall(again)] + more) == Accepted(c, first, calls + more)
  {
    if more == [] {
      AcceptedStep(c, first, calls, TrustCall(again));
      assert calls + [TrustCall(again)] + more == calls + [TrustCall(again)] && calls + more == calls;
    } else {
      var n := |more| - 1;
      var twice, once := calls + [TrustCall(again)] + more[..n], calls + more[..n];
      TrustingAgainIsInert(c, first, calls, again, more[..n]);
      assert calls + [TrustCall(again)] + more == twice + [more[n]] && calls + more == once + [more[n]];
      if more[n].AddCall? {
        SameFirstRoot(first, calls, again, more[..n], more[n].binding.issuerPubKey);
      }
      SameNewlyAccepted(c, RootsAfter(first, twice), RootsAfter(first, once), more[n]);
      SameStep(c, first, twice, once, more[n]);
    }
  }

  lemma SameNewlyAccepted(c: Suite, roots: seq<TrustedRoot>, others: seq<TrustedRoot>, call: Call)
    requires call.AddCall? ==> FirstRoot(roots, call.binding.issuerPubKey) == FirstRoot(others, call.binding.issuerPubKey)
    ensures NewlyAccepted(c, roots, call) == NewlyAccepted(c, others, call)
  {}

  lemma SameStep(c: Suite, first: TrustedRoot, calls: seq<Call>, others: seq<Call>, call: Call)
    requires Accepted(c, first, calls) == Accepted(c, first, others)
    requires NewlyAccepted(c, RootsAfter(first, calls), call) == NewlyAccepted(c, RootsAfter(first, others), call)
    ensures Accepted(c, first, calls + [call]) == Accepted(c, first, others + [call])
  {
    AcceptedStep(c, first, calls, call);
    AcceptedStep(c, first, others, call);
  }

  /** What is resolved moves forward in time: a key that has an identity keeps one, and
      it never falls back to one that starts earlier. */
  ghost predicate MovesForward(bindings: seq<IdentityBinding>, key: Key, at: Millis, later: Millis) {
    forall r: Resolution, q: Option<Resolution> ::
      IsResolved(bindings, key, at, Some(r)) && IsResolved(bindings, key, later, q) ==>
        q.Some? && r.validFrom <= q.value.validFrom
  }

  lemma MovesForwardSince1970(bindings: seq<IdentityBinding>, key: Key, at: Millis, later: Millis)
    requires at == later || 0 <= at <= later
    ensures MovesForward(bindings, key, at, later)
  {
    forall r: Resolution, q: Option<Resolution>
      | IsResolved(bindings, key, at, Some(r)) && IsResolved(bindings, key, later, q)
      ensures q.Some? && r.validFrom <= q.value.validFrom
    {
      var i: nat :| IsBest(bindings, key, at, i) && r == ResolutionOf(bindings[i]);
      assert bindings[i] in bindings && InEffect(bindings[i], key, later);
      var j: nat :| IsBest(bindings, key, later, j) && q.value == ResolutionOf(bindings[j]);
      assert at == later ==> i == j;
    }
  }

  /** A binding a trusted root signs, starting before that root's cutoff, is accepted. */
  lemma IssuedIsAccepted(c: Suite, first: TrustedRoot, calls: seq<Call>, secret: Bytes, b: IdentityBinding)
    requires Sound(c)
    requires var root := FirstRoot(RootsAfter(first, calls), c.publicKey(secret));
      root.Some? && (root.value.notAfter == 0 || b.validFrom <= root.value.notAfter)
    ensures Accepted(c, first, calls + [AddCall(Signed(c, secret, b))]) == Accepted(c, first, calls) + [Signed(c, secret, b)]
  {
    AcceptedStep(c, first, calls, AddCall(Signed(c, secret, b)));
  }

  /** A binding that starts at this point of the unsigned scale. */
  function Starting(validFrom: U64): IdentityBinding {
    IdentityBinding([], ZeroKey(), 0, validFrom, ZeroKey(), ZeroSignature())
  }

  function Root(c: Suite, secret: Bytes): TrustedRoot {
    TrustedRoot(c.publicKey(secret), 0)
  }

  /** The calls that add bindings with these starts, signed by the root. */
  function Adding(c: Suite, secret: Bytes, starts: seq<U64>): seq<Call> {
    seq(|starts|, i requires 0 <= i < |starts| => AddCall(Signed(c, secret, Starting(starts[i]))))
  }

  /** A resolver with that root accepts them all. */
  lemma {:induction false} AllAccepted(c: Suite, secret: Bytes, starts: seq<U64>)
    requires Sound(c)
    ensures var bindings := Accepted(c, Root(c, secret), Adding(c, secret, starts));
      && |bindings| == |starts|
      && forall i :: 0 <= i < |starts| ==> bindings[i] == Signed(c, secret, Starting(starts[i]))
    ensures Trusted(Adding(c, secret, starts)) == []
  {
    if starts != [] {
      var n := |starts| - 1;
      var before, call := Adding(c, secret, starts[..n]), AddCall(Signed(c, secret, Starting(starts[n])));
      AllAccepted(c, secret, starts[..n]);
      assert Adding(c, secret, starts) == before + [call];
      TrustedStep(before, call);
      IssuedIsAccepted(c, Root(c, secret), before, secret, Starting(starts[n]));
    }
  }

  /** What a resolver with this one root resolves, after any calls. */
  ghost predicate Resolves(c: Suite, secret: Bytes, calls: seq<Call>, key: Key, at: Millis, r: Option<Resolution>) {
    IsResolved(Accepted(c, Root(c, secret), calls), key, at, r)
  }

  ghost predicate AlwaysMovesForward(c: Suite, secret: Bytes, at: Millis, later: Millis) {
    forall calls: seq<Call>, key: Key :: MovesForward(Accepted(c, Root(c, secret), calls), key, at, later)
  }

  /** Over every history, resolution moves forward from every time since 1970 to every
      later one, and from no earlier time: the conversion to unsigned puts the times
      before 1970 last. */
  lemma MovesForwardExactlyWhen(c: Suite, secret: Bytes, at: Millis, later: Millis)
    requires Sound(c) && at <= later
    ensures AlwaysMovesForward(c, secret, at, later) <==> at == later || at >= 0
  {
    if at == later || at >= 0 {
      forall calls: seq<Call>, key: Key
        ensures MovesForward(Accepted(c, Root(c, secret), calls), key, at, later)
      {
        MovesForwardSince1970(Accepted(c, Root(c, secret), calls), key, at, later);
      }
    } else if later >= 0 {
      LosesItsIdentity(c, secret, at, later);
    } else {
      FallsBack(c, secret, at, later);
    }
  }

  /** A binding in effect before 1970 that is not in effect after. */
  lemma LosesItsIdentity(c: Suite, secret: Bytes, at: Millis, later: Millis)
    requires Sound(c) && at < 0 <= later
    ensures !AlwaysMovesForward(c, secret, at, later)
  {
    var calls := Adding(c, secret, [Unsigned(at)]);
    AllAccepted(c, secret, [Unsigned(at)]);
    var bindings := Accepted(c, Root(c, secret), calls);
    assert IsBest(bindings, ZeroKey(), at, 0);
    assert IsResolved(bindings, ZeroKey(), at, Some(ResolutionOf(bindings[0])));
    assert IsResolved(bindings, ZeroKey(), later, None);
    assert !MovesForward(bindings, ZeroKey(), at, later);
  }

  /** Two times before 1970: the earlier resolves to a binding that starts in 1970, the
      later to one that starts at that time itself. */
  lemma FallsBack(c: Suite, secret: Bytes, at: Millis, later: Millis)
    requires Sound(c) && at < later < 0
    ensures !AlwaysMovesForward(c, secret, at, later)
  {
    var calls := Adding(c, secret, [100, Unsigned(later)]);
    AllAccepted(c, secret, [100, Unsigned(later)]);
    var bindings := Accepted(c, Root(c, secret), calls);
    assert IsBest(bindings, ZeroKey(), at, 0) && IsBest(bindings, ZeroKey(), later, 1);
    assert IsResolved(bindings, ZeroKey(), at, Some(ResolutionOf(bindings[0])));
    assert IsResolved(bindings, ZeroKey(), later, Some(ResolutionOf(bindings[1])));
    assert !MovesForward(bindings, ZeroKey(), at, later);
  }

  ghost predicate StartsNotAfter(c: Suite, secret: Bytes, at: Millis) {
    forall calls: seq<Call>, key: Key, r: Resolution :: Resolves(c, secret, calls, key, at, Some(r)) ==> r.validFrom <= at
  }

  /** Over every history, what is resolved does not start after the time exactly when
      the time is not before 1970. */
  lemma StartsNotAfterExactlyWhen(c: Suite, secret: Bytes, at: Millis)
    requires Sound(c)
    ensures StartsNotAfter(c, secret, at) <==> at >= 0
  {
    if at >= 0 {
      forall calls: seq<Call>, key: Key, r: Resolution | Resolves(c, secret, calls, key, at, Some(r))
        ensures r.validFrom <= at
      {
        var bindings := Accepted(c, Root(c, secret), calls);
        var i: nat :| IsBest(bindings, key, at, i) && r == ResolutionOf(bindings[i]);
      }
    } else {
      var calls := Adding(c, secret, [100]);
      AllAccepted(c, secret, [100]);
      var bindings := Accepted(c, Root(c, secret), calls);
      assert IsBest(bindings, ZeroKey(), at, 0);
      assert Resolves(c, secret, calls, ZeroKey(), at, Some(ResolutionOf(bindings[0])));
    }
  }

  ghost predicate NoneMissed(c: Suite, secret: Bytes, at: Millis) {
    forall calls: seq<Call>, key: Key, b: IdentityBinding ::
      Resolves(c, secret, calls, key, at, None) && b in Accepted(c, Root(c, secret), calls) && b.authorizedKey == key ==>
        FromUnsigned(b.validFrom) > at
  }

  /** And a key is without an identity only if all its accepted bindings start after the
      time, exactly when the time is before 1970: later ones miss what started before. */
  lemma NoneMissedExactlyWhen(c: Suite, secret: Bytes, at: Millis)
    requires Sound(c)
    ensures NoneMissed(c, secret, at) <==> at < 0
  {
    if at >= 0 {
      var calls := Adding(c, secret, [TWO63]);
      AllAccepted(c, secret, [TWO63]);
      var bindings := Accepted(c, Root(c, secret), calls);
      assert Resolves(c, secret, calls, ZeroKey(), at, None) && bindings[0] in bindings;
    } else {
      forall calls: seq<Call>, key: Key, b: IdentityBinding
        | Resolves(c, secret, calls, key, at, None) && b in Accepted(c, Root(c, secret), calls) && b.authorizedKey == key
        ensures FromUnsigned(b.validFrom) > at
      {
        assert !InEffect(b, key, at);
      }
    }
  }

  lemma {:induction false} NewRootIsFirst(roots: seq<TrustedRoot>, root: TrustedRoot, more: seq<TrustedRoot>)
    requires forall t :: t in roots ==> t.key != root.key
    ensures FirstRoot(roots + [root] + more, root.key) == Some(root)
  {
    if roots == [] {
      assert ([] + [root] + more)[0] == root;
    } else {
      assert (roots + [root] + more)[0] == roots[0] && roots[0] in roots;
      assert (roots + [root] + more)[1..] == roots[1..] + [root] + more;
      NewRootIsFirst(roots[1..], root, more);
    }
  }

  /** The calls before a root is trusted up to a cutoff, that call, and more. */
  function TrustedUntil(calls: seq<Call>, key: Key, notAfter: Millis, more: seq<Call>): seq<Call> {
    calls + [TrustCall(TrustedRoot(key, Cutoff(Some(notAfter))))] + more
  }

  /** Once a key not trusted before is trusted up to a cutoff, a binding of it is judged
      by that cutoff, whatever was called in between. */
  lemma JudgedByCutoff(c: Suite, first: TrustedRoot, calls: seq<Call>, key: Key, notAfter: Millis, more: seq<Call>, b: IdentityBinding)
    requires forall t :: t in RootsAfter(first, calls) ==> t.key != key
    requires b.issuerPubKey == key
    ensures var before := TrustedUntil(calls, key, notAfter, more); var cutoff := Cutoff(Some(notAfter));
      Accepted(c, first, before + [AddCall(b)]) == Accepted(c, first, before)
        + if (cutoff == 0 || b.validFrom <= cutoff) && Verifies(c, b) then [b] else []
  {
    var root := TrustedRoot(key, Cutoff(Some(notAfter)));
    RootsAround(first, calls, root, more);
    NewRootIsFirst(RootsAfter(first, calls), root, Trusted(more));
    AcceptedStep(c, first, TrustedUntil(calls, key, notAfter, more), AddCall(b));
  }

  /** No binding of the key that starts after the cutoff is accepted. */
  ghost predicate CutoffHolds(c: Suite, first: TrustedRoot, before: seq<Call>, key: Key, notAfter: Millis) {
    forall b: IdentityBinding :: b.issuerPubKey == key && FromUnsigned(b.validFrom) > notAfter ==>
      Accepted(c, first, before + [AddCall(b)]) == Accepted(c, first, before)
  }

  /** A cutoff given when a key is first trusted keeps out every binding that starts
      after it exactly when it lies after the start of 1970. That instant is stored like
      no cutoff at all, and an earlier one as the far end of the unsigned scale. */
  lemma CutoffHoldsExactlyWhen(c: Suite, first: TrustedRoot, calls: seq<Call>, secret: Bytes, notAfter: Millis, more: seq<Call>)
    requires Sound(c) && forall t :: t in RootsAfter(first, calls) ==> t.key != c.publicKey(secret)
    ensures CutoffHolds(c, first, TrustedUntil(calls, c.publicKey(secret), notAfter, more), c.publicKey(secret), notAfter)
       <==> notAfter > 0
  {
    var key := c.publicKey(secret);
    var before := TrustedUntil(calls, key, notAfter, more);
    if notAfter > 0 {
      forall b: IdentityBinding | b.issuerPubKey == key && FromUnsigned(b.validFrom) > notAfter
        ensures Accepted(c, first, before + [AddCall(b)]) == Accepted(c, first, before)
      {
        JudgedByCutoff(c, first, calls, key, notAfter, more, b);
      }
    } else {
      var b := Signed(c, secret, Starting(100));
      JudgedByCutoff(c, first, calls, key, notAfter, more, b);
      assert FromUnsigned(b.validFrom) > notAfter;
      assert |Accepted(c, first, before + [AddCall(b)])| == |Accepted(c, first, before)| + 1;
    }
  }

  /** Every binding of the key that does not start after the cutoff, and is signed, is
      accepted. */
  ghost predicate EarlierKept(c: Suite, first: TrustedRoot, before: seq<Call>, key: Key, notAfter: Millis) {
    forall b: IdentityBinding :: b.issuerPubKey == key && Verifies(c, b) && FromUnsigned(b.validFrom) <= notAfter ==>
      Accepted(c, first, before + [AddCall(b)]) == Accepted(c, first, before) + [b]
  }

  /** Such a cutoff keeps every earlier binding exactly when it does not lie after the
      start of 1970: a later one rejects bindings that start before 1970. */
  lemma EarlierKeptExactlyWhen(c: Suite, first: TrustedRoot, calls: seq<Call>, secret: Bytes, notAfter: Millis, more: seq<Call>)
    requires Sound(c) && forall t :: t in RootsAfter(first, calls) ==> t.key != c.publicKey(secret)
    ensures EarlierKept(c, first, TrustedUntil(calls, c.publicKey(secret), notAfter, more), c.publicKey(secret), notAfter)
       <==> notAfter <= 0
  {
    var key := c.publicKey(secret);
    var before := TrustedUntil(calls, key, notAfter, more);
    if notAfter <= 0 {
      forall b: IdentityBinding | b.issuerPubKey == key && Verifies(c, b) && FromUnsigned(b.validFrom) <= notAfter
        ensures Accepted(c, first, before + [AddCall(b)]) == Accepted(c, first, before) + [b]
      {
        JudgedByCutoff(c, first, calls, key, notAfter, more, b);
      }
    } else {
      var b := Signed(c, secret, Starting(TWO63));
      JudgedByCutoff(c, first, calls, key, notAfter, more, b);
      assert FromUnsigned(b.validFrom) <= notAfter;
      assert |Accepted(c, first, before + [AddCall(b)])| == |Accepted(c, first, before)|;
    }
  }
}
