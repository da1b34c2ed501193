/** internal/provenance/provenance.go: the analysis of a chain, and its linear order. */
module Histories {
  import opened Bytes
  import opened Crypto
  import opened Order
  import opened Provenance

  /** The well-formed case: one root, no parent with two children, nothing dangling. */
  ghost predicate Linear(events: seq<Event>) {
    |Roots(events)| == 1 && Strays(events) == [] && forall h :: |Kids(events, h)| <= 1
  }

  // ----- Analyze

  datatype Fork = Fork(root: bool, parentHash: Hash, children: seq<Event>)

  datatype Integrity = Integrity(linear: bool, roots: seq<Event>, forks: seq<Fork>, dangling: seq<Event>)

  function EventKey(e: Event): seq<int> { [e.att.eventSeq] + e.hash }

  function ForkKey(f: Fork): seq<int> { f.parentHash }

  /** A smaller sequence number, or the same and a hash that comes first. */
  ghost predicate Earlier(a: Event, b: Event) {
    a.att.eventSeq < b.att.eventSeq || (a.att.eventSeq == b.att.eventSeq && ComesBefore(a.hash, b.hash))
  }

  lemma KeyOrder(a: Event, b: Event)
    ensures Less(EventKey(a), EventKey(b)) <==> Earlier(a, b)
  {
    assert EventKey(a)[1..] == a.hash && EventKey(b)[1..] == b.hash;
    LessIsLexicographic(a.hash, b.hash);
  }

  method BytesLess(a: Hash, b: Hash) returns (less: bool)
    ensures less <==> Less(a, b)
    ensures less <==> exists k: nat :: k < 32 && DiffersAt(a, b, k)
  {
    LessIsLexicographic(a, b);
    for i := 0 to 32
      invariant Less(a, b) <==> Less(a[i..], b[i..])
    {
      if a[i] != b[i] {
        return a[i] < b[i];
      }
    }
    return false;
  }

  /** Events are compared by sequence number, then by hash. */
  method EventLess(a: Event, b: Event) returns (less: bool)
    ensures less <==> Less(EventKey(a), EventKey(b))
    ensures less <==> Earlier(a, b)
  {
    KeyOrder(a, b);
    if a.att.eventSeq != b.att.eventSeq {
      return a.att.eventSeq < b.att.eventSeq;
    }
    assert EventKey(a)[1..] == a.hash && EventKey(b)[1..] == b.hash;
    less := BytesLess(a.hash, b.hash);
  }

  ghost predicate IsOrdering(events: seq<Event>, sorted: seq<Event>) {
    multiset(sorted) == multiset(events) && Sorted(sorted, EventKey)
  }

  ghost predicate IsForkAt(events: seq<Event>, f: Fork) {
    !f.root && |Kids(events, f.parentHash)| > 1 && IsOrdering(Kids(events, f.parentHash), f.children)
  }

  /** One fork for each parent with several children, strictly sorted by parent. */
  ghost predicate AreSharedForks(events: seq<Event>, forks: seq<Fork>) {
    && (forall f :: f in forks ==> IsForkAt(events, f))
    && (forall h :: |Kids(events, h)| > 1 ==> exists f :: f in forks && f.parentHash == h)
    && (forall i, j :: 0 <= i < j < |forks| ==> Less(ForkKey(forks[i]), ForkKey(forks[j])))
  }

  /** What the analysis of a chain says: the fork of several roots, if any, is last. */
  ghost predicate IsAnalysis(events: seq<Event>, r: Integrity) {
    && r.dangling == Strays(events)
    && (r.linear <==> Linear(events))
    && if |Roots(events)| > 1 then
         && IsOrdering(Roots(events), r.roots)
         && r.forks != []
         && r.forks[|r.forks| - 1] == Fork(true, ZeroHash(), r.roots)
         && AreSharedForks(events, r.forks[..|r.forks| - 1])
       else
         && r.roots == Roots(events)
         && AreSharedForks(events, r.forks)
  }

  /** The forks found once only the parents in `left` remain to be looked at. */
  ghost predicate Found(events: seq<Event>, forks: seq<Fork>, left: set<Hash>) {
    && (forall f :: f in forks ==> IsForkAt(events, f) && f.parentHash !in left)
    && (forall h :: |Kids(events, h)| > 1 ==> h in left || exists f :: f in forks && f.parentHash == h)
    && (forall i, j :: 0 <= i < j < |forks| ==> ForkKey(forks[i]) != ForkKey(forks[j]))
  }

  lemma OneMoreFork(events: seq<Event>, forks: seq<Fork>, left: set<Hash>, fork: Fork)
    requires Found(events, forks, left) && IsForkAt(events, fork) && fork.parentHash in left
    ensures Found(events, forks + [fork], left - {fork.parentHash})
  {
    var more := forks + [fork];
    assert forall f :: f in more <==> f in forks || f == fork;
    assert fork in more;
  }

  lemma SortedForks(events: seq<Event>, found: seq<Fork>, forks: seq<Fork>)
    requires Found(events, found, {}) && multiset(found) == multiset(forks) && Sorted(forks, ForkKey)
    ensures AreSharedForks(events, forks)
  {
    SortedStrictly(found, forks, ForkKey);
  }

  /** The forks of the map of children, taken in whatever order the map yields them. */
  method SharedForks(ghost events: seq<Event>, childrenOf: map<Hash, seq<Event>>) returns (forks: seq<Fork>)
    requires forall h :: h in childrenOf <==> Kids(events, h) != []
    requires forall h :: h in childrenOf ==> childrenOf[h] == Kids(events, h)
    ensures AreSharedForks(events, forks)
  {
    var found: seq<Fork> := [];
    var left := childrenOf.Keys;
    while left != {}
      invariant left <= childrenOf.Keys && Found(events, found, left)
    {
      var ph: Hash :| ph in left;
      var kids := childrenOf[ph];
      if |kids| > 1 {
        var fork := Fork(false, ph, SortBy(kids, EventKey));
        OneMoreFork(events, found, left, fork);
        found := found + [fork];
      }
      left := left - {ph};
    }
    forks := SortBy(found, ForkKey);
    SortedForks(events, found, forks);
  }

  method Analyze(events: seq<Event>) returns (r: Integrity)
    ensures IsAnalysis(events, r)
  {
    var roots, childrenOf, dangling := Links(events);
    var shared := SharedForks(events, childrenOf);
    var forks := shared;
    if |roots| > 1 {
      roots := SortBy(roots, EventKey);
      MembersOfPermutation(Roots(events), roots);
      forks := forks + [Fork(true, ZeroHash(), roots)];
      assert forks[..|forks| - 1] == shared;
    }
    r := Integrity(|roots| == 1 && |forks| == 0 && |dangling| == 0, roots, forks, dangling);
    if forks == [] {
      assert forall h :: |Kids(events, h)| > 1 ==> exists f :: f in shared && f.parentHash == h;
    } else if |roots| <= 1 {
      assert IsForkAt(events, forks[0]);
    }
  }

  /** No event stands after a later one. */
  ghost predicate InOrder(events: seq<Event>) {
    forall i, j :: 0 <= i < j < |events| ==> !Earlier(events[j], events[i])
  }

  lemma SortedInOrder(events: seq<Event>)
    requires Sorted(events, EventKey)
    ensures InOrder(events)
  {
    forall i, j | 0 <= i < j < |events|
      ensures !Earlier(events[j], events[i])
    {
      KeyOrder(events[j], events[i]);
    }
  }

  /** What the order of the result is: the children of every fork, and the roots if there
      are several, by sequence number and then by hash, and the forks by parent hash, with
      the fork of the roots at the end. */
  lemma AnalysisInOrder(events: seq<Event>, r: Integrity)
    requires IsAnalysis(events, r)
    ensures |r.roots| > 1 ==> InOrder(r.roots)
    ensures forall f :: f in r.forks ==> InOrder(f.children)
    ensures forall i, j :: 0 <= i < j < |r.forks| ==> r.forks[j].root || ComesBefore(r.forks[i].parentHash, r.forks[j].parentHash)
  {
    var shared := if |Roots(events)| > 1 then r.forks[..|r.forks| - 1] else r.forks;
    if |Roots(events)| > 1 {
      SortedInOrder(r.roots);
    }
    forall f | f in r.forks
      ensures InOrder(f.children)
    {
      if f in shared {
        assert IsForkAt(events, f);
        SortedInOrder(f.children);
      }
    }
    forall i, j | 0 <= i < j < |r.forks|
      ensures r.forks[j].root || ComesBefore(r.forks[i].parentHash, r.forks[j].parentHash)
    {
      if j < |shared| {
        LessIsLexicographic(ForkKey(shared[i]), ForkKey(shared[j]));
      }
    }
  }

  ghost predicate DistinctHashes(events: seq<Event>) {
    forall i, j :: 0 <= i < j < |events| ==> events[i].hash != events[j].hash
  }

  lemma SameAt(events: seq<Event>, others: seq<Event>, place: Place)
    requires multiset(events) == multiset(others)
    ensures Hashes(events) == Hashes(others)
    ensures multiset(At(events, Hashes(events), place)) == multiset(At(others, Hashes(others), place))
    ensures |At(events, Hashes(events), place)| == |At(others, Hashes(others), place)|
  {
    MembersOfPermutation(events, others);
    var present := Hashes(events);
    assert present == Hashes(others);
    forall e
      ensures multiset(At(events, present, place))[e] == multiset(At(others, present, place))[e]
    {
      AtCounts(events, present, place, e);
      AtCounts(others, present, place, e);
    }
    assert multiset(At(events, present, place)) == multiset(At(others, present, place));
    MembersOfPermutation(At(events, present, place), At(others, present, place));
  }

  /** Events of the chain with distinct hashes have one ordering. */
  lemma OrderingIsUnique(events: seq<Event>, place: Place, xs: seq<Event>, ys: seq<Event>)
    requires DistinctHashes(events)
    requires IsOrdering(At(events, Hashes(events), place), xs) && multiset(xs) == multiset(ys) && Sorted(ys, EventKey)
    ensures xs == ys
  {
    AtMembers(events, Hashes(events), place);
    MembersOfPermutation(At(events, Hashes(events), place), xs);
    forall i, j | 0 <= i < |xs| && 0 <= j < |xs| && EventKey(xs[i]) == EventKey(xs[j])
      ensures xs[i] == xs[j]
    {
      assert xs[i] in events && xs[j] in events;
      assert EventKey(xs[i])[1..] == xs[i].hash && EventKey(xs[j])[1..] == xs[j].hash;
    }
    SortedIsUnique(xs, ys, EventKey);
  }

  lemma SharedForkCarriesOver(events: seq<Event>, others: seq<Event>, xs: seq<Fork>, ys: seq<Fork>, f: Fork)
    requires multiset(events) == multiset(others) && DistinctHashes(events)
    requires AreSharedForks(events, xs) && AreSharedForks(others, ys) && f in xs
    ensures f in ys
  {
    var h := f.parentHash;
    SameAt(events, others, ChildOf(h));
    assert |Kids(others, h)| > 1;
    var g :| g in ys && g.parentHash == h;
    assert IsForkAt(events, f) && IsForkAt(others, g);
    OrderingIsUnique(events, ChildOf(h), f.children, g.children);
  }

  lemma SharedForksAreUnique(events: seq<Event>, others: seq<Event>, xs: seq<Fork>, ys: seq<Fork>)
    requires multiset(events) == multiset(others) && DistinctHashes(events)
    requires AreSharedForks(events, xs) && AreSharedForks(others, ys)
    ensures xs == ys
  {
    DistinctKeysStay(events, others, HashKey);
    forall f
      ensures f in xs <==> f in ys
    {
      if f in xs {
        SharedForkCarriesOver(events, others, xs, ys, f);
      }
      if f in ys {
        SharedForkCarriesOver(others, events, ys, xs, f);
      }
    }
    StrictlySortedIsUnique(xs, ys, ForkKey);
  }

  function HashKey(e: Event): seq<int> { e.hash }

  lemma LinearIgnoresOrder(events: seq<Event>, others: seq<Event>)
    requires multiset(events) == multiset(others)
    ensures Linear(events) <==> Linear(others)
  {
    SameAt(events, others, Root);
    SameAt(events, others, Dangling);
    forall h
      ensures |Kids(events, h)| == |Kids(others, h)|
    {
      SameAt(events, others, ChildOf(h));
    }
  }

  lemma ManyRootsIgnoreOrder(events: seq<Event>, others: seq<Event>, r: Integrity, q: Integrity)
    requires multiset(events) == multiset(others) && DistinctHashes(events)
    requires |Roots(events)| > 1 && IsAnalysis(events, r) && IsAnalysis(others, q)
    ensures r.roots == q.roots && r.forks == q.forks
  {
    SameAt(events, others, Root);
    OrderingIsUnique(events, Root, r.roots, q.roots);
    var n, m := |r.forks| - 1, |q.forks| - 1;
    SharedForksAreUnique(events, others, r.forks[..n], q.forks[..m]);
    SameSnoc(r.forks, q.forks);
  }

  lemma SameSnoc<T>(xs: seq<T>, ys: seq<T>)
    requires xs != [] && ys != [] && xs[..|xs| - 1] == ys[..|ys| - 1] && xs[|xs| - 1] == ys[|ys| - 1]
    ensures xs == ys
  {
    assert xs == xs[..|xs| - 1] + [xs[|xs| - 1]];
    assert ys == ys[..|ys| - 1] + [ys[|ys| - 1]];
  }

  lemma FewRootsIgnoreOrder(events: seq<Event>, others: seq<Event>, r: Integrity, q: Integrity)
    requires multiset(events) == multiset(others) && DistinctHashes(events)
    requires |Roots(events)| <= 1 && IsAnalysis(events, r) && IsAnalysis(others, q)
    ensures r.roots == q.roots && r.forks == q.forks
  {
    SameAt(events, others, Root);
    SharedForksAreUnique(events, others, r.forks, q.forks);
    SameShortSeq(r.roots, q.roots);
  }

  /** With distinct hashes the analysis does not depend on the order in which the
      events were added, nor on the order in which the maps yield them. */
  lemma AnalysisIgnoresOrder(events: seq<Event>, others: seq<Event>, r: Integrity, q: Integrity)
    requires multiset(events) == multiset(others) && DistinctHashes(events)
    requires IsAnalysis(events, r) && IsAnalysis(others, q)
    ensures r.linear == q.linear && r.roots == q.roots && r.forks == q.forks
    ensures multiset(r.dangling) == multiset(q.dangling)
  {
    LinearIgnoresOrder(events, others);
    SameAt(events, others, Dangling);
    if |Roots(events)| > 1 {
      ManyRootsIgnoreOrder(events, others, r, q);
    } else {
      FewRootsIgnoreOrder(events, others, r, q);
    }
  }

  lemma SameShortSeq<T>(xs: seq<T>, ys: seq<T>)
    requires multiset(xs) == multiset(ys) && |xs| <= 1
    ensures xs == ys
  {
    MembersOfPermutation(xs, ys);
    if |xs| == 1 {
      assert ys[0] in xs;
    }
  }
}
