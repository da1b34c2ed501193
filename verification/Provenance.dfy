/** internal/provenance/provenance.go: the history graph of a work, rebuilt from
    the back-references of its events. */
module Provenance {
  import opened Bytes
  import opened Crypto
  import opened Attestations
  import opened Order

  /** One attestation positioned in the log. */
  datatype Event = Event(att: Attestation, hash: Hash, logIndex: U64) {
    function Parent(): Option<Hash> { att.prevEventHash }
  }

  /** Where an event hangs, given which hashes are present in its chain. */
  datatype Place = Root | ChildOf(parent: Hash) | Dangling

  function PlaceOf(e: Event, present: set<Hash>): Place {
    if e.Parent().None? then Root
    else if e.Parent().value in present then ChildOf(e.Parent().value)
    else Dangling
  }

  function Hashes(events: seq<Event>): set<Hash> {
    set e | e in events :: e.hash
  }

  /** The events hanging at a place, in the order of the chain. */
  function At(events: seq<Event>, present: set<Hash>, place: Place): seq<Event> {
    if events == [] then []
    else
      var n := |events| - 1;
      At(events[..n], present, place) + if PlaceOf(events[n], present) == place then [events[n]] else []
  }

  function Roots(events: seq<Event>): seq<Event> { At(events, Hashes(events), Root) }

  function Kids(events: seq<Event>, h: Hash): seq<Event> { At(events, Hashes(events), ChildOf(h)) }

  function Strays(events: seq<Event>): seq<Event> { At(events, Hashes(events), Dangling) }

  lemma {:induction false} AtSnoc(events: seq<Event>, present: set<Hash>, place: Place, i: nat)
    requires i < |events|
    ensures At(events[..i + 1], present, place)
         == At(events[..i], present, place) + if PlaceOf(events[i], present) == place then [events[i]] else []
  {
    assert events[..i + 1][..i] == events[..i];
  }

  /** An event hangs at its own place as often as it occurs in the chain, and nowhere else. */
  lemma {:induction false} AtCounts(events: seq<Event>, present: set<Hash>, place: Place, e: Event)
    ensures multiset(At(events, present, place))[e] == if PlaceOf(e, present) == place then multiset(events)[e] else 0
  {
    if events != [] {
      var n := |events| - 1;
      AtCounts(events[..n], present, place, e);
      assert events == events[..n] + [events[n]];
    }
  }

  lemma AtMembers(events: seq<Event>, present: set<Hash>, place: Place)
    ensures forall e :: e in At(events, present, place) <==> e in events && PlaceOf(e, present) == place
  {
    forall e
      ensures e in At(events, present, place) <==> e in events && PlaceOf(e, present) == place
    {
      AtCounts(events, present, place, e);
      assert e in At(events, present, place) <==> multiset(At(events, present, place))[e] > 0;
      assert e in events <==> multiset(events)[e] > 0;
    }
  }

  /** Roots have no back-reference, children one to an event of the chain, and dangling
      events one to nothing there. */
  lemma PlacesByReference(events: seq<Event>, e: Event, h: Hash)
    ensures e in Roots(events) <==> e in events && e.att.prevEventHash.None?
    ensures e in Kids(events, h) <==> e in events && e.att.prevEventHash == Some(h) && exists p :: p in events && p.hash == h
    ensures e in Strays(events) <==>
      e in events && e.att.prevEventHash.Some? && forall p :: p in events ==> p.hash != e.att.prevEventHash.value
  {
    AtMembers(events, Hashes(events), Root);
    AtMembers(events, Hashes(events), ChildOf(h));
    AtMembers(events, Hashes(events), Dangling);
    assert forall g: Hash :: g in Hashes(events) <==> exists p :: p in events && p.hash == g;
  }

  /** In the order of the chain: the positions of what hangs at a place increase. */
  lemma {:induction false} AtKeepsOrder(events: seq<Event>, present: set<Hash>, place: Place) returns (from: seq<nat>)
    ensures |from| == |At(events, present, place)|
    ensures forall i :: 0 <= i < |from| ==> from[i] < |events| && events[from[i]] == At(events, present, place)[i]
    ensures forall i, j :: 0 <= i < j < |from| ==> from[i] < from[j]
  {
    if events == [] {
      from := [];
    } else {
      var n := |events| - 1;
      from := AtKeepsOrder(events[..n], present, place);
      if PlaceOf(events[n], present) == place {
        from := from + [n];
      }
    }
  }

  function KidsInAll(events: seq<Event>, present: set<Hash>, parents: seq<Hash>): nat {
    if parents == [] then 0
    else |At(events, present, ChildOf(parents[0]))| + KidsInAll(events, present, parents[1..])
  }

  lemma {:induction false} OneMoreKid(events: seq<Event>, present: set<Hash>, parents: seq<Hash>)
    requires events != [] && NoRepeats(parents)
    ensures var n := |events| - 1; var place := PlaceOf(events[n], present);
      KidsInAll(events, present, parents)
      == KidsInAll(events[..n], present, parents) + if place.ChildOf? && place.parent in parents then 1 else 0
  {
    if parents != [] {
      OneMoreKid(events, present, parents[1..]);
      assert parents == [parents[0]] + parents[1..];
      assert parents[0] !in parents[1..];
    }
  }

  /** Roots, children of present parents and dangling events add up to the chain,
      however the parents are enumerated. */
  lemma {:induction false} CountIsConserved(events: seq<Event>, present: set<Hash>, parents: seq<Hash>)
    requires NoRepeats(parents)
    requires forall e :: e in events && PlaceOf(e, present).ChildOf? ==> PlaceOf(e, present).parent in parents
    ensures |At(events, present, Root)| + |At(events, present, Dangling)| + KidsInAll(events, present, parents) == |events|
  {
    if events == [] {
      NoKidsOfNothing(present, parents);
    } else {
      CountIsConserved(events[..|events| - 1], present, parents);
      OneMoreKid(events, present, parents);
    }
  }

  lemma {:induction false} NoKidsOfNothing(present: set<Hash>, parents: seq<Hash>)
    ensures KidsInAll([], present, parents) == 0
  {
    if parents != [] {
      NoKidsOfNothing(present, parents[1..]);
    }
  }

  // ----- Grouping events by work

  function OfWork(added: seq<Event>, w: WorkId): seq<Event> {
    if added == [] then []
    else
      var n := |added| - 1;
      OfWork(added[..n], w) + if added[n].att.workId == w then [added[n]] else []
  }

  lemma {:induction false} OfWorkCounts(added: seq<Event>, w: WorkId, e: Event)
    ensures multiset(OfWork(added, w))[e] == if e.att.workId == w then multiset(added)[e] else 0
  {
    if added != [] {
      var n := |added| - 1;
      OfWorkCounts(added[..n], w, e);
      assert added == added[..n] + [added[n]];
    }
  }

  /** And a work has the events added for it, in the order they were added. */
  lemma {:induction false} OfWorkKeepsOrder(added: seq<Event>, w: WorkId) returns (from: seq<nat>)
    ensures |from| == |OfWork(added, w)|
    ensures forall i :: 0 <= i < |from| ==> from[i] < |added| && added[from[i]] == OfWork(added, w)[i]
    ensures forall i, j :: 0 <= i < j < |from| ==> from[i] < from[j]
    ensures forall k :: 0 <= k < |added| && added[k].att.workId == w ==> k in from
    ensures forall k :: k in from ==> k < |added| && added[k].att.workId == w
  {
    if added == [] {
      from := [];
    } else {
      var n := |added| - 1;
      from := OfWorkKeepsOrder(added[..n], w);
      if added[n].att.workId == w {
        from := from + [n];
      }
    }
  }

  /** The chain of a work has the same events whatever the order of insertion. */
  lemma OfWorkIgnoresOrder(added: seq<Event>, others: seq<Event>, w: WorkId)
    requires multiset(added) == multiset(others)
    ensures multiset(OfWork(added, w)) == multiset(OfWork(others, w))
  {
    forall e
      ensures multiset(OfWork(added, w))[e] == multiset(OfWork(others, w))[e]
    {
      OfWorkCounts(added, w, e);
      OfWorkCounts(others, w, e);
    }
  }

  lemma SomeOfWork(added: seq<Event>, w: WorkId)
    ensures OfWork(added, w) != [] <==> exists k :: 0 <= k < |added| && added[k].att.workId == w
  {
    var from := OfWorkKeepsOrder(added, w);
    if OfWork(added, w) != [] {
      assert from[0] in from;
    }
  }

  function WorkKey(w: WorkId): seq<int> { w }

  lemma SortedWorks(works: seq<WorkId>, sorted: seq<WorkId>)
    requires NoRepeats(works) && multiset(sorted) == multiset(works) && Sorted(sorted, WorkKey)
    ensures forall i, j :: 0 <= i < j < |sorted| ==> ComesBefore(sorted[i], sorted[j])
    ensures forall w :: w in sorted <==> w in works
  {
    SortedStrictly(works, sorted, WorkKey);
    forall i, j | 0 <= i < j < |sorted|
      ensures ComesBefore(sorted[i], sorted[j])
    {
      LessIsLexicographic(sorted[i], sorted[j]);
    }
  }

  class Index {
    var byWork: map<WorkId, seq<Event>>
    ghost var added: seq<Event>

    /** The map groups, in order, everything ever added. */
    ghost predicate Valid()
      reads this
    {
      && (forall w :: w in byWork <==> OfWork(added, w) != [])
      && (forall w :: w in byWork ==> byWork[w] == OfWork(added, w))
    }

    constructor ()
      ensures Valid() && added == []
    {
      byWork, added := map[], [];
    }

    method Add(c: Suite, att: Attestation, logIndex: U64) returns (e: Event)
      requires Valid()
      modifies this
      ensures Valid() && added == old(added) + [e]
      ensures e == Event(att, LeafHash(c, att), logIndex)
    {
      e := Event(att, LeafHash(c, att), logIndex);
      byWork := byWork[att.workId := (if att.workId in byWork then byWork[att.workId] else []) + [e]];
      added := added + [e];
      assert added[..|added| - 1] == old(added);
    }

    method Works() returns (works: seq<WorkId>)
      requires Valid()
      ensures forall i, j :: 0 <= i < j < |works| ==> ComesBefore(works[i], works[j])
      ensures forall w :: w in works <==> exists k :: 0 <= k < |added| && added[k].att.workId == w
    {
      works := [];
      var left := byWork.Keys;
      while left != {}
        invariant left <= byWork.Keys && NoRepeats(works)
        invariant forall w :: w in works <==> w in byWork && w !in left
      {
        var w: WorkId :| w in left;
        left := left - {w};
        works := works + [w];
      }
      var sorted := SortBy(works, WorkKey);
      SortedWorks(works, sorted);
      works := sorted;
      forall w
        ensures OfWork(added, w) != [] <==> exists k :: 0 <= k < |added| && added[k].att.workId == w
      {
        SomeOfWork(added, w);
      }
    }

    method Work(w: WorkId) returns (chain: Option<seq<Event>>)
      requires Valid()
      ensures chain == if OfWork(added, w) == [] then None else Some(OfWork(added, w))
    {
      chain := if w in byWork then Some(byWork[w]) else None;
    }
  }

  // ----- Links

  method ByHash(events: seq<Event>) returns (m: map<Hash, Event>)
    ensures m.Keys == Hashes(events)
  {
    m := map[];
    for i := 0 to |events|
      invariant m.Keys == Hashes(events[..i])
    {
      m := m[events[i].hash := events[i]];
      assert events[..i + 1] == events[..i] + [events[i]];
    }
    assert events[..|events|] == events;
  }

  method Links(events: seq<Event>) returns (roots: seq<Event>, childrenOf: map<Hash, seq<Event>>, dangling: seq<Event>)
    ensures roots == Roots(events) && dangling == Strays(events)
    ensures forall h :: h in childrenOf <==> Kids(events, h) != []
    ensures forall h :: h in childrenOf ==> childrenOf[h] == Kids(events, h)
  {
    var present := ByHash(events);
    roots, childrenOf, dangling := [], map[], [];
    for i := 0 to |events|
      invariant roots == At(events[..i], present.Keys, Root)
      invariant dangling == At(events[..i], present.Keys, Dangling)
      invariant forall h :: h in childrenOf <==> At(events[..i], present.Keys, ChildOf(h)) != []
      invariant forall h :: h in childrenOf ==> childrenOf[h] == At(events[..i], present.Keys, ChildOf(h))
    {
      forall place
        ensures At(events[..i + 1], present.Keys, place) == At(events[..i], present.Keys, place)
             + if PlaceOf(events[i], present.Keys) == place then [events[i]] else []
      {
        AtSnoc(events, present.Keys, place, i);
      }
      var e := events[i];
      if e.att.prevEventHash.None? {
        roots := roots + [e];
        continue;
      }
      var prev := e.att.prevEventHash.value;
      if prev !in present {
        dangling := dangling + [e];
        continue;
      }
      childrenOf := childrenOf[prev := (if prev in childrenOf then childrenOf[prev] else []) + [e]];
    }
    assert events[..|events|] == events;
  }
}
