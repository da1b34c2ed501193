/** internal/provenance/provenance.go: walking a chain from its root. */
module Lines {
  import opened Bytes
  import opened Crypto
  import opened Attestations
  import opened Order
  import opened Provenance
  import opened Histories

  /** Equal hashes mean equal attestations: no collision among these events. */
  ghost predicate Consistent(events: seq<Event>) {
    forall a, b :: a in events && b in events && a.hash == b.hash ==> a.att == b.att
  }

  /** A root, then events each of which refers back to the one before it. */
  ghost predicate Linked(line: seq<Event>) {
    && line != [] && line[0].Parent().None?
    && forall i :: 0 < i < |line| ==> line[i].Parent() == Some(line[i - 1].hash)
  }

  /** A linear order of the whole chain. */
  ghost predicate IsLine(events: seq<Event>, line: seq<Event>) {
    Linked(line) && multiset(line) == multiset(events)
  }

  lemma {:induction false} LinkedAreApart(line: seq<Event>, i: nat, j: nat)
    requires Linked(line) && Consistent(line) && i < j < |line|
    ensures line[i].hash != line[j].hash
  {
    if line[i].hash == line[j].hash {
      assert line[i] in line && line[j] in line;
      assert line[i].Parent() == line[j].Parent() == Some(line[j - 1].hash);
      if i > 0 {
        LinkedAreApart(line, i - 1, j - 1);
      }
    }
  }

  /** A line visits no event twice, so it is no longer than the chain. */
  lemma LinkedFits(events: seq<Event>, line: seq<Event>)
    requires Consistent(events) && Linked(line) && forall e :: e in line ==> e in events
    ensures multiset(line) <= multiset(events) && |line| <= |events|
    ensures DistinctHashes(line)
  {
    forall i, j | 0 <= i < j < |line|
      ensures line[i].hash != line[j].hash
    {
      LinkedAreApart(line, i, j);
    }
    DistinctFit(line, events);
  }

  /** The single-child links from the root up to, not including, the last event. */
  ghost predicate OnlyKids(events: seq<Event>, line: seq<Event>) {
    forall i :: 0 < i < |line| ==> Kids(events, line[i - 1].hash) == [line[i]]
  }

  /** Events each of which refers back to the one before, the first to the last. */
  ghost predicate IsCycle(events: seq<Event>, c: seq<Event>) {
    && c != [] && (forall e :: e in c ==> e in events)
    && c[0].Parent() == Some(c[|c| - 1].hash)
    && forall i :: 0 < i < |c| ==> c[i].Parent() == Some(c[i - 1].hash)
  }

  ghost predicate Acyclic(events: seq<Event>) {
    forall c :: !IsCycle(events, c)
  }

  // ----- A line means a linear chain without cycles

  lemma IndexOf<T>(xs: seq<T>, x: T) returns (i: nat)
    requires x in xs
    ensures i < |xs| && xs[i] == x
  {
    i :| 0 <= i < |xs| && xs[i] == x;
  }

  lemma FirstIsMember<T>(xs: seq<T>)
    requires xs != []
    ensures exists x :: x in xs
  {
    assert xs[0] in xs;
  }

  lemma LineFacts(events: seq<Event>, line: seq<Event>)
    requires Consistent(events) && IsLine(events, line)
    ensures DistinctHashes(line) && forall e :: e in line <==> e in events
  {
    MembersOfPermutation(events, line);
    LinkedFits(events, line);
  }

  lemma ParentFixesIndex(line: seq<Event>, a: nat, b: nat)
    requires Linked(line) && DistinctHashes(line) && a < |line| && b < |line|
    requires line[a].Parent() == line[b].Parent()
    ensures a == b
  {
    assert a > 0 ==> line[a].Parent() == Some(line[a - 1].hash);
    assert b > 0 ==> line[b].Parent() == Some(line[b - 1].hash);
  }

  lemma ParentIsBefore(line: seq<Event>, a: nat, b: nat)
    requires Linked(line) && DistinctHashes(line) && a < |line| && b < |line|
    requires line[a].Parent() == Some(line[b].hash)
    ensures a == b + 1
  {
    assert a > 0 ==> line[a].Parent() == Some(line[a - 1].hash);
  }

  lemma AtMostOneAt(events: seq<Event>, line: seq<Event>, place: Place)
    requires Consistent(events) && IsLine(events, line) && !place.Dangling?
    ensures |At(events, Hashes(events), place)| <= 1
  {
    LineFacts(events, line);
    AtMembers(events, Hashes(events), place);
    NoRepeatsAt(events, line, place);
    var here := At(events, Hashes(events), place);
    if |here| > 1 {
      assert here[0] in here && here[1] in here;
      SamePlaceSameEvent(line, Hashes(events), here[0], here[1]);
    }
  }

  lemma NoRepeatsAt(events: seq<Event>, line: seq<Event>, place: Place)
    requires DistinctHashes(line) && multiset(line) == multiset(events)
    ensures NoRepeats(At(events, Hashes(events), place))
  {
    var here := At(events, Hashes(events), place);
    forall i, j | 0 <= i < j < |here|
      ensures here[i] != here[j]
    {
      if here[i] == here[j] {
        TwiceInSeq(here, i, j);
        AtCounts(events, Hashes(events), place, here[i]);
        OnceInSeq(line, here[i]);
      }
    }
  }

  lemma SamePlaceSameEvent(line: seq<Event>, present: set<Hash>, a: Event, b: Event)
    requires Linked(line) && DistinctHashes(line) && a in line && b in line
    requires PlaceOf(a, present) == PlaceOf(b, present) && !PlaceOf(a, present).Dangling?
    ensures a == b
  {
    var i :| 0 <= i < |line| && line[i] == a;
    var j :| 0 <= j < |line| && line[j] == b;
    ParentFixesIndex(line, i, j);
  }

  lemma {:induction false} CycleClimbs(line: seq<Event>, c: seq<Event>, p: nat, i: nat)
    requires Linked(line) && DistinctHashes(line) && IsCycle(line, c)
    requires p < |line| && line[p] == c[0] && i < |c|
    ensures p + i < |line| && line[p + i].hash == c[i].hash
  {
    if i > 0 {
      CycleClimbs(line, c, p, i - 1);
      assert c[i] in line;
      var q := IndexOf(line, c[i]);
      ParentIsBefore(line, q, p + i - 1);
    }
  }

  lemma LineMeansLinear(events: seq<Event>, line: seq<Event>)
    requires Consistent(events) && IsLine(events, line)
    ensures Linear(events)
  {
    LineFacts(events, line);
    NothingDangles(events, line);
    AtMembers(events, Hashes(events), Root);
    AtMostOneAt(events, line, Root);
    assert line[0] in Roots(events);
    forall h
      ensures |Kids(events, h)| <= 1
    {
      AtMostOneAt(events, line, ChildOf(h));
    }
  }

  lemma NothingDangles(events: seq<Event>, line: seq<Event>)
    requires Linked(line) && forall e :: e in line <==> e in events
    ensures Strays(events) == []
  {
    AtMembers(events, Hashes(events), Dangling);
    forall e | e in events
      ensures !PlaceOf(e, Hashes(events)).Dangling?
    {
      var i := IndexOf(line, e);
      if i > 0 {
        assert line[i - 1] in events;
      }
    }
    if Strays(events) != [] {
      FirstIsMember(Strays(events));
    }
  }

  lemma LineMeansAcyclic(events: seq<Event>, line: seq<Event>)
    requires Consistent(events) && IsLine(events, line)
    ensures Acyclic(events)
  {
    LineFacts(events, line);
    forall c
      ensures !IsCycle(events, c)
    {
      if IsCycle(events, c) {
        assert c[0] in line && IsCycle(line, c);
        var p := IndexOf(line, c[0]);
        CycleClimbs(line, c, p, |c| - 1);
        ParentIsBefore(line, p, p + |c| - 1);
      }
    }
  }

  /** There is at most one linear order: two agree at each index. */
  lemma {:induction false} LineIsUnique(events: seq<Event>, a: seq<Event>, b: seq<Event>, i: nat)
    requires Consistent(events) && IsLine(events, a) && IsLine(events, b) && i < |a|
    ensures |a| == |b| && a[i] == b[i]
  {
    LineFacts(events, b);
    MembersOfPermutation(a, b);
    var q := IndexOf(b, a[i]);
    if i > 0 {
      LineIsUnique(events, a, b, i - 1);
      assert b[i].Parent() == a[i].Parent();
    }
    ParentFixesIndex(b, q, i);
  }

  // ----- A linear chain whose walk stops short has a cycle

  /** The walk from the only root stopped at `line`, because its last event has no child. */
  ghost predicate Stopped(events: seq<Event>, line: seq<Event>) {
    && Linear(events) && Consistent(events) && Linked(line) && OnlyKids(events, line)
    && (forall e :: e in line ==> e in events)
    && Kids(events, line[|line| - 1].hash) == []
  }

  ghost predicate OffTheLine(events: seq<Event>, line: seq<Event>, e: Event) {
    e in events && forall i :: 0 <= i < |line| ==> line[i].hash != e.hash
  }

  lemma AloneAt(events: seq<Event>, place: Place, e: Event, f: Event)
    requires |At(events, Hashes(events), place)| == 1 && f in At(events, Hashes(events), place)
    requires e in events && PlaceOf(e, Hashes(events)) == place
    ensures e == f && multiset(events)[e] == 1
  {
    AtMembers(events, Hashes(events), place);
    AtCounts(events, Hashes(events), place, e);
    var here := At(events, Hashes(events), place);
    assert here == [here[0]];
  }

  lemma OnTheLine(events: seq<Event>, line: seq<Event>, e: Event, i: nat)
    requires Stopped(events, line) && e in events && i < |line| && e.hash == line[i].hash
    ensures e == line[i] && multiset(events)[e] == 1
  {
    assert line[i] in events;
    assert e.Parent() == line[i].Parent();
    if i == 0 {
      AtMembers(events, Hashes(events), Root);
      AloneAt(events, Root, e, line[i]);
    } else {
      assert line[i - 1] in events;
      AloneAt(events, ChildOf(line[i - 1].hash), e, line[i]);
    }
  }

  lemma ParentOffTheLine(events: seq<Event>, line: seq<Event>, e: Event) returns (parent: Event)
    requires Stopped(events, line) && OffTheLine(events, line, e)
    ensures OffTheLine(events, line, parent) && e.Parent() == Some(parent.hash)
  {
    var place := PlaceOf(e, Hashes(events));
    AtMembers(events, Hashes(events), place);
    assert e in At(events, Hashes(events), place);
    if place == Root {
      assert line[0] in events;
      AloneAt(events, Root, e, line[0]);
    }
    parent :| parent in events && parent.hash == place.parent;
    forall i | 0 <= i < |line|
      ensures line[i].hash != parent.hash
    {
      assert i + 1 < |line| ==> Kids(events, line[i].hash) == [line[i + 1]];
    }
  }

  lemma {:induction false} ClimbOffTheLine(events: seq<Event>, line: seq<Event>, e: Event, n: nat) returns (path: seq<Event>)
    requires Stopped(events, line) && OffTheLine(events, line, e)
    ensures |path| == n + 1 && forall i :: 0 <= i < |path| ==> path[i] in events
    ensures OffTheLine(events, line, path[0])
    ensures forall i :: 0 < i < |path| ==> path[i].Parent() == Some(path[i - 1].hash)
  {
    if n == 0 {
      path := [e];
    } else {
      var rest := ClimbOffTheLine(events, line, e, n - 1);
      var parent := ParentOffTheLine(events, line, rest[0]);
      path := [parent] + rest;
    }
  }

  lemma LongPathHasCycle(events: seq<Event>, path: seq<Event>)
    requires |path| > |events| && forall i :: 0 <= i < |path| ==> path[i] in events
    requires forall i :: 0 < i < |path| ==> path[i].Parent() == Some(path[i - 1].hash)
    ensures !Acyclic(events)
  {
    if NoRepeats(path) {
      DistinctFit(path, events);
    }
    var i, j :| 0 <= i < j < |path| && path[i] == path[j];
    var c := path[i + 1..j + 1];
    assert forall k :: 0 <= k < |c| ==> c[k] == path[i + 1 + k];
    assert forall e :: e in c ==> e in events;
    assert c[0].Parent() == Some(path[i].hash) && c[|c| - 1] == path[j];
    assert IsCycle(events, c);
  }

  lemma SomeOffTheLine(events: seq<Event>, line: seq<Event>) returns (e: Event)
    requires Stopped(events, line) && |line| < |events|
    ensures OffTheLine(events, line, e)
  {
    if !exists x :: OffTheLine(events, line, x) {
      forall x
        ensures multiset(events)[x] <= multiset(line)[x]
      {
        if x in events {
          assert !OffTheLine(events, line, x);
          var i :| 0 <= i < |line| && line[i].hash == x.hash;
          OnTheLine(events, line, x, i);
          assert x in multiset(line);
        }
      }
      NoLongerThan(events, line);
    }
    e :| OffTheLine(events, line, e);
  }

  lemma NoLongerThan<T>(xs: seq<T>, ys: seq<T>)
    requires multiset(xs) <= multiset(ys)
    ensures |xs| <= |ys|
  {
    assert multiset(ys) == multiset(xs) + (multiset(ys) - multiset(xs));
    assert |multiset(ys)| == |multiset(xs)| + |multiset(ys) - multiset(xs)|;
  }

  lemma StoppingShortMeansCycle(events: seq<Event>, line: seq<Event>)
    requires Stopped(events, line) && |line| < |events|
    ensures !Acyclic(events)
  {
    var e := SomeOffTheLine(events, line);
    var path := ClimbOffTheLine(events, line, e, |events|);
    LongPathHasCycle(events, path);
  }

  /** Distinct elements filling a sequence are a permutation of it. */
  lemma FullFit(events: seq<Event>, line: seq<Event>)
    requires multiset(line) <= multiset(events) && |line| == |events|
    ensures multiset(line) == multiset(events)
  {
    var rest := multiset(events) - multiset(line);
    assert multiset(events) == multiset(line) + rest;
    assert |multiset(events)| == |multiset(line)| + |rest|;
  }

  /** A hash that tells one leaf from all others. */
  function Singling(leaf: Bytes, one: Hash, rest: Hash): Suite {
    Suite((b: Bytes) => if b == leaf then one else rest, _ => ZeroKey(), (_, _) => ZeroSignature(), (_, _, _) => true)
  }

  lemma DifferentLeaves(a: Attestation, b: Attestation)
    requires a.Fits() && b.Fits() && a != b
    ensures Marshalled(a) != Marshalled(b)
  {
    if Marshalled(a) == Marshalled(b) {
      assert Marshalled(a) + [] == Marshalled(b) + [];
      WiredIsPrefixFree(a, a.Flag(), b, b.Flag(), [], []);
    }
  }

  lemma SinglingHash(a: Attestation, b: Attestation, one: Hash, rest: Hash)
    requires a.Fits() && b.Fits() && a != b
    ensures LeafHash(Singling(Marshalled(a), one, rest), a) == one
    ensures LeafHash(Singling(Marshalled(a), one, rest), b) == rest
  {
    DifferentLeaves(a, b);
  }

  /** Being linear is not enough: under some hash there are a root and an event that is
      its own parent, each with the hash of its leaf. */
  lemma LinearWithoutALine() returns (c: Suite, events: seq<Event>)
    ensures forall e :: e in events ==> e.hash == LeafHash(c, e.att)
    ensures Consistent(events) && Linear(events)
    ensures forall line :: !IsLine(events, line)
  {
    var h: Hash := ZeroHash()[0 := 1];
    assert h[0] == 1 && ZeroHash()[0] == 0;
    var a := Attestation(0, ZeroWork(), 0, None, [], [], [], [], ZeroHash(), [], ZeroKey(), ZeroSignature(), 0, []);
    var b := a.(prevEventHash := Some(h));
    c := Singling(Marshalled(a), ZeroHash(), h);
    SinglingHash(a, b, ZeroHash(), h);
    events := RootBesideLoop(Event(a, ZeroHash(), 0), Event(b, h, 1));
  }

  lemma RootBesideLoop(root: Event, loop: Event) returns (events: seq<Event>)
    requires root.Parent().None? && loop.Parent() == Some(loop.hash) && root.hash != loop.hash
    ensures events == [root, loop] && Consistent(events) && Linear(events)
    ensures forall line :: !IsLine(events, line)
  {
    events := [root, loop];
    assert IsCycle(events, [loop]);
    assert forall e :: e in events <==> e == root || e == loop;
    LinearPair(events, root, loop);
    forall line
      ensures !IsLine(events, line)
    {
      if IsLine(events, line) {
        LineMeansAcyclic(events, line);
      }
    }
  }

  lemma LinearPair(events: seq<Event>, root: Event, loop: Event)
    requires events == [root, loop] && root.Parent().None? && loop.Parent() == Some(loop.hash)
    ensures Linear(events)
  {
    var present := Hashes(events);
    assert loop in events;
    assert loop.hash in present;
    forall place
      ensures At(events, present, place) == (if place == Root then [root] else []) + if place == ChildOf(loop.hash) then [loop] else []
    {
      assert events[..1] == [root] && events[..1][..0] == [];
      AtSnoc(events, present, place, 1);
      AtSnoc(events, present, place, 0);
      assert events[..2] == events;
    }
  }

  /** What the end of the walk decides. */
  lemma EndOfWalk(events: seq<Event>, line: seq<Event>)
    requires Consistent(events) && Linked(line) && OnlyKids(events, line)
    requires (forall e :: e in line ==> e in events) && Kids(events, line[|line| - 1].hash) == []
    ensures |line| == |events| ==> IsLine(events, line)
    ensures |line| == |events| <==> Linear(events) && Acyclic(events)
  {
    LinkedFits(events, line);
    if |line| == |events| {
      FullFit(events, line);
      LineMeansLinear(events, line);
      LineMeansAcyclic(events, line);
    } else if Linear(events) {
      StoppingShortMeansCycle(events, line);
    }
  }

  lemma OneFurther(events: seq<Event>, line: seq<Event>, next: Event)
    requires Linked(line) && OnlyKids(events, line) && forall e :: e in line ==> e in events
    requires Kids(events, line[|line| - 1].hash) == [next]
    ensures Linked(line + [next]) && OnlyKids(events, line + [next])
    ensures forall e :: e in line + [next] ==> e in events
  {
    AtMembers(events, Hashes(events), ChildOf(line[|line| - 1].hash));
    assert next in Kids(events, line[|line| - 1].hash);
  }

  method Linearize(events: seq<Event>) returns (r: Result<seq<Event>, ()>)
    requires Consistent(events)
    ensures r.Success? ==> IsLine(events, r.value)
    ensures r.Success? <==> Linear(events) && Acyclic(events)
  {
    var roots, childrenOf, dangling := Links(events);
    if |roots| != 1 || |dangling| != 0 {
      return Failure(());
    }
    var ordered := [];
    var cur := roots[0];
    AtMembers(events, Hashes(events), Root);
    while true
      invariant Linked(ordered + [cur]) && OnlyKids(events, ordered + [cur])
      invariant forall e :: e in ordered + [cur] ==> e in events
      decreases |events| - |ordered|
    {
      LinkedFits(events, ordered + [cur]);
      ordered := ordered + [cur];
      var kids := if cur.hash in childrenOf then childrenOf[cur.hash] else [];
      if |kids| == 0 {
        break;
      }
      if |kids| > 1 {
        return Failure(());
      }
      OneFurther(events, ordered, kids[0]);
      cur := kids[0];
    }
    EndOfWalk(events, ordered);
    if |ordered| != |events| {
      return Failure(());
    }
    return Success(ordered);
  }
}
