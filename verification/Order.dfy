/** Byte-lexicographic order, and sorting by a byte-string key. The program calls
    a library sort that promises a sorted permutation and no more. */
module Order {

  predicate Less(a: seq<int>, b: seq<int>) {
    if b == [] then false
    else if a == [] then true
    else if a[0] != b[0] then a[0] < b[0]
    else Less(a[1..], b[1..])
  }

  lemma {:induction false} LessIsTotal(a: seq<int>, b: seq<int>)
    ensures a == b || Less(a, b) || Less(b, a)
    ensures !(Less(a, b) && Less(b, a))
    ensures Less(a, b) || Less(b, a) ==> a != b
  {
    if a != [] && b != [] {
      LessIsTotal(a[1..], b[1..]);
      assert a == [a[0]] + a[1..] && b == [b[0]] + b[1..];
    }
  }

  lemma {:induction false} LessIsTransitive(a: seq<int>, b: seq<int>, c: seq<int>)
    requires Less(a, b) && !Less(c, b)
    ensures Less(a, c)
  {
    if a != [] && c != [] && a[0] == b[0] == c[0] {
      LessIsTransitive(a[1..], b[1..], c[1..]);
    }
  }

  /** The two agree up to k, where a ends or is smaller. */
  predicate DiffersAt(a: seq<int>, b: seq<int>, k: nat) {
    k <= |a| && k < |b| && a[..k] == b[..k] && (k == |a| || a[k] < b[k])
  }

  /** a is a proper beginning of b, or smaller at the first place where they differ. */
  ghost predicate ComesBefore(a: seq<int>, b: seq<int>) {
    exists k: nat :: DiffersAt(a, b, k)
  }

  lemma ComesBeforeInRest(a: seq<int>, b: seq<int>)
    requires ComesBefore(a, b) && a != []
    ensures b != [] && (a[0] < b[0] || (a[0] == b[0] && ComesBefore(a[1..], b[1..])))
  {
    var k: nat :| DiffersAt(a, b, k);
    if k > 0 {
      assert a[0] == a[..k][0] == b[..k][0] == b[0];
      assert a[1..][..k - 1] == a[..k][1..] == b[..k][1..] == b[1..][..k - 1];
      assert DiffersAt(a[1..], b[1..], k - 1);
    }
  }

  lemma ComesBeforeFromRest(a: seq<int>, b: seq<int>)
    requires a != [] && b != [] && a[0] == b[0] && ComesBefore(a[1..], b[1..])
    ensures ComesBefore(a, b)
  {
    var k: nat :| DiffersAt(a[1..], b[1..], k);
    assert a[..k + 1] == [a[0]] + a[1..][..k] && b[..k + 1] == [b[0]] + b[1..][..k];
    assert DiffersAt(a, b, k + 1);
  }

  /** The comparison is the lexicographic order. */
  lemma {:induction false} LessIsLexicographic(a: seq<int>, b: seq<int>)
    ensures Less(a, b) <==> ComesBefore(a, b)
  {
    if ComesBefore(a, b) && a != [] {
      ComesBeforeInRest(a, b);
    }
    if b != [] && (a == [] || a[0] < b[0]) {
      assert DiffersAt(a, b, 0);
    } else if a != [] && b != [] && a[0] == b[0] {
      LessIsLexicographic(a[1..], b[1..]);
      if ComesBefore(a[1..], b[1..]) {
        ComesBeforeFromRest(a, b);
      }
    }
  }

  ghost predicate Sorted<T>(xs: seq<T>, key: T -> seq<int>) {
    forall i, j :: 0 <= i < j < |xs| ==> !Less(key(xs[j]), key(xs[i]))
  }

  /** No two different elements share a key. */
  ghost predicate KeysIdentify<T>(xs: seq<T>, key: T -> seq<int>) {
    forall i, j :: 0 <= i < |xs| && 0 <= j < |xs| && key(xs[i]) == key(xs[j]) ==> xs[i] == xs[j]
  }

  lemma InFront<T>(x: T, xs: seq<T>, key: T -> seq<int>)
    requires Sorted(xs, key) && (xs != [] ==> !Less(key(xs[0]), key(x)))
    ensures Sorted([x] + xs, key)
  {
    forall j | 0 <= j < |xs|
      ensures !Less(key(xs[j]), key(x))
    {
      LessIsTotal(key(xs[0]), key(xs[j]));
      if Less(key(xs[j]), key(x)) {
        LessIsTransitive(key(xs[j]), key(x), key(xs[0]));
      }
    }
  }

  function Insert<T>(x: T, xs: seq<T>, key: T -> seq<int>): (r: seq<T>)
    requires Sorted(xs, key)
    ensures multiset(r) == multiset(xs) + multiset{x} && Sorted(r, key)
    ensures r != [] && (r[0] == x || (xs != [] && r[0] == xs[0]))
  {
    if xs == [] then [x]
    else if Less(key(x), key(xs[0])) then
      LessIsTotal(key(x), key(xs[0]));
      InFront(x, xs, key);
      [x] + xs
    else
      var tail := Insert(x, xs[1..], key);
      assert xs == [xs[0]] + xs[1..];
      InFront(xs[0], tail, key);
      [xs[0]] + tail
  }

  function SortBy<T>(xs: seq<T>, key: T -> seq<int>): (r: seq<T>)
    ensures multiset(r) == multiset(xs) && Sorted(r, key)
  {
    if xs == [] then [] else
      assert xs == [xs[0]] + xs[1..];
      Insert(xs[0], SortBy(xs[1..], key), key)
  }

  lemma SameHead<T>(xs: seq<T>, ys: seq<T>, key: T -> seq<int>)
    requires multiset(xs) == multiset(ys) && xs != []
    requires Sorted(xs, key) && Sorted(ys, key) && KeysIdentify(xs, key)
    ensures ys != [] && xs[0] == ys[0]
  {
    assert xs[0] in multiset(ys);
    assert ys[0] in multiset(xs);
    var j :| 0 <= j < |ys| && ys[j] == xs[0];
    var i :| 0 <= i < |xs| && xs[i] == ys[0];
    LessIsTotal(key(xs[0]), key(ys[0]));
  }

  /** A permutation sorted by an identifying key is unique, so the order in which
      the elements arrived cannot matter. */
  lemma {:induction false} SortedIsUnique<T>(xs: seq<T>, ys: seq<T>, key: T -> seq<int>)
    requires multiset(xs) == multiset(ys)
    requires Sorted(xs, key) && Sorted(ys, key) && KeysIdentify(xs, key)
    ensures xs == ys
  {
    if xs == [] {
      assert |ys| == |multiset(ys)|;
    } else {
      SameHead(xs, ys, key);
      SameTail(xs, ys);
      SortedIsUnique(xs[1..], ys[1..], key);
    }
  }

  lemma SameTail<T>(xs: seq<T>, ys: seq<T>)
    requires multiset(xs) == multiset(ys) && xs != [] && ys != [] && xs[0] == ys[0]
    ensures multiset(xs[1..]) == multiset(ys[1..])
    ensures xs[1..] == ys[1..] ==> xs == ys
  {
    assert xs == [xs[0]] + xs[1..] && ys == [ys[0]] + ys[1..];
    assert multiset(xs[1..]) == multiset(xs) - multiset{xs[0]} == multiset(ys[1..]);
  }

  // ----- Distinct elements

  ghost predicate NoRepeats<T>(xs: seq<T>) {
    forall i, j :: 0 <= i < j < |xs| ==> xs[i] != xs[j]
  }

  lemma TwiceInSeq<T>(xs: seq<T>, i: nat, j: nat)
    requires i < j < |xs| && xs[i] == xs[j]
    ensures multiset(xs)[xs[i]] >= 2
  {
    assert xs == xs[..j] + ([xs[j]] + xs[j + 1..]);
    assert xs[i] in xs[..j];
    assert multiset(xs) == multiset(xs[..j]) + multiset{xs[j]} + multiset(xs[j + 1..]);
  }

  lemma {:induction false} OnceInSeq<T>(xs: seq<T>, x: T)
    requires NoRepeats(xs)
    ensures multiset(xs)[x] <= 1
  {
    if xs != [] {
      var n := |xs| - 1;
      OnceInSeq(xs[..n], x);
      assert xs == xs[..n] + [xs[n]];
      assert xs[n] !in xs[..n];
    }
  }

  lemma MembersOfPermutation<T>(xs: seq<T>, ys: seq<T>)
    requires multiset(xs) == multiset(ys)
    ensures |xs| == |ys| && forall x :: x in ys <==> x in xs
  {
    assert |xs| == |multiset(xs)|;
    assert |ys| == |multiset(ys)|;
    assert forall x :: x in xs <==> x in multiset(xs);
    assert forall x :: x in ys <==> x in multiset(ys);
  }

  lemma DistinctKeysStay<T>(xs: seq<T>, ys: seq<T>, key: T -> seq<int>)
    requires multiset(xs) == multiset(ys)
    requires forall i, j :: 0 <= i < j < |xs| ==> key(xs[i]) != key(xs[j])
    ensures forall i, j :: 0 <= i < j < |ys| ==> key(ys[i]) != key(ys[j])
  {
    MembersOfPermutation(xs, ys);
    forall i, j | 0 <= i < j < |ys|
      ensures key(ys[i]) != key(ys[j])
    {
      if ys[i] == ys[j] {
        TwiceInSeq(ys, i, j);
        assert NoRepeats(xs);
        OnceInSeq(xs, ys[i]);
      } else {
        assert ys[i] in xs && ys[j] in xs;
        var a :| 0 <= a < |xs| && xs[a] == ys[i];
        var b :| 0 <= b < |xs| && xs[b] == ys[j];
      }
    }
  }

  /** Elements with distinct keys are strictly increasing once sorted. */
  lemma SortedStrictly<T>(xs: seq<T>, ys: seq<T>, key: T -> seq<int>)
    requires multiset(xs) == multiset(ys) && Sorted(ys, key)
    requires forall i, j :: 0 <= i < j < |xs| ==> key(xs[i]) != key(xs[j])
    ensures forall i, j :: 0 <= i < j < |ys| ==> Less(key(ys[i]), key(ys[j]))
    ensures forall x :: x in ys <==> x in xs
  {
    MembersOfPermutation(xs, ys);
    DistinctKeysStay(xs, ys, key);
    forall i, j | 0 <= i < j < |ys|
      ensures Less(key(ys[i]), key(ys[j]))
    {
      LessIsTotal(key(ys[i]), key(ys[j]));
    }
  }

  /** A strictly increasing sequence is determined by its members. */
  lemma StrictlySortedIsUnique<T>(xs: seq<T>, ys: seq<T>, key: T -> seq<int>)
    requires forall i, j :: 0 <= i < j < |xs| ==> Less(key(xs[i]), key(xs[j]))
    requires forall i, j :: 0 <= i < j < |ys| ==> Less(key(ys[i]), key(ys[j]))
    requires forall x :: x in xs <==> x in ys
    ensures xs == ys
  {
    StrictIsDistinct(xs, key);
    StrictIsDistinct(ys, key);
    forall x
      ensures multiset(xs)[x] == multiset(ys)[x]
    {
      OnceInSeq(xs, x);
      OnceInSeq(ys, x);
      assert x in xs <==> multiset(xs)[x] > 0;
      assert x in ys <==> multiset(ys)[x] > 0;
    }
    SortedIsUnique(xs, ys, key);
  }

  lemma StrictIsDistinct<T>(xs: seq<T>, key: T -> seq<int>)
    requires forall i, j :: 0 <= i < j < |xs| ==> Less(key(xs[i]), key(xs[j]))
    ensures NoRepeats(xs) && Sorted(xs, key) && KeysIdentify(xs, key)
  {
    forall i, j | 0 <= i < j < |xs|
      ensures key(xs[i]) != key(xs[j]) && !Less(key(xs[j]), key(xs[i]))
    {
      LessIsTotal(key(xs[i]), key(xs[j]));
    }
  }

  /** Distinct elements of a sequence are at most as many as it has. */
  lemma DistinctFit<T>(xs: seq<T>, ys: seq<T>)
    requires NoRepeats(xs) && forall x :: x in xs ==> x in ys
    ensures multiset(xs) <= multiset(ys) && |xs| <= |ys|
  {
    forall x
      ensures multiset(xs)[x] <= multiset(ys)[x]
    {
      OnceInSeq(xs, x);
      if x in xs {
        assert x in multiset(ys);
      }
    }
    assert multiset(ys) == multiset(xs) + (multiset(ys) - multiset(xs));
    assert |multiset(ys)| == |multiset(xs)| + |multiset(ys) - multiset(xs)|;
  }
}
