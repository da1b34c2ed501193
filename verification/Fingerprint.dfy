/** pkg/fuzzy: what the 64-bit digests share. Features vote on 64 lanes, the lanes'
    signs make a fingerprint, and fingerprints are compared by Hamming distance. */
module Fingerprints {
  import opened Bytes

  // ----- Bits

  function Pow2(n: nat): (p: nat)
    ensures p > 0
  {
    if n == 0 then 1 else 2 * Pow2(n - 1)
  }

  /** Whether bit `i`, counted from the least significant, is set. */
  predicate Bit(x: nat, i: nat) {
    if i == 0 then x % 2 == 1 else Bit(x / 2, i - 1)
  }

  function Unpack(n: nat, x: nat): (bits: seq<bool>)
    ensures |bits| == n
  {
    seq(n, i requires 0 <= i < n => Bit(x, i))
  }

  /** The number with these bits, least significant first. */
  function Pack(bits: seq<bool>): (x: nat)
    ensures x < Pow2(|bits|)
  {
    if bits == [] then 0 else 2 * Pack(bits[1..]) + if bits[0] then 1 else 0
  }

  /** Setting a bit above all others adds its weight. */
  lemma {:induction false} PackSnoc(bits: seq<bool>, b: bool)
    ensures Pack(bits + [b]) == Pack(bits) + if b then Pow2(|bits|) else 0
  {
    if bits != [] {
      PackSnoc(bits[1..], b);
      assert (bits + [b])[1..] == bits[1..] + [b];
    }
  }

  lemma {:induction false} PackedBit(bits: seq<bool>, i: nat)
    requires i < |bits|
    ensures Bit(Pack(bits), i) == bits[i]
  {
    assert Pack(bits) / 2 == Pack(bits[1..]);
    if i > 0 {
      PackedBit(bits[1..], i - 1);
    }
  }

  lemma UnpackPack(bits: seq<bool>)
    ensures Unpack(|bits|, Pack(bits)) == bits
  {
    forall i | 0 <= i < |bits|
      ensures Unpack(|bits|, Pack(bits))[i] == bits[i]
    {
      PackedBit(bits, i);
    }
  }

  lemma {:induction false} PackUnpack(n: nat, x: nat)
    requires x < Pow2(n)
    ensures Pack(Unpack(n, x)) == x
  {
    if n > 0 {
      PackUnpack(n - 1, x / 2);
      assert Unpack(n, x)[1..] == Unpack(n - 1, x / 2);
    }
  }

  lemma EightMore(n: nat)
    ensures Pow2(n + 8) == 256 * Pow2(n)
  {
    assert Pow2(n + 3) == 2 * Pow2(n + 2) == 4 * Pow2(n + 1) == 8 * Pow2(n);
    assert Pow2(n + 6) == 2 * Pow2(n + 5) == 4 * Pow2(n + 4) == 8 * Pow2(n + 3);
    assert Pow2(n + 8) == 2 * Pow2(n + 7) == 4 * Pow2(n + 6);
  }

  lemma Pow2Of64()
    ensures Pow2(64) == TWO64
  {
    EightMore(0);
    EightMore(8);
    EightMore(16);
    EightMore(24);
    EightMore(32);
    EightMore(40);
    EightMore(48);
    EightMore(56);
  }

  /** A bit is what is left of the number when it is divided by the bit's weight. */
  lemma {:induction false} BitIsWeight(x: nat, i: nat)
    ensures Bit(x, i) <==> x / Pow2(i) % 2 == 1
  {
    if i > 0 {
      BitIsWeight(x / 2, i - 1);
      DivideTwice(x, 2, Pow2(i - 1));
    }
  }

  lemma HalveSum(x: nat, y: nat, p: nat)
    ensures (x * (2 * p) + y) / 2 == x * p + y / 2 && (x * (2 * p) + y) % 2 == y % 2
  {
    assert x * (2 * p) == 2 * (x * p);
  }

  lemma {:induction false} BitOfSum(x: nat, y: nat, n: nat, i: nat)
    requires y < Pow2(n)
    ensures Bit(x * Pow2(n) + y, i) == if i < n then Bit(y, i) else Bit(x, i - n)
  {
    if n > 0 {
      HalveSum(x, y, Pow2(n - 1));
      if i > 0 {
        BitOfSum(x, y / 2, n - 1, i - 1);
      }
    }
  }

  /** The lowest eight bits of a big-endian number are in its last byte, and so on. */
  lemma {:induction false} BitOfByte(d: Bytes, i: nat)
    requires i < 8 * |d|
    ensures Bit(FromBigEndian(d), i) == Bit(d[|d| - 1 - i / 8], i % 8)
  {
    var n := |d| - 1;
    EightMore(0);
    BitOfSum(FromBigEndian(d[..n]), d[n], 8, i);
    if i >= 8 {
      BitOfByte(d[..n], i - 8);
    }
  }

  lemma {:induction false} ComplementFlips(x: nat, n: nat, i: nat)
    requires x < Pow2(n) && i < n
    ensures Bit(Pow2(n) - 1 - x, i) != Bit(x, i)
  {
    if i > 0 {
      assert (Pow2(n) - 1 - x) / 2 == Pow2(n - 1) - 1 - x / 2;
      ComplementFlips(x / 2, n - 1, i - 1);
    }
  }

  // ----- Hamming distance

  function Hamming(a: seq<bool>, b: seq<bool>): (d: nat)
    requires |a| == |b|
    ensures d <= |a|
  {
    if a == [] then 0
    else
      var n := |a| - 1;
      Hamming(a[..n], b[..n]) + if a[n] != b[n] then 1 else 0
  }

  /** The distance is the number of places where the two differ. */
  lemma {:induction false} HammingCounts(a: seq<bool>, b: seq<bool>)
    requires |a| == |b|
    ensures Hamming(a, b) == |set i | 0 <= i < |a| && a[i] != b[i]|
  {
    var all := set i | 0 <= i < |a| && a[i] != b[i];
    if a == [] {
      assert all == {};
    } else {
      var n := |a| - 1;
      HammingCounts(a[..n], b[..n]);
      var before := set i | 0 <= i < n && a[..n][i] != b[..n][i];
      assert all == before + if a[n] != b[n] then {n} else {};
    }
  }

  lemma {:induction false} HammingTriangle(a: seq<bool>, b: seq<bool>, c: seq<bool>)
    requires |a| == |b| == |c|
    ensures Hamming(a, c) <= Hamming(a, b) + Hamming(b, c) && Hamming(a, b) == Hamming(b, a)
  {
    if a != [] {
      HammingTriangle(a[..|a| - 1], b[..|a| - 1], c[..|a| - 1]);
    }
  }

  lemma {:induction false} HammingOfSame(a: seq<bool>)
    ensures Hamming(a, a) == 0
  {
    if a != [] {
      HammingOfSame(a[..|a| - 1]);
    }
  }

  lemma ZeroMeansSame(a: seq<bool>, b: seq<bool>)
    requires |a| == |b| && Hamming(a, b) == 0
    ensures a == b
  {
    HammingCounts(a, b);
    forall i | 0 <= i < |a|
      ensures a[i] == b[i]
    {
      assert i !in set j | 0 <= j < |a| && a[j] != b[j];
    }
  }

  lemma HammingIsAMetric(a: seq<bool>, b: seq<bool>, c: seq<bool>)
    requires |a| == |b| == |c|
    ensures Hamming(a, b) == 0 <==> a == b
    ensures Hamming(a, b) == Hamming(b, a)
    ensures Hamming(a, c) <= Hamming(a, b) + Hamming(b, c)
  {
    HammingTriangle(a, b, c);
    HammingOfSame(a);
    if Hamming(a, b) == 0 {
      ZeroMeansSame(a, b);
    }
  }

  type Digest = d: Bytes | |d| == 8 witness [0, 0, 0, 0, 0, 0, 0, 0]

  datatype DistanceError = DigestLength

  /** The 64 lanes of a digest, least significant first. */
  function Lanes(d: Bytes): (lanes: seq<bool>)
    ensures |lanes| == 64
  {
    Unpack(64, FromBigEndian(d))
  }

  /** The digest with these lanes. */
  function FromLanes(lanes: seq<bool>): (d: Digest)
    requires |lanes| == 64
  {
    BigEndian(8, Pack(lanes))
  }

  lemma LanesRoundTrip(lanes: seq<bool>)
    requires |lanes| == 64
    ensures Lanes(FromLanes(lanes)) == lanes
  {
    WordSizes();
    Pow2Of64();
    BigEndianDecodes(8, Pack(lanes));
    UnpackPack(lanes);
  }

  lemma DigestRoundTrip(d: Digest)
    ensures FromLanes(Lanes(d)) == d
  {
    WordSizes();
    Pow2Of64();
    PackUnpack(64, FromBigEndian(d));
    BigEndianEncodes(d);
  }

  /** Bit i of a digest, by its weight; its last byte holds the lowest eight. */
  predicate BitSet(d: Digest, i: nat)
    requires i < 64
  {
    d[7 - i / 8] / Pow2(i % 8) % 2 == 1
  }

  function DifferingBits(a: Digest, b: Digest): set<nat> {
    set i: nat | i < 64 && BitSet(a, i) != BitSet(b, i)
  }

  lemma LaneIsBit(d: Digest, i: nat)
    requires i < 64
    ensures Lanes(d)[i] <==> BitSet(d, i)
  {
    BitOfByte(d, i);
    BitIsWeight(d[7 - i / 8], i % 8);
  }

  /** The differing bits, out of 64; only 8-byte digests are compared. */
  function Distance(a: Bytes, b: Bytes): Result<real, DistanceError> {
    if |a| != 8 || |b| != 8 then Failure(DigestLength)
    else Success(Hamming(Lanes(a), Lanes(b)) as real / 64.0)
  }

  lemma LanesDiffer(a: Digest, b: Digest)
    ensures Hamming(Lanes(a), Lanes(b)) == |DifferingBits(a, b)|
  {
    HammingCounts(Lanes(a), Lanes(b));
    forall i: nat | i < 64
      ensures (Lanes(a)[i] <==> BitSet(a, i)) && (Lanes(b)[i] <==> BitSet(b, i))
    {
      LaneIsBit(a, i);
      LaneIsBit(b, i);
    }
    assert DifferingBits(a, b) == set i | 0 <= i < |Lanes(a)| && Lanes(a)[i] != Lanes(b)[i];
  }

  /** The distance counts the bits in which two digests differ. */
  lemma DistanceCounts(a: Bytes, b: Bytes)
    ensures if |a| == |b| == 8 then Distance(a, b) == Success(|DifferingBits(a, b)| as real / 64.0)
            else Distance(a, b) == Failure(DigestLength)
  {
    if |a| == |b| == 8 {
      LanesDiffer(a, b);
    }
  }

  /** On digests the distance is a metric, at most 1. */
  lemma DistanceIsAMetric(a: Digest, b: Digest, c: Digest)
    ensures Distance(a, b).Success? && Distance(b, c).Success? && Distance(a, c).Success?
    ensures Distance(a, b).value == 0.0 <==> a == b
    ensures Distance(a, b) == Distance(b, a)
    ensures Distance(a, c).value <= Distance(a, b).value + Distance(b, c).value
    ensures 0.0 <= Distance(a, b).value <= 1.0
  {
    HammingIsAMetric(Lanes(a), Lanes(b), Lanes(c));
    DigestRoundTrip(a);
    DigestRoundTrip(b);
  }

  /** Flipping one bit moves every distance by exactly 1/64: up if the two agreed
      there, and down if they did not. */
  lemma OneBitMovesTheDistance(a: Digest, b: Digest, flipped: Digest, bit: nat)
    requires bit < 64 && DifferingBits(b, flipped) == {bit}
    ensures Distance(a, b).Success? && Distance(a, flipped).Success?
    ensures Distance(a, flipped).value ==
      Distance(a, b).value + (if BitSet(a, bit) == BitSet(b, bit) then 1.0 else -1.0) / 64.0
  {
    DistanceCounts(a, b);
    DistanceCounts(a, flipped);
    Flipped(a, b, flipped, bit);
  }

  lemma Flipped(a: Digest, b: Digest, flipped: Digest, bit: nat)
    requires bit < 64 && DifferingBits(b, flipped) == {bit}
    ensures if BitSet(a, bit) == BitSet(b, bit) then bit !in DifferingBits(a, b) && DifferingBits(a, flipped) == DifferingBits(a, b) + {bit}
            else bit !in DifferingBits(a, flipped) && DifferingBits(a, b) == DifferingBits(a, flipped) + {bit}
  {
    forall i: nat | i < 64
      ensures BitSet(b, i) != BitSet(flipped, i) <==> i == bit
    {
      assert i in DifferingBits(b, flipped) <==> i == bit;
    }
  }

  lemma {:induction false} AllDiffer(a: seq<bool>, b: seq<bool>)
    requires |a| == |b| && forall i :: 0 <= i < |a| ==> a[i] != b[i]
    ensures Hamming(a, b) == |a|
  {
    if a != [] {
      AllDiffer(a[..|a| - 1], b[..|a| - 1]);
    }
  }

  /** A digest and its complement are as far apart as digests can be. */
  lemma ComplementIsFarthest(a: Digest, b: Digest)
    requires forall k :: 0 <= k < 8 ==> b[k] == 255 - a[k]
    ensures Distance(a, b) == Success(1.0)
  {
    EightMore(0);
    forall i | 0 <= i < 64
      ensures Lanes(a)[i] != Lanes(b)[i]
    {
      BitOfByte(a, i);
      BitOfByte(b, i);
      ComplementFlips(a[7 - i / 8], 8, i % 8);
    }
    AllDiffer(Lanes(a), Lanes(b));
  }

  const TEXT_THRESHOLD: real := 0.15
  const IMAGE_THRESHOLD: real := 0.1875

  /** The verifier's decision for a media digest and the digest in a leaf. */
  predicate Matches(digest: Bytes, recorded: Bytes, threshold: real) {
    Distance(digest, recorded).Success? && Distance(digest, recorded).value <= threshold
  }

  /** The text threshold allows nine differing bits, the image threshold twelve. */
  lemma ThresholdsInBits(a: Digest, b: Digest)
    ensures Matches(a, b, TEXT_THRESHOLD) <==> |DifferingBits(a, b)| <= 9
    ensures Matches(a, b, IMAGE_THRESHOLD) <==> |DifferingBits(a, b)| <= 12
  {
    DistanceCounts(a, b);
  }

  /** Two digests that match one leaf are close to each other. */
  lemma MatchesAreClose(a: Bytes, b: Bytes, recorded: Bytes)
    ensures Matches(a, recorded, TEXT_THRESHOLD) && Matches(b, recorded, TEXT_THRESHOLD) ==>
      |a| == |b| == 8 && |DifferingBits(a, b)| <= 18
    ensures Matches(a, recorded, IMAGE_THRESHOLD) && Matches(b, recorded, IMAGE_THRESHOLD) ==>
      |a| == |b| == 8 && |DifferingBits(a, b)| <= 24
  {
    if |a| == |b| == |recorded| == 8 {
      DifferingBitsAreClose(a, recorded, b);
      ThresholdsInBits(a, recorded);
      ThresholdsInBits(b, recorded);
    }
  }

  lemma DifferingBitsAreClose(a: Digest, b: Digest, c: Digest)
    ensures |DifferingBits(a, c)| <= |DifferingBits(a, b)| + |DifferingBits(c, b)|
  {
    HammingIsAMetric(Lanes(a), Lanes(b), Lanes(c));
    HammingIsAMetric(Lanes(c), Lanes(b), Lanes(a));
    LanesDiffer(a, b);
    LanesDiffer(c, b);
    LanesDiffer(a, c);
  }

  // ----- Votes

  /** A feature's vote on a lane. */
  function Vote(feature: U64, lane: nat): int {
    if Bit(feature, lane) then 1 else -1
  }

  function Tally(features: seq<U64>, lane: nat): (sum: int)
    ensures -|features| <= sum <= |features|
  {
    if features == [] then 0 else Vote(features[0], lane) + Tally(features[1..], lane)
  }

  /** A lane is set when the features voting for it outnumber the others. */
  function Elected(features: seq<U64>): (lanes: seq<bool>)
    ensures |lanes| == 64
  {
    seq(64, lane requires 0 <= lane < 64 => Tally(features, lane) > 0)
  }

  /** The SimHash of a sequence of features. */
  function SimHash(features: seq<U64>): Digest {
    FromLanes(Elected(features))
  }

  /** The features with a one in a lane, by position. */
  function Ones(features: seq<U64>, lane: nat): set<nat> {
    set k: nat | k < |features| && features[k] / Pow2(lane) % 2 == 1
  }

  lemma {:induction false} TallyCounts(features: seq<U64>, lane: nat)
    ensures Tally(features, lane) == 2 * |Ones(features, lane)| - |features|
  {
    if features == [] {
      assert Ones(features, lane) == {};
    } else {
      var n := |features| - 1;
      TallyCounts(features[..n], lane);
      TallyJoins(features[..n], [features[n]], lane);
      assert features == features[..n] + [features[n]];
      OnesOfMore(features, lane);
    }
  }

  lemma OnesOfMore(features: seq<U64>, lane: nat)
    requires features != []
    ensures var n := |features| - 1;
      n !in Ones(features[..n], lane) && Ones(features, lane) == Ones(features[..n], lane) + if Bit(features[n], lane) then {n} else {}
  {
    BitIsWeight(features[|features| - 1], lane);
  }

  /** A bit of the digest is set exactly when more than half of the features have it. */
  lemma MajorityRules(features: seq<U64>, i: nat)
    requires i < 64
    ensures BitSet(SimHash(features), i) <==> 2 * |Ones(features, i)| > |features|
  {
    LaneIsBit(SimHash(features), i);
    LanesRoundTrip(Elected(features));
    TallyCounts(features, i);
  }

  lemma SameBits(a: Digest, b: Digest)
    requires forall i: nat :: i < 64 ==> BitSet(a, i) == BitSet(b, i)
    ensures a == b
  {
    forall i | 0 <= i < 64
      ensures Lanes(a)[i] == Lanes(b)[i]
    {
      LaneIsBit(a, i);
      LaneIsBit(b, i);
    }
    DigestRoundTrip(a);
    DigestRoundTrip(b);
    assert Lanes(a) == Lanes(b);
  }

  /** The bits of a digest read as a number are the number's. */
  lemma BitOfNumber(d: Digest, i: nat)
    requires i < 64
    ensures FromBigEndian(d) / Pow2(i) % 2 == 1 <==> BitSet(d, i)
  {
    LaneIsBit(d, i);
    BitIsWeight(FromBigEndian(d), i);
  }

  function CountSet(bits: seq<bool>): (n: nat)
    ensures n <= |bits|
  {
    if bits == [] then 0 else CountSet(bits[1..]) + if bits[0] then 1 else 0
  }

  lemma {:induction false} CountSetSnoc(bits: seq<bool>, b: bool)
    ensures CountSet(bits + [b]) == CountSet(bits) + if b then 1 else 0
  {
    if bits != [] {
      CountSetSnoc(bits[1..], b);
      assert (bits + [b])[1..] == bits[1..] + [b];
    }
  }

  function SetLanes(bits: seq<bool>): set<nat> {
    set i: nat | i < |bits| && bits[i]
  }

  /** The number of lanes set. */
  lemma {:induction false} CountSetCounts(bits: seq<bool>)
    ensures CountSet(bits) == |SetLanes(bits)|
  {
    if bits != [] {
      var n := |bits| - 1;
      CountSetCounts(bits[..n]);
      CountSetSnoc(bits[..n], bits[n]);
      assert bits == bits[..n] + [bits[n]];
      assert SetLanes(bits) == SetLanes(bits[..n]) + if bits[n] then {n} else {};
    }
  }

  /** The bits set in a digest. */
  function SetBits(d: Digest): set<nat> {
    set i: nat | i < 64 && BitSet(d, i)
  }

  lemma SetBitsAreCounted(d: Digest)
    ensures |SetBits(d)| == CountSet(Lanes(d)) && |SetBits(d) - {0}| == CountSet(Lanes(d)[1..])
  {
    CountSetCounts(Lanes(d));
    forall i: nat | i < 64
      ensures Lanes(d)[i] <==> BitSet(d, i)
    {
      LaneIsBit(d, i);
    }
    assert SetLanes(Lanes(d)) == SetBits(d);
  }

  lemma {:induction false} TallyJoins(a: seq<U64>, b: seq<U64>, lane: nat)
    ensures Tally(a + b, lane) == Tally(a, lane) + Tally(b, lane)
  {
    if a == [] {
      assert a + b == b;
    } else {
      TallyJoins(a[1..], b, lane);
      assert (a + b)[1..] == a[1..] + b;
    }
  }

  lemma TallyWithout(b: seq<U64>, i: nat, lane: nat)
    requires i < |b|
    ensures Tally(b, lane) == Vote(b[i], lane) + Tally(b[..i] + b[i + 1..], lane)
  {
    var rest := [b[i]] + b[i + 1..];
    assert b == b[..i] + rest && rest[1..] == b[i + 1..];
    TallyJoins(b[..i], b[i + 1..], lane);
    TallyJoins(b[..i], rest, lane);
  }

  lemma MultisetWithout<T>(b: seq<T>, i: nat)
    requires i < |b|
    ensures multiset(b) == multiset{b[i]} + multiset(b[..i] + b[i + 1..])
  {
    assert b == b[..i] + ([b[i]] + b[i + 1..]);
  }

  lemma Cancel<T>(x: T, p: multiset<T>, q: multiset<T>)
    requires multiset{x} + p == multiset{x} + q
    ensures p == q
  {
    assert p == (multiset{x} + p) - multiset{x};
    assert q == (multiset{x} + q) - multiset{x};
  }

  lemma PermutationWithout<T>(a: seq<T>, b: seq<T>) returns (i: nat)
    requires multiset(a) == multiset(b) && a != []
    ensures i < |b| && b[i] == a[0] && multiset(a[1..]) == multiset(b[..i] + b[i + 1..])
  {
    assert a[0] in multiset(b);
    i :| 0 <= i < |b| && b[i] == a[0];
    MultisetWithout(b, i);
    assert a == [a[0]] + a[1..];
    Cancel(a[0], multiset(a[1..]), multiset(b[..i] + b[i + 1..]));
  }

  /** The order of the features does not matter. */
  lemma {:induction false} TallyIgnoresOrder(a: seq<U64>, b: seq<U64>, lane: nat)
    requires multiset(a) == multiset(b)
    ensures Tally(a, lane) == Tally(b, lane)
  {
    if a == [] {
      assert |multiset(b)| == |b|;
    } else {
      var i := PermutationWithout(a, b);
      TallyIgnoresOrder(a[1..], b[..i] + b[i + 1..], lane);
      TallyWithout(b, i, lane);
    }
  }

  /** The lanes whose sign a change of at most `cost` could flip. */
  function Weak(features: seq<U64>, cost: nat): set<nat> {
    set lane: nat | lane < 64 && 0 < Tally(features, lane) + cost && Tally(features, lane) <= cost
  }

  lemma SubsetIsSmaller<T>(a: set<T>, b: set<T>)
    requires a <= b
    ensures |a| <= |b|
  {
    assert b == a + (b - a);
  }

  /** If every tally moves by at most `cost`, only weak lanes change, so the digests
      differ in no more bits than there are weak lanes. */
  lemma SmallChangesKeepStrongLanes(a: seq<U64>, b: seq<U64>, cost: nat)
    requires forall lane :: 0 <= lane < 64 ==> Tally(b, lane) <= Tally(a, lane) + cost && Tally(a, lane) <= Tally(b, lane) + cost
    ensures DifferingBits(SimHash(a), SimHash(b)) <= Weak(a, cost)
    ensures |DifferingBits(SimHash(a), SimHash(b))| <= |Weak(a, cost)|
  {
    LanesRoundTrip(Elected(a));
    LanesRoundTrip(Elected(b));
    forall lane | lane in DifferingBits(SimHash(a), SimHash(b))
      ensures lane in Weak(a, cost)
    {
      LaneIsBit(SimHash(a), lane);
      LaneIsBit(SimHash(b), lane);
    }
    SubsetIsSmaller(DifferingBits(SimHash(a), SimHash(b)), Weak(a, cost));
  }

  /** Reads the signs of the 64 accumulators into a digest. */
  method Signs(acc: array<I64>, ghost features: seq<U64>) returns (d: Digest)
    requires acc.Length == 64 && forall lane :: 0 <= lane < 64 ==> acc[lane] == Tally(features, lane)
    ensures d == SimHash(features)
  {
    var fp, weight := 0, 1;
    for i := 0 to 64
      invariant weight == Pow2(i) && fp == Pack(Elected(features)[..i])
    {
      PackSnoc(Elected(features)[..i], Elected(features)[i]);
      assert Elected(features)[..i + 1] == Elected(features)[..i] + [Elected(features)[i]];
      if acc[i] > 0 {
        fp := fp + weight;
      }
      weight := 2 * weight;
    }
    assert Elected(features)[..64] == Elected(features);
    d := BigEndian(8, fp);
  }
}
