/** pkg/fuzzy/simhash.go, from the lower-cased words on: a SimHash over words
    weighted by how often they occur. */
module SimHashText {
  import opened Bytes
  import opened Fingerprints

  type Word = Bytes

  /** FNV-1a with 64 bits, of which nothing but its output size is used. */
  type Fnv = Word -> U64

  function Hashes(fnv: Fnv, words: seq<Word>): (hs: seq<U64>)
    ensures |hs| == |words|
  {
    seq(|words|, i requires 0 <= i < |words| => fnv(words[i]))
  }

  /** Every occurrence of every word has one vote. */
  function DigestOf(fnv: Fnv, words: seq<Word>): Digest {
    SimHash(Hashes(fnv, words))
  }

  /** How often each word of the text occurs. */
  ghost predicate AreCounts(words: seq<Word>, counts: map<Word, I64>) {
    && (forall w :: w in counts <==> w in words)
    && (forall w :: w in counts ==> counts[w] == multiset(words)[w])
  }

  /** The number of words in a text is a machine integer. */
  method Tokenize(words: seq<Word>) returns (counts: map<Word, I64>)
    requires |words| < TWO63
    ensures AreCounts(words, counts)
  {
    counts := map[];
    for i := 0 to |words|
      invariant AreCounts(words[..i], counts)
      invariant forall w :: multiset(words[..i])[w] <= i
    {
      var w := words[i];
      assert words[..i + 1] == words[..i] + [w];
      counts := counts[w := (if w in counts then counts[w] else 0) + 1];
    }
    assert words[..|words|] == words;
  }

  /** The occurrences of some of the words. */
  function Only(words: seq<Word>, kept: set<Word>): (r: seq<Word>)
    ensures |r| <= |words|
  {
    if words == [] then []
    else (if words[0] in kept then [words[0]] else []) + Only(words[1..], kept)
  }

  function Weight(fnv: Fnv, words: seq<Word>, lane: nat): int {
    Tally(Hashes(fnv, words), lane)
  }

  lemma WeightOfFirst(fnv: Fnv, words: seq<Word>, lane: nat)
    requires words != []
    ensures Weight(fnv, words, lane) == Vote(fnv(words[0]), lane) + Weight(fnv, words[1..], lane)
  {
    assert Hashes(fnv, words)[1..] == Hashes(fnv, words[1..]);
  }

  lemma OnlyOfFirst(fnv: Fnv, words: seq<Word>, kept: set<Word>, lane: nat)
    requires words != []
    ensures Weight(fnv, Only(words, kept), lane) ==
      Weight(fnv, Only(words[1..], kept), lane) + if words[0] in kept then Vote(fnv(words[0]), lane) else 0
  {
    if words[0] in kept {
      assert Only(words, kept)[1..] == Only(words[1..], kept);
      WeightOfFirst(fnv, Only(words, kept), lane);
    } else {
      assert Only(words, kept) == Only(words[1..], kept);
    }
  }

  /** Keeping one more word adds its vote as often as the word occurs. */
  lemma {:induction false} OneMoreWord(fnv: Fnv, words: seq<Word>, kept: set<Word>, w: Word, lane: nat)
    requires w !in kept
    ensures Weight(fnv, Only(words, kept + {w}), lane) ==
      Weight(fnv, Only(words, kept), lane) + multiset(words)[w] * Vote(fnv(w), lane)
  {
    if words != [] {
      OneMoreWord(fnv, words[1..], kept, w, lane);
      OnlyOfFirst(fnv, words, kept, lane);
      OnlyOfFirst(fnv, words, kept + {w}, lane);
      assert words == [words[0]] + words[1..];
      assert multiset(words)[w] == multiset(words[1..])[w] + if words[0] == w then 1 else 0;
    }
  }

  lemma {:induction false} OnlyAll(words: seq<Word>, kept: set<Word>)
    requires forall w :: w in words ==> w in kept
    ensures Only(words, kept) == words
  {
    if words != [] {
      OnlyAll(words[1..], kept);
    }
  }

  lemma {:induction false} OnlyNone(words: seq<Word>)
    ensures Only(words, {}) == []
  {
    if words != [] {
      OnlyNone(words[1..]);
    }
  }

  /** Adds a word's count to the lanes it votes for, and takes it off the others. */
  method AddWord(fnv: Fnv, weights: array<I64>, w: Word, count: I64, ghost words: seq<Word>, ghost done: set<Word>)
    requires weights.Length == 64 && |words| < TWO63 && w !in done && count == multiset(words)[w]
    requires forall lane :: 0 <= lane < 64 ==> weights[lane] == Weight(fnv, Only(words, done), lane)
    modifies weights
    ensures forall lane :: 0 <= lane < 64 ==> weights[lane] == Weight(fnv, Only(words, done + {w}), lane)
  {
    var sum := fnv(w);
    for i := 0 to 64
      invariant forall lane :: 0 <= lane < i ==> weights[lane] == Weight(fnv, Only(words, done + {w}), lane)
      invariant forall lane :: i <= lane < 64 ==> weights[lane] == Weight(fnv, Only(words, done), lane)
    {
      OneMoreWord(fnv, words, done, w, i);
      if Bit(sum, i) {
        weights[i] := weights[i] + count;
      } else {
        weights[i] := weights[i] - count;
      }
    }
  }

  /** The digest of a count map, whatever order the map yields its words in. */
  method DigestCounts(fnv: Fnv, counts: map<Word, I64>, ghost words: seq<Word>) returns (digest: Digest)
    requires |words| < TWO63 && AreCounts(words, counts)
    ensures digest == DigestOf(fnv, words)
  {
    var weights := new I64[64](_ => 0);
    var left := counts.Keys;
    ghost var done: set<Word> := {};
    OnlyNone(words);
    while left != {}
      invariant left <= counts.Keys && done == counts.Keys - left
      invariant forall lane :: 0 <= lane < 64 ==> weights[lane] == Weight(fnv, Only(words, done), lane)
    {
      var w: Word :| w in left;
      AddWord(fnv, weights, w, counts[w], words, done);
      left := left - {w};
      done := done + {w};
    }
    OnlyAll(words, done);
    digest := Signs(weights, Hashes(fnv, words));
  }

  method DigestWords(fnv: Fnv, words: seq<Word>) returns (digest: Digest)
    requires |words| < TWO63
    ensures digest == DigestOf(fnv, words)
  {
    var counts := Tokenize(words);
    digest := DigestCounts(fnv, counts, words);
  }

  // ----- What the digest depends on

  /** Each bit says whether more than half of the word occurrences have it in their hash. */
  lemma DigestByMajority(fnv: Fnv, words: seq<Word>, lane: nat)
    requires lane < 64
    ensures BitSet(DigestOf(fnv, words), lane) <==>
      2 * |set k: nat | k < |words| && fnv(words[k]) / Pow2(lane) % 2 == 1| > |words|
  {
    assert Ones(Hashes(fnv, words), lane) == set k: nat | k < |words| && fnv(words[k]) / Pow2(lane) % 2 == 1;
    MajorityRules(Hashes(fnv, words), lane);
  }

  lemma {:induction false} HashesOfPermutation(fnv: Fnv, a: seq<Word>, b: seq<Word>)
    requires multiset(a) == multiset(b)
    ensures multiset(Hashes(fnv, a)) == multiset(Hashes(fnv, b))
  {
    if a == [] {
      assert |multiset(b)| == |b|;
    } else {
      var i := PermutationWithout(a, b);
      HashesOfPermutation(fnv, a[1..], b[..i] + b[i + 1..]);
      HashesWithout(fnv, b, i);
      HashesWithout(fnv, a, 0);
      assert a[..0] + a[1..] == a[1..];
    }
  }

  lemma HashesWithout(fnv: Fnv, b: seq<Word>, i: nat)
    requires i < |b|
    ensures multiset(Hashes(fnv, b)) == multiset{fnv(b[i])} + multiset(Hashes(fnv, b[..i] + b[i + 1..]))
  {
    var hs := Hashes(fnv, b);
    assert hs == hs[..i] + ([hs[i]] + hs[i + 1..]);
    assert Hashes(fnv, b[..i] + b[i + 1..]) == hs[..i] + hs[i + 1..];
  }

  /** The order of the words does not matter. */
  lemma DigestIgnoresOrder(fnv: Fnv, a: seq<Word>, b: seq<Word>)
    requires multiset(a) == multiset(b)
    ensures DigestOf(fnv, a) == DigestOf(fnv, b)
  {
    HashesOfPermutation(fnv, a, b);
    forall lane | 0 <= lane < 64
      ensures Tally(Hashes(fnv, a), lane) == Tally(Hashes(fnv, b), lane)
    {
      TallyIgnoresOrder(Hashes(fnv, a), Hashes(fnv, b), lane);
    }
    assert Elected(Hashes(fnv, a)) == Elected(Hashes(fnv, b));
  }

  function Repeat(words: seq<Word>, k: nat): seq<Word> {
    if k == 0 then [] else words + Repeat(words, k - 1)
  }

  lemma WeightJoins(fnv: Fnv, a: seq<Word>, b: seq<Word>, lane: nat)
    ensures Weight(fnv, a + b, lane) == Weight(fnv, a, lane) + Weight(fnv, b, lane)
  {
    assert Hashes(fnv, a + b) == Hashes(fnv, a) + Hashes(fnv, b);
    TallyJoins(Hashes(fnv, a), Hashes(fnv, b), lane);
  }

  lemma {:induction false} RepeatedWeight(fnv: Fnv, words: seq<Word>, k: nat, lane: nat)
    ensures Weight(fnv, Repeat(words, k), lane) == k * Weight(fnv, words, lane)
  {
    if k > 0 {
      RepeatedWeight(fnv, words, k - 1, lane);
      WeightJoins(fnv, words, Repeat(words, k - 1), lane);
      OneMoreTime(k, Weight(fnv, words, lane));
    }
  }

  lemma OneMoreTime(k: nat, x: int)
    requires k > 0
    ensures k * x == x + (k - 1) * x
  {
  }

  lemma SignOfMultiple(k: nat, x: int)
    requires k > 0
    ensures k * x > 0 <==> x > 0
  {
    if x > 0 {
      assert k * x >= x;
    } else {
      assert k * x <= 0;
    }
  }

  lemma SameSigns(a: seq<U64>, b: seq<U64>)
    requires forall lane :: 0 <= lane < 64 ==> (Tally(a, lane) > 0 <==> Tally(b, lane) > 0)
    ensures SimHash(a) == SimHash(b)
  {
    assert Elected(a) == Elected(b);
  }

  /** Multiplying every count by k, in whatever order the words come, changes nothing. */
  lemma RepetitionChangesNothing(fnv: Fnv, words: seq<Word>, k: nat, others: seq<Word>)
    requires k > 0 && multiset(others) == multiset(Repeat(words, k))
    ensures DigestOf(fnv, others) == DigestOf(fnv, words)
  {
    DigestIgnoresOrder(fnv, others, Repeat(words, k));
    var hs, many := Hashes(fnv, words), Hashes(fnv, Repeat(words, k));
    forall lane | 0 <= lane < 64
      ensures Tally(many, lane) > 0 <==> Tally(hs, lane) > 0
    {
      RepeatedWeight(fnv, words, k, lane);
      SignOfMultiple(k, Tally(hs, lane));
    }
    SameSigns(many, hs);
  }
}
