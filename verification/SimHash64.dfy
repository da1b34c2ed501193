/** pkg/fuzzy/simhash64.go, from the normalised tokens on: overlapping 3-shingles
    whose SHA-256 prefixes vote on the 64 lanes. */
module SimHash64 {
  import opened Bytes
  import opened Fingerprints

  const SHINGLE := 3
  const SPACE: Byte := 32

  type Token = Bytes

  /** SHA-256, of which nothing but its output size is used. */
  type Sha256 = Bytes -> Hash

  function Join(tokens: seq<Token>): Bytes {
    if tokens == [] then []
    else if |tokens| == 1 then tokens[0]
    else tokens[0] + [SPACE] + Join(tokens[1..])
  }

  /** Every three consecutive tokens, joined. */
  function Windows(tokens: seq<Token>): (shingles: seq<Bytes>)
    ensures |shingles| == if |tokens| < SHINGLE then 0 else |tokens| - SHINGLE + 1
  {
    if |tokens| < SHINGLE then [] else [Join(tokens[..SHINGLE])] + Windows(tokens[1..])
  }

  /** A text too short for a window is one shingle, if it has any token. */
  function Shingles(tokens: seq<Token>): seq<Bytes> {
    if |tokens| >= SHINGLE then Windows(tokens)
    else if tokens == [] then []
    else [Join(tokens)]
  }

  function Feature(sha: Sha256, shingle: Bytes): U64 {
    WordSizes();
    FromBigEndian(sha(shingle)[..8])
  }

  function Features(sha: Sha256, shingles: seq<Bytes>): (features: seq<U64>)
    ensures |features| == |shingles|
  {
    seq(|shingles|, i requires 0 <= i < |shingles| => Feature(sha, shingles[i]))
  }

  function DigestOf(sha: Sha256, tokens: seq<Token>): Digest {
    SimHash(Features(sha, Shingles(tokens)))
  }

  lemma FirstWindow(t: seq<Token>, head: seq<Token>, tail: seq<Token>)
    requires |t| >= SHINGLE && t[..SHINGLE] == head && t[1..] == tail
    ensures Windows(t) == [Join(head)] + Windows(tail)
  {
  }

  method ShinglesOf(tokens: seq<Token>) returns (out: seq<Bytes>)
    ensures out == Shingles(tokens)
  {
    if |tokens| < SHINGLE {
      if |tokens| == 0 {
        return [];
      }
      return [Join(tokens)];
    }
    out := [];
    var i := 0;
    while i + SHINGLE <= |tokens|
      invariant 0 <= i && i + SHINGLE <= |tokens| + 1
      invariant out + Windows(tokens[i..]) == Windows(tokens)
    {
      FirstWindow(tokens[i..], tokens[i..i + SHINGLE], tokens[i + 1..]);
      var shingle := Join(tokens[i..i + SHINGLE]);
      assert out + ([shingle] + Windows(tokens[i + 1..])) == (out + [shingle]) + Windows(tokens[i + 1..]);
      out := out + [shingle];
      i := i + 1;
    }
  }

  /** Adds one feature's votes to the accumulators. */
  method CastVotes(acc: array<I64>, feature: U64, ghost before: seq<U64>)
    requires acc.Length == 64 && |before| < TWO63 - 1
    requires forall lane :: 0 <= lane < 64 ==> acc[lane] == Tally(before, lane)
    modifies acc
    ensures forall lane :: 0 <= lane < 64 ==> acc[lane] == Tally(before + [feature], lane)
  {
    for i := 0 to 64
      invariant forall lane :: 0 <= lane < i ==> acc[lane] == Tally(before + [feature], lane)
      invariant forall lane :: i <= lane < 64 ==> acc[lane] == Tally(before, lane)
    {
      TallyJoins(before, [feature], i);
      if Bit(feature, i) {
        acc[i] := acc[i] + 1;
      } else {
        acc[i] := acc[i] - 1;
      }
    }
  }

  /** Lengths are machine integers, so the accumulators cannot overflow. */
  method DigestTokens(sha: Sha256, tokens: seq<Token>) returns (digest: Digest)
    requires |tokens| < TWO63 - 1
    ensures digest == DigestOf(sha, tokens)
  {
    var shingles := ShinglesOf(tokens);
    var acc := new I64[64](_ => 0);
    ghost var features := Features(sha, shingles);
    assert features[..0] == [];
    for i := 0 to |shingles|
      invariant forall lane :: 0 <= lane < 64 ==> acc[lane] == Tally(features[..i], lane)
    {
      var feature := Feature(sha, shingles[i]);
      CastVotes(acc, feature, features[..i]);
      assert features[..i + 1] == features[..i] + [feature];
    }
    assert features[..|shingles|] == features;
    digest := Signs(acc, features);
  }

  // ----- What the digest is, bit by bit

  lemma SliceOfRest(tokens: seq<Token>, i: nat, j: nat)
    requires 1 <= i <= j <= |tokens|
    ensures tokens[1..][i - 1..j - 1] == tokens[i..j]
  {}

  lemma {:induction false} WindowAt(tokens: seq<Token>, k: nat)
    requires k + SHINGLE <= |tokens|
    ensures Windows(tokens)[k] == Join(tokens[k..k + SHINGLE])
  {
    if k > 0 {
      WindowAt(tokens[1..], k - 1);
      SliceOfRest(tokens, k, k + SHINGLE);
    }
  }

  /** Three tokens with a space between them. */
  function Spaced(a: Token, b: Token, c: Token): Bytes {
    a + [32] + b + [32] + c
  }

  lemma JoinOfThree(tokens: seq<Token>)
    requires |tokens| == 3
    ensures Join(tokens) == Spaced(tokens[0], tokens[1], tokens[2])
  {
    assert Join(tokens[1..]) == tokens[1] + [32] + tokens[2];
  }

  /** Whether the SHA-256 of some bytes has a one in a lane, counted from the lowest bit
      of its eighth byte. */
  predicate Votes(sha: Sha256, shingle: Bytes, lane: nat)
    requires lane < 64
  {
    BitSet(sha(shingle)[..8], lane)
  }

  lemma FeatureVotes(sha: Sha256, shingle: Bytes, lane: nat)
    requires lane < 64
    ensures Feature(sha, shingle) / Pow2(lane) % 2 == 1 <==> Votes(sha, shingle, lane)
  {
    BitOfNumber(sha(shingle)[..8], lane);
  }

  /** Whether the three tokens from k on, joined by spaces, vote for a lane. */
  predicate WindowVotes(sha: Sha256, tokens: seq<Token>, lane: nat, k: nat)
    requires lane < 64 && k + 2 < |tokens|
  {
    Votes(sha, Spaced(tokens[k], tokens[k + 1], tokens[k + 2]), lane)
  }

  function VotingWindows(sha: Sha256, tokens: seq<Token>, lane: nat): set<nat>
    requires lane < 64
  {
    set k: nat | k + 2 < |tokens| && WindowVotes(sha, tokens, lane, k)
  }

  lemma OnesAreVotes(sha: Sha256, tokens: seq<Token>, lane: nat)
    requires |tokens| >= 3 && lane < 64
    ensures Ones(Features(sha, Shingles(tokens)), lane) == VotingWindows(sha, tokens, lane)
  {
    var features := Features(sha, Shingles(tokens));
    forall k: nat | k + 2 < |tokens|
      ensures features[k] / Pow2(lane) % 2 == 1 <==> WindowVotes(sha, tokens, lane, k)
    {
      WindowAt(tokens, k);
      JoinOfThree(tokens[k..k + 3]);
      FeatureVotes(sha, Shingles(tokens)[k], lane);
    }
  }

  /** Each bit of the digest of three or more tokens says how the majority of the
      three-token windows votes, and a tie is a zero. */
  lemma DigestByMajority(sha: Sha256, tokens: seq<Token>, lane: nat)
    requires |tokens| >= 3 && lane < 64
    ensures BitSet(DigestOf(sha, tokens), lane) <==> 2 * |VotingWindows(sha, tokens, lane)| > |tokens| - 2
  {
    OnesAreVotes(sha, tokens, lane);
    MajorityRules(Features(sha, Shingles(tokens)), lane);
  }

  lemma {:induction false} NoLanes(n: nat)
    ensures Pack(seq(n, _ => false)) == 0
  {
    if n > 0 {
      NoLanes(n - 1);
      assert seq(n, _ => false)[1..] == seq(n - 1, _ => false);
    }
  }

  /** The empty text has eight zeros. */
  lemma DigestOfNothing(sha: Sha256)
    ensures DigestOf(sha, []) == seq(8, _ => 0)
  {
    assert Features(sha, Shingles([])) == [];
    assert Elected([]) == seq(64, _ => false);
    NoLanes(64);
    forall i | 0 <= i < 8
      ensures BigEndian(8, 0)[i] == 0
    {
      BigEndianByte(8, 0, i);
    }
  }

  /** A text that is one shingle has the first eight bytes of its SHA-256. */
  lemma DigestOfOne(sha: Sha256, tokens: seq<Token>, shingle: Bytes)
    requires Shingles(tokens) == [shingle]
    ensures DigestOf(sha, tokens) == sha(shingle)[..8]
  {
    forall i: nat | i < 64
      ensures BitSet(DigestOf(sha, tokens), i) == BitSet(sha(shingle)[..8], i)
    {
      FeatureVotes(sha, shingle, i);
      MajorityRules(Features(sha, [shingle]), i);
      assert Ones(Features(sha, [shingle]), i) == if Votes(sha, shingle, i) then {0} else {};
    }
    SameBits(DigestOf(sha, tokens), sha(shingle)[..8]);
  }

  lemma DigestOfOneToken(sha: Sha256, a: Token)
    ensures DigestOf(sha, [a]) == sha(a)[..8]
  {
    assert Shingles([a]) == [a];
    DigestOfOne(sha, [a], a);
  }

  lemma DigestOfTwoTokens(sha: Sha256, a: Token, b: Token)
    ensures DigestOf(sha, [a, b]) == sha(a + [32] + b)[..8]
  {
    assert Join([a, b]) == a + [32] + b;
    DigestOfOne(sha, [a, b], a + [32] + b);
  }

  // ----- Editing a text

  function LastTwo(tokens: seq<Token>): seq<Token> {
    if |tokens| <= 2 then tokens else tokens[|tokens| - 2..]
  }

  function FirstTwo(tokens: seq<Token>): seq<Token> {
    if |tokens| <= 2 then tokens else tokens[..2]
  }

  lemma FirstOfJoined(p: seq<Token>, q: seq<Token>)
    requires |p| > 2
    ensures (p + q)[..SHINGLE] == p[..SHINGLE] && (p + q)[1..] == p[1..] + q
    ensures LastTwo(p[1..]) == LastTwo(p)
  {}

  lemma {:induction false} WindowsAfter(p: seq<Token>, q: seq<Token>)
    ensures Windows(p + q) == Windows(p) + Windows(LastTwo(p) + q)
  {
    if |p| > 2 {
      WindowsAfter(p[1..], q);
      FirstOfJoined(p, q);
      FirstWindow(p + q, p[..SHINGLE], p[1..] + q);
      FirstWindow(p, p[..SHINGLE], p[1..]);
      JoinThree([Join(p[..SHINGLE])], Windows(p[1..]), Windows(LastTwo(p) + q));
    }
  }

  lemma JoinThree(a: seq<Bytes>, b: seq<Bytes>, c: seq<Bytes>)
    ensures a + (b + c) == (a + b) + c
  {}

  lemma {:induction false} WindowsBefore(q: seq<Token>, r: seq<Token>)
    requires |r| > 2
    ensures Windows(q + r) == Windows(q + r[..2]) + Windows(r)
    decreases q
  {
    if q == [] {
      assert q + r == r && q + r[..2] == r[..2];
    } else {
      var head := [q[0]] + (q[1..] + r)[..2];
      assert (q + r)[..SHINGLE] == head && (q + r[..2])[..SHINGLE] == head;
      assert (q + r)[1..] == q[1..] + r && (q + r[..2])[1..] == q[1..] + r[..2];
      FirstWindow(q + r, head, q[1..] + r);
      FirstWindow(q + r[..2], head, q[1..] + r[..2]);
      WindowsBefore(q[1..], r);
    }
  }

  /** A stretch of text touches only the windows that reach into it: those before
      and after it are the windows of the surrounding texts. */
  lemma WindowsAround(a: seq<Token>, m: seq<Token>, b: seq<Token>)
    ensures Windows(a + m + b) == Windows(a) + Windows(LastTwo(a) + m + FirstTwo(b)) + Windows(b)
  {
    assert a + m + b == a + (m + b);
    WindowsAfter(a, m + b);
    assert LastTwo(a) + (m + b) == (LastTwo(a) + m) + b;
    if |b| > 2 {
      WindowsBefore(LastTwo(a) + m, b);
    }
  }

  lemma FeaturesJoin(sha: Sha256, xs: seq<Bytes>, ys: seq<Bytes>)
    ensures Features(sha, xs + ys) == Features(sha, xs) + Features(sha, ys)
  {
  }

  function WindowScore(sha: Sha256, tokens: seq<Token>, lane: nat): int {
    Tally(Features(sha, Windows(tokens)), lane)
  }

  lemma ScoreAround(sha: Sha256, a: seq<Token>, m: seq<Token>, b: seq<Token>, lane: nat)
    ensures WindowScore(sha, a + m + b, lane)
         == WindowScore(sha, a, lane) + WindowScore(sha, LastTwo(a) + m + FirstTwo(b), lane) + WindowScore(sha, b, lane)
  {
    var w, x, y := Windows(a), Windows(LastTwo(a) + m + FirstTwo(b)), Windows(b);
    WindowsAround(a, m, b);
    FeaturesJoin(sha, w + x, y);
    FeaturesJoin(sha, w, x);
    TallyJoins(Features(sha, w + x), Features(sha, y), lane);
    TallyJoins(Features(sha, w), Features(sha, x), lane);
  }

  /** Some consecutive tokens replaced by others; with none on one side it is an
      insertion or a deletion. */
  datatype Edit = Edit(at: nat, removed: nat, inserted: seq<Token>) {
    predicate Fits(tokens: seq<Token>) { at + removed <= |tokens| }

    function Apply(tokens: seq<Token>): seq<Token>
      requires Fits(tokens)
    {
      tokens[..at] + inserted + tokens[at + removed..]
    }

    /** How far an edit can move a tally: 6 for one token replaced, 5 for one
        inserted or deleted. */
    function Reach(): nat { removed + |inserted| + 4 }
  }

  lemma EditMovesWindowScore(sha: Sha256, tokens: seq<Token>, e: Edit, lane: nat)
    requires e.Fits(tokens)
    ensures WindowScore(sha, e.Apply(tokens), lane) <= WindowScore(sha, tokens, lane) + e.Reach()
    ensures WindowScore(sha, tokens, lane) <= WindowScore(sha, e.Apply(tokens), lane) + e.Reach()
  {
    var a, m, b := tokens[..e.at], tokens[e.at..e.at + e.removed], tokens[e.at + e.removed..];
    assert tokens == a + m + b;
    ScoreAround(sha, a, m, b, lane);
    ScoreAround(sha, a, e.inserted, b, lane);
  }

  /** The tally of a text's shingles. */
  function Score(sha: Sha256, tokens: seq<Token>, lane: nat): (score: int)
    ensures if |tokens| < SHINGLE then -1 <= score <= 1 else score == WindowScore(sha, tokens, lane)
  {
    Tally(Features(sha, Shingles(tokens)), lane)
  }

  /** The votes for a lane less those against it, one for each window. */
  lemma ScoreCounts(sha: Sha256, tokens: seq<Token>, lane: nat)
    requires |tokens| >= 3 && lane < 64
    ensures Score(sha, tokens, lane) == 2 * |VotingWindows(sha, tokens, lane)| - (|tokens| - 2)
  {
    OnesAreVotes(sha, tokens, lane);
    TallyCounts(Features(sha, Shingles(tokens)), lane);
  }

  /** An edit moves no tally by more than its reach, however short the texts. */
  lemma EditMovesScore(sha: Sha256, tokens: seq<Token>, e: Edit, lane: nat)
    requires e.Fits(tokens)
    ensures Score(sha, e.Apply(tokens), lane) <= Score(sha, tokens, lane) + e.removed + |e.inserted| + 4
    ensures Score(sha, tokens, lane) <= Score(sha, e.Apply(tokens), lane) + e.removed + |e.inserted| + 4
  {
    if |tokens| >= SHINGLE && |e.Apply(tokens)| >= SHINGLE {
      EditMovesWindowScore(sha, tokens, e, lane);
    }
  }

  /** The edits can be applied one after the other. */
  predicate AllFit(tokens: seq<Token>, edits: seq<Edit>)
    decreases |edits|
  {
    edits == [] || (edits[0].Fits(tokens) && AllFit(edits[0].Apply(tokens), edits[1..]))
  }

  function ApplyAll(tokens: seq<Token>, edits: seq<Edit>): seq<Token>
    requires AllFit(tokens, edits)
    decreases |edits|
  {
    if edits == [] then tokens else ApplyAll(edits[0].Apply(tokens), edits[1..])
  }

  function TotalReach(edits: seq<Edit>): nat {
    if edits == [] then 0 else edits[0].Reach() + TotalReach(edits[1..])
  }

  lemma {:induction false} EditsMoveScore(sha: Sha256, tokens: seq<Token>, edits: seq<Edit>, lane: nat)
    requires AllFit(tokens, edits)
    ensures Score(sha, ApplyAll(tokens, edits), lane) <= Score(sha, tokens, lane) + TotalReach(edits)
    ensures Score(sha, tokens, lane) <= Score(sha, ApplyAll(tokens, edits), lane) + TotalReach(edits)
    decreases |edits|
  {
    if edits != [] {
      EditMovesScore(sha, tokens, edits[0], lane);
      EditsMoveScore(sha, edits[0].Apply(tokens), edits[1..], lane);
    }
  }

  predicate IsReplacement(e: Edit) { e.removed == 1 && |e.inserted| == 1 }

  /** k replaced tokens reach 6k. */
  lemma {:induction false} ReplacementsReach(edits: seq<Edit>)
    requires forall e :: e in edits ==> IsReplacement(e)
    ensures TotalReach(edits) == 6 * |edits|
  {
    if edits != [] {
      assert IsReplacement(edits[0]);
      ReplacementsReach(edits[1..]);
    }
  }

  /** The lanes an edit of this reach could flip in a text. */
  function WeakLanes(sha: Sha256, tokens: seq<Token>, reach: nat): set<nat> {
    set lane: nat | lane < 64 && 0 < Score(sha, tokens, lane) + reach && Score(sha, tokens, lane) <= reach
  }

  /** Edits keep every lane whose tally is above their reach or at most its negative,
      so the digests differ in no more bits than there are weak lanes. */
  lemma EditsKeepStrongLanes(sha: Sha256, tokens: seq<Token>, edits: seq<Edit>)
    requires AllFit(tokens, edits)
    ensures var changed := DifferingBits(DigestOf(sha, tokens), DigestOf(sha, ApplyAll(tokens, edits)));
      var weak := WeakLanes(sha, tokens, TotalReach(edits));
      changed <= weak && |changed| <= |weak|
  {
    var a, b := Features(sha, Shingles(tokens)), Features(sha, Shingles(ApplyAll(tokens, edits)));
    var reach := TotalReach(edits);
    forall lane | 0 <= lane < 64
      ensures Tally(b, lane) <= Tally(a, lane) + reach && Tally(a, lane) <= Tally(b, lane) + reach
    {
      EditsMoveScore(sha, tokens, edits, lane);
    }
    SmallChangesKeepStrongLanes(a, b, reach);
    assert WeakLanes(sha, tokens, reach) == Weak(a, reach);
  }

  /** With at most nine weak lanes the edited text still matches the recorded digest. */
  lemma EditedTextStillMatches(sha: Sha256, tokens: seq<Token>, edits: seq<Edit>)
    requires AllFit(tokens, edits)
    requires |WeakLanes(sha, tokens, TotalReach(edits))| <= 9
    ensures Matches(DigestOf(sha, ApplyAll(tokens, edits)), DigestOf(sha, tokens), TEXT_THRESHOLD)
  {
    var before, after := DigestOf(sha, tokens), DigestOf(sha, ApplyAll(tokens, edits));
    EditsKeepStrongLanes(sha, tokens, edits);
    assert DifferingBits(before, after) == DifferingBits(after, before);
    ThresholdsInBits(after, before);
  }
}
