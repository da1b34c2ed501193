/** pkg/fuzzy/phash.go, from the luminance matrix on and over real numbers: a
    separable cosine transform whose low frequencies are compared with their median. */
module PHash {
  import opened Bytes
  import opened Fingerprints

  const N := 32

  /** N numbers, and N rows of them: an image's luminance, or the table of cosines. */
  type Samples = xs: seq<real> | |xs| == N witness Zeros()
  type Matrix = m: seq<Samples> | |m| == N witness ZeroMatrix()

  function Zeros(): seq<real> { seq(N, _ => 0.0) }

  function ZeroMatrix(): seq<Samples> { seq(N, _ => Zeros()) }

  // ----- The transform

  function Dot(xs: seq<real>, ys: seq<real>): real
    requires |xs| == |ys|
  {
    if xs == [] then 0.0
    else
      var n := |xs| - 1;
      Dot(xs[..n], ys[..n]) + xs[n] * ys[n]
  }

  function Row(cos: Matrix, xs: Samples): Samples {
    seq(N, u requires 0 <= u < N => Dot(xs, cos[u]))
  }

  /** Column u of the transformed rows. */
  function Column(cos: Matrix, m: Matrix, u: nat): Samples
    requires u < N
  {
    seq(N, y requires 0 <= y < N => Dot(m[y], cos[u]))
  }

  function Coefficient(cos: Matrix, m: Matrix, v: nat, u: nat): real
    requires v < N && u < N
  {
    Dot(Column(cos, m, u), cos[v])
  }

  method Dct1d(cos: Matrix, input: array<real>) returns (out: array<real>)
    requires input.Length == N
    ensures fresh(out) && out.Length == N && out[..] == Row(cos, input[..])
  {
    out := new real[N];
    for u := 0 to N
      invariant forall k :: 0 <= k < u ==> out[k] == Dot(input[..], cos[k])
    {
      var s := 0.0;
      for x := 0 to N
        invariant s == Dot(input[..x], cos[u][..x])
      {
        assert input[..x + 1][..x] == input[..x] && cos[u][..x + 1][..x] == cos[u][..x];
        s := s + input[x] * cos[u][x];
      }
      assert input[..N] == input[..] && cos[u][..N] == cos[u];
      out[u] := s;
    }
  }

  method Dct2d(cos: Matrix, m: Matrix) returns (out: array2<real>)
    ensures fresh(out) && out.Length0 == N && out.Length1 == N
    ensures forall v, u :: 0 <= v < N && 0 <= u < N ==> out[v, u] == Coefficient(cos, m, v, u)
  {
    var rows: seq<Samples> := [];
    for y := 0 to N
      invariant |rows| == y && forall k :: 0 <= k < y ==> rows[k] == Row(cos, m[k])
    {
      var line := new real[N](x requires 0 <= x < N => m[y][x]);
      assert line[..] == m[y];
      var r := Dct1d(cos, line);
      rows := rows + [r[..]];
    }
    out := new real[N, N];
    var col := new real[N];
    for u := 0 to N
      invariant forall v, k :: 0 <= v < N && 0 <= k < u ==> out[v, k] == Coefficient(cos, m, v, k)
    {
      for y := 0 to N
        modifies col
        invariant forall k :: 0 <= k < y ==> col[k] == rows[k][u]
      {
        col[y] := rows[y][u];
      }
      assert col[..] == Column(cos, m, u);
      var c := Dct1d(cos, col);
      for v := 0 to N
        modifies out
        invariant forall w, k :: 0 <= w < N && 0 <= k < u ==> out[w, k] == Coefficient(cos, m, w, k)
        invariant forall w :: 0 <= w < v ==> out[w, u] == Coefficient(cos, m, w, u)
      {
        assert c[..][v] == Coefficient(cos, m, v, u);
        out[v, u] := c[v];
      }
    }
  }

  // ----- Rows and columns

  function Transposed(m: Matrix): (r: Matrix)
    ensures forall y, x :: 0 <= y < N && 0 <= x < N ==> r[y][x] == m[x][y]
  {
    seq(N, y requires 0 <= y < N => seq(N, x requires 0 <= x < N => m[x][y]))
  }

  /** The inner product of each row with c. */
  function ByRows(rows: seq<Samples>, c: Samples): (r: seq<real>)
    ensures |r| == |rows|
  {
    seq(|rows|, y requires 0 <= y < |rows| => Dot(rows[y], c))
  }

  function Across(rows: seq<Samples>, x: nat): (r: seq<real>)
    requires x < N
    ensures |r| == |rows|
  {
    seq(|rows|, y requires 0 <= y < |rows| => rows[y][x])
  }

  /** The inner product of each column with d. */
  function ByColumns(rows: seq<Samples>, d: seq<real>): Samples
    requires |rows| == |d|
  {
    seq(N, x requires 0 <= x < N => Dot(Across(rows, x), d))
  }

  lemma {:induction false} DotCombines(xs: seq<real>, ys: seq<real>, zs: seq<real>, c: seq<real>, t: real)
    requires |xs| == |ys| == |zs| == |c| && forall i :: 0 <= i < |xs| ==> zs[i] == xs[i] + ys[i] * t
    ensures Dot(zs, c) == Dot(xs, c) + Dot(ys, c) * t
  {
    if xs != [] {
      var n := |xs| - 1;
      DotCombines(xs[..n], ys[..n], zs[..n], c[..n], t);
      CombineStep(Dot(xs[..n], c[..n]), Dot(ys[..n], c[..n]), xs[n], ys[n], c[n], t);
    }
  }

  lemma CombineStep(d: real, e: real, x: real, y: real, c: real, t: real)
    ensures d + e * t + (x + y * t) * c == d + x * c + (e + y * c) * t
  {
    assert (x + y * t) * c == x * c + y * t * c;
    assert (e + y * c) * t == e * t + y * c * t;
  }

  lemma ByColumnsStep(rows: seq<Samples>, d: seq<real>, x: nat)
    requires |rows| == |d| > 0 && x < N
    ensures var n := |rows| - 1; ByColumns(rows, d)[x] == ByColumns(rows[..n], d[..n])[x] + rows[n][x] * d[n]
  {
    assert Across(rows, x)[..|rows| - 1] == Across(rows[..|rows| - 1], x);
  }

  lemma RowsStep(rows: seq<Samples>, c: Samples, d: seq<real>)
    requires |rows| == |d| > 0
    ensures var n := |rows| - 1;
      Dot(ByRows(rows, c), d) == Dot(ByRows(rows[..n], c), d[..n]) + Dot(rows[n], c) * d[n]
  {
    assert ByRows(rows, c)[..|rows| - 1] == ByRows(rows[..|rows| - 1], c);
  }

  lemma ColumnsStep(rows: seq<Samples>, c: Samples, d: seq<real>)
    requires |rows| == |d| > 0
    ensures var n := |rows| - 1;
      Dot(ByColumns(rows, d), c) == Dot(ByColumns(rows[..n], d[..n]), c) + Dot(rows[n], c) * d[n]
  {
    var n := |rows| - 1;
    forall x | 0 <= x < N
      ensures ByColumns(rows, d)[x] == ByColumns(rows[..n], d[..n])[x] + rows[n][x] * d[n]
    {
      ByColumnsStep(rows, d, x);
    }
    DotCombines(ByColumns(rows[..n], d[..n]), rows[n], ByColumns(rows, d), c, d[n]);
  }

  /** Rows first or columns first, the double sum is the same. */
  lemma {:induction false} SumsExchange(rows: seq<Samples>, c: Samples, d: seq<real>)
    requires |rows| == |d|
    ensures Dot(ByRows(rows, c), d) == Dot(ByColumns(rows, d), c)
  {
    if rows == [] {
      ZeroDot(ByColumns(rows, d), c);
    } else {
      SumsExchange(rows[..|rows| - 1], c, d[..|rows| - 1]);
      RowsStep(rows, c, d);
      ColumnsStep(rows, c, d);
    }
  }

  lemma {:induction false} ZeroDot(xs: seq<real>, c: seq<real>)
    requires |xs| == |c| && forall i :: 0 <= i < |xs| ==> xs[i] == 0.0
    ensures Dot(xs, c) == 0.0
  {
    if xs != [] {
      ZeroDot(xs[..|xs| - 1], c[..|xs| - 1]);
    }
  }

  /** The transform of the transposed image is the transposed transform, although
      the program works on rows and columns in turn. */
  lemma TransformTransposes(cos: Matrix, m: Matrix, v: nat, u: nat)
    requires v < N && u < N
    ensures Coefficient(cos, Transposed(m), v, u) == Coefficient(cos, m, u, v)
  {
    var t := Transposed(m);
    assert Column(cos, m, v) == ByRows(m, cos[v]);
    forall x | 0 <= x < N
      ensures Across(m, x) == t[x]
    {}
    assert ByColumns(m, cos[u]) == Column(cos, t, u);
    SumsExchange(m, cos[v], cos[u]);
  }

  // ----- The median

  function CountLess(xs: seq<real>, m: real): (n: nat)
    ensures n <= |xs|
  {
    if xs == [] then 0 else CountLess(xs[1..], m) + if xs[0] < m then 1 else 0
  }

  function CountGreater(xs: seq<real>, m: real): (n: nat)
    ensures n <= |xs|
  {
    if xs == [] then 0 else CountGreater(xs[1..], m) + if xs[0] > m then 1 else 0
  }

  /** At most half of an odd number of values lie on either side of the median. */
  ghost predicate IsMedian(xs: seq<real>, m: real) {
    m in xs && 2 * CountLess(xs, m) < |xs| && 2 * CountGreater(xs, m) < |xs|
  }

  ghost predicate Ascending(xs: seq<real>) {
    forall i, j :: 0 <= i < j < |xs| ==> xs[i] <= xs[j]
  }

  function Insert(x: real, xs: seq<real>): seq<real> {
    if xs == [] || x <= xs[0] then [x] + xs else [xs[0]] + Insert(x, xs[1..])
  }

  function SortReals(xs: seq<real>): seq<real> {
    if xs == [] then [] else Insert(xs[0], SortReals(xs[1..]))
  }

  lemma AscendingFrom(first: real, xs: seq<real>)
    requires Ascending(xs) && (xs != [] ==> first <= xs[0])
    ensures Ascending([first] + xs)
  {
    forall i, j | 0 <= i < j < |xs| + 1
      ensures ([first] + xs)[i] <= ([first] + xs)[j]
    {
      assert xs[0] <= xs[j - 1] && (i > 0 ==> xs[i - 1] <= xs[j - 1]);
    }
  }

  lemma {:induction false} InsertSorts(x: real, xs: seq<real>)
    requires Ascending(xs)
    ensures Ascending(Insert(x, xs)) && multiset(Insert(x, xs)) == multiset{x} + multiset(xs)
    ensures Insert(x, xs) != [] && (Insert(x, xs)[0] == x || (xs != [] && Insert(x, xs)[0] == xs[0]))
  {
    if xs == [] || x <= xs[0] {
      AscendingFrom(x, xs);
    } else {
      InsertSorts(x, xs[1..]);
      AscendingFrom(xs[0], Insert(x, xs[1..]));
      assert xs == [xs[0]] + xs[1..];
    }
  }

  lemma {:induction false} SortSorts(xs: seq<real>)
    ensures Ascending(SortReals(xs)) && multiset(SortReals(xs)) == multiset(xs)
  {
    if xs != [] {
      SortSorts(xs[1..]);
      InsertSorts(xs[0], SortReals(xs[1..]));
      assert xs == [xs[0]] + xs[1..];
    }
  }

  lemma {:induction false} CountsJoin(xs: seq<real>, ys: seq<real>, m: real)
    ensures CountLess(xs + ys, m) == CountLess(xs, m) + CountLess(ys, m)
    ensures CountGreater(xs + ys, m) == CountGreater(xs, m) + CountGreater(ys, m)
  {
    if xs == [] {
      assert xs + ys == ys;
    } else {
      CountsJoin(xs[1..], ys, m);
      assert (xs + ys)[1..] == xs[1..] + ys;
    }
  }

  lemma {:induction false} CountsIgnoreOrder(xs: seq<real>, ys: seq<real>, m: real)
    requires multiset(xs) == multiset(ys)
    ensures CountLess(xs, m) == CountLess(ys, m) && CountGreater(xs, m) == CountGreater(ys, m)
  {
    if xs == [] {
      assert |multiset(ys)| == |ys|;
    } else {
      var i := PermutationWithout(xs, ys);
      CountsIgnoreOrder(xs[1..], ys[..i] + ys[i + 1..], m);
      CountsJoin(ys[..i], ys[i + 1..], m);
      CountsJoin(ys[..i], [ys[i]] + ys[i + 1..], m);
      assert ys == ys[..i] + ([ys[i]] + ys[i + 1..]);
    }
  }

  lemma {:induction false} NoneGreater(xs: seq<real>, m: real)
    requires forall i :: 0 <= i < |xs| ==> xs[i] <= m
    ensures CountGreater(xs, m) == 0
  {
    if xs != [] {
      NoneGreater(xs[1..], m);
    }
  }

  lemma {:induction false} NoneLess(xs: seq<real>, m: real)
    requires forall i :: 0 <= i < |xs| ==> xs[i] >= m
    ensures CountLess(xs, m) == 0
  {
    if xs != [] {
      NoneLess(xs[1..], m);
    }
  }

  lemma FewAround(sorted: seq<real>, k: nat)
    requires Ascending(sorted) && k < |sorted|
    ensures CountLess(sorted, sorted[k]) <= k && CountGreater(sorted, sorted[k]) < |sorted| - k
  {
    FewAfter(sorted, k);
    FewBefore(sorted, k);
  }

  lemma FewAfter(sorted: seq<real>, k: nat)
    requires Ascending(sorted) && k < |sorted|
    ensures CountGreater(sorted, sorted[k]) < |sorted| - k
  {
    CutInTwo(sorted, k + 1);
    FewGreater(sorted, sorted[..k + 1], sorted[k + 1..], sorted[k]);
  }

  lemma FewBefore(sorted: seq<real>, k: nat)
    requires Ascending(sorted) && k < |sorted|
    ensures CountLess(sorted, sorted[k]) <= k
  {
    CutInTwo(sorted, k);
    FewLess(sorted, sorted[..k], sorted[k..], sorted[k]);
  }

  lemma CutInTwo(xs: seq<real>, k: nat)
    requires k <= |xs|
    ensures xs == xs[..k] + xs[k..]
  {}

  lemma FewGreater(xs: seq<real>, low: seq<real>, high: seq<real>, m: real)
    requires xs == low + high && forall i :: 0 <= i < |low| ==> low[i] <= m
    ensures CountGreater(xs, m) <= |high|
  {
    CountsJoin(low, high, m);
    NoneGreater(low, m);
  }

  lemma FewLess(xs: seq<real>, low: seq<real>, high: seq<real>, m: real)
    requires xs == low + high && forall i :: 0 <= i < |high| ==> high[i] >= m
    ensures CountLess(xs, m) <= |low|
  {
    CountsJoin(low, high, m);
    NoneLess(high, m);
  }

  /** The middle of the sorted values is the median of the unsorted ones. */
  lemma MiddleIsMedian(xs: seq<real>, sorted: seq<real>)
    requires |xs| % 2 == 1 && Ascending(sorted) && multiset(sorted) == multiset(xs)
    ensures |sorted| == |xs| && IsMedian(xs, sorted[|xs| / 2])
  {
    assert |sorted| == |multiset(sorted)| == |xs|;
    var k := |xs| / 2;
    assert sorted[k] in multiset(xs);
    CountsIgnoreOrder(xs, sorted, sorted[k]);
    FewAround(sorted, k);
  }

  lemma {:induction false} CountsOverlap(xs: seq<real>, low: real, high: real)
    requires low < high
    ensures CountGreater(xs, low) + CountLess(xs, high) >= |xs|
  {
    if xs != [] {
      CountsOverlap(xs[1..], low, high);
    }
  }

  lemma MedianIsUnique(xs: seq<real>, a: real, b: real)
    requires IsMedian(xs, a) && IsMedian(xs, b)
    ensures a == b
  {
    if a < b {
      CountsOverlap(xs, a, b);
    } else if b < a {
      CountsOverlap(xs, b, a);
    }
  }

  method MedianExcludingFirst(block: seq<real>) returns (med: real)
    requires |block| == 64
    ensures IsMedian(block[1..], med)
  {
    var rest := SortReals(block[1..]);
    SortSorts(block[1..]);
    MiddleIsMedian(block[1..], rest);
    med := rest[|rest| / 2];
  }

  // ----- The digest

  /** The low frequencies, row by row; the constant term comes first. */
  function Block(cos: Matrix, m: Matrix): (block: seq<real>)
    ensures |block| == 64
  {
    seq(64, i requires 0 <= i < 64 => Coefficient(cos, m, i / 8, i % 8))
  }

  function Above(block: seq<real>, med: real): (lanes: seq<bool>)
    ensures |lanes| == |block|
  {
    seq(|block|, i requires 0 <= i < |block| => block[i] > med)
  }

  /** A digest has one lane for each frequency, set when it is above the median of
      all but the first. */
  ghost predicate IsThresholded(block: seq<real>, d: Digest)
    requires |block| == 64
  {
    exists med :: IsMedian(block[1..], med) && d == FromLanes(Above(block, med))
  }

  ghost predicate IsPHash(cos: Matrix, m: Matrix, d: Digest)
  {
    IsThresholded(Block(cos, m), d)
  }

  method Threshold(block: seq<real>, med: real) returns (d: Digest)
    requires |block| == 64
    ensures d == FromLanes(Above(block, med))
  {
    var fp, weight := 0, 1;
    ghost var lanes := Above(block, med);
    for i := 0 to 64
      invariant weight == Pow2(i) && fp == Pack(lanes[..i])
    {
      PackSnoc(lanes[..i], lanes[i]);
      assert lanes[..i + 1] == lanes[..i] + [lanes[i]];
      if block[i] > med {
        fp := fp + weight;
      }
      weight := 2 * weight;
    }
    assert lanes[..64] == lanes;
    d := BigEndian(8, fp);
  }

  method DigestMatrix(cos: Matrix, gray: Matrix) returns (d: Digest)
    ensures IsPHash(cos, gray, d)
  {
    var coeffs := Dct2d(cos, gray);
    var block: seq<real> := [];
    for v := 0 to 8
      invariant |block| == 8 * v
      invariant forall i :: 0 <= i < 8 * v ==> block[i] == Coefficient(cos, gray, i / 8, i % 8)
    {
      for u := 0 to 8
        invariant |block| == 8 * v + u
        invariant forall i :: 0 <= i < 8 * v + u ==> block[i] == Coefficient(cos, gray, i / 8, i % 8)
      {
        block := block + [coeffs[v, u]];
      }
    }
    assert block == Block(cos, gray);
    var med := MedianExcludingFirst(block);
    d := Threshold(block, med);
  }

  lemma {:induction false} SetLanesAreAbove(block: seq<real>, med: real)
    ensures CountSet(Above(block, med)) == CountGreater(block, med)
  {
    if block != [] {
      SetLanesAreAbove(block[1..], med);
      assert Above(block, med)[1..] == Above(block[1..], med);
    }
  }

  lemma LanesOfThresholded(block: seq<real>, d: Digest) returns (med: real)
    requires |block| == 64 && IsThresholded(block, d)
    ensures IsMedian(block[1..], med) && Lanes(d) == Above(block, med)
  {
    med :| IsMedian(block[1..], med) && d == FromLanes(Above(block, med));
    LanesRoundTrip(Above(block, med));
  }

  /** An image has one digest. */
  lemma PHashIsUnique(cos: Matrix, m: Matrix, d: Digest, e: Digest)
    requires IsPHash(cos, m, d) && IsPHash(cos, m, e)
    ensures d == e
  {
    ThresholdedIsUnique(Block(cos, m), d, e);
  }

  lemma ThresholdedIsUnique(block: seq<real>, d: Digest, e: Digest)
    requires |block| == 64 && IsThresholded(block, d) && IsThresholded(block, e)
    ensures d == e
  {
    var med := LanesOfThresholded(block, d);
    var mid := LanesOfThresholded(block, e);
    MedianIsUnique(block[1..], med, mid);
    DigestRoundTrip(d);
    DigestRoundTrip(e);
  }

  /** A digest has at most 32 set bits, at most 31 of them not the constant term's. */
  lemma AtMostHalfSet(cos: Matrix, m: Matrix, d: Digest)
    requires IsPHash(cos, m, d)
    ensures |SetBits(d)| <= 32 && |SetBits(d) - {0}| <= 31
  {
    var med := LanesOfThresholded(Block(cos, m), d);
    AboveIsHalf(Block(cos, m), med);
    SetBitsAreCounted(d);
  }

  lemma AboveIsHalf(block: seq<real>, med: real)
    requires |block| == 64 && IsMedian(block[1..], med)
    ensures CountSet(Above(block, med)[1..]) <= 31 && CountSet(Above(block, med)) <= 32
  {
    SetLanesAreAbove(block[1..], med);
    assert Above(block, med)[1..] == Above(block[1..], med);
  }

  /** Where the values smaller than x are. */
  function SmallerIn(xs: seq<real>, x: real): set<nat> {
    set j: nat | j < |xs| && xs[j] < x
  }

  lemma {:induction false} CountLessIsSize(xs: seq<real>, x: real)
    ensures CountLess(xs, x) == |SmallerIn(xs, x)|
  {
    if xs != [] {
      var n := |xs| - 1;
      CountLessIsSize(xs[..n], x);
      CountsJoin(xs[..n], [xs[n]], x);
      assert xs == xs[..n] + [xs[n]];
      assert SmallerIn(xs, x) == SmallerIn(xs[..n], x) + if xs[n] < x then {n} else {};
    }
  }

  lemma {:induction false} LessOrGreater(xs: seq<real>, low: real, high: real)
    requires low < high
    ensures CountLess(xs, high) + CountGreater(xs, low) >= |xs|
    ensures CountLess(xs, low) <= CountLess(xs, high)
  {
    if xs != [] {
      LessOrGreater(xs[1..], low, high);
    }
  }

  /** A value is above the median of an odd number of others exactly when most of them
      are smaller. */
  lemma AboveMedian(xs: seq<real>, med: real, x: real)
    requires |xs| == 63 && IsMedian(xs, med)
    ensures x > med <==> CountLess(xs, x) >= 32
  {
    if x > med {
      LessOrGreater(xs, med, x);
    } else if x < med {
      LessOrGreater(xs, x, med);
    }
  }

  /** The j-th of the 63 low frequencies after the first, row by row. */
  function Counted(cos: Matrix, m: Matrix, j: nat): real
    requires j < 63
  {
    Coefficient(cos, m, (j + 1) / 8, (j + 1) % 8)
  }

  /** Those whose coefficient is smaller than a given one. */
  function Smaller(cos: Matrix, m: Matrix, v: nat, u: nat): set<nat>
    requires v < N && u < N
  {
    set j: nat | j < 63 && Counted(cos, m, j) < Coefficient(cos, m, v, u)
  }

  lemma SmallerInBlock(cos: Matrix, m: Matrix, v: nat, u: nat)
    requires v < 8 && u < 8
    ensures Block(cos, m)[8 * v + u] == Coefficient(cos, m, v, u)
    ensures SmallerIn(Block(cos, m)[1..], Coefficient(cos, m, v, u)) == Smaller(cos, m, v, u)
  {
    var rest := Block(cos, m)[1..];
    forall j: nat | j < 63
      ensures rest[j] == Counted(cos, m, j)
    {
      assert rest[j] == Block(cos, m)[j + 1];
    }
  }

  /** Bit 8v + u of the digest is set exactly when at least 32 of the 63 are smaller
      than the coefficient of row frequency v and column frequency u. */
  lemma BitsByRank(cos: Matrix, m: Matrix, d: Digest, v: nat, u: nat)
    requires IsPHash(cos, m, d) && v < 8 && u < 8
    ensures BitSet(d, 8 * v + u) <==> |Smaller(cos, m, v, u)| >= 32
  {
    var med := LanesOfThresholded(Block(cos, m), d);
    SmallerInBlock(cos, m, v, u);
    BitOfThresholded(Block(cos, m), d, med, 8 * v + u);
  }

  lemma BitOfThresholded(block: seq<real>, d: Digest, med: real, i: nat)
    requires |block| == 64 && i < 64 && IsMedian(block[1..], med) && Lanes(d) == Above(block, med)
    ensures BitSet(d, i) <==> |SmallerIn(block[1..], block[i])| >= 32
  {
    LaneIsBit(d, i);
    AboveMedian(block[1..], med, block[i]);
    CountLessIsSize(block[1..], block[i]);
  }

  lemma {:induction false} DotWithOne(xs: seq<real>, ys: seq<real>, k: nat, a: real)
    requires |xs| == |ys| && k < |xs| && forall i :: 0 <= i < |xs| ==> xs[i] == if i == k then a else 0.0
    ensures Dot(xs, ys) == a * ys[k]
  {
    var n := |xs| - 1;
    if k == n {
      ZeroDot(xs[..n], ys[..n]);
    } else {
      DotWithOne(xs[..n], ys[..n], k, a);
    }
  }

  /** An image black but for one pixel has the product of its two cosines for every
      coefficient: the column frequency at its column, the row frequency at its row. */
  lemma OnePixel(cos: Matrix, m: Matrix, y: nat, x: nat, a: real, v: nat, u: nat)
    requires y < 32 && x < 32 && v < 32 && u < 32
    requires forall i, j :: 0 <= i < 32 && 0 <= j < 32 ==> m[i][j] == if i == y && j == x then a else 0.0
    ensures Coefficient(cos, m, v, u) == a * cos[u][x] * cos[v][y]
  {
    forall i | 0 <= i < N
      ensures Column(cos, m, u)[i] == if i == y then a * cos[u][x] else 0.0
    {
      if i == y {
        DotWithOne(m[i], cos[u], x, a);
      } else {
        ZeroDot(m[i], cos[u]);
      }
    }
    DotWithOne(Column(cos, m, u), cos[v], y, a * cos[u][x]);
  }

  /** And images add up coefficient by coefficient, so this determines the transform. */
  lemma Superposition(cos: Matrix, m: Matrix, n: Matrix, sum: Matrix, v: nat, u: nat)
    requires v < N && u < N
    requires forall i, j :: 0 <= i < N && 0 <= j < N ==> sum[i][j] == m[i][j] + n[i][j]
    ensures Coefficient(cos, sum, v, u) == Coefficient(cos, m, v, u) + Coefficient(cos, n, v, u)
  {
    forall i | 0 <= i < N
      ensures Column(cos, sum, u)[i] == Column(cos, m, u)[i] + Column(cos, n, u)[i] * 1.0
    {
      DotCombines(m[i], n[i], sum[i], cos[u], 1.0);
    }
    DotCombines(Column(cos, m, u), Column(cos, n, u), Column(cos, sum, u), cos[v], 1.0);
  }

  // ----- Brightness and contrast

  /** Every value scaled by a, then shifted by b. */
  function Line(xs: seq<real>, a: real, b: real): (r: seq<real>)
    ensures |r| == |xs|
  {
    seq(|xs|, i requires 0 <= i < |xs| => a * xs[i] + b)
  }

  function Adjusted(m: Matrix, a: real, b: real): (r: Matrix)
    ensures forall y :: 0 <= y < N ==> r[y] == Line(m[y], a, b)
  {
    seq(N, y requires 0 <= y < N => Line(m[y], a, b))
  }

  function Sum(xs: seq<real>): real {
    if xs == [] then 0.0 else Sum(xs[..|xs| - 1]) + xs[|xs| - 1]
  }

  /** The rows of cosines but the first sum to zero. */
  ghost predicate Balanced(cos: Matrix) {
    forall u :: 1 <= u < N ==> Sum(cos[u]) == 0.0
  }

  lemma {:induction false} DotIsLinear(xs: seq<real>, zs: seq<real>, ys: seq<real>, a: real, b: real)
    requires |xs| == |zs| == |ys| && forall i :: 0 <= i < |xs| ==> zs[i] == a * xs[i] + b
    ensures Dot(zs, ys) == a * Dot(xs, ys) + b * Sum(ys)
  {
    if xs != [] {
      var n := |xs| - 1;
      DotIsLinear(xs[..n], zs[..n], ys[..n], a, b);
      LinearStep(Dot(xs[..n], ys[..n]), Sum(ys[..n]), xs[n], ys[n], a, b);
    }
  }

  lemma LinearStep(d: real, s: real, x: real, y: real, a: real, b: real)
    ensures a * d + b * s + (a * x + b) * y == a * (d + x * y) + b * (s + y)
  {
    assert a * (d + x * y) == a * d + a * x * y;
    assert b * (s + y) == b * s + b * y;
    assert (a * x + b) * y == a * x * y + b * y;
  }

  lemma ColumnOfAdjusted(cos: Matrix, m: Matrix, a: real, b: real, u: nat, y: nat)
    requires u < N && y < N
    ensures Column(cos, Adjusted(m, a, b), u)[y] == a * Column(cos, m, u)[y] + b * Sum(cos[u])
  {
    DotIsLinear(m[y], Adjusted(m, a, b)[y], cos[u], a, b);
  }

  /** Brightness reaches only the constant term; contrast scales the others. */
  lemma CoefficientOfAdjusted(cos: Matrix, m: Matrix, a: real, b: real, v: nat, u: nat)
    requires Balanced(cos) && v < N && u < N && (v > 0 || u > 0)
    ensures Coefficient(cos, Adjusted(m, a, b), v, u) == a * Coefficient(cos, m, v, u)
  {
    var before, after := Column(cos, m, u), Column(cos, Adjusted(m, a, b), u);
    forall y | 0 <= y < N
      ensures after[y] == a * before[y] + b * Sum(cos[u])
    {
      ColumnOfAdjusted(cos, m, a, b, u, y);
    }
    Vanishes(b, Sum(cos[u]), Sum(cos[v]));
    ShiftVanishes(before, after, cos[v], a, b * Sum(cos[u]));
  }

  lemma ShiftVanishes(xs: seq<real>, zs: seq<real>, ys: seq<real>, a: real, shift: real)
    requires |xs| == |zs| == |ys| && forall i :: 0 <= i < |xs| ==> zs[i] == a * xs[i] + shift
    requires shift * Sum(ys) == 0.0
    ensures Dot(zs, ys) == a * Dot(xs, ys)
  {
    DotIsLinear(xs, zs, ys, a, shift);
  }

  lemma Vanishes(b: real, s: real, t: real)
    requires s == 0.0 || t == 0.0
    ensures b * s * t == 0.0
  {
  }

  lemma ScaledOrder(a: real, x: real, y: real)
    requires a > 0.0
    ensures a * x < a * y <==> x < y
  {
    if x < y {
      assert a * (y - x) > 0.0;
    } else {
      assert a * (x - y) >= 0.0;
    }
  }

  /** Each value of ys lies on the same side of q as the one of xs does of p. */
  ghost predicate SameSides(xs: seq<real>, ys: seq<real>, p: real, q: real) {
    |xs| == |ys| && forall i :: 0 <= i < |xs| ==> (ys[i] < q <==> xs[i] < p) && (ys[i] > q <==> xs[i] > p)
  }

  lemma {:induction false} CountsOfSameSides(xs: seq<real>, ys: seq<real>, p: real, q: real)
    requires SameSides(xs, ys, p, q)
    ensures CountLess(ys, q) == CountLess(xs, p) && CountGreater(ys, q) == CountGreater(xs, p)
  {
    if xs != [] {
      CountsOfSameSides(xs[1..], ys[1..], p, q);
    }
  }

  lemma ScaledSide(a: real, x: real, p: real, y: real, q: real)
    requires a > 0.0 && y == a * x && q == a * p
    ensures (y < q <==> x < p) && (y > q <==> x > p)
  {
    ScaledOrder(a, x, p);
    ScaledOrder(a, p, x);
  }

  lemma SidesOfScaled(xs: seq<real>, ys: seq<real>, a: real, p: real, r: real)
    requires a > 0.0 && |xs| == |ys| && forall i :: 0 <= i < |xs| ==> ys[i] == a * xs[i]
    requires r == a * p
    ensures SameSides(xs, ys, p, r)
  {
    forall i | 0 <= i < |xs|
      ensures (ys[i] < r <==> xs[i] < p) && (ys[i] > r <==> xs[i] > p)
    {
      ScaledSide(a, xs[i], p, ys[i], r);
    }
  }

  lemma MemberOfScaled(xs: seq<real>, ys: seq<real>, a: real, p: real, r: real)
    requires |xs| == |ys| && forall i :: 0 <= i < |xs| ==> ys[i] == a * xs[i]
    requires p in xs && r == a * p
    ensures r in ys
  {
    var k :| 0 <= k < |xs| && xs[k] == p;
    assert ys[k] == r;
  }

  lemma MedianOfScaled(xs: seq<real>, ys: seq<real>, a: real, p: real, q: real, r: real)
    requires a > 0.0 && |xs| == |ys| && forall i :: 0 <= i < |xs| ==> ys[i] == a * xs[i]
    requires IsMedian(xs, p) && IsMedian(ys, q) && r == a * p
    ensures q == r && SameSides(xs, ys, p, q)
  {
    SidesOfScaled(xs, ys, a, p, r);
    MemberOfScaled(xs, ys, a, p, r);
    CountsOfSameSides(xs, ys, p, r);
    MedianIsUnique(ys, q, r);
  }

  /** All frequencies but the first are scaled by a. */
  ghost predicate IsScaled(block: seq<real>, other: seq<real>, a: real) {
    |block| == |other| == 64 && forall i :: 1 <= i < 64 ==> other[i] == a * block[i]
  }

  lemma BlockOfAdjusted(cos: Matrix, m: Matrix, a: real, b: real)
    requires Balanced(cos)
    ensures IsScaled(Block(cos, m), Block(cos, Adjusted(m, a, b)), a)
  {
    forall i | 1 <= i < 64
      ensures Block(cos, Adjusted(m, a, b))[i] == a * Block(cos, m)[i]
    {
      CoefficientOfAdjusted(cos, m, a, b, i / 8, i % 8);
    }
  }

  /** Changing brightness, and contrast by a positive factor, leaves every bit but
      the constant term's unchanged. */
  lemma AdjustmentKeepsTheBits(cos: Matrix, m: Matrix, a: real, b: real, d: Digest, e: Digest)
    requires Balanced(cos) && a > 0.0
    requires IsPHash(cos, m, d) && IsPHash(cos, Adjusted(m, a, b), e)
    ensures forall i: nat :: 1 <= i < 64 ==> BitSet(d, i) == BitSet(e, i)
  {
    BlockOfAdjusted(cos, m, a, b);
    ScalingKeepsTheBits(Block(cos, m), Block(cos, Adjusted(m, a, b)), a, d, e);
    forall i: nat | 1 <= i < 64
      ensures BitSet(d, i) == BitSet(e, i)
    {
      LaneIsBit(d, i);
      LaneIsBit(e, i);
      assert Lanes(d)[1..][i - 1] == Lanes(e)[1..][i - 1];
    }
  }

  lemma ScalingKeepsTheBits(block: seq<real>, other: seq<real>, a: real, d: Digest, e: Digest)
    requires IsScaled(block, other, a) && a > 0.0
    requires IsThresholded(block, d) && IsThresholded(other, e)
    ensures Lanes(d)[1..] == Lanes(e)[1..]
  {
    var med := LanesOfThresholded(block, d);
    var mid := LanesOfThresholded(other, e);
    SameBitsWhenScaled(block, other, a, med, mid);
  }

  lemma SameBitsWhenScaled(block: seq<real>, other: seq<real>, a: real, med: real, mid: real)
    requires a > 0.0 && IsScaled(block, other, a)
    requires IsMedian(block[1..], med) && IsMedian(other[1..], mid)
    ensures Above(block, med)[1..] == Above(other, mid)[1..]
  {
    MedianOfScaled(block[1..], other[1..], a, med, mid, a * med);
    forall i | 1 <= i < 64
      ensures Above(block, med)[i] == Above(other, mid)[i]
    {
      assert block[1..][i - 1] == block[i] && other[1..][i - 1] == other[i];
    }
  }
}
