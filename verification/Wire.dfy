/** The wire primitives of pkg/leaf/codec.go: a mutable encoder and a
    bounds-checked decoder.

    Both carry a ghost list of the fields written or read so far. `Flatten` of
    that list is the byte string, so every statement about bytes becomes a
    statement about lists of fields. */
module Wire {
  import opened Bytes

  /** One field on the wire. */
  datatype Item =
    | Num(width: nat, value: nat)
    | Raw(bytes: Bytes)
    | Var(bytes: Bytes)

  /** What a reader must know in advance about a field in order to read it. */
  datatype Shape = NumShape(width: nat) | RawShape(length: nat) | VarShape

  /** A conversion to 32 bits, which keeps the low bits. */
  function Low32(n: nat): U32 {
    if n < TWO32 then n else n % TWO32
  }

  function Encode(it: Item): Bytes {
    match it
    case Num(w, v) => BigEndian(w, v)
    case Raw(b) => b
    case Var(b) => BigEndian(4, Low32(|b|)) + b
  }

  function Flatten(items: seq<Item>): Bytes {
    if items == [] then [] else Encode(items[0]) + Flatten(items[1..])
  }

  /** The item has the given shape and is encoded without truncation. */
  predicate HasShape(it: Item, s: Shape) {
    match s
    case NumShape(w) => it.Num? && it.width == w && it.value < Pow256(w)
    case RawShape(n) => it.Raw? && |it.bytes| == n
    case VarShape => it.Var? && |it.bytes| < TWO32
  }

  predicate Matches(items: seq<Item>, plan: seq<Shape>) {
    |items| == |plan| && forall i :: 0 <= i < |items| ==> HasShape(items[i], plan[i])
  }

  lemma Associative(a: Bytes, b: Bytes, c: Bytes)
    ensures (a + b) + c == a + (b + c)
  {}

  /** Equal concatenations with left parts of equal length agree part by part. */
  lemma SplitAt(a: Bytes, r: Bytes, b: Bytes, t: Bytes)
    requires a + r == b + t && |a| == |b|
    ensures a == b && r == t
  {
    assert a == (a + r)[..|a|] == (b + t)[..|b|] == b;
    assert r == (a + r)[|a|..] == (b + t)[|b|..] == t;
  }

  lemma {:induction false} FlattenAppend(xs: seq<Item>, ys: seq<Item>)
    ensures Flatten(xs + ys) == Flatten(xs) + Flatten(ys)
  {
    if xs == [] {
      assert xs + ys == ys;
    } else {
      FlattenAppend(xs[1..], ys);
      assert (xs + ys)[1..] == xs[1..] + ys;
      Associative(Encode(xs[0]), Flatten(xs[1..]), Flatten(ys));
    }
  }

  lemma FlattenAround(its: seq<Item>, k: nat)
    requires k < |its|
    ensures Flatten(its) == Flatten(its[..k]) + (Encode(its[k]) + Flatten(its[k + 1..]))
  {
    assert its == its[..k] + its[k..];
    FlattenAppend(its[..k], its[k..]);
    assert its[k..][1..] == its[k + 1..];
  }

  lemma PrefixRest(a: Bytes, b: Bytes) returns (rest: Bytes)
    requires a <= b
    ensures b == a + rest
  {
    rest := b[|a|..];
  }

  lemma Regroup(a: Bytes, b: Bytes, c: Bytes, d: Bytes, all: Bytes)
    requires all == (a + (b + c)) + d
    ensures all == a + (b + (c + d))
  {
    Associative(a, b + c, d);
    Associative(b, c, d);
  }

  lemma TakeDrop(b: Bytes, pos: nat)
    requires pos <= |b|
    ensures b == b[..pos] + b[pos..]
  {}

  lemma FlattenOne(it: Item)
    ensures Flatten([it]) == Encode(it)
  {
    assert [it][1..] == [];
    assert Flatten([it]) == Encode(it) + [];
  }

  lemma FlattenSnoc(xs: seq<Item>, it: Item)
    ensures Flatten(xs + [it]) == Flatten(xs) + Encode(it)
  {
    FlattenAppend(xs, [it]);
    FlattenOne(it);
  }

  /** A field of known shape is self-delimiting. */
  lemma ItemIsPrefixFree(x: Item, y: Item, s: Shape, r: Bytes, t: Bytes)
    requires HasShape(x, s) && HasShape(y, s)
    requires Encode(x) + r == Encode(y) + t
    ensures x == y && r == t
  {
    match s
    case NumShape(w) =>
      SplitAt(BigEndian(w, x.value), r, BigEndian(w, y.value), t);
      BigEndianDecodes(w, x.value);
      BigEndianDecodes(w, y.value);
    case RawShape(n) =>
      SplitAt(x.bytes, r, y.bytes, t);
    case VarShape =>
      VarIsPrefixFree(x.bytes, y.bytes, r, t);
  }

  lemma VarIsPrefixFree(x: Bytes, y: Bytes, r: Bytes, t: Bytes)
    requires |x| < TWO32 && |y| < TWO32
    requires Encode(Var(x)) + r == Encode(Var(y)) + t
    ensures x == y && r == t
  {
    VarReadsBack(x, r, Encode(Var(x)) + r);
    VarReadsBack(y, t, Encode(Var(x)) + r);
  }

  /** The length, the body and the rest, read back from the bytes. */
  lemma VarReadsBack(x: Bytes, r: Bytes, b: Bytes)
    requires |x| < TWO32 && b == Encode(Var(x)) + r
    ensures |b| >= 4 + |x| && FromBigEndian(b[..4]) == |x|
    ensures b[4..4 + |x|] == x && b[4 + |x|..] == r
  {
    LengthDecodes(|x|);
    Layout(BigEndian(4, |x|), x, r, b);
  }

  lemma Layout(a: Bytes, x: Bytes, r: Bytes, b: Bytes)
    requires b == (a + x) + r
    ensures |b| >= |a| + |x| && b[..|a|] == a
    ensures b[|a|..|a| + |x|] == x && b[|a| + |x|..] == r
  {}

  lemma LengthDecodes(n: nat)
    requires n < TWO32
    ensures FromBigEndian(BigEndian(4, n)) == n
  {
    WordSizes();
    BigEndianDecodes(4, n);
  }

  /** Two field lists of one plan whose bytes agree, one possibly followed by
      more, are the same list. */
  lemma {:induction false} PlanIsPrefixFree(xs: seq<Item>, ys: seq<Item>, plan: seq<Shape>, r: Bytes, t: Bytes)
    requires Matches(xs, plan) && Matches(ys, plan)
    requires Flatten(xs) + r == Flatten(ys) + t
    ensures xs == ys && r == t
  {
    if plan == [] {
      assert [] + r == r && [] + t == t;
    } else {
      var r', t' := Flatten(xs[1..]) + r, Flatten(ys[1..]) + t;
      Associative(Encode(xs[0]), Flatten(xs[1..]), r);
      Associative(Encode(ys[0]), Flatten(ys[1..]), t);
      ItemIsPrefixFree(xs[0], ys[0], plan[0], r', t');
      PlanIsPrefixFree(xs[1..], ys[1..], plan[1..], r, t);
      assert xs == [xs[0]] + xs[1..] && ys == [ys[0]] + ys[1..];
    }
  }

  /** No byte string that starts with fields of this plan is a prefix of buf. */
  ghost predicate Hopeless(plan: seq<Shape>, buf: Bytes) {
    forall items :: Matches(items, plan) ==> !(Flatten(items) <= buf)
  }

  /** Reading stuck at `pos`, after `items`, proves the whole plan hopeless. */
  lemma StuckIsHopeless(plan: seq<Shape>, buf: Bytes, items: seq<Item>, pos: nat)
    requires pos <= |buf| && buf[..pos] == Flatten(items)
    requires |items| < |plan| && Matches(items, plan[..|items|])
    requires forall it :: HasShape(it, plan[|items|]) ==> !(Encode(it) <= buf[pos..])
    ensures Hopeless(plan, buf)
  {
    forall its | Matches(its, plan) && Flatten(its) <= buf
      ensures false
    {
      NextItem(plan, its, buf, items, pos);
    }
  }

  /** If a whole plan is a prefix of some bytes, then after any first part of
      the plan the next field is a prefix of what is left. */
  lemma NextItem(plan: seq<Shape>, its: seq<Item>, buf: Bytes, items: seq<Item>, pos: nat)
    requires pos <= |buf| && buf[..pos] == Flatten(items)
    requires |items| < |plan| && Matches(items, plan[..|items|]) && Matches(its, plan)
    requires Flatten(its) <= buf
    ensures HasShape(its[|items|], plan[|items|]) && Encode(its[|items|]) <= buf[pos..]
  {
    var k := |items|;
    var tail := AfterHead(its, k, buf);
    TakeDrop(buf, pos);
    SameHead(plan, its, items, buf[pos..], tail);
  }

  lemma SameHead(plan: seq<Shape>, its: seq<Item>, items: seq<Item>, left: Bytes, tail: Bytes)
    requires |items| < |plan| && Matches(items, plan[..|items|]) && Matches(its, plan)
    requires Flatten(items) + left == Flatten(its[..|items|]) + (Encode(its[|items|]) + tail)
    ensures Encode(its[|items|]) <= left
  {
    var k := |items|;
    PlanIsPrefixFree(items, its[..k], plan[..k], left, Encode(its[k]) + tail);
  }

  lemma AfterHead(its: seq<Item>, k: nat, buf: Bytes) returns (tail: Bytes)
    requires k < |its| && Flatten(its) <= buf
    ensures buf == Flatten(its[..k]) + (Encode(its[k]) + tail)
  {
    var rest := Flatten(its[k + 1..]);
    var after := PrefixRest(Flatten(its), buf);
    FlattenAround(its, k);
    Regroup(Flatten(its[..k]), Encode(its[k]), rest, after, buf);
    tail := rest + after;
  }

  /** A length-prefixed field needs its four bytes and then its body. */
  lemma VarNeeds(it: Item, left: Bytes)
    requires HasShape(it, VarShape) && Encode(it) <= left
    ensures |left| >= 4 + FromBigEndian(left[..4])
  {
    var rest := PrefixRest(Encode(it), left);
    VarReadsBack(it.bytes, rest, left);
  }

  lemma ShortVar(left: Bytes)
    requires |left| < 4 || |left| < 4 + FromBigEndian(left[..4])
    ensures forall it :: HasShape(it, VarShape) ==> !(Encode(it) <= left)
  {
    forall it | HasShape(it, VarShape) && Encode(it) <= left
      ensures false
    {
      VarNeeds(it, left);
    }
  }

  /** Reading the bytes of one field extends the fields read by that field. */
  lemma Advance(buf: Bytes, start: nat, end: nat, before: seq<Item>, it: Item)
    requires start <= end <= |buf|
    requires buf[..start] == Flatten(before) && buf[start..end] == Encode(it)
    ensures buf[..end] == Flatten(before + [it])
  {
    FlattenSnoc(before, it);
    assert buf[..end] == buf[..start] + buf[start..end];
  }

  /** A length and a body read one after the other are one variable field. */
  lemma VarSlice(slice: Bytes)
    requires |slice| >= 4 && |slice| == 4 + FromBigEndian(slice[..4]) && |slice| < 4 + TWO32
    ensures slice == Encode(Var(slice[4..]))
  {
    BigEndianEncodes(slice[..4]);
    TakeDrop(slice, 4);
  }

  class Encoder {
    var buf: Bytes
    ghost var items: seq<Item>

    ghost predicate Valid()
      reads this
    {
      buf == Flatten(items)
    }

    constructor ()
      ensures Valid() && items == []
    {
      buf, items := [], [];
    }

    /** Appends raw bytes; the caller says which field they are. */
    method Put(b: Bytes, ghost it: Item)
      requires Valid() && b == Encode(it)
      modifies this
      ensures Valid() && items == old(items) + [it]
    {
      FlattenSnoc(items, it);
      buf, items := buf + b, items + [it];
    }

    method U8(v: Byte)
      requires Valid()
      modifies this
      ensures Valid() && items == old(items) + [Num(1, v)]
    {
      assert BigEndian(1, v) == [v];
      Put([v], Num(1, v));
    }

    method U32(v: U32)
      requires Valid()
      modifies this
      ensures Valid() && items == old(items) + [Num(4, v)]
    {
      Put(BigEndian(4, v), Num(4, v));
    }

    method U64(v: U64)
      requires Valid()
      modifies this
      ensures Valid() && items == old(items) + [Num(8, v)]
    {
      Put(BigEndian(8, v), Num(8, v));
    }

    method Fixed(b: Bytes)
      requires Valid()
      modifies this
      ensures Valid() && items == old(items) + [Raw(b)]
    {
      Put(b, Raw(b));
    }

    /** The length prefix is a truncating conversion to 32 bits. */
    method VarBytes(b: Bytes)
      requires Valid()
      modifies this
      ensures Valid() && items == old(items) + [Var(b)]
    {
      ghost var before, bytes := items, buf;
      U32(Low32(|b|));
      FlattenSnoc(before, Num(4, Low32(|b|)));
      buf := buf + b;
      Associative(bytes, BigEndian(4, Low32(|b|)), b);
      FlattenSnoc(before, Var(b));
      items := before + [Var(b)];
    }
  }

  datatype DecodeError = Truncated | WrongKind | TrailingBytes

  lemma MatchesSnoc(items: seq<Item>, plan: seq<Shape>, it: Item)
    requires |items| < |plan| && Matches(items, plan[..|items|]) && HasShape(it, plan[|items|])
    ensures Matches(items + [it], plan[..|items| + 1])
  {}

  /** A reader of `buf` that knows, as ghost state, the plan of fields it is
      going to read and the fields it has read. */
  class Decoder {
    const buf: Bytes
    var pos: nat
    ghost const plan: seq<Shape>
    ghost var items: seq<Item>

    ghost predicate Valid()
      reads this
    {
      && pos <= |buf| && buf[..pos] == Flatten(items)
      && |items| <= |plan| && Matches(items, plan[..|items|])
    }

    ghost predicate Expects(s: Shape)
      reads this
    {
      |items| < |plan| && plan[|items|] == s
    }

    /** The k-th field from here on has shape s. */
    ghost predicate Later(k: nat, s: Shape)
      reads this
    {
      |items| + k < |plan| && plan[|items| + k] == s
    }

    constructor (buf: Bytes, ghost plan: seq<Shape>)
      ensures Valid() && pos == 0 && items == []
      ensures this.buf == buf && this.plan == plan
    {
      this.buf, this.plan := buf, plan;
      pos, items := 0, [];
    }

    /** Records that the bytes from `start` to here are one field. */
    ghost method Accept(start: nat, it: Item)
      requires start <= pos <= |buf| && buf[..start] == Flatten(items)
      requires |items| < |plan| && Matches(items, plan[..|items|])
      requires HasShape(it, plan[|items|]) && Encode(it) == buf[start..pos]
      modifies this`items
      ensures Valid() && items == old(items) + [it]
    {
      Advance(buf, start, pos, items, it);
      MatchesSnoc(items, plan, it);
      items := items + [it];
    }

    method Take(n: nat) returns (r: Result<Bytes, DecodeError>)
      requires pos <= |buf|
      modifies this`pos
      ensures r.Success? <==> old(pos) + n <= |buf|
      ensures r.Success? ==> pos == old(pos) + n && r.value == buf[old(pos)..pos]
      ensures r.Failure? ==> r.error == Truncated && pos == old(pos)
    {
      if pos + n > |buf| {
        return Failure(Truncated);
      }
      pos := pos + n;
      return Success(buf[pos - n..pos]);
    }

    method Number(width: nat) returns (r: Result<nat, DecodeError>)
      requires Valid() && Expects(NumShape(width))
      modifies this
      ensures r.Success? ==> Valid() && pos == old(pos) + width
      ensures r.Success? ==> r.value < Pow256(width) && r.value == FromBigEndian(buf[old(pos)..pos])
      ensures r.Success? ==> items == old(items) + [Num(width, r.value)]
      ensures r.Failure? ==> r.error == Truncated && Hopeless(plan, buf)
      ensures r.Failure? ==> old(pos) + width > |buf|
    {
      ghost var start := pos;
      var field := Take(width);
      if field.Failure? {
        StuckIsHopeless(plan, buf, items, start);
        return Failure(Truncated);
      }
      var v := FromBigEndian(field.value);
      BigEndianEncodes(field.value);
      Accept(start, Num(width, v));
      return Success(v);
    }

    method U8() returns (r: Result<Byte, DecodeError>)
      requires Valid() && Expects(NumShape(1))
      modifies this
      ensures r.Success? ==> Valid() && pos == old(pos) + 1 && r.value == buf[old(pos)]
      ensures r.Success? ==> items == old(items) + [Num(1, r.value)]
      ensures r.Failure? ==> r.error == Truncated && Hopeless(plan, buf)
      ensures r.Failure? ==> old(pos) == |buf|
    {
      WordSizes();
      assert pos < |buf| ==> buf[pos..pos + 1] == [buf[pos]] && [buf[pos]][..0] == [];
      var n :- Number(1);
      return Success(n);
    }

    method U32() returns (r: Result<U32, DecodeError>)
      requires Valid() && Expects(NumShape(4))
      modifies this
      ensures r.Success? ==> Valid() && pos == old(pos) + 4
      ensures r.Success? ==> items == old(items) + [Num(4, r.value)]
      ensures r.Failure? ==> r.error == Truncated && Hopeless(plan, buf)
    {
      WordSizes();
      var n :- Number(4);
      return Success(n);
    }

    method U64() returns (r: Result<U64, DecodeError>)
      requires Valid() && Expects(NumShape(8))
      modifies this
      ensures r.Success? ==> Valid() && pos == old(pos) + 8
      ensures r.Success? ==> items == old(items) + [Num(8, r.value)]
      ensures r.Failure? ==> r.error == Truncated && Hopeless(plan, buf)
    {
      WordSizes();
      var n :- Number(8);
      return Success(n);
    }

    method Fixed(n: nat) returns (r: Result<Bytes, DecodeError>)
      requires Valid() && Expects(RawShape(n))
      modifies this
      ensures r.Success? ==> Valid() && |r.value| == n && pos == old(pos) + n
      ensures r.Success? ==> items == old(items) + [Raw(r.value)]
      ensures r.Failure? ==> r.error == Truncated && Hopeless(plan, buf)
    {
      ghost var start := pos;
      var field := Take(n);
      if field.Failure? {
        StuckIsHopeless(plan, buf, items, start);
        return Failure(Truncated);
      }
      Accept(start, Raw(field.value));
      return field;
    }

    /** A length prefix and then that many bytes. */
    method VarBytes() returns (r: Result<Bytes, DecodeError>)
      requires Valid() && Expects(VarShape)
      modifies this
      ensures r.Success? ==> Valid() && |r.value| < TWO32
      ensures r.Success? ==> items == old(items) + [Var(r.value)]
      ensures r.Failure? ==> r.error == Truncated && Hopeless(plan, buf)
    {
      ghost var start := pos;
      ghost var left := buf[start..];
      var prefix := Take(4);
      if prefix.Failure? {
        ShortVar(left);
        StuckIsHopeless(plan, buf, items, start);
        return Failure(Truncated);
      }
      WordSizes();
      var n: U32 := FromBigEndian(prefix.value);
      var body := Take(n);
      if body.Failure? {
        assert left[..4] == prefix.value;
        ShortVar(left);
        StuckIsHopeless(plan, buf, items, start);
        return Failure(Truncated);
      }
      ghost var slice := buf[start..pos];
      assert slice[..4] == prefix.value && slice[4..] == body.value;
      VarSlice(slice);
      Accept(start, Var(body.value));
      return body;
    }

    /** The two fixed fields that close or sign every kind of leaf. */
    method KeyAndSignature() returns (r: Result<(Key, Signature), DecodeError>)
      requires Valid() && Expects(RawShape(32)) && Later(1, RawShape(64))
      modifies this
      ensures r.Success? ==> Valid() && items == old(items) + [Raw(r.value.0), Raw(r.value.1)]
      ensures r.Failure? ==> r.error == Truncated && Hopeless(plan, buf)
    {
      var key :- Fixed(32);
      var signature :- Fixed(64);
      return Success((key, signature));
    }

    method Finish() returns (r: Result<(), DecodeError>)
      ensures r.Success? <==> pos == |buf|
      ensures r.Failure? ==> r.error == TrailingBytes
    {
      if pos != |buf| {
        return Failure(TrailingBytes);
      }
      return Success(());
    }
  }
}
