/** Machine integers, byte strings and big-endian numbers, and the two result
    types every other module uses. */
module Bytes {
  const TWO32: int := 0x1_0000_0000
  const TWO63: int := 0x8000_0000_0000_0000
  const TWO64: int := 0x1_0000_0000_0000_0000

  type Byte = x: int | 0 <= x < 256
  type Bytes = seq<Byte>
  type U32 = x: int | 0 <= x < TWO32
  type U64 = x: int | 0 <= x < TWO64
  type I64 = x: int | -TWO63 <= x < TWO63

  type Hash = h: Bytes | |h| == 32 witness seq(32, _ => 0)
  type Key = k: Bytes | |k| == 32 witness seq(32, _ => 0)
  type Signature = s: Bytes | |s| == 64 witness seq(64, _ => 0)
  type WorkId = w: Bytes | |w| == 16 witness seq(16, _ => 0)

  datatype Option<+T> = None | Some(value: T)

  datatype Result<+T, +E> = Success(value: T) | Failure(error: E) {
    predicate IsFailure() { Failure? }

    function PropagateFailure<U>(): Result<U, E>
      requires Failure?
    {
      Failure(error)
    }

    function Extract(): T
      requires Success?
    {
      value
    }
  }

  function Pow256(n: nat): (p: nat)
    ensures p > 0
  {
    if n == 0 then 1 else 256 * Pow256(n - 1)
  }

  /** The low `width` bytes of v, most significant first. */
  function BigEndian(width: nat, v: nat): (b: Bytes)
    ensures |b| == width
  {
    if width == 0 then [] else BigEndian(width - 1, v / 256) + [v % 256]
  }

  function FromBigEndian(b: Bytes): (v: nat)
    ensures v < Pow256(|b|)
  {
    if b == [] then 0 else FromBigEndian(b[..|b| - 1]) * 256 + b[|b| - 1]
  }

  lemma {:induction false} ProductGrows(a: nat, b: nat, d: nat)
    requires a < b
    ensures a * d + d <= b * d
  {
    assert b * d == (b - 1) * d + d;
    if a < b - 1 {
      ProductGrows(a, b - 1, d);
    }
  }

  lemma QuotientIsUnique(v: nat, d: nat, q: nat, r: nat)
    requires d > 0 && v == q * d + r && r < d
    ensures v / d == q
  {
    var k := v / d;
    if k < q {
      ProductGrows(k, q, d);
    } else if k > q {
      ProductGrows(q, k, d);
    }
  }

  lemma DigitFits(a: nat, b: nat, m: nat, r: nat)
    requires m < b && r < a
    ensures m * a + r < a * b
  {
    ProductGrows(m, b, a);
  }

  lemma Distributes(v: nat, a: nat, b: nat, x: nat, q: nat, m: nat, r: nat)
    requires v == x * a + r && x == q * b + m
    ensures v == q * (a * b) + (m * a + r)
  {}

  lemma DivideTwice(v: nat, a: nat, b: nat)
    requires a > 0 && b > 0
    ensures a * b > 0 && v / a / b == v / (a * b)
  {
    var x, r := v / a, v % a;
    var q, m := x / b, x % b;
    Distributes(v, a, b, x, q, m, r);
    DigitFits(a, b, m, r);
    QuotientIsUnique(v, a * b, q, m * a + r);
  }

  /** Each byte of a number, by its weight. */
  lemma {:induction false} BigEndianByte(width: nat, v: nat, i: nat)
    requires i < width
    ensures BigEndian(width, v)[i] == v / Pow256(width - 1 - i) % 256
  {
    if i < width - 1 {
      BigEndianByte(width - 1, v / 256, i);
      DivideTwice(v, 256, Pow256(width - 2 - i));
    }
  }

  lemma {:induction false} BigEndianDecodes(width: nat, v: nat)
    requires v < Pow256(width)
    ensures FromBigEndian(BigEndian(width, v)) == v
  {
    if width > 0 {
      BigEndianDecodes(width - 1, v / 256);
      var b := BigEndian(width, v);
      assert b[..width - 1] == BigEndian(width - 1, v / 256);
    }
  }

  lemma {:induction false} BigEndianEncodes(b: Bytes)
    ensures BigEndian(|b|, FromBigEndian(b)) == b
  {
    if b != [] {
      BigEndianEncodes(b[..|b| - 1]);
      assert b == b[..|b| - 1] + [b[|b| - 1]];
    }
  }

  lemma WordSizes()
    ensures Pow256(1) == 256 && Pow256(4) == TWO32 && Pow256(8) == TWO64
  {
    assert Pow256(4) == 256 * (256 * (256 * (256 * Pow256(0))));
    assert Pow256(8) == 256 * (256 * (256 * (256 * Pow256(4))));
  }
}
