/** Java's 32-bit `int`: its range and its two's-complement wrap-around. */
module JavaInt {

  const MIN_INT: int := -0x8000_0000
  const MAX_INT: int := 0x7fff_ffff
  const TWO_32: int := 0x1_0000_0000

  predicate IsInt32(n: int) {
    MIN_INT <= n <= MAX_INT
  }

  /** `a` and `b` denote the same 32-bit pattern. */
  predicate SameBits(a: int, b: int) {
    (a - b) % TWO_32 == 0
  }

  /** The `int` Java holds after an arithmetic result `n` overflows. */
  function Wrap32(n: int): (r: int)
    ensures IsInt32(r)
    ensures SameBits(r, n)
  {
    (n - MIN_INT) % TWO_32 + MIN_INT
  }

  /** Two ints with the same bit pattern are the same int. */
  lemma SameBitsInRange(a: int, b: int)
    requires IsInt32(a) && IsInt32(b) && SameBits(a, b)
    ensures a == b
  {
  }

  lemma WrapOfInt32(n: int)
    ensures IsInt32(n) ==> Wrap32(n) == n
  {
    if IsInt32(n) {
      SameBitsInRange(Wrap32(n), n);
    }
  }

  /** Wrapping an intermediate result does not change the final wrapped sum. */
  lemma WrapAddLeft(a: int, b: int)
    ensures Wrap32(Wrap32(a) + b) == Wrap32(a + b)
  {
    var x := Wrap32(Wrap32(a) + b);
    var y := Wrap32(a + b);
    assert SameBits(x, Wrap32(a) + b);
    assert SameBits(Wrap32(a), a);
    assert SameBits(y, a + b);
    SameBitsInRange(x, y);
  }

  /** Agreement modulo 2^32 is kept by addition. */
  lemma SameBitsAdd(a: int, b: int, c: int, d: int)
    requires SameBits(a, b) && SameBits(c, d)
    ensures SameBits(a + c, b + d)
  {
    var k := (a - b) / TWO_32;
    var l := (c - d) / TWO_32;
    assert (a + c) - (b + d) == (k + l) * TWO_32;
  }

  /** Numbers that agree modulo 2^32 wrap to the same int. */
  lemma SameBitsWrap(a: int, b: int)
    requires SameBits(a, b)
    ensures Wrap32(a) == Wrap32(b)
  {
    SameBitsInRange(Wrap32(a), Wrap32(b));
  }

  /** Exact sum of a sequence of integers. */
  function Sum(xs: seq<int>): int
    decreases |xs|
  {
    if |xs| == 0 then 0 else xs[0] + Sum(xs[1..])
  }

  lemma {:induction false} SumAppend(xs: seq<int>, ys: seq<int>)
    ensures Sum(xs + ys) == Sum(xs) + Sum(ys)
    decreases |xs|
  {
    if |xs| == 0 {
      assert xs + ys == ys;
    } else {
      assert (xs + ys)[1..] == xs[1..] + ys;
      SumAppend(xs[1..], ys);
    }
  }

  /** `IntStream.sum()`: a left fold that wraps after every addition. */
  function FoldSum(acc: int, xs: seq<int>): (r: int)
    requires IsInt32(acc)
    ensures r == Wrap32(acc + Sum(xs))
    decreases |xs|
  {
    if |xs| == 0 then
      WrapOfInt32(acc);
      acc
    else
      WrapAddLeft(acc + xs[0], Sum(xs[1..]));
      FoldSum(Wrap32(acc + xs[0]), xs[1..])
  }

  /** The Java sum of `xs`: zero for an empty stream. */
  function IntSum(xs: seq<int>): (r: int)
    ensures IsInt32(r)
    ensures |xs| == 0 ==> r == 0
    ensures r == Wrap32(Sum(xs))
  {
    FoldSum(0, xs)
  }

  /** The Java sum of `xs + [x]` is the wrapped Java sum of `xs` plus `x`. */
  lemma IntSumSnoc(xs: seq<int>, x: int)
    ensures IntSum(xs + [x]) == Wrap32(IntSum(xs) + x)
  {
    SumAppend(xs, [x]);
    assert Sum([x]) == x;
    WrapAddLeft(Sum(xs), x);
  }
}
