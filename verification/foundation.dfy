/** Shared building blocks of the symmetry-analysis model: failure-carrying
    results, exact complex arithmetic over reals, Python's rounding rules on
    reals, and the first-index lookup that `list.index` and `np.where(...)[0][0]`
    perform. */

module Outcomes {

  /** A value that may be missing (the source raises or skips in that case). */
  datatype Option<+T> = None | Some(value: T)

  /** Either a computed value or the reason the source would have raised. */
  datatype Result<+T, +E> = Ok(value: T) | Err(error: E)

  /** Applies f to every element in order and collects the values, stopping
      at the first failure as a Python loop that raises would. */
  function MapAll<A, B, E>(f: A -> Result<B, E>, xs: seq<A>): (r: Result<seq<B>, E>)
    ensures r.Ok? ==> |r.value| == |xs|
    ensures r.Ok? ==> forall k :: 0 <= k < |xs| ==> f(xs[k]) == Ok(r.value[k])
    ensures r.Err? <==> exists k :: 0 <= k < |xs| && f(xs[k]).Err?
  {
    if |xs| == 0 then Ok([])
    else
      var init := xs[..|xs| - 1];
      var prev := MapAll(f, init);
      assert forall k :: 0 <= k < |init| ==> init[k] == xs[k];
      if prev.Err? then prev
      else
        match f(xs[|xs| - 1])
        case Err(e) => Err(e)
        case Ok(v) => Ok(prev.value + [v])
  }
}

module ComplexArith {

  /** A complex number, held exactly as its real and imaginary parts. */
  datatype Complex = Complex(re: real, im: real)

  const Zero: Complex := Complex(0.0, 0.0)
  const One: Complex := Complex(1.0, 0.0)

  function OfReal(x: real): Complex {
    Complex(x, 0.0)
  }

  function Add(a: Complex, b: Complex): Complex {
    Complex(a.re + b.re, a.im + b.im)
  }

  function Mul(a: Complex, b: Complex): Complex {
    Complex(a.re * b.re - a.im * b.im, a.re * b.im + a.im * b.re)
  }

  function Conj(a: Complex): Complex {
    Complex(a.re, -a.im)
  }

  /** Multiplication by a real factor. */
  function Scale(k: real, a: Complex): Complex {
    Complex(k * a.re, k * a.im)
  }

  /** |a|^2 */
  function AbsSq(a: Complex): real {
    a.re * a.re + a.im * a.im
  }

  /** A value times its own conjugate is the real number |a|^2. */
  lemma MulConj(a: Complex)
    ensures Mul(a, Conj(a)) == OfReal(AbsSq(a))
  {
  }

  lemma MulOneLeft(a: Complex)
    ensures Mul(One, a) == a
  {
  }

  /** Dividing by a nonzero real and multiplying back is the identity. */
  lemma ScaleInverse(k: real, a: Complex)
    requires k != 0.0
    ensures Scale(k, Scale(1.0 / k, a)) == a
    ensures Scale(1.0 / k, OfReal(k)) == One
  {
    calc {
      k * (1.0 / k * a.re);
      (k * (1.0 / k)) * a.re;
      a.re;
    }
    calc {
      k * (1.0 / k * a.im);
      (k * (1.0 / k)) * a.im;
      a.im;
    }
  }
}

module Numeric {

  function Abs(x: real): real {
    if x < 0.0 then -x else x
  }

  /** Python's built-in `round(x)` on a number, exact on reals: the nearest
      integer, and of two equally near integers the even one. */
  function Round(x: real): (n: int)
    ensures Abs(n as real - x) <= 0.5
    ensures Abs(n as real - x) == 0.5 ==> n % 2 == 0
  {
    var f := x.Floor;
    var frac := x - f as real;
    if frac < 0.5 then f
    else if frac > 0.5 then f + 1
    else if f % 2 == 0 then f
    else f + 1
  }

  /** No integer is nearer to x than Round(x). */
  lemma RoundIsNearest(x: real, m: int)
    ensures Abs(Round(x) as real - x) <= Abs(m as real - x)
  {
    var f := x.Floor;
    assert f as real <= x < f as real + 1.0;
    if m <= f {
      assert Abs(m as real - x) >= x - f as real;
    } else {
      assert Abs(m as real - x) >= f as real + 1.0 - x;
    }
  }

  /** An integer rounds to itself. */
  lemma RoundOfInt(n: int)
    ensures Round(n as real) == n
  {
    assert (n as real).Floor == n;
  }

  /** A value strictly within tol <= 1/2 of an integer rounds to that integer. */
  lemma RoundWithin(x: real, n: int, tol: real)
    requires tol <= 0.5
    requires Abs(x - n as real) < tol
    ensures Round(x) == n
  {
    var r := Round(x);
    assert Abs(r as real - x) <= 0.5;
    assert -1.0 < r as real - n as real < 1.0;
  }

  /** Python's `round(x, 1)`, modelled on reals as rounding 10x to an integer. */
  function Round1(x: real): (r: real)
    ensures Abs(r - x) <= 0.05
    ensures (r * 10.0).Floor as real == r * 10.0
  {
    var n := Round(10.0 * x);
    TenthOf(n, 10.0 * x);
    n as real / 10.0
  }

  /** n/10 is ten times smaller than n, and it is within 1/20 of y/10 when n
      is within 1/2 of y. */
  lemma TenthOf(n: int, y: real)
    requires Abs(n as real - y) <= 0.5
    ensures ((n as real / 10.0) * 10.0).Floor as real == (n as real / 10.0) * 10.0
    ensures Abs(n as real / 10.0 - y / 10.0) <= 0.05
  {
    var r := n as real / 10.0;
    assert r * 10.0 == n as real;
    assert (n as real).Floor == n;
    var d := n as real - y;
    assert r - y / 10.0 == d / 10.0;
  }

  /** A value that already has one decimal is kept by Round1. */
  lemma Round1OfTenth(n: int)
    ensures Round1(n as real / 10.0) == n as real / 10.0
  {
    assert 10.0 * (n as real / 10.0) == n as real;
    RoundOfInt(n);
  }
}

module Seqs {
  import opened Outcomes

  /** The first position holding v, as `list.index(v)` or
      `np.where(np.all(xs == v, axis=1))[0][0]` find it; None where those raise. */
  function IndexOf<T(==)>(xs: seq<T>, v: T): (r: Option<nat>)
    ensures r.Some? ==> r.value < |xs| && xs[r.value] == v
    ensures r.Some? ==> forall k :: 0 <= k < r.value ==> xs[k] != v
    ensures r.None? <==> v !in xs
  {
    if |xs| == 0 then None
    else if xs[0] == v then Some(0)
    else match IndexOf(xs[1..], v)
      case None => None
      case Some(j) => Some(j + 1)
  }

  /** The elements at the given positions, in the order of the positions. */
  function Pick<T>(xs: seq<T>, idx: seq<nat>): (r: seq<T>)
    requires forall k :: 0 <= k < |idx| ==> idx[k] < |xs|
    ensures |r| == |idx|
    ensures forall k :: 0 <= k < |idx| ==> r[k] == xs[idx[k]]
  {
    seq(|idx|, k requires 0 <= k < |idx| => xs[idx[k]])
  }

  /** The positions 0, 1, ..., n-1. */
  function Range(n: nat): (r: seq<nat>)
    ensures |r| == n
    ensures forall k :: 0 <= k < n ==> r[k] == k
  {
    seq(n, k requires 0 <= k < n => k)
  }

  ghost predicate Distinct<T>(xs: seq<T>) {
    forall i, j :: 0 <= i < j < |xs| ==> xs[i] != xs[j]
  }

  /** In a list without repeats, the first index of an element is its index. */
  lemma IndexOfDistinct<T>(xs: seq<T>, i: nat)
    requires Distinct(xs)
    requires i < |xs|
    ensures IndexOf(xs, xs[i]) == Some(i)
  {
    var r := IndexOf(xs, xs[i]);
    assert xs[i] in xs;
  }
}
