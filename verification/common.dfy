/** Small shared vocabulary: an optional value, the integer readings of the
    two JavaScript rounding idioms the engine uses on pixel arithmetic
    (`Math.floor(a / d)` and `Math.round(a / d)`), order-preserving filtering
    and the all-zero grid. */
module Common {

  datatype Option<+T> = None | Some(value: T)

  /** The value when present, `default` otherwise: a destructuring default. */
  function OrElse<T>(o: Option<T>, default: T): T
  {
    if o.Some? then o.value else default
  }

  function Max(a: int, b: int): int
  {
    if a < b then b else a
  }

  /** `Math.floor(a / d)` for integers; JavaScript divides exactly, so this
      is the floor of the rational quotient whatever the sign of `d`. */
  function FloorDiv(a: int, d: int): (q: int)
    requires d != 0
    ensures d > 0 ==> q * d <= a < q * d + d
    ensures d < 0 ==> q * d + d < a <= q * d
  {
    if d > 0 then a / d else (-a) / (-d)
  }

  /** `Math.round(a / d)`: the nearest integer, halves rounded up
      (towards +infinity), i.e. floor(a/d + 1/2). */
  function RoundDiv(a: int, d: int): (q: int)
    requires d != 0
    ensures d > 0 ==> 2 * q * d - d <= 2 * a < 2 * q * d + d
    ensures d < 0 ==> 2 * q * d + d < 2 * a <= 2 * q * d - d
  {
    if d > 0 then FloorDiv(2 * a + d, 2 * d) else FloorDiv(-2 * a - d, -2 * d)
  }

  lemma MulStrictMono(x: int, y: int, d: int)
    requires d > 0 && x < y
    ensures x * d < y * d
  {
    var k := y - x;
    assert k * d >= d by {
      var j := k - 1;
      assert j >= 0;
      assert j * d >= 0;
      assert k * d == j * d + d;
    }
    assert y * d == x * d + k * d;
  }

  lemma MulGap(x: int, y: int, d: int)
    requires d > 0 && x < y
    ensures x * d + d <= y * d
  {
    var j := y - x - 1;
    assert j * d >= 0;
    assert y * d == x * d + j * d + d;
  }

  /** The floor quotient is the only integer whose multiple lies within one
      divisor below the dividend. */
  lemma FloorDivUnique(a: int, d: int, q: int)
    requires d > 0 && q * d <= a < q * d + d
    ensures FloorDiv(a, d) == q
  {
    var f := FloorDiv(a, d);
    if f < q { MulGap(f, q, d); }
    if q < f { MulGap(q, f, d); }
  }

  /** Rounding an exact multiple gives the multiplier back. */
  lemma RoundDivExact(k: int, d: int)
    requires d != 0
    ensures RoundDiv(k * d, d) == k
  {
    var q := RoundDiv(k * d, d);
    if d > 0 {
      // 2qd - d <= 2kd < 2qd + d, hence (2q-1)d <= 2kd < (2q+1)d
      if q < k { MulStrictMono(2 * q, 2 * k - 1, d); }
      if q > k { MulStrictMono(2 * k, 2 * q - 1, d); }
    } else {
      var e := -d;
      assert 2 * q * e - e <= 2 * k * e < 2 * q * e + e;
      if q < k { MulStrictMono(2 * q, 2 * k - 1, e); }
      if q > k { MulStrictMono(2 * k, 2 * q - 1, e); }
    }
  }

  /** `Array.prototype.filter`: keeps, in order, the elements satisfying `p`. */
  function Filter<T(!new)>(s: seq<T>, p: T -> bool): (r: seq<T>)
    ensures |r| <= |s|
    ensures forall x :: x in r <==> x in s && p(x)
    ensures forall i :: 0 <= i < |r| ==> p(r[i])
  {
    if |s| == 0 then []
    else if p(s[0]) then [s[0]] + Filter(s[1..], p)
    else Filter(s[1..], p)
  }

  /** Number of elements satisfying `p`: the `.filter(p).length` idiom. */
  function Count<T(!new)>(s: seq<T>, p: T -> bool): (n: nat)
    ensures n == |Filter(s, p)|
  {
    if |s| == 0 then 0 else (if p(s[0]) then 1 else 0) + Count(s[1..], p)
  }

  lemma CountCons<T(!new)>(s: seq<T>, p: T -> bool)
    requires |s| > 0
    ensures Count(s, p) == (if p(s[0]) then 1 else 0) + Count(s[1..], p)
  {
  }

  /** Counting distributes over concatenation. */
  lemma {:induction false} CountConcat<T(!new)>(a: seq<T>, b: seq<T>, p: T -> bool)
    ensures Count(a + b, p) == Count(a, p) + Count(b, p)
  {
    if |a| > 0 {
      assert (a + b)[1..] == a[1..] + b;
      CountConcat(a[1..], b, p);
      CountCons(a + b, p);
      CountCons(a, p);
    } else {
      assert a + b == b;
    }
  }

  /** Counting does not depend on the order of the elements. */
  lemma {:induction false} CountPermutation<T(!new)>(a: seq<T>, b: seq<T>, p: T -> bool)
    requires multiset(a) == multiset(b)
    ensures Count(a, p) == Count(b, p)
    decreases |a|
  {
    if |a| == 0 {
      assert |b| == |multiset(b)| == 0;
    } else {
      var x := a[0];
      assert x in multiset(b);
      var i :| 0 <= i < |b| && b[i] == x;
      var b' := b[..i] + b[i + 1..];
      assert b == b[..i] + [x] + b[i + 1..];
      assert a == [x] + a[1..];
      assert multiset(a) == multiset{x} + multiset(a[1..]);
      assert multiset(b[..i] + [x] + b[i + 1..]) == multiset(b[..i]) + multiset{x} + multiset(b[i + 1..]);
      assert multiset(b') == multiset(b[..i]) + multiset(b[i + 1..]);
      assert multiset(a[1..]) == multiset(a) - multiset{x};
      assert multiset(b') == multiset(b) - multiset{x};
      CountPermutation(a[1..], b', p);
      CountConcat(b[..i] + [b[i]], b[i + 1..], p);
      CountConcat(b[..i], [b[i]], p);
      CountConcat(b[..i], b[i + 1..], p);
      CountCons(a, p);
      assert Count([b[i]], p) == if p(x) then 1 else 0;
    }
  }

  /** `Array(rows).fill(null).map(() => Array(cols).fill(v))`: a rows x cols
      table filled with `v`, or None for the RangeError that `Array(n)`
      throws on a negative length. A negative `cols` throws only when there
      is a row to build. */
  function FillGrid<T>(rows: int, cols: int, v: T): (g: Option<seq<seq<T>>>)
    ensures g.None? <==> rows < 0 || (rows > 0 && cols < 0)
    ensures g.Some? ==> |g.value| == rows
    ensures g.Some? ==> forall r :: 0 <= r < rows ==> |g.value[r]| == cols
    ensures g.Some? ==> forall r, c :: 0 <= r < rows && 0 <= c < cols ==> g.value[r][c] == v
  {
    if rows < 0 || (rows > 0 && cols < 0) then None
    else if rows == 0 then Some([])
    else Some(seq(rows, _ => seq(cols, _ => v)))
  }

  /** A stream of `Math.random()` results: the i-th call made by a
      computation returns `rand(i)`. */
  type Random = nat -> real

  ghost predicate IsRandom(rand: Random)
  {
    forall i: nat :: 0.0 <= rand(i) < 1.0
  }

  /** `Math.floor(u * k)` for a random `u` in [0, 1): an index below `k`
      when `k` is positive, a value in [k, 0] otherwise. */
  function RandomBelow(u: real, k: int): (r: int)
    requires 0.0 <= u < 1.0
    ensures k >= 1 ==> 0 <= r < k
    ensures k <= 0 ==> k <= r <= 0
  {
    ScaledFloor(u, k);
    (u * (k as real)).Floor
  }

  /** The bounds of `Math.floor(u * k)`, for either sign of `k`. */
  lemma ScaledFloor(u: real, k: int)
    requires 0.0 <= u < 1.0
    ensures k >= 1 ==> 0 <= (u * (k as real)).Floor < k
    ensures k <= 0 ==> k <= (u * (k as real)).Floor <= 0
  {
    var p := u * (k as real);
    ScaleUnit(u, k);
    if k >= 1 {
      assert 0 as real <= p < k as real;
      FloorWithin(p, 0, k);
    } else {
      assert k as real <= p < 1 as real;
      FloorWithin(p, k, 1);
    }
  }

  /** Scaling by a number in [0, 1) moves towards zero. */
  lemma ScaleUnit(u: real, k: int)
    requires 0.0 <= u < 1.0
    ensures k >= 1 ==> 0.0 <= u * (k as real) < k as real
    ensures k <= 0 ==> k as real <= u * (k as real) <= 0.0
  {
    var kr := k as real;
    assert kr - u * kr == (1.0 - u) * kr;
    if k >= 1 {
      assert kr > 0.0;
      assert (1.0 - u) * kr > 0.0;
      assert u * kr >= 0.0;
    } else if k < 0 {
      assert kr < 0.0;
      assert (1.0 - u) * (-kr) > 0.0;
      assert u * (-kr) >= 0.0;
    }
  }

  /** The floor of a real in [lo, hi) lies in [lo, hi). */
  lemma FloorWithin(p: real, lo: int, hi: int)
    requires lo as real <= p < hi as real
    ensures lo <= p.Floor < hi
  {
    var r := p.Floor;
    assert r as real <= p < r as real + 1.0;
  }

  /** The decimal digit for `d`. */
  function DigitChar(d: nat): char
    requires d < 10
  {
    ('0' as int + d) as char
  }

  /** Decimal rendering of a natural number, as template-string
      interpolation prints it. */
  function NatToString(n: nat): (s: string)
    ensures |s| >= 1
    ensures n < 10 <==> |s| == 1
    ensures s[|s| - 1] == DigitChar(n % 10)
    ensures forall i :: 0 <= i < |s| ==> '0' <= s[i] <= '9'
  {
    if n < 10 then [DigitChar(n)] else NatToString(n / 10) + [DigitChar(n % 10)]
  }

  /** Different numbers print differently. */
  lemma {:induction false} NatToStringInjective(a: nat, b: nat)
    requires NatToString(a) == NatToString(b)
    ensures a == b
  {
    var s := NatToString(a);
    assert DigitChar(a % 10) == DigitChar(b % 10);
    if a >= 10 {
      assert NatToString(a / 10) == s[..|s| - 1] == NatToString(b / 10);
      NatToStringInjective(a / 10, b / 10);
      assert a == 10 * (a / 10) + a % 10 && b == 10 * (b / 10) + b % 10;
    }
  }

  /** A positive number prints without a leading zero. */
  lemma {:induction false} LeadingDigit(n: nat)
    requires n >= 1
    ensures NatToString(n)[0] != '0'
  {
    if n >= 10 {
      LeadingDigit(n / 10);
      assert NatToString(n)[0] == NatToString(n / 10)[0];
    }
  }

  /** A prefix of a sequence that starts with s + [x] is s. */
  lemma PrefixOfExtension<T>(s: seq<T>, x: T, t: seq<T>)
    requires |s| + 1 <= |t| && t[..|s| + 1] == s + [x]
    ensures t[..|s|] == s
  {
    assert t[..|s|] == (t[..|s| + 1])[..|s|];
  }
}
