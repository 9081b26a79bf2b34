/** Weight arithmetic of the weighted round-robin balancer: Go's remainder,
    Euclid's gcd, and the maximum and gcd of a pool's weights, each with the
    sentinel values the Go helpers start from. */
module Weights {

  function Abs(x: int): nat { if x < 0 then -x else x }

  /** Go's `%` on `int`: truncated division, so the remainder takes the sign
      of the dividend (Dafny's own `%` is Euclidean). */
  function GoRem(a: int, b: int): (r: int)
    requires b != 0
    ensures Abs(r) < Abs(b)
    ensures a >= 0 ==> 0 <= r
    ensures a >= 0 && b > 0 ==> r == a % b
  {
    if a >= 0 then a % Abs(b) else -((-a) % Abs(b))
  }

  /** Euclid's algorithm exactly as the Go `gcd` loop runs it. */
  function EuclidGcd(a: int, b: int): (r: int)
    ensures a >= 0 && b >= 0 ==> r >= 0
    decreases Abs(b)
  {
    if b == 0 then a else EuclidGcd(b, GoRem(a, b))
  }

  /** The Go `gcd` helper: Euclid's loop on two integers. */
  method Gcd(a: int, b: int) returns (r: int)
    ensures r == EuclidGcd(a, b)
    ensures a >= 0 && b >= 0 ==> r >= 0 && Divides(r, a) && Divides(r, b)
  {
    var x, y := a, b;
    while y != 0
      invariant EuclidGcd(x, y) == EuclidGcd(a, b)
      decreases Abs(y)
    {
      x, y := y, GoRem(x, y);
    }
    r := x;
    if a >= 0 && b >= 0 {
      GcdDividesBoth(a, b);
    }
  }

  /** `d` divides `x` (only zero is divisible by zero). */
  predicate Divides(d: int, x: int) {
    if d == 0 then x == 0 else x % d == 0
  }

  predicate NonNegative(ws: seq<int>) {
    forall k :: 0 <= k < |ws| ==> ws[k] >= 0
  }

  /** Largest weight, starting from Go's sentinel -1 (so -1 for an empty pool). */
  function MaxOf(ws: seq<int>): (m: int)
    ensures m >= -1
    ensures forall k :: 0 <= k < |ws| ==> ws[k] <= m
    ensures m == -1 || m in ws
  {
    if |ws| == 0 then -1
    else
      var m0 := MaxOf(ws[..|ws| - 1]);
      if ws[|ws| - 1] > m0 then ws[|ws| - 1] else m0
  }

  /** Gcd of all weights, starting from Go's sentinel -1: the first weight seen
      while the divisor is still -1 replaces it, every later one is folded in
      with Euclid's algorithm. */
  function GcdOf(ws: seq<int>): int
  {
    if |ws| == 0 then -1
    else
      var d := GcdOf(ws[..|ws| - 1]);
      if d == -1 then ws[|ws| - 1] else EuclidGcd(d, ws[|ws| - 1])
  }

  /** A position holding the largest weight. */
  ghost function MaxIndex(ws: seq<int>): (k: nat)
    requires |ws| > 0 && MaxOf(ws) >= 0
    ensures k < |ws| && ws[k] == MaxOf(ws)
  {
    var k :| 0 <= k < |ws| && ws[k] == MaxOf(ws); k
  }

  /** Every weight multiplied by `f`. */
  function Scale(ws: seq<int>, f: int): (r: seq<int>)
    ensures |r| == |ws|
    ensures forall k :: 0 <= k < |ws| ==> r[k] == f * ws[k]
  {
    seq(|ws|, k requires 0 <= k < |ws| => f * ws[k])
  }

  // ---------------------------------------------------------------------------
  // Arithmetic facts

  lemma MulMonotone(f: int, a: int, b: int)
    requires f > 0
    ensures a < b <==> f * a < f * b
    ensures a <= b <==> f * a <= f * b
  {
    if a < b {
      MulAtLeast(f, b - a);
    } else {
      MulAtLeast(f, a - b + 1);
    }
  }

  lemma MulAtLeast(d: int, t: int)
    requires d > 0
    ensures t >= 1 ==> d * t >= d
    ensures t <= -1 ==> d * t <= -d
  {
  }

  lemma DivMod(x: int, d: int)
    requires d > 0
    ensures x == d * (x / d) + x % d && 0 <= x % d < d
  {
  }

  /** Euclidean division is unique. */
  lemma ModUnique(x: int, d: int, q: int, r: int)
    requires d > 0 && 0 <= r < d && x == d * q + r
    ensures x % d == r && x / d == q
  {
    var q', r' := x / d, x % d;
    assert d * (q - q') == r' - r;
    MulAtLeast(d, q - q');
  }

  lemma DividesCombination(d: int, x: int, y: int, s: int, t: int)
    requires d > 0 && x % d == 0 && y % d == 0
    ensures (s * x + t * y) % d == 0
  {
    var a, b := x / d, y / d;
    assert x == d * a && y == d * b;
    assert s * x + t * y == d * (s * a + t * b);
    ModUnique(s * x + t * y, d, s * a + t * b, 0);
  }

  lemma DividesTrans(a: int, b: int, c: int)
    requires a >= 0 && Divides(a, b) && Divides(b, c)
    ensures Divides(a, c)
  {
    if b == 0 {
    } else if a == 0 {
    } else {
      var s := b / a;
      assert b == a * s;
      if b < 0 {
        DividesCombination(-b, c, 0, 1, 0);
        assert c % -b == 0 by {
          var t := c / b;
          assert c == b * t;
          ModUnique(c, -b, -t, 0);
        }
      }
      var t := c / b;
      assert c == b * t;
      assert c == a * (s * t);
      ModUnique(c, a, s * t, 0);
    }
  }

  // ---------------------------------------------------------------------------
  // Euclid's gcd on non-negative operands

  /** The result of Euclid's algorithm divides both operands. */
  lemma {:induction false} GcdDividesBoth(a: int, b: int)
    requires a >= 0 && b >= 0
    ensures Divides(EuclidGcd(a, b), a) && Divides(EuclidGcd(a, b), b)
    decreases b
  {
    if b != 0 {
      var r := a % b;
      GcdDividesBoth(b, r);
      var g := EuclidGcd(b, r);
      assert g == EuclidGcd(a, b);
      assert a == (a / b) * b + 1 * r;
      if g != 0 {
        DividesCombination(g, b, r, a / b, 1);
      }
    } else {
      if a != 0 {
        ModUnique(a, a, 1, 0);
      }
    }
  }

  /** Every common divisor of the operands divides their gcd. */
  lemma {:induction false} GcdGreatest(a: int, b: int, d: int)
    requires a >= 0 && b >= 0 && d > 0 && Divides(d, a) && Divides(d, b)
    ensures Divides(d, EuclidGcd(a, b))
    decreases b
  {
    if b != 0 {
      var r := a % b;
      assert r == 1 * a + (-(a / b)) * b;
      DividesCombination(d, a, b, 1, -(a / b));
      GcdGreatest(b, r, d);
    }
  }

  /** Scaling both operands scales the gcd. */
  lemma {:induction false} GcdScale(a: int, b: int, f: int)
    requires a >= 0 && b >= 0 && f > 0
    ensures EuclidGcd(f * a, f * b) == f * EuclidGcd(a, b)
    decreases b
  {
    if b != 0 {
      var q, r := a / b, a % b;
      assert f * r < f * b;
      assert f * a == (f * b) * q + f * r;
      ModUnique(f * a, f * b, q, f * r);
      assert GoRem(f * a, f * b) == f * r;
      GcdScale(b, r, f);
    }
  }

  // ---------------------------------------------------------------------------
  // Maximum and gcd of a pool

  /** On a non-empty pool of non-negative weights the maximum is one of them and
      is never the sentinel. */
  lemma MaxOfNonNegative(ws: seq<int>)
    requires |ws| > 0 && NonNegative(ws)
    ensures MaxOf(ws) >= 0 && MaxOf(ws) in ws
  {
    assert ws[0] <= MaxOf(ws);
  }

  /** Appending an entry raises the maximum to its weight if it is heavier, and
      leaves it otherwise. */
  lemma MaxOfAppend(ws: seq<int>, w: int)
    ensures MaxOf(ws + [w]) == if w > MaxOf(ws) then w else MaxOf(ws)
  {
    assert (ws + [w])[..|ws|] == ws;
  }

  /** The gcd of a non-empty pool of non-negative weights is a non-negative
      common divisor of all of them. */
  lemma {:induction false} GcdOfDividesAll(ws: seq<int>)
    requires |ws| > 0 && NonNegative(ws)
    ensures GcdOf(ws) >= 0
    ensures forall k :: 0 <= k < |ws| ==> Divides(GcdOf(ws), ws[k])
  {
    var n := |ws|;
    var last := ws[n - 1];
    if n == 1 {
      assert GcdOf(ws) == last;
      if last != 0 {
        ModUnique(last, last, 1, 0);
      }
    } else {
      var front := ws[..n - 1];
      GcdOfDividesAll(front);
      var d := GcdOf(front);
      assert GcdOf(ws) == EuclidGcd(d, last);
      GcdDividesBoth(d, last);
      var g := EuclidGcd(d, last);
      forall k | 0 <= k < n
        ensures Divides(g, ws[k])
      {
        if k < n - 1 {
          assert front[k] == ws[k];
          DividesTrans(g, d, ws[k]);
        }
      }
    }
  }

  /** Every positive common divisor of the weights divides their gcd. */
  lemma {:induction false} GcdOfGreatest(ws: seq<int>, d: int)
    requires |ws| > 0 && NonNegative(ws) && d > 0
    requires forall k :: 0 <= k < |ws| ==> Divides(d, ws[k])
    ensures Divides(d, GcdOf(ws))
  {
    var n := |ws|;
    if n > 1 {
      var front := ws[..n - 1];
      GcdOfGreatest(front, d);
      GcdOfDividesAll(front);
      assert GcdOf(ws) == EuclidGcd(GcdOf(front), ws[n - 1]);
      assert Divides(d, ws[n - 1]);
      GcdGreatest(GcdOf(front), ws[n - 1], d);
    } else {
      assert Divides(d, ws[0]);
    }
  }

  /** While some weight is positive the gcd is positive and divides the maximum. */
  lemma GcdOfPositive(ws: seq<int>)
    requires |ws| > 0 && NonNegative(ws) && MaxOf(ws) > 0
    ensures GcdOf(ws) > 0 && MaxOf(ws) % GcdOf(ws) == 0
  {
    GcdOfDividesAll(ws);
    MaxOfNonNegative(ws);
    var k :| 0 <= k < |ws| && ws[k] == MaxOf(ws);
    assert Divides(GcdOf(ws), ws[k]);
  }

  lemma ScalePrefix(ws: seq<int>, f: int)
    requires |ws| > 0
    ensures Scale(ws, f)[..|ws| - 1] == Scale(ws[..|ws| - 1], f)
  {
  }

  /** Scaling every weight by a positive factor scales the maximum. */
  lemma {:induction false} MaxOfScale(ws: seq<int>, f: int)
    requires |ws| > 0 && NonNegative(ws) && f > 0
    ensures MaxOf(Scale(ws, f)) == f * MaxOf(ws)
  {
    var n := |ws|;
    var s := Scale(ws, f);
    ScalePrefix(ws, f);
    if n > 1 {
      MaxOfScale(ws[..n - 1], f);
      var m0 := MaxOf(ws[..n - 1]);
      assert MaxOf(s[..n - 1]) == f * m0;
      MulMonotone(f, m0, ws[n - 1]);
    } else {
      assert MaxOf(ws[..0]) == -1 && MaxOf(s[..0]) == -1;
      MulMonotone(f, 0, ws[0]);
    }
  }

  /** Scaling every weight by a positive factor scales the gcd. */
  lemma {:induction false} GcdOfScale(ws: seq<int>, f: int)
    requires |ws| > 0 && NonNegative(ws) && f > 0
    ensures GcdOf(Scale(ws, f)) == f * GcdOf(ws)
  {
    var n := |ws|;
    var s := Scale(ws, f);
    ScalePrefix(ws, f);
    if n > 1 {
      var front := ws[..n - 1];
      GcdOfScale(front, f);
      GcdOfDividesAll(front);
      var d := GcdOf(front);
      assert GcdOf(s[..n - 1]) == f * d;
      GcdScale(d, ws[n - 1], f);
    } else {
      assert GcdOf(ws[..0]) == -1 && GcdOf(s[..0]) == -1;
    }
  }
}
