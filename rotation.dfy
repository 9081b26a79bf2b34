/** One call of the balancer's selection (`next`) as a function of the pool's
    weights and the rotation cursor: the pair (`index`, `currentWeight`). */
module Rotation {
  import opened Weights

  /** The rotation fields of the balancer: the last visited position and the
      weight an entry must reach to be chosen. */
  datatype Cursor = Cursor(index: int, weight: int)

  /** The two ways selection fails. */
  datatype SelectError = EmptyPool | AllZeroWeight

  datatype Result<T> = Ok(value: T) | Err(error: SelectError)

  /** The cursor of a new balancer: before the first entry, weight 0. */
  const Fresh := Cursor(-1, 0)

  /** What holds of the cursor between calls: before the first successful call
      it is `Fresh`; afterwards it points at an entry and its weight is
      positive and at most the largest weight. */
  predicate Consistent(ws: seq<int>, c: Cursor) {
    && -1 <= c.index < |ws|
    && (c.index == -1 ==> c.weight == 0)
    && (c.index >= 0 ==> 0 < c.weight <= MaxOf(ws))
  }

  /** A pool from which an entry can be chosen. */
  predicate Selectable(ws: seq<int>) {
    |ws| > 0 && NonNegative(ws) && MaxOf(ws) > 0
  }

  /** A cursor from which scanning is safe: any weight between 0 and the
      maximum before the first entry, a positive one past it. */
  predicate Ready(ws: seq<int>, c: Cursor) {
    && -1 <= c.index < |ws|
    && 0 <= c.weight <= MaxOf(ws)
    && (c.index >= 0 ==> c.weight > 0)
  }

  lemma ConsistentIsReady(ws: seq<int>, c: Cursor)
    requires Selectable(ws) && Consistent(ws, c)
    ensures Ready(ws, c)
  {
  }

  /** The weight after wrapping to the first entry: lowered by the gcd, and
      reset to the maximum once it is no longer positive. */
  function Lowered(g: int, max: int, w: int): (r: int)
    ensures r == max || r == w - g
    ensures r <= 0 ==> max <= 0
  {
    if w - g <= 0 then max else w - g
  }

  /** The index after `i` in a pool of `n` entries, wrapping to 0. */
  function Succ(i: int, n: nat): int {
    if i + 1 == n then 0 else i + 1
  }

  /** `Succ` is the Go expression `(index + 1) % len(servers)`. */
  lemma SuccIsModular(i: int, n: nat)
    requires 0 < n && -1 <= i < n
    ensures Succ(i, n) == (i + 1) % n
  {
    if i + 1 == n {
      ModUnique(i + 1, n, 1, 0);
    } else {
      ModUnique(i + 1, n, 0, i + 1);
    }
  }

  /** One iteration of the selection loop: advance the index modulo the pool
      size, and on wrapping to 0 lower the weight. */
  function Advance(n: nat, g: int, max: int, c: Cursor): (r: Cursor)
    requires 0 < n && -1 <= c.index < n
    ensures 0 <= r.index < n
    ensures r.index == 0 <==> c.index == n - 1 || c.index == -1
    ensures r.index != 0 ==> r.weight == c.weight
  {
    var i := Succ(c.index, n);
    if i == 0 then Cursor(i, Lowered(g, max, c.weight)) else Cursor(i, c.weight)
  }

  /** One iteration of the loop on a given pool. */
  function Step(ws: seq<int>, c: Cursor): (r: Cursor)
    requires Selectable(ws) && Ready(ws, c)
    ensures Ready(ws, r) && r.index >= 0
  {
    GcdOfPositive(ws);
    Advance(|ws|, GcdOf(ws), MaxOf(ws), c)
  }

  /** `Step` in the terms of the loop body: the index moves on modulo the pool
      size, and on wrapping to 0 the weight drops by the gcd, back to the
      maximum once it is no longer positive. */
  lemma StepInPlace(ws: seq<int>, c: Cursor)
    requires Selectable(ws) && Ready(ws, c)
    ensures Step(ws, c).index == (c.index + 1) % |ws|
    ensures (c.index + 1) % |ws| != 0 ==> Step(ws, c).weight == c.weight
    ensures (c.index + 1) % |ws| == 0 && c.weight - GcdOf(ws) <= 0 ==> Step(ws, c).weight == MaxOf(ws)
    ensures (c.index + 1) % |ws| == 0 && c.weight - GcdOf(ws) > 0 ==> Step(ws, c).weight == c.weight - GcdOf(ws)
  {
    SuccIsModular(c.index, |ws|);
  }

  /** The loop stops at a cursor whose entry is at least as heavy as its weight. */
  predicate Hit(ws: seq<int>, c: Cursor) {
    0 <= c.index < |ws| && ws[c.index] >= c.weight
  }

  /** How many more iterations bring index `i` to position `m`. */
  function Dist(i: int, m: int, n: int): int {
    if i < m then m - i else m - i + n
  }

  /** The selection loop: step until the cursor hits. */
  function Scan(ws: seq<int>, c: Cursor): (r: Cursor)
    requires Selectable(ws) && Ready(ws, c)
    ensures Consistent(ws, r) && r.index >= 0
    ensures Hit(ws, r)
    decreases Dist(c.index, MaxIndex(ws), |ws|)
  {
    var c' := Step(ws, c);
    if ws[c'.index] >= c'.weight then c' else Scan(ws, c')
  }

  /** One iteration of the loop either stops the scan or leaves the same scan
      ahead, one step closer to its end. */
  lemma ScanStep(ws: seq<int>, c: Cursor)
    requires Selectable(ws) && Ready(ws, c)
    ensures Hit(ws, Step(ws, c)) ==> Scan(ws, c) == Step(ws, c)
    ensures !Hit(ws, Step(ws, c)) ==> Scan(ws, c) == Scan(ws, Step(ws, c))
    ensures !Hit(ws, Step(ws, c)) ==>
      0 <= Dist(Step(ws, c).index, MaxIndex(ws), |ws|) < Dist(c.index, MaxIndex(ws), |ws|)
  {
  }

  /** `next` as a function of the weights and the cursor: the new cursor, whose
      index is the chosen entry, or the error. */
  function Next(ws: seq<int>, c: Cursor): (r: Result<Cursor>)
    requires NonNegative(ws) && Consistent(ws, c)
    ensures r == Err(EmptyPool) <==> |ws| == 0
    ensures r == Err(AllZeroWeight) <==> |ws| > 0 && MaxOf(ws) == 0
    ensures r.Ok? ==> Consistent(ws, r.value) && r.value.index >= 0
    ensures r.Ok? ==> ws[r.value.index] >= r.value.weight > 0
  {
    if |ws| == 0 then Err(EmptyPool)
    else if MaxOf(ws) == 0 then Err(AllZeroWeight)
    else Ok(Scan(ws, c))
  }

  // ---------------------------------------------------------------------------
  // The loop stops at the first hit, within one lap of the pool

  /** `k` iterations of the loop body, without the stopping test. */
  function Walk(ws: seq<int>, c: Cursor, k: nat): (r: Cursor)
    requires Selectable(ws) && Ready(ws, c)
    ensures Ready(ws, r)
    decreases k
  {
    if k == 0 then c else Walk(ws, Step(ws, c), k - 1)
  }

  /** Number of iterations the selection loop runs from `c`. */
  ghost function Probes(ws: seq<int>, c: Cursor): (r: nat)
    requires Selectable(ws) && Ready(ws, c)
    ensures 1 <= r <= Dist(c.index, MaxIndex(ws), |ws|) <= |ws|
    decreases Dist(c.index, MaxIndex(ws), |ws|)
  {
    var c' := Step(ws, c);
    if Hit(ws, c') then 1 else 1 + Probes(ws, c')
  }

  /** The loop returns the first cursor on its path that hits, after at most
      as many iterations as the pool has entries. */
  lemma {:induction false} ScanIsFirstHit(ws: seq<int>, c: Cursor)
    requires Selectable(ws) && Ready(ws, c)
    ensures Probes(ws, c) <= |ws|
    ensures Scan(ws, c) == Walk(ws, c, Probes(ws, c))
    ensures forall j :: 1 <= j < Probes(ws, c) ==> !Hit(ws, Walk(ws, c, j))
    decreases Dist(c.index, MaxIndex(ws), |ws|)
  {
    var c' := Step(ws, c);
    assert Walk(ws, c, 1) == c' by {
      assert Walk(ws, c', 0) == c';
    }
    if !Hit(ws, c') {
      ScanIsFirstHit(ws, c');
      forall j | 1 <= j < Probes(ws, c)
        ensures !Hit(ws, Walk(ws, c, j))
      {
        assert Walk(ws, c, j) == Walk(ws, c', j - 1);
      }
    }
  }

  /** While some entry has a positive weight, an entry of weight 0 is never chosen. */
  lemma NeverChoosesZeroWeight(ws: seq<int>, c: Cursor, k: nat)
    requires NonNegative(ws) && Consistent(ws, c) && k < |ws| && ws[k] == 0
    ensures Next(ws, c).Ok? ==> Next(ws, c).value.index != k
  {
  }

  /** In a pool where only entry `p` has a positive weight, `p` is chosen. */
  lemma SolePositiveIsChosen(ws: seq<int>, c: Cursor, p: nat)
    requires NonNegative(ws) && Consistent(ws, c) && p < |ws| && ws[p] > 0
    requires forall k :: 0 <= k < |ws| && k != p ==> ws[k] == 0
    ensures Next(ws, c).Ok? && Next(ws, c).value.index == p
  {
    assert ws[p] <= MaxOf(ws);
  }

  // ---------------------------------------------------------------------------
  // Scaling all weights by a common factor

  function ScaleCursor(c: Cursor, f: int): Cursor {
    Cursor(c.index, f * c.weight)
  }

  lemma ScaledPool(ws: seq<int>, f: int)
    requires Selectable(ws) && f > 0
    ensures Selectable(Scale(ws, f))
    ensures MaxOf(Scale(ws, f)) == f * MaxOf(ws)
    ensures GcdOf(Scale(ws, f)) == f * GcdOf(ws)
  {
    MaxOfScale(ws, f);
    GcdOfScale(ws, f);
    MulMonotone(f, 0, MaxOf(ws));
    forall k | 0 <= k < |ws| ensures Scale(ws, f)[k] >= 0 {
      MulMonotone(f, 0, ws[k]);
    }
  }

  lemma ScaledReady(ws: seq<int>, c: Cursor, f: int)
    requires Selectable(ws) && Ready(ws, c) && f > 0
    ensures Ready(Scale(ws, f), ScaleCursor(c, f))
  {
    ScaledPool(ws, f);
    MulMonotone(f, 0, c.weight);
    MulMonotone(f, c.weight, MaxOf(ws));
  }

  lemma LoweredScale(g: int, max: int, w: int, f: int)
    requires f > 0
    ensures Lowered(f * g, f * max, f * w) == f * Lowered(g, max, w)
  {
    assert f * w - f * g == f * (w - g);
    MulMonotone(f, w - g, 0);
  }

  lemma AdvanceScale(n: nat, g: int, max: int, c: Cursor, f: int)
    requires 0 < n && -1 <= c.index < n && f > 0
    ensures Advance(n, f * g, f * max, ScaleCursor(c, f)) == ScaleCursor(Advance(n, g, max, c), f)
  {
    LoweredScale(g, max, c.weight, f);
  }

  /** One loop iteration commutes with scaling. */
  lemma StepScale(ws: seq<int>, c: Cursor, f: int)
    requires Selectable(ws) && Ready(ws, c) && f > 0
    ensures Selectable(Scale(ws, f)) && Ready(Scale(ws, f), ScaleCursor(c, f))
    ensures Step(Scale(ws, f), ScaleCursor(c, f)) == ScaleCursor(Step(ws, c), f)
  {
    ScaledPool(ws, f);
    ScaledReady(ws, c, f);
    AdvanceScale(|ws|, GcdOf(ws), MaxOf(ws), c, f);
  }

  /** The selection loop commutes with scaling. */
  lemma {:induction false} ScanScale(ws: seq<int>, c: Cursor, f: int)
    requires Selectable(ws) && Ready(ws, c) && f > 0
    ensures Selectable(Scale(ws, f)) && Ready(Scale(ws, f), ScaleCursor(c, f))
    ensures Scan(Scale(ws, f), ScaleCursor(c, f)) == ScaleCursor(Scan(ws, c), f)
    decreases Dist(c.index, MaxIndex(ws), |ws|)
  {
    var s, sc := Scale(ws, f), ScaleCursor(c, f);
    ScaledPool(ws, f);
    StepScale(ws, c, f);
    var c' := Step(ws, c);
    var sc' := Step(s, sc);
    assert sc' == ScaleCursor(c', f);
    assert s[c'.index] == f * ws[c'.index];
    MulMonotone(f, c'.weight, ws[c'.index]);
    assert Hit(s, sc') == Hit(ws, c');
    ScanStep(ws, c);
    ScanStep(s, sc);
    if !Hit(ws, c') {
      ScanScale(ws, c', f);
    }
  }
}
