/** Successive calls of `next` on a fixed pool: the entries they choose, the
    passes of one weight level, and the weight cycle from one reset of the
    current weight to the next. */
module Schedule {
  import opened Weights
  import opened Rotation

  /** The entries chosen by `k` successive calls of `next` from `c`. On a
      selectable pool every call succeeds, with the cursor `Scan` reaches
      (`Rotation.Next`). */
  function Picks(ws: seq<int>, c: Cursor, k: nat): (r: seq<nat>)
    requires Selectable(ws) && Consistent(ws, c)
    ensures |r| == k
    decreases k
  {
    if k == 0 then []
    else
      var c' := Scan(ws, c);
      [c'.index] + Picks(ws, c', k - 1)
  }

  /** The cursor after those `k` calls. */
  function After(ws: seq<int>, c: Cursor, k: nat): (r: Cursor)
    requires Selectable(ws) && Consistent(ws, c)
    ensures Consistent(ws, r)
    decreases k
  {
    if k == 0 then c else After(ws, Scan(ws, c), k - 1)
  }

  /** The positions from `from` on whose weight reaches `v`, in pool order:
      what one pass at current weight `v` chooses. */
  function Pass(ws: seq<int>, v: int, from: nat): (r: seq<nat>)
    decreases |ws| - from
  {
    if from >= |ws| then []
    else (if ws[from] >= v then [from] else []) + Pass(ws, v, from + 1)
  }

  /** The passes at current weights `k*g`, `(k-1)*g`, ..., `g`, in that order. */
  function Cycle(ws: seq<int>, g: int, k: nat): seq<nat>
    decreases k
  {
    if k == 0 then [] else Pass(ws, k * g, 0) + Cycle(ws, g, k - 1)
  }

  /** Number of passes in a weight cycle: max/g. */
  function Levels(ws: seq<int>): (k: nat)
    requires Selectable(ws)
    ensures k >= 1 && MaxOf(ws) == k * GcdOf(ws)
  {
    GcdOfPositive(ws);
    var g := GcdOf(ws);
    var k := MaxOf(ws) / g;
    DivMod(MaxOf(ws), g);
    MulMonotone(g, 0, k);
    k
  }

  /** The full weight cycle: current weights max, max-g, ..., g. */
  function FullCycle(ws: seq<int>): seq<nat>
    requires Selectable(ws)
  {
    Cycle(ws, GcdOf(ws), Levels(ws))
  }

  /** `k` copies of `s` one after another. */
  function Repeat(s: seq<nat>, k: nat): seq<nat>
    decreases k
  {
    if k == 0 then [] else s + Repeat(s, k - 1)
  }

  /** A cursor at the end of a pass: no later entry reaches its weight (or the
      cursor of a new balancer). */
  predicate PassDone(ws: seq<int>, c: Cursor) {
    Consistent(ws, c) && (c.index == -1 || Pass(ws, c.weight, c.index + 1) == [])
  }

  /** A cursor from which the next wrap resets the weight to the maximum. */
  predicate AtReset(ws: seq<int>, c: Cursor)
    requires Selectable(ws)
  {
    PassDone(ws, c) && Lowered(GcdOf(ws), MaxOf(ws), c.weight) == MaxOf(ws)
  }

  function Last(s: seq<nat>): nat
    requires s != []
  {
    s[|s| - 1]
  }

  function Min(a: nat, b: nat): nat { if a < b then a else b }

  // ---------------------------------------------------------------------------
  // Composition of calls

  /** Every call chooses a valid entry of positive weight. */
  lemma {:induction false} PicksChooseWeighted(ws: seq<int>, c: Cursor, k: nat)
    requires Selectable(ws) && Consistent(ws, c)
    ensures forall j :: 0 <= j < k ==> Picks(ws, c, k)[j] < |ws| && ws[Picks(ws, c, k)[j]] > 0
    decreases k
  {
    if k > 0 {
      var c' := Scan(ws, c);
      PicksChooseWeighted(ws, c', k - 1);
      PicksCons(ws, c, k);
    }
  }

  /** `a + b` calls are `a` calls followed by `b` more from where they leave off. */
  lemma {:induction false} PicksAppend(ws: seq<int>, c: Cursor, a: nat, b: nat)
    requires Selectable(ws) && Consistent(ws, c)
    ensures Picks(ws, c, a + b) == Picks(ws, c, a) + Picks(ws, After(ws, c, a), b)
    ensures After(ws, c, a + b) == After(ws, After(ws, c, a), b)
    decreases a
  {
    if a > 0 {
      var c' := Scan(ws, c);
      PicksAppend(ws, c', a - 1, b);
      assert a + b - 1 == (a - 1) + b;
      PicksCons(ws, c, a + b);
      PicksCons(ws, c, a);
      var later := Picks(ws, After(ws, c, a), b);
      assert [c'.index] + (Picks(ws, c', a - 1) + later) == ([c'.index] + Picks(ws, c', a - 1)) + later;
    }
  }

  /** `k > 0` calls: the first call, then `k - 1` more from where it leaves off. */
  lemma PicksCons(ws: seq<int>, c: Cursor, k: nat)
    requires Selectable(ws) && Consistent(ws, c) && k > 0
    ensures Picks(ws, c, k) == [Scan(ws, c).index] + Picks(ws, Scan(ws, c), k - 1)
    ensures After(ws, c, k) == After(ws, Scan(ws, c), k - 1)
  {
  }

  // ---------------------------------------------------------------------------
  // One pass

  lemma {:induction false} PassHead(ws: seq<int>, v: int, from: nat)
    requires Pass(ws, v, from) != []
    ensures Pass(ws, v, from)[1..] == Pass(ws, v, Pass(ws, v, from)[0] + 1)
    decreases |ws| - from
  {
    if ws[from] < v {
      PassHead(ws, v, from + 1);
    }
  }

  /** Exactly the positions from `from` on that reach `v` are in the pass. */
  lemma {:induction false} PassMember(ws: seq<int>, v: int, from: nat, x: int)
    ensures x in Pass(ws, v, from) <==> from <= x < |ws| && ws[x] >= v
    decreases |ws| - from
  {
    if from < |ws| {
      PassMember(ws, v, from + 1, x);
    }
  }

  /** The first entry of a non-empty pass. */
  lemma PassFirst(ws: seq<int>, v: int, from: nat)
    requires Pass(ws, v, from) != []
    ensures var x := Pass(ws, v, from)[0]; from <= x < |ws| && ws[x] >= v
  {
    var p := Pass(ws, v, from);
    assert p[0] in p;
    PassMember(ws, v, from, p[0]);
  }

  /** Nothing after the last entry of a pass reaches its weight. */
  lemma {:induction false} PassLast(ws: seq<int>, v: int, from: nat)
    requires Pass(ws, v, from) != []
    ensures Pass(ws, v, Last(Pass(ws, v, from)) + 1) == []
    decreases |ws| - from
  {
    var rest := Pass(ws, v, from + 1);
    if rest != [] {
      PassLast(ws, v, from + 1);
    }
  }

  /** Within a pass the loop stops at the next entry that reaches the weight. */
  lemma {:induction false} ScanInPass(ws: seq<int>, i: nat, v: int)
    requires Selectable(ws) && i < |ws| && 0 < v <= MaxOf(ws)
    requires Pass(ws, v, i + 1) != []
    ensures Scan(ws, Cursor(i, v)) == Cursor(Pass(ws, v, i + 1)[0], v)
    decreases |ws| - i
  {
    assert i + 1 < |ws|;
    var c' := Step(ws, Cursor(i, v));
    assert c' == Cursor(i + 1, v);
    if ws[i + 1] < v {
      assert Pass(ws, v, i + 1) == Pass(ws, v, i + 2);
      ScanInPass(ws, i + 1, v);
    }
  }

  /** Past the last entry of a pass the loop runs on to the wrap. */
  lemma {:induction false} ScanSkipsRest(ws: seq<int>, i: nat, v: int)
    requires Selectable(ws) && i < |ws| && 0 < v <= MaxOf(ws)
    requires Pass(ws, v, i + 1) == []
    ensures Scan(ws, Cursor(i, v)) == Scan(ws, Cursor(-1, v))
    decreases |ws| - i
  {
    if i == |ws| - 1 {
      assert Step(ws, Cursor(i, v)) == Step(ws, Cursor(-1, v));
    } else {
      assert Pass(ws, v, i + 1) == Pass(ws, v, i + 2);
      assert Step(ws, Cursor(i, v)) == Cursor(i + 1, v);
      ScanSkipsRest(ws, i + 1, v);
    }
  }

  /** After the wrap the loop stops at the first entry reaching the lowered weight. */
  lemma ScanAfterWrap(ws: seq<int>, v: int)
    requires Selectable(ws) && 0 <= v <= MaxOf(ws)
    ensures 0 < Lowered(GcdOf(ws), MaxOf(ws), v) <= MaxOf(ws)
    ensures Pass(ws, Lowered(GcdOf(ws), MaxOf(ws), v), 0) != []
    ensures Scan(ws, Cursor(-1, v)) ==
      Cursor(Pass(ws, Lowered(GcdOf(ws), MaxOf(ws), v), 0)[0], Lowered(GcdOf(ws), MaxOf(ws), v))
  {
    GcdOfPositive(ws);
    var w := Lowered(GcdOf(ws), MaxOf(ws), v);
    var m := MaxIndex(ws);
    PassMember(ws, w, 0, m);
    assert Step(ws, Cursor(-1, v)) == Cursor(0, w);
    if ws[0] < w {
      assert Pass(ws, w, 0) == Pass(ws, w, 1);
      ScanInPass(ws, 0, w);
    }
  }

  /** The calls within one pass choose exactly the entries of the pass. */
  lemma {:induction false} PassChoices(ws: seq<int>, i: nat, v: int)
    requires Selectable(ws) && i < |ws| && 0 < v <= MaxOf(ws)
    ensures Picks(ws, Cursor(i, v), |Pass(ws, v, i + 1)|) == Pass(ws, v, i + 1)
    decreases |ws| - i
  {
    var p := Pass(ws, v, i + 1);
    if p != [] {
      var x, rest := p[0], p[1..];
      PassFirst(ws, v, i + 1);
      ScanInPass(ws, i, v);
      PassHead(ws, v, i + 1);
      PassChoices(ws, x, v);
      PicksPrepend(ws, Cursor(i, v), Cursor(x, v), rest);
      HeadTail(p);
    }
  }

  /** A non-empty sequence is its head followed by its tail. */
  lemma HeadTail(p: seq<nat>)
    requires p != []
    ensures p == [p[0]] + p[1..]
  {
  }

  /** When the first call from `c` moves to `c1` and the calls from there
      choose `rest`, the calls from `c` choose `c1`'s entry then `rest`. */
  lemma PicksPrepend(ws: seq<int>, c: Cursor, c1: Cursor, rest: seq<nat>)
    requires Selectable(ws) && Consistent(ws, c) && Scan(ws, c) == c1
    requires Picks(ws, c1, |rest|) == rest
    ensures Picks(ws, c, |rest| + 1) == [c1.index] + rest
  {
    PicksCons(ws, c, |rest| + 1);
  }

  /** The cursor after `k + 1` calls from `c` is the one after `k` calls from
      where the first call leaves off. */
  lemma AfterPrepend(ws: seq<int>, c: Cursor, c1: Cursor, k: nat)
    requires Selectable(ws) && Consistent(ws, c) && Scan(ws, c) == c1
    ensures After(ws, c, k + 1) == After(ws, c1, k)
  {
  }

  /** The `p[1..]` of a sequence of two or more ends where the sequence does. */
  lemma LastOfTail(p: seq<nat>)
    requires |p| > 1
    ensures Last(p[1..]) == Last(p)
  {
  }

  /** The calls within one pass end at its last entry, at the same weight. */
  lemma {:induction false} PassStops(ws: seq<int>, i: nat, v: int)
    requires Selectable(ws) && i < |ws| && 0 < v <= MaxOf(ws)
    ensures Pass(ws, v, i + 1) != [] ==>
      After(ws, Cursor(i, v), |Pass(ws, v, i + 1)|) == Cursor(Last(Pass(ws, v, i + 1)), v)
    decreases |ws| - i
  {
    var p := Pass(ws, v, i + 1);
    if p != [] {
      var x, rest := p[0], p[1..];
      PassFirst(ws, v, i + 1);
      ScanInPass(ws, i, v);
      PassHead(ws, v, i + 1);
      PassStops(ws, x, v);
      AfterPrepend(ws, Cursor(i, v), Cursor(x, v), |rest|);
      if |p| > 1 {
        LastOfTail(p);
      }
    }
  }

  /** The calls within one pass choose exactly the entries of the pass, in
      order, and end at its last entry. */
  lemma PassPicks(ws: seq<int>, i: nat, v: int)
    requires Selectable(ws) && i < |ws| && 0 < v <= MaxOf(ws)
    ensures Picks(ws, Cursor(i, v), |Pass(ws, v, i + 1)|) == Pass(ws, v, i + 1)
    ensures Pass(ws, v, i + 1) != [] ==>
      After(ws, Cursor(i, v), |Pass(ws, v, i + 1)|) == Cursor(Last(Pass(ws, v, i + 1)), v)
  {
    PassChoices(ws, i, v);
    PassStops(ws, i, v);
  }

  /** The weight the next pass runs at: the current one lowered at the wrap. */
  function NextLevel(ws: seq<int>, c: Cursor): int {
    Lowered(GcdOf(ws), MaxOf(ws), c.weight)
  }

  /** The entries the next pass chooses. */
  function NextPass(ws: seq<int>, c: Cursor): seq<nat> {
    Pass(ws, NextLevel(ws, c), 0)
  }

  /** From the end of a pass, the next call wraps and chooses the first entry
      of the next pass. */
  lemma PassStarts(ws: seq<int>, c: Cursor)
    requires Selectable(ws) && PassDone(ws, c)
    ensures 0 < NextLevel(ws, c) <= MaxOf(ws)
    ensures NextPass(ws, c) != []
    ensures Scan(ws, c) == Cursor(NextPass(ws, c)[0], NextLevel(ws, c))
  {
    if c.index >= 0 {
      ScanSkipsRest(ws, c.index, c.weight);
    }
    ScanAfterWrap(ws, c.weight);
  }

  /** The cursor at the last entry of a pass is the end of that pass. */
  lemma PassEnds(ws: seq<int>, w: int)
    requires Selectable(ws) && 0 < w <= MaxOf(ws) && Pass(ws, w, 0) != []
    ensures PassDone(ws, Cursor(Last(Pass(ws, w, 0)), w))
  {
    var p := Pass(ws, w, 0);
    assert Last(p) in p;
    PassMember(ws, w, 0, Last(p));
    PassLast(ws, w, 0);
  }

  /** From the end of a pass, the next calls choose the whole next pass, at the
      lowered weight, and stop at its end. */
  lemma WholePass(ws: seq<int>, c: Cursor)
    requires Selectable(ws) && PassDone(ws, c)
    ensures NextPass(ws, c) != []
    ensures Picks(ws, c, |NextPass(ws, c)|) == NextPass(ws, c)
    ensures After(ws, c, |NextPass(ws, c)|) == Cursor(Last(NextPass(ws, c)), NextLevel(ws, c))
    ensures PassDone(ws, After(ws, c, |NextPass(ws, c)|))
  {
    PassStarts(ws, c);
    WholePassPicks(ws, c);
    WholePassEnds(ws, c);
    PassEnds(ws, NextLevel(ws, c));
  }

  /** The choices of `WholePass`. */
  lemma WholePassPicks(ws: seq<int>, c: Cursor)
    requires Selectable(ws) && PassDone(ws, c)
    ensures NextPass(ws, c) != []
    ensures Picks(ws, c, |NextPass(ws, c)|) == NextPass(ws, c)
  {
    var w := NextLevel(ws, c);
    var p := NextPass(ws, c);
    PassStarts(ws, c);
    PassFirst(ws, w, 0);
    PassHead(ws, w, 0);
    PassChoices(ws, p[0], w);
    HeadTail(p);
    PicksPrepend(ws, c, Cursor(p[0], w), p[1..]);
  }

  /** The final cursor of `WholePass`. */
  lemma WholePassEnds(ws: seq<int>, c: Cursor)
    requires Selectable(ws) && PassDone(ws, c)
    ensures NextPass(ws, c) != []
    ensures After(ws, c, |NextPass(ws, c)|) == Cursor(Last(NextPass(ws, c)), NextLevel(ws, c))
  {
    var w := NextLevel(ws, c);
    var p := NextPass(ws, c);
    PassStarts(ws, c);
    PassFirst(ws, w, 0);
    PassHead(ws, w, 0);
    AfterPrepend(ws, c, Cursor(p[0], w), |p| - 1);
    if |p| > 1 {
      PassStops(ws, p[0], w);
      LastOfTail(p);
    }
  }

  // ---------------------------------------------------------------------------
  // One weight cycle

  /** From the end of a pass whose next level is `k*g`, the next calls choose
      the passes at `k*g` down to `g` and stop at the end of the last one. */
  lemma {:induction false} CyclePicks(ws: seq<int>, c: Cursor, k: nat)
    requires Selectable(ws) && PassDone(ws, c) && k >= 1
    requires Lowered(GcdOf(ws), MaxOf(ws), c.weight) == k * GcdOf(ws)
    ensures Picks(ws, c, |Cycle(ws, GcdOf(ws), k)|) == Cycle(ws, GcdOf(ws), k)
    ensures PassDone(ws, After(ws, c, |Cycle(ws, GcdOf(ws), k)|))
    ensures After(ws, c, |Cycle(ws, GcdOf(ws), k)|).weight == GcdOf(ws)
    decreases k
  {
    var g := GcdOf(ws);
    GcdOfPositive(ws);
    var p := NextPass(ws, c);
    WholePass(ws, c);
    var c1 := After(ws, c, |p|);
    if k == 1 {
      assert Cycle(ws, g, 1) == p;
    } else {
      var rest := Cycle(ws, g, k - 1);
      assert c1.weight == k * g;
      assert k * g - g == (k - 1) * g;
      MulAtLeast(g, k - 1);
      assert Lowered(g, MaxOf(ws), c1.weight) == (k - 1) * g;
      CyclePicks(ws, c1, k - 1);
      PicksAppend(ws, c, |p|, |rest|);
      assert Cycle(ws, g, k) == p + rest;
    }
  }

  /** From a reset cursor, the next `|FullCycle|` calls choose the full weight
      cycle (current weights max, max-g, ..., g) and end at a reset cursor
      again, so the same cycle repeats forever. */
  lemma CycleRepeats(ws: seq<int>, c: Cursor)
    requires Selectable(ws) && AtReset(ws, c)
    ensures Picks(ws, c, |FullCycle(ws)|) == FullCycle(ws)
    ensures AtReset(ws, After(ws, c, |FullCycle(ws)|))
  {
    GcdOfPositive(ws);
    CyclePicks(ws, c, Levels(ws));
  }

  /** A new balancer starts at a reset cursor. */
  lemma FreshAtReset(ws: seq<int>)
    requires Selectable(ws)
    ensures AtReset(ws, Fresh)
  {
    GcdOfPositive(ws);
  }

  /** From a reset cursor, `j` cycles' worth of calls choose the cycle `j` times. */
  lemma {:induction false} CyclesRepeat(ws: seq<int>, c: Cursor, j: nat)
    requires Selectable(ws) && AtReset(ws, c)
    ensures Picks(ws, c, j * |FullCycle(ws)|) == Repeat(FullCycle(ws), j)
    decreases j
  {
    var cyc := FullCycle(ws);
    if j > 0 {
      CycleRepeats(ws, c);
      CyclesRepeat(ws, After(ws, c, |cyc|), j - 1);
      assert j * |cyc| == |cyc| + (j - 1) * |cyc|;
      PicksAppend(ws, c, |cyc|, (j - 1) * |cyc|);
    }
  }

  // ---------------------------------------------------------------------------
  // Counting

  lemma {:induction false} PassCount(ws: seq<int>, v: int, from: nat, x: nat)
    ensures multiset(Pass(ws, v, from))[x] == if from <= x < |ws| && ws[x] >= v then 1 else 0
    decreases |ws| - from
  {
    if from < |ws| {
      var head: seq<nat> := if ws[from] >= v then [from] else [];
      var rest := Pass(ws, v, from + 1);
      assert Pass(ws, v, from) == head + rest;
      assert multiset(head + rest) == multiset(head) + multiset(rest);
      PassCount(ws, v, from + 1, x);
    }
  }

  /** In the passes at `k*g` down to `g`, an entry whose weight is `q*g` is
      chosen `min(k, q)` times. */
  lemma {:induction false} CycleCount(ws: seq<int>, g: int, k: nat, x: nat)
    requires g > 0 && x < |ws| && ws[x] >= 0 && ws[x] % g == 0
    ensures multiset(Cycle(ws, g, k))[x] == Min(k, ws[x] / g)
    decreases k
  {
    if k > 0 {
      var q := ws[x] / g;
      var v := k * g;
      var here: seq<nat>, later: seq<nat> := Pass(ws, v, 0), Cycle(ws, g, k - 1);
      assert multiset(here)[x] == if q >= k then 1 else 0 by {
        assert ws[x] >= v <==> q >= k by {
          DivMod(ws[x], g);
          MulMonotone(g, k, q);
        }
        PassCount(ws, v, 0, x);
      }
      assert multiset(later)[x] == Min(k - 1, q) by {
        CycleCount(ws, g, k - 1, x);
      }
      assert multiset(Cycle(ws, g, k))[x] == multiset(here)[x] + multiset(later)[x] by {
        assert Cycle(ws, g, k) == here + later;
        assert multiset(here + later) == multiset(here) + multiset(later);
      }
    }
  }

  /** Over one weight cycle every entry of weight `w` is chosen exactly `w/g`
      times, `g` being the gcd of all weights. */
  lemma EntryShare(ws: seq<int>, x: nat)
    requires Selectable(ws) && x < |ws|
    ensures GcdOf(ws) > 0
    ensures multiset(FullCycle(ws))[x] == ws[x] / GcdOf(ws)
  {
    var g, k := GcdOf(ws), Levels(ws);
    GcdOfPositive(ws);
    GcdOfDividesAll(ws);
    assert Divides(g, ws[x]);
    CycleCount(ws, g, k, x);
    DivMod(ws[x], g);
    MulMonotone(g, ws[x] / g, k);
  }

  /** From a new balancer, the first weight cycle's worth of calls chooses every
      entry of weight `w` exactly `w/g` times, `g` being the gcd of all weights. */
  lemma NewBalancerShares(ws: seq<int>, x: nat)
    requires Selectable(ws) && x < |ws|
    ensures GcdOf(ws) > 0
    ensures multiset(Picks(ws, Fresh, |FullCycle(ws)|))[x] == ws[x] / GcdOf(ws)
  {
    FreshAtReset(ws);
    CycleRepeats(ws, Fresh);
    EntryShare(ws, x);
  }

  /** A pool with one positive-weight entry chooses it on every call. */
  lemma SolePositiveAlways(ws: seq<int>, c: Cursor, p: nat, k: nat)
    requires Selectable(ws) && Consistent(ws, c) && p < |ws|
    requires forall j :: 0 <= j < |ws| && j != p ==> ws[j] == 0
    ensures forall j :: 0 <= j < k ==> Picks(ws, c, k)[j] == p
  {
    PicksChooseWeighted(ws, c, k);
  }

  // ---------------------------------------------------------------------------
  // Scaling

  lemma ScaledConsistent(ws: seq<int>, c: Cursor, f: int)
    requires Selectable(ws) && Consistent(ws, c) && f > 0
    ensures Selectable(Scale(ws, f)) && Consistent(Scale(ws, f), ScaleCursor(c, f))
  {
    ScaledPool(ws, f);
    ScaledReady(ws, c, f);
  }

  /** Multiplying every weight by a positive factor does not change which
      entries successive calls choose. */
  lemma {:induction false} PicksScale(ws: seq<int>, c: Cursor, f: int, k: nat)
    requires Selectable(ws) && Consistent(ws, c) && f > 0
    ensures Selectable(Scale(ws, f)) && Consistent(Scale(ws, f), ScaleCursor(c, f))
    ensures Picks(Scale(ws, f), ScaleCursor(c, f), k) == Picks(ws, c, k)
    decreases k
  {
    ScaledConsistent(ws, c, f);
    if k > 0 {
      ScanScale(ws, c, f);
      PicksScale(ws, Scan(ws, c), f, k - 1);
    }
  }

  /** A new balancer chooses the same entries after all weights are scaled. */
  lemma ScalingKeepsSchedule(ws: seq<int>, f: int, k: nat)
    requires Selectable(ws) && f > 0
    ensures Selectable(Scale(ws, f))
    ensures Picks(Scale(ws, f), Fresh, k) == Picks(ws, Fresh, k)
  {
    PicksScale(ws, Fresh, f, k);
    assert ScaleCursor(Fresh, f) == Fresh;
  }

  // ---------------------------------------------------------------------------
  // Examples

  /** Weights [4, 2] and [2, 1] give the same choices. */
  lemma FourTwoLikeTwoOne(k: nat)
    ensures Selectable([4, 2]) && Selectable([2, 1])
    ensures Picks([4, 2], Fresh, k) == Picks([2, 1], Fresh, k)
  {
    assert MaxOf([2, 1]) == 2 by {
      assert [2, 1][..1] == [2];
      assert [2][..0] == [];
    }
    assert Scale([2, 1], 2) == [4, 2];
    ScalingKeepsSchedule([2, 1], 2, k);
  }

  /** The weight cycle of [3, 1]: passes at 3, 2 and 1. */
  lemma ThreeOneCycle()
    ensures Cycle([3, 1], 1, 3) == [0, 0, 0, 1]
  {
    var ws := [3, 1];
    assert Pass(ws, 3, 0) == [0];
    assert Pass(ws, 2, 0) == [0];
    assert Pass(ws, 1, 0) == [0, 1];
  }

  /** Weights [3, 1] from a new balancer give A, A, A, B: the heavy entry is
      chosen in a run, not interleaved with the light one. */
  lemma ThreeOneRunsTogether()
    ensures Selectable([3, 1])
    ensures Picks([3, 1], Fresh, 4) == [0, 0, 0, 1]
  {
    var ws := [3, 1];
    assert MaxOf(ws) == 3 && GcdOf(ws) == 1 by {
      assert ws[..1] == [3] && [3][..0] == [];
      assert GcdOf([3]) == 3;
      assert GcdOf(ws) == EuclidGcd(3, 1) == 1;
    }
    FreshAtReset(ws);
    CycleRepeats(ws, Fresh);
    ThreeOneCycle();
  }
}
