/** The balancer's health bookkeeping (`SetStatus`) on values: the table of
    per-child up/down flags, and the calls a report makes to the registered
    status updaters. */
module Status {

  /** A registered status updater, identified by its position of registration. */
  type Updater = nat

  /** One call `fn(up)` of updater `fn`. */
  datatype Notification = Notification(updater: Updater, up: bool)

  /** A report of `up` for `name` propagates exactly when the child is already
      known and its stored flag is the opposite one (the compare-and-swap from
      `!up` to `up` succeeds). */
  predicate Flips(s: map<string, bool>, name: string, up: bool) {
    name in s && s[name] != up
  }

  /** The table after a report: the child's flag is `up`, whether the report was
      its first, a repeat or a flip; every other child keeps its flag. */
  function Record(s: map<string, bool>, name: string, up: bool): (r: map<string, bool>)
    ensures name in r && r[name] == up
    ensures forall n :: n != name ==> (n in r <==> n in s)
    ensures forall n :: n in s && n != name ==> r[n] == s[n]
  {
    s[name := up]
  }

  /** The calls a propagation makes: every updater, in registration order, with
      the new flag. */
  function Broadcast(us: seq<Updater>, up: bool): (r: seq<Notification>)
    ensures |r| == |us|
    ensures forall k :: 0 <= k < |us| ==> r[k] == Notification(us[k], up)
  {
    if |us| == 0 then [] else Broadcast(us[..|us| - 1], up) + [Notification(us[|us| - 1], up)]
  }

  /** Broadcasting to one more updater adds its call at the end. */
  lemma BroadcastSnoc(us: seq<Updater>, i: nat, up: bool)
    requires i < |us|
    ensures Broadcast(us[..i + 1], up) == Broadcast(us[..i], up) + [Notification(us[i], up)]
  {
    assert us[..i + 1][..i] == us[..i];
  }

  /** A child's first report stores its flag and propagates nothing, whatever
      the flag. */
  lemma FirstReportIsSilent(s: map<string, bool>, name: string, up: bool)
    requires name !in s
    ensures !Flips(s, name, up)
    ensures Record(s, name, up) == s[name := up]
    ensures |Record(s, name, up)| == |s| + 1
  {
  }

  /** Repeating a report is a no-op: it propagates nothing and leaves the table
      as it is. */
  lemma RepeatIsSilent(s: map<string, bool>, name: string, up: bool)
    ensures !Flips(Record(s, name, up), name, up)
    ensures Record(Record(s, name, up), name, up) == Record(s, name, up)
  {
  }

  // ---------------------------------------------------------------------------
  // A run of reports for one child

  /** How many of the reports `ups` for `name`, made in order from table `s`,
      propagate. */
  function Propagations(s: map<string, bool>, name: string, ups: seq<bool>): nat
    decreases |ups|
  {
    if |ups| == 0 then 0
    else (if Flips(s, name, ups[0]) then 1 else 0) + Propagations(Record(s, name, ups[0]), name, ups[1..])
  }

  /** The number of adjacent positions of `ups` whose flags differ. */
  function Changes(ups: seq<bool>): nat
    decreases |ups|
  {
    if |ups| < 2 then 0 else (if ups[0] != ups[1] then 1 else 0) + Changes(ups[1..])
  }

  /** The table after the reports `ups` for `name`, made in order from `s`. */
  function Replay(s: map<string, bool>, name: string, ups: seq<bool>): map<string, bool>
    decreases |ups|
  {
    if |ups| == 0 then s else Replay(Record(s, name, ups[0]), name, ups[1..])
  }

  /** A run of reports propagates once per genuine change of the flag: for a
      known child, the changes along its stored flag followed by the reports;
      for a new child, the first report only sets the baseline. */
  lemma {:induction false} PropagationsCountChanges(s: map<string, bool>, name: string, ups: seq<bool>)
    ensures name in s ==> Propagations(s, name, ups) == Changes([s[name]] + ups)
    ensures name !in s ==> Propagations(s, name, ups) == Changes(ups)
    decreases |ups|
  {
    if |ups| > 0 {
      var s' := Record(s, name, ups[0]);
      PropagationsCountChanges(s', name, ups[1..]);
      assert [s'[name]] + ups[1..] == ups;
      if name in s {
        var run := [s[name]] + ups;
        assert run[1..] == ups && run[0] == s[name] && run[1] == ups[0];
      } else {
        assert Changes(ups) == Changes([ups[0]] + ups[1..]);
      }
    }
  }

  /** After a non-empty run of reports the child's flag is the last one reported,
      and the other children are untouched. */
  lemma {:induction false} ReplayKeepsLast(s: map<string, bool>, name: string, ups: seq<bool>, other: string)
    requires |ups| > 0 && other != name
    ensures name in Replay(s, name, ups) && Replay(s, name, ups)[name] == ups[|ups| - 1]
    ensures other in Replay(s, name, ups) <==> other in s
    ensures other in s ==> Replay(s, name, ups)[other] == s[other]
    decreases |ups|
  {
    var s' := Record(s, name, ups[0]);
    if |ups| > 1 {
      ReplayKeepsLast(s', name, ups[1..], other);
    }
  }

  /** Reporting the same flag twice in a row propagates at most once. */
  lemma SameReportTwiceAtMostOnce(s: map<string, bool>, name: string, up: bool)
    ensures Propagations(s, name, [up, up]) <= 1
    ensures name !in s ==> Propagations(s, name, [up, up]) == 0
  {
    var s' := Record(s, name, up);
    assert [up, up][1..] == [up];
    assert [up][1..] == [];
    RepeatIsSilent(s, name, up);
    assert Propagations(s', name, [up]) == 0 by {
      assert Propagations(s', name, [up]) == (if Flips(s', name, up) then 1 else 0) + Propagations(Record(s', name, up), name, []);
    }
    assert Propagations(s, name, [up, up]) == (if Flips(s, name, up) then 1 else 0) + Propagations(s', name, [up]);
  }

  // ---------------------------------------------------------------------------
  // The table of a new balancer

  /** The status field as the code leaves it: the table of a balancer built by
      `NewWRRLoadBalancer` is the absent (nil) map, any other one a map. */
  datatype Table = NilTable | Table(entries: map<string, bool>)

  /** The outcome of a report on such a table: a write into the absent map
      panics. */
  datatype Stored = Panicked | Stored(entries: map<string, bool>)

  /** `SetStatus`'s update of the table as written: the lookup in the absent map
      finds nothing, so the report is a first report, whose write panics. */
  function RecordAsWritten(t: Table, name: string, up: bool): (r: Stored)
    ensures r.Panicked? <==> t.NilTable?
    ensures t.Table? ==> r.entries == Record(t.entries, name, up)
  {
    match t
    case NilTable => Panicked
    case Table(m) => Stored(Record(m, name, up))
  }

  /** The first status report to a newly built balancer panics. */
  lemma NewBalancerPanicsOnFirstReport(name: string, up: bool)
    ensures RecordAsWritten(NilTable, name, up) == Panicked
  {
  }
}
