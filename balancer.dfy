/** The balancer object: its pool of weighted servers, its rotation fields and
    its health table, with the operations that read and update them in place. */
module Balancer {
  import opened Weights
  import opened Rotation
  import opened Status

  /** A pool entry: the handler connections are forwarded to, and its weight. */
  datatype Server<H> = Server(handler: H, weight: int)

  datatype Option<T> = None | Some(value: T)

  /** What `ServeTCP` does with a connection: closes it because selection failed,
      or hands it to the chosen handler. */
  datatype Dispatch<H> = Closed(reason: SelectError) | Forwarded(handler: H)

  /** The weights of a list of servers, in order. */
  function WeightsOf<H>(ss: seq<Server<H>>): (ws: seq<int>)
    ensures |ws| == |ss|
    ensures forall k :: 0 <= k < |ss| ==> ws[k] == ss[k].weight
  {
    seq(|ss|, k requires 0 <= k < |ss| => ss[k].weight)
  }

  class WRRLoadBalancer<H> {
    var servers: seq<Server<H>>
    var currentWeight: int
    var index: int
    /** The up/down flag of each named child seen so far. */
    var status: map<string, bool>
    /** The hooks run, in order, whenever a child's flag flips. */
    var updaters: seq<Updater>
    /** Every call made to an updater so far, in order. */
    ghost var notified: seq<Notification>

    function PoolWeights(): seq<int>
      reads this
    {
      WeightsOf(servers)
    }

    /** The rotation fields as a cursor. */
    function Position(): Cursor
      reads this
    {
      Cursor(index, currentWeight)
    }

    /** Weights are non-negative and the rotation fields are consistent with
        the pool. */
    ghost predicate Valid()
      reads this
    {
      NonNegative(PoolWeights()) && Consistent(PoolWeights(), Position())
    }

    /** `NewWRRLoadBalancer`: an empty pool, index -1 and weight 0. */
    constructor ()
      ensures Valid()
      ensures servers == [] && Position() == Fresh
      ensures status == map[] && updaters == [] && notified == []
    {
      servers := [];
      currentWeight := 0;
      index := -1;
      status := map[];
      updaters := [];
      notified := [];
    }

    /** Appends one server, of the given weight or of weight 1 when none is
        given; nothing else changes. */
    method AddWeightServer(h: H, weight: Option<int>)
      requires Valid()
      requires weight.Some? ==> weight.value >= 0
      modifies this
      ensures Valid()
      ensures servers == old(servers) + [Server(h, if weight.Some? then weight.value else 1)]
      ensures Position() == old(Position())
      ensures status == old(status) && updaters == old(updaters) && notified == old(notified)
    {
      var w := 1;
      if weight.Some? {
        w := weight.value;
      }
      servers := servers + [Server(h, w)];
      assert PoolWeights() == old(PoolWeights()) + [w];
      MaxOfAppend(old(PoolWeights()), w);
    }

    /** Appends one server of weight 1. */
    method AddServer(h: H)
      requires Valid()
      modifies this
      ensures Valid()
      ensures servers == old(servers) + [Server(h, 1)]
      ensures Position() == old(Position())
      ensures status == old(status) && updaters == old(updaters) && notified == old(notified)
    {
      AddWeightServer(h, Some(1));
    }

    /** The largest weight of the pool, -1 when it is empty. */
    method MaxWeight() returns (max: int)
      ensures max == MaxOf(PoolWeights())
    {
      max := -1;
      var i := 0;
      while i < |servers|
        invariant 0 <= i <= |servers|
        invariant max == MaxOf(PoolWeights()[..i])
      {
        assert PoolWeights()[..i + 1][..i] == PoolWeights()[..i];
        if servers[i].weight > max {
          max := servers[i].weight;
        }
        i := i + 1;
      }
      assert PoolWeights()[..i] == PoolWeights();
    }

    /** The gcd of the pool's weights, -1 when it is empty. */
    method WeightGcd() returns (divisor: int)
      ensures divisor == GcdOf(PoolWeights())
    {
      divisor := -1;
      var i := 0;
      while i < |servers|
        invariant 0 <= i <= |servers|
        invariant divisor == GcdOf(PoolWeights()[..i])
      {
        assert PoolWeights()[..i + 1][..i] == PoolWeights()[..i];
        if divisor == -1 {
          divisor := servers[i].weight;
        } else {
          divisor := Gcd(divisor, servers[i].weight);
        }
        i := i + 1;
      }
      assert PoolWeights()[..i] == PoolWeights();
    }

    /** Chooses the next server. An empty pool and a pool of weight-0 servers
        are errors that leave the rotation as it is; otherwise the rotation
        moves to the chosen server exactly as `Rotation.Next` says, and that
        server's handler is returned. */
    method Next() returns (r: Result<H>)
      requires Valid()
      modifies this
      ensures Valid()
      ensures servers == old(servers) && status == old(status)
      ensures updaters == old(updaters) && notified == old(notified)
      ensures Rotation.Next(old(PoolWeights()), old(Position())).Err? ==>
        r == Err(Rotation.Next(old(PoolWeights()), old(Position())).error) && Position() == old(Position())
      ensures Rotation.Next(old(PoolWeights()), old(Position())).Ok? ==>
        Position() == Rotation.Next(old(PoolWeights()), old(Position())).value && r == Ok(servers[index].handler)
    {
      if |servers| == 0 {
        return Err(EmptyPool);
      }
      var max := MaxWeight();
      if max == 0 {
        return Err(AllZeroWeight);
      }
      var gcd := WeightGcd();
      MaxOfNonNegative(PoolWeights());
      ConsistentIsReady(PoolWeights(), Position());
      var h := Rotate(max, gcd);
      return Ok(h);
    }

    /** The selection loop of `next`: step the rotation until it reaches a
        server at least as heavy as the current weight, and return that
        server's handler. Each iteration computes the new index and weight and
        stores both fields before the exit test, as the loop body does. */
    method Rotate(max: int, gcd: int) returns (h: H)
      requires Selectable(PoolWeights()) && Ready(PoolWeights(), Position())
      requires max == MaxOf(PoolWeights()) && gcd == GcdOf(PoolWeights())
      modifies this
      ensures servers == old(servers) && status == old(status)
      ensures updaters == old(updaters) && notified == old(notified)
      ensures Position() == Scan(PoolWeights(), old(Position()))
      ensures h == servers[index].handler
    {
      ghost var ws := PoolWeights();
      ghost var c0 := Position();
      while true
        invariant servers == old(servers) && status == old(status)
        invariant updaters == old(updaters) && notified == old(notified)
        invariant Ready(ws, Position()) && Scan(ws, Position()) == Scan(ws, c0)
        decreases Dist(index, MaxIndex(ws), |ws|)
      {
        ghost var prev := Position();
        ScanStep(ws, prev);
        // the operand is non-negative, so Dafny's `%` agrees with Go's
        StepInPlace(ws, prev);
        var i, w := (index + 1) % |servers|, currentWeight;
        if i == 0 {
          w := w - gcd;
          if w <= 0 {
            w := max;
          }
        }
        index, currentWeight := i, w;
        assert Position() == Step(ws, prev);
        var srv := servers[index];
        if srv.weight >= currentWeight {
          return srv.handler;
        }
      }
    }

    /** Handles one connection: closes it when selection fails, and otherwise
        forwards it to the chosen server's handler. */
    method ServeTCP() returns (d: Dispatch<H>)
      requires Valid()
      modifies this
      ensures Valid()
      ensures servers == old(servers) && status == old(status)
      ensures updaters == old(updaters) && notified == old(notified)
      ensures Rotation.Next(old(PoolWeights()), old(Position())).Err? ==>
        d == Closed(Rotation.Next(old(PoolWeights()), old(Position())).error) && Position() == old(Position())
      ensures Rotation.Next(old(PoolWeights()), old(Position())).Ok? ==>
        Position() == Rotation.Next(old(PoolWeights()), old(Position())).value && d == Forwarded(servers[index].handler)
    {
      var next := Next();
      if next.Err? {
        return Closed(next.error);
      }
      return Forwarded(next.value);
    }

    /** Records a health report for child `name`. The flag is always stored; the
        updaters are called, in order and with `up`, only when a known child's
        flag flips. The pool and the rotation are untouched. */
    method SetStatus(name: string, up: bool)
      modifies this
      ensures status == Record(old(status), name, up)
      ensures notified == old(notified) + (if Flips(old(status), name, up) then Broadcast(updaters, up) else [])
      ensures servers == old(servers) && Position() == old(Position()) && updaters == old(updaters)
    {
      if name !in status {
        status := status[name := up];
        return;
      }
      if status[name] == up {
        return;
      }
      status := status[name := up];
      Propagate(up);
    }

    /** The propagation loop of `SetStatus`: calls every registered updater, in
        order, with `up`. */
    method Propagate(up: bool)
      modifies this
      ensures notified == old(notified) + Broadcast(updaters, up)
      ensures servers == old(servers) && Position() == old(Position())
      ensures status == old(status) && updaters == old(updaters)
    {
      var fns := updaters;
      for i := 0 to |fns|
        invariant servers == old(servers) && Position() == old(Position())
        invariant status == old(status) && updaters == fns
        invariant notified == old(notified) + Broadcast(fns[..i], up)
      {
        BroadcastSnoc(fns, i, up);
        notified := notified + [Notification(fns[i], up)];
      }
      assert fns[..|fns|] == fns;
    }
  }
}
