/** The observable contract of the bounded connection pool the socket client uses:
    get-with-timeout, close-returns-to-pool and remove, as a sequential object. */
module ConnPool {

  import opened Outcomes

  /** A connection, identified by the order in which the pool dialled it. */
  type Conn = nat

  /** The idle connections in the order the pool hands them out (a FIFO channel), the
      connections checked out by callers, the capacity, and the next dial's identity. */
  datatype PoolState = PoolState(idle: seq<Conn>, inUse: set<Conn>, capacity: nat, nextId: Conn)

  /** Idle connections are distinct and not checked out, all were dialled before nextId,
      and the pool never counts more connections than its capacity. */
  predicate Inv(p: PoolState) {
    && (forall i, j :: 0 <= i < j < |p.idle| ==> p.idle[i] != p.idle[j])
    && (forall i :: 0 <= i < |p.idle| ==> p.idle[i] !in p.inUse && p.idle[i] < p.nextId)
    && (forall c :: c in p.inUse ==> c < p.nextId)
    && |p.idle| + |p.inUse| <= p.capacity
  }

  /** A pool made with initial size 0: no connection is dialled up front. */
  function NewPoolState(capacity: nat): (p: PoolState)
    ensures Inv(p) && p.idle == [] && p.inUse == {} && p.capacity == capacity
  {
    PoolState([], {}, capacity, 0)
  }

  /** GetWithTimeout: the oldest idle connection if there is one, else a newly dialled
      connection when the pool is under capacity and the dial succeeds, else a timeout
      (None) that leaves the pool as it was. */
  function Acquire(p: PoolState, dialOk: bool): (r: (Option<Conn>, PoolState))
    requires Inv(p)
    ensures Inv(r.1) && r.1.capacity == p.capacity && r.1.nextId >= p.nextId
    ensures r.0.None? <==> p.idle == [] && (|p.inUse| >= p.capacity || !dialOk)
    ensures r.0.None? ==> r.1 == p
    ensures r.0.Some? ==> r.0.value !in p.inUse && r.1.inUse == p.inUse + {r.0.value}
    ensures r.0.Some? && p.idle != [] ==> r.0.value == p.idle[0] && r.1.idle == p.idle[1..]
    ensures r.0.Some? && p.idle == [] ==> r.0.value == p.nextId && r.1.idle == []
  {
    if p.idle != [] then
      var c := p.idle[0];
      var q := p.(idle := p.idle[1..], inUse := p.inUse + {c});
      assert p.idle == [c] + q.idle;
      (Some(c), q)
    else if |p.inUse| < p.capacity && dialOk then
      var c := p.nextId;
      (Some(c), p.(inUse := p.inUse + {c}, nextId := c + 1))
    else
      (None, p)
  }

  /** Close on a pooled connection: it goes back to the end of the idle queue. */
  function Released(p: PoolState, c: Conn): (q: PoolState)
    requires Inv(p) && c in p.inUse
    ensures Inv(q) && q.capacity == p.capacity && q.nextId == p.nextId
    ensures q.idle == p.idle + [c] && q.inUse == p.inUse - {c}
  {
    p.(idle := p.idle + [c], inUse := p.inUse - {c})
  }

  /** Remove: the connection is closed and no longer counted, which frees capacity. */
  function Removed(p: PoolState, c: Conn): (q: PoolState)
    requires Inv(p) && c in p.inUse
    ensures Inv(q) && q.capacity == p.capacity && q.nextId == p.nextId
    ensures q.idle == p.idle && q.inUse == p.inUse - {c}
    ensures |q.idle| + |q.inUse| == |p.idle| + |p.inUse| - 1
  {
    p.(inUse := p.inUse - {c})
  }

  /** The pool object: its fields are the PoolState components. */
  class Pool {
    var idle: seq<Conn>
    var inUse: set<Conn>
    const capacity: nat
    var nextId: Conn

    function State(): PoolState
      reads this
    {
      PoolState(idle, inUse, capacity, nextId)
    }

    ghost predicate Valid()
      reads this
    {
      Inv(State())
    }

    /** gncp.NewPool(0, capacity, dial). */
    constructor (capacity: nat)
      ensures Valid() && State() == NewPoolState(capacity)
    {
      idle, inUse, nextId := [], {}, 0;
      this.capacity := capacity;
    }

    method GetWithTimeout(dialOk: bool) returns (c: Option<Conn>)
      requires Valid()
      modifies this
      ensures Valid()
      ensures (c, State()) == Acquire(old(State()), dialOk)
    {
      if idle != [] {
        var first := idle[0];
        c := Some(first);
        inUse := inUse + {first};
        idle := idle[1..];
      } else if |inUse| < capacity && dialOk {
        c := Some(nextId);
        inUse := inUse + {nextId};
        nextId := nextId + 1;
      } else {
        c := None;
      }
    }

    method Release(c: Conn)
      requires Valid() && c in inUse
      modifies this
      ensures Valid()
      ensures State() == Released(old(State()), c)
    {
      idle := idle + [c];
      inUse := inUse - {c};
    }

    method Remove(c: Conn)
      requires Valid() && c in inUse
      modifies this
      ensures Valid()
      ensures State() == Removed(old(State()), c)
    {
      inUse := inUse - {c};
    }
  }
}
