/** The connection pool: a map from addresses to connections, looked up under a read lock and, when that finds
    nothing, again under the write lock before a new connection is added. Any number of threads run `get` and
    `close`; each critical section is one step. */
module ConnectionPool {
  import opened Base

  type Address = string

  /** A connection: the how-manieth it is to be created. */
  type Connection = nat

  datatype Made = Made(epoch: nat, addr: Address)

  /** A successful return of get, in the period between two closes in which its lookup or insertion was. */
  datatype Got = Got(epoch: nat, addr: Address, conn: Connection)

  /** What a thread is about to do. */
  datatype Thread = Ready | Missed(addr: Address)

  /** The pool's map; the rest is history: the number of closes, every connection created, all returns. */
  datatype Pool = Pool(connections: map<Address, Connection>, epoch: nat, made: seq<Made>, got: seq<Got>,
                       threads: map<nat, Thread>)

  datatype Step =
    | Lookup(thread: nat, addr: Address)
    | Insert(thread: nat, ok: bool)
    | Close

  function ThreadOf(p: Pool, t: nat): Thread { if t in p.threads then p.threads[t] else Ready }

  predicate Enabled(p: Pool, step: Step) {
    match step
    case Lookup(t, _) => ThreadOf(p, t).Ready?
    case Insert(t, _) => ThreadOf(p, t).Missed?
    case Close => true
  }

  function Return(p: Pool, t: nat, addr: Address, conn: Connection): Pool {
    p.(threads := p.threads[t := Ready], got := p.got + [Got(p.epoch, addr, conn)])
  }

  function Do(p: Pool, step: Step): Pool
    requires Enabled(p, step)
  {
    match step
    case Lookup(t, addr) =>
      if addr in p.connections then Return(p, t, addr, p.connections[addr])
      else p.(threads := p.threads[t := Missed(addr)])
    case Insert(t, ok) =>
      var addr := ThreadOf(p, t).addr;
      if addr in p.connections then Return(p, t, addr, p.connections[addr])
      else if !ok then p.(threads := p.threads[t := Ready])
      else
        var conn := |p.made|;
        Return(p.(connections := p.connections[addr := conn], made := p.made + [Made(p.epoch, addr)]), t, addr, conn)
    case Close => p.(connections := map[], epoch := p.epoch + 1)
  }

  const EMPTY := Pool(map[], 0, [], [], map[])

  ghost predicate Path(p: Pool, steps: seq<Step>, q: Pool)
    decreases |steps|
  {
    if steps == [] then p == q else Enabled(p, steps[0]) && Path(Do(p, steps[0]), steps[1..], q)
  }

  ghost predicate Reachable(p: Pool) { exists steps :: Path(EMPTY, steps, p) }

  /** The map has the connections created since the last close, no address got two between two closes, and
      every return is of a connection created in the same period for the same address. */
  ghost predicate Inv(p: Pool) {
    && (forall c :: 0 <= c < |p.made| ==> p.made[c].epoch <= p.epoch)
    && (forall b, c :: 0 <= b < |p.made| && 0 <= c < |p.made| && p.made[b] == p.made[c] ==> b == c)
    && (forall a :: a in p.connections ==>
          p.connections[a] < |p.made| && p.made[p.connections[a]] == Made(p.epoch, a))
    && (forall c :: 0 <= c < |p.made| && p.made[c].epoch == p.epoch ==> p.made[c].addr in p.connections)
    && (forall g :: g in p.got ==> g.conn < |p.made| && p.made[g.conn] == Made(g.epoch, g.addr))
  }

  lemma ReturnKeeps(p: Pool, t: nat, addr: Address, conn: Connection)
    requires Inv(p) && conn < |p.made| && p.made[conn] == Made(p.epoch, addr)
    ensures Inv(Return(p, t, addr, conn))
  {
  }

  lemma MakeKeeps(p: Pool, addr: Address)
    requires Inv(p) && addr !in p.connections
    ensures Inv(p.(connections := p.connections[addr := |p.made|], made := p.made + [Made(p.epoch, addr)]))
  {
  }

  lemma StepKeeps(p: Pool, step: Step)
    requires Inv(p) && Enabled(p, step)
    ensures Inv(Do(p, step))
  {
    match step
    case Lookup(t, addr) =>
      if addr in p.connections {
        ReturnKeeps(p, t, addr, p.connections[addr]);
      }
    case Insert(t, ok) =>
      var addr := ThreadOf(p, t).addr;
      if addr in p.connections {
        ReturnKeeps(p, t, addr, p.connections[addr]);
      } else if ok {
        MakeKeeps(p, addr);
        var conn := |p.made|;
        var q := p.(connections := p.connections[addr := conn], made := p.made + [Made(p.epoch, addr)]);
        ReturnKeeps(q, t, addr, conn);
      }
    case Close =>
  }

  lemma {:induction false} PathKeeps(p: Pool, steps: seq<Step>, q: Pool)
    requires Inv(p) && Path(p, steps, q)
    ensures Inv(q)
    decreases |steps|
  {
    hide Inv;
    if steps == [] {
    } else {
      StepKeeps(p, steps[0]);
      PathKeeps(Do(p, steps[0]), steps[1..], q);
    }
  }

  lemma ReachableInv(p: Pool)
    requires Reachable(p)
    ensures Inv(p)
  {
    var steps :| Path(EMPTY, steps, p);
    PathKeeps(EMPTY, steps, p);
  }

  /** For any threads and any interleaving: two successful gets of one address between the same two closes
      return the same connection, and gets of different addresses, or in different periods, never do. */
  lemma SameConnection(p: Pool, g: Got, h: Got)
    requires Reachable(p) && g in p.got && h in p.got
    ensures g.conn == h.conn <==> g.addr == h.addr && g.epoch == h.epoch
  {
    ReachableInv(p);
  }

  /** The connections created since the last close are exactly those in the map, one per address. */
  lemma CreatedAreMapped(p: Pool, c: Connection)
    requires Reachable(p)
    ensures c < |p.made| && p.made[c].epoch == p.epoch <==> exists a :: a in p.connections && p.connections[a] == c
    ensures forall a, b :: a in p.connections && b in p.connections && a != b ==> p.connections[a] != p.connections[b]
  {
    ReachableInv(p);
    if c < |p.made| && p.made[c].epoch == p.epoch {
      assert p.made[p.connections[p.made[c].addr]] == p.made[c];
    }
  }

  /** A connection returned since the last close is still in the map, so not closed. */
  lemma ReturnedIsOpen(p: Pool, g: Got)
    requires Reachable(p) && g in p.got && g.epoch == p.epoch
    ensures g.addr in p.connections && p.connections[g.addr] == g.conn
  {
    ReachableInv(p);
    assert p.made[p.connections[g.addr]] == p.made[g.conn];
  }

  lemma Closed(p: Pool)
    ensures Do(p, Close).connections == map[] && Do(p, Close).made == p.made
  {
  }

  /** What each step changes: a lookup nothing but what its thread knows; an insertion that finds nothing adds one new
      connection if it can be created, and otherwise lets the thread return without one; a close empties the map. */
  lemma StepsChange(p: Pool, step: Step)
    requires Enabled(p, step)
    ensures var q := Do(p, step);
            match step
            case Lookup(t, addr) =>
              && q.connections == p.connections && q.made == p.made && q.epoch == p.epoch
              && q.got == (if addr in p.connections then p.got + [Got(p.epoch, addr, p.connections[addr])] else p.got)
              && q.threads == p.threads[t := if addr in p.connections then Ready else Missed(addr)]
            case Insert(t, ok) =>
              var addr := ThreadOf(p, t).addr;
              && q.epoch == p.epoch && q.threads == p.threads[t := Ready]
              && (if addr in p.connections then
                    q.connections == p.connections && q.made == p.made
                    && q.got == p.got + [Got(p.epoch, addr, p.connections[addr])]
                  else if ok then
                    q.connections == p.connections[addr := |p.made|] && q.made == p.made + [Made(p.epoch, addr)]
                    && q.got == p.got + [Got(p.epoch, addr, |p.made|)]
                  else q.connections == p.connections && q.made == p.made && q.got == p.got)
            case Close =>
              q.connections == map[] && q.epoch == p.epoch + 1 && q.made == p.made && q.got == p.got
              && q.threads == p.threads
  {
  }

  /** The period counts the closes of a run. */
  lemma {:induction false} EpochCounts(p: Pool, steps: seq<Step>, q: Pool)
    requires Path(p, steps, q)
    ensures q.epoch == p.epoch + Closes(steps)
    decreases |steps|
  {
    hide Do, Enabled;
    if steps == [] {
    } else {
      StepsChange(p, steps[0]);
      EpochCounts(Do(p, steps[0]), steps[1..], q);
    }
  }

  function Closes(steps: seq<Step>): nat {
    if steps == [] then 0 else (if steps[0].Close? then 1 else 0) + Closes(steps[1..])
  }

  // ---- the pool as an object

  /** The pool with its critical sections, each of which is the step of the same name. `pool` is history. */
  class Connections {
    var connections: map<Address, Connection>
    var created: nat
    ghost var pool: Pool

    ghost predicate Valid()
      reads this
    {
      Inv(pool) && pool.connections == connections && |pool.made| == created
    }

    constructor ()
      ensures Valid() && pool == EMPTY
    {
      connections, created, pool := map[], 0, EMPTY;
    }

    /** get under the read lock. */
    method LookupConnection(ghost thread: nat, addr: Address) returns (conn: Option<Connection>)
      requires Valid() && Enabled(pool, Lookup(thread, addr))
      modifies `pool
      ensures Valid() && pool == Do(old(pool), Lookup(thread, addr))
      ensures conn == if addr in connections then Some(connections[addr]) else None
      ensures match conn
              case Some(c) => pool.got == old(pool).got + [Got(pool.epoch, addr, c)]
              case None => pool.got == old(pool).got && ThreadOf(pool, thread) == Missed(addr)
    {
      StepKeeps(pool, Lookup(thread, addr));
      pool := Do(pool, Lookup(thread, addr));
      if addr in connections {
        return Some(connections[addr]);
      }
      return None;
    }

    /** get under the write lock: looks again, and only then creates a connection, which may fail. */
    method InsertConnection(ghost thread: nat, addr: Address, ok: bool) returns (conn: Option<Connection>)
      requires Valid() && ThreadOf(pool, thread) == Missed(addr)
      modifies this
      ensures Valid() && pool == Do(old(pool), Insert(thread, ok))
      ensures conn == if addr in old(connections) then Some(old(connections)[addr])
                      else if ok then Some(old(created)) else None
      ensures connections == if conn.Some? then old(connections)[addr := conn.value] else old(connections)
      ensures created == old(created) + if ok && addr !in old(connections) then 1 else 0
      ensures match conn
              case Some(c) => pool.got == old(pool).got + [Got(pool.epoch, addr, c)]
              case None => pool.got == old(pool).got && !ok
    {
      StepKeeps(pool, Insert(thread, ok));
      pool := Do(pool, Insert(thread, ok));
      if addr in connections {
        assert connections[addr := connections[addr]] == connections;
        return Some(connections[addr]);
      }
      if !ok {
        return None;
      }
      conn := Some(created);
      connections, created := connections[addr := created], created + 1;
    }

    /** close: closes and removes every connection of the map, also when closing one reports an error. */
    method CloseAll() returns (closed: set<Connection>)
      requires Valid()
      modifies this
      ensures Valid() && pool == Do(old(pool), Close)
      ensures closed == old(connections).Values && connections == map[] && created == old(created)
    {
      hide Inv, Do;
      var all := connections;
      closed := {};
      while connections.Keys != {}
        modifies `connections
        invariant connections.Keys <= all.Keys
        invariant forall a :: a in connections ==> connections[a] == all[a]
        invariant closed <= all.Values
        invariant forall a :: a in all && a !in connections ==> all[a] in closed
        decreases |connections.Keys|
      {
        var addr :| addr in connections.Keys;
        closed := closed + {connections[addr]};
        ghost var before := connections.Keys;
        connections := connections - {addr};
        assert connections.Keys == before - {addr};
      }
      assert connections == map[];
      StepKeeps(pool, Close);
      Closed(pool);
      pool := Do(pool, Close);
    }
  }
}
