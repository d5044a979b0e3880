/** The circuits of one connection (packages/protocol/src/circuit-id.ts). */
module CircuitTable {
  import opened Wrappers

  type Id = nat

  const RESERVED_CIRCUIT_ID: Id := 0

  class CircuitTable<T(==)> {
    const maxCircuits: nat
    var circuits: map<Id, T>

    ghost predicate Valid()
      reads this
    {
      |circuits| <= maxCircuits && RESERVED_CIRCUIT_ID !in circuits
    }

    constructor (maxCircuits: nat)
      ensures Valid() && this.maxCircuits == maxCircuits && circuits == map[]
    {
      this.maxCircuits, circuits := maxCircuits, map[];
    }

    /** Never evicts: a taken id, the reserved id or a full table is refused. */
    method Add(id: Id, circuit: T) returns (ok: bool)
      requires Valid()
      modifies this
      ensures Valid()
      ensures ok <==> id != RESERVED_CIRCUIT_ID && id !in old(circuits) && |old(circuits)| < maxCircuits
      ensures circuits == if ok then old(circuits)[id := circuit] else old(circuits)
    {
      if id == RESERVED_CIRCUIT_ID || id in circuits || |circuits| >= maxCircuits {
        return false;
      }
      AddSize(circuits, id, circuit);
      circuits := circuits[id := circuit];
      return true;
    }

    method Delete(id: Id) returns (removed: Option<T>)
      requires Valid()
      modifies this
      ensures Valid() && circuits == old(circuits) - {id}
      ensures removed == if id in old(circuits) then Some(old(circuits)[id]) else None
    {
      RemoveSize(circuits, id);
      if id !in circuits {
        assert circuits - {id} == circuits;
        return None;
      }
      removed := Some(circuits[id]);
      circuits := circuits - {id};
    }

    method Drain() returns (all: map<Id, T>)
      modifies this
      ensures Valid() && circuits == map[] && all == old(circuits)
    {
      all := circuits;
      circuits := map[];
    }
  }

  lemma AddSize<T>(m: map<Id, T>, id: Id, x: T)
    requires id !in m
    ensures |m[id := x]| == |m| + 1
  {
    assert m[id := x].Keys == m.Keys + {id};
    assert |m[id := x]| == |m[id := x].Keys| && |m| == |m.Keys|;
  }

  lemma RemoveSize<T>(m: map<Id, T>, id: Id)
    ensures |m - {id}| == if id in m then |m| - 1 else |m|
  {
    assert (m - {id}).Keys == m.Keys - {id};
    assert |m - {id}| == |(m - {id}).Keys| && |m| == |m.Keys|;
  }
}
