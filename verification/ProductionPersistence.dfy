/**
 The gate of one relationship as an object, with the identity of its latest state.
 */
module ProductionPersistence {
  import opened Common
  import opened MeshState
  import P = Persistence

  class ProductionPersistenceRecord {
    const persistence: P.BridgePersistence
    var lineage: nat

    ghost predicate Valid()
      reads this, persistence
    {
      persistence.Valid() && persistence.config == GATE_CONFIG
    }

    /** The record as a value. */
    function Record(): PersistenceRecord
      reads this, persistence
    {
      PersistenceRecord(persistence.View(), lineage)
    }

    constructor (identity: nat)
      ensures Valid() && fresh(persistence)
      ensures Record() == PersistenceRecord(P.Fresh(P.Preserve), identity)
    {
      persistence := new P.BridgePersistence(GATE_CONFIG);
      lineage := identity;
    }

    /** Observes, and then renews the identity if the state has changed.  `identity` is the new one,
        if it can be allocated; if not, the call throws with the gate already moved. */
    method Evolve(value: real, identity: Option<nat>) returns (result: Option<P.Recommendation>)
      requires Valid()
      modifies this, persistence
      ensures Valid()
      ensures var gate := P.Step(GATE_CONFIG, old(persistence.View()), value);
              && Record() == Regated(old(Record()), gate, if identity.Some? then identity.value else 0, identity.Some?)
              && result == if gate != old(persistence.View()) && identity.None? then None else Some(gate.recommendation)
      ensures persistence.View() == P.Step(GATE_CONFIG, old(persistence.View()), value)
      ensures lineage == if persistence.View() != old(persistence.View()) && identity.Some? then identity.value
                         else old(lineage)
    {
      var recommendation, changed := persistence.Evolve(value);
      if changed {
        if identity.None? {
          return None;
        }
        lineage := identity.value;
      }
      return Some(recommendation);
    }
  }
}
