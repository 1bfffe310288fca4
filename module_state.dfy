/**
 * The bookkeeping object that records which modules have already been copied
 * into a service collection. Modules are kept by identity.
 */
module ModuleState {

  class DependencyInjectionModuleState<M(==)> {
    var registeredModules: set<M>

    /** A new state records no module. */
    constructor ()
      ensures registeredModules == {}
    {
      registeredModules := {};
    }

    /** Adds, one at a time, every module recorded in `other`: afterwards this
        state records the union of both sets, and `other` is left as it was. */
    method Combine(other: DependencyInjectionModuleState<M>)
      modifies this
      ensures registeredModules == old(registeredModules) + old(other.registeredModules)
      ensures old(registeredModules) <= registeredModules
      ensures other != this ==> other.registeredModules == old(other.registeredModules)
    {
      var pending := other.registeredModules;
      ghost var source := pending;
      while pending != {}
        invariant pending <= source
        invariant registeredModules == old(registeredModules) + (source - pending)
        decreases pending
      {
        var m :| m in pending;
        registeredModules := registeredModules + {m};
        pending := pending - {m};
      }
    }
  }

  /** Combining the same state twice records exactly what combining it once does. */
  method CombineTwice<M(==)>(state: DependencyInjectionModuleState<M>, other: DependencyInjectionModuleState<M>)
    modifies state
    ensures state.registeredModules == old(state.registeredModules) + old(other.registeredModules)
  {
    state.Combine(other);
    ghost var once := state.registeredModules;
    state.Combine(other);
    assert state.registeredModules == once;
  }
}
