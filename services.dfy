/**
 * The parts of the host container's registration API that the modules use:
 * service descriptors, a mutable ordered collection of them, and the lookup
 * of the module-state marker a collection carries.
 */
module Services {
  import opened Types
  import opened ModuleState

  /** How a descriptor provides its service: by constructing a type, through a
      factory, or as a ready-made instance (only module states are ever
      registered as instances). */
  datatype Implementation<M(==)> =
    | ByType(implementationType: Ty)
    | ByFactory(factory: Factory)
    | ByInstance(instance: DependencyInjectionModuleState<M>)

  datatype ServiceDescriptor<M(==)> = ServiceDescriptor(serviceType: Ty, lifetime: Lifetime, implementation: Implementation<M>)
  {
    /** A marker is a descriptor whose instance is a module state. */
    predicate IsMarker() {
      implementation.ByInstance?
    }

    /** This descriptor is the marker holding `state`. */
    predicate IsMarkerOf(state: DependencyInjectionModuleState<M>) {
      implementation.ByInstance? && implementation.instance == state
    }
  }

  /** The descriptor that attaches `state` to a collection: a singleton instance
      registered under the module-state type. */
  function Marker<M(==)>(state: DependencyInjectionModuleState<M>): (d: ServiceDescriptor<M>)
    ensures d.IsMarkerOf(state) && d.serviceType == ModuleStateTy
  {
    ServiceDescriptor(ModuleStateTy, Singleton, ByInstance(state))
  }

  /** An ordered, append-only collection of descriptors. */
  class ServiceCollection<M(==)> {
    var descriptors: seq<ServiceDescriptor<M>>

    constructor ()
      ensures descriptors == []
    {
      descriptors := [];
    }

    method Add(d: ServiceDescriptor<M>)
      modifies this
      ensures descriptors == old(descriptors) + [d]
    {
      descriptors := descriptors + [d];
    }
  }

  /** Index `i` holds the first marker of `descriptors`. */
  ghost predicate IsFirstMarker<M>(descriptors: seq<ServiceDescriptor<M>>, i: int) {
    0 <= i < |descriptors| && descriptors[i].IsMarker() &&
    forall j :: 0 <= j < i ==> !descriptors[j].IsMarker()
  }

  /** The state held by the first marker of `descriptors`, if there is one. */
  function TryGetDiModuleServiceState<M(==)>(descriptors: seq<ServiceDescriptor<M>>): (r: Option<DependencyInjectionModuleState<M>>)
    ensures r.None? <==> forall i :: 0 <= i < |descriptors| ==> !descriptors[i].IsMarker()
    ensures r.Some? ==> exists i :: IsFirstMarker(descriptors, i) && descriptors[i].IsMarkerOf(r.value)
  {
    if descriptors == [] then None
    else if descriptors[0].IsMarker() then
      assert IsFirstMarker(descriptors, 0);
      Some(descriptors[0].implementation.instance)
    else
      var r := TryGetDiModuleServiceState(descriptors[1..]);
      if r.None? then r
      else
        assert exists i :: IsFirstMarker(descriptors, i) && descriptors[i].IsMarkerOf(r.value) by {
          var k :| IsFirstMarker(descriptors[1..], k) && descriptors[1..][k].IsMarkerOf(r.value);
          forall j | 0 <= j < k + 1 ensures !descriptors[j].IsMarker() {
            if j > 0 { assert descriptors[j] == descriptors[1..][j - 1]; }
          }
          assert IsFirstMarker(descriptors, k + 1);
        }
        r
  }

  /** The state objects an operation on a collection with these descriptors may
      change: the one the first marker holds. */
  function StateFootprint<M(==)>(descriptors: seq<ServiceDescriptor<M>>): set<DependencyInjectionModuleState<M>>
  {
    match TryGetDiModuleServiceState(descriptors)
    case None => {}
    case Some(s) => {s}
  }

  /** Appending descriptors never hides the state a collection already carries;
      a collection without one takes the state of what is appended. */
  lemma {:induction false} TryGetAppend<M>(a: seq<ServiceDescriptor<M>>, b: seq<ServiceDescriptor<M>>)
    ensures TryGetDiModuleServiceState(a + b) ==
      if TryGetDiModuleServiceState(a).Some? then TryGetDiModuleServiceState(a) else TryGetDiModuleServiceState(b)
  {
    if a == [] {
      assert a + b == b;
    } else {
      assert (a + b)[0] == a[0];
      assert (a + b)[1..] == a[1..] + b;
      TryGetAppend(a[1..], b);
    }
  }
}
