/**
 * A module: a named, ordered list of service descriptors whose first entry is
 * the marker of the module's own state, plus an append-only list of the
 * dependencies the module expects to find in the collection it is applied to.
 */
module Modules {
  import opened Types
  import opened ModuleState
  import opened Services

  type State = DependencyInjectionModuleState<DiModule>
  type Descriptor = ServiceDescriptor<DiModule>
  type Collection = ServiceCollection<DiModule>

  /** The message of the exception raised for a `string` dependency. */
  const InvalidStringDependency := "System.String is not a valid dependency."

  /** The descriptors of `descriptors` that are not the marker of `state`, in order. */
  function Without(descriptors: seq<Descriptor>, state: State): (r: seq<Descriptor>)
    ensures |r| <= |descriptors|
  {
    if descriptors == [] then []
    else
      var last := descriptors[|descriptors| - 1];
      Without(descriptors[..|descriptors| - 1], state) + (if last.IsMarkerOf(state) then [] else [last])
  }

  /** Dropping the marker of `state` distributes over concatenation. */
  lemma {:induction false} WithoutAppend(a: seq<Descriptor>, b: seq<Descriptor>, state: State)
    ensures Without(a + b, state) == Without(a, state) + Without(b, state)
  {
    if b == [] {
      assert a + b == a;
    } else {
      var b' := b[..|b| - 1];
      assert (a + b)[..|a + b| - 1] == a + b';
      WithoutAppend(a, b', state);
    }
  }

  /** What `Without` keeps: exactly the descriptors that are not the marker of `state`. */
  lemma {:induction false} WithoutMembers(descriptors: seq<Descriptor>, state: State, d: Descriptor)
    ensures d in Without(descriptors, state) <==> d in descriptors && !d.IsMarkerOf(state)
  {
    if descriptors != [] {
      var init := descriptors[..|descriptors| - 1];
      WithoutMembers(init, state, d);
      assert descriptors == init + [descriptors[|descriptors| - 1]];
    }
  }

  /** A list holding no marker of `state` passes through `Without` unchanged. */
  lemma {:induction false} WithoutNoMarker(descriptors: seq<Descriptor>, state: State)
    requires forall i :: 0 <= i < |descriptors| ==> !descriptors[i].IsMarker()
    ensures Without(descriptors, state) == descriptors
  {
    if descriptors != [] {
      var init := descriptors[..|descriptors| - 1];
      WithoutNoMarker(init, state);
      assert descriptors == init + [descriptors[|descriptors| - 1]];
    }
  }

  class DiModule {
    const name: string
    /** The module's own descriptors; the module is a list of them. */
    const collection: Collection
    /** The state whose marker is the module's first descriptor. */
    const defaultState: State
    var dependencies: seq<Ty>

    /** The first descriptor is the marker of the module's own state, no other
        descriptor is a marker, and the state records the module itself. */
    ghost predicate Valid()
      reads collection, defaultState
    {
      && |collection.descriptors| >= 1
      && collection.descriptors[0] == Marker(defaultState)
      && (forall i :: 1 <= i < |collection.descriptors| ==> !collection.descriptors[i].IsMarker())
      && this in defaultState.registeredModules
    }

    /** The descriptors applying this module copies: all but its own marker. */
    ghost function OwnServices(): seq<Descriptor>
      reads collection
    {
      Without(collection.descriptors, defaultState)
    }

    /** In a valid module, the copied descriptors are all those after the
        marker, and none of them is a marker: applying a module never brings a
        module state into the target. */
    lemma OwnServicesOfValid()
      requires Valid()
      ensures OwnServices() == collection.descriptors[1..]
      ensures forall i :: 0 <= i < |OwnServices()| ==> !OwnServices()[i].IsMarker()
    {
      var ds := collection.descriptors;
      assert ds == [ds[0]] + ds[1..];
      WithoutAppend([ds[0]], ds[1..], defaultState);
      assert Without([ds[0]], defaultState) == [] by {
        assert [ds[0]][..0] == [];
      }
      WithoutNoMarker(ds[1..], defaultState);
    }

    /** The target whose descriptors are `descriptors` already records this module. */
    ghost predicate AppliedIn(descriptors: seq<Descriptor>)
      reads StateFootprint(descriptors)
    {
      var found := TryGetDiModuleServiceState(descriptors);
      found.Some? && this in found.value.registeredModules
    }

    /** A new module has no dependency and one descriptor: the marker of a
        fresh state that records exactly this module. */
    constructor (name: string)
      ensures Valid() && fresh(collection) && fresh(defaultState)
      ensures this.name == name && dependencies == []
      ensures collection.descriptors == [Marker(defaultState)]
      ensures defaultState.registeredModules == {this}
    {
      this.name := name;
      dependencies := [];
      defaultState := new DependencyInjectionModuleState();
      collection := new ServiceCollection();
      new;
      collection.Add(Marker(defaultState));
      defaultState.registeredModules := defaultState.registeredModules + {this};
    }

    /** Declares a dependency. A `string` dependency raises an
        InvalidOperationException and declares nothing; any other type is
        appended, duplicates included, and the module itself is returned. */
    method AddDependency(dependency: Ty) returns (r: Result<DiModule>)
      modifies this
      ensures dependency == StringTy ==>
        r == Failure(InvalidOperation(InvalidStringDependency)) && dependencies == old(dependencies)
      ensures dependency != StringTy ==>
        r == Success(this) && dependencies == old(dependencies) + [dependency]
    {
      if dependency == StringTy {
        return Failure(InvalidOperation(InvalidStringDependency));
      }
      dependencies := dependencies + [dependency];
      return Success(this);
    }

    /** Copies this module into `services`, once. If the state of `services`
        already records this module nothing changes. Otherwise a collection
        without a state first gets the marker of a fresh one, the module's
        state is combined into the target's, and every descriptor of the module
        but its own marker is appended in order. The same collection is
        returned, and it records this module afterwards in every case. */
    method Apply(services: Collection) returns (r: Collection)
      requires Valid()
      modifies services, StateFootprint(services.descriptors)
      ensures r == services && Valid()
      ensures old(AppliedIn(services.descriptors)) ==>
        && services.descriptors == old(services.descriptors)
        && var s := TryGetDiModuleServiceState(services.descriptors).value;
           s.registeredModules == old(s.registeredModules)
      ensures !old(AppliedIn(services.descriptors)) ==>
        var found := old(TryGetDiModuleServiceState(services.descriptors));
        var now := TryGetDiModuleServiceState(services.descriptors);
        && now.Some?
        && (found.Some? ==>
              && now == found
              && services.descriptors == old(services.descriptors) + old(OwnServices())
              && now.value.registeredModules == old(found.value.registeredModules) + old(defaultState.registeredModules))
        && (found.None? ==>
              && fresh(now.value)
              && services.descriptors == old(services.descriptors) + [Marker(now.value)] + old(OwnServices())
              && now.value.registeredModules == old(defaultState.registeredModules))
      ensures AppliedIn(services.descriptors)
    {
      var found := TryGetDiModuleServiceState(services.descriptors);
      if found.Some? && this in found.value.registeredModules {
        return services;
      }
      var state: State;
      if found.None? {
        state := new DependencyInjectionModuleState();
        services.Add(Marker(state));
        TryGetAppend(old(services.descriptors), [Marker(state)]);
      } else {
        state := found.value;
      }
      state.Combine(defaultState);

      var own := collection.descriptors;
      ghost var before := services.descriptors;
      for i := 0 to |own|
        invariant services.descriptors == before + Without(own[..i], defaultState)
        modifies services
      {
        assert own[..i + 1][..i] == own[..i];
        if !own[i].IsMarkerOf(defaultState) {
          services.Add(own[i]);
        }
      }
      assert own[..|own|] == own;
      TryGetAppend(before, Without(own, defaultState));
      return services;
    }

    /** Applying to a module: the target is returned, both modules stay valid,
        and unless the target already records this module it gains this
        module's descriptors after its marker and this module's state. */
    method ApplyToModule(target: DiModule) returns (r: DiModule)
      requires Valid() && target.Valid()
      modifies target.collection, target.defaultState
      ensures r == target && Valid() && target.Valid()
      ensures old(this in target.defaultState.registeredModules) ==>
        && target.collection.descriptors == old(target.collection.descriptors)
        && target.defaultState.registeredModules == old(target.defaultState.registeredModules)
      ensures !old(this in target.defaultState.registeredModules) ==>
        && target.collection.descriptors == old(target.collection.descriptors) + old(collection.descriptors[1..])
        && target.defaultState.registeredModules ==
             old(target.defaultState.registeredModules) + old(defaultState.registeredModules)
    {
      OwnServicesOfValid();
      ghost var own := collection.descriptors[1..];
      ghost var before := target.collection.descriptors;
      assert TryGetDiModuleServiceState(before) == Some(target.defaultState);
      var _ := Apply(target.collection);
      forall i | 1 <= i < |target.collection.descriptors|
        ensures !target.collection.descriptors[i].IsMarker()
      {
        if i >= |before| {
          assert target.collection.descriptors[i] == own[i - |before|];
        }
      }
      r := target;
    }

    /** A new module named after both, holding this module's descriptors and
        then, unless this module already records `other`, those of `other`. */
    method Concat(other: DiModule) returns (r: DiModule)
      requires Valid() && other.Valid()
      ensures fresh(r) && fresh(r.collection) && fresh(r.defaultState) && r.Valid()
      ensures r.name == name + ", " + other.name && r.dependencies == []
      ensures var skipped := other in defaultState.registeredModules;
        && r.collection.descriptors ==
             [Marker(r.defaultState)] + collection.descriptors[1..] +
             (if skipped then [] else other.collection.descriptors[1..])
        && r.defaultState.registeredModules ==
             {r} + defaultState.registeredModules + (if skipped then {} else other.defaultState.registeredModules)
    {
      r := new DiModule(name + ", " + other.name);
      var _ := ApplyToModule(r);
      var _ := other.ApplyToModule(r);
    }
  }

  /** Applying a module twice to the same collection has exactly the effect of
      applying it once: the second application finds the module recorded and
      changes nothing. */
  method ApplyTwice(m: DiModule, services: Collection)
    requires m.Valid()
    modifies services, StateFootprint(services.descriptors)
    ensures m.Valid() && m.AppliedIn(services.descriptors)
    ensures old(m.AppliedIn(services.descriptors)) ==>
      && services.descriptors == old(services.descriptors)
      && var s := TryGetDiModuleServiceState(services.descriptors).value;
         s.registeredModules == old(s.registeredModules)
    ensures !old(m.AppliedIn(services.descriptors)) ==>
      var found := old(TryGetDiModuleServiceState(services.descriptors));
      var now := TryGetDiModuleServiceState(services.descriptors);
      && now.Some?
      && (found.Some? ==>
            && now == found
            && services.descriptors == old(services.descriptors) + old(m.OwnServices())
            && now.value.registeredModules == old(found.value.registeredModules) + old(m.defaultState.registeredModules))
      && (found.None? ==>
            && fresh(now.value)
            && services.descriptors == old(services.descriptors) + [Marker(now.value)] + old(m.OwnServices())
            && now.value.registeredModules == old(m.defaultState.registeredModules))
  {
    var _ := m.Apply(services);
    ghost var once := services.descriptors;
    ghost var state := TryGetDiModuleServiceState(once).value;
    ghost var recorded := state.registeredModules;
    var _ := m.Apply(services);
    assert services.descriptors == once && state.registeredModules == recorded;
  }
}
