/**
 * The registration helpers of a module (applying it, inferring dependencies
 * from constructors, adding services with a lifetime, trapping unneeded
 * services) and the audit that lists declared dependencies nobody registered.
 */
module ModuleUtils {
  import opened Types
  import opened ModuleState
  import opened Services
  import opened Modules
  import opened UnresolvedDependencies

  /** Applies `diModule` to any collection and returns the collection; the
      outcome is that of DiModule.Apply. */
  method ApplyModule(services: Collection, diModule: DiModule) returns (r: Collection)
    requires diModule.Valid()
    modifies services, StateFootprint(services.descriptors)
    ensures r == services && diModule.Valid()
    ensures old(diModule.AppliedIn(services.descriptors)) ==>
      && services.descriptors == old(services.descriptors)
      && var s := TryGetDiModuleServiceState(services.descriptors).value;
         s.registeredModules == old(s.registeredModules)
    ensures !old(diModule.AppliedIn(services.descriptors)) ==>
      var found := old(TryGetDiModuleServiceState(services.descriptors));
      var now := TryGetDiModuleServiceState(services.descriptors);
      && now.Some?
      && (found.Some? ==>
            && now == found
            && services.descriptors == old(services.descriptors) + old(diModule.OwnServices())
            && now.value.registeredModules == old(found.value.registeredModules) + old(diModule.defaultState.registeredModules))
      && (found.None? ==>
            && fresh(now.value)
            && services.descriptors == old(services.descriptors) + [Marker(now.value)] + old(diModule.OwnServices())
            && now.value.registeredModules == old(diModule.defaultState.registeredModules))
    ensures diModule.AppliedIn(services.descriptors)
  {
    r := diModule.Apply(services);
  }

  // ---------------------------------------------------------------------
  // Dependency inference
  // ---------------------------------------------------------------------

  /** The longest prefix of `parameters` without a `string`: the dependencies
      declared before the first `string` parameter makes declaring fail. */
  function UntilString(parameters: seq<Ty>): (r: seq<Ty>)
    ensures r <= parameters && StringTy !in r
    ensures |r| < |parameters| ==> parameters[|r|] == StringTy
    ensures StringTy !in parameters <==> r == parameters
  {
    if parameters == [] || parameters[0] == StringTy then []
    else [parameters[0]] + UntilString(parameters[1..])
  }

  /** Declaring the dependencies of a type fails when it has a single public
      constructor and that constructor takes a `string`. */
  predicate InferenceFails(ctors: Reflection, t: Ty) {
    |ctors(t)| == 1 && StringTy in ctors(t)[0]
  }

  /** The dependencies declared for `t`: the parameters of its only public
      constructor up to the first `string`; none with zero or several. */
  function InferredDependencies(ctors: Reflection, t: Ty): seq<Ty> {
    if |ctors(t)| == 1 then UntilString(ctors(t)[0]) else []
  }

  /** With several public constructors or none nothing is declared and nothing
      fails; with one, its parameter types are declared in order and the call
      fails exactly when one of them is `string`, after the ones before it. */
  lemma InferredDependenciesCases(ctors: Reflection, t: Ty)
    ensures |ctors(t)| != 1 ==> InferredDependencies(ctors, t) == [] && !InferenceFails(ctors, t)
    ensures |ctors(t)| == 1 && !InferenceFails(ctors, t) ==> InferredDependencies(ctors, t) == ctors(t)[0]
    ensures InferenceFails(ctors, t) ==>
      var ps := ctors(t)[0];
      var k := |InferredDependencies(ctors, t)|;
      k < |ps| && ps[k] == StringTy && InferredDependencies(ctors, t) == ps[..k]
  {
  }

  /** Declares the parameter types of the only public constructor of `t`.
      With more than one constructor nothing is declared (the library only
      prints a diagnostic). A `string` parameter raises half-way. */
  method AddDependencies(diModule: DiModule, t: Ty, ctors: Reflection) returns (r: Result<DiModule>)
    modifies diModule
    ensures diModule.dependencies == old(diModule.dependencies) + InferredDependencies(ctors, t)
    ensures r == if InferenceFails(ctors, t) then Failure(InvalidOperation(InvalidStringDependency)) else Success(diModule)
  {
    var constructors := ctors(t);
    if |constructors| > 1 {
      return Success(diModule);
    }
    if |constructors| == 1 {
      var parameters := constructors[0];
      for i := 0 to |parameters|
        invariant diModule.dependencies == old(diModule.dependencies) + parameters[..i]
        invariant StringTy !in parameters[..i]
      {
        var added := diModule.AddDependency(parameters[i]);
        if added.Failure? {
          return added;
        }
        assert parameters[..i + 1] == parameters[..i] + [parameters[i]];
      }
      assert parameters[..|parameters|] == parameters;
    }
    return Success(diModule);
  }

  // ---------------------------------------------------------------------
  // Registration helpers
  // ---------------------------------------------------------------------

  /** The descriptor a helper registers for `t`: by type without a factory,
      through the factory otherwise. */
  function Registration(t: Ty, lifetime: Lifetime, factory: Option<Factory>): Descriptor {
    match factory
    case None => ServiceDescriptor(t, lifetime, ByType(t))
    case Some(f) => ServiceDescriptor(t, lifetime, ByFactory(f))
  }

  /** Registers `t` once with `lifetime`. Without a factory its dependencies
      are inferred first, and a failing inference registers nothing. */
  method AddService(diModule: DiModule, lifetime: Lifetime, t: Ty, factory: Option<Factory>, ctors: Reflection)
    returns (r: Result<DiModule>)
    requires diModule.Valid()
    modifies diModule, diModule.collection
    ensures diModule.Valid()
    ensures diModule.dependencies == old(diModule.dependencies) + (if factory.None? then InferredDependencies(ctors, t) else [])
    ensures r.Failure? <==> factory.None? && InferenceFails(ctors, t)
    ensures r.Failure? ==> r.error == InvalidOperation(InvalidStringDependency) && diModule.collection.descriptors == old(diModule.collection.descriptors)
    ensures r.Success? ==> (r.value == diModule &&
      diModule.collection.descriptors == old(diModule.collection.descriptors) + [Registration(t, lifetime, factory)])
  {
    if factory.None? {
      r := AddDependencies(diModule, t, ctors);
      if r.Failure? {
        return;
      }
    }
    diModule.collection.Add(Registration(t, lifetime, factory));
    r := Success(diModule);
  }

  method AddScoped(diModule: DiModule, t: Ty, factory: Option<Factory>, ctors: Reflection) returns (r: Result<DiModule>)
    requires diModule.Valid()
    modifies diModule, diModule.collection
    ensures diModule.Valid()
    ensures diModule.dependencies == old(diModule.dependencies) + (if factory.None? then InferredDependencies(ctors, t) else [])
    ensures r.Failure? <==> factory.None? && InferenceFails(ctors, t)
    ensures r.Failure? ==> diModule.collection.descriptors == old(diModule.collection.descriptors)
    ensures r.Success? ==> (r.value == diModule &&
      diModule.collection.descriptors == old(diModule.collection.descriptors) + [Registration(t, Scoped, factory)])
  {
    r := AddService(diModule, Scoped, t, factory, ctors);
  }

  method AddSingleton(diModule: DiModule, t: Ty, factory: Option<Factory>, ctors: Reflection) returns (r: Result<DiModule>)
    requires diModule.Valid()
    modifies diModule, diModule.collection
    ensures diModule.Valid()
    ensures diModule.dependencies == old(diModule.dependencies) + (if factory.None? then InferredDependencies(ctors, t) else [])
    ensures r.Failure? <==> factory.None? && InferenceFails(ctors, t)
    ensures r.Failure? ==> diModule.collection.descriptors == old(diModule.collection.descriptors)
    ensures r.Success? ==> (r.value == diModule &&
      diModule.collection.descriptors == old(diModule.collection.descriptors) + [Registration(t, Singleton, factory)])
  {
    r := AddService(diModule, Singleton, t, factory, ctors);
  }

  method AddTransient(diModule: DiModule, t: Ty, factory: Option<Factory>, ctors: Reflection) returns (r: Result<DiModule>)
    requires diModule.Valid()
    modifies diModule, diModule.collection
    ensures diModule.Valid()
    ensures diModule.dependencies == old(diModule.dependencies) + (if factory.None? then InferredDependencies(ctors, t) else [])
    ensures r.Failure? <==> factory.None? && InferenceFails(ctors, t)
    ensures r.Failure? ==> diModule.collection.descriptors == old(diModule.collection.descriptors)
    ensures r.Success? ==> (r.value == diModule &&
      diModule.collection.descriptors == old(diModule.collection.descriptors) + [Registration(t, Transient, factory)])
  {
    r := AddService(diModule, Transient, t, factory, ctors);
  }

  /** The pair of descriptors an abstraction/implementation helper registers:
      the implementation, then the abstraction forwarding to it. */
  function PairRegistration(abstraction: Ty, implementation: Ty, lifetime: Lifetime, factory: Option<Factory>): seq<Descriptor> {
    [Registration(implementation, lifetime, factory), Registration(abstraction, lifetime, Some(Forward(implementation)))]
  }

  /** The scoped and transient pair helpers: the implementation through the
      single helper (inferring its dependencies once when there is no
      factory), then the abstraction through a forwarding factory. */
  method AddPair(diModule: DiModule, lifetime: Lifetime, abstraction: Ty, implementation: Ty, factory: Option<Factory>, ctors: Reflection)
    returns (r: Result<DiModule>)
    requires diModule.Valid()
    modifies diModule, diModule.collection
    ensures diModule.Valid()
    ensures diModule.dependencies == old(diModule.dependencies) + (if factory.None? then InferredDependencies(ctors, implementation) else [])
    ensures r.Failure? <==> factory.None? && InferenceFails(ctors, implementation)
    ensures r.Failure? ==> diModule.collection.descriptors == old(diModule.collection.descriptors)
    ensures r.Success? ==> (r.value == diModule &&
      diModule.collection.descriptors == old(diModule.collection.descriptors) + PairRegistration(abstraction, implementation, lifetime, factory))
  {
    r := AddService(diModule, lifetime, implementation, factory, ctors);
    if r.Failure? {
      return;
    }
    r := AddService(diModule, lifetime, abstraction, Some(Forward(implementation)), ctors);
  }

  method AddScopedPair(diModule: DiModule, abstraction: Ty, implementation: Ty, factory: Option<Factory>, ctors: Reflection)
    returns (r: Result<DiModule>)
    requires diModule.Valid()
    modifies diModule, diModule.collection
    ensures diModule.Valid()
    ensures diModule.dependencies == old(diModule.dependencies) + (if factory.None? then InferredDependencies(ctors, implementation) else [])
    ensures r.Failure? <==> factory.None? && InferenceFails(ctors, implementation)
    ensures r.Failure? ==> diModule.collection.descriptors == old(diModule.collection.descriptors)
    ensures r.Success? ==> (r.value == diModule &&
      diModule.collection.descriptors == old(diModule.collection.descriptors) + PairRegistration(abstraction, implementation, Scoped, factory))
  {
    r := AddPair(diModule, Scoped, abstraction, implementation, factory, ctors);
  }

  method AddTransientPair(diModule: DiModule, abstraction: Ty, implementation: Ty, factory: Option<Factory>, ctors: Reflection)
    returns (r: Result<DiModule>)
    requires diModule.Valid()
    modifies diModule, diModule.collection
    ensures diModule.Valid()
    ensures diModule.dependencies == old(diModule.dependencies) + (if factory.None? then InferredDependencies(ctors, implementation) else [])
    ensures r.Failure? <==> factory.None? && InferenceFails(ctors, implementation)
    ensures r.Failure? ==> diModule.collection.descriptors == old(diModule.collection.descriptors)
    ensures r.Success? ==> (r.value == diModule &&
      diModule.collection.descriptors == old(diModule.collection.descriptors) + PairRegistration(abstraction, implementation, Transient, factory))
  {
    r := AddPair(diModule, Transient, abstraction, implementation, factory, ctors);
  }

  /** The singleton pair helper infers the implementation's dependencies
      itself and then again through the single helper, so without a factory a
      successful call declares them twice. */
  method AddSingletonPair(diModule: DiModule, abstraction: Ty, implementation: Ty, factory: Option<Factory>, ctors: Reflection)
    returns (r: Result<DiModule>)
    requires diModule.Valid()
    modifies diModule, diModule.collection
    ensures diModule.Valid()
    ensures var inferred := InferredDependencies(ctors, implementation);
      diModule.dependencies == old(diModule.dependencies) +
        (if factory.Some? then [] else if InferenceFails(ctors, implementation) then inferred else inferred + inferred)
    ensures r.Failure? <==> factory.None? && InferenceFails(ctors, implementation)
    ensures r.Failure? ==> diModule.collection.descriptors == old(diModule.collection.descriptors)
    ensures r.Success? ==> (r.value == diModule &&
      diModule.collection.descriptors == old(diModule.collection.descriptors) + PairRegistration(abstraction, implementation, Singleton, factory))
  {
    ghost var deps0, descs0 := diModule.dependencies, diModule.collection.descriptors;
    if factory.None? {
      r := AddDependencies(diModule, implementation, ctors);
      if r.Failure? {
        return;
      }
      assert diModule.dependencies == deps0 + InferredDependencies(ctors, implementation);
    }
    ghost var deps1 := diModule.dependencies;
    r := AddSingleton(diModule, implementation, factory, ctors);
    if r.Failure? {
      return;
    }
    assert diModule.collection.descriptors == descs0 + [Registration(implementation, Singleton, factory)];
    r := AddSingleton(diModule, abstraction, Some(Forward(implementation)), ctors);
    assert diModule.dependencies == deps1 + (if factory.None? then InferredDependencies(ctors, implementation) else []);
  }

  /** Registers `t` in any collection as a singleton whose factory always fails. */
  method MarkDependencyAsNotNeeded(services: Collection, t: Ty) returns (r: Collection)
    modifies services
    ensures r == services
    ensures services.descriptors == old(services.descriptors) + [ServiceDescriptor(t, Singleton, ByFactory(Trap(t)))]
  {
    services.Add(ServiceDescriptor(t, Singleton, ByFactory(Trap(t))));
    r := services;
  }

  /** Registers `t` in a module as a singleton whose factory always fails;
      having a factory, it declares no dependency and cannot fail. */
  method MarkModuleDependencyAsNotNeeded(diModule: DiModule, t: Ty, ctors: Reflection) returns (r: Result<DiModule>)
    requires diModule.Valid()
    modifies diModule, diModule.collection
    ensures diModule.Valid() && r == Success(diModule)
    ensures diModule.dependencies == old(diModule.dependencies)
    ensures diModule.collection.descriptors == old(diModule.collection.descriptors) + [ServiceDescriptor(t, Singleton, ByFactory(Trap(t)))]
  {
    r := AddSingleton(diModule, t, Some(Trap(t)), ctors);
  }

  // ---------------------------------------------------------------------
  // The unresolved-dependency audit
  // ---------------------------------------------------------------------

  /** Some descriptor registers service type `t`, whatever its lifetime. */
  function HasService(descriptors: seq<Descriptor>, t: Ty): (r: bool)
    ensures r <==> exists i :: 0 <= i < |descriptors| && descriptors[i].serviceType == t
  {
    descriptors != [] && (descriptors[0].serviceType == t || HasService(descriptors[1..], t))
  }

  /** A (parameter type, t) pair for each parameter of each constructor, in order. */
  function ConstructorPairs(constructors: seq<seq<Ty>>, t: Ty): (r: seq<(Ty, Ty)>)
    ensures forall p | p in r :: p.1 == t
  {
    if constructors == [] then []
    else
      var ps := constructors[0];
      seq(|ps|, i requires 0 <= i < |ps| => (ps[i], t)) + ConstructorPairs(constructors[1..], t)
  }

  /** (dependency, dependant) pairs: for every registered service type, each
      parameter type of each of its public constructors. */
  function BuildDependencyList(descriptors: seq<Descriptor>, ctors: Reflection): (r: seq<(Ty, Ty)>)
    ensures forall p | p in r :: HasService(descriptors, p.1)
  {
    if descriptors == [] then []
    else
      var t := descriptors[0].serviceType;
      ConstructorPairs(ctors(t), t) + BuildDependencyList(descriptors[1..], ctors)
  }

  /** `dependant` is a registered service type and one of its public
      constructors takes a `dependency`. */
  ghost predicate Needs(descriptors: seq<Descriptor>, ctors: Reflection, dependant: Ty, dependency: Ty) {
    && (exists i :: 0 <= i < |descriptors| && descriptors[i].serviceType == dependant)
    && (exists c :: c in ctors(dependant) && dependency in c)
  }

  lemma {:induction false} ConstructorPairsMembers(constructors: seq<seq<Ty>>, t: Ty, p: (Ty, Ty))
    ensures p in ConstructorPairs(constructors, t) <==> p.1 == t && exists c :: c in constructors && p.0 in c
  {
    if constructors != [] {
      var ps := constructors[0];
      var head := seq(|ps|, i requires 0 <= i < |ps| => (ps[i], t));
      ConstructorPairsMembers(constructors[1..], t, p);
      if p in head {
        var i :| 0 <= i < |head| && head[i] == p;
        assert ps in constructors && p.0 in ps;
      }
      if p.1 == t && p.0 in ps {
        var i :| 0 <= i < |ps| && ps[i] == p.0;
        assert head[i] == p;
      }
      if exists c :: c in constructors && p.0 in c {
        var c :| c in constructors && p.0 in c;
        if c != ps {
          assert c in constructors[1..];
        }
      }
    }
  }

  /** The dependency list holds exactly the pairs whose dependant is a
      registered service type and needs the dependency. */
  lemma {:induction false} BuildDependencyListMembers(descriptors: seq<Descriptor>, ctors: Reflection, dependency: Ty, dependant: Ty)
    ensures (dependency, dependant) in BuildDependencyList(descriptors, ctors) <==> Needs(descriptors, ctors, dependant, dependency)
  {
    if descriptors != [] {
      var t := descriptors[0].serviceType;
      BuildDependencyListMembers(descriptors[1..], ctors, dependency, dependant);
      ConstructorPairsMembers(ctors(t), t, (dependency, dependant));
      if Needs(descriptors, ctors, dependant, dependency) && dependant != t {
        var i :| 0 <= i < |descriptors| && descriptors[i].serviceType == dependant;
        assert descriptors[1..][i - 1].serviceType == dependant;
      }
      if Needs(descriptors[1..], ctors, dependant, dependency) {
        var i :| 0 <= i < |descriptors[1..]| && descriptors[1..][i].serviceType == dependant;
        assert descriptors[i + 1].serviceType == dependant;
      }
    }
  }

  /** The report entries for `dependency`: each dependant of it in the list,
      tagged with `moduleName`. Entries are never merged. */
  function Dependants(list: seq<(Ty, Ty)>, dependency: Ty, moduleName: string): (r: seq<UnresolvedDependency>)
    ensures |r| <= |list|
    ensures forall x | x in r :: x.moduleName == moduleName
  {
    if list == [] then []
    else
      (if list[0].0 == dependency then [UnresolvedDependency(list[0].1, moduleName)] else []) +
      Dependants(list[1..], dependency, moduleName)
  }

  lemma {:induction false} DependantsMembers(list: seq<(Ty, Ty)>, dependency: Ty, moduleName: string, x: UnresolvedDependency)
    ensures x in Dependants(list, dependency, moduleName) <==> x.moduleName == moduleName && (dependency, x.ty) in list
  {
    if list != [] {
      DependantsMembers(list[1..], dependency, moduleName, x);
      assert list == [list[0]] + list[1..];
    }
  }

  /** Entries are never merged: each dependant appears as often as its pair
      with the dependency does in the list, and no other entry appears. */
  lemma {:induction false} DependantsCount(list: seq<(Ty, Ty)>, dependency: Ty, moduleName: string, x: UnresolvedDependency)
    ensures multiset(Dependants(list, dependency, moduleName))[x] ==
      if x.moduleName == moduleName then multiset(list)[(dependency, x.ty)] else 0
  {
    if list != [] {
      DependantsCount(list[1..], dependency, moduleName, x);
      assert list == [list[0]] + list[1..];
    }
  }

  /** One report entry: a missing dependency and who needs it. */
  datatype Unresolved = Unresolved(dependency: Ty, dependants: seq<UnresolvedDependency>)

  /** The modules recorded in the state of `services`; none without a state. */
  function AuditedModules(services: Collection): set<DiModule>
    reads services, StateFootprint(services.descriptors)
  {
    match TryGetDiModuleServiceState(services.descriptors)
    case None => {}
    case Some(state) => state.registeredModules
  }

  /** The report over `services`, one entry per distinct (module, dependency)
      pair: the module is recorded in the state of `services`, it declared the
      dependency, the dependency is not `IServiceProvider`, and no descriptor
      registers it. Modules appear whether they were applied directly or were
      recorded through another module's state. The report has no order. */
  function GetUnresolvedModuleDependencies(services: Collection, ctors: Reflection): (r: map<(DiModule, Ty), Unresolved>)
    reads services, StateFootprint(services.descriptors), AuditedModules(services)
    ensures TryGetDiModuleServiceState(services.descriptors).None? ==> r == map[]
    ensures forall k | k in r ::
      && k.0 in AuditedModules(services)
      && k.1 in k.0.dependencies
      && k.1 != ServiceProviderTy
      && (forall i :: 0 <= i < |services.descriptors| ==> services.descriptors[i].serviceType != k.1)
      && r[k].dependency == k.1
    ensures forall m, d | m in AuditedModules(services) && d in m.dependencies ::
      d != ServiceProviderTy && (forall i :: 0 <= i < |services.descriptors| ==> services.descriptors[i].serviceType != d)
      ==> (m, d) in r
  {
    match TryGetDiModuleServiceState(services.descriptors)
    case None => map[]
    case Some(state) =>
      var declared := set m, d | m in state.registeredModules && d in m.dependencies :: (m, d);
      var list := BuildDependencyList(services.descriptors, ctors);
      map k | k in declared && k.1 != ServiceProviderTy && !HasService(services.descriptors, k.1)
        :: Unresolved(k.1, Dependants(list, k.1, k.0.name))
  }

  /** The dependants in an entry are exactly the registered service types
      needing the missing dependency, each tagged with the name of the module
      that declared the dependency, not of the module that registered the
      dependant. */
  lemma AuditDependants(services: Collection, ctors: Reflection, k: (DiModule, Ty), x: UnresolvedDependency)
    requires k in GetUnresolvedModuleDependencies(services, ctors)
    ensures x in GetUnresolvedModuleDependencies(services, ctors)[k].dependants <==>
      x.moduleName == k.0.name && Needs(services.descriptors, ctors, x.ty, k.1)
  {
    var list := BuildDependencyList(services.descriptors, ctors);
    DependantsMembers(list, k.1, k.0.name, x);
    BuildDependencyListMembers(services.descriptors, ctors, k.1, x.ty);
  }

  /** When no recorded module declares anything, the report is empty. */
  lemma AuditWithoutDeclarations(services: Collection, ctors: Reflection)
    requires forall m | m in AuditedModules(services) :: m.dependencies == []
    ensures GetUnresolvedModuleDependencies(services, ctors) == map[]
  {
  }
}
