/**
 * Two wirings worked through at registration level: the repository's own
 * use case (a module that applies another and adds a scoped pair, applied to
 * an empty collection), and a combined module whose audit reports the
 * dependencies its parts declared until they are registered.
 */
module UseCases {
  import opened Types
  import opened Services
  import opened Modules
  import opened ModuleUtils
  import opened UnresolvedDependencies

  const AssemblyName := "Netmentor.DiContainer.Test"
  const Abstraction1 := Named("IAbstractionNumber1")
  const Implementation1 := Named("ImplementationNumber1")
  const Abstraction2 := Named("IAbstractionNumber2")
  const Implementation2 := Named("ImplementationNumber2")

  /** Interfaces have no constructor; each implementation has one without parameters. */
  function FakeReflection(t: Ty): seq<seq<Ty>> {
    if t == Implementation1 || t == Implementation2 then [[]] else []
  }

  /** The two modules of the use case: the second registers the scoped pair
      for number 2; the first applies the second and then registers the scoped
      pair for number 1. Neither declares a dependency, since both
      implementations have one constructor without parameters. */
  method BuildFakeModules() returns (module1: DiModule, module2: DiModule)
    ensures module1 != module2 && module1.Valid() && module2.Valid()
    ensures module1.collection.descriptors ==
      [Marker(module1.defaultState)] +
      PairRegistration(Abstraction2, Implementation2, Scoped, None) +
      PairRegistration(Abstraction1, Implementation1, Scoped, None)
    ensures module1.defaultState.registeredModules == {module1, module2}
    ensures module1.dependencies == [] && module2.dependencies == []
  {
    module2 := new DiModule(AssemblyName);
    assert InferredDependencies(FakeReflection, Implementation2) == [];
    assert !InferenceFails(FakeReflection, Implementation2);
    var _ := AddScopedPair(module2, Abstraction2, Implementation2, None, FakeReflection);
    module1 := new DiModule(AssemblyName);
    var _ := module2.ApplyToModule(module1);
    assert InferredDependencies(FakeReflection, Implementation1) == [];
    assert !InferenceFails(FakeReflection, Implementation1);
    var _ := AddScopedPair(module1, Abstraction1, Implementation1, None, FakeReflection);
  }

  /** Applied to an empty collection, the first module yields a marker, then
      the pair for number 2, then the pair for number 1; the collection's
      state records both modules, and the audit reports nothing. */
  method FakeDependenciesScenario() returns (services: Collection, module1: DiModule, module2: DiModule)
    ensures module1 != module2
    ensures |services.descriptors| == 5 && services.descriptors[0].IsMarker()
    ensures services.descriptors[1..] == [
      ServiceDescriptor(Implementation2, Scoped, ByType(Implementation2)),
      ServiceDescriptor(Abstraction2, Scoped, ByFactory(Forward(Implementation2))),
      ServiceDescriptor(Implementation1, Scoped, ByType(Implementation1)),
      ServiceDescriptor(Abstraction1, Scoped, ByFactory(Forward(Implementation1)))]
    ensures AuditedModules(services) == {module1, module2}
    ensures GetUnresolvedModuleDependencies(services, FakeReflection) == map[]
  {
    module1, module2 := BuildFakeModules();
    services := new ServiceCollection();
    module1.OwnServicesOfValid();
    services := ApplyModule(services, module1);
    AuditWithoutDeclarations(services, FakeReflection);
  }

  const DependencyA := Named("DependencyA")
  const DependencyB := Named("DependencyB")
  const AbstractionB := Named("IServiceB")
  const ImplementationB := Named("ServiceB")

  /** The implementation registered by module B needs DependencyB. */
  function AuditReflection(t: Ty): seq<seq<Ty>> {
    if t == ImplementationB then [[DependencyB]] else []
  }

  /** Module A declares DependencyA; module B registers a scoped pair whose
      implementation takes a DependencyB, which is thereby declared; the
      combined module records itself and both parts and declares nothing. */
  method BuildCombinedModule() returns (a: DiModule, b: DiModule, combined: DiModule)
    ensures combined.Valid() && a.name == "ModuleA" && b.name == "ModuleB"
    ensures combined != a && combined != b && a != b
    ensures combined.collection.descriptors ==
      [Marker(combined.defaultState)] + PairRegistration(AbstractionB, ImplementationB, Scoped, None)
    ensures combined.defaultState.registeredModules == {combined, a, b}
    ensures combined.dependencies == [] && a.dependencies == [DependencyA] && b.dependencies == [DependencyB]
  {
    a := new DiModule("ModuleA");
    var _ := a.AddDependency(DependencyA);
    b := new DiModule("ModuleB");
    assert InferredDependencies(AuditReflection, ImplementationB) == [DependencyB];
    assert !InferenceFails(AuditReflection, ImplementationB);
    var _ := AddScopedPair(b, AbstractionB, ImplementationB, None, AuditReflection);
    combined := a.Concat(b);
  }

  /** The facts about a collection with the combined module applied that the
      audit depends on. */
  ghost predicate CombinedApplied(services: Collection, a: DiModule, b: DiModule, combined: DiModule)
    reads services, StateFootprint(services.descriptors), AuditedModules(services)
  {
    && combined != a && combined != b && a != b
    && a.name == "ModuleA" && b.name == "ModuleB"
    && AuditedModules(services) == {combined, a, b}
    && combined.dependencies == [] && a.dependencies == [DependencyA] && b.dependencies == [DependencyB]
  }

  /** Every reported pair is one of the two declarations. */
  lemma CombinedReportKeys(services: Collection, a: DiModule, b: DiModule, combined: DiModule)
    requires CombinedApplied(services, a, b, combined)
    ensures GetUnresolvedModuleDependencies(services, AuditReflection).Keys <= {(a, DependencyA), (b, DependencyB)}
  {
    var report := GetUnresolvedModuleDependencies(services, AuditReflection);
    forall k | k in report ensures k == (a, DependencyA) || k == (b, DependencyB) {
      assert k.0 in {combined, a, b};
      assert k.1 in k.0.dependencies;
    }
  }

  /** Under AuditReflection only the implementation of B needs anything, and
      what it needs is DependencyB. */
  lemma AuditReflectionNeeds(descriptors: seq<Descriptor>, t: Ty, d: Ty)
    requires |descriptors| > 1 && descriptors[1].serviceType == ImplementationB
    ensures Needs(descriptors, AuditReflection, t, d) <==> t == ImplementationB && d == DependencyB
  {
    if t == ImplementationB && d == DependencyB {
      assert [DependencyB] in AuditReflection(t);
    }
  }

  /** The collection holding the marker and module B's pair, implementation
      first, that the combined module leaves behind. */
  ghost predicate CombinedBefore(services: Collection, a: DiModule, b: DiModule, combined: DiModule)
    reads services, StateFootprint(services.descriptors), AuditedModules(services)
  {
    && CombinedApplied(services, a, b, combined)
    && |services.descriptors| == 3
    && services.descriptors[0].serviceType == ModuleStateTy
    && services.descriptors[1].serviceType == ImplementationB
    && services.descriptors[2].serviceType == AbstractionB
  }

  /** Nothing in that collection needs DependencyA. */
  lemma CombinedReportBeforeA(services: Collection, a: DiModule, b: DiModule, combined: DiModule)
    requires CombinedBefore(services, a, b, combined)
    ensures var report := GetUnresolvedModuleDependencies(services, AuditReflection);
      && (a, DependencyA) in report
      && report[(a, DependencyA)].dependency == DependencyA
      && (forall x :: x !in report[(a, DependencyA)].dependants)
  {
    var report := GetUnresolvedModuleDependencies(services, AuditReflection);
    assert DependencyA in a.dependencies;
    assert (a, DependencyA) in report;
    forall x ensures x !in report[(a, DependencyA)].dependants {
      AuditDependants(services, AuditReflection, (a, DependencyA), x);
      AuditReflectionNeeds(services.descriptors, x.ty, DependencyA);
    }
  }

  /** In that collection the implementation of B, registered by module B, is
      the one dependant of DependencyB. */
  lemma CombinedReportBeforeB(services: Collection, a: DiModule, b: DiModule, combined: DiModule)
    requires CombinedBefore(services, a, b, combined)
    ensures var report := GetUnresolvedModuleDependencies(services, AuditReflection);
      && (b, DependencyB) in report
      && report[(b, DependencyB)].dependency == DependencyB
      && (forall x :: x in report[(b, DependencyB)].dependants <==> x == UnresolvedDependency(ImplementationB, "ModuleB"))
  {
    var report := GetUnresolvedModuleDependencies(services, AuditReflection);
    assert DependencyB in b.dependencies;
    assert (b, DependencyB) in report;
    forall x ensures x in report[(b, DependencyB)].dependants <==> x == UnresolvedDependency(ImplementationB, "ModuleB") {
      AuditDependants(services, AuditReflection, (b, DependencyB), x);
      AuditReflectionNeeds(services.descriptors, x.ty, DependencyB);
    }
  }

  /** The report over that collection: both declarations, with the
      implementation of B alone needing DependencyB. */
  lemma CombinedReportBefore(services: Collection, a: DiModule, b: DiModule, combined: DiModule)
    requires CombinedBefore(services, a, b, combined)
    ensures var report := GetUnresolvedModuleDependencies(services, AuditReflection);
      && report.Keys == {(a, DependencyA), (b, DependencyB)}
      && report[(a, DependencyA)].dependency == DependencyA
      && report[(b, DependencyB)].dependency == DependencyB
      && (forall x :: x !in report[(a, DependencyA)].dependants)
      && (forall x :: x in report[(b, DependencyB)].dependants <==> x == UnresolvedDependency(ImplementationB, "ModuleB"))
  {
    CombinedReportKeys(services, a, b, combined);
    CombinedReportBeforeA(services, a, b, combined);
    CombinedReportBeforeB(services, a, b, combined);
  }

  /** Once both dependencies are registered the report is empty. */
  lemma CombinedReportAfter(services: Collection, a: DiModule, b: DiModule, combined: DiModule)
    requires CombinedApplied(services, a, b, combined)
    requires |services.descriptors| == 5
    requires services.descriptors[3].serviceType == DependencyA
    requires services.descriptors[4].serviceType == DependencyB
    ensures GetUnresolvedModuleDependencies(services, AuditReflection) == map[]
  {
    CombinedReportKeys(services, a, b, combined);
  }

  /** Builds the combined module and applies it to an empty collection: the
      collection then holds a marker and module B's pair, implementation first. */
  method ApplyCombinedModule() returns (a: DiModule, b: DiModule, combined: DiModule, services: Collection)
    ensures fresh(services)
    ensures CombinedBefore(services, a, b, combined)
    ensures services.descriptors[0].IsMarker()
    ensures services.descriptors[1..] == PairRegistration(AbstractionB, ImplementationB, Scoped, None)
  {
    a, b, combined := BuildCombinedModule();
    services := new ServiceCollection();
    combined.OwnServicesOfValid();
    services := ApplyModule(services, combined);
  }

  /** Marks DependencyA as not needed and registers DependencyB; the state the
      collection carries, and so the audited modules, stay as they were. */
  method RegisterBothDependencies(services: Collection, a: DiModule, b: DiModule, combined: DiModule)
    requires CombinedBefore(services, a, b, combined)
    modifies services
    ensures CombinedApplied(services, a, b, combined)
    ensures services.descriptors == old(services.descriptors) +
      [ServiceDescriptor(DependencyA, Singleton, ByFactory(Trap(DependencyA))),
       ServiceDescriptor(DependencyB, Singleton, ByType(DependencyB))]
    ensures |services.descriptors| == 5
    ensures services.descriptors[3].serviceType == DependencyA
    ensures services.descriptors[4].serviceType == DependencyB
  {
    ghost var before := services.descriptors;
    var registered := [ServiceDescriptor(DependencyA, Singleton, ByFactory(Trap(DependencyA))),
                       ServiceDescriptor(DependencyB, Singleton, ByType(DependencyB))];
    var _ := MarkDependencyAsNotNeeded(services, DependencyA);
    services.Add(registered[1]);
    assert services.descriptors == before + registered;
    TryGetAppend(before, registered);
  }

  /** Applied to an empty collection, the combined module leaves both
      dependencies unresolved, each reported under the module that declared
      it, with the implementation of B as the one dependant of DependencyB;
      once both are registered the report is empty. */
  method CombinedAuditScenario() returns (a: DiModule, b: DiModule, before: map<(DiModule, Ty), Unresolved>, after: map<(DiModule, Ty), Unresolved>)
    ensures a.name == "ModuleA" && b.name == "ModuleB"
    ensures before.Keys == {(a, DependencyA), (b, DependencyB)}
    ensures before[(a, DependencyA)].dependency == DependencyA
    ensures before[(b, DependencyB)].dependency == DependencyB
    ensures forall x :: x !in before[(a, DependencyA)].dependants
    ensures forall x :: x in before[(b, DependencyB)].dependants <==> x == UnresolvedDependency(ImplementationB, "ModuleB")
    ensures after == map[]
  {
    var combined, services;
    a, b, combined, services := ApplyCombinedModule();
    CombinedReportBefore(services, a, b, combined);
    before := GetUnresolvedModuleDependencies(services, AuditReflection);
    RegisterBothDependencies(services, a, b, combined);
    CombinedReportAfter(services, a, b, combined);
    after := GetUnresolvedModuleDependencies(services, AuditReflection);
  }
}
