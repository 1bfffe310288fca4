# Netmentor.DiContainer: module registration, modelled in Dafny

Netmentor.DiContainer is a thin layer over Microsoft's dependency-injection
container. A *module* (`DiModule`) is a named, ordered list of service
descriptors plus an append-only list of the dependency types it expects the
final collection to provide. A module can be applied to any service
collection, and applying it is idempotent: the collection carries a hidden
*marker* descriptor whose instance is a `DependencyInjectionModuleState`, the
set of modules already copied into it. Helpers register services with a
lifetime, inferring dependencies from the implementation's only public
constructor. An audit lists every dependency declared by a module recorded
in a collection's state that the collection does not register.

This project models that bookkeeping and proves its properties:

- `types.dfy` (module `Types`): type identities (`string`, `IServiceProvider`
  and the module-state type are constructors of their own), lifetimes, opaque
  factories (`Forward`, `Trap`, `User`), reflection as a
  function `ctors: Ty -> seq<seq<Ty>>`, and `Result` for thrown exceptions.
- `module_state.dfy` (module `ModuleState`): the class
  `DependencyInjectionModuleState`, a mutable set of modules with `Combine`,
  written as the library's loop over the other set.
- `services.dfy` (module `Services`): the host container's descriptors (a
  datatype), a mutable `ServiceCollection` (an append-only sequence) and
  `TryGetDiModuleServiceState`, the lookup of the first marker.
- `unresolved_dependency.dfy` (module `UnresolvedDependencies`): the
  immutable report entry (type, module name).
- `di_module.dfy` (module `Modules`): the class `DiModule`. It owns a
  `ServiceCollection`, its own state and its dependency list. It provides the
  constructor, `AddDependency`, `Apply` (the library's `Apply_Unsafe`, with its
  copy loop), applying to another module, and `Concat`. `Valid()` is the
  invariant the constructor establishes and every operation keeps: the first
  descriptor is the module's own marker, no other descriptor is a marker, and
  the module's state records the module itself.
- `di_module_utils.dfy` (module `ModuleUtils`): `ApplyModule`, dependency
  inference (`AddDependencies`, with its loop), the six `Add*` helpers,
  `MarkDependencyAsNotNeeded`, and the audit
  `GetUnresolvedModuleDependencies`, which is built on `BuildDependencyList`.
- `use_cases.dfy` (module `UseCases`): two wirings, worked through at
  registration level. The first is the repository's own use case. The second
  combines two modules whose audit reports both declared dependencies until
  they are registered.

Behaviours of the code that a reader may not expect, which the model reproduces:

- `Apply` records the module by uniting the module's own state, which
  already contains the module, into the target's state. There is no separate
  "record as applied" step.
- `Concat` skips the second module entirely when the first module's state
  already records it.
- The dependants in a report entry are not deduplicated. Each entry is a
  fresh object with no value equality, so `Distinct` merges nothing. The model
  keeps them as a sequence.
- The singleton pair helper infers the implementation's dependencies twice.
  The scoped and transient pair helpers infer them once.

## Model

| member | source | states |
|---|---|---|
| `ModuleState.DependencyInjectionModuleState.constructor` | src/Netmentor.DiContainer/DependencyInjectionModuleState.cs:7 | a new state records no module |
| `ModuleState.DependencyInjectionModuleState.Combine` | src/Netmentor.DiContainer/DependencyInjectionModuleState.cs:9-15 | afterwards the set is the old set united with the other state's set; nothing is removed; the argument's set is left unchanged |
| `ModuleState.CombineTwice` | src/Netmentor.DiContainer/DependencyInjectionModuleState.cs:9-15 | combining the same state twice records exactly what combining it once does |
| `Services.Marker` | src/Netmentor.DiContainer/DiModule.cs:29 | the marker descriptor holds the given state as its instance and is registered under the module-state type |
| `Services.TryGetDiModuleServiceState` | src/Netmentor.DiContainer/DiModuleUtils.cs:142-148 | none exactly when no descriptor is a marker; otherwise the state held by the first marker |
| `Services.TryGetAppend` | src/Netmentor.DiContainer/DiModuleUtils.cs:142-148 | appending descriptors keeps the state a collection already carries; a collection without one takes the state of what was appended |
| `Modules.Without` | src/Netmentor.DiContainer/DiModule.cs:98-104 | the copy filter never yields more descriptors than it is given |
| `Modules.WithoutMembers` | src/Netmentor.DiContainer/DiModule.cs:98-104 | the copy filter keeps exactly the descriptors that are not the module's own marker |
| `Modules.WithoutAppend` | src/Netmentor.DiContainer/DiModule.cs:98-104 | filtering a concatenation is the concatenation of the filtered parts |
| `Modules.WithoutNoMarker` | src/Netmentor.DiContainer/DiModule.cs:100 | a list without the marker passes the filter unchanged |
| `Modules.DiModule.OwnServicesOfValid` | src/Netmentor.DiContainer/DiModule.cs:100 | in a valid module the copied descriptors are all those after the marker, and none is a marker, so applying never leaks a module's marker |
| `Modules.DiModule.constructor` | src/Netmentor.DiContainer/DiModule.cs:22-31 | a new module has no dependency and one descriptor, the marker of a fresh state whose set is exactly this module; the module is valid |
| `Modules.DiModule.AddDependency` | src/Netmentor.DiContainer/DiModule.cs:54-63 | `string` raises InvalidOperationException ("System.String is not a valid dependency.") and leaves the list unchanged; any other type is appended at the end, duplicates kept, and the module itself is returned |
| `Modules.DiModule.Apply` | src/Netmentor.DiContainer/DiModule.cs:79-107 | if the target's state records the module, nothing changes; otherwise a target without a state first gets one new marker of a fresh state, the target's state becomes its old set united with the module's set, and the target's list becomes the old list, then the optional marker, then the module's descriptors in order minus its own marker; the same collection is returned, and it records the module afterwards |
| `Modules.ApplyTwice` | src/Netmentor.DiContainer/DiModule.cs:81-86 | applying twice gives the same descriptor list and state as applying once |
| `Modules.DiModule.ApplyToModule` | src/Netmentor.DiContainer/DiModuleUtils.cs:23-26 | applying to a module returns the target; unless the target already records the module, the target gains the module's descriptors after its marker and the module's state; both modules stay valid |
| `Modules.DiModule.Concat` | src/Netmentor.DiContainer/DiModule.cs:36-41 | a fresh, valid module named "A, B" with no dependency, holding its own marker, then A's non-marker descriptors, then B's only if A's state did not already record B; its state is itself plus A's state, plus B's state in that case |
| `ModuleUtils.ApplyModule` | src/Netmentor.DiContainer/DiModuleUtils.cs:14-17 | delegates to Apply with the same outcome and returns the same collection |
| `ModuleUtils.UntilString` | src/Netmentor.DiContainer/DiModuleUtils.cs:133-136 | the parameters declared before inference stops: the longest prefix without `string`; it is the whole list exactly when no parameter is `string` |
| `ModuleUtils.InferredDependenciesCases` | src/Netmentor.DiContainer/DiModuleUtils.cs:120-140 | zero or several constructors: nothing declared, no failure; one constructor: its parameters in order, and the call fails exactly when one is `string`, after those before it were declared |
| `ModuleUtils.AddDependencies` | src/Netmentor.DiContainer/DiModuleUtils.cs:120-140 | appends exactly the inferred dependencies and fails exactly when inference meets a `string` parameter, otherwise returns the module |
| `ModuleUtils.AddService` | src/Netmentor.DiContainer/DiModuleUtils.cs:44-54 | the shape of the three single helpers: no factory means dependencies are inferred first and a failure registers nothing; otherwise exactly one descriptor with the given lifetime, by type or by factory |
| `ModuleUtils.AddScoped` | src/Netmentor.DiContainer/DiModuleUtils.cs:44-54 | appends exactly one scoped descriptor; infers dependencies only without a factory |
| `ModuleUtils.AddSingleton` | src/Netmentor.DiContainer/DiModuleUtils.cs:76-86 | appends exactly one singleton descriptor; infers dependencies only without a factory |
| `ModuleUtils.AddTransient` | src/Netmentor.DiContainer/DiModuleUtils.cs:104-114 | appends exactly one transient descriptor; infers dependencies only without a factory |
| `ModuleUtils.AddPair` | src/Netmentor.DiContainer/DiModuleUtils.cs:32-42 | the shape of the scoped and transient pair helpers: exactly two descriptors with the same lifetime, the implementation by type or factory, then the abstraction through a forwarding factory; dependencies are inferred once |
| `ModuleUtils.AddScopedPair` | src/Netmentor.DiContainer/DiModuleUtils.cs:32-42 | implementation then forwarding abstraction, both scoped; the implementation's dependencies are inferred once without a factory |
| `ModuleUtils.AddSingletonPair` | src/Netmentor.DiContainer/DiModuleUtils.cs:60-74 | implementation then forwarding abstraction, both singleton; without a factory a successful call declares the implementation's dependencies twice |
| `ModuleUtils.AddTransientPair` | src/Netmentor.DiContainer/DiModuleUtils.cs:92-102 | implementation then forwarding abstraction, both transient; the implementation's dependencies are inferred once without a factory |
| `ModuleUtils.MarkDependencyAsNotNeeded` | src/Netmentor.DiContainer/DiModuleUtils.cs:194-198 | appends exactly one singleton descriptor for the type, whose factory is the trap, and returns the same collection |
| `ModuleUtils.MarkModuleDependencyAsNotNeeded` | src/Netmentor.DiContainer/DiModuleUtils.cs:200-204 | appends exactly one singleton trap descriptor to the module, declares no dependency and cannot fail |
| `ModuleUtils.HasService` | src/Netmentor.DiContainer/DiModuleUtils.cs:171 | true exactly when some descriptor registers the type as its service type |
| `ModuleUtils.ConstructorPairs` | src/Netmentor.DiContainer/DiModuleUtils.cs:186-190 | the inner SelectMany for one service type; its own contract says every pair names that type as dependant, and `ConstructorPairsMembers` gives its exact contents |
| `ModuleUtils.ConstructorPairsMembers` | src/Netmentor.DiContainer/DiModuleUtils.cs:186-190 | the pairs built for one service type are exactly (parameter, that type) for a parameter of one of its constructors |
| `ModuleUtils.BuildDependencyList` | src/Netmentor.DiContainer/DiModuleUtils.cs:183-192 | the dependency list over all registered service types; its own contract says every dependant in it is registered, and `BuildDependencyListMembers` gives its exact contents |
| `ModuleUtils.BuildDependencyListMembers` | src/Netmentor.DiContainer/DiModuleUtils.cs:183-192 | (dependency, dependant) is in the list exactly when the dependant is a registered service type and one of its constructors takes the dependency |
| `ModuleUtils.Dependants` | src/Netmentor.DiContainer/DiModuleUtils.cs:173-176 | the Where/Select/Distinct building one entry's dependants; its own contract says there are at most as many as list pairs and all carry the module's name, and `DependantsMembers` and `DependantsCount` give its exact contents |
| `ModuleUtils.DependantsMembers` | src/Netmentor.DiContainer/DiModuleUtils.cs:173-176 | an entry is produced exactly for a list pair with that dependency, tagged with the given module name |
| `ModuleUtils.DependantsCount` | src/Netmentor.DiContainer/DiModuleUtils.cs:173-176 | `Distinct` merges nothing: each dependant appears exactly as often as its pair with the dependency occurs in the list, and only with the given module name |
| `ModuleUtils.GetUnresolvedModuleDependencies` | src/Netmentor.DiContainer/DiModuleUtils.cs:150-181 | empty without a state; there is an entry for the distinct pair (m, d) exactly when m is recorded in the state, m declared d, d is not IServiceProvider and no descriptor registers d; the entry's key type is d |
| `ModuleUtils.AuditDependants` | src/Netmentor.DiContainer/DiModuleUtils.cs:173-175 | the dependants of an entry are exactly the registered service types with a constructor taking the dependency, each tagged with the name of the module that declared it |
| `ModuleUtils.AuditWithoutDeclarations` | src/Netmentor.DiContainer/DiModuleUtils.cs:161-163 | when no recorded module declares a dependency, the report is empty |
| `UseCases.BuildFakeModules` | Test/Netmentor.DiContainer.Test/CasoDeUso/FakeDependencies.cs:30-51 | module 1 holds its marker and then the scoped pairs for number 2 and number 1; its state is {module 1, module 2}; neither declares a dependency |
| `UseCases.FakeDependenciesScenario` | Test/Netmentor.DiContainer.Test/CasoDeUso/TestDependencyInjectionLibrary.cs:13-15 | applied to an empty collection, module 1 yields a marker, impl2, abs2, impl1, abs1; the state records both modules; the audit is empty |
| `UseCases.BuildCombinedModule` | src/Netmentor.DiContainer/DiModule.cs:36-41 | the concatenation of a module declaring DependencyA and a module whose implementation needs DependencyB records itself and both parts |
| `UseCases.CombinedReportKeys` | src/Netmentor.DiContainer/DiModuleUtils.cs:161-171 | every reported pair of the combined wiring is one of its two declarations |
| `UseCases.AuditReflectionNeeds` | src/Netmentor.DiContainer/DiModuleUtils.cs:183-192 | in that wiring only the implementation of B needs anything, and what it needs is DependencyB |
| `UseCases.ApplyCombinedModule` | src/Netmentor.DiContainer/DiModule.cs:79-107 | applied to an empty collection, the combined module leaves a marker, then B's scoped pair (implementation, then forwarding abstraction), and the state records all three modules |
| `UseCases.CombinedReportBeforeA` | src/Netmentor.DiContainer/DiModuleUtils.cs:150-181 | in that collection DependencyA is reported, under the key (module A, DependencyA), with no dependant |
| `UseCases.CombinedReportBeforeB` | src/Netmentor.DiContainer/DiModuleUtils.cs:150-181 | in that collection DependencyB is reported under module B with B's implementation as its one dependant |
| `UseCases.CombinedReportBefore` | src/Netmentor.DiContainer/DiModuleUtils.cs:150-181 | before registration both dependencies are reported under their declaring modules; B's implementation is the one dependant of DependencyB |
| `UseCases.CombinedReportAfter` | src/Netmentor.DiContainer/DiModuleUtils.cs:171 | once both dependencies are registered the report is empty |
| `UseCases.RegisterBothDependencies` | src/Netmentor.DiContainer/DiModuleUtils.cs:194-198 | marking DependencyA as not needed and registering DependencyB keep the three existing descriptors and append exactly a singleton trap for DependencyA and a singleton by-type registration of DependencyB; the collection's state and audited modules are kept |
| `UseCases.CombinedAuditScenario` | src/Netmentor.DiContainer/DiModuleUtils.cs:150-181 | the whole combined wiring: both dependencies reported under the keys of the modules that declared them, DependencyB's one dependant carrying the name "ModuleB", then nothing once they are registered |

## Left out

- The global lock around `Apply` (src/Netmentor.DiContainer/DiModule.cs:11, 71-77) is concurrency only. `Apply` is modelled as `Apply_Unsafe`.
- The public constructor taking an `Assembly` (src/Netmentor.DiContainer/DiModule.cs:17-20), which names the module after the assembly or "Unknown assembly", is not modelled. The model takes the name as a plain string.
- The generic `AddDependency<TDependency>()` overload is `AddDependency(typeof(TDependency))` and is not modelled separately.
- `IsReadOnly` and `GetEnumerator` (src/Netmentor.DiContainer/DiModule.cs:109-114) are interface boilerplate.
- Service resolution and lifetime semantics belong to the host container. Lifetimes are tags, and factories are tags that say which kind of factory was registered.
- The exceptions raised at resolution time are not modelled: the failed cast in the forwarding factories (src/Netmentor.DiContainer/DiModuleUtils.cs:41, 73, 101) and the trap (src/Netmentor.DiContainer/DiModuleUtils.cs:206-209).
- Reflection is a parameter, `ctors`, and is not computed from real types.
- The console diagnostic for types with several constructors (src/Netmentor.DiContainer/DiModuleUtils.cs:127) is output only.
- The audit's laziness (`Lazy<>` and `yield`) is not modelled: the report is computed eagerly.
- The report is a map keyed by the distinct (module, dependency) pair. This claims no order for its entries, which the library takes from enumerating a hash set. The module in the key is the model's own bookkeeping: the library yields pairs of the dependency and its dependants, and names a module only through each dependant's `ModuleName`.
- Descriptors added to a module or collection other than through the modelled operations are not modelled. The host API allows this, and so do instance registrations of types other than the module state. `DiModule.Valid()` assumes none.
- ModuleUtils.AuditDependants: states which entries appear, not their order or multiplicity. The definition `Dependants` keeps the dependency list's order and every duplicate, and `DependantsCount` states its multiplicities.
