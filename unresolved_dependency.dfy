/**
 * One entry of the unresolved-dependency report: a registered type that needs
 * the missing dependency, and the name of the module that declared it.
 * The entry never changes once built.
 */
module UnresolvedDependencies {
  import opened Types

  datatype UnresolvedDependency = UnresolvedDependency(ty: Ty, moduleName: string)
}
