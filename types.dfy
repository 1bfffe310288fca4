/**
 * The vocabulary shared by every part of the model: type identities, lifetimes,
 * factories, reflection over constructors, and the outcome of an operation
 * that may throw.
 */
module Types {

  /** A runtime type, compared by identity. Three types have a role of their own:
      `string` (refused as a dependency), `IServiceProvider` (always resolvable)
      and the module-state class (the service type of every marker descriptor). */
  datatype Ty = StringTy | ServiceProviderTy | ModuleStateTy | Named(id: string)

  /** The lifetime a descriptor is registered with. */
  datatype Lifetime = Singleton | Scoped | Transient

  /** Factories are opaque: only which kind of factory was registered is kept.
      Forward(i) resolves `i` and casts it to the abstraction, Trap(t) always
      fails when `t` is resolved, User(id) is a factory supplied by the caller. */
  datatype Factory = Forward(implementation: Ty) | Trap(target: Ty) | User(id: nat)

  /** Reflection over public constructors: for each type, the parameter types of
      each of its public constructors, in declaration order. */
  type Reflection = Ty -> seq<seq<Ty>>

  datatype Option<T> = None | Some(value: T)

  /** The exception an operation raises, by kind and message. */
  datatype Error = InvalidOperation(message: string)

  /** Either the value an operation returns or the exception it raises. */
  datatype Result<T> = Success(value: T) | Failure(error: Error)
}
