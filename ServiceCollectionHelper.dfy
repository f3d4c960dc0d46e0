/**
 * The registration extension methods on the service collection. Each first try-adds the two
 * core services (the validator locator and the error-message handler) and then registers
 * validators: explicit validator classes first-wins, inline validators additively.
 * The two `AddValidatorProfile` overloads are in module ValidatorProfiles, beside the profile class.
 */
module ServiceCollectionHelper {
  import opened Wrappers
  import opened Reflection
  import opened FluentValidation
  import opened DependencyInjection
  import opened TypeHelper

  const ValidatorLocatorType: TypeRef := Plain("IValidatorLocator")
  const ErrorMessageHandlerType: TypeRef := Plain("IValidatorErrorMessageHandler")

  /** `TryAddScoped<IValidatorLocator>(provider => new ServiceCollectionValidationProvider(provider))` */
  const LocatorDescriptor: ServiceDescriptor :=
    ServiceDescriptor(ValidatorLocatorType, ImplementationFactory("ServiceCollectionValidationProvider"), Scoped)

  /** `TryAddSingleton<IValidatorErrorMessageHandler, DefaultErrorMessageHandler>()` */
  const HandlerDescriptor: ServiceDescriptor :=
    ServiceDescriptor(ErrorMessageHandlerType,
                      ImplementationType(ClassType("DefaultErrorMessageHandler", [ErrorMessageHandlerType])),
                      Singleton)

  /** The lifetime `AddValidator` uses when the caller names none. */
  const DefaultValidatorLifetime: ServiceLifetime := Scoped

  predicate IsCoreServiceType(t: TypeRef)
  {
    t == ValidatorLocatorType || t == ErrorMessageHandlerType
  }

  /** The collection after `AddGrpcValidatorCore`. */
  function WithCore(ds: seq<ServiceDescriptor>): seq<ServiceDescriptor>
  {
    TryAdded(TryAdded(ds, LocatorDescriptor), HandlerDescriptor)
  }

  /** The collection after `AddValidator<TValidator>(lifetime)`, whether it returns or throws:
      the core services are added before the service type is resolved. */
  function AfterAddValidator(ds: seq<ServiceDescriptor>, validator: ClassType, lifetime: ServiceLifetime): seq<ServiceDescriptor>
  {
    match GetServiceTypeFromValidatorType(validator)
    case Failure(_) => WithCore(ds)
    case Success(serviceType) => TryAdded(WithCore(ds), ServiceDescriptor(serviceType, ImplementationType(validator), lifetime))
  }

  /** The singleton descriptor that hands out one inline validator object as `IValidator<message>`. */
  function InlineDescriptor(message: TypeRef, instance: InlineValidator): ServiceDescriptor
  {
    ServiceDescriptor(IValidatorOf(message), ImplementationInstance(instance), Singleton)
  }

  /** The collection after `AddInlineValidator<TMessage>` registered `instance`. */
  function AfterAddInlineValidator(ds: seq<ServiceDescriptor>, message: TypeRef, instance: InlineValidator): seq<ServiceDescriptor>
  {
    WithCore(ds) + [InlineDescriptor(message, instance)]
  }

  /** The collection after `AddValidatorProfile(profile)` where the profile holds `profileDescriptors`. */
  function AfterAddValidatorProfile(ds: seq<ServiceDescriptor>, profileDescriptors: seq<ServiceDescriptor>): seq<ServiceDescriptor>
  {
    WithCore(ds) + profileDescriptors
  }

  /** `AddGrpcValidatorCore` */
  method AddGrpcValidatorCore(services: ServiceCollection)
    modifies services
    ensures services.descriptors == WithCore(old(services.descriptors))
  {
    services.TryAdd(LocatorDescriptor);
    services.TryAdd(HandlerDescriptor);
  }

  /** `AddValidator<TValidator>(lifetime = Scoped)`. Returns the collection it was given, or throws
      the resolution error after the core services were added. */
  method AddValidator(services: ServiceCollection, validator: ClassType, lifetime: ServiceLifetime := DefaultValidatorLifetime)
    returns (r: Result<ServiceCollection, Exception>)
    modifies services
    ensures services.descriptors == AfterAddValidator(old(services.descriptors), validator, lifetime)
    ensures GetServiceTypeFromValidatorType(validator).Success? ==> r == Success(services)
    ensures GetServiceTypeFromValidatorType(validator).Failure? ==>
              r == Failure(GetServiceTypeFromValidatorType(validator).error)
  {
    AddGrpcValidatorCore(services);
    var serviceType := GetServiceTypeFromValidatorType(validator);
    if serviceType.Failure? {
      return Failure(serviceType.error);
    }
    services.TryAdd(ServiceDescriptor(serviceType.value, ImplementationType(validator), lifetime));
    return Success(services);
  }

  /** `AddInlineValidator<TMessage>(configure)`: a new inline validator built from `configure`,
      registered as a singleton instance. */
  method AddInlineValidator(services: ServiceCollection, message: TypeRef, configure: seq<string>)
    returns (r: ServiceCollection, ghost instance: InlineValidator)
    modifies services
    ensures r == services
    ensures fresh(instance) && instance.messageType == message && instance.rules == configure
    ensures services.descriptors == AfterAddInlineValidator(old(services.descriptors), message, instance)
  {
    AddGrpcValidatorCore(services);
    var validator := new InlineValidator(message, configure);
    services.Add(InlineDescriptor(message, validator));
    instance := validator;
    r := services;
  }

  /** The two core service types are distinct, and an `IValidator<_>` type is neither. */
  lemma CoreTypesAreNotValidators(message: TypeRef)
    ensures ValidatorLocatorType != ErrorMessageHandlerType
    ensures !IsCoreServiceType(IValidatorOf(message))
  {
  }

  /** After `AddGrpcValidatorCore` each core service is registered exactly once if it was
      registered at most once before, and every other service type keeps its count. */
  lemma WithCoreCount(ds: seq<ServiceDescriptor>, t: TypeRef)
    ensures IsCoreServiceType(t) ==> Count(WithCore(ds), t) == if Count(ds, t) == 0 then 1 else Count(ds, t)
    ensures !IsCoreServiceType(t) ==> Count(WithCore(ds), t) == Count(ds, t)
  {
    TryAddCount(ds, LocatorDescriptor, t);
    TryAddCount(TryAdded(ds, LocatorDescriptor), HandlerDescriptor, t);
  }

  /** Adding the core services a second time changes nothing. */
  lemma WithCoreIdempotent(ds: seq<ServiceDescriptor>)
    ensures WithCore(WithCore(ds)) == WithCore(ds)
  {
    var once := WithCore(ds);
    WithCoreCount(ds, ValidatorLocatorType);
    WithCoreCount(ds, ErrorMessageHandlerType);
    CountPositive(once, ValidatorLocatorType);
    CountPositive(once, ErrorMessageHandlerType);
  }

  /** Once both core services are present, try-adding another descriptor keeps them present. */
  lemma WithCoreOfCore(ds: seq<ServiceDescriptor>, d: ServiceDescriptor)
    requires WithCore(ds) == ds
    ensures WithCore(TryAdded(ds, d)) == TryAdded(ds, d)
  {
    WithCoreCount(ds, ValidatorLocatorType);
    WithCoreCount(ds, ErrorMessageHandlerType);
    CountPositive(ds, ValidatorLocatorType);
    CountPositive(ds, ErrorMessageHandlerType);
    TryAddCount(ds, d, ValidatorLocatorType);
    TryAddCount(ds, d, ErrorMessageHandlerType);
    CountPositive(TryAdded(ds, d), ValidatorLocatorType);
    CountPositive(TryAdded(ds, d), ErrorMessageHandlerType);
  }

  /** `AddValidator` registers `IValidator<T>` for the resolved `T`, with the validator class as
      implementation and the given lifetime, unless that service type is already registered:
      then it adds only what the core services need. */
  lemma AddValidatorFirstWins(ds: seq<ServiceDescriptor>, validator: ClassType, lifetime: ServiceLifetime)
    requires GetServiceTypeFromValidatorType(validator).Success?
    ensures var serviceType := GetServiceTypeFromValidatorType(validator).value;
      && (HasService(ds, serviceType) ==> AfterAddValidator(ds, validator, lifetime) == WithCore(ds))
      && (!HasService(ds, serviceType) ==>
            AfterAddValidator(ds, validator, lifetime) ==
            WithCore(ds) + [ServiceDescriptor(serviceType, ImplementationType(validator), lifetime)])
  {
    var serviceType := GetServiceTypeFromValidatorType(validator).value;
    CoreTypesAreNotValidators(serviceType.firstArgument);
    WithCoreCount(ds, serviceType);
    CountPositive(ds, serviceType);
    CountPositive(WithCore(ds), serviceType);
  }

  /** Registering the same validator class twice, with any lifetimes, leaves the collection as the
      first registration left it: one binding, with the first lifetime. */
  lemma AddValidatorTwice(ds: seq<ServiceDescriptor>, validator: ClassType, first: ServiceLifetime, second: ServiceLifetime)
    ensures AfterAddValidator(AfterAddValidator(ds, validator, first), validator, second) ==
            AfterAddValidator(ds, validator, first)
    ensures GetServiceTypeFromValidatorType(validator).Success? && !HasService(ds, GetServiceTypeFromValidatorType(validator).value) ==>
            Count(AfterAddValidator(AfterAddValidator(ds, validator, first), validator, second),
                  GetServiceTypeFromValidatorType(validator).value) == 1
  {
    match GetServiceTypeFromValidatorType(validator)
    case Failure(_) =>
      WithCoreIdempotent(ds);
    case Success(serviceType) =>
      AddValidatorFirstWins(ds, validator, first);
      CoreTypesAreNotValidators(serviceType.firstArgument);
      TryAddCount(WithCore(ds), ServiceDescriptor(serviceType, ImplementationType(validator), first), serviceType);
      WithCoreCount(ds, serviceType);
      CountPositive(ds, serviceType);
      // the first call already holds both core services, so the second adds nothing
      WithCoreIdempotent(ds);
      WithCoreOfCore(WithCore(ds), ServiceDescriptor(serviceType, ImplementationType(validator), first));
  }

  /** When the class implements no `IValidator<_>`, `AddValidator` throws with only the core
      services added: no other service type gains a descriptor. */
  lemma AddValidatorFailureAddsNoValidator(ds: seq<ServiceDescriptor>, validator: ClassType, lifetime: ServiceLifetime, t: TypeRef)
    requires GetServiceTypeFromValidatorType(validator).Failure?
    ensures AfterAddValidator(ds, validator, lifetime) == WithCore(ds)
    ensures !IsCoreServiceType(t) ==> Count(AfterAddValidator(ds, validator, lifetime), t) == Count(ds, t)
  {
    WithCoreCount(ds, t);
  }

  /** `AddInlineValidator` is additive: `IValidator<message>` gains exactly one descriptor even when
      one is already registered. */
  lemma AddInlineValidatorAdditive(ds: seq<ServiceDescriptor>, message: TypeRef, instance: InlineValidator, t: TypeRef)
    ensures Count(AfterAddInlineValidator(ds, message, instance), IValidatorOf(message)) == Count(ds, IValidatorOf(message)) + 1
    ensures t != IValidatorOf(message) && !IsCoreServiceType(t) ==>
            Count(AfterAddInlineValidator(ds, message, instance), t) == Count(ds, t)
  {
    CoreTypesAreNotValidators(message);
    WithCoreCount(ds, t);
    WithCoreCount(ds, IValidatorOf(message));
    CountConcat(WithCore(ds), [InlineDescriptor(message, instance)], t);
    CountConcat(WithCore(ds), [InlineDescriptor(message, instance)], IValidatorOf(message));
    assert [InlineDescriptor(message, instance)][..0] == [];
  }

  /** `AddValidatorProfile` copies the profile's descriptors with no deduplication: every service
      type gains exactly as many descriptors as the profile holds for it, beyond the core services. */
  lemma AddValidatorProfileCopiesAll(ds: seq<ServiceDescriptor>, profileDescriptors: seq<ServiceDescriptor>, t: TypeRef)
    ensures !IsCoreServiceType(t) ==>
            Count(AfterAddValidatorProfile(ds, profileDescriptors), t) == Count(ds, t) + Count(profileDescriptors, t)
    ensures IsCoreServiceType(t) ==>
            Count(AfterAddValidatorProfile(ds, profileDescriptors), t) ==
            (if Count(ds, t) == 0 then 1 else Count(ds, t)) + Count(profileDescriptors, t)
  {
    WithCoreCount(ds, t);
    CountConcat(WithCore(ds), profileDescriptors, t);
  }
}
