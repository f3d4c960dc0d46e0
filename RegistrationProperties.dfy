/**
 * Properties of a whole run of registration calls on one collection, as a composition root
 * makes them at startup.
 */
module RegistrationProperties {
  import opened Reflection
  import opened FluentValidation
  import opened DependencyInjection
  import opened TypeHelper
  import opened ServiceCollectionHelper

  /** One registration call on the target collection; a profile is given by the descriptors its
      own collection holds when it is added. */
  datatype Registration =
    | RegisterValidator(validator: ClassType, lifetime: ServiceLifetime)
    | RegisterInline(message: TypeRef, instance: InlineValidator)
    | RegisterProfile(profileDescriptors: seq<ServiceDescriptor>)

  /** The collection after one call (an `AddValidator` that throws still leaves the core services). */
  function Apply(ds: seq<ServiceDescriptor>, call: Registration): seq<ServiceDescriptor>
  {
    match call
    case RegisterValidator(validator, lifetime) => AfterAddValidator(ds, validator, lifetime)
    case RegisterInline(message, instance) => AfterAddInlineValidator(ds, message, instance)
    case RegisterProfile(profileDescriptors) => AfterAddValidatorProfile(ds, profileDescriptors)
  }

  /** The collection after the calls, in order. */
  function ApplyAll(ds: seq<ServiceDescriptor>, calls: seq<Registration>): seq<ServiceDescriptor>
    decreases |calls|
  {
    if calls == [] then ds else ApplyAll(Apply(ds, calls[0]), calls[1..])
  }

  /** Adds no descriptor for service type `t` of its own, beyond what the core try-add does. */
  predicate AddsNone(call: Registration, t: TypeRef)
  {
    call.RegisterProfile? ==> Count(call.profileDescriptors, t) == 0
  }

  /** One call keeps a core service at most once and, after it, present. */
  lemma ApplyKeepsCoreOnce(ds: seq<ServiceDescriptor>, call: Registration, t: TypeRef)
    requires IsCoreServiceType(t) && Count(ds, t) <= 1 && AddsNone(call, t)
    ensures Count(Apply(ds, call), t) == 1
  {
    WithCoreCount(ds, t);
    match call
    case RegisterValidator(validator, lifetime) =>
      match GetServiceTypeFromValidatorType(validator) {
        case Failure(_) =>
        case Success(serviceType) =>
          CoreTypesAreNotValidators(serviceType.firstArgument);
          TryAddCount(WithCore(ds), ServiceDescriptor(serviceType, ImplementationType(validator), lifetime), t);
      }
    case RegisterInline(message, instance) =>
      CoreTypesAreNotValidators(message);
      CountConcat(WithCore(ds), [InlineDescriptor(message, instance)], t);
      assert [InlineDescriptor(message, instance)][..0] == [];
    case RegisterProfile(profileDescriptors) =>
      CountConcat(WithCore(ds), profileDescriptors, t);
  }

  /** However many `AddValidator` and `AddInlineValidator` calls run, and however many profiles are
      added whose own collections hold no core descriptor, the locator and the error-message handler
      are each registered at most once, and exactly once after the first call. */
  lemma {:induction false} CoreServicesAtMostOnce(ds: seq<ServiceDescriptor>, calls: seq<Registration>, t: TypeRef)
    requires IsCoreServiceType(t) && Count(ds, t) <= 1
    requires forall i | 0 <= i < |calls| :: AddsNone(calls[i], t)
    ensures Count(ApplyAll(ds, calls), t) <= 1
    ensures calls != [] ==> Count(ApplyAll(ds, calls), t) == 1
    decreases |calls|
  {
    if calls != [] {
      ApplyKeepsCoreOnce(ds, calls[0], t);
      assert forall i | 0 <= i < |calls[1..]| :: AddsNone(calls[1..][i], t) by {
        forall i | 0 <= i < |calls[1..]| ensures AddsNone(calls[1..][i], t) {
          assert calls[1..][i] == calls[i + 1];
        }
      }
      CoreServicesAtMostOnce(Apply(ds, calls[0]), calls[1..], t);
    }
  }
}
