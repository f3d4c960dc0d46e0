/**
 * Validator profiles: an object that owns a private descriptor collection, filled by its
 * subclass's constructor through `CreateInlineValidator` and `AddValidator`, and later copied
 * wholesale into a target collection by `AddValidatorProfile`.
 *
 * `AddValidatorProfile` is an extension method of the service collection; it is declared here
 * because it needs the profile class, which itself registers through `AddValidator`.
 */
module ValidatorProfiles {
  import opened Wrappers
  import opened Reflection
  import opened FluentValidation
  import opened DependencyInjection
  import opened TypeHelper
  import opened ServiceCollectionHelper

  /** One protected call a profile subclass's constructor makes. The parameterless
      `AddValidator<TValidator>()` is `AddValidatorStep(validator, Scoped)`. */
  datatype ProfileStep =
    | CreateInline(request: TypeRef)
    | AddValidatorStep(validator: ClassType, lifetime: ServiceLifetime)

  /** How many inline validators the steps create. */
  function InlineCount(steps: seq<ProfileStep>): nat
  {
    if steps == [] then 0
    else InlineCount(steps[..|steps| - 1]) + (if steps[|steps| - 1].CreateInline? then 1 else 0)
  }

  /** The profile's collection after its constructor made `steps`, the inline steps having created
      the objects `instances` in order; or the exception that aborts the constructor. */
  function ProfileSpec(steps: seq<ProfileStep>, instances: seq<InlineValidator>): Result<seq<ServiceDescriptor>, Exception>
    requires |instances| == InlineCount(steps)
    decreases |steps|
  {
    if steps == [] then Success([])
    else
      var earlier := steps[..|steps| - 1];
      match steps[|steps| - 1]
      case CreateInline(request) =>
        (match ProfileSpec(earlier, instances[..|instances| - 1])
         case Failure(e) => Failure(e)
         case Success(ds) => Success(ds + [InlineDescriptor(request, instances[|instances| - 1])]))
      case AddValidatorStep(validator, lifetime) =>
        (match ProfileSpec(earlier, instances)
         case Failure(e) => Failure(e)
         case Success(ds) =>
           match GetServiceTypeFromValidatorType(validator)
           case Failure(e) => Failure(e)
           case Success(_) => Success(AfterAddValidator(ds, validator, lifetime)))
  }

  /** `ValidatorProfileBase` */
  class ValidatorProfileBase {
    /** `Validators`: the profile's own collection, set once at construction. */
    const validators: ServiceCollection

    constructor ()
      ensures fresh(validators) && validators.descriptors == []
    {
      validators := new ServiceCollection();
    }

    /** `CreateInlineValidator<TRequest>()`: the returned object is the very one registered. */
    method CreateInlineValidator(request: TypeRef) returns (validator: InlineValidator)
      modifies validators
      ensures fresh(validator) && validator.messageType == request && validator.rules == []
      ensures validators.descriptors == old(validators.descriptors) + [InlineDescriptor(request, validator)]
    {
      validator := new InlineValidator(request, []);
      validators.Add(InlineDescriptor(request, validator));
    }

    /** `AddValidator<TValidator>()` */
    method AddValidator(validator: ClassType) returns (r: Outcome<Exception>)
      modifies validators
      ensures validators.descriptors == AfterAddValidator(old(validators.descriptors), validator, Scoped)
      ensures r.Fail? <==> GetServiceTypeFromValidatorType(validator).Failure?
      ensures r.Fail? ==> r.error == GetServiceTypeFromValidatorType(validator).error
    {
      r := AddValidatorWithLifetime(validator, Scoped);
    }

    /** `AddValidator<TValidator>(lifetime)`: the first-wins registration, on the profile's own
        collection, core services included. */
    method AddValidatorWithLifetime(validator: ClassType, lifetime: ServiceLifetime) returns (r: Outcome<Exception>)
      modifies validators
      ensures validators.descriptors == AfterAddValidator(old(validators.descriptors), validator, lifetime)
      ensures r.Fail? <==> GetServiceTypeFromValidatorType(validator).Failure?
      ensures r.Fail? ==> r.error == GetServiceTypeFromValidatorType(validator).error
    {
      var added := ServiceCollectionHelper.AddValidator(validators, validator, lifetime);
      r := if added.Failure? then Fail(added.error) else Pass;
    }
  }

  /** `new TProfile()`: runs the subclass constructor, given as the calls it makes. On an exception
      the constructor stops at step `failedAt`, no profile is returned, and the exception reaches
      the caller wrapped in `TargetInvocationException`, since `new` on a type parameter goes
      through `Activator.CreateInstance`. */
  method NewProfile(steps: seq<ProfileStep>)
    returns (r: Result<ValidatorProfileBase, Exception>, ghost created: seq<InlineValidator>, ghost failedAt: nat)
    ensures forall v | v in created :: fresh(v)
    ensures forall i, j | 0 <= i < j < |created| :: created[i] != created[j]
    ensures r.Success? ==>
      fresh(r.value) && fresh(r.value.validators) && |created| == InlineCount(steps) &&
      ProfileSpec(steps, created) == Success(r.value.validators.descriptors)
    ensures r.Failure? ==>
      failedAt < |steps| && |created| == InlineCount(steps[..failedAt + 1]) &&
      r.error.TargetInvocationException? &&
      ProfileSpec(steps[..failedAt + 1], created) == Failure(r.error.inner)
  {
    var profile := new ValidatorProfileBase();
    created, failedAt := [], 0;
    var i := 0;
    while i < |steps|
      invariant 0 <= i <= |steps|
      invariant fresh(profile) && fresh(profile.validators)
      invariant forall v | v in created :: fresh(v)
      invariant forall i, j | 0 <= i < j < |created| :: created[i] != created[j]
      invariant |created| == InlineCount(steps[..i])
      invariant ProfileSpec(steps[..i], created) == Success(profile.validators.descriptors)
    {
      assert steps[..i + 1][..i] == steps[..i];
      match steps[i] {
        case CreateInline(request) =>
          var validator := profile.CreateInlineValidator(request);
          assert created == (created + [validator])[..|created|];
          created := created + [validator];
        case AddValidatorStep(validator, lifetime) =>
          var outcome := profile.AddValidatorWithLifetime(validator, lifetime);
          if outcome.Fail? {
            failedAt := i;
            return Failure(TargetInvocationException(outcome.error)), created, failedAt;
          }
      }
      i := i + 1;
    }
    assert steps[..i] == steps;
    r := Success(profile);
  }

  /** `AddValidatorProfile(profile)`: try-adds the core services, then copies every descriptor of
      the profile's collection in order, with no check. The profile's collection is internal to the
      library, so it is never the target itself. */
  method AddValidatorProfile(services: ServiceCollection, profile: ValidatorProfileBase) returns (r: ServiceCollection)
    requires services != profile.validators
    modifies services
    ensures r == services
    ensures services.descriptors == AfterAddValidatorProfile(old(services.descriptors), profile.validators.descriptors)
  {
    AddGrpcValidatorCore(services);
    services.AddRange(profile.validators.descriptors);
    r := services;
  }

  /** `AddValidatorProfile<TProfile>()`: exactly `AddValidatorProfile(new TProfile())`. When the
      profile's constructor throws, the wrapped exception escapes before the collection is touched. */
  method AddValidatorProfileOf(services: ServiceCollection, steps: seq<ProfileStep>)
    returns (r: Result<ServiceCollection, Exception>, ghost created: seq<InlineValidator>, ghost failedAt: nat)
    modifies services
    ensures forall v | v in created :: fresh(v)
    ensures forall i, j | 0 <= i < j < |created| :: created[i] != created[j]
    ensures r.Success? ==>
      r.value == services && |created| == InlineCount(steps) && ProfileSpec(steps, created).Success? &&
      services.descriptors == AfterAddValidatorProfile(old(services.descriptors), ProfileSpec(steps, created).value)
    ensures r.Failure? ==>
      services.descriptors == old(services.descriptors) &&
      failedAt < |steps| && |created| == InlineCount(steps[..failedAt + 1]) &&
      r.error.TargetInvocationException? &&
      ProfileSpec(steps[..failedAt + 1], created) == Failure(r.error.inner)
  {
    var profile;
    profile, created, failedAt := NewProfile(steps);
    if profile.Failure? {
      return Failure(profile.error), created, failedAt;
    }
    var added := AddValidatorProfile(services, profile.value);
    r := Success(added);
  }

  lemma {:induction false} InlineCountConcat(a: seq<ProfileStep>, b: seq<ProfileStep>)
    ensures InlineCount(a + b) == InlineCount(a) + InlineCount(b)
    decreases |b|
  {
    if b == [] {
      assert a + b == a;
    } else {
      assert (a + b)[..|a + b| - 1] == a + b[..|b| - 1];
      InlineCountConcat(a, b[..|b| - 1]);
    }
  }

  /** A registration step never removes or reorders descriptors: the collection before it is a
      prefix of the collection after it. */
  lemma AfterAddValidatorExtends(ds: seq<ServiceDescriptor>, validator: ClassType, lifetime: ServiceLifetime)
    ensures ds <= WithCore(ds) <= AfterAddValidator(ds, validator, lifetime)
  {
  }

  /** Later steps of a profile only append: when the whole run succeeds, so does every prefix of
      it, and the prefix's collection is a prefix of the final one. */
  lemma {:induction false} ProfileSpecOnlyAppends(steps: seq<ProfileStep>, later: seq<ProfileStep>, instances: seq<InlineValidator>)
    requires |instances| == InlineCount(steps + later)
    ensures InlineCount(steps) <= |instances|
    ensures ProfileSpec(steps + later, instances).Success? ==>
      && ProfileSpec(steps, instances[..InlineCount(steps)]).Success?
      && ProfileSpec(steps, instances[..InlineCount(steps)]).value <= ProfileSpec(steps + later, instances).value
    decreases |later|
  {
    InlineCountConcat(steps, later);
    if later == [] {
      assert steps + later == steps;
      assert instances[..InlineCount(steps)] == instances;
    } else {
      var earlier := later[..|later| - 1];
      var whole := steps + later;
      assert whole[..|whole| - 1] == steps + earlier;
      InlineCountConcat(steps, earlier);
      var rest := if whole[|whole| - 1].CreateInline? then instances[..|instances| - 1] else instances;
      ProfileSpecOnlyAppends(steps, earlier, rest);
      assert rest[..InlineCount(steps)] == instances[..InlineCount(steps)];
      if ProfileSpec(whole, instances).Success? {
        var before := ProfileSpec(steps + earlier, rest).value;
        match whole[|whole| - 1] {
          case CreateInline(_) =>
          case AddValidatorStep(validator, lifetime) =>
            AfterAddValidatorExtends(before, validator, lifetime);
        }
      }
    }
  }

  lemma PrefixKeepsService(a: seq<ServiceDescriptor>, b: seq<ServiceDescriptor>, t: TypeRef)
    requires a <= b && HasService(a, t)
    ensures HasService(b, t)
  {
    var i :| 0 <= i < |a| && a[i].serviceType == t;
    assert b[i] == a[i];
  }

  /** Within one profile, `AddValidator` is first-wins: adding a validator class again, with any
      lifetime and after any other steps, leaves the profile's collection as it was. */
  lemma DuplicateValidatorInProfileIgnored(steps: seq<ProfileStep>, middle: seq<ProfileStep>, instances: seq<InlineValidator>,
                                           validator: ClassType, first: ServiceLifetime, second: ServiceLifetime)
    requires |instances| == InlineCount(steps + [AddValidatorStep(validator, first)] + middle)
    ensures InlineCount(steps + [AddValidatorStep(validator, first)] + middle + [AddValidatorStep(validator, second)]) == |instances|
    ensures ProfileSpec(steps + [AddValidatorStep(validator, first)] + middle + [AddValidatorStep(validator, second)], instances) ==
            ProfileSpec(steps + [AddValidatorStep(validator, first)] + middle, instances)
  {
    var once := steps + [AddValidatorStep(validator, first)];
    var before := once + middle;
    var twice := before + [AddValidatorStep(validator, second)];
    assert twice[..|twice| - 1] == before;
    assert once[..|once| - 1] == steps;
    InlineCountConcat(before, [AddValidatorStep(validator, second)]);
    assert [AddValidatorStep(validator, second)][..0] == [];
    var spec := ProfileSpec(before, instances);
    if spec.Success? {
      ProfileSpecOnlyAppends(once, middle, instances);
      var firstSpec := ProfileSpec(once, instances[..InlineCount(once)]);
      assert InlineCount(once) == InlineCount(steps);
      var serviceType := GetServiceTypeFromValidatorType(validator).value;
      var ds0 := ProfileSpec(steps, instances[..InlineCount(once)]).value;
      var ds1 := AfterAddValidator(ds0, validator, first);
      assert firstSpec == Success(ds1);
      var d := ServiceDescriptor(serviceType, ImplementationType(validator), first);
      // the first add left the validator's service type and both core services registered
      WithCoreCount(ds0, ValidatorLocatorType);
      WithCoreCount(ds0, ErrorMessageHandlerType);
      CountPositive(WithCore(ds0), ValidatorLocatorType);
      CountPositive(WithCore(ds0), ErrorMessageHandlerType);
      AfterAddValidatorExtends(ds0, validator, first);
      PrefixKeepsService(WithCore(ds0), ds1, ValidatorLocatorType);
      PrefixKeepsService(WithCore(ds0), ds1, ErrorMessageHandlerType);
      if !HasService(WithCore(ds0), serviceType) {
        assert ds1[|WithCore(ds0)|] == d;
      }
      // and so does every later state of the profile
      var ds := spec.value;
      PrefixKeepsService(ds1, ds, ValidatorLocatorType);
      PrefixKeepsService(ds1, ds, ErrorMessageHandlerType);
      PrefixKeepsService(ds1, ds, serviceType);
      assert ProfileSpec(twice, instances) == Success(AfterAddValidator(ds, validator, second));
    }
  }

  /** A profile's own collection holds each core service exactly once as soon as one of its
      constructor's calls is an `AddValidator`, however many there are, and not at all otherwise:
      `CreateInlineValidator` adds no core service. */
  lemma {:induction false} ProfileCoreCount(steps: seq<ProfileStep>, instances: seq<InlineValidator>, t: TypeRef)
    requires |instances| == InlineCount(steps)
    requires ProfileSpec(steps, instances).Success?
    requires IsCoreServiceType(t)
    ensures Count(ProfileSpec(steps, instances).value, t) ==
            if exists i | 0 <= i < |steps| :: steps[i].AddValidatorStep? then 1 else 0
    decreases |steps|
  {
    if steps != [] {
      var earlier := steps[..|steps| - 1];
      assert forall i | 0 <= i < |earlier| :: earlier[i] == steps[i];
      match steps[|steps| - 1] {
        case CreateInline(request) =>
          var rest := instances[..|instances| - 1];
          ProfileCoreCount(earlier, rest, t);
          var ds := ProfileSpec(earlier, rest).value;
          var d := InlineDescriptor(request, instances[|instances| - 1]);
          CoreTypesAreNotValidators(request);
          CountConcat(ds, [d], t);
          assert [d][..0] == [];
          if exists i | 0 <= i < |steps| :: steps[i].AddValidatorStep? {
            var i :| 0 <= i < |steps| && steps[i].AddValidatorStep?;
            assert earlier[i].AddValidatorStep?;
          }
        case AddValidatorStep(validator, lifetime) =>
          ProfileCoreCount(earlier, instances, t);
          var ds := ProfileSpec(earlier, instances).value;
          var serviceType := GetServiceTypeFromValidatorType(validator).value;
          CoreTypesAreNotValidators(serviceType.firstArgument);
          WithCoreCount(ds, t);
          TryAddCount(WithCore(ds), ServiceDescriptor(serviceType, ImplementationType(validator), lifetime), t);
          assert steps[|steps| - 1].AddValidatorStep?;
      }
    }
  }

  /** A profile that registers a validator class holds its own copies of the core services, and
      `AddValidatorProfile` copies them unconditionally: the target then holds each core service
      once more than the core try-add leaves, so at least twice. */
  lemma {:induction false} ProfileDuplicatesCoreServices(ds: seq<ServiceDescriptor>, steps: seq<ProfileStep>, instances: seq<InlineValidator>, t: TypeRef)
    requires |instances| == InlineCount(steps)
    requires ProfileSpec(steps, instances).Success?
    requires exists i | 0 <= i < |steps| :: steps[i].AddValidatorStep?
    requires IsCoreServiceType(t)
    ensures Count(AfterAddValidatorProfile(ds, ProfileSpec(steps, instances).value), t) == Count(WithCore(ds), t) + 1
    ensures Count(AfterAddValidatorProfile(ds, ProfileSpec(steps, instances).value), t) >= 2
  {
    var own := ProfileSpec(steps, instances).value;
    ProfileCoreCount(steps, instances, t);
    assert Count(own, t) == 1;
    WithCoreCount(ds, t);
    CountConcat(WithCore(ds), own, t);
  }
}
