/**
 * Registration-time resolution of the message type a validator class validates:
 * the first implemented interface that is a closed `IValidator<T>` decides, and a
 * class with no such interface is rejected with an `AggregateException`.
 */
module TypeHelper {
  import opened Wrappers
  import opened Reflection

  /** The filter of the search: a generic interface whose definition is `IValidator<>`.
      Plain interfaces and other generic definitions never pass it. */
  predicate IsValidatorInterface(t: TypeRef)
  {
    t.Generic? && t.definition == IValidatorDefinition
  }

  /** `FirstOrDefault` over the interfaces with the filter above; `None` is the default (null). */
  function FirstValidatorInterface(interfaces: seq<TypeRef>): (r: Option<TypeRef>)
    ensures r.Some? ==> IsValidatorInterface(r.value) && r.value in interfaces
    ensures r.None? <==> forall i | 0 <= i < |interfaces| :: !IsValidatorInterface(interfaces[i])
  {
    if interfaces == [] then None
    else if IsValidatorInterface(interfaces[0]) then Some(interfaces[0])
    else FirstValidatorInterface(interfaces[1..])
  }

  /** The text of the exception, as the source builds it (no space after the name). */
  function NotAValidatorMessage(validator: ClassType): string
  {
    validator.name + "is not implement with IValidator<>."
  }

  /** `GetServiceTypeFromValidatorTYpe<TService>()`: the service type `IValidator<T>` under
      which a validator class is registered. */
  function GetServiceTypeFromValidatorType(validator: ClassType): (r: Result<TypeRef, Exception>)
    ensures r.Success? <==>
      exists i | 0 <= i < |validator.interfaces| :: IsValidatorInterface(validator.interfaces[i])
    ensures r.Failure? ==> r.error == AggregateException(NotAValidatorMessage(validator))
    ensures r.Success? ==>
      r.value.Generic? && r.value.definition == IValidatorDefinition && r.value.otherArguments == [] &&
      exists i | 0 <= i < |validator.interfaces| ::
        IsValidatorInterface(validator.interfaces[i]) &&
        validator.interfaces[i].firstArgument == r.value.firstArgument
  {
    match FirstValidatorInterface(validator.interfaces)
    case None => Failure(AggregateException(NotAValidatorMessage(validator)))
    case Some(validatorType) => Success(IValidatorOf(validatorType.firstArgument))
  }

  /** Selection is first-match: the earliest `IValidator<_>` in interface order is the one found. */
  lemma {:induction false} FirstMatchWins(interfaces: seq<TypeRef>, k: nat)
    requires k < |interfaces| && IsValidatorInterface(interfaces[k])
    requires forall j | 0 <= j < k :: !IsValidatorInterface(interfaces[j])
    ensures FirstValidatorInterface(interfaces) == Some(interfaces[k])
  {
    if k > 0 {
      FirstMatchWins(interfaces[1..], k - 1);
    }
  }

  /** A class implementing several `IValidator<X>` resolves to `IValidator<>` of the earliest
      one's argument, with no ambiguity error. */
  lemma ResolvesToFirstValidatorInterface(validator: ClassType, k: nat)
    requires k < |validator.interfaces| && IsValidatorInterface(validator.interfaces[k])
    requires forall j | 0 <= j < k :: !IsValidatorInterface(validator.interfaces[j])
    ensures GetServiceTypeFromValidatorType(validator) ==
            Success(IValidatorOf(validator.interfaces[k].firstArgument))
  {
    FirstMatchWins(validator.interfaces, k);
  }

  lemma {:induction false} IgnoredInterface(prefix: seq<TypeRef>, other: TypeRef, suffix: seq<TypeRef>)
    requires !IsValidatorInterface(other)
    ensures FirstValidatorInterface(prefix + [other] + suffix) == FirstValidatorInterface(prefix + suffix)
  {
    if prefix == [] {
      assert prefix + [other] + suffix == [other] + suffix;
      assert ([other] + suffix)[1..] == suffix == prefix + suffix;
    } else {
      assert (prefix + [other] + suffix)[1..] == prefix[1..] + [other] + suffix;
      assert (prefix + suffix)[1..] == prefix[1..] + suffix;
      IgnoredInterface(prefix[1..], other, suffix);
    }
  }

  /** Implementing a further interface that is not an `IValidator<_>` (a plain interface or a
      generic one with another definition), anywhere in the list, never changes the result. */
  lemma OtherInterfacesNeverMatter(name: string, prefix: seq<TypeRef>, other: TypeRef, suffix: seq<TypeRef>)
    requires !IsValidatorInterface(other)
    ensures GetServiceTypeFromValidatorType(ClassType(name, prefix + [other] + suffix)) ==
            GetServiceTypeFromValidatorType(ClassType(name, prefix + suffix))
  {
    IgnoredInterface(prefix, other, suffix);
  }
}
