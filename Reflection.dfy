/**
 * The part of the runtime's reflection that the registration code relies on:
 * types, the interfaces a class implements, and the exception it throws.
 */
module Reflection {

  /** A type: a plain (non-generic) type, or a closed generic type, that is a
      generic definition applied to its arguments. A closed generic type always
      has at least one argument, so the first argument is a field of its own. */
  datatype TypeRef =
    | Plain(name: string)
    | Generic(definition: string, firstArgument: TypeRef, otherArguments: seq<TypeRef>)

  /** A class: its simple name and the interfaces it implements, in the order
      that reflection reports them. */
  datatype ClassType = ClassType(name: string, interfaces: seq<TypeRef>)

  datatype Exception =
    | AggregateException(message: string)
      /** What a constructor run through `Activator.CreateInstance` (as `new T()` on a type
          parameter is) throws when the constructor itself throws `inner`. */
    | TargetInvocationException(inner: Exception)

  /** The open generic definition `IValidator<>` of the validation library. */
  const IValidatorDefinition: string := "IValidator`1"

  /** The closed type `IValidator<message>`. */
  function IValidatorOf(message: TypeRef): TypeRef
  {
    Generic(IValidatorDefinition, message, [])
  }
}
