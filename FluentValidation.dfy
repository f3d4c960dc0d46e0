/**
 * The validation library as the core sees it. The rule engine itself is opaque:
 * a validator is a function from a message to a validation result.
 */
module FluentValidation {
  import opened Reflection

  /** One field-level failure: the property blamed and the human-readable text. */
  datatype ValidationFailure = ValidationFailure(propertyName: string, errorMessage: string)

  datatype ValidationResult = ValidationResult(errors: seq<ValidationFailure>)
  {
    /** A result is valid exactly when it lists no failure. */
    predicate IsValid()
    {
      |errors| == 0
    }
  }

  /** An `InlineValidator<T>` object: the message type it validates and the rules configured on it
      (named, not interpreted). Its identity matters: a registration that holds this object sees
      every rule added to it later. */
  class InlineValidator {
    const messageType: TypeRef
    var rules: seq<string>

    constructor (messageType: TypeRef, rules: seq<string>)
      ensures this.messageType == messageType && this.rules == rules
    {
      this.messageType := messageType;
      this.rules := rules;
    }
  }

  /** A validator resolved for messages of type `Req`. `Rules` stands for the rule engine;
      `validated` records every message it was asked to validate, in order. */
  class Validator<Req> {
    const Rules: Req -> ValidationResult
    var validated: seq<Req>

    constructor (rules: Req -> ValidationResult)
      ensures Rules == rules && validated == []
    {
      Rules := rules;
      validated := [];
    }

    /** `ValidateAsync(request)`: applies the rules; the request itself is a value and is not changed. */
    method ValidateAsync(request: Req) returns (result: ValidationResult)
      modifies this
      ensures result == Rules(request)
      ensures validated == old(validated) + [request]
    {
      result := Rules(request);
      validated := validated + [request];
    }
  }
}
