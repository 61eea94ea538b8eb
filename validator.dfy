/** The `ValidType` constraint: a value is a valid item type when it is
    one of the two category names. */
module Validation {
  import opened Globals

  /** The constraint, carrying the message template of its violation. */
  datatype ValidType = ValidType(message: string)

  /** The constraint as declared, with its default message. */
  const DEFAULT: ValidType := ValidType("The type \"{{ value }}\" is not valid.")

  /** The placeholder the rejected value is bound to. */
  const VALUE_PLACEHOLDER: string := "{{ value }}"

  /** A constraint violation: the message template and the values bound
      to its placeholders. */
  datatype Violation = Violation(message: string, parameters: map<string, Value>)

  /** Membership of the value in the list of the two category names.
      It accepts exactly the values the repository dispatch accepts. */
  function IsValidType(value: Value): (ok: bool)
    ensures ok <==> CategoryOf(value).Some?
  {
    value in [Str(FRUIT), Str(VEGETABLE)]
  }

  /** The validator; `violations` is the list its execution context
      collects. */
  class ValidTypeValidator {
    var violations: seq<Violation>

    constructor ()
      ensures violations == []
    {
      violations := [];
    }

    /** A valid type leaves the context untouched; any other value adds
        exactly one violation, with the constraint's message and the
        value bound to the `{{ value }}` placeholder. */
    method Validate(value: Value, constraint: ValidType)
      modifies this
      ensures IsValidType(value) ==> violations == old(violations)
      ensures !IsValidType(value) ==>
                violations == old(violations) + [Violation(constraint.message, map[VALUE_PLACEHOLDER := value])]
    {
      if !IsValidType(value) {
        violations := violations + [Violation(constraint.message, map[VALUE_PLACEHOLDER := value])];
      }
    }
  }
}
