/**
  `ValidationResult` (validator.py:12-72) and the step that builds it at the end of
  `validate_names` (validator.py:177-204).

  `eval` of the rewritten string in the namespace of `typing`, `typing_extensions` and
  `builtins` cannot be modelled; it is a parameter that maps the string to what `eval`
  would do with it: return a value or raise.
*/
module Results {
  import opened Wrappers

  /** A runtime type value, opaque to the model. */
  datatype PyType = PyType(repr: string)

  /** An exception raised while evaluating the rewritten annotation, opaque to the model. */
  datatype EvalError = EvalError(message: string)

  /** The outcome of `eval`: it returns a value (`None` stands for Python's `None`, which
      `eval` may very well return) or raises. */
  datatype Evaluation = Returned(value: Option<PyType>) | Raised(error: EvalError)

  /** The result record; `pytype == None` stands for Python's `None`. */
  datatype ValidationResult = ValidationResult(
    validatedType: string,
    errors: seq<EvalError>,
    pytype: Option<PyType>,
    invalidNames: seq<string>,
    typeMap: map<string, string>)
  {
    /** `__bool__`, and the `is_valid` property that returns it (validator.py:46-60). */
    predicate IsValid() {
      invalidNames == [] && pytype.Some?
    }

    /** `type_map.get(type_name)` (validator.py:62-72). */
    function GetOrigin(typeName: string): Option<string> {
      if typeName in typeMap then Some(typeMap[typeName]) else None
    }
  }

  /** The result `validate_names` returns once every candidate is resolved: the rewritten
      string is evaluated only when no name is invalid, and an exception of `eval` is
      captured as the one error of the result instead of escaping. */
  function Finish(
    validatedType: string,
    typeMap: map<string, string>,
    invalidNames: seq<string>,
    eval: string -> Evaluation
  ): (r: ValidationResult)
    ensures r.validatedType == validatedType
    ensures r.typeMap == typeMap && r.invalidNames == invalidNames
    ensures |r.errors| <= 1
    ensures invalidNames != [] ==> r.pytype == None && r.errors == []
    ensures r.errors != [] <==> invalidNames == [] && eval(validatedType).Raised?
    ensures r.errors != [] ==> r.errors == [eval(validatedType).error] && r.pytype == None
    ensures invalidNames == [] && eval(validatedType).Returned? ==>
              r.pytype == eval(validatedType).value
    ensures r.IsValid() <==>
              invalidNames == [] && eval(validatedType).Returned? && eval(validatedType).value.Some?
  {
    if invalidNames == [] then
      match eval(validatedType)
      case Returned(v) => ValidationResult(validatedType, [], v, invalidNames, typeMap)
      case Raised(e) => ValidationResult(validatedType, [e], None, invalidNames, typeMap)
    else
      ValidationResult(validatedType, [], None, invalidNames, typeMap)
  }
}
