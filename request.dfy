/** The one field each POST route reads from its parsed JSON body. */
module Request {

  /** The value of a body field after `const { field } = await
      request.json()`: absent (`undefined`), present but not a string
      (null, a number, a boolean, an object or an array, falsy or not), or a
      string. A body that parses to a non-object value other than `null`
      (a number, a string, a boolean, an array) has no such field, so it
      is `Missing`. Only invalid JSON and a JSON `null` make the
      destructuring throw; that path ends in the routes' 500 reply and is
      not part of this model. */
  datatype Field = Missing | NonString(truthy: bool) | Str(value: string)

  /** JavaScript truthiness: `undefined`, the falsy non-strings (`null`,
      `false`, `0`, `NaN`) and `""` are falsy. */
  predicate Falsy(f: Field) {
    match f
    case Missing => true
    case NonString(truthy) => !truthy
    case Str(value) => value == ""
  }

  /** The guard `!x || typeof x !== "string"` of both routes, read
      literally. */
  predicate GuardRejects(f: Field) {
    Falsy(f) || !f.Str?
  }

  /** A field the guard lets through: exactly a non-empty string, since
      every non-string is rejected by the `typeof` test whether it is
      truthy or not, and the only falsy string is "". */
  predicate IsNonEmptyString(f: Field)
    ensures IsNonEmptyString(f) <==> !GuardRejects(f)
  {
    f.Str? && f.value != ""
  }
}
