/** JavaScript values that can serve as option identities, and the
    truthiness test that `!option` performs on them. */
module JsValues {

  datatype Option<+T> = None | Some(value: T)

  /** An option identity. Objects and arrays are compared by identity,
      so they are represented by an identity number. Numbers are modelled
      as integers (NaN and fractions are not represented). */
  datatype Value =
    | Undefined
    | Null
    | Bool(b: bool)
    | Num(n: int)
    | Str(s: string)
    | Obj(id: nat)

  /** The JavaScript falsy values among those representable here. */
  predicate Falsy(v: Value)
    ensures Falsy(v) <==> v in {Undefined, Null, Bool(false), Num(0), Str("")}
    ensures v.Obj? ==> !Falsy(v)
  {
    match v
    case Undefined => true
    case Null => true
    case Bool(b) => !b
    case Num(n) => n == 0
    case Str(s) => s == ""
    case Obj(_) => false
  }
}
