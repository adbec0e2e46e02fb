/**
 * The JavaScript values that flow through the dashboard's data core.
 *
 * A CSV cell starts as a string; the normalizer turns some cells into
 * numbers, and a number may be NaN.  A record is a map from column name to
 * value; a key that is absent from the map is a property that is
 * `undefined`, and `Undef` is a property that is present but holds
 * `undefined` (or `null`).
 */
module JsValues {

  datatype Option<+T> = None | Some(value: T)

  /** A JavaScript value: a string, a number (`None` is NaN) or undefined. */
  datatype Value = Str(s: string) | Num(n: Option<real>) | Undef

  /** JavaScript truthiness: '', 0, NaN and undefined are falsy. */
  predicate Truthy(v: Value) {
    match v
    case Str(s) => s != ""
    case Num(n) => n.Some? && n.value != 0.0
    case Undef => false
  }

  /** A value that JavaScript arithmetic reads as a number without going
      through string-to-number coercion: anything but a non-empty string. */
  predicate NumberLike(v: Value) {
    !(v.Str? && v.s != "")
  }

  /** `x || 0` for a number that may be NaN. */
  function NumberOrZero(n: Option<real>): real {
    match n
    case Some(x) => x
    case None => 0.0
  }

  /** `v || 0` for a number, '' or undefined: the number itself, and 0 for
      every falsy value. */
  function OrZero(v: Value): (r: real)
    requires NumberLike(v)
    ensures Truthy(v) ==> v.Num? && r == v.n.value
    ensures !Truthy(v) ==> r == 0.0
  {
    match v
    case Num(n) => NumberOrZero(n)
    case _ => 0.0
  }

  /** `record[key]`: an absent key reads as undefined. */
  function Get(record: map<string, Value>, key: string): Value {
    if key in record then record[key] else Undef
  }
}
