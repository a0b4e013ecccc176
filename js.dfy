/** Values as the JavaScript handlers see them: absent properties, parsed JSON and truthiness. */
module Js {

  /** A property that may be `undefined`. */
  datatype Option<+T> = None | Some(value: T)

  /** A value of a parsed JSON request body. Numbers are integers in this model. */
  datatype Json = JString(text: string) | JNumber(number: int) | JBool(flag: bool) | JNull | JArray | JObject

  /** Truthiness of an optional string: `undefined` and `""` are falsy. */
  predicate TruthyString(v: Option<string>) {
    v.Some? && v.value != ""
  }

  /** Truthiness of an optional number: `undefined` and `0` are falsy. */
  predicate TruthyNumber(v: Option<int>) {
    v.Some? && v.value != 0
  }

  /** `v || fallback` on a string property. */
  function OrString(v: Option<string>, fallback: string): string {
    if TruthyString(v) then v.value else fallback
  }

  /** `v || fallback` on a number property. */
  function OrNumber(v: Option<int>, fallback: int): int {
    if TruthyNumber(v) then v.value else fallback
  }
}
