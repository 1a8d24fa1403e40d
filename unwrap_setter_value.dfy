/** src/utils/unwrapSetterValue.ts: a value to set, or an updater of the
    current value. */
module SetterValue {
  import opened JsValues

  /** `SetValue<V> = V | ((prevValue: V) => V)`. */
  datatype SetValue = Literal(value: Value) | Updater(fn: Value -> Value)

  /** `unwrapSetterValue`. */
  function UnwrapSetterValue(sv: SetValue, currentValue: Value): (r: Value)
    ensures sv.Updater? ==> r == sv.fn(currentValue)
    ensures sv.Literal? ==> r == sv.value
  {
    match sv
    case Literal(v) => v
    case Updater(f) => f(currentValue)
  }
}
