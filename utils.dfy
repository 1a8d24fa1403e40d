/** src/utils/utils.ts: `keepPrevIfUnchanged` and `unwrapGetterOrValue`. */
module Utils {

  /** `keepPrevIfUnchanged`: the previous value when the new one deep-equals
      it, else the new one. With values compared structurally both answers
      are the same value: the reference it keeps is not observable here. */
  function KeepPrevIfUnchanged<T(==)>(newValue: T, prevValue: T): (r: T)
    ensures newValue == prevValue ==> r == prevValue
    ensures r == newValue
  {
    if newValue == prevValue then prevValue else newValue
  }

  /** `T | (() => T)`. */
  datatype GetterOrValue<T> = Plain(value: T) | Getter(get: () -> T)

  /** `unwrapGetterOrValue`: a getter is called (once) and its result
      returned; any other value is returned unchanged. */
  function UnwrapGetterOrValue<T>(v: GetterOrValue<T>): (r: T)
    ensures v.Getter? ==> r == v.get()
    ensures v.Plain? ==> r == v.value
  {
    match v
    case Plain(x) => x
    case Getter(g) => g()
  }
}
