/** The two ways a JavaScript value can be missing, kept apart as the source's
    TypeScript types keep them apart: a property that is not there at all
    (`undefined`) and a property that is there and holds `null`. */
module JsValues {

  /** An optional property: `x?: T`. */
  datatype Optional<+T> = Undefined | Defined(value: T) {

    /** `x ?? d` for a property whose type does not include null. */
    function OrElse(d: T): (r: T)
      ensures Defined? ==> r == value
      ensures Undefined? ==> r == d
    {
      match this
      case Defined(v) => v
      case Undefined => d
    }
  }

  /** A nullable value: `T | null`. */
  datatype Nullable<+T> = Null | NonNull(value: T)

  /** `x ?? null` for a property typed `x?: T | null`: a missing property and
      an explicit null both become null, anything else passes through. */
  function OrNull<T>(x: Optional<Nullable<T>>): (r: Nullable<T>)
    ensures r.NonNull? <==> x.Defined? && x.value.NonNull?
    ensures r.NonNull? ==> r.value == x.value.value
  {
    match x
    case Defined(n) => n
    case Undefined => Null
  }
}
