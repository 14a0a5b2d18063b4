/** Small JavaScript value conventions shared by every component of the model:
    nullable values, calls that may throw, the `number | null | undefined`
    shape of a calculator's `result`, and JavaScript truthiness. */
module Js {

  /** A nullable value (`T | null`). */
  datatype Option<+T> = None | Some(value: T)

  /** The outcome of a call that either returns a value or throws. Nothing in
      the modelled code inspects what was thrown, so the exception carries no
      payload. */
  datatype Attempt<+T> = Returned(value: T) | Threw

  /** A JavaScript number field that may also be `null` or missing. */
  datatype JsNumber = Undefined | Null | Num(value: real)

  /** `n ?? 0`: a missing or null number reads as zero. */
  function OrZero(n: JsNumber): real
  {
    match n
    case Num(v) => v
    case _ => 0.0
  }

  /** `n ?? 0` on a plain nullable number. */
  function OrZeroNullable(n: Option<real>): real
  {
    match n
    case Some(v) => v
    case None => 0.0
  }

  /** `s ?? ""`. */
  function OrEmpty(s: Option<string>): string
  {
    match s
    case Some(v) => v
    case None => ""
  }

  /** Truthiness of a nullable id: `null` and `0` are falsy. */
  predicate TruthyId(id: Option<int>) {
    id.Some? && id.value != 0
  }

  /** Truthiness of a nullable string: `null` and `""` are falsy. */
  predicate TruthyText(s: Option<string>) {
    s.Some? && s.value != ""
  }
}
