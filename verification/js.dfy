/** JavaScript's falsiness-based defaulting, as the controllers use it. */
module Js {
  import opened Wrappers

  /** A number is truthy when it is defined and not 0 (NaN is not modelled). */
  predicate NumTruthy(x: Option<int>) {
    x.Some? && x.value != 0
  }

  /** `a || b` on an optional number. */
  function NumOr(a: Option<int>, b: int): int {
    if NumTruthy(a) then a.value else b
  }

  /** A string is truthy when it is defined and not empty. */
  predicate StrTruthy(x: Option<string>) {
    x.Some? && x.value != ""
  }

  /** `a || b` on an optional string. */
  function StrOr(a: Option<string>, b: string): string {
    if StrTruthy(a) then a.value else b
  }
}
