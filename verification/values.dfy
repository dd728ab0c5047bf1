/** Value-level helpers shared by every module: optional values, results, and
    the truthiness rules of Python (`x or y`, `if not x`) that the backfill
    scripts rely on. Money is held as a count of hundredths, so a Decimal
    `0.00` is the natural number 0 and is falsy exactly as in Python. */
module Values {

  datatype Option<+T> = None | Some(value: T) {
    function GetOr(default: T): T {
      match this
      case Some(v) => v
      case None => default
    }
  }

  datatype Result<+T, +E> = Success(value: T) | Failure(error: E)

  /** Python truthiness of a nullable Decimal amount: `None` and zero are falsy. */
  predicate TruthyAmount(a: Option<nat>) {
    a.Some? && a.value != 0
  }

  /** Python truthiness of a nullable string: `None` and `''` are falsy. */
  predicate TruthyText(s: Option<string>) {
    s.Some? && s.value != ""
  }

  /** Python `a or b` on nullable amounts: `a` when truthy, otherwise `b`
      (which may itself be falsy). */
  function PyOr(a: Option<nat>, b: Option<nat>): (r: Option<nat>)
    ensures TruthyAmount(a) ==> r == a
    ensures !TruthyAmount(a) ==> r == b
  {
    if TruthyAmount(a) then a else b
  }

  /** Python `a or default` where the default is a plain (non-null) amount. */
  function AmountOr(a: Option<nat>, default: nat): (r: nat)
    ensures TruthyAmount(a) ==> r == a.value
    ensures !TruthyAmount(a) ==> r == default
  {
    if TruthyAmount(a) then a.value else default
  }

  /** Python `s or default` on nullable strings. */
  function TextOr(s: Option<string>, default: string): (r: string)
    ensures TruthyText(s) ==> r == s.value
    ensures !TruthyText(s) ==> r == default
  {
    if TruthyText(s) then s.value else default
  }
}
