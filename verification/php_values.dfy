/** The few pieces of PHP value semantics the modelled code leans on: `null`
    and the truthiness test behind `!$x` and `?:`. */
module PhpValues {

  /** A value that may be PHP `null`. */
  datatype Option<+T> = None | Some(value: T)

  /** PHP's `!$s` for a string: only the empty string and "0" are falsy. */
  predicate Falsy(s: string) {
    s == "" || s == "0"
  }

  /** PHP's `!$x` for a string-or-null: `null` is falsy as well. */
  predicate FalsyOrNull(o: Option<string>) {
    match o
    case None => true
    case Some(s) => Falsy(s)
  }
}
