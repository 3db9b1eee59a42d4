/** Optional arguments of the script's functions. A JavaScript default
parameter value is used when the argument is left out and also when
`undefined` is passed; any other value, the empty string included, is kept.
 */
module Args {

  /** An argument as the callee sees it: `Omitted` stands for both a missing
      argument and an explicit `undefined`. */
  datatype Arg<T> = Omitted | Given(value: T)

  /** The parameter's value once its default has been applied. */
  function OrDefault<T>(arg: Arg<T>, default: T): (v: T)
    ensures arg.Given? ==> v == arg.value
    ensures arg.Omitted? ==> v == default
  {
    match arg
    case Omitted => default
    case Given(x) => x
  }
}
