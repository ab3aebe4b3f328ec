/** The value types of the authorizer: accounts, transactions and the closed
    set of violation codes (internal/core/domain). */
module Domain {

  /** Go's `error` result: `None` stands for `nil`. */
  datatype Option<+T> = None | Some(value: T)

  /** The six business-rule codes; every one is returned as data. */
  datatype Violation =
    | AccountNotInitialized
    | AccountAlreadyInitialized
    | CardNotActive
    | InsufficientLimit
    | HighFrequencySmallInterval
    | DoubleTransaction

  /** The code each violation is printed as: a non-empty word that neither
      starts nor ends with a hyphen. */
  function Code(v: Violation): (code: string)
    ensures |code| > 0 && code[0] != '-' && code[|code| - 1] != '-'
  {
    match v
    case AccountNotInitialized => "account-not-initialized"
    case AccountAlreadyInitialized => "account-already-initialized"
    case CardNotActive => "card-not-active"
    case InsufficientLimit => "insufficient-limit"
    case HighFrequencySmallInterval => "high-frequency-small-interval"
    case DoubleTransaction => "double-transaction"
  }

  /** No two violations share a printed code, so the output names each one. */
  lemma CodesDistinct(v: Violation, w: Violation)
    ensures Code(v) == Code(w) ==> v == w
  {
  }

  /** The single card account; its zero value is `ZeroAccount`. */
  datatype Account = Account(activeCard: bool, availableLimit: int)

  const ZeroAccount := Account(false, 0)

  /** A spend request; `createdAt` is an instant in nanoseconds (UTC). */
  datatype Transaction = Transaction(amount: int, merchant: string, createdAt: int)

  /** `time.Minute`, in nanoseconds. */
  const Minute: int := 60_000_000_000

  /** The width of the trailing window the velocity and duplicate rules use. */
  const TwoMinutes: int := 2 * Minute
}
