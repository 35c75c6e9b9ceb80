/**
 * Shared vocabulary of the points ledger model: optional values, results,
 * the error taxonomy of the services, and Go's 64-bit `int`.
 */
module Base {

  datatype Option<+T> = None | Some(value: T)

  datatype Result<+T, +E> = Ok(value: T) | Err(error: E)

  /** Raw failures a repository reports: the storage engine (MySQL through
      gorm, Redis) failed, or a stored counter is not a decimal `int`. */
  datatype RepoError = EngineFailure | NotAnInteger

  /** The errors the services return.  `Internal` is bizerr.ErrInternalError
      wrapping a repository error; the service layer's own `fmt.Errorf("...: %w")`
      wrapping keeps the identity of the wrapped error and is not represented. */
  datatype Error =
    | Internal(cause: RepoError)
    | AccountNotExist        // bizerr.ErrAccountNotExist
    | ActivityNotExist       // bizerr.ErrActivityNotExist
    | LimitReached           // activity.LimitError
    | NotEnoughPoints        // "Not enough points"
    | SigningFailed          // signature(): the key file is missing or cannot be parsed

  const MinInt64: int := -0x8000_0000_0000_0000
  const MaxInt64: int := 0x7FFF_FFFF_FFFF_FFFF
  const TwoTo64: int := 0x1_0000_0000_0000_0000

  predicate IsInt64(x: int) { MinInt64 <= x <= MaxInt64 }

  /** Unsigned 64-bit values, as decoded from the on-chain account. */
  type U64 = x: int | 0 <= x < TwoTo64

  /** Go's two's-complement `int` addition: the mathematical sum brought back
      into the 64-bit range. */
  function Wrap64(x: int): (r: int)
    ensures IsInt64(r)
    ensures (r - x) % TwoTo64 == 0
    ensures IsInt64(x) ==> r == x
  {
    (x - MinInt64) % TwoTo64 + MinInt64
  }

  /** Go's conversion `int(u)` of a `uint64`: values of 2^63 and above turn negative. */
  function ToInt64(u: U64): (r: int)
    ensures IsInt64(r)
    ensures (r - u) % TwoTo64 == 0
    ensures r == u <==> u <= MaxInt64
  {
    if u <= MaxInt64 then u else u - TwoTo64
  }
}
