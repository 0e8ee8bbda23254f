/** Types that several components share: options, results, the error enumeration
    of mizan-core and the HTTP status each error is answered with. */
module Core {
  datatype Option<+T> = None | Some(value: T) {
    function GetOr(default: T): T {
      match this
      case None => default
      case Some(v) => v
    }
  }

  datatype Result<+T, +E> = Success(value: T) | Failure(error: E)

  type AppResult<+T> = Result<T, AppError>

  datatype AppError =
    | Config
    | InvalidConfig(key: string)
    | Infrastructure(message: string)
    | Io
    | NotFound
    | Unauthorized
    | Forbidden
    | LimitExceeded(scope: string)
    | InsufficientCredit
    | Provider(reason: string)
  {
    /** The HTTP status of an error; never a success status. */
    function StatusCode(): (status: nat)
      ensures !IsSuccessStatus(status)
    {
      match this
      case InvalidConfig(_) => 400
      case NotFound => 404
      case Unauthorized => 401
      case Forbidden => 403
      case Provider(_) => 502
      case LimitExceeded(_) => 429
      case InsufficientCredit => 402
      case _ => 500
    }
  }

  /** A database statement that failed, or its connection. */
  const FAULT := AppError.Infrastructure("database statement failed")

  const STATUS_OK: nat := 200
  const STATUS_PAYMENT_REQUIRED: nat := 402

  predicate IsSuccessStatus(status: nat) {
    200 <= status <= 299
  }

  const I64_MAX := 0x7FFF_FFFF_FFFF_FFFF
  const I64_MIN := -0x8000_0000_0000_0000
  const U64_MAX := 0xFFFF_FFFF_FFFF_FFFF

  type I64 = n: int | I64_MIN <= n <= I64_MAX
  type U64 = n: int | 0 <= n <= U64_MAX

  datatype TokenUsage = TokenUsage(promptTokens: U64, completionTokens: U64, totalTokens: U64, estimated: bool)
}
