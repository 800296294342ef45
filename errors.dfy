/** The error values of the service (internal/app_error/app_error.go) and the
    parts of Go's error machinery the code relies on: wrapping with `%w`,
    `errors.Is`, `errors.As` and the text returned by `Error()`. */
module Errors {
  import opened Wrappers

  /** The three sentinel errors of the application. */
  datatype Kind = NotFound | Database | HTTPRequestFailed

  /** The text each sentinel was created with. */
  function KindText(k: Kind): string {
    match k
    case NotFound => "not found"
    case Database => "database error"
    case HTTPRequestFailed => "http request failed"
  }

  /** One failed field of a validator error: the struct field and the failed tag. */
  datatype FieldError = FieldError(field: string, tag: string)

  /** A Go error value, as far as the classification in the HTTP layer can see it. */
  datatype Error =
    | Sentinel(kind: Kind)                           // app_error.ErrNotFound, ...
    | EOF                                            // io.EOF itself
    | Invalid(fields: seq<FieldError>, text: string) // validator.ValidationErrors
    | Plain(text: string)                            // any other library error
    | Wrap(inner: Error, detail: string)             // fmt.Errorf("%w: <detail>", inner)
    | Join(first: Error, second: Error)              // fmt.Errorf("%w: %w", first, second)

  /** What `err.Error()` returns. */
  function Text(e: Error): string {
    match e
    case Sentinel(k) => KindText(k)
    case EOF => "EOF"
    case Invalid(_, t) => t
    case Plain(t) => t
    case Wrap(inner, d) => Text(inner) + ": " + d
    case Join(a, b) => Text(a) + ": " + Text(b)
  }

  /** `errors.Is(e, <sentinel of kind k>)`: the sentinel occurs anywhere in the wrap tree. */
  predicate Is(e: Error, k: Kind) {
    match e
    case Sentinel(k') => k' == k
    case Wrap(inner, _) => Is(inner, k)
    case Join(a, b) => Is(a, k) || Is(b, k)
    case _ => false
  }

  /** `errors.As(e, &ve)` for `ve validator.ValidationErrors`: the first validator
      error met in a pre-order, depth-first walk of the wrap tree. */
  function AsInvalid(e: Error): Option<seq<FieldError>> {
    match e
    case Invalid(fs, _) => Some(fs)
    case Wrap(inner, _) => AsInvalid(inner)
    case Join(a, b) => if AsInvalid(a).Some? then AsInvalid(a) else AsInvalid(b)
    case _ => None
  }

  /** `fmt.Errorf("%w: %s - %v", sentinel, what, value)`, the shape of the
      NotFound and status errors. */
  function Tagged(k: Kind, detail: string): (e: Error)
    ensures forall k' :: Is(e, k') <==> k' == k
    ensures AsInvalid(e).None? && e != EOF
    ensures Text(e) == KindText(k) + ": " + detail
  {
    Wrap(Sentinel(k), detail)
  }

  /** `fmt.Errorf("%w: %w", sentinel, cause)` where `cause` is a library error
      (from the database driver or net/http) with the given text. */
  function Caused(k: Kind, cause: string): (e: Error)
    ensures forall k' :: Is(e, k') <==> k' == k
    ensures AsInvalid(e).None? && e != EOF
    ensures Text(e) == KindText(k) + ": " + cause
  {
    Join(Sentinel(k), Plain(cause))
  }

  /** An error built by one of the two shapes above: every error the repositories
      and the car info client return has one of them. */
  predicate Classified(e: Error) {
    (e.Wrap? && e.inner.Sentinel?) || (e.Join? && e.first.Sentinel? && e.second.Plain?)
  }

  /** The sentinel at the head of a classified error. */
  function KindOf(e: Error): (k: Kind)
    requires Classified(e)
    ensures forall k' :: Is(e, k') <==> k' == k
  {
    if e.Wrap? then e.inner.kind else e.first.kind
  }

  /** A Go `(value, error)` pair where exactly one side is meaningful. */
  datatype Result<+T> = Ok(value: T) | Fail(error: Error)

  /** Decimal text of an integer, as `%d` prints it. */
  function FormatInt(n: int): string {
    if n < 0 then "-" + Digits(-n) else Digits(n)
  }

  function Digits(n: nat): string
    decreases n
  {
    if n < 10 then [DigitChar(n)] else Digits(n / 10) + [DigitChar(n % 10)]
  }

  function DigitChar(d: nat): char
    requires d < 10
  {
    "0123456789"[d]
  }

  /** `%d` writes at least one decimal digit, preceded by '-' exactly when the
      number is negative, and nothing else. */
  lemma FormatIntShape(n: int)
    ensures var t := FormatInt(n); var lead := if n < 0 then 1 else 0;
      |t| > lead && (t[0] == '-' <==> n < 0)
      && forall k | lead <= k < |t| :: '0' <= t[k] <= '9'
  {
    if n < 0 {
      DigitsAreDigits(-n);
      assert FormatInt(n)[1..] == Digits(-n);
    } else {
      DigitsAreDigits(n);
    }
  }

  lemma {:induction false} DigitsAreDigits(n: nat)
    ensures |Digits(n)| >= 1 && forall k | 0 <= k < |Digits(n)| :: '0' <= Digits(n)[k] <= '9'
  {
    if n >= 10 {
      DigitsAreDigits(n / 10);
      assert Digits(n) == Digits(n / 10) + [DigitChar(n % 10)];
    }
  }
}
