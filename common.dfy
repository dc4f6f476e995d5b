/** Shared vocabulary: optional values, the errors that flow between the
    download, extraction and orchestration stages, bytes, and Go's fixed-width
    integer arithmetic (wrap-around and truncating division). */
module Common {

  datatype Option<T> = None | Some(value: T) {
    function GetOr(default: T): T {
      if Some? then value else default
    }
  }

  /** An error as the pipeline sees it. `Canceled` is exactly the value
      `context.Canceled`; `UrlError` is net/http's `*url.Error`, which
      `http.Client.Do` wraps around every failure (a cancellation included)
      and which compares unequal to `context.Canceled`. */
  datatype Error = Canceled | NotFound(path: string) | Failure(message: string) | UrlError(op: string, url: string, inner: Error)

  /** `errors.Is(e, context.Canceled)`: `Canceled` itself, or wrapped in it. */
  predicate IsCanceled(e: Error) {
    e == Canceled || (e.UrlError? && IsCanceled(e.inner))
  }

  /** The errors `http.Client.Do` returns. */
  type HttpError = e: Error | e.UrlError? witness UrlError("", "", Failure(""))

  /** The errors of opening and copying files, and of reading an archive:
      never a cancellation. */
  type IoError = e: Error | e.NotFound? || e.Failure? witness Failure("")

  type Byte = x: int | 0 <= x < 256
  type Bytes = seq<Byte>

  const TwoTo63: int := 0x8000_0000_0000_0000
  const TwoTo64: int := 0x1_0000_0000_0000_0000
  const MaxInt64: int := 0x7FFF_FFFF_FFFF_FFFF

  /** Values of Go's `int64`. */
  type Int64 = x: int | -0x8000_0000_0000_0000 <= x <= 0x7FFF_FFFF_FFFF_FFFF

  /** Values of Go's `uint64`. */
  type Uint64 = x: int | 0 <= x < 0x1_0000_0000_0000_0000

  function Min(a: int, b: int): (m: int)
    ensures m <= a && m <= b && (m == a || m == b)
  {
    if a <= b then a else b
  }

  function Abs(a: int): (r: nat)
    ensures r == a || r == -a
  {
    if a < 0 then -a else a
  }

  /** Two's-complement wrap-around of Go's int64 arithmetic. */
  function WrapInt64(x: int): (r: Int64)
    ensures -TwoTo63 <= x < TwoTo63 ==> r == x
    ensures (x - r) % TwoTo64 == 0
  {
    (x + TwoTo63) % TwoTo64 - TwoTo63
  }

  /** Wrap-around of Go's uint64 arithmetic. */
  function WrapUint64(x: int): (r: nat)
    ensures r < TwoTo64
    ensures 0 <= x < TwoTo64 ==> r == x
  {
    x % TwoTo64
  }

  /** Go's `+` on two uint64 values. */
  function AddUint64(a: Uint64, b: Uint64): Uint64 {
    if a + b < TwoTo64 then a + b else a + b - TwoTo64
  }

  /** The uint64 sum is the true sum modulo 2^64. */
  lemma AddUint64Wraps(a: Uint64, b: Uint64)
    ensures AddUint64(a, b) == WrapUint64(a + b)
  {
    if a + b >= TwoTo64 {
      ModShift(1, a + b - TwoTo64);
    }
  }

  /** Wrapping after each addition is wrapping once at the end, so a
      uint64 accumulator holds its running sum modulo 2^64. */
  lemma WrapUint64Add(a: nat, b: nat)
    ensures WrapUint64(WrapUint64(a) + b) == WrapUint64(a + b)
  {
    var q, r := a / TwoTo64, a % TwoTo64;
    assert a + b == TwoTo64 * q + (r + b);
    ModShift(q, r + b);
  }

  lemma ModShift(q: nat, y: nat)
    ensures (TwoTo64 * q + y) % TwoTo64 == y % TwoTo64
    decreases q
  {
    if q > 0 {
      assert TwoTo64 * q + y == TwoTo64 * (q - 1) + (y + TwoTo64);
      ModShift(q - 1, y + TwoTo64);
    }
  }

  /** A quotient bounded through its dividend. */
  lemma MulMonotone(x: nat, y: nat, c: nat)
    requires x <= y
    ensures x * c <= y * c
  {
  }

  lemma DivNonNegative(a: int, b: int)
    requires a >= 0 && b > 0
    ensures a / b >= 0
  {
  }

  lemma DivAtMost(a: nat, b: nat, c: nat)
    requires b > 0 && a <= b * c
    ensures a / b <= c
  {
  }

  /** Go's integer division, which truncates toward zero (Dafny's `/` is
      Euclidean). */
  function Quo(a: int, b: int): (q: int)
    requires b != 0
    ensures a >= 0 ==> 0 <= a - q * b < Abs(b)
    ensures a < 0 ==> 0 <= q * b - a < Abs(b)
  {
    if a >= 0 then (if b > 0 then a / b else -(a / -b))
    else (if b > 0 then -((-a) / b) else (-a) / (-b))
  }
}
