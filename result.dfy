/**
 * The `Result<T, E>` type of the functional core: either a success carrying a
 * value (`Ok`) or a failure carrying an error (`Err`), with its combinators.
 * The `isOk`/`isErr` flags of the two record shapes are the discriminators
 * `Ok?`/`Err?` of the datatype.
 */
module ResultUtil {

  datatype Result<+T, +E> = Ok(value: T) | Err(error: E)

  /** `ok(value)`: a successful result. */
  function OkOf<T, E>(value: T): (r: Result<T, E>)
    ensures IsOk(r) && !IsErr(r) && r.value == value
  {
    Ok(value)
  }

  /** `err(error)`: a failed result. */
  function ErrOf<T, E>(error: E): (r: Result<T, E>)
    ensures IsErr(r) && !IsOk(r) && r.error == error
  {
    Err(error)
  }

  /** `isOk`: the success flag. */
  predicate IsOk<T, E>(r: Result<T, E>)
  {
    r.Ok?
  }

  /** `isErr`: the failure flag. */
  predicate IsErr<T, E>(r: Result<T, E>)
  {
    r.Err?
  }

  /** Exactly one of the two flags is set on every result. */
  lemma FlagsExclusive<T, E>(r: Result<T, E>)
    ensures IsOk(r) != IsErr(r)
  {
  }

  /** `map`: applies `f` to a success value; a failure passes through unchanged. */
  function Map<T, U, E>(r: Result<T, E>, f: T -> U): (m: Result<U, E>)
    ensures r.Ok? ==> m == Ok(f(r.value))
    ensures r.Err? ==> m == Err(r.error)
  {
    if r.Ok? then Ok(f(r.value)) else Err(r.error)
  }

  /** `flatMap`: chains a computation that may itself fail. */
  function FlatMap<T, U, E>(r: Result<T, E>, f: T -> Result<U, E>): (m: Result<U, E>)
    ensures r.Ok? ==> m == f(r.value)
    ensures r.Err? ==> m == Err(r.error)
  {
    if r.Ok? then f(r.value) else Err(r.error)
  }

  /** `unwrap`: the success value. The source throws on a failure; that case is excluded here. */
  function Unwrap<T, E>(r: Result<T, E>): (v: T)
    requires IsOk(r)
    ensures r == Ok(v)
  {
    r.value
  }

  /** `unwrapOr`: the success value, or `default` on a failure. */
  function UnwrapOr<T, E>(r: Result<T, E>, default: T): (v: T)
    ensures r.Ok? ==> v == r.value
    ensures r.Err? ==> v == default
  {
    if r.Ok? then r.value else default
  }

  /** `mapErr`: applies `f` to a failure's error; a success passes through unchanged. */
  function MapErr<T, E, F>(r: Result<T, E>, f: E -> F): (m: Result<T, F>)
    ensures r.Err? ==> m == Err(f(r.error))
    ensures r.Ok? ==> m == Ok(r.value)
  {
    if r.Err? then Err(f(r.error)) else Ok(r.value)
  }

  /** `match`: calls exactly one of the two handlers, with the matching payload. */
  function Match<T, E, U>(r: Result<T, E>, onOk: T -> U, onErr: E -> U): (u: U)
    ensures r.Ok? ==> u == onOk(r.value)
    ensures r.Err? ==> u == onErr(r.error)
  {
    if r.Ok? then onOk(r.value) else onErr(r.error)
  }

  /** `map` with the identity changes nothing, and two maps compose into one. */
  lemma MapFunctorLaws<T, U, V, E>(r: Result<T, E>, f: T -> U, g: U -> V)
    ensures Map(r, (x: T) => x) == r
    ensures Map(Map(r, f), g) == Map(r, (x: T) => g(f(x)))
  {
  }

  /** `flatMap` is associative and has `ok` as its unit on both sides. */
  lemma FlatMapMonadLaws<T, U, V, E>(v: T, r: Result<T, E>, f: T -> Result<U, E>, g: U -> Result<V, E>)
    ensures FlatMap(OkOf(v), f) == f(v)
    ensures FlatMap(r, (x: T) => OkOf(x)) == r
    ensures FlatMap(FlatMap(r, f), g) == FlatMap(r, (x: T) => FlatMap(f(x), g))
  {
  }

  /** `unwrapOr` is `match` with the identity and a constant handler. */
  lemma UnwrapOrIsMatch<T, E>(r: Result<T, E>, default: T)
    ensures UnwrapOr(r, default) == Match(r, (x: T) => x, (e: E) => default)
  {
  }
}
