/**
 * The runtime traits: narrowing (`WithoutVariant`) lifted through `Result`,
 * and `extract` as a name for it. The narrowing of the error type itself is a
 * parameter: a function that either gives back the error with one possibility
 * removed (`Ok`) or the removed variant's payload (`Err`).
 */
module Traits {
  import opened Wrappers

  /**
   * `<Result<T, E> as WithoutVariant<V>>::remove_possibility`, whose
   * `Without` type is `Result<T, E::Without>`: the `Ok` payload type is kept,
   * the error is narrowed, and only an error holding `V` comes out as `Err`.
   */
  function RemovePossibilityFromResult<T, E, W, V>(self: Result<T, E>, removeFromErr: E -> Result<W, V>)
    : (r: Result<Result<T, W>, V>)
    ensures r.Ok? && r.value.Ok? <==> self.Ok?
    ensures self.Ok? ==> r.value.value == self.value
    ensures r.Err? <==> self.Err? && removeFromErr(self.error).Err?
    ensures r.Err? ==> r.error == removeFromErr(self.error).error
    ensures r.Ok? && r.value.Err? ==> self.Err? && r.value.error == removeFromErr(self.error).value
  {
    match self
    case Ok(ok) => Ok(Ok(ok))
    case Err(err) =>
      match removeFromErr(err)
      case Ok(remainingErr) => Ok(Err(remainingErr))
      case Err(e) => Err(e)
  }

  /** `extract::<V>()`: exactly the receiver's `remove_possibility()`. */
  function Extract<S, W, V>(self: S, removePossibility: S -> Result<W, V>): (r: Result<W, V>)
    ensures r == removePossibility(self)
  {
    removePossibility(self)
  }

  /** Undoes a lifted narrowing, given how the narrowed error and the payload go back into `E`. */
  function Recombine<T, E, W, V>(r: Result<Result<T, W>, V>, widen: W -> E, inject: V -> E): Result<T, E> {
    match r
    case Ok(Ok(t)) => Ok(t)
    case Ok(Err(w)) => Err(widen(w))
    case Err(v) => Err(inject(v))
  }

  /** The error narrowing loses nothing: widening what it returns gives back its input. */
  ghost predicate Lossless<E(!new), W, V>(removeFromErr: E -> Result<W, V>, widen: W -> E, inject: V -> E) {
    forall e :: match removeFromErr(e)
                case Ok(w) => widen(w) == e
                case Err(v) => inject(v) == e
  }

  /** Lifting keeps that: recombining a lifted narrowing gives back the original result. */
  lemma RemovePossibilityRoundTrip<T, E(!new), W, V>(self: Result<T, E>, removeFromErr: E -> Result<W, V>, widen: W -> E, inject: V -> E)
    requires Lossless(removeFromErr, widen, inject)
    ensures Recombine(RemovePossibilityFromResult(self, removeFromErr), widen, inject) == self
  {
    if self.Err? {
      var e := self.error;
      match removeFromErr(e)
      case Ok(w) =>
        assert widen(w) == e;
      case Err(v) =>
        assert inject(v) == e;
    }
  }

  // ---------------------------------------------------------------------------
  // A four-variant error enum whose variant `k` holds the unit struct `k`
  // ---------------------------------------------------------------------------

  datatype Exception = Exception1 | Exception2 | Exception3 | Exception4

  /** The variant of the four-variant enum holding payload `x`, taken out, or the value unchanged. */
  function RemoveVariant(x: Exception): Exception -> Result<Exception, Exception> {
    e => if e == x then Err(e) else Ok(e)
  }

  /** A function failing with the `n`th exception for `n` in 1..4 and returning `n` otherwise. */
  function CauseError(n: nat): (r: Result<nat, Exception>)
    ensures r.Ok? <==> n == 0 || n > 4
    ensures r.Ok? ==> r.value == n
  {
    match n
    case 1 => Err(Exception1)
    case 2 => Err(Exception2)
    case 3 => Err(Exception3)
    case 4 => Err(Exception4)
    case _ => Ok(n)
  }

  /**
   * Extracting one variant from a result: its payload when the error is that
   * variant, the same error otherwise, and the success untouched.
   */
  lemma ExtractVariantCases(n: nat, x: Exception)
    ensures var r := Extract(CauseError(n), (s: Result<nat, Exception>) => RemovePossibilityFromResult(s, RemoveVariant(x)));
      && (CauseError(n) == Err(x) ==> r == Err(x))
      && (CauseError(n).Err? && CauseError(n).error != x ==> r == Ok(Err(CauseError(n).error)))
      && (CauseError(n).Ok? ==> r == Ok(Ok(n)))
  {
  }

  /** The three extractions of the test suite. */
  lemma ExtractTested()
    ensures Extract(CauseError(2), (s: Result<nat, Exception>) => RemovePossibilityFromResult(s, RemoveVariant(Exception2)))
            == Err(Exception2)
    ensures Extract(CauseError(4), (s: Result<nat, Exception>) => RemovePossibilityFromResult(s, RemoveVariant(Exception2)))
            == Ok(Err(Exception4))
    ensures Extract(CauseError(6), (s: Result<nat, Exception>) => RemovePossibilityFromResult(s, RemoveVariant(Exception2)))
            == Ok(Ok(6))
  {
    ExtractVariantCases(2, Exception2);
    ExtractVariantCases(4, Exception2);
    ExtractVariantCases(6, Exception2);
  }
}
