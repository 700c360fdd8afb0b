/** Failure values shared by the registries.  The source signals these as
    checked exceptions; here every operation returns them as data. */
module Results {

  datatype Option<T> = None | Some(value: T)

  /** The two rules `createMatch` checks before looking any player up
      (both surface as InvalidMatchException in the source). */
  datatype MatchRule = SelfMatch | NegativeScore

  datatype Error =
    | DuplicatePlayer(nickname: string)
    | PlayerNotFound(id: int)
    | InvalidMatch(rule: MatchRule)

  datatype Result<T> = Success(value: T) | Failure(error: Error)

  /** The outcome of one mutating registry call: the registry afterwards,
      the created record or the error, and the store lines written by the
      persist-after-mutate call (`None` when no write happens). */
  datatype Step<S, T> = Step(state: S, result: Result<T>, written: Option<seq<string>>)
}
