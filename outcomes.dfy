/** Wrappers for the results of the secret-santa operations: the Python exceptions they can
    raise, and the finite stream of random numbers that stands for the `random` module. */
module Outcomes {

  datatype Option<+T> = None | Some(value: T)

  /** The Python exceptions the modelled code can raise. */
  datatype Error = AssertionError | IndexError | KeyError

  /** What a call does when it is given a finite prefix of the random numbers it draws:
      it returns, raises, or would still be drawing when the prefix runs out (the source
      loops until it succeeds, so `OutOfDraws` means "has not returned yet"). */
  datatype Outcome<+T> = Ok(value: T) | Raised(error: Error) | OutOfDraws

  /** What a call that draws no random numbers does: it returns or raises. */
  datatype Result<+T> = Success(value: T) | Failure(error: Error)

  /** `rest` is what is left of `draws` once some numbers have been taken from its front. */
  predicate IsSuffixOf(rest: seq<nat>, draws: seq<nat>) {
    |rest| <= |draws| && rest == draws[|draws| - |rest|..]
  }

  lemma SuffixTransitive(a: seq<nat>, b: seq<nat>, c: seq<nat>)
    requires IsSuffixOf(a, b) && IsSuffixOf(b, c)
    ensures IsSuffixOf(a, c)
  {
    assert c[|c| - |b|..][|b| - |a|..] == c[|c| - |a|..];
  }
}
