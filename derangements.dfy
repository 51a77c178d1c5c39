/** Model of secret_santa/derangements.py: the Permutation value type, one-shot generation of a
    random derangement, and the sampler of pairwise non-colliding derangements.

    The `random` module is replaced by a finite stream `draws` of natural numbers: the call
    `random.randint(0, j)` takes the first number d of the stream and yields d % (j + 1), so every
    stream is legal and every value in [0, j] can be drawn. Each method returns the part of the
    stream it did not use. */
module Derangements {
  import opened Outcomes
  import opened Permutations

  /** A Permutation object: its size n and its list v of images. */
  datatype Permutation = Permutation(n: nat, v: seq<int>)

  /** The representation the module documents: a list of length n holding 0, ..., n-1. */
  predicate Valid(p: Permutation) {
    |p.v| == p.n && IsPermutation(p.v)
  }

  /** p is a permutation of {0, ..., n-1} without a fixed point. */
  predicate IsDerangementOfSize(p: Permutation, n: nat) {
    Valid(p) && p.n == n && NoFixedPoint(p.v)
  }

  /** p keeps to the optional per-index exclusion lists. */
  predicate Respects(p: Permutation, exclusions: Option<seq<seq<int>>>) {
    exclusions.None? || (|exclusions.value| == p.n == |p.v| && Avoids(p.v, exclusions.value))
  }

  /** What the sampler promises of the list it returns: every entry is a derangement of
      {0, ..., n-1} keeping to the exclusions, and no index has the same image in two entries. */
  predicate SamplerPromise(res: seq<Permutation>, n: nat, exclusions: Option<seq<seq<int>>>) {
    (forall i :: 0 <= i < |res| ==> IsDerangementOfSize(res[i], n) && Respects(res[i], exclusions)) &&
    (forall i, j :: 0 <= i < |res| && 0 <= j < |res| && i != j ==> NonColliding(res[i].v, res[j].v))
  }

  /** next collides with no entry of res. */
  predicate CollidesWithNone(next: Permutation, res: seq<Permutation>) {
    forall i :: 0 <= i < |res| ==> NonColliding(next.v, res[i].v)
  }

  /** next passed every check of the sampler against the entries accepted so far. */
  predicate Acceptable(next: Permutation, n: nat, exclusions: Option<seq<seq<int>>>, res: seq<Permutation>) {
    IsDerangementOfSize(next, n) && Respects(next, exclusions) && CollidesWithNone(next, res)
  }

  /** Appending a candidate that passed the checks of the sampler keeps its promise. */
  lemma AcceptCandidate(res: seq<Permutation>, next: Permutation, n: nat, exclusions: Option<seq<seq<int>>>)
    requires SamplerPromise(res, n, exclusions)
    requires Acceptable(next, n, exclusions, res)
    ensures SamplerPromise(res + [next], n, exclusions)
  {
    var longer := res + [next];
    forall i, j | 0 <= i < |longer| && 0 <= j < |longer| && i != j
      ensures NonColliding(longer[i].v, longer[j].v)
    {
      if j == |res| {
        assert NonColliding(next.v, res[i].v);
      } else if i == |res| {
        assert NonColliding(next.v, res[j].v);
      }
    }
  }

  /** `Permutation(n, v, random_derangement)`: an explicit list (copied; as a value it cannot
      be changed afterwards through the caller's list), a random derangement, or the identity. */
  method New(n: nat, v: Option<seq<int>>, randomDerangement: bool, draws: seq<nat>)
    returns (r: Outcome<Permutation>, rest: seq<nat>)
    ensures IsSuffixOf(rest, draws)
    ensures v.Some? && randomDerangement ==> r == Raised(AssertionError)
    ensures v.Some? && !randomDerangement ==>
      r == (if |v.value| == n then Ok(Permutation(n, v.value)) else Raised(AssertionError))
    ensures v.None? && !randomDerangement ==>
      r.Ok? && Valid(r.value) && r.value.n == n && forall i :: 0 <= i < n ==> r.value.v[i] == i
    ensures v.None? && randomDerangement ==>
      (r.Ok? ==> IsDerangementOfSize(r.value, n) && |rest| < |draws|) &&
      (r.Raised? <==> n == 0) && (r.Raised? ==> r.error == IndexError) &&
      (n == 1 ==> r == OutOfDraws)
    ensures v.Some? || !randomDerangement ==> rest == draws
  {
    rest := draws;
    if v.Some? && randomDerangement {
      r := Raised(AssertionError);
    } else if v.Some? {
      if |v.value| == n {
        r := Ok(Permutation(n, v.value));
      } else {
        r := Raised(AssertionError);
      }
    } else if randomDerangement {
      var w;
      w, rest := RandomDerangement(n, draws);
      r := match w
        case Ok(u) => Ok(Permutation(n, u))
        case Raised(e) => Raised(e)
        case OutOfDraws => OutOfDraws;
    } else {
      IdentityIsPermutation(n);
      r := Ok(Permutation(n, Identity(n)));
    }
  }

  /** `p(i)`: the image of i, which no other index shares. */
  function Apply(p: Permutation, i: int): (r: int)
    requires Valid(p) && 0 <= i < p.n
    ensures 0 <= r < p.n
    ensures forall j :: 0 <= j < p.n && j != i ==> p.v[j] != r
  {
    p.v[i]
  }

  /** `self * other`, the permutation "self after other"; sizes must agree. */
  method Mul(self: Permutation, other: Permutation) returns (r: Result<Permutation>)
    requires Valid(self) && Valid(other)
    ensures r.Success? <==> other.n == self.n
    ensures r.Failure? ==> r.error == AssertionError
    ensures r.Success? ==> Valid(r.value) && r.value.n == self.n && r.value.v == Composed(self.v, other.v)
    ensures r.Success? ==> forall i :: 0 <= i < self.n ==> Apply(r.value, i) == Apply(self, Apply(other, i))
  {
    var n := self.n;
    if other.n != n {
      return Failure(AssertionError);
    }
    var w := new int[n](_ => 0);
    for i := 0 to n
      invariant forall k :: 0 <= k < i ==> w[k] == self.v[other.v[k]]
    {
      w[i] := self.v[other.v[i]];
    }
    assert w[..] == Composed(self.v, other.v);
    ComposedIsPermutation(self.v, other.v);
    r := Success(Permutation(n, w[..]));
  }

  /** `self.inverse()`: the permutation that sends self(i) back to i. */
  method Inverse(self: Permutation) returns (r: Permutation)
    requires Valid(self)
    ensures Valid(r) && r.n == self.n && r.v == Inverted(self.v)
    ensures forall i :: 0 <= i < self.n ==> Apply(r, Apply(self, i)) == i
  {
    var n := self.n;
    var w := new int[n](_ => 0);
    for i := 0 to n
      invariant forall k :: 0 <= k < i ==> w[self.v[k]] == k
    {
      w[self.v[i]] := i;
    }
    InvertedIsInverse(self.v);
    forall x | 0 <= x < n
      ensures w[x] == Inverted(self.v)[x]
    {
      var k := IndexOf(self.v, x);
      assert w[self.v[k]] == k;
    }
    assert w[..] == Inverted(self.v);
    r := Permutation(n, w[..]);
  }

  /** `self.is_derangement()`: no index is its own image. */
  method IsDerangement(self: Permutation) returns (b: bool)
    ensures b == NoFixedPoint(self.v)
  {
    for i := 0 to |self.v|
      invariant forall k :: 0 <= k < i ==> self.v[k] != k
    {
      if self.v[i] == i {
        return false;
      }
    }
    return true;
  }

  /** `self.verifies_exclusions(exclusions)`: one list per index, and no index is sent into its own. */
  method VerifiesExclusions(self: Permutation, exclusions: seq<seq<int>>) returns (r: Result<bool>)
    requires |self.v| == self.n
    ensures r.Failure? <==> |exclusions| != self.n
    ensures r.Failure? ==> r.error == AssertionError
    ensures r.Success? ==> r.value == Avoids(self.v, exclusions)
  {
    if |exclusions| != self.n {
      return Failure(AssertionError);
    }
    for i := 0 to |self.v|
      invariant forall k :: 0 <= k < i ==> self.v[k] !in exclusions[k]
    {
      if self.v[i] in exclusions[i] {
        return Success(false);
      }
    }
    return Success(true);
  }

  /** The stream prefix whose picks are j - 1 for every j >= 1 and 0 for j = 0: the pass then
      turns the identity into the cycle [n-1, 0, 1, ..., n-2]. */
  predicate CyclePicks(n: nat, draws: seq<nat>) {
    |draws| >= n && forall t :: 0 <= t < n - 1 ==> draws[t] % (n - t) == n - t - 2
  }

  /** One pass of the `while True` loop of `_get_random_derangement`: Ok(Some(v)) when the pass
      returns v, Ok(None) when it breaks and the loop starts over, IndexError for n = 0 (the
      final test reads v[0] of an empty list). */
  method DerangementAttempt(n: nat, draws: seq<nat>) returns (r: Outcome<Option<seq<int>>>, rest: seq<nat>)
    ensures IsSuffixOf(rest, draws)
    ensures r.Ok? && r.value.Some? ==>
      |r.value.value| == n && IsPermutation(r.value.value) && NoFixedPoint(r.value.value)
    ensures r.Raised? <==> n == 0
    ensures r.Raised? ==> r.error == IndexError && rest == draws
    ensures r.Ok? ==> |rest| < |draws|
    ensures n == 1 ==> !(r.Ok? && r.value.Some?)
    ensures n >= 2 && CyclePicks(n, draws) ==> r.Ok? && r.value.Some?
  {
    var v := new int[n](i => i);
    assert v[..] == Identity(n);
    IdentityIsPermutation(n);
    rest := draws;
    var j: int := n - 1;
    while 0 <= j
      invariant -1 <= j < n && v.Length == n
      invariant IsPermutation(v[..])
      invariant forall k :: j < k < n ==> v[k] != k
      invariant IsSuffixOf(rest, draws) && |rest| == |draws| - (n - 1 - j)
      invariant j == n - 1 ==> v[..] == Identity(n)
      invariant CyclePicks(n, draws) && n >= 2 && 0 <= j < n - 1 ==>
        v[j] == n - 1 && forall k :: 0 <= k < j ==> v[k] == k
    {
      if rest == [] {
        return OutOfDraws, rest;
      }
      var p := rest[0] % (j + 1);
      assert rest[0] == draws[n - 1 - j];
      rest := rest[1..];
      if v[p] == j {
        return Ok(None), rest;
      }
      ghost var before := v[..];
      v[j], v[p] := v[p], v[j];
      assert v[..] == before[j := before[p]][p := before[j]];
      SwapIsPermutation(before, j, p);
      j := j - 1;
    }
    if n == 0 {
      return Raised(IndexError), rest;
    }
    // A completed pass has moved every entry, so the source's final test always passes.
    assert v[0] != 0;
    if v[0] != 0 {
      r := Ok(Some(v[..]));
    } else {
      r := Ok(None);
    }
  }

  /** `_get_random_derangement(n)`: passes are repeated until one returns. */
  method RandomDerangement(n: nat, draws: seq<nat>) returns (r: Outcome<seq<int>>, rest: seq<nat>)
    ensures IsSuffixOf(rest, draws)
    ensures r.Ok? ==> |r.value| == n && IsPermutation(r.value) && NoFixedPoint(r.value)
    ensures r.Ok? ==> |rest| < |draws|
    ensures r.Raised? <==> n == 0
    ensures r.Raised? ==> r.error == IndexError && rest == draws
    ensures n == 1 ==> r == OutOfDraws
    ensures n >= 2 && CyclePicks(n, draws) ==> r.Ok?
  {
    rest := draws;
    while true
      invariant IsSuffixOf(rest, draws)
      invariant n == 0 ==> rest == draws
      invariant n >= 2 && CyclePicks(n, draws) ==> rest == draws
      decreases |rest|
    {
      var attempt, left := DerangementAttempt(n, rest);
      SuffixTransitive(left, rest, draws);
      match attempt
      case Raised(e) =>
        return Raised(e), rest;
      case OutOfDraws =>
        return OutOfDraws, left;
      case Ok(Some(v)) =>
        return Ok(v), left;
      case Ok(None) =>
        rest := left;
    }
  }

  /** The loop `for s in res` of random_derangements: success stays true while
      next * s.inverse() is a derangement, which holds exactly when next and s collide nowhere. */
  method CheckAgainstAccepted(next: Permutation, res: seq<Permutation>) returns (success: bool)
    requires Valid(next)
    requires forall i :: 0 <= i < |res| ==> Valid(res[i]) && res[i].n == next.n
    ensures success == CollidesWithNone(next, res)
  {
    success := true;
    for i := 0 to |res|
      invariant success == forall k :: 0 <= k < i ==> NonColliding(next.v, res[k].v)
    {
      var inverse := Inverse(res[i]);
      var product := Mul(next, inverse);
      var deranged := IsDerangement(product.value);
      CollisionTest(next.v, res[i].v);
      if !deranged {
        success := false;
        break;
      }
    }
  }

  /** The errors random_derangements can raise: IndexError when there is nobody to draw
      for, AssertionError when the exclusion table does not have one row per person. */
  predicate SamplerError(e: Error, n: nat, exclusions: Option<seq<seq<int>>>) {
    (n == 0 && e == IndexError) ||
    (exclusions.Some? && |exclusions.value| != n && e == AssertionError)
  }

  /** The inner `while not success` loop of random_derangements: draw derangements until
      one keeps to the exclusions and collides with none of the accepted ones. */
  method NextAccepted(n: nat, exclusions: Option<seq<seq<int>>>, res: seq<Permutation>, draws: seq<nat>)
    returns (r: Outcome<Permutation>, rest: seq<nat>)
    requires SamplerPromise(res, n, exclusions)
    ensures IsSuffixOf(rest, draws)
    ensures r.Ok? ==> n >= 2 && |rest| < |draws|
    ensures r.Ok? ==> Acceptable(r.value, n, exclusions, res)
    ensures n == 0 ==> r == Raised(IndexError)
    ensures n == 1 ==> r == OutOfDraws
    ensures r.Raised? ==> SamplerError(r.error, n, exclusions)
  {
    rest := draws;
    var success := false;
    var next := Permutation(n, []);
    while !success
      invariant IsSuffixOf(rest, draws)
      invariant n <= 1 ==> rest == draws
      invariant success ==> n >= 2 && |rest| < |draws|
      invariant success ==> Acceptable(next, n, exclusions, res)
      decreases |rest|
    {
      var candidate, left := New(n, None, true, rest);
      SuffixTransitive(left, rest, draws);
      if candidate.Raised? {
        return Raised(candidate.error), left;
      }
      if candidate.OutOfDraws? {
        return OutOfDraws, left;
      }
      rest := left;
      next := candidate.value;
      if exclusions.Some? {
        var verdict := VerifiesExclusions(next, exclusions.value);
        if verdict.Failure? {
          return Raised(verdict.error), rest;
        }
        if !verdict.value {
          continue;
        }
      }
      success := CheckAgainstAccepted(next, res);
    }
    r := Ok(next);
  }

  /** `random_derangements(n, d, exclusions)`: candidates are drawn until one keeps to the
      exclusions and collides with no derangement accepted so far; it is then appended. */
  method RandomDerangements(n: nat, d: int, exclusions: Option<seq<seq<int>>>, draws: seq<nat>)
    returns (r: Outcome<seq<Permutation>>, rest: seq<nat>)
    ensures IsSuffixOf(rest, draws)
    ensures d <= 0 ==> r == Ok([]) && rest == draws
    ensures r.Ok? ==> |r.value| == (if d <= 0 then 0 else d) && SamplerPromise(r.value, n, exclusions)
    ensures d >= 1 && n == 0 ==> r == Raised(IndexError)
    ensures d >= 1 && n == 1 ==> r == OutOfDraws
    ensures r.Raised? ==> d >= 1 && SamplerError(r.error, n, exclusions)
  {
    var res: seq<Permutation> := [];
    rest := draws;
    if d <= 0 {
      return Ok(res), rest;
    }
    while |res| < d
      invariant IsSuffixOf(rest, draws)
      invariant |res| <= d
      invariant SamplerPromise(res, n, exclusions)
      invariant n <= 1 ==> |res| == 0 && rest == draws
      decreases |rest|
    {
      var next, left := NextAccepted(n, exclusions, res, rest);
      SuffixTransitive(left, rest, draws);
      if next.Raised? {
        return Raised(next.error), left;
      } else if next.OutOfDraws? {
        return OutOfDraws, left;
      }
      AcceptCandidate(res, next.value, n, exclusions);
      res := res + [next.value];
      rest := left;
    }
    return Ok(res), rest;
  }
}
