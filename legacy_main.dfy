/** Model of the root main.py: the tuple-based version of the derangement primitives and the
    message written for each participant. Its `random_derangement` is the algorithm of
    `_get_random_derangement` returning a tuple instead of a list, which is
    Derangements.RandomDerangement on sequence values. */
module LegacyMain {
  import opened Outcomes
  import opened Permutations
  import Derangements
  import opened Text

  /** `is_derangement(s)`: no entry equals its position. */
  method IsDerangement(s: seq<int>) returns (b: bool)
    ensures b == NoFixedPoint(s)
  {
    for i := 0 to |s|
      invariant forall k :: 0 <= k < i ==> s[k] != k
    {
      if s[i] == i {
        return false;
      }
    }
    return true;
  }

  /** `permutation_prod(u, v)`: u after v, of the length of u. */
  method PermutationProd(u: seq<int>, v: seq<int>) returns (w: seq<int>)
    requires |v| >= |u| && forall i :: 0 <= i < |u| ==> 0 <= v[i] < |u|
    ensures w == Composed(u, v[..|u|])
    ensures IsPermutation(u) && IsPermutation(v) && |u| == |v| ==> IsPermutation(w)
  {
    var n := |u|;
    var a := new int[n](_ => 0);
    for i := 0 to n
      invariant forall k :: 0 <= k < i ==> a[k] == u[v[k]]
    {
      a[i] := u[v[i]];
    }
    w := a[..];
    assert w == Composed(u, v[..n]);
    if IsPermutation(u) && IsPermutation(v) && |u| == |v| {
      assert v[..n] == v;
      ComposedIsPermutation(u, v);
    }
  }

  /** `permutation_inverse(v)`: the permutation sending v[i] back to i. */
  method PermutationInverse(v: seq<int>) returns (w: seq<int>)
    requires IsPermutation(v)
    ensures w == Inverted(v) && IsPermutation(w)
    ensures forall i :: 0 <= i < |v| ==> w[v[i]] == i
  {
    var n := |v|;
    var a := new int[n](_ => 0);
    for i := 0 to n
      invariant forall k :: 0 <= k < i ==> a[v[k]] == k
    {
      a[v[i]] := i;
    }
    InvertedIsInverse(v);
    forall x | 0 <= x < n
      ensures a[x] == Inverted(v)[x]
    {
      var k := IndexOf(v, x);
      assert a[v[k]] == k;
    }
    w := a[..];
    assert w == Inverted(v);
  }

  /** What random_derangements promises of its list: every entry is a derangement of
      {0, ..., n-1} and no index has the same image in two entries. */
  predicate NonCollidingDerangements(res: seq<seq<int>>, n: nat) {
    (forall i :: 0 <= i < |res| ==> |res[i]| == n && IsPermutation(res[i]) && NoFixedPoint(res[i])) &&
    (forall i, j :: 0 <= i < |res| && 0 <= j < |res| && i != j ==> NonColliding(res[i], res[j]))
  }

  /** Appending a derangement that collides with no entry keeps the promise. */
  lemma AcceptCandidate(res: seq<seq<int>>, next: seq<int>, n: nat)
    requires NonCollidingDerangements(res, n)
    requires |next| == n && IsPermutation(next) && NoFixedPoint(next)
    requires forall i :: 0 <= i < |res| ==> NonColliding(next, res[i])
    ensures NonCollidingDerangements(res + [next], n)
  {
    var longer := res + [next];
    forall i, j | 0 <= i < |longer| && 0 <= j < |longer| && i != j
      ensures NonColliding(longer[i], longer[j])
    {
      if j == |res| {
        assert NonColliding(next, res[i]);
      } else if i == |res| {
        assert NonColliding(next, res[j]);
      }
    }
  }

  /** The loop `for s in res` of random_derangements: success stays true while
      prod(next, inverse(s)) is a derangement, which holds exactly when next and s collide
      nowhere. */
  method CheckAgainstAccepted(next: seq<int>, res: seq<seq<int>>) returns (success: bool)
    requires forall i :: 0 <= i < |res| ==> IsPermutation(res[i]) && |res[i]| == |next|
    ensures success == forall i :: 0 <= i < |res| ==> NonColliding(next, res[i])
  {
    success := true;
    for i := 0 to |res|
      invariant success == forall k :: 0 <= k < i ==> NonColliding(next, res[k])
    {
      var inverse := PermutationInverse(res[i]);
      assert inverse[..|next|] == inverse;
      var product := PermutationProd(next, inverse);
      var deranged := IsDerangement(product);
      CollisionTest(next, res[i]);
      if !deranged {
        success := false;
        break;
      }
    }
  }

  /** The inner `while not success` loop of random_derangements: draw derangements until one
      collides with none of the accepted ones. */
  method NextAccepted(n: nat, res: seq<seq<int>>, draws: seq<nat>) returns (r: Outcome<seq<int>>, rest: seq<nat>)
    requires forall i :: 0 <= i < |res| ==> IsPermutation(res[i]) && |res[i]| == n
    ensures IsSuffixOf(rest, draws)
    ensures r.Ok? ==> n >= 2 && |rest| < |draws|
    ensures r.Ok? ==> |r.value| == n && IsPermutation(r.value) && NoFixedPoint(r.value)
    ensures r.Ok? ==> forall i :: 0 <= i < |res| ==> NonColliding(r.value, res[i])
    ensures n == 0 ==> r == Raised(IndexError)
    ensures n == 1 ==> r == OutOfDraws
    ensures r.Raised? ==> n == 0 && r.error == IndexError
  {
    rest := draws;
    var success := false;
    var next: seq<int> := [];
    while !success
      invariant IsSuffixOf(rest, draws)
      invariant n <= 1 ==> rest == draws
      invariant success ==> n >= 2 && |rest| < |draws|
      invariant success ==> |next| == n && IsPermutation(next) && NoFixedPoint(next)
      invariant success ==> forall i :: 0 <= i < |res| ==> NonColliding(next, res[i])
      decreases |rest|
    {
      var candidate, left := Derangements.RandomDerangement(n, rest);
      SuffixTransitive(left, rest, draws);
      if candidate.Raised? {
        return Raised(candidate.error), left;
      }
      if candidate.OutOfDraws? {
        return OutOfDraws, left;
      }
      rest := left;
      next := candidate.value;
      success := CheckAgainstAccepted(next, res);
    }
    r := Ok(next);
  }

  /** `random_derangements(n, d)`: derangements are drawn until one collides with none of
      those accepted so far; it is then appended. */
  method RandomDerangements(n: nat, d: int, draws: seq<nat>) returns (r: Outcome<seq<seq<int>>>, rest: seq<nat>)
    ensures IsSuffixOf(rest, draws)
    ensures d <= 0 ==> r == Ok([]) && rest == draws
    ensures r.Ok? ==> |r.value| == (if d <= 0 then 0 else d) && NonCollidingDerangements(r.value, n)
    ensures d >= 1 && n == 0 ==> r == Raised(IndexError)
    ensures d >= 1 && n == 1 ==> r == OutOfDraws
    ensures r.Raised? ==> d >= 1 && n == 0 && r.error == IndexError
  {
    var res: seq<seq<int>> := [];
    rest := draws;
    while |res| < d
      invariant IsSuffixOf(rest, draws)
      invariant |res| <= (if d <= 0 then 0 else d)
      invariant NonCollidingDerangements(res, n)
      invariant n <= 1 ==> res == [] && rest == draws
      invariant d <= 0 ==> rest == draws
      decreases |rest|
    {
      var next, left := NextAccepted(n, res, rest);
      SuffixTransitive(left, rest, draws);
      if !next.Ok? {
        r := if next.Raised? then Raised(next.error) else OutOfDraws;
        return r, left;
      }
      AcceptCandidate(res, next.value, n);
      res := res + [next.value];
      rest := left;
    }
    return Ok(res), rest;
  }

  /** The line announcing the k-th draw (counted from 1). */
  function DrawLine(k: nat, giftee: string): string {
    "Tirage " + Decimal(k) + ": " + giftee
  }

  /** The lines of the message to `gifter`: a greeting, a blank line, then "Tirage k: name"
      for the k-th giftee. */
  function MessageLines(gifter: string, giftees: seq<string>): (r: seq<string>)
    ensures |r| == |giftees| + 2
  {
    ["Hello " + gifter + "!", ""] + seq(|giftees|, k requires 0 <= k < |giftees| => DrawLine(k + 1, giftees[k]))
  }

  /** The greeting written first is the message for no giftee. */
  lemma GreetingIsFirstLines(gifter: string)
    ensures Join(MessageLines(gifter, [])) == "Hello " + gifter + "!\n"
  {
    var lines := MessageLines(gifter, []);
    assert lines == ["Hello " + gifter + "!", ""];
    assert lines[..1] == ["Hello " + gifter + "!"];
  }

  /** Appending the text for giftee i extends the message for the first i giftees. */
  lemma AppendLine(gifter: string, giftees: seq<string>, i: nat)
    requires i < |giftees|
    ensures Join(MessageLines(gifter, giftees[..i])) + ("\n" + DrawLine(i + 1, giftees[i])) ==
      Join(MessageLines(gifter, giftees[..i + 1]))
  {
    var line := DrawLine(i + 1, giftees[i]);
    var lines := MessageLines(gifter, giftees[..i]);
    var longer := MessageLines(gifter, giftees[..i + 1]);
    forall k | 0 <= k < |longer|
      ensures longer[k] == (lines + [line])[k]
    {
      if k >= 2 {
        assert giftees[..i + 1][k - 2] == giftees[k - 2];
      }
      if 2 <= k < |lines| {
        assert giftees[..i][k - 2] == giftees[k - 2];
      }
    }
    assert longer == lines + [line];
    JoinSnoc(lines, line);
  }

  /** `write_message(gifter, giftees)`: the lines of the message joined by '\n'. */
  method WriteMessage(gifter: string, giftees: seq<string>) returns (res: string)
    ensures res == Join(MessageLines(gifter, giftees))
  {
    res := "Hello " + gifter + "!\n";
    GreetingIsFirstLines(gifter);
    assert giftees[..0] == [];
    for i := 0 to |giftees|
      invariant res == Join(MessageLines(gifter, giftees[..i]))
    {
      AppendLine(gifter, giftees, i);
      res := res + ("\n" + DrawLine(i + 1, giftees[i]));
    }
    assert giftees[..|giftees|] == giftees;
  }

  /** A reader who splits the message at its line breaks finds the greeting and every giftee,
      in order, provided no name holds a line break. */
  lemma MessageReadsBack(gifter: string, giftees: seq<string>)
    requires '\n' !in gifter && forall k :: 0 <= k < |giftees| ==> '\n' !in giftees[k]
    ensures Split(Join(MessageLines(gifter, giftees))) == MessageLines(gifter, giftees)
  {
    var lines := MessageLines(gifter, giftees);
    forall k | 0 <= k < |lines|
      ensures '\n' !in lines[k]
    {
      if k >= 2 {
        var d := Decimal(k - 1);
        assert lines[k] == DrawLine(k - 1, giftees[k - 2]) == "Tirage " + d + ": " + giftees[k - 2];
        assert forall c :: c in d ==> c != '\n';
      }
    }
    SplitJoin(lines);
  }
}
