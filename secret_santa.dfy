/** Model of secret_santa/main.py: the SecretSanta object, which numbers the participants,
    turns exclusion groups into per-index exclusion lists, runs the sampler and translates the
    sampled permutations back into lists of names. */
module SecretSantaMain {
  import opened Outcomes
  import opened Permutations
  import opened Derangements

  /** m is the `indices` dictionary of names: every name maps to the position of its last
      occurrence, and nothing else is a key. */
  ghost predicate IsIndexMap(m: map<string, int>, names: seq<string>) {
    (forall name :: name in m <==> name in names) &&
    (forall name :: name in m ==>
      0 <= m[name] < |names| && names[m[name]] == name &&
      forall i :: m[name] < i < |names| ==> names[i] != name)
  }

  /** Every member of every group has an index. */
  predicate AllKnown(indices: map<string, int>, groups: seq<seq<string>>) {
    forall g, k :: 0 <= g < |groups| && 0 <= k < |groups[g]| ==> groups[g][k] in indices
  }

  /** No name belongs to two different groups. */
  predicate Disjoint(groups: seq<seq<string>>) {
    forall g, h, k, t :: 0 <= g < h < |groups| && 0 <= k < |groups[g]| && 0 <= t < |groups[h]| ==>
      groups[g][k] != groups[h][t]
  }

  /** `[self.indices[name] for name in group]`. */
  function GroupIndices(indices: map<string, int>, group: seq<string>): (r: seq<int>)
    requires forall k :: 0 <= k < |group| ==> group[k] in indices
    ensures |r| == |group|
  {
    seq(|group|, k requires 0 <= k < |group| => indices[group[k]])
  }

  /** The exclusion list of index p: the index list of the last group that has a member with
      index p, or [] when no group has one. */
  function ExclusionOf(indices: map<string, int>, groups: seq<seq<string>>, p: int): seq<int>
    requires AllKnown(indices, groups)
    decreases |groups|
  {
    if groups == [] then []
    else
      var last := GroupIndices(indices, groups[|groups| - 1]);
      if p in last then last else ExclusionOf(indices, groups[..|groups| - 1], p)
  }

  /** The exclusion lists that `_get_exclusions` promises: None without groups, otherwise
      one list per participant. */
  function ExclusionsFor(numPeople: nat, indices: map<string, int>, excludeGroups: Option<seq<seq<string>>>)
    : (r: Option<seq<seq<int>>>)
    requires excludeGroups.Some? ==> AllKnown(indices, excludeGroups.value)
    ensures r.None? <==> excludeGroups.None? || excludeGroups.value == []
    ensures r.Some? ==> |r.value| == numPeople
  {
    if excludeGroups.None? || excludeGroups.value == [] then None
    else Some(seq(numPeople, p => ExclusionOf(indices, excludeGroups.value, p)))
  }

  /** `[self.names[perm(i)] for perm in perms]`: the k-th gift of participant i. */
  function Giftees(names: seq<string>, perms: seq<Permutation>, i: nat): (r: seq<string>)
    requires i < |names|
    requires forall k :: 0 <= k < |perms| ==> Valid(perms[k]) && perms[k].n == |names|
    ensures |r| == |perms|
  {
    seq(|perms|, k requires 0 <= k < |perms| => names[Apply(perms[k], i)])
  }

  /** The dictionary built in `__init__`: each name maps to the index of its last occurrence. */
  method IndexMap(names: seq<string>) returns (m: map<string, int>)
    ensures IsIndexMap(m, names)
  {
    m := map[];
    for i := 0 to |names|
      invariant IsIndexMap(m, names[..i])
    {
      m := m[names[i] := i];
    }
    assert names[..|names|] == names;
  }

  /** With distinct names the dictionary inverts the list. */
  lemma IndexMapOfDistinct(m: map<string, int>, names: seq<string>)
    requires IsIndexMap(m, names) && Distinct(names)
    ensures forall i :: 0 <= i < |names| ==> names[i] in m && m[names[i]] == i
  {
    forall i | 0 <= i < |names|
      ensures names[i] in m && m[names[i]] == i
    {
      assert names[i] in names;
      var j := m[names[i]];
      assert names[j] == names[i];
    }
  }

  /** ExclusionOf is the list of the last group with a member of index p, [] exactly when
      there is no such group. */
  lemma {:induction false} ExclusionOfIsLastGroup(indices: map<string, int>, groups: seq<seq<string>>, p: int)
    requires AllKnown(indices, groups)
    ensures ExclusionOf(indices, groups, p) == [] <==>
      forall g :: 0 <= g < |groups| ==> p !in GroupIndices(indices, groups[g])
    ensures ExclusionOf(indices, groups, p) != [] ==>
      exists g :: 0 <= g < |groups| && p in GroupIndices(indices, groups[g]) &&
        ExclusionOf(indices, groups, p) == GroupIndices(indices, groups[g]) &&
        forall h :: g < h < |groups| ==> p !in GroupIndices(indices, groups[h])
    decreases |groups|
  {
    if groups != [] {
      var front := groups[..|groups| - 1];
      ExclusionOfIsLastGroup(indices, front, p);
      assert forall g :: 0 <= g < |front| ==> front[g] == groups[g];
    }
  }

  /** Adding one group at the end: its members now get its list, the others keep theirs. */
  lemma ExclusionOfSnoc(indices: map<string, int>, groups: seq<seq<string>>, g: nat, p: int)
    requires g < |groups| && AllKnown(indices, groups[..g + 1])
    ensures AllKnown(indices, groups[..g])
    ensures ExclusionOf(indices, groups[..g + 1], p) ==
      if p in GroupIndices(indices, groups[g]) then GroupIndices(indices, groups[g])
      else ExclusionOf(indices, groups[..g], p)
  {
    assert groups[..g + 1][..g] == groups[..g];
    assert groups[..g + 1][g] == groups[g];
  }

  /** With disjoint groups, every member of group g gets exactly the index list of g. */
  lemma {:induction false} ExclusionOfMember(indices: map<string, int>, names: seq<string>,
                                             groups: seq<seq<string>>, g: nat, k: nat)
    requires IsIndexMap(indices, names) && AllKnown(indices, groups) && Disjoint(groups)
    requires g < |groups| && k < |groups[g]|
    ensures ExclusionOf(indices, groups, indices[groups[g][k]]) == GroupIndices(indices, groups[g])
    decreases |groups|
  {
    var p := indices[groups[g][k]];
    var last := GroupIndices(indices, groups[|groups| - 1]);
    assert GroupIndices(indices, groups[g])[k] == p;
    if g < |groups| - 1 {
      forall t | 0 <= t < |last|
        ensures last[t] != p
      {
        assert names[last[t]] == groups[|groups| - 1][t];
      }
      var front := groups[..|groups| - 1];
      assert front[g] == groups[g];
      ExclusionOfMember(indices, names, front, g, k);
    }
  }

  /** With disjoint groups the exclusion lists are symmetric: q is excluded for p exactly
      when p is excluded for q. */
  lemma ExclusionsSymmetric(indices: map<string, int>, names: seq<string>, groups: seq<seq<string>>, p: int, q: int)
    requires IsIndexMap(indices, names) && AllKnown(indices, groups) && Disjoint(groups)
    ensures q in ExclusionOf(indices, groups, p) <==> p in ExclusionOf(indices, groups, q)
  {
    forall a, b | b in ExclusionOf(indices, groups, a)
      ensures a in ExclusionOf(indices, groups, b)
    {
      ExclusionOfIsLastGroup(indices, groups, a);
      var g :| 0 <= g < |groups| && a in GroupIndices(indices, groups[g]) &&
        ExclusionOf(indices, groups, a) == GroupIndices(indices, groups[g]);
      var kb :| 0 <= kb < |groups[g]| && GroupIndices(indices, groups[g])[kb] == b;
      ExclusionOfMember(indices, names, groups, g, kb);
    }
  }

  /** With overlapping groups the lists are not symmetric: for the groups [A, B] and [B, C],
      A excludes B but B, whose list comes from the later group, does not exclude A. */
  lemma OverlappingGroupsAreAsymmetric()
    ensures var indices := map["A" := 0, "B" := 1, "C" := 2];
      var groups := [["A", "B"], ["B", "C"]];
      IsIndexMap(indices, ["A", "B", "C"]) && AllKnown(indices, groups) &&
      1 in ExclusionOf(indices, groups, 0) && 0 !in ExclusionOf(indices, groups, 1)
  {
    var indices := map["A" := 0, "B" := 1, "C" := 2];
    var groups := [["A", "B"], ["B", "C"]];
    assert GroupIndices(indices, groups[1]) == [1, 2];
    assert groups[..1] == [["A", "B"]];
    assert GroupIndices(indices, groups[0]) == [0, 1];
    assert ExclusionOf(indices, groups, 0) == [0, 1];
    assert ExclusionOf(indices, groups, 1) == [1, 2];
  }

  /** The dictionary comprehension of `draw`: every name gets the list of the last index it
      occurs at. */
  method SecretLists(names: seq<string>, perms: seq<Permutation>) returns (m: map<string, seq<string>>)
    requires forall k :: 0 <= k < |perms| ==> Valid(perms[k]) && perms[k].n == |names|
    ensures forall name :: name in m <==> name in names
    ensures forall i :: 0 <= i < |names| && (forall j :: i < j < |names| ==> names[j] != names[i]) ==>
      m[names[i]] == Giftees(names, perms, i)
  {
    m := map[];
    for i := 0 to |names|
      invariant forall name :: name in m <==> name in names[..i]
      invariant forall t :: 0 <= t < i && (forall j :: t < j < i ==> names[j] != names[t]) ==>
        m[names[t]] == Giftees(names, perms, t)
    {
      m := m[names[i] := Giftees(names, perms, i)];
    }
    assert names[..|names|] == names;
  }

  /** What every participant can rely on: nobody draws themselves and nobody draws the same
      person twice, provided the names are distinct and the permutations are what the sampler
      returns. */
  lemma GifteesNoSelfNoRepeat(names: seq<string>, perms: seq<Permutation>, i: nat)
    requires Distinct(names) && i < |names|
    requires forall k :: 0 <= k < |perms| ==> Valid(perms[k]) && perms[k].n == |names|
    requires forall k :: 0 <= k < |perms| ==> NoFixedPoint(perms[k].v)
    requires forall k, t :: 0 <= k < t < |perms| ==> NonColliding(perms[k].v, perms[t].v)
    ensures forall k :: 0 <= k < |perms| ==> Giftees(names, perms, i)[k] != names[i]
    ensures Distinct(Giftees(names, perms, i))
  {
    var r := Giftees(names, perms, i);
    forall k, t | 0 <= k < t < |perms|
      ensures r[k] != r[t]
    {
      assert perms[k].v[i] != perms[t].v[i];
    }
  }

  /** With disjoint groups, a member of a group never draws a member of that group. */
  lemma GifteesAvoidOwnGroup(names: seq<string>, indices: map<string, int>, groups: seq<seq<string>>,
                             perms: seq<Permutation>, g: nat, k: nat)
    requires Distinct(names) && IsIndexMap(indices, names)
    requires AllKnown(indices, groups) && Disjoint(groups) && g < |groups| && k < |groups[g]|
    requires forall t :: 0 <= t < |perms| ==> Valid(perms[t]) && perms[t].n == |names|
    requires forall t :: 0 <= t < |perms| ==> Respects(perms[t], ExclusionsFor(|names|, indices, Some(groups)))
    ensures forall t :: 0 <= t < |perms| ==> Giftees(names, perms, indices[groups[g][k]])[t] !in groups[g]
  {
    var i := indices[groups[g][k]];
    IndexMapOfDistinct(indices, names);
    ExclusionOfMember(indices, names, groups, g, k);
    var excluded := GroupIndices(indices, groups[g]);
    forall t | 0 <= t < |perms|
      ensures Giftees(names, perms, i)[t] !in groups[g]
    {
      var x := perms[t].v[i];
      assert ExclusionsFor(|names|, indices, Some(groups)).value[i] == excluded;
      assert x !in excluded;
      forall s | 0 <= s < |groups[g]|
        ensures groups[g][s] != names[x]
      {
        assert excluded[s] != x;
      }
    }
  }

  /** m is what the comprehension of `draw` builds from perms: the keys are the names, and the
      list of a name is its giftees at its last position. */
  ghost predicate ListsFrom(m: map<string, seq<string>>, names: seq<string>, perms: seq<Permutation>) {
    (forall k :: 0 <= k < |perms| ==> Valid(perms[k]) && perms[k].n == |names|) &&
    (forall name :: name in m <==> name in names) &&
    forall i :: 0 <= i < |names| && (forall j :: i < j < |names| ==> names[j] != names[i]) ==>
      m[names[i]] == Giftees(names, perms, i)
  }

  /** In every round, two different participants draw two different people: each round of
      the stored lists is a one-to-one assignment. */
  lemma RoundIsOneToOne(m: map<string, seq<string>>, names: seq<string>, perms: seq<Permutation>,
                        k: nat, a: string, b: string)
    requires Distinct(names) && ListsFrom(m, names, perms) && k < |perms|
    requires a in names && b in names && a != b
    ensures a in m && b in m && k < |m[a]| && k < |m[b]| && m[a][k] != m[b][k]
  {
  }

  /** Nobody is in their own list and nobody is in a list twice. */
  ghost predicate NoSelfNoRepeat(m: map<string, seq<string>>) {
    forall name :: name in m ==> name !in m[name] && Distinct(m[name])
  }

  /** Every member of a group has a list, and it holds no member of that group. */
  ghost predicate AvoidsOwnGroups(m: map<string, seq<string>>, groups: seq<seq<string>>) {
    forall g, k :: 0 <= g < |groups| && 0 <= k < |groups[g]| ==>
      groups[g][k] in m &&
      forall t :: 0 <= t < |m[groups[g][k]]| ==> m[groups[g][k]][t] !in groups[g]
  }

  /** The lists built from the sampler's permutations keep the promises of the draw, for
      distinct names (and, for the groups, disjoint groups). */
  lemma {:induction false} SecretListsAreFair(names: seq<string>, indices: map<string, int>,
                                              excludeGroups: Option<seq<seq<string>>>,
                                              perms: seq<Permutation>, m: map<string, seq<string>>)
    requires Distinct(names) && IsIndexMap(indices, names)
    requires excludeGroups.Some? ==> AllKnown(indices, excludeGroups.value)
    requires SamplerPromise(perms, |names|, ExclusionsFor(|names|, indices, excludeGroups))
    requires forall name :: name in m <==> name in names
    requires forall i :: 0 <= i < |names| && (forall j :: i < j < |names| ==> names[j] != names[i]) ==>
      m[names[i]] == Giftees(names, perms, i)
    ensures NoSelfNoRepeat(m)
    ensures excludeGroups.Some? && Disjoint(excludeGroups.value) ==> AvoidsOwnGroups(m, excludeGroups.value)
  {
    IndexMapOfDistinct(indices, names);
    assert forall k :: 0 <= k < |perms| ==> Valid(perms[k]) && perms[k].n == |names| && NoFixedPoint(perms[k].v);
    forall name | name in m
      ensures name !in m[name] && Distinct(m[name])
    {
      var i := indices[name];
      GifteesNoSelfNoRepeat(names, perms, i);
    }
    if excludeGroups.Some? && Disjoint(excludeGroups.value) {
      var groups := excludeGroups.value;
      forall g, k | 0 <= g < |groups| && 0 <= k < |groups[g]|
        ensures groups[g][k] in m &&
          forall t :: 0 <= t < |m[groups[g][k]]| ==> m[groups[g][k]][t] !in groups[g]
      {
        GifteesAvoidOwnGroup(names, indices, groups, perms, g, k);
      }
    }
  }

  class SecretSanta {
    var numPeople: nat
    var names: seq<string>
    var numGifts: int
    var excludeGroups: Option<seq<seq<string>>>
    var indices: map<string, int>
    /** Set by Draw; None until the first successful draw. */
    var secretLists: Option<map<string, seq<string>>>

    ghost predicate Valid()
      reads this
    {
      numPeople == |names| && IsIndexMap(indices, names)
    }

    constructor (names: seq<string>, numGifts: int, excludeGroups: Option<seq<seq<string>>>)
      ensures Valid()
      ensures this.names == names && this.numGifts == numGifts && this.excludeGroups == excludeGroups
      ensures secretLists.None?
    {
      var m := IndexMap(names);
      this.numPeople := |names|;
      this.names := names;
      this.numGifts := numGifts;
      this.excludeGroups := excludeGroups;
      this.indices := m;
      this.secretLists := None;
    }

    /** `_get_exclusions`: None without groups; KeyError for a group member with no index;
        otherwise one list per participant, the last group's list for a grouped one and []
        for the others. */
    method GetExclusions() returns (r: Result<Option<seq<seq<int>>>>)
      requires Valid()
      ensures r.Failure? <==> excludeGroups.Some? && !AllKnown(indices, excludeGroups.value)
      ensures r.Failure? ==> r.error == KeyError
      ensures r.Success? ==>
        (excludeGroups.Some? ==> AllKnown(indices, excludeGroups.value)) &&
        r.value == ExclusionsFor(numPeople, indices, excludeGroups)
    {
      if excludeGroups.None? || excludeGroups.value == [] {
        return Success(None);
      }
      var groups := excludeGroups.value;
      var exclusions: seq<seq<int>> := seq(numPeople, _ => []);
      for g := 0 to |groups|
        invariant AllKnown(indices, groups[..g])
        invariant |exclusions| == numPeople
        invariant forall p :: 0 <= p < numPeople ==> exclusions[p] == ExclusionOf(indices, groups[..g], p)
      {
        var group := groups[g];
        var groupIndices: seq<int> := [];
        for k := 0 to |group|
          invariant |groupIndices| == k
          invariant forall t :: 0 <= t < k ==> group[t] in indices && groupIndices[t] == indices[group[t]]
        {
          if group[k] !in indices {
            assert groups[g][k] !in indices;
            return Failure(KeyError);
          }
          groupIndices := groupIndices + [indices[group[k]]];
        }
        assert groupIndices == GroupIndices(indices, group);
        for k := 0 to |group|
          invariant |exclusions| == numPeople
          invariant forall p :: 0 <= p < numPeople ==>
            exclusions[p] == if p in groupIndices[..k] then groupIndices else ExclusionOf(indices, groups[..g], p)
        {
          assert groupIndices[..k + 1] == groupIndices[..k] + [groupIndices[k]];
          exclusions := exclusions[indices[group[k]] := groupIndices];
        }
        assert groupIndices[..|group|] == groupIndices;
        assert AllKnown(indices, groups[..g + 1]) by {
          assert forall h :: 0 <= h < g ==> groups[..g + 1][h] == groups[..g][h];
        }
        forall p | 0 <= p < numPeople
          ensures exclusions[p] == ExclusionOf(indices, groups[..g + 1], p)
        {
          ExclusionOfSnoc(indices, groups, g, p);
        }
      }
      assert groups[..|groups|] == groups;
      ghost var table := ExclusionsFor(numPeople, indices, excludeGroups).value;
      assert forall p :: 0 <= p < numPeople ==> table[p] == ExclusionOf(indices, groups, p);
      assert exclusions == table;
      return Success(Some(exclusions));
    }

    /** `draw`: sample numGifts permutations under the exclusions and store, for every name,
        the names its permutations send it to. Nothing is stored when a step raises or has
        not returned. */
    method Draw(draws: seq<nat>) returns (r: Outcome<()>, rest: seq<nat>)
      requires Valid()
      modifies this`secretLists
      ensures IsSuffixOf(rest, draws)
      ensures !r.Ok? ==> secretLists == old(secretLists)
      ensures r.Raised? ==>
        (r.error == KeyError && excludeGroups.Some? && !AllKnown(indices, excludeGroups.value)) ||
        (r.error == IndexError && numPeople == 0 && numGifts >= 1)
      ensures numPeople == 1 && numGifts >= 1 ==> !r.Ok?
      ensures r.Ok? ==> secretLists.Some? && forall name :: name in secretLists.value <==> name in names
      ensures r.Ok? ==> forall name :: name in secretLists.value ==>
        |secretLists.value[name]| == if numGifts <= 0 then 0 else numGifts
      ensures excludeGroups.Some? && !AllKnown(indices, excludeGroups.value) ==> r == Raised(KeyError)
      ensures numPeople == 0 && numGifts >= 1 && (excludeGroups.Some? ==> AllKnown(indices, excludeGroups.value)) ==>
        r == Raised(IndexError)
      ensures r.Ok? ==>
        (excludeGroups.Some? ==> AllKnown(indices, excludeGroups.value)) &&
        exists perms: seq<Permutation> ::
          |perms| == (if numGifts <= 0 then 0 else numGifts) &&
          SamplerPromise(perms, numPeople, ExclusionsFor(numPeople, indices, excludeGroups)) &&
          ListsFrom(secretLists.value, names, perms)
      ensures r.Ok? && Distinct(names) ==> NoSelfNoRepeat(secretLists.value)
      ensures r.Ok? && Distinct(names) && excludeGroups.Some? && Disjoint(excludeGroups.value) ==>
        AvoidsOwnGroups(secretLists.value, excludeGroups.value)
    {
      var exclusions := GetExclusions();
      if exclusions.Failure? {
        return Raised(exclusions.error), draws;
      }
      var perms;
      perms, rest := RandomDerangements(numPeople, numGifts, exclusions.value, draws);
      if perms.Raised? {
        return Raised(perms.error), rest;
      }
      if perms.OutOfDraws? {
        return OutOfDraws, rest;
      }
      var m := SecretLists(names, perms.value);
      assert ListsFrom(m, names, perms.value);
      secretLists := Some(m);
      r := Ok(());
      if Distinct(names) {
        SecretListsAreFair(names, indices, excludeGroups, perms.value, m);
      }
    }
  }
}
