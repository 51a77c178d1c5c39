# Secret Santa draws, modelled in Dafny

The program draws Secret Santa assignments. Each of `n` participants gets `d` gifts to give.
A draw is a list of `d` derangements of `{0, ..., n-1}`. A derangement is a permutation with no
fixed point, so nobody draws themselves. No participant gets the same image from two
derangements, so nobody draws the same person twice. The draw can also respect exclusion
groups, such as couples, whose members may not draw one another.

The model covers four files:

- `secret_santa/derangements.py` (module `Derangements`, on top of `Permutations`):
  - the `Permutation` object: construction, application, product, inverse, the derangement
    test and the exclusion test;
  - the rejection sampler `_get_random_derangement`;
  - the sampler `random_derangements`, which keeps a candidate only if it satisfies the
    exclusions and `next * s.inverse()` is a derangement for every derangement `s` already
    accepted.
- `secret_santa/main.py` (module `SecretSantaMain`):
  - the `SecretSanta` object: its index dictionary, `_get_exclusions`, and the part of `draw`
    that turns the sampled permutations into each participant's list of names.
- `main.py` (module `LegacyMain`): the tuple versions of the same operations, and
  `write_message`.
- `derangements.py` (module `LegacyDerangements`): its `write_message` with optional gift labels.

Modelling choices:

- **Randomness.** It is a parameter: a finite stream `draws: seq<nat>` of raw values. Each
  `random.randint(0, j)` takes the next value `x` and uses `x % (j + 1)`. Every method returns
  the unused `rest` of the stream.
- **Unbounded retries.** The source's loops retry until they succeed. In the model, a run
  that uses up the stream first ends in `OutOfDraws`, meaning the source has not returned
  yet.
- **Exceptions.** The exceptions the source raises (`AssertionError`, `IndexError`,
  `KeyError`) are values of `Error`, returned in `Raised`/`Failure`.
- **Permutations.** A `Permutation` is a value, since the source never changes one after
  construction. Its product and inverse fill an array in a loop, as the source fills `w`.
- **Specification functions.** The loops are proved against four definitions in
  `Permutations`: `Composed`, `Inverted`, `NoFixedPoint` and `Avoids`.
- **The central fact.** `CollisionTest` says that `next * s⁻¹` has no fixed point exactly
  when `next` and `s` never agree. This turns the sampler's test into the promise that the
  d derangements never give the same image twice.
- **Messages.** They are lists of lines joined by `'\n'` (`Text.Join`). `Text.Split` is the
  partner that reads the lines back.

## Model

| member | source | states |
|---|---|---|
| Permutations.Identity | secret_santa/derangements.py:39 | `list(range(n))` has n entries, all in `0..n-1` |
| Permutations.IdentityIsPermutation | secret_santa/derangements.py:39 | the identity list is a permutation |
| Permutations.Composed | secret_santa/derangements.py:52-54 | the product `w[i] = self.v[other.v[i]]` has one entry per index |
| Permutations.Inverted | secret_santa/derangements.py:60-62 | the inverse list of a permutation has the same length, with entries in range |
| Permutations.SwapIsPermutation | secret_santa/derangements.py:95 | swapping two entries of a permutation gives a permutation |
| Permutations.ComposedIsPermutation | secret_santa/derangements.py:46-55 | the product of two permutations of the same size is a permutation |
| Permutations.InvertedIsInverse | secret_santa/derangements.py:58-63 | the inverse sends `v[i]` back to `i`, `v` sends the inverse's `x` back to `x`, and the inverse is a permutation |
| Permutations.ComposedWithInverted | secret_santa/derangements.py:58-63 | `v * v⁻¹` and `v⁻¹ * v` are both the identity |
| Permutations.ComposedAssociative | secret_santa/derangements.py:46-55 | the product of permutations is associative |
| Permutations.CollisionTest | secret_santa/derangements.py:119-122 | `next * s⁻¹` is a derangement if and only if `next[i] != s[i]` for every `i` |
| Permutations.NoDerangementOfOne | secret_santa/derangements.py:88-98 | no permutation of one element is a derangement |
| Permutations.OnlyDerangementOfTwo | secret_santa/derangements.py:88-98 | `[1, 0]` is the only derangement of two elements |
| Derangements.New | secret_santa/derangements.py:22-39 | list with the random flag: AssertionError; list: kept iff its length is n, else AssertionError; neither: the identity; random flag: a derangement of size n, IndexError iff n = 0, never returns for n = 1 |
| Derangements.Apply | secret_santa/derangements.py:42-43 | `p(i)` is in range and no other index has the same image |
| Derangements.Mul | secret_santa/derangements.py:46-55 | AssertionError iff the sizes differ; otherwise a permutation of the same size with `(self * other)(i) == self(other(i))` |
| Derangements.Inverse | secret_santa/derangements.py:58-63 | a permutation of the same size with `inverse(self(i)) == i` for every `i` |
| Derangements.IsDerangement | secret_santa/derangements.py:66-70 | true exactly when no index is its own image |
| Derangements.VerifiesExclusions | secret_santa/derangements.py:73-78 | AssertionError iff there is not one exclusion list per index; otherwise true exactly when no `v[i]` is in `exclusions[i]` |
| Derangements.DerangementAttempt | secret_santa/derangements.py:88-98 | one pass of the shuffle: every list it returns is a derangement of size n; IndexError iff n = 0; never returns for n = 1; returns for the stream that builds the cycle `[n-1, 0, ..., n-2]` |
| Derangements.RandomDerangement | secret_santa/derangements.py:82-98 | what it returns is a derangement of size n; IndexError iff n = 0; for n = 1 it never returns; for n >= 2 it returns on the cycle stream |
| Derangements.CheckAgainstAccepted | secret_santa/derangements.py:118-122 | the `for s in res` loop ends with success exactly when `next` collides with no accepted derangement |
| Derangements.NextAccepted | secret_santa/derangements.py:112-122 | an accepted candidate is a derangement of size n, keeps to the exclusions and collides with no accepted one; the only errors are IndexError for n = 0 and AssertionError for an exclusion table of the wrong length |
| Derangements.AcceptCandidate | secret_santa/derangements.py:123 | appending an accepted candidate keeps the sampler's promise |
| Derangements.RandomDerangements | secret_santa/derangements.py:102-124 | `[]` for d <= 0; otherwise d derangements of size n, each keeping to the exclusions, no two giving any index the same image; IndexError for n = 0; never returns for n = 1 |
| SecretSantaMain.IndexMap | secret_santa/main.py:40-43 | each name maps to the index of its last occurrence, and only names are keys |
| SecretSantaMain.IndexMapOfDistinct | secret_santa/main.py:40-43 | with distinct names the dictionary maps `names[i]` to `i` |
| SecretSantaMain.GroupIndices | secret_santa/main.py:61 | one index per group member |
| SecretSantaMain.ExclusionsFor | secret_santa/main.py:56-64 | None exactly when there are no groups (None or empty); otherwise one list per participant |
| SecretSantaMain.ExclusionOfIsLastGroup | secret_santa/main.py:60-63 | a participant's list is the index list of the last group containing them, and `[]` iff no group contains them |
| SecretSantaMain.ExclusionOfSnoc | secret_santa/main.py:62-63 | processing one more group overwrites its members' lists and leaves the others unchanged |
| SecretSantaMain.ExclusionOfMember | secret_santa/main.py:60-63 | with disjoint groups every member of a group gets that group's index list |
| SecretSantaMain.ExclusionsSymmetric | secret_santa/main.py:60-63 | with disjoint groups, q is excluded for p exactly when p is excluded for q |
| SecretSantaMain.OverlappingGroupsAreAsymmetric | secret_santa/main.py:60-63 | with the overlapping groups `[A, B]` and `[B, C]`, A excludes B but B does not exclude A |
| SecretSantaMain.Giftees | secret_santa/main.py:51 | a participant gets one name per permutation |
| SecretSantaMain.SecretLists | secret_santa/main.py:49-51 | the keys are exactly the names, and each name's list is the giftees of its last position |
| SecretSantaMain.GifteesNoSelfNoRepeat | secret_santa/main.py:51 | for distinct names and derangements that never collide, nobody draws themselves or anyone twice |
| SecretSantaMain.GifteesAvoidOwnGroup | secret_santa/main.py:51 | for disjoint groups and derangements keeping to the exclusions, a member never draws a member of their own group |
| SecretSantaMain.RoundIsOneToOne | secret_santa/main.py:51 | for distinct names, in every round two different participants draw two different people |
| SecretSantaMain.SecretListsAreFair | secret_santa/main.py:48-51 | lists built from what the sampler promises have no self-draw and no repeat; with disjoint groups they avoid each member's own group |
| SecretSantaMain.SecretSanta.constructor | secret_santa/main.py:30-43 | stores names, gift count and groups, with `indices` the index dictionary of the names |
| SecretSantaMain.SecretSanta.GetExclusions | secret_santa/main.py:56-64 | KeyError iff a group member is not a participant; otherwise the lists of `ExclusionsFor` |
| SecretSantaMain.SecretSanta.Draw | secret_santa/main.py:46-53 | KeyError exactly when a group member is not a participant, raised before any draw; IndexError when there is nobody and at least one gift; on success the stored lists are those the comprehension builds from `num_gifts` permutations meeting the sampler's promise under `_get_exclusions`' lists (so every entry is a participant's name); for distinct names nobody draws themselves or anyone twice; with disjoint groups nobody draws a member of their own group; a raise or an unfinished run leaves the state unchanged; with one participant and at least one gift it never succeeds |
| Text.Decimal | main.py:67 | `{i+1}` is one or more digits with no leading zero |
| Text.DecimalRoundTrip | main.py:67 | reading the digits back gives the number |
| Text.JoinSnoc | main.py:66-67 | appending `"\n" + line` to the text of some lines gives the text of those lines plus that one |
| Text.SplitJoin | main.py:64-68 | lines without a line break are recovered by splitting their text at `'\n'` |
| LegacyMain.IsDerangement | main.py:26-30 | true exactly when no index is its own image |
| LegacyMain.PermutationProd | main.py:32-38 | `w[i] = u[v[i]]` for every index of `u`; a permutation when `u` and `v` are permutations of the same size |
| LegacyMain.PermutationInverse | main.py:40-46 | the inverse of a permutation, a permutation with `w[v[i]] == i` |
| LegacyMain.CheckAgainstAccepted | main.py:57-60 | success exactly when `next` collides with no accepted derangement |
| LegacyMain.NextAccepted | main.py:53-60 | an accepted candidate is a derangement of size n that collides with no accepted one; the only error is IndexError for n = 0 |
| LegacyMain.AcceptCandidate | main.py:61 | appending an accepted candidate keeps every pair of accepted derangements non-colliding |
| LegacyMain.RandomDerangements | main.py:48-62 | `[]` for d <= 0; otherwise d derangements of size n, no two giving any index the same image; IndexError for n = 0; never returns for n = 1 |
| LegacyMain.MessageLines | main.py:64-68 | greeting, blank line, then one line per giftee |
| LegacyMain.GreetingIsFirstLines | main.py:65 | the message starts as `"Hello {gifter}!\n"` |
| LegacyMain.AppendLine | main.py:66-67 | adding `"\nTirage {i+1}: {giftee}"` extends the message by giftee i |
| LegacyMain.WriteMessage | main.py:64-68 | the text is the greeting, a blank line and one `Tirage` line per giftee, joined by `'\n'` |
| LegacyMain.MessageReadsBack | main.py:64-68 | splitting the message at its line breaks gives back the greeting and every draw line, in order |
| LegacyDerangements.GiftLines | derangements.py:68-72 | one `Cadeau` line per giftee |
| LegacyDerangements.MessageLines | derangements.py:66-73 | greeting, blank line, then one line per gift |
| LegacyDerangements.GreetingIsFirstLines | derangements.py:67 | the message starts as `"Hello {gifter} !\n"` |
| LegacyDerangements.GiftLinesSnoc | derangements.py:68-72 | the lines for the first i + 1 gifts are those for the first i plus gift i's line |
| LegacyDerangements.AppendLine | derangements.py:68-72 | adding the line of gift i, labelled or not, extends the message by gift i |
| LegacyDerangements.WriteMessage | derangements.py:66-73 | IndexError iff labels are given and fewer than the gifts; otherwise greeting, blank line and one `Cadeau` line per gift, with its label when labels are given |
| LegacyDerangements.MessageReadsBack | derangements.py:66-73 | splitting the message at its line breaks gives back every line when no name or label holds a line break |

## Left out

- `secret_santa/mail.py` (sending mail) is not part of this model. The same goes for
  `santa_claus`, `main`, the file writes, `print` and logging: all of them are I/O.
- Randomness is a stream parameter. The model says nothing about the distribution of the
  draws (that `randint` is uniform, or which derangements are likely).
- Derangements.RandomDerangement: termination with probability 1 is not modelled. A run that
  uses up the stream ends in `OutOfDraws`. Success is proved for the stream that builds the
  cycle `[n-1, 0, ..., n-2]`, not for every stream.
- Derangements.RandomDerangements: the model does not bound how long the sampler runs. When
  no d mutually non-colliding derangements exist (d >= n, for instance), the source loops
  forever. The model can only report `OutOfDraws`.
- Derangements.New: n is a `nat`, so negative sizes are not modelled. In the source,
  `Permutation(-1)` builds `[]` with `n = -1`, `Permutation(-1, v)` raises AssertionError, and
  `Permutation(-1, random_derangement=True)` raises IndexError.
- Derangements.Mul: requires both permutations to be valid. A `Permutation` built from an
  arbitrary list can make the source raise IndexError or read negative indices from the end.
- Derangements.Inverse: requires a valid permutation, for the same reason.
- Derangements.Apply: requires `0 <= i < n`. Python's negative indices and IndexError are not
  modelled.
- Derangements.VerifiesExclusions: requires the list to have n entries, which holds for every
  `Permutation` the sampler builds.
- LegacyMain.PermutationProd: requires every `v[i]` to be an index of `u`. Python's negative
  indices and its IndexError are not modelled.
- LegacyMain.PermutationInverse: requires a permutation. On other lists the source may raise
  IndexError, read from the end, or return a list that is not an inverse.
- `random_derangement` in `main.py:13-24` and `derangements.py:9-23` is the same algorithm as
  `_get_random_derangement` and is modelled by Derangements.RandomDerangement. It returns a
  tuple rather than a list, which makes no difference here.
- `is_derangement`, `permutation_prod`, `permutation_inverse` and `random_derangements` in
  `derangements.py` have the same bodies as in `main.py`. LegacyMain models both files.
- `derangements.py` as written does not parse: line 3 is an incomplete import and line 26 an
  incomplete `def`. The model takes its functions as if those lines were absent.
- The commented-out `write_message` in `secret_santa/main.py:69-76` is the labelled one of
  `derangements.py` and is modelled there.
- LegacyDerangements.WriteMessage: when labels run short, the source raises IndexError after
  building part of the text. The model returns only the error, since that partial text is
  never returned.
- Exclusions: each participant's list comes from the last group that contains them. The
  model proves the lists symmetric when the groups are disjoint (`ExclusionsSymmetric`).
  It also proves that overlapping groups can make them asymmetric, with one example
  (`OverlappingGroupsAreAsymmetric`). Some overlapping groups still give symmetric lists, such
  as the same group given twice. The model follows the code here.
- The test `v[0] != 0` at `secret_santa/derangements.py:97` always passes: the pass
  has already made every entry differ from its index. `DerangementAttempt` asserts this
  before the test and keeps the test, whose other branch cannot be reached.
- SecretSantaMain.SecretSanta.constructor: the fields hold values. The source keeps the
  caller's `names` and `exclude_groups` lists by reference (`secret_santa/main.py:36`, `:38`)
  but computes `num_people` and `indices` once. So a caller that later changes those lists
  changes what `draw` sees, while `num_people` and `indices` stay the same. The model does not
  capture that aliasing.
