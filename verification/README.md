# Nanhai No.1 dive game: the server's game-state engine

This project models the authoritative game state of the Nanhai No.1
underwater-archaeology game server in Dafny and proves its rules. The server
keeps one document with two lists:

- `players`: name and score;
- `fragments`: the pool of one generation, one fragment per artifact per
  quadrant 1..4, each with an id, artifact key, quadrant, points and
  `foundBy`.

The model covers:

- the static artifact catalogue (keys and points);
- `buildFragments`, which builds a generation;
- startup, which fills in a missing document;
- the `/new-player` handler, which registers a trimmed, non-empty name once;
- the `/dive` handler. It finds or creates the diver. When nothing is left
  unclaimed, it empties the player list and rebuilds the pool. Otherwise it
  claims one unclaimed fragment for the diver and credits its points. When
  that claim makes four claimed fragments of its artifact, every registered
  player named among their finders gets +5.

Modules, leaf first:

- `Optional` (optional.dfy): `Option`, standing for `null`.
- `Catalog` (catalog.dfy): `Artifact` and `ARTIFACTS`, the ten artifacts with
  their keys and points.
- `Pool` (pool.dfy): `Fragment` and `IsFound`. `IsFound` is the JavaScript
  truthiness of `foundBy`, so `null` and `""` both mean unclaimed. Also here:
  `Generation`, the reference definition of a fresh pool; the
  `BuildFragments` method, proved equal to it; `Selected`, the `filter` calls
  over the pool, giving positions instead of object references; `Claim`; and
  the counting lemmas.
- `Players` (players.dfy): `Player`, `Trim` (`String.prototype.trim`),
  `FindPlayer` (`players.find`, giving the position of the first match) and
  `Enrolled` (find-or-create).
- `Rules` (rules.dfy): the claim branch of a dive as pure functions
  (`ClaimStep`, `DiveClaim`, `WithBonus`, `Contributors`). Also `IsHistory`,
  a run of dives within one generation, and the lemmas about one claim and
  about whole generations.
- `Server` (server.dfy): class `Game` with the fields `players` and
  `fragments` and the constant `catalog`. Its constructor `Startup` is the
  startup code. `Register` and `Dive` are the two handlers as atomic state
  changes, and each is proved against the pure functions above.
  `Dive` hands its non-empty-name case to `DiveAs`. `DiveAs` uses `Enroll`
  (find-or-create in place), `ClaimFor` (the claim branch) and `AwardBonus`
  (the `forEach` that adds the bonus).
- `Accounts` (accounts.dfy): score accounting. `PointsOf` is the points of the
  fragments a player claimed, and `BonusCount` is the number of completed
  artifacts that list them among their finders. `Accounted` is the invariant
  that every score equals `PointsOf + 5 × BonusCount`. It holds along every
  run of dives from a fresh pool and an empty registry. `Game` keeps it
  through every handler, the reset included.
- `Scenarios` (scenarios.dfy): rounds on a one-artifact catalogue, with their
  exact final scores, proved for every order of the divers.

The catalogue is a parameter: `Game` stores it as `catalog`, and the server
uses `Catalog.ARTIFACTS`. This lets the scenarios use a one-artifact
catalogue; `Pool.ServerGeneration` and `Accounts.ServerScoreAccounting` apply
the general results to `ARTIFACTS` itself.

Points worth knowing about the code:

- On exhaustion the code discards the whole player list, including a diver
  registered a moment earlier. It does not keep the players with their
  scores reset to zero.
- The claim reply holds the fragment, the leaderboard and a message. It has
  no flag saying whether the claim completed an artifact, and no separate
  artifact key.
- Startup keeps whatever non-empty pool is already stored, so exactly four
  fragments per artifact is guaranteed only for pools that are
  `InGeneration` with the catalogue: the one `buildFragments` builds, and
  every pool dives reach from it. The
  at-most-once bonus property holds for any pool.

## Model

| member | source | states |
|---|---|---|
| Catalog.ArtifactsWellFormed | server.js:30-151 | the catalogue has ten artifacts and no two share a key |
| Catalog.ARTIFACTS | server.js:30-151 | the ten artifacts of the catalogue, in order, with their keys and points |
| Pool.Generation | server.js:153-171 | the reference definition of a fresh pool built from a catalogue: 4 × \|catalog\| fragments, fragment i being `Slot(catalog, i)` |
| Pool.IsFound | server.js:210-231 | the JavaScript truthiness of `foundBy` that lines 210 and 231 test with `!f.foundBy` and `&& f.foundBy`: `null` and `""` both count as unclaimed, any other name as claimed |
| Pool.Selects | server.js:210-231 | the two filter callbacks of lines 210 and 231: `Unclaimed` is `f => !f.foundBy`, `FoundOf(key)` is `f => f.artifactKey === key && f.foundBy`; `OfArtifact(key)` serves only the counting lemmas |
| Pool.Claim | server.js:227 | `pick.foundBy = name`: the pool with fragment k's `foundBy` set to the name, the same length, fragment k's layout kept, and every other fragment unchanged |
| Pool.ServerGeneration | server.js:30-171 | the server's own catalogue gives a fresh pool of 40 fragments, all 40 unclaimed, four of each of the ten artifacts |
| Pool.BuildFragments | server.js:153-171 | the nested loop with its running id builds exactly the reference generation `Generation(catalog)` |
| Pool.GenerationLayout | server.js:153-171 | a fresh pool has 4 × \|catalog\| fragments; fragment i has id i+1, belongs to artifact i/4 in catalogue order, carries its points, has a quadrant in 1..4 and is unclaimed |
| Pool.QuadrantAppearsOnce | server.js:156-165 | with distinct keys, each artifact's quadrant q appears exactly once in a fresh pool, at position 4a+q-1 |
| Pool.GenerationAllUnclaimed | server.js:166 | every fragment of a fresh pool is on the unclaimed list, 4 × \|catalog\| of them |
| Pool.GenerationArtifactCount | server.js:156-168 | in any pool of a generation, each artifact has exactly four fragments, and at most four of them are claimed |
| Pool.ExhaustedGenerationComplete | server.js:210-213 | a pool of a generation with nothing unclaimed has all four fragments of every artifact claimed |
| Pool.Selected | server.js:210 | the filter lists, in increasing order, exactly the positions of the fragments it picks (sound and complete) |
| Pool.ClaimEffect | server.js:226-227 | claiming an unclaimed fragment for a non-empty name changes only that fragment; the unclaimed count drops by one; that artifact's claimed count rises by one and every other artifact's stays the same |
| Players.Trim | server.js:185 | `trim` leaves the slice between leading and trailing white space; the result is empty exactly when the input is all white space, and otherwise its first and last characters are not white space |
| Players.IsJsSpace | server.js:185-200 | the characters `trim` strips at lines 185 and 200: the ECMAScript WhiteSpace and LineTerminator code points |
| Players.FindPlayer | server.js:189 | `find` by exact name gives the first player with that name, or nothing exactly when no player has it |
| Players.Enrolled | server.js:204-208 | after find-or-create the name is registered; the old list is a prefix, and at most one player has been added |
| Players.EnrolledEffect | server.js:189-190 | a name already present leaves the list unchanged; a new name appends exactly `{name, 0}`, and the lookup then finds that player |
| Players.EnrolledDistinct | server.js:189-190 | find-or-create never introduces a second player with a name already registered |
| Players.EnrolledKeepsNames | server.js:189-190 | every name registered before find-or-create is still registered after it |
| Players.SameNames | server.js:228-234 | a list with the same names at the same positions keeps distinct names and finds every name the first list finds; it is applied to the results of `Credit` and `WithBonus`, whose contracts keep every name |
| Rules.Contributors | server.js:231-233 | the set `new Set(related.map(f => f.foundBy))` of the names that claimed a fragment of the artifact; none of them is empty |
| Rules.Completes | server.js:230-232 | the bonus test: four fragments of the artifact are claimed |
| Rules.Credit | server.js:228 | `player.score += pick.points`: the player at position p gains the points, and every other player and every name is unchanged |
| Rules.WithBonus | server.js:234 | the `forEach`: every player whose name is in the set gains 5, nobody else changes, and names and positions are kept |
| Rules.ClaimStep | server.js:226-235 | the claim branch for a registered diver: claim fragment k, credit its points to the diver, and pay the bonus to the contributors if the artifact is now complete; `ClaimStepScores` and `ClaimStepFragments` state its effect |
| Rules.DiveClaim | server.js:203-235 | a whole dive that finds fragment k: find-or-create the diver, then `ClaimStep`; `DiveClaimEffect` states its effect |
| Rules.ContributorsAfterClaim | server.js:226-233 | claiming an unclaimed fragment for a non-empty name adds exactly that name to the finders of its artifact |
| Rules.ContributorsOtherKey | server.js:227-233 | claiming a fragment of one artifact leaves the finders of every other artifact unchanged |
| Rules.CompletionAtFourth | server.js:231-233 | the bonus test `related.length === 4` holds after a claim exactly when the artifact's claimed count was 3 before it, and the diver is then among the contributors |
| Rules.ClaimStepScores | server.js:228-235 | in the claim branch each player keeps their place and name. The diver gains the fragment's points. Each player named among the contributors gains exactly 5 if and only if the claim completes the artifact. Nobody else changes and no score falls |
| Rules.ClaimStepFragments | server.js:226-227 | the claim branch sets `foundBy` to the diver on exactly the picked fragment, keeps the rest of the pool and its layout, and shortens the unclaimed list by one |
| Rules.DiveClaimEffect | server.js:203-235 | a whole dive that finds something (find-or-create, then claim) claims exactly the picked fragment, and every previously registered player keeps their place and name without losing points |
| Rules.ClaimsAreFinal | server.js:210-227 | within a generation a claimed fragment keeps its claimer in every later state, so `foundBy` changes at most once |
| Rules.SlotsDistinct | server.js:210-227 | within a generation no fragment is claimed by two dives |
| Rules.FoundCountGrows | server.js:227-231 | within a generation an artifact's claimed count never falls |
| Rules.BonusAtMostOnce | server.js:227-235 | within a generation two different dives never both complete the same artifact, so its bonus is paid at most once |
| Rules.ScoresGrow | server.js:228-234 | between resets every registered player keeps their place and name, and their score never falls |
| Rules.HistoryStaysInGeneration | server.js:226-227 | a run of dives that starts in a generation stays in it: claims change only `foundBy` |
| Accounts.PointsOf | server.js:226-228 | the points of the fragments the player claimed; 0 for a player who claimed none |
| Accounts.BonusCount | server.js:230-234 | how many artifacts of the catalogue are complete and list the player among their finders; at most \|catalog\| |
| Accounts.PointsAfterClaim | server.js:227-228 | a claim adds the fragment's points to the diver's total and to nobody else's |
| Accounts.BonusAfterClaim | server.js:227-234 | in a generation with distinct keys, a claim adds one bonus to exactly the finders of its artifact, and only when it completes that artifact; other artifacts' bonuses are unchanged |
| Accounts.EarnedAfterClaim | server.js:226-234 | what each player has earned grows by the fragment's points for the diver plus 5 for each finder when the claim completes the artifact |
| Accounts.AccountedStart | server.js:153-171 | a fresh pool with no players satisfies the accounting invariant |
| Accounts.EnrollAccounted | server.js:204-208 | find-or-create keeps the accounting invariant: a new player has claimed nothing and is owed no bonus, so 0 is right |
| Accounts.ClaimScoresAccounted | server.js:226-235 | after the claim branch every registered player's score equals the points they have claimed plus 5 per completed artifact they found part of |
| Accounts.ClaimAccounted | server.js:226-235 | the claim branch keeps the whole accounting invariant: pool in the generation, distinct names, every claimer registered, every score accounted for |
| Accounts.DiveAccounted | server.js:203-235 | a whole claiming dive keeps the accounting invariant |
| Accounts.ScoreAccounting | server.js:199-243 | along any run of dives from a fresh pool and an empty registry, with distinct artifact keys, every player's score equals the points of the fragments they claimed plus 5 × the number of completed artifacts they are a finder of, and every claimer is registered |
| Accounts.ServerScoreAccounting | server.js:30-243 | the same for the server's own ten artifacts: the whole accounting invariant and the score equation |
| Scenarios.SingleArtifactRound | server.js:199-243 | one artifact worth v, four dives from a fresh pool with no players, in any order and with any draws: nothing is left unclaimed, so the next dive resets; every diver is registered exactly once and nobody else is; each ends with v × (their number of dives) + 5 |
| Scenarios.SoloDiver | server.js:199-243 | one artifact worth 2: a single player diving four times ends as the only player, with 2 × 4 + 5 = 13, and the pool is exhausted |
| Scenarios.TwoDivers | server.js:199-243 | one artifact worth 1: two players who dive twice each, in any order, are the only two players and both end with 1 × 2 + 5 = 7 |
| Server.Game.Startup | server.js:174-179 | an absent document or player list becomes empty; a missing or empty pool is built fresh and is then fully unclaimed; stored lists are otherwise kept as they are; with no stored document the new state satisfies the accounting invariant |
| Server.Game.Register | server.js:184-196 | a name that is empty after trimming is refused and nothing changes; otherwise the trimmed name is find-or-created and the pool is untouched; the accounting invariant is kept |
| Server.Game.Dive | server.js:199-243 | empty trimmed name: refused, nothing changes. Nothing unclaimed: the player list becomes empty, the pool becomes a fresh generation, and a reset with no fragment is reported. Otherwise the new state is `DiveClaim` of the old, the reply carries the claimed fragment and the leaderboard, exactly that fragment was claimed, and no earlier player's score fell. A pool of a generation stays in it. With distinct artifact keys the accounting invariant is kept, across the reset too |
| Server.Game.DiveAs | server.js:203-243 | the same as `Dive`, accounting invariant included, for a diver whose trimmed name is not empty |
| Server.Game.Enroll | server.js:204-208 | find-or-create in place: the list becomes `Enrolled(old, name)`, and the returned position is that player's |
| Server.Game.ClaimFor | server.js:226-235 | the claim branch in place (set `foundBy`, credit points, bonus when four are claimed) yields exactly `ClaimStep` of the old state |
| Server.Game.AwardBonus | server.js:234 | the `forEach` over players adds 5 to exactly the players named in the contributor set |

## Left out

- HTTP routing, request parsing, JSON replies and static file serving
  (server.js:15-20, 246, 268-269). Handler inputs are plain strings, and
  replies are the datatypes `RegisterReply` and `DiveReply`. A missing
  `name` or `username` stands as the empty string, as `|| ""` makes it. A
  request body field that is not a string, where `.trim()` throws, is not
  modelled.
- The message of the claim reply. It interpolates the artifact's display
  name, which is payload the model does not carry.
- Persistence (`db.read`, `db.write`), the socket broadcasts, and the
  connection counter `activeUsers`/`MAX_USERS` (server.js:23-28, 249-266).
  Each handler is one atomic step on the in-memory document, so the
  interleavings the asynchronous reads and writes allow are not modelled.
- `Math.random` (server.js:226). It is replaced by the argument `pick`, a
  position in the unclaimed list, which the `requires` bounds whenever that
  list is not empty.
- The names, blurbs and images of the catalogue, and the `artifactName`,
  `blurb` and `image` fields of a fragment. They are payload the rules never
  read.
- Aliasing of JavaScript objects. `available`, `pick` and `player` are
  references into the document, modelled as positions into the two
  sequences. The reply's `fragment` and `leaderboard` are the values at the
  end of the handler.
- Stored documents whose points or scores are not numbers, or whose points
  are negative. Fragment points are `nat` and scores are `int`.
- Scores are JavaScript numbers, exact only up to 2^53; the model's `int`
  scores never lose precision. A stored `foundBy` or player `name` that is
  not a string is not modelled either: both are `string` here.
- Strings are sequences of Unicode scalar values. JavaScript's UTF-16 strings
  with lone surrogates are not modelled. `Trim` strips exactly the
  ECMAScript white-space and line-terminator code points.
- The browser client (public/main.js) is not part of this model.
