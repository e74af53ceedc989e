# Mastermind server core in Dafny

This project models the core of a Mastermind-style code-breaking game server. A player guesses a hidden sequence of digits 0..7. The server scores each guess, keeps a guess history and an attempt budget, grants one hint per game, and keeps a scoreboard of started, won and lost games.

The model is functional. Games, stores and the scoreboard are immutable datatypes. Every operation is a pure transition that returns the new state and a result.

| file | module | models |
|---|---|---|
| `types.dfy` | `Types` | game status, difficulty, optional values |
| `engine.dfy` | `Engine` | `score_guess` and `is_win` (`app/engine.py`) |
| `history.dfy` | `History` | history entries, the feedback message, and the shared accepted-guess rule |
| `scoreboard.dfy` | `Scoreboard` | the stats record and its updates (`app/repository.py`) |
| `repository.dfy` | `Repository` | the persistent store `DBGameStore` (`app/repository.py`) |
| `store.dfy` | `Store` | the in-memory store `GameStore` (`app/store.py`) |
| `variants.dfy` | `Variants` | how the two stores' guess transitions differ |
| `schemas.dfy` | `Schemas` | `GuessRequest.validate_digits` (`app/schemas.py`) |
| `api.dfy` | `Api` | difficulty presets and the response and error mapping of the routes (`app/main.py`) |

Decisions worth knowing:

- **Secrets and ids are parameters.** The secret source and `uuid4` are not modelled. A creation operation requires an id that is not yet in use; that is what a fresh UUID provides.
- **The hint's random draw is a parameter `choice`.** It selects among the unrevealed positions, listed in increasing order. `HintCanRevealAnyUnrevealed` shows that every unrevealed position can be selected. So the model covers every outcome of the source's rejection-sampling loop.
- **The draw loop.** The source redraws `randbelow(len)` until the index is unrevealed. `UnrevealedCount` is a pigeonhole argument: fewer revealed entries than positions leaves a candidate, so each draw succeeds with probability at least 1/len and the loop ends with probability 1, though not within any fixed number of draws in general. Under the store invariant more holds: while the hint flag is clear nothing is revealed, so the first draw always succeeds (`FirstDrawSucceeds`).
- **Counters are unbounded integers**, like Python's `int`. The persisted counters are `Integer` database columns (`app/models.py:94-111`); the column width is not modelled. `StatsWellFormed` proves which bounds they keep.
- **The scoreboard row always exists.** It starts at its column defaults (`ZeroStats`). The source creates it lazily on first access, but the observable behaviour is the same.
- **The average is kept as a ratio.** `get_stats` computes a float average. The model keeps `total_guesses_in_wins / games_won` as the integer pair `Ratio(total, won)`.
- **Empty secrets.** `score_guess` raises for an empty secret. The persistent store rejects every guess against an empty secret with `InvalidGuess`: a non-empty guess fails its length check, and the empty guess reaches the raise; both are the same `ValueError`. The in-memory store fails (`Failed`) only on the empty guess. Any other guess is ignored by its length guard, which returns the game unchanged (`app/store.py:60-62`).
- **The two stores differ as the code does.** The persistent store raises on a wrong-length guess (`app/repository.py:133-134`). The in-memory store returns the game unchanged (`app/store.py:60-62`), and it also ignores a repeat of the last guess. `Variants` states both differences, and shows that the stores agree otherwise.
- **A body that fails validation gets status 422.** This is the web framework's standard status for a request that fails validation. The route itself never sees such a body.

## Model

| member | source | states |
|---|---|---|
| Engine.ScoreGuess | app/engine.py:14-69 | An empty secret or a length mismatch is an error, and only those are. Otherwise both counts are at most n, in the order (numbers, positions). |
| Engine.IsWin | app/engine.py:71-85 | A win holds iff the secret is non-empty and the guess equals it. |
| Engine.TallyDigits | app/engine.py:38-56 | After the counting loop, slot d holds the number of occurrences of digit d in the code, for each d in 0..7. Digits outside 0..7 are skipped. |
| Engine.ScoreGuessByCounting | app/engine.py:14-69 | The source's loop algorithm returns exactly `ScoreGuess`. It makes a positional pass, builds two tally arrays and sums the per-digit minima. |
| Engine.MatchCountIsMatchingIndices | app/engine.py:29-35 | The positional loop counts exactly the indices i with secret[i] == guess[i]. |
| Engine.PositionsAreMatchingIndices | app/engine.py:29-35 | The reported `correct_positions` is the size of the set of indices at which secret and guess agree. |
| Engine.CountIsMultiplicity | app/engine.py:38-52 | The per-digit tally of a code is the digit's multiplicity in the code's multiset. |
| Engine.NumbersIgnoreOrder | app/engine.py:38-56 | Rearranging the secret's digits never changes `correct_numbers`. |
| Engine.MatchCountAtMostOverlap | app/engine.py:29-67 | When every digit of the secret is in 0..7, every exact match is also a value match. So positions <= numbers. |
| Engine.OverlapIgnoresOutOfAlphabet | app/engine.py:44-56 | Appending a digit outside 0..7 to either code leaves `correct_numbers` unchanged. |
| Engine.ScoreBounds | app/engine.py:25-67 | For a valid in-alphabet secret the result is scored and 0 <= positions <= numbers <= n. |
| Engine.OutOfAlphabetBreaksOrdering | app/engine.py:44-56 | The alphabet precondition is needed: secret [9] with guess [9] scores (0, 1). |
| Engine.ScoreSymmetric | app/engine.py:29-67 | Swapping secret and guess gives the same result, both components and the error case. |
| Engine.ScoreSelf | app/engine.py:14-69 | A non-empty in-alphabet code scored against itself gives (n, n). |
| Engine.MatchCountFull | app/engine.py:80-85 | The positional count equals the length iff the codes are equal. |
| Engine.IsWinIffAllPositions | app/engine.py:71-85 | `is_win` is false for empty or mismatched codes. Otherwise it is true iff `correct_positions == n`. |
| Engine.ScoreExampleOnePlaced | tests/test_engine.py:20-31 | [0,1,3,5] against [0,2,4,6] scores (1, 1). |
| Engine.ScoreExampleDuplicates | tests/test_engine.py:33-46 | [2,2,5,5] against [2,5,2,5] scores (4, 2). |
| Engine.ScoreExampleDisjoint | tests/test_engine.py:7-18 | [0,1,2,3] against [4,5,6,7] scores (0, 0). |
| Engine.ScoreExampleWin | tests/test_engine.py:48-50 | [1,2,3,4] wins against itself with (4, 4). It does not win against [1,2,3,5]. |
| History.NatToString | app/store.py:80-84 | `str(n)` of a count is a non-empty string of decimal digits. |
| History.NatToStringRoundTrip | app/store.py:80-84 | Reading the rendered count back as a decimal gives the count. |
| History.FeedbackMessageAllIncorrect | app/store.py:75-84 | The message is "all incorrect" iff both counts are 0. Any other message starts with the number of correct digits. |
| History.EntryFor | app/repository.py:137-150 | The history entry carries the guess and the engine's two counts. Its message is "all incorrect" iff both counts are 0. |
| Scoreboard.RecordStarted | app/repository.py:92-100 | `games_started` and exactly one per-difficulty started counter go up by 1. Each difficulty selects its own counter. No other counter changes. |
| Scoreboard.RecordOutcome | app/repository.py:176-197 | On a win, `games_won` and the difficulty's won counter go up by 1, the streak grows by 1, and `best_streak` becomes the max. Total guesses grow by the guesses used, and the fastest win becomes the minimum, set on the first win. On a loss, `games_lost` goes up by 1 and the streak resets to 0. Nothing else changes. `best_streak >= current_streak` is kept. |
| Scoreboard.RecordOutcomePreserves | app/repository.py:176-197 | The outcome update keeps the scoreboard invariant. The per-difficulty counters sum to the totals, and 0 <= current <= best <= won. The fastest win exists iff there was a win, and it is at most the average. |
| Scoreboard.RecordStartedPreserves | app/repository.py:92-100 | The started update keeps the scoreboard invariant. |
| Scoreboard.Snapshot | app/repository.py:199-216 | The snapshot carries every counter. It has an average, as the pair (total guesses in wins, games won), iff `games_won > 0`. |
| Scoreboard.AverageAtLeastFastest | app/repository.py:199-209 | Under the invariant, a reported average is at least 1 and at least the fastest win. |
| Repository.Create | app/repository.py:72-105 | A new game is in progress, with attempts left = initial attempts = the budget. It has no hint, no revealed positions and an empty history. It is stored under its id, and the started counters are bumped as `RecordStarted` states. |
| Repository.EmptyDbWellFormed | app/repository.py:61-68 | The base case of the store invariant: an empty database with a fresh scoreboard row is well formed. |
| Repository.CreatePreservesWellFormed | app/repository.py:72-105 | Creation keeps the store invariant. |
| Repository.WonIffSomeGuessWins | app/repository.py:153-158 | Under the invariant, a game is won iff some guess in its history equals the secret. A lost game has no attempts left and no winning guess. |
| Repository.Accept | app/repository.py:136-158 | An accepted guess appends exactly one scored entry and spends one attempt. The new status is won on `is_win`, else lost when attempts <= 0, else in progress. Nothing else in the game changes. |
| Repository.Guess | app/repository.py:118-174 | An unknown id gives NotFound. A terminal game is returned unchanged, with no length check. On an in-progress game, a wrong length fails before any change. An accepted guess advances the game as `Accept` states. The scoreboard is updated iff the game became terminal. |
| Repository.AdvancePreservesWellFormed | app/repository.py:143-158 | An accepted guess keeps the game invariant. History length = initial - left, every entry is the engine's verdict, and the status agrees with the history. |
| Repository.AdvanceKeepsStatus | app/repository.py:153-158 | After an accepted guess, only the new last entry can be a winning guess. The status is won iff that entry hits the secret, lost only with no attempts left, and in progress only with attempts left. |
| Repository.StatsAfterPreservesWellFormed | app/repository.py:162-164 | Recording the outcome of a terminal transition keeps the scoreboard invariant. |
| Repository.GuessPreservesWellFormed | app/repository.py:118-174 | Every guess keeps the store invariant, including `len(history) == initial_attempts - attempts_left`. |
| Repository.GuessRun | app/repository.py:118-121 | A run of guesses never adds or removes a game. |
| Repository.TerminalRunUnchanged | app/repository.py:123-130 | Once a game is terminal, no sequence of guesses changes the store. |
| Repository.OutcomeRecordedOnce | app/repository.py:162-164 | Over any run of guesses, won + lost grows by exactly 1 if the game went from in progress to terminal, and by 0 otherwise. Other games are untouched. |
| Repository.LosingRun | app/repository.py:153-158 | From k >= 1 attempts, j <= k wrong guesses of the right length leave k - j attempts. The game is lost iff j == k, and then the loss is counted once and the streak is 0. |
| Repository.Unrevealed | app/repository.py:250-254 | Each candidate position is below the secret's length and not yet revealed. |
| Repository.UnrevealedComplete | app/repository.py:250-254 | Every unrevealed position below the length is a candidate. |
| Repository.UnrevealedCount | app/repository.py:245-254 | Pigeonhole: there are at least length - len(revealed) candidates. So while fewer positions are revealed than exist, some draw is unrevealed. |
| Repository.FirstDrawSucceeds | app/repository.py:242-254 | In a well-formed game that is in progress with the hint unused, nothing is revealed yet. So every index the draw can produce is unrevealed and is a candidate, and the loop stops after its first draw. |
| Repository.GiveHint | app/repository.py:236-261 | Not found iff the id is unknown. Finished iff the game is won or lost. Already used iff it is in progress and the flag is set or every position is revealed. Every other request is granted. On success the index is in range and not yet revealed. The digit returned is `secret[idx]`, and only `hint_used` and the revealed list change. |
| Repository.HintCanRevealAnyUnrevealed | app/repository.py:250-254 | Every unrevealed position is a possible hint: some draw selects it. |
| Repository.HintOnlyOnce | app/repository.py:242-243 | After a successful hint, the next hint request is refused as already used. |
| Repository.GiveHintPreservesWellFormed | app/repository.py:236-261 | The hint keeps the store invariant: at most one in-range revealed position, present iff the hint flag is set. |
| Repository.Get | app/repository.py:107-116 | Returns the game iff the id exists. |
| Repository.GetSecret | app/repository.py:263-270 | Returns the secret iff the game exists and is won or lost. |
| Repository.GetStats | app/repository.py:199-216 | Returns the scoreboard, with an average iff `games_won > 0`. |
| Repository.ResetStats | app/repository.py:218-234 | Every counter becomes 0 and the fastest win becomes unset. The games are untouched. |
| Repository.ResetPreservesWellFormed | app/repository.py:218-234 | The reset keeps the store invariant. |
| Store.NewMemGame | app/store.py:23-31 | A new record is in progress, with an empty history. Its budget is the given one, or 10 by default. |
| Store.Create | app/store.py:38-43 | The new game is in progress with attempts left = the budget and an empty history, stored under its id. |
| Store.Get | app/store.py:45-47 | Returns the game iff the id exists. |
| Store.Guess | app/store.py:49-106 | An unknown id gives None. A terminal game, a wrong-length guess and a repeat of the last guess return the game unchanged. An empty secret raises. Otherwise one scored entry is appended, one attempt is spent and the status follows the win/lose rule. History length + attempts left is unchanged for every game. |
| Store.GuessIdempotent | app/store.py:69-73 | Two identical consecutive guesses change the store only once. |
| Store.GuessRun | app/store.py:49-53 | A run of guesses never adds or removes a game. |
| Store.TerminalRunUnchanged | app/store.py:55-57 | Once a game is terminal, no sequence of guesses changes the store. |
| Store.RunKeepsBudget | app/store.py:94-97 | Over any run of guesses, history length + attempts left stays the same for every game. |
| Store.GuessKeepsNoRepeatedGuess | app/store.py:69-73 | No two consecutive history entries carry the same guess, and every guess keeps this. |
| Store.CreateGuessScenario | tests/test_store.py:9-36 | Secret [1,2,3,4] with 3 attempts: a wrong guess leaves 2 attempts, 1 entry and the game in progress. The right guess then wins with 1 attempt left. |
| Variants.ToMem | app/store.py:23-31 | The in-memory view keeps the secret, the attempts left, the status and the history. |
| Variants.WrongLengthDiffers | app/store.py:59-62 | On a wrong-length guess the persistent store raises and the in-memory store returns the game unchanged. Neither changes state. |
| Variants.RepeatedGuessDiffers | app/store.py:69-73 | Repeating the last guess spends an attempt in the persistent store and nothing in the in-memory store. |
| Variants.VariantsAgreeOtherwise | app/store.py:75-103 | Outside those two cases, both stores give the same outcome and still hold the same games. |
| Schemas.DigitsInRangeFrom | app/schemas.py:32-37 | The scan from `index` passes iff no later digit is below 0 or above 7. |
| Schemas.ValidateDigits | app/schemas.py:26-38 | A list is accepted iff every digit is in 0..7, and an accepted list is returned unchanged. |
| Schemas.ValidateAnyLength | app/schemas.py:27-31 | There is no length constraint: the empty list and lists of any length are accepted. |
| Schemas.ValidateExamples | app/schemas.py:40-48 | The documented three-, four- and five-digit examples are accepted. Lists holding 8 or -1 are rejected. |
| Api.ParseDifficulty | app/main.py:74-79 | Easy iff "easy", hard iff "hard", and medium for every other string. This is where the medium fallback of the source lives, for the route and for the counter choice at `app/repository.py:95-100`. |
| Api.PresetTable | app/main.py:68-79 | The presets are easy (3, 8), medium (4, 10) and hard (5, 12), and any unknown name gives medium. Lengths are 3..5, attempts are 2 * length + 2, and normalising a name twice changes nothing. |
| Api.StartGame | app/main.py:63-89 | The secret source is asked for the preset's code length, and its answer is the new game's secret. The new game is in progress with the preset's attempts, the normalised difficulty, an empty history and no hint. Only the new id is added; other games are untouched. The scoreboard gets the started bump for that difficulty. The response reports the preset's attempts, status in progress and the difficulty, and no secret. |
| Api.StartGameSecretLength | app/main.py:74-81 | With a source that returns as many digits as asked, the secret has the preset length: 3 for easy, 4 for medium, 5 for hard. |
| Api.StubCode | tests/test_api.py:13-38 | The route tests' source returns [1,2,3], [0,1,2,3] and [0,1,2,3,4] for lengths 3, 4 and 5, and zeros otherwise; it always returns as many digits 0..7 as asked. |
| Api.GetGame | app/main.py:91-99 | 404 iff the id is unknown. Otherwise the public `GameState`: the id, attempts left, status and history. It has no secret and no hint fields. |
| Api.GetGameHidesSecret | app/main.py:91-99 | Two games that agree on attempts, status and history read the same, whatever their secrets or revealed positions. |
| Api.SubmitGuess | app/main.py:101-129 | Out-of-range digits give 422 and a missing game 404. The answer is 400 iff the store raises its ValueError: a wrong length, or an empty secret. None of these errors changes state. A guess on a finished game gets 200 and changes nothing. An accepted guess gets 200. The feedback is the last history entry, or none when the history is empty. The secret and the note are present iff the game is terminal, and the note reads "Game <status>. No more guesses allowed." |
| Api.GetHint | app/main.py:131-152 | Not found gives 404. A finished game, a used hint or every position already revealed gives 409. These change nothing. The answer is 200 iff the store grants the hint, so every allowed request gets one. On success the response has the position, its digit, the unchanged attempts left and the fixed note. |
| Api.EasyGameScenario | tests/test_api.py:42-81 | In an easy game with secret [1,2,3], a 4-digit guess gives 400 and changes nothing. A wrong guess leaves 7 attempts in progress. The right guess wins and reveals the secret. |
| Api.GuessAfterWinScenario | tests/test_api.py:83-122 | After a first-guess win in a medium game, another guess changes nothing: still won, still 9 attempts, and the note is present. |

## Left out

- Persistence and sessions: the SQLAlchemy session (`get`, `add`, `commit`, `refresh`, the history queries), `app/db.py`, `app/bootstrap_db.py` and the ORM mapping of `app/models.py`. Each operation is one atomic transition on plain datatypes. The history is kept in the game record instead of a separate table ordered by timestamp.
- Timestamps (`created_at`, `updated_at`, the entry timestamp) and `uuid4`: ids are parameters and clocks are omitted.
- The random choices. As written, `fetch_code` in `app/random_client.py` takes no argument, but `start_game` calls it with the preset length (`app/main.py:81`). That call raises `TypeError` before `store.create` runs, so the route as written never creates a game. `Api.StartGame` models the route with a secret source that takes the length, like the test stub (`tests/test_api.py:20`, `tests/test_api.py:53`). The source is the parameter `source`; the route tests' stub is `Api.StubCode`. The hint's `randbelow` draw is the `choice` parameter.
- Missing response schemas. `app/schemas.py` defines neither `StatsOut` nor `HintOut`, yet `app/repository.py:27` and `app/main.py:34-35` import them, so both modules fail at import as written. `Scoreboard.StatsOut` and `Api.HintOut` are rebuilt from the constructor calls at `app/repository.py:202-216` and `app/main.py:147-152`.
- The `RLock` of the in-memory store and all concurrency: each operation is sequential and atomic.
- The float value of the average: it is kept as the integer pair (total guesses in wins, games won).
- FastAPI and Pydantic wiring: routing, CORS, static files, serialisation, and the `get_stats` and `reset_stats` routes. Those two routes only forward to `Repository.GetStats` and `Repository.ResetStats`.
- The DTO conversion of the stores (`_to_game_state`, `_to_guess_out`): the store operations return the game record itself. Only the read route projects it, to `Api.GameState`, whose schema has no difficulty field (`app/schemas.py:59-63`).
- Object identity in the in-memory store. `create` and `guess` return the live `Game` object, which later guesses mutate in place (`app/store.py:40-43`, `app/store.py:94-105`). Each history entry keeps the caller's `attempt` list by reference (`app/store.py:87-94`), so a caller who mutates that list later changes the stored history and what the repeat guard compares (`app/store.py:70-73`). The model works with values: `Store.Create` and `Store.Guess` return snapshots, and the stored history cannot change behind the store's back.
- The text of exception messages and HTTP details. Only the status codes are modelled.
- The tests for the in-memory store call `create` with a difficulty and also call `get_stats`. Neither exists in `app/store.py`. The store is modelled as written, without a scoreboard.
- Repository.LosingRun: requires at least one attempt left at the start. A game created with a budget of 0 or less is lost by its first wrong guess, with a negative attempt count. That case follows from `Repository.Guess` directly.
