/** The HTTP routes over the persistent store, reduced to their logic: the
    difficulty presets of game creation, the shaping of the guess response
    (secret and note only once the game is over) and the mapping of store
    outcomes to status codes. Routing, serialisation and the secret source
    are left out; the secret arrives as a parameter. */
module Api {
  import opened Types
  import opened Engine
  import opened History
  import opened Repository
  import opened Schemas
  import opened Scoreboard

  const BadRequest := 400
  const NotFoundStatus := 404
  const Conflict := 409
  /** The framework's status for a request body that fails validation. */
  const Unprocessable := 422

  datatype ApiResult<T> = Ok(value: T) | HttpError(code: int)

  // ---------------------------------------------------------------------
  // Starting a game.
  // ---------------------------------------------------------------------

  /** Code length and attempt budget of a difficulty. */
  datatype Preset = Preset(difficulty: Difficulty, length: nat, attempts: nat)

  function PresetOf(d: Difficulty): Preset {
    match d
    case Easy => Preset(Easy, 3, 8)
    case Medium => Preset(Medium, 4, 10)
    case Hard => Preset(Hard, 5, 12)
  }

  /** The requested difficulty; any name but "easy" and "hard" is medium. */
  function ParseDifficulty(name: string): (d: Difficulty)
    ensures d == Easy <==> name == "easy"
    ensures d == Hard <==> name == "hard"
    ensures d == Medium <==> name != "easy" && name != "hard"
  {
    if name == "easy" then Easy
    else if name == "hard" then Hard
    else Medium
  }

  function PresetFor(name: string): Preset {
    PresetOf(ParseDifficulty(name))
  }

  /** The preset table: lengths 3, 4, 5 with two attempts per digit plus two;
      every difficulty's own name selects it, and an unknown name is read as
      medium, so normalising twice changes nothing. */
  lemma PresetTable(name: string)
    ensures PresetFor("easy") == Preset(Easy, 3, 8)
    ensures PresetFor("medium") == Preset(Medium, 4, 10)
    ensures PresetFor("hard") == Preset(Hard, 5, 12)
    ensures name != "easy" && name != "hard" ==> PresetFor(name) == Preset(Medium, 4, 10)
    ensures var p := PresetFor(name);
            && p.difficulty == ParseDifficulty(name)
            && 3 <= p.length <= 5 && p.attempts == 2 * p.length + 2
            && PresetFor(DifficultyName(p.difficulty)) == p
  {
  }

  /** The new-game response; the secret is never part of it. */
  datatype NewGameResponse = NewGameResponse(
    gameId: GameId, attemptsLeft: int, status: Status, difficulty: Difficulty)

  /** The secret source of the route: asked for the preset's code length,
      it returns the secret. Random sources are outside the model, so the
      source is a parameter. */
  type SecretSource = nat -> seq<int>

  /** The fixed source of the route tests: [1, 2, 3], [0, 1, 2, 3] and
      [0, 1, 2, 3, 4] for lengths 3, 4 and 5, zeros of the length otherwise. */
  function StubCode(length: nat): (s: seq<int>)
    ensures |s| == length && AllInAlphabet(s)
  {
    if length == 3 then [1, 2, 3]
    else if length == 4 then [0, 1, 2, 3]
    else if length == 5 then [0, 1, 2, 3, 4]
    else Zeros(length)
  }

  /** `start_game`: ask the source for a code of the preset length and
      create a game with the preset's attempts and difficulty. */
  function StartGame(db: DbStore, difficultyName: string, id: GameId, source: SecretSource)
    : (r: (DbStore, NewGameResponse))
    requires id !in db.games
    ensures var p := PresetFor(difficultyName);
            && r.1 == NewGameResponse(id, p.attempts, InProgress, p.difficulty)
            && id in r.0.games
            && var g := r.0.games[id];
            && g.secret == source(p.length)
            && g.initialAttempts == p.attempts && g.attemptsLeft == p.attempts
            && g.difficulty == p.difficulty && g.status == InProgress
            && g.history == [] && !g.hintUsed && g.revealed == []
            && r.0.games == db.games[id := g]
            && r.0.stats == RecordStarted(db.stats, p.difficulty)
            && StartedFor(r.0.stats, p.difficulty) == StartedFor(db.stats, p.difficulty) + 1
            && r.0.stats.gamesStarted == db.stats.gamesStarted + 1
  {
    var p := PresetFor(difficultyName);
    var (db', g) := Create(db, id, source(p.length), p.attempts, p.difficulty);
    (db', NewGameResponse(id, g.attemptsLeft, g.status, p.difficulty))
  }

  /** A source that honours the requested length gives every difficulty a
      secret of its preset length: 3 for easy, 4 for medium, 5 for hard. */
  lemma StartGameSecretLength(db: DbStore, difficultyName: string, id: GameId, source: SecretSource)
    requires id !in db.games
    requires forall n: nat :: |source(n)| == n
    ensures var g := StartGame(db, difficultyName, id, source).0.games[id];
            && |g.secret| == PresetFor(difficultyName).length
            && (g.difficulty == Easy ==> |g.secret| == 3)
            && (g.difficulty == Medium ==> |g.secret| == 4)
            && (g.difficulty == Hard ==> |g.secret| == 5)
  {
    var p := PresetFor(difficultyName);
    assert |source(p.length)| == p.length;
  }

  // ---------------------------------------------------------------------
  // Reading a game.
  // ---------------------------------------------------------------------

  /** The public view of a game: no secret, no hint bookkeeping. The
      response schema has no difficulty field, so the difficulty passed when
      building it is dropped as well. */
  datatype GameState = GameState(
    gameId: GameId, attemptsLeft: int, status: Status, history: seq<GuessEntry>)

  function ToGameState(id: GameId, g: Game): GameState {
    GameState(id, g.attemptsLeft, g.status, g.history)
  }

  /** `get_game`: the public state of a game, or 404. */
  function GetGame(db: DbStore, id: GameId): (r: ApiResult<GameState>)
    ensures r.HttpError? <==> id !in db.games
    ensures r.HttpError? ==> r.code == NotFoundStatus
    ensures r.Ok? ==>
              && r.value.gameId == id
              && r.value.attemptsLeft == db.games[id].attemptsLeft
              && r.value.status == db.games[id].status
              && r.value.history == db.games[id].history
  {
    match Get(db, id)
    case None => HttpError(NotFoundStatus)
    case Some(g) => Ok(ToGameState(id, g))
  }

  /** Reading a game discloses nothing of its secret or its hint: two games
      that agree on attempts, status and history read the same, whatever
      their secrets, difficulties or revealed positions. */
  lemma GetGameHidesSecret(db: DbStore, id: GameId, g': Game)
    requires id in db.games
    requires g'.attemptsLeft == db.games[id].attemptsLeft
    requires g'.status == db.games[id].status && g'.history == db.games[id].history
    ensures GetGame(db.(games := db.games[id := g']), id) == GetGame(db, id)
  {
  }

  // ---------------------------------------------------------------------
  // Submitting a guess.
  // ---------------------------------------------------------------------

  datatype GuessResponse = GuessResponse(
    attemptsLeft: int,
    status: Status,
    feedback: Option<GuessEntry>,
    secret: Option<seq<int>>,
    note: Option<string>)

  /** The note shown once a game is over. */
  function GameOverNote(s: Status): string {
    "Game " + StatusName(s) + ". No more guesses allowed."
  }

  /** `submit_guess`: validation failures give 422, a rejected guess 400, an
      unknown game 404; otherwise the game's state, its latest feedback, and,
      only when the game is over, the secret and the game-over note. */
  function SubmitGuess(db: DbStore, id: GameId, guess: seq<int>): (r: (DbStore, ApiResult<GuessResponse>))
    ensures !AllInAlphabet(guess) ==> r == (db, HttpError(Unprocessable))
    ensures AllInAlphabet(guess) ==> r.0 == Guess(db, id, guess).0
    ensures AllInAlphabet(guess) && id !in db.games ==> r.1 == HttpError(NotFoundStatus)
    ensures (AllInAlphabet(guess) && id in db.games && db.games[id].status == InProgress
             && |guess| != |db.games[id].secret|) ==> r == (db, HttpError(BadRequest))
    ensures AllInAlphabet(guess) ==> (r.1 == HttpError(BadRequest) <==> Guess(db, id, guess).1.InvalidGuess?)
    ensures AllInAlphabet(guess) && id in db.games && db.games[id].status.IsTerminal() ==> r.0 == db && r.1.Ok?
    ensures (AllInAlphabet(guess) && id in db.games && db.games[id].status == InProgress
             && |guess| == |db.games[id].secret| > 0) ==> r.1.Ok?
    ensures r.1.HttpError? ==> r.0 == db
    ensures r.1.Ok? ==>
              && id in r.0.games
              && var g, resp := r.0.games[id], r.1.value;
              && resp.status == g.status && resp.attemptsLeft == g.attemptsLeft
              && (resp.feedback.Some? <==> |g.history| > 0)
              && (resp.feedback.Some? ==> resp.feedback.value == g.history[|g.history| - 1])
              && (resp.secret.Some? <==> g.status.IsTerminal())
              && (resp.secret.Some? ==> resp.secret.value == g.secret)
              && (resp.note.Some? <==> g.status.IsTerminal())
              && (resp.note.Some? ==> resp.note.value == GameOverNote(g.status))
  {
    match ValidateDigits(guess)
    case OutOfRange => (db, HttpError(Unprocessable))
    case Valid(digits) =>
      var (db', outcome) := Guess(db, id, digits);
      match outcome
      case InvalidGuess => (db', HttpError(BadRequest))
      case NotFound => (db', HttpError(NotFoundStatus))
      case Updated(g) =>
        var feedback := if |g.history| > 0 then Some(g.history[|g.history| - 1]) else None;
        var secret := if g.status != InProgress then GetSecret(db', id) else None;
        var note := if g.status != InProgress then Some(GameOverNote(g.status)) else None;
        (db', Ok(GuessResponse(g.attemptsLeft, g.status, feedback, secret, note)))
  }

  // ---------------------------------------------------------------------
  // Hints.
  // ---------------------------------------------------------------------

  datatype HintOut = HintOut(position: nat, digit: int, attemptsLeft: int, note: string)

  const HintNote := "You used your only hint for this game."

  /** `get_hint`: not found gives 404, a finished game or a used hint 409;
      otherwise the revealed position, its digit and the unchanged attempts. */
  function GetHint(db: DbStore, id: GameId, choice: nat): (r: (DbStore, ApiResult<HintOut>))
    ensures id !in db.games ==> r == (db, HttpError(NotFoundStatus))
    ensures id in db.games && db.games[id].status.IsTerminal() ==> r == (db, HttpError(Conflict))
    ensures (id in db.games && db.games[id].status == InProgress && db.games[id].hintUsed)
              ==> r == (db, HttpError(Conflict))
    ensures GiveHint(db, id, choice).1.HintAlreadyUsed? ==> r == (db, HttpError(Conflict))
    ensures r.1.Ok? <==> GiveHint(db, id, choice).1.HintOk?
    ensures (id in db.games && db.games[id].status == InProgress && !db.games[id].hintUsed
             && |db.games[id].revealed| < |db.games[id].secret|) ==> r.1.Ok?
    ensures r.1.HttpError? ==> r.0 == db
    ensures r.1.Ok? ==>
              && id in db.games
              && var g, h := db.games[id], r.1.value;
              && g.status == InProgress && !g.hintUsed
              && h.position < |g.secret| && h.position !in g.revealed
              && h.digit == g.secret[h.position]
              && h.attemptsLeft == g.attemptsLeft
              && r.0 == GiveHint(db, id, choice).0
              && h.note == HintNote
  {
    var (db', outcome) := GiveHint(db, id, choice);
    match outcome
    case HintNotFound => (db', HttpError(NotFoundStatus))
    case HintFinished => (db', HttpError(Conflict))
    case HintAlreadyUsed => (db', HttpError(Conflict))
    case HintOk(position, digit) =>
      var refreshed := Get(db', id);
      var left := if refreshed.Some? then refreshed.value.attemptsLeft else 0;
      (db', Ok(HintOut(position, digit, left, HintNote)))
  }

  // ---------------------------------------------------------------------
  // End-to-end scenarios of the route tests.
  // ---------------------------------------------------------------------

  /** An easy game with secret [1, 2, 3]: a four-digit guess is a bad request
      and changes nothing, a wrong three-digit guess is answered, and the
      right guess wins and discloses the secret. */
  lemma EasyGameScenario(db: DbStore, id: GameId)
    requires id !in db.games
    ensures var db0 := StartGame(db, "easy", id, StubCode).0;
            var (db1, r1) := SubmitGuess(db0, id, [0, 1, 2, 3]);
            var (db2, r2) := SubmitGuess(db1, id, [0, 0, 0]);
            var (db3, r3) := SubmitGuess(db2, id, [1, 2, 3]);
            && r1 == HttpError(BadRequest) && db1 == db0
            && r2.Ok? && r2.value.status == InProgress && r2.value.attemptsLeft == 7
            && r3.Ok? && r3.value.status == Won && r3.value.secret == Some([1, 2, 3])
  {
    var db0 := StartGame(db, "easy", id, StubCode).0;
    var g0 := db0.games[id];
    assert g0.secret == [1, 2, 3] && g0.status == InProgress && g0.attemptsLeft == 8;
    assert AllInAlphabet([0, 1, 2, 3]);
    var db1 := SubmitGuess(db0, id, [0, 1, 2, 3]).0;
    assert db1 == db0;
    assert AllInAlphabet([0, 0, 0]);
    var db2 := SubmitGuess(db1, id, [0, 0, 0]).0;
    assert db2 == Guess(db1, id, [0, 0, 0]).0;
    assert !IsWin([1, 2, 3], [0, 0, 0]) by {
      assert [1, 2, 3][0] != [0, 0, 0][0];
    }
    var g2 := db2.games[id];
    assert g2.secret == [1, 2, 3] && g2.status == InProgress && g2.attemptsLeft == 7;
    assert AllInAlphabet([1, 2, 3]);
    assert IsWin([1, 2, 3], [1, 2, 3]);
  }

  /** After a win, a further guess is answered with the same state: still
      won, attempts unchanged, game-over note present. */
  lemma GuessAfterWinScenario(db: DbStore, id: GameId)
    requires id !in db.games
    ensures var db0 := StartGame(db, "medium", id, StubCode).0;
            var (db1, r1) := SubmitGuess(db0, id, [0, 1, 2, 3]);
            var (db2, r2) := SubmitGuess(db1, id, [0, 1, 2, 3]);
            && r1.Ok? && r1.value.status == Won && r1.value.attemptsLeft == 9
            && r1.value.secret == Some([0, 1, 2, 3])
            && r2.Ok? && r2.value.status == Won && r2.value.attemptsLeft == 9
            && r2.value.note == Some(GameOverNote(Won))
            && db2 == db1
  {
    assert AllInAlphabet([0, 1, 2, 3]);
  }
}
