/** The in-memory game store (`GameStore`): games keyed by id, no scoreboard.
    Its guess transition differs from the persistent store's in two places: a
    guess of the wrong length is silently ignored, and a guess equal to the
    previous one is ignored. Locking is left out; each operation is atomic. */
module Store {
  import opened Types
  import opened Engine
  import opened History

  type GameId = string

  /** The attempt budget a game record gets when none is given. */
  const DefaultAttempts := 10

  /** One in-memory game; the timestamps are left out. */
  datatype MemGame = MemGame(
    secret: seq<int>,
    attemptsLeft: int,
    status: Status,
    history: seq<GuessEntry>)

  datatype GameStore = GameStore(games: map<GameId, MemGame>)

  /** A fresh game record: in progress, with the given (or default) budget
      and an empty history. */
  function NewMemGame(secret: seq<int>, attempts: int := DefaultAttempts): (g: MemGame)
    ensures g.secret == secret && g.status == InProgress
    ensures g.attemptsLeft == attempts && g.history == []
  {
    MemGame(secret, attempts, InProgress, [])
  }

  /** Attempts left plus guesses made: constant over a game's life. */
  function Budget(g: MemGame): int {
    |g.history| + g.attemptsLeft
  }

  /** `create`: store a fresh in-progress game under a new id. */
  function Create(store: GameStore, id: GameId, secret: seq<int>, attempts: int): (r: (GameStore, MemGame))
    requires id !in store.games
    ensures r.1.secret == secret && r.1.status == InProgress
    ensures r.1.attemptsLeft == attempts && r.1.history == []
    ensures Budget(r.1) == attempts
    ensures r.0.games == store.games[id := r.1]
  {
    var g := NewMemGame(secret, attempts);
    (GameStore(store.games[id := g]), g)
  }

  /** `get`: the game with this id, if any. */
  function Get(store: GameStore, id: GameId): (r: Option<MemGame>)
    ensures r.Some? <==> id in store.games
    ensures r.Some? ==> r.value == store.games[id]
  {
    if id in store.games then Some(store.games[id]) else None
  }

  datatype MemOutcome =
    | Missing               // `None`: no game with this id
    | Failed                // the engine's ValueError (empty secret)
    | Returned(game: MemGame)

  /** The guess repeats the last recorded one. */
  predicate RepeatsLast(g: MemGame, attempt: seq<int>) {
    |g.history| > 0 && g.history[|g.history| - 1].guess == attempt
  }

  /** `guess`: a terminal game, a wrong-length guess and a repeat of the last
      guess all return the game unchanged; otherwise the guess is recorded,
      one attempt is spent and the status follows the win/lose rule. */
  function Guess(store: GameStore, id: GameId, attempt: seq<int>): (r: (GameStore, MemOutcome))
    ensures r.1.Missing? <==> id !in store.games
    ensures id in store.games ==>
              var g := store.games[id];
              (g.status.IsTerminal() || |attempt| != |g.secret|) ==> r == (store, Returned(g))
    ensures id in store.games ==>
              var g := store.games[id];
              (g.status == InProgress && |attempt| == |g.secret| == 0) ==> r == (store, Failed)
    ensures id in store.games ==>
              var g := store.games[id];
              (g.status == InProgress && |attempt| == |g.secret| > 0 && RepeatsLast(g, attempt))
                ==> r == (store, Returned(g))
    ensures id in store.games ==>
              var g := store.games[id];
              (g.status == InProgress && |attempt| == |g.secret| > 0 && !RepeatsLast(g, attempt)) ==>
                && r.1.Returned?
                && var g' := r.1.game;
                && Advances(g.secret, attempt, g.history, g.attemptsLeft, g'.history, g'.attemptsLeft, g'.status)
                && g'.secret == g.secret
                && r.0.games == store.games[id := g']
    ensures r.0.games.Keys == store.games.Keys
    ensures forall other :: other in store.games ==> Budget(r.0.games[other]) == Budget(store.games[other])
  {
    if id !in store.games then (store, Missing)
    else
      var g := store.games[id];
      if g.status != InProgress then (store, Returned(g))
      else if |g.secret| != |attempt| then (store, Returned(g))
      else match ScoreGuess(g.secret, attempt)
        case InvalidLengths => (store, Failed)
        case Scored(f) =>
          if RepeatsLast(g, attempt) && g.status == InProgress then (store, Returned(g))
          else
            var left := g.attemptsLeft - 1;
            var h := g.history + [EntryFor(attempt, f)];
            assert h[..|g.history|] == g.history;
            var g' := g.(history := h, attemptsLeft := left, status := StatusAfterGuess(g.secret, attempt, left));
            (GameStore(store.games[id := g']), Returned(g'))
  }

  /** Submitting the same guess twice in a row changes the store only once. */
  lemma GuessIdempotent(store: GameStore, id: GameId, attempt: seq<int>)
    ensures var once := Guess(store, id, attempt).0;
            Guess(once, id, attempt).0 == once
  {
    var once := Guess(store, id, attempt).0;
    if id in store.games && once != store {
      var g' := once.games[id];
      assert RepeatsLast(g', attempt);
    }
  }

  /** The store after submitting `attempts` one after another. */
  function GuessRun(store: GameStore, id: GameId, attempts: seq<seq<int>>): (r: GameStore)
    ensures r.games.Keys == store.games.Keys
    decreases |attempts|
  {
    if |attempts| == 0 then store else GuessRun(Guess(store, id, attempts[0]).0, id, attempts[1..])
  }

  /** Once terminal, no later guess changes anything. */
  lemma {:induction false} TerminalRunUnchanged(store: GameStore, id: GameId, attempts: seq<seq<int>>)
    requires id in store.games && store.games[id].status.IsTerminal()
    ensures GuessRun(store, id, attempts) == store
    decreases |attempts|
  {
    if |attempts| > 0 {
      TerminalRunUnchanged(Guess(store, id, attempts[0]).0, id, attempts[1..]);
    }
  }

  /** Guesses made plus attempts left never changes, over any run. */
  lemma {:induction false} RunKeepsBudget(store: GameStore, id: GameId, attempts: seq<seq<int>>, other: GameId)
    requires other in store.games
    ensures Budget(GuessRun(store, id, attempts).games[other]) == Budget(store.games[other])
    decreases |attempts|
  {
    if |attempts| > 0 {
      RunKeepsBudget(Guess(store, id, attempts[0]).0, id, attempts[1..], other);
    }
  }

  /** No two consecutive history entries carry the same guess. */
  predicate NoRepeatedGuess(g: MemGame) {
    forall k :: 0 <= k < |g.history| - 1 ==> g.history[k].guess != g.history[k + 1].guess
  }

  lemma GuessKeepsNoRepeatedGuess(store: GameStore, id: GameId, attempt: seq<int>)
    requires forall other :: other in store.games ==> NoRepeatedGuess(store.games[other])
    ensures var r := Guess(store, id, attempt).0;
            forall other :: other in r.games ==> NoRepeatedGuess(r.games[other])
  {
    var r := Guess(store, id, attempt).0;
    if r != store {
      var g, g' := store.games[id], r.games[id];
      var n := |g.history|;
      forall k | 0 <= k < |g'.history| - 1
        ensures g'.history[k].guess != g'.history[k + 1].guess
      {
        assert g'.history[k] == g'.history[..n][k];
        if k + 1 < n {
          assert g'.history[k + 1] == g'.history[..n][k + 1];
        }
      }
      forall other | other in r.games
        ensures NoRepeatedGuess(r.games[other])
      {
        if other != id {
          assert r.games[other] == store.games[other];
        }
      }
    }
  }

  /** The in-memory store's own test: a wrong guess spends one of three
      attempts, then the right guess wins with one attempt to spare. */
  lemma CreateGuessScenario(store: GameStore, id: GameId)
    requires id !in store.games
    ensures var (s0, _) := Create(store, id, [1, 2, 3, 4], 3);
            var s1 := Guess(s0, id, [0, 0, 0, 0]).0;
            var s2 := Guess(s1, id, [1, 2, 3, 4]).0;
            && s1.games[id].attemptsLeft == 2 && |s1.games[id].history| == 1
            && s1.games[id].status == InProgress
            && s2.games[id].status == Won && s2.games[id].attemptsLeft == 1
  {
    var (s0, _) := Create(store, id, [1, 2, 3, 4], 3);
    var s1 := Guess(s0, id, [0, 0, 0, 0]).0;
    assert !IsWin([1, 2, 3, 4], [0, 0, 0, 0]) by {
      assert [1, 2, 3, 4][0] != [0, 0, 0, 0][0];
    }
    assert !RepeatsLast(s1.games[id], [1, 2, 3, 4]) by {
      assert [0, 0, 0, 0][0] != [1, 2, 3, 4][0];
    }
  }
}
