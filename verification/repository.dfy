/** The persistent game store (`DBGameStore`): a table of games keyed by id
    and the single scoreboard record. Every operation is one atomic
    transition from a store value to a new store value and a result; the
    database session, ids, clocks and the random generator are parameters or
    left out. */
module Repository {
  import opened Types
  import opened Engine
  import opened History
  import opened Scoreboard

  type GameId = string

  /** One game row together with its guess history. */
  datatype Game = Game(
    secret: seq<int>,
    attemptsLeft: int,
    initialAttempts: int,
    status: Status,
    difficulty: Difficulty,
    hintUsed: bool,
    revealed: seq<int>,
    history: seq<GuessEntry>)

  datatype DbStore = DbStore(games: map<GameId, Game>, stats: Stats)

  /** An empty database; the scoreboard row starts at its defaults. */
  const EmptyDb := DbStore(map[], ZeroStats)

  // ---------------------------------------------------------------------
  // Invariants.
  // ---------------------------------------------------------------------

  /** The entry is a winning guess for this secret. */
  predicate Hit(secret: seq<int>, e: GuessEntry) {
    |secret| > 0 && e.guess == secret
  }

  /** The history half of the game invariant: the history accounts for the
      attempts spent, every entry is the engine's verdict, only the last entry
      may be a winning one, and the status agrees with the history. */
  predicate HistoryWellFormed(secret: seq<int>, history: seq<GuessEntry>,
                              initialAttempts: int, attemptsLeft: int, status: Status) {
    && |history| == initialAttempts - attemptsLeft
    && (forall k {:trigger EntryScores(secret, history[k])} ::
          0 <= k < |history| ==> EntryScores(secret, history[k]))
    && (forall k :: 0 <= k < |history| - 1 ==> !Hit(secret, history[k]))
    && (status == Won <==> |history| > 0 && Hit(secret, history[|history| - 1]))
    && (status == Lost ==> |history| > 0 && attemptsLeft <= 0)
    && (status == InProgress ==> |history| == 0 || attemptsLeft > 0)
  }

  /** The hint half: at most one in-range position is revealed, exactly when
      the hint flag is set. */
  predicate HintWellFormed(secret: seq<int>, hintUsed: bool, revealed: seq<int>) {
    && |revealed| <= 1
    && (hintUsed <==> |revealed| == 1)
    && (forall k :: 0 <= k < |revealed| ==> 0 <= revealed[k] < |secret|)
  }

  /** The state-machine invariant of one game. */
  predicate GameWellFormed(g: Game) {
    && HistoryWellFormed(g.secret, g.history, g.initialAttempts, g.attemptsLeft, g.status)
    && HintWellFormed(g.secret, g.hintUsed, g.revealed)
  }

  predicate WellFormed(db: DbStore) {
    && StatsWellFormed(db.stats)
    && forall id :: id in db.games ==> GameWellFormed(db.games[id])
  }

  /** Under the invariant, a game is won exactly when some guess in its
      history matched the secret, and lost only with no attempt left. */
  lemma WonIffSomeGuessWins(g: Game)
    requires GameWellFormed(g)
    ensures g.status == Won <==> exists k :: 0 <= k < |g.history| && g.history[k].guess == g.secret && |g.secret| > 0
    ensures g.status == Lost ==> g.attemptsLeft <= 0 && forall k :: 0 <= k < |g.history| ==> g.history[k].guess != g.secret
  {
    var n := |g.history|;
    if g.status == Won {
      assert Hit(g.secret, g.history[n - 1]);
    } else {
      if n > 0 {
        // An entry exists only for a non-empty secret.
        assert EntryScores(g.secret, g.history[0]);
      }
      forall k | 0 <= k < n
        ensures !Hit(g.secret, g.history[k])
      {
        if k == n - 1 {
          assert !Hit(g.secret, g.history[n - 1]);
        }
      }
    }
  }

  // ---------------------------------------------------------------------
  // Creation.
  // ---------------------------------------------------------------------

  /** `create`: a new in-progress game with a full attempt budget, no hint, no
      revealed position and no history; the started counters are bumped. */
  function Create(db: DbStore, id: GameId, secret: seq<int>, attempts: int,
                  difficulty: Difficulty := Medium): (r: (DbStore, Game))
    requires id !in db.games
    ensures var g := r.1;
            && g.secret == secret && g.difficulty == difficulty
            && g.status == InProgress
            && g.attemptsLeft == attempts && g.initialAttempts == attempts
            && !g.hintUsed && g.revealed == [] && g.history == []
    ensures r.0.games == db.games[id := r.1]
    ensures r.0.stats.gamesStarted == db.stats.gamesStarted + 1
    ensures forall e :: StartedFor(r.0.stats, e) == StartedFor(db.stats, e) + (if e == difficulty then 1 else 0)
    ensures SameExceptStarted(r.0.stats, db.stats)
  {
    var g := Game(secret, attempts, attempts, InProgress, difficulty, false, [], []);
    (DbStore(db.games[id := g], RecordStarted(db.stats, difficulty)), g)
  }

  /** The base case of the invariant: a fresh database is well formed. */
  lemma EmptyDbWellFormed()
    ensures WellFormed(EmptyDb)
  {
    ZeroStatsWellFormed();
  }

  lemma CreatePreservesWellFormed(db: DbStore, id: GameId, secret: seq<int>, attempts: int, difficulty: Difficulty)
    requires WellFormed(db) && id !in db.games
    ensures WellFormed(Create(db, id, secret, attempts, difficulty).0)
  {
    RecordStartedPreserves(db.stats, difficulty);
  }

  // ---------------------------------------------------------------------
  // Guessing.
  // ---------------------------------------------------------------------

  datatype GuessOutcome =
    | NotFound             // no game with this id
    | InvalidGuess         // the ValueError: wrong length, or an empty secret
    | Updated(game: Game)  // the game's state after the call

  /** The game after an accepted guess scored with `f`. */
  function Accept(g: Game, attempt: seq<int>, f: Feedback): (g': Game)
    requires ScoreGuess(g.secret, attempt) == Scored(f)
    ensures Advances(g.secret, attempt, g.history, g.attemptsLeft, g'.history, g'.attemptsLeft, g'.status)
    ensures g' == g.(history := g'.history, attemptsLeft := g'.attemptsLeft, status := g'.status)
  {
    var left := g.attemptsLeft - 1;
    var h := g.history + [EntryFor(attempt, f)];
    assert h[..|g.history|] == g.history;
    g.(history := h, attemptsLeft := left, status := StatusAfterGuess(g.secret, attempt, left))
  }

  /** The scoreboard after `g` moved to `g'`: the outcome is recorded when the
      guess made the game terminal, and only then. */
  function StatsAfter(stats: Stats, g': Game): Stats {
    if g'.status.IsTerminal() then
      RecordOutcome(stats, g'.difficulty, g'.status == Won, g'.initialAttempts - g'.attemptsLeft)
    else stats
  }

  /** `guess`: unknown ids give NotFound; a terminal game is returned as it is;
      otherwise a wrong-length guess (or an empty secret) fails before any
      change, and an accepted guess advances the game and, on the terminal
      transition only, records the outcome. */
  function Guess(db: DbStore, id: GameId, attempt: seq<int>): (r: (DbStore, GuessOutcome))
    ensures r.1.NotFound? <==> id !in db.games
    ensures r.1.NotFound? || r.1.InvalidGuess? ==> r.0 == db
    ensures id in db.games && db.games[id].status.IsTerminal() ==> r == (db, Updated(db.games[id]))
    ensures id in db.games && db.games[id].status == InProgress ==>
              (r.1.InvalidGuess? <==> |attempt| != |db.games[id].secret| || |attempt| == 0)
    ensures id in db.games && db.games[id].status == InProgress && r.1.Updated? ==>
              var g, g' := db.games[id], r.1.game;
              && Advances(g.secret, attempt, g.history, g.attemptsLeft, g'.history, g'.attemptsLeft, g'.status)
              && g' == g.(history := g'.history, attemptsLeft := g'.attemptsLeft, status := g'.status)
              && r.0.games == db.games[id := g']
              && r.0.stats == StatsAfter(db.stats, g')
  {
    if id !in db.games then (db, NotFound)
    else
      var g := db.games[id];
      if g.status != InProgress then (db, Updated(g))
      else if |g.secret| != |attempt| then (db, InvalidGuess)
      else match ScoreGuess(g.secret, attempt)
        case InvalidLengths => (db, InvalidGuess)
        case Scored(f) =>
          var g' := Accept(g, attempt, f);
          (DbStore(db.games[id := g'], StatsAfter(db.stats, g')), Updated(g'))
  }

  /** Appending one justified entry keeps every entry justified. */
  lemma ExtendScored(secret: seq<int>, h: seq<GuessEntry>, h': seq<GuessEntry>)
    requires |h'| == |h| + 1 && h'[..|h|] == h
    requires forall k :: 0 <= k < |h| ==> EntryScores(secret, h[k])
    requires EntryScores(secret, h'[|h|])
    ensures forall k :: 0 <= k < |h'| ==> EntryScores(secret, h'[k])
  {
    forall k | 0 <= k < |h|
      ensures EntryScores(secret, h'[k])
    {
      assert h'[k] == h'[..|h|][k];
    }
  }

  /** Appending after a non-winning last entry keeps every entry but the
      last non-winning. */
  lemma ExtendNoEarlyHit(secret: seq<int>, h: seq<GuessEntry>, h': seq<GuessEntry>)
    requires |h'| == |h| + 1 && h'[..|h|] == h
    requires forall k :: 0 <= k < |h| - 1 ==> !Hit(secret, h[k])
    requires |h| > 0 ==> !Hit(secret, h[|h| - 1])
    ensures forall k :: 0 <= k < |h'| - 1 ==> !Hit(secret, h'[k])
  {
    forall k | 0 <= k < |h'| - 1
      ensures !Hit(secret, h'[k])
    {
      assert h'[k] == h'[..|h|][k];
    }
  }

  /** An accepted guess keeps the history half of the invariant. */
  lemma AdvanceKeepsHistory(secret: seq<int>, attempt: seq<int>, initialAttempts: int,
                            h: seq<GuessEntry>, left: int,
                            h': seq<GuessEntry>, left': int, status': Status)
    requires HistoryWellFormed(secret, h, initialAttempts, left, InProgress)
    requires Advances(secret, attempt, h, left, h', left', status')
    ensures HistoryWellFormed(secret, h', initialAttempts, left', status')
  {
    ExtendScored(secret, h, h');
    AdvanceKeepsStatus(secret, attempt, h, left, h', left', status');
  }

  /** The status rule of an accepted guess agrees with the new history: won
      exactly when the new last entry hits, lost only with no attempt left. */
  lemma AdvanceKeepsStatus(secret: seq<int>, attempt: seq<int>,
                           h: seq<GuessEntry>, left: int,
                           h': seq<GuessEntry>, left': int, status': Status)
    requires forall k :: 0 <= k < |h| - 1 ==> !Hit(secret, h[k])
    requires |h| == 0 || !Hit(secret, h[|h| - 1])
    requires |h'| == |h| + 1 && h'[..|h|] == h && h'[|h|].guess == attempt
    requires left' == left - 1 && status' == StatusAfterGuess(secret, attempt, left')
    ensures forall k :: 0 <= k < |h'| - 1 ==> !Hit(secret, h'[k])
    ensures status' == Won <==> |h'| > 0 && Hit(secret, h'[|h'| - 1])
    ensures status' == Lost ==> |h'| > 0 && left' <= 0
    ensures status' == InProgress ==> |h'| == 0 || left' > 0
  {
    ExtendNoEarlyHit(secret, h, h');
    assert Hit(secret, h'[|h|]) <==> IsWin(secret, attempt);
  }

  /** Any transition that advances an in-progress game as an accepted guess
      does keeps the game invariant. */
  lemma AdvancePreservesWellFormed(g: Game, attempt: seq<int>, g': Game)
    requires GameWellFormed(g) && g.status == InProgress
    requires Advances(g.secret, attempt, g.history, g.attemptsLeft, g'.history, g'.attemptsLeft, g'.status)
    requires g' == g.(history := g'.history, attemptsLeft := g'.attemptsLeft, status := g'.status)
    ensures GameWellFormed(g')
  {
    AdvanceKeepsHistory(g.secret, attempt, g.initialAttempts,
                        g.history, g.attemptsLeft, g'.history, g'.attemptsLeft, g'.status);
  }

  lemma StatsAfterPreservesWellFormed(stats: Stats, g': Game)
    requires StatsWellFormed(stats) && GameWellFormed(g')
    ensures StatsWellFormed(StatsAfter(stats, g'))
  {
    if g'.status.IsTerminal() {
      RecordOutcomePreserves(stats, g'.difficulty, g'.status == Won, g'.initialAttempts - g'.attemptsLeft);
    }
  }

  lemma GuessPreservesWellFormed(db: DbStore, id: GameId, attempt: seq<int>)
    requires WellFormed(db)
    ensures WellFormed(Guess(db, id, attempt).0)
  {
    var r := Guess(db, id, attempt);
    if id in db.games && db.games[id].status == InProgress && r.1.Updated? {
      var g, g' := db.games[id], r.1.game;
      AdvancePreservesWellFormed(g, attempt, g');
      StatsAfterPreservesWellFormed(db.stats, g');
      forall other | other in r.0.games
        ensures GameWellFormed(r.0.games[other])
      {
        if other != id {
          assert r.0.games[other] == db.games[other];
        }
      }
    }
  }

  // ---------------------------------------------------------------------
  // Sequences of guesses on one game.
  // ---------------------------------------------------------------------

  /** The store after submitting `attempts` to game `id` one after another;
      rejected guesses leave the store as it was. */
  function GuessRun(db: DbStore, id: GameId, attempts: seq<seq<int>>): (r: DbStore)
    ensures r.games.Keys == db.games.Keys
    decreases |attempts|
  {
    if |attempts| == 0 then db else GuessRun(Guess(db, id, attempts[0]).0, id, attempts[1..])
  }

  /** Idempotence after game over: once terminal, no guess changes anything. */
  lemma {:induction false} TerminalRunUnchanged(db: DbStore, id: GameId, attempts: seq<seq<int>>)
    requires id in db.games && db.games[id].status.IsTerminal()
    ensures GuessRun(db, id, attempts) == db
    decreases |attempts|
  {
    if |attempts| > 0 {
      TerminalRunUnchanged(Guess(db, id, attempts[0]).0, id, attempts[1..]);
    }
  }

  /** The outcome is recorded exactly once: over any run of guesses, the
      number of recorded outcomes grows by one when the game went from in
      progress to terminal, and by zero otherwise; other games are untouched. */
  lemma {:induction false} OutcomeRecordedOnce(db: DbStore, id: GameId, attempts: seq<seq<int>>)
    requires id in db.games
    ensures var db' := GuessRun(db, id, attempts);
            && id in db'.games
            && db'.games - {id} == db.games - {id}
            && db'.stats.gamesWon + db'.stats.gamesLost
               == db.stats.gamesWon + db.stats.gamesLost
                  + (if db.games[id].status == InProgress && db'.games[id].status.IsTerminal() then 1 else 0)
    decreases |attempts|
  {
    if |attempts| > 0 {
      var step := Guess(db, id, attempts[0]).0;
      OutcomeRecordedOnce(step, id, attempts[1..]);
      if step.games[id].status.IsTerminal() {
        TerminalRunUnchanged(step, id, attempts[1..]);
      }
      assert step.games - {id} == db.games - {id};
    }
  }

  /** Spending attempts without winning: after j of the k remaining attempts
      are used on right-length wrong guesses, k - j attempts remain, and the
      game is lost exactly when j == k, with the loss counted once and the
      streak broken. */
  lemma {:induction false} LosingRun(db: DbStore, id: GameId, attempts: seq<seq<int>>)
    requires id in db.games
    requires var g := db.games[id];
             && g.status == InProgress && |g.secret| > 0
             && 1 <= g.attemptsLeft && |attempts| <= g.attemptsLeft
    requires forall i :: 0 <= i < |attempts| ==>
               |attempts[i]| == |db.games[id].secret| && attempts[i] != db.games[id].secret
    ensures var g, g' := db.games[id], GuessRun(db, id, attempts).games[id];
            var stats' := GuessRun(db, id, attempts).stats;
            && g'.attemptsLeft == g.attemptsLeft - |attempts|
            && |g'.history| == |g.history| + |attempts|
            && g'.status == (if |attempts| == g.attemptsLeft then Lost else InProgress)
            && stats'.gamesWon == db.stats.gamesWon
            && stats'.gamesLost == db.stats.gamesLost + (if |attempts| == g.attemptsLeft then 1 else 0)
            && (|attempts| == g.attemptsLeft ==> stats'.currentStreak == 0)
    decreases |attempts|
  {
    if |attempts| > 0 {
      var g := db.games[id];
      var step := Guess(db, id, attempts[0]).0;
      assert !IsWin(g.secret, attempts[0]);
      var g1 := step.games[id];
      if |attempts| == 1 {
        assert attempts[1..] == [];
        assert g1.status == (if g.attemptsLeft == 1 then Lost else InProgress);
      } else {
        assert g1.status == InProgress;
        forall i | 0 <= i < |attempts[1..]|
          ensures |attempts[1..][i]| == |step.games[id].secret| && attempts[1..][i] != step.games[id].secret
        {
          assert attempts[1..][i] == attempts[i + 1];
        }
        LosingRun(step, id, attempts[1..]);
      }
    }
  }

  // ---------------------------------------------------------------------
  // Hints.
  // ---------------------------------------------------------------------

  datatype HintOutcome =
    | HintNotFound
    | HintFinished
    | HintAlreadyUsed
    | HintOk(position: nat, digit: int)

  /** The positions below `n` that are not revealed, in increasing order. */
  function Unrevealed(n: nat, revealed: seq<int>): (c: seq<nat>)
    ensures forall k :: 0 <= k < |c| ==> c[k] < n && c[k] !in revealed
  {
    if n == 0 then []
    else Unrevealed(n - 1, revealed) + (if n - 1 in revealed then [] else [n - 1])
  }

  /** Every unrevealed position below `n` is a candidate. */
  lemma {:induction false} UnrevealedComplete(n: nat, revealed: seq<int>, i: nat)
    requires i < n && i !in revealed
    ensures i in Unrevealed(n, revealed)
  {
    if i < n - 1 {
      UnrevealedComplete(n - 1, revealed, i);
    }
  }

  lemma {:induction false} UnrevealedNone(n: nat)
    ensures |Unrevealed(n, [])| == n
  {
    if n > 0 {
      UnrevealedNone(n - 1);
    }
  }

  /** Revealing one more position removes it from the candidates, if it was
      one, and removes nothing else. */
  lemma {:induction false} UnrevealedAppend(n: nat, revealed: seq<int>, x: int)
    ensures |Unrevealed(n, revealed + [x])|
         == |Unrevealed(n, revealed)| - (if 0 <= x < n && x !in revealed then 1 else 0)
  {
    if n > 0 {
      UnrevealedAppend(n - 1, revealed, x);
      assert (n - 1 in revealed + [x]) <==> (n - 1 in revealed || n - 1 == x);
    }
  }

  /** Pigeonhole: fewer revealed entries than positions leaves a candidate. */
  lemma {:induction false} UnrevealedCount(n: nat, revealed: seq<int>)
    ensures |Unrevealed(n, revealed)| >= n - |revealed|
    decreases |revealed|
  {
    if |revealed| == 0 {
      UnrevealedNone(n);
    } else {
      var m := |revealed| - 1;
      assert revealed == revealed[..m] + [revealed[m]];
      UnrevealedCount(n, revealed[..m]);
      UnrevealedAppend(n, revealed[..m], revealed[m]);
    }
  }

  /** `give_hint`: errors in the order not found, finished, already used
      (flag set, or every position revealed); otherwise reveal one unrevealed
      position. The random draw is the parameter `choice`, which selects
      among the unrevealed positions. */
  function GiveHint(db: DbStore, id: GameId, choice: nat): (r: (DbStore, HintOutcome))
    ensures r.1.HintNotFound? <==> id !in db.games
    ensures r.1.HintFinished? <==> id in db.games && db.games[id].status.IsTerminal()
    ensures id !in db.games ==> r == (db, HintNotFound)
    ensures id in db.games && db.games[id].status.IsTerminal() ==> r == (db, HintFinished)
    ensures (id in db.games && db.games[id].status == InProgress && !db.games[id].hintUsed
             && |db.games[id].revealed| < |db.games[id].secret|) ==> r.1.HintOk?
    ensures id in db.games && db.games[id].status == InProgress ==>
              (r.1.HintAlreadyUsed? <==> db.games[id].hintUsed || |db.games[id].revealed| >= |db.games[id].secret|)
    ensures !r.1.HintOk? ==> r.0 == db
    ensures r.1.HintOk? ==>
              && id in db.games
              && var g := db.games[id];
              var p := r.1.position;
              && g.status == InProgress && !g.hintUsed
              && p < |g.secret| && p !in g.revealed
              && r.1.digit == g.secret[p]
              && r.0.stats == db.stats
              && r.0.games == db.games[id := g.(hintUsed := true, revealed := g.revealed + [p])]
  {
    if id !in db.games then (db, HintNotFound)
    else
      var g := db.games[id];
      if g.status != InProgress then (db, HintFinished)
      else if g.hintUsed then (db, HintAlreadyUsed)
      else if |g.revealed| >= |g.secret| then (db, HintAlreadyUsed)
      else
        var candidates := Unrevealed(|g.secret|, g.revealed);
        UnrevealedCount(|g.secret|, g.revealed);
        var idx := candidates[choice % |candidates|];
        var g' := g.(hintUsed := true, revealed := g.revealed + [idx]);
        (db.(games := db.games[id := g']), HintOk(idx, g.secret[idx]))
  }

  /** Every unrevealed position is a possible hint: some draw selects it. */
  lemma HintCanRevealAnyUnrevealed(db: DbStore, id: GameId, p: nat)
    requires id in db.games
    requires var g := db.games[id];
             g.status == InProgress && !g.hintUsed && |g.revealed| < |g.secret|
    requires p < |db.games[id].secret| && p !in db.games[id].revealed
    ensures exists choice: nat :: GiveHint(db, id, choice).1 == HintOk(p, db.games[id].secret[p])
  {
    var g := db.games[id];
    var candidates := Unrevealed(|g.secret|, g.revealed);
    UnrevealedComplete(|g.secret|, g.revealed, p);
    var k :| 0 <= k < |candidates| && candidates[k] == p;
    assert k % |candidates| == k;
    assert GiveHint(db, id, k).1 == HintOk(p, g.secret[p]);
  }

  /** Under the invariant the rejection loop of the source never redraws:
      while the hint flag is clear nothing is revealed, so the first index
      drawn, whatever it is, is unrevealed. */
  lemma FirstDrawSucceeds(db: DbStore, id: GameId, idx: nat)
    requires WellFormed(db) && id in db.games
    requires db.games[id].status == InProgress && !db.games[id].hintUsed
    requires idx < |db.games[id].secret|
    ensures idx !in db.games[id].revealed
    ensures idx in Unrevealed(|db.games[id].secret|, db.games[id].revealed)
  {
    var g := db.games[id];
    assert HintWellFormed(g.secret, g.hintUsed, g.revealed);
    assert g.revealed == [];
    UnrevealedComplete(|g.secret|, g.revealed, idx);
  }

  /** The hint is granted at most once per game. */
  lemma HintOnlyOnce(db: DbStore, id: GameId, choice: nat, choice': nat)
    requires GiveHint(db, id, choice).1.HintOk?
    ensures GiveHint(GiveHint(db, id, choice).0, id, choice').1 == HintAlreadyUsed
  {
  }

  lemma GiveHintPreservesWellFormed(db: DbStore, id: GameId, choice: nat)
    requires WellFormed(db)
    ensures WellFormed(GiveHint(db, id, choice).0)
  {
    var (db', outcome) := GiveHint(db, id, choice);
    if outcome.HintOk? {
      var g, p := db.games[id], outcome.position;
      var g' := g.(hintUsed := true, revealed := g.revealed + [p]);
      assert g.revealed == [];
      assert g'.revealed == [p];
      assert GameWellFormed(g');
      forall other | other in db'.games
        ensures GameWellFormed(db'.games[other])
      {
        if other != id {
          assert db'.games[other] == db.games[other];
        }
      }
    }
  }

  // ---------------------------------------------------------------------
  // Reads and the scoreboard reset.
  // ---------------------------------------------------------------------

  /** `get`: the game with this id, if any. */
  function Get(db: DbStore, id: GameId): (r: Option<Game>)
    ensures r.Some? <==> id in db.games
    ensures r.Some? ==> r.value == db.games[id]
  {
    if id in db.games then Some(db.games[id]) else None
  }

  /** `get_secret`: the secret is disclosed only for a finished game. */
  function GetSecret(db: DbStore, id: GameId): (r: Option<seq<int>>)
    ensures r.Some? <==> id in db.games && db.games[id].status.IsTerminal()
    ensures r.Some? ==> r.value == db.games[id].secret
  {
    if id !in db.games then None
    else
      var g := db.games[id];
      if g.status == Won || g.status == Lost then Some(g.secret) else None
  }

  /** `get_stats`: a snapshot of the scoreboard, with the average present only
      after a win. */
  function GetStats(db: DbStore): (r: StatsOut)
    ensures r.counters == db.stats
    ensures r.averageGuessesToWin.Some? <==> db.stats.gamesWon > 0
  {
    Snapshot(db.stats)
  }

  /** `reset_stats`: every counter back to zero, no fastest win; games are
      not touched. */
  function ResetStats(db: DbStore): (r: DbStore)
    ensures r.games == db.games
    ensures r.stats.gamesStarted == 0 && r.stats.gamesWon == 0 && r.stats.gamesLost == 0
    ensures r.stats.currentStreak == 0 && r.stats.bestStreak == 0
    ensures r.stats.totalGuessesInWins == 0 && r.stats.fastestWinAttempts.None?
    ensures forall d :: StartedFor(r.stats, d) == 0 && WonFor(r.stats, d) == 0
  {
    db.(stats := ZeroStats)
  }

  lemma ResetPreservesWellFormed(db: DbStore)
    requires WellFormed(db)
    ensures WellFormed(ResetStats(db))
  {
  }
}
