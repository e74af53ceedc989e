/** The scoreboard: one record of counters shared by all games. It is bumped
    once when a game is created and once when a game reaches a terminal
    status, read as a snapshot, and reset to zero on request. */
module Scoreboard {
  import opened Types

  datatype Stats = Stats(
    gamesStarted: int,
    gamesWon: int,
    gamesLost: int,
    currentStreak: int,
    bestStreak: int,
    totalGuessesInWins: int,
    fastestWinAttempts: Option<int>,
    easyStarted: int,
    mediumStarted: int,
    hardStarted: int,
    easyWon: int,
    mediumWon: int,
    hardWon: int)

  /** Every counter zero and no fastest win: the record's column defaults, the
      state it is lazily created in, and the state a reset leaves. */
  const ZeroStats := Stats(0, 0, 0, 0, 0, 0, None, 0, 0, 0, 0, 0, 0)

  function StartedFor(s: Stats, d: Difficulty): int {
    match d
    case Easy => s.easyStarted
    case Medium => s.mediumStarted
    case Hard => s.hardStarted
  }

  function WonFor(s: Stats, d: Difficulty): int {
    match d
    case Easy => s.easyWon
    case Medium => s.mediumWon
    case Hard => s.hardWon
  }

  /** The counters agree on everything except the "started" ones. */
  predicate SameExceptStarted(a: Stats, b: Stats) {
    a.(gamesStarted := 0, easyStarted := 0, mediumStarted := 0, hardStarted := 0)
      == b.(gamesStarted := 0, easyStarted := 0, mediumStarted := 0, hardStarted := 0)
  }

  /** The counters agree on everything a win does not touch. */
  predicate SameExceptWinCounters(a: Stats, b: Stats) {
    a.(gamesWon := 0, easyWon := 0, mediumWon := 0, hardWon := 0, currentStreak := 0,
       bestStreak := 0, totalGuessesInWins := 0, fastestWinAttempts := None)
      == b.(gamesWon := 0, easyWon := 0, mediumWon := 0, hardWon := 0, currentStreak := 0,
            bestStreak := 0, totalGuessesInWins := 0, fastestWinAttempts := None)
  }

  /** Consistency of the counters: sums of the per-difficulty counters, streak
      ordering, and a fastest win that exists exactly when there was a win and
      is no slower than the average. */
  predicate StatsWellFormed(s: Stats) {
    && 0 <= s.gamesLost
    && 0 <= s.easyStarted && 0 <= s.mediumStarted && 0 <= s.hardStarted
    && 0 <= s.easyWon && 0 <= s.mediumWon && 0 <= s.hardWon
    && s.gamesStarted == s.easyStarted + s.mediumStarted + s.hardStarted
    && s.gamesWon == s.easyWon + s.mediumWon + s.hardWon
    && 0 <= s.currentStreak <= s.bestStreak <= s.gamesWon
    && s.gamesWon <= s.totalGuessesInWins
    && (s.fastestWinAttempts.Some? <==> s.gamesWon > 0)
    && (s.fastestWinAttempts.Some? ==>
          1 <= s.fastestWinAttempts.value
          && s.fastestWinAttempts.value * s.gamesWon <= s.totalGuessesInWins)
  }

  /** Creation of a game: `games_started` and exactly one per-difficulty
      started counter go up by one; nothing else changes. */
  function RecordStarted(s: Stats, d: Difficulty): (r: Stats)
    ensures r.gamesStarted == s.gamesStarted + 1
    ensures forall e :: StartedFor(r, e) == StartedFor(s, e) + (if e == d then 1 else 0)
    ensures SameExceptStarted(r, s)
  {
    var s' := s.(gamesStarted := s.gamesStarted + 1);
    match d
    case Easy => s'.(easyStarted := s.easyStarted + 1)
    case Hard => s'.(hardStarted := s.hardStarted + 1)
    case Medium => s'.(mediumStarted := s.mediumStarted + 1)
  }

  /** `_update_stats_on_end`: the outcome of a game that just became terminal.
      A win counts the win, extends the streak, adds the guesses used and may
      lower the fastest win; a loss counts the loss and breaks the streak. */
  function RecordOutcome(s: Stats, d: Difficulty, won: bool, guessesUsed: int): (r: Stats)
    ensures won ==> r.gamesWon == s.gamesWon + 1 && r.gamesLost == s.gamesLost
    ensures won ==> forall e :: WonFor(r, e) == WonFor(s, e) + (if e == d then 1 else 0)
    ensures won ==> r.currentStreak == s.currentStreak + 1
    ensures won ==> r.bestStreak == Max(s.bestStreak, r.currentStreak)
    ensures won ==> r.totalGuessesInWins == s.totalGuessesInWins + guessesUsed
    ensures won ==> && r.fastestWinAttempts.Some?
                    && r.fastestWinAttempts.value <= guessesUsed
                    && (s.fastestWinAttempts.Some? ==> r.fastestWinAttempts.value <= s.fastestWinAttempts.value)
                    && (r.fastestWinAttempts.value == guessesUsed || r.fastestWinAttempts == s.fastestWinAttempts)
    ensures won ==> SameExceptWinCounters(r, s)
    ensures !won ==> r.gamesLost == s.gamesLost + 1 && r.currentStreak == 0
    ensures !won ==> r.(gamesLost := 0, currentStreak := 0) == s.(gamesLost := 0, currentStreak := 0)
    ensures 0 <= s.currentStreak <= s.bestStreak ==> 0 <= r.currentStreak <= r.bestStreak
  {
    if won then
      var streak := s.currentStreak + 1;
      var s1 := s.(gamesWon := s.gamesWon + 1);
      var s2 := match d
        case Easy => s1.(easyWon := s.easyWon + 1)
        case Hard => s1.(hardWon := s.hardWon + 1)
        case Medium => s1.(mediumWon := s.mediumWon + 1);
      var best := if streak > s.bestStreak then streak else s.bestStreak;
      var fastest :=
        if s.fastestWinAttempts.None? || guessesUsed < s.fastestWinAttempts.value then guessesUsed
        else s.fastestWinAttempts.value;
      s2.(currentStreak := streak, bestStreak := best,
          totalGuessesInWins := s.totalGuessesInWins + guessesUsed,
          fastestWinAttempts := Some(fastest))
    else
      s.(gamesLost := s.gamesLost + 1, currentStreak := 0)
  }

  /** A ratio kept as its two integers, in place of the float average. */
  datatype Ratio = Ratio(numerator: int, denominator: int)

  /** `get_stats`: every counter, plus the average guesses per win when at
      least one game was won. */
  datatype StatsOut = StatsOut(counters: Stats, averageGuessesToWin: Option<Ratio>)

  function Snapshot(s: Stats): (r: StatsOut)
    ensures r.counters == s
    ensures r.averageGuessesToWin.Some? <==> s.gamesWon > 0
    ensures r.averageGuessesToWin.Some? ==>
              r.averageGuessesToWin.value == Ratio(s.totalGuessesInWins, s.gamesWon)
  {
    StatsOut(s, if s.gamesWon > 0 then Some(Ratio(s.totalGuessesInWins, s.gamesWon)) else None)
  }

  // ---------------------------------------------------------------------
  // The scoreboard invariant.
  // ---------------------------------------------------------------------

  lemma ZeroStatsWellFormed()
    ensures StatsWellFormed(ZeroStats)
  {
  }

  lemma RecordStartedPreserves(s: Stats, d: Difficulty)
    requires StatsWellFormed(s)
    ensures StatsWellFormed(RecordStarted(s, d))
  {
    assert StartedFor(RecordStarted(s, d), Easy) == StartedFor(s, Easy) + (if d == Easy then 1 else 0);
  }

  lemma MulMonotone(a: int, b: int, c: int)
    requires a <= b && 0 <= c
    ensures a * c <= b * c
  {
  }

  /** A terminal transition keeps the counters consistent, provided the won
      game used at least one guess. */
  lemma RecordOutcomePreserves(s: Stats, d: Difficulty, won: bool, guessesUsed: int)
    requires StatsWellFormed(s)
    requires won ==> 1 <= guessesUsed
    ensures StatsWellFormed(RecordOutcome(s, d, won, guessesUsed))
  {
    var r := RecordOutcome(s, d, won, guessesUsed);
    if won {
      WinKeepsFastestBound(s, r, guessesUsed);
      assert WonFor(r, Easy) == WonFor(s, Easy) + (if d == Easy then 1 else 0);
      assert WonFor(r, Medium) == WonFor(s, Medium) + (if d == Medium then 1 else 0);
      assert WonFor(r, Hard) == WonFor(s, Hard) + (if d == Hard then 1 else 0);
    }
  }

  /** The fastest-win bound after one more win: the new minimum times the new
      win count stays within the new total. */
  lemma WinKeepsFastestBound(s: Stats, r: Stats, guessesUsed: int)
    requires StatsWellFormed(s) && 1 <= guessesUsed
    requires r.gamesWon == s.gamesWon + 1
    requires r.totalGuessesInWins == s.totalGuessesInWins + guessesUsed
    requires r.fastestWinAttempts.Some? && r.fastestWinAttempts.value <= guessesUsed
    requires s.fastestWinAttempts.Some? ==> r.fastestWinAttempts.value <= s.fastestWinAttempts.value
    requires r.fastestWinAttempts.value == guessesUsed || r.fastestWinAttempts == s.fastestWinAttempts
    ensures 1 <= r.fastestWinAttempts.value
    ensures r.fastestWinAttempts.value * r.gamesWon <= r.totalGuessesInWins
  {
    var f := r.fastestWinAttempts.value;
    assert 1 <= f;
    if s.fastestWinAttempts.Some? {
      MulMonotone(f, s.fastestWinAttempts.value, s.gamesWon);
    } else {
      assert s.gamesWon == 0;
    }
    assert f * r.gamesWon == f * s.gamesWon + f;
  }

  /** When a win has been recorded, the average guesses per win is at least
      one and at least the fastest win. */
  lemma AverageAtLeastFastest(s: Stats)
    requires StatsWellFormed(s)
    requires s.gamesWon > 0
    ensures var avg := Snapshot(s).averageGuessesToWin.value;
            && 0 < avg.denominator <= avg.numerator
            && s.fastestWinAttempts.value * avg.denominator <= avg.numerator
  {
  }
}
