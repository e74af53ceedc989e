/** The persistent and in-memory stores side by side. A persistent game is
    seen as an in-memory one by forgetting the fields the in-memory record
    lacks; under that view the two guess transitions agree, except that a
    wrong-length guess is an error in one and ignored in the other, and a
    repeated guess is recorded by one and ignored by the other. */
module Variants {
  import opened Types
  import opened Engine
  import opened History
  import Repository
  import Store

  /** The in-memory view of a persistent game. */
  function ToMem(g: Repository.Game): (m: Store.MemGame)
    ensures m.secret == g.secret && m.attemptsLeft == g.attemptsLeft
    ensures m.status == g.status && m.history == g.history
  {
    Store.MemGame(g.secret, g.attemptsLeft, g.status, g.history)
  }

  /** Both stores hold the same games under the same ids. */
  predicate Corresponds(db: Repository.DbStore, store: Store.GameStore) {
    && db.games.Keys == store.games.Keys
    && forall id :: id in db.games ==> store.games[id] == ToMem(db.games[id])
  }

  /** First difference: on a wrong-length guess the persistent store fails,
      the in-memory store returns the game unchanged; neither mutates. */
  lemma WrongLengthDiffers(db: Repository.DbStore, store: Store.GameStore, id: string, attempt: seq<int>)
    requires Corresponds(db, store) && id in db.games
    requires db.games[id].status == InProgress && |attempt| != |db.games[id].secret|
    ensures Repository.Guess(db, id, attempt) == (db, Repository.InvalidGuess)
    ensures Store.Guess(store, id, attempt) == (store, Store.Returned(ToMem(db.games[id])))
  {
  }

  /** Second difference: repeating the last guess spends an attempt in the
      persistent store and nothing in the in-memory store. */
  lemma RepeatedGuessDiffers(db: Repository.DbStore, store: Store.GameStore, id: string, attempt: seq<int>)
    requires Corresponds(db, store) && id in db.games
    requires var g := db.games[id];
             g.status == InProgress && |attempt| == |g.secret| > 0 && Store.RepeatsLast(ToMem(g), attempt)
    ensures var r := Repository.Guess(db, id, attempt);
            && r.1.Updated?
            && |r.1.game.history| == |db.games[id].history| + 1
            && r.1.game.attemptsLeft == db.games[id].attemptsLeft - 1
    ensures Store.Guess(store, id, attempt) == (store, Store.Returned(store.games[id]))
  {
  }

  /** Apart from those two cases the variants agree: the same outcome, and
      stores that still hold the same games. */
  lemma VariantsAgreeOtherwise(db: Repository.DbStore, store: Store.GameStore, id: string, attempt: seq<int>)
    requires Corresponds(db, store)
    requires id in db.games && db.games[id].status == InProgress ==>
               |attempt| == |db.games[id].secret| && !Store.RepeatsLast(ToMem(db.games[id]), attempt)
    ensures var (db', rd) := Repository.Guess(db, id, attempt);
            var (store', rs) := Store.Guess(store, id, attempt);
            && Corresponds(db', store')
            && (rd.NotFound? <==> rs.Missing?)
            && (rd.InvalidGuess? <==> rs.Failed?)
            && (rd.Updated? ==> rs == Store.Returned(ToMem(rd.game)))
  {
    var (db', rd) := Repository.Guess(db, id, attempt);
    var (store', rs) := Store.Guess(store, id, attempt);
    if id in db.games && db.games[id].status == InProgress && rd.Updated? {
      var g, g' := db.games[id], rd.game;
      var m' := rs.game;
      assert m'.history == g'.history && m'.attemptsLeft == g'.attemptsLeft && m'.status == g'.status;
      forall other | other in db'.games
        ensures store'.games[other] == ToMem(db'.games[other])
      {
        if other != id {
          assert db'.games[other] == db.games[other];
        }
      }
    }
  }
}
