/**
 * The two tables the admin pages write and the feed reads, held in memory: `games` and
 * `game_updates`, each a sequence of rows in insertion order, with the store-assigned
 * AUTO_INCREMENT counters. Each SQL statement the core issues is a method of Database whose
 * contract ties the new tables to a function of the old ones. Times are integer seconds.
 */
module Tables {
  import opened Strings

  datatype Game = Game(id: nat, title: string, homeTeam: string, awayTeam: string,
                       scoreHome: int, scoreAway: int,
                       homeLineup: Option<string>, awayLineup: Option<string>,
                       isLive: bool, updatedAt: int)

  datatype Update = Update(id: nat, gameId: nat, kind: string,
                           content: Option<string>, url: Option<string>, createdAt: int)

  /** The columns the save action writes. */
  datatype GameFields = GameFields(title: string, homeTeam: string, awayTeam: string,
                                   scoreHome: int, scoreAway: int,
                                   homeLineup: string, awayLineup: string)

  /** Which statement of an action throws, counting from 0, and the exception's message. */
  datatype DbFault = NoFault | FailsAt(step: nat, message: string)

  predicate Throws(fault: DbFault, step: nat)
  {
    fault.FailsAt? && fault.step == step
  }

  const ValidTypes: seq<string> := ["html", "nhl_goal", "youtube"]

  /** The shape the admin pages give every row they insert: a known type, and exactly one of
      content and url present, chosen by the type. */
  predicate WellShaped(u: Update)
  {
    u.kind in ValidTypes && (u.content.Some? <==> u.kind == "html") && (u.url.Some? <==> u.kind != "html")
  }

  predicate GameIdsUnique(games: seq<Game>)
  {
    forall i, j :: 0 <= i < j < |games| ==> games[i].id != games[j].id
  }

  predicate UpdateIdsUnique(updates: seq<Update>)
  {
    forall i, j :: 0 <= i < j < |updates| ==> updates[i].id != updates[j].id
  }

  predicate AtMostOneLive(games: seq<Game>)
  {
    forall i, j :: 0 <= i < j < |games| ==> !(games[i].isLive && games[j].isLive)
  }

  /** Rows in created_at order, as the inserts keep them when the clock does not go back. */
  predicate Chronological(updates: seq<Update>)
  {
    forall i, j :: 0 <= i < j < |updates| ==> updates[i].createdAt <= updates[j].createdAt
  }

  // ---------------------------------------------------------------------------
  // Queries

  /** SELECT * FROM games WHERE id = ?, with the id compared as a number, the way MySQL
      compares an integer column with a numeric parameter. */
  function FindGame(games: seq<Game>, id: real): (r: Option<Game>)
    ensures r.Some? ==> r.value in games && r.value.id as real == id
    ensures r.None? <==> forall i :: 0 <= i < |games| ==> games[i].id as real != id
  {
    if games == [] then None
    else if games[0].id as real == id then Some(games[0])
    else FindGame(games[1..], id)
  }

  /** With unique ids the row found is the one that has the id. */
  lemma {:induction false} FindGameFindsRow(games: seq<Game>, k: nat)
    requires GameIdsUnique(games) && k < |games|
    ensures FindGame(games, games[k].id as real) == Some(games[k])
  {
    if k > 0 {
      assert games[0].id != games[k].id;
      FindGameFindsRow(games[1..], k - 1);
    }
  }

  /** SELECT * FROM games WHERE is_live = 1 LIMIT 1: the first live row in table order. */
  function LiveGame(games: seq<Game>): (r: Option<Game>)
    ensures r.Some? ==> r.value in games && r.value.isLive
    ensures r.None? <==> forall i :: 0 <= i < |games| ==> !games[i].isLive
  {
    if games == [] then None
    else if games[0].isLive then Some(games[0])
    else LiveGame(games[1..])
  }

  /** When at most one game is live, LIMIT 1 has no choice to make: the query returns that
      game. */
  lemma {:induction false} LiveGameIsTheLiveOne(games: seq<Game>, k: nat)
    requires AtMostOneLive(games) && k < |games| && games[k].isLive
    ensures LiveGame(games) == Some(games[k])
  {
    if k > 0 {
      assert games[k].isLive && !games[0].isLive;
      LiveGameIsTheLiveOne(games[1..], k - 1);
    }
  }

  /** SELECT * FROM game_updates WHERE game_id = ?, in table order. */
  function UpdatesOf(updates: seq<Update>, gameId: nat): (r: seq<Update>)
    ensures |r| <= |updates|
    ensures forall i :: 0 <= i < |r| ==> r[i].gameId == gameId && r[i] in updates
  {
    if updates == [] then []
    else
      var rest := UpdatesOf(updates[..|updates| - 1], gameId);
      var last := updates[|updates| - 1];
      if last.gameId == gameId then rest + [last] else rest
  }

  /** The selection keeps every row of the game and no other. */
  lemma {:induction false} UpdatesOfComplete(updates: seq<Update>, gameId: nat, u: Update)
    ensures u in UpdatesOf(updates, gameId) <==> u in updates && u.gameId == gameId
  {
    if updates != [] {
      var init := updates[..|updates| - 1];
      UpdatesOfComplete(init, gameId, u);
      assert updates == init + [updates[|updates| - 1]];
    }
  }

  /** A game's rows of a chronological table are chronological: the selection in table order
      is the selection ORDER BY created_at ASC. */
  lemma {:induction false} UpdatesOfChronological(updates: seq<Update>, gameId: nat)
    requires Chronological(updates)
    ensures Chronological(UpdatesOf(updates, gameId))
  {
    if updates != [] {
      var init := updates[..|updates| - 1];
      var last := updates[|updates| - 1];
      UpdatesOfChronological(init, gameId);
      var rest := UpdatesOf(init, gameId);
      if last.gameId == gameId {
        forall i | 0 <= i < |rest|
          ensures rest[i].createdAt <= last.createdAt
        {
          UpdatesOfComplete(init, gameId, rest[i]);
          var k :| 0 <= k < |init| && init[k] == rest[i];
        }
      }
    }
  }

  /** SELECT * FROM game_updates WHERE id = ? AND game_id = ?, with the id compared as a
      number the way MySQL compares an integer column with a numeric string. */
  function FindUpdate(updates: seq<Update>, id: real, gameId: nat): (r: Option<Update>)
    ensures r.Some? ==> r.value in updates && r.value.id as real == id && r.value.gameId == gameId
    ensures r.None? <==> forall i :: 0 <= i < |updates| ==> !(updates[i].id as real == id && updates[i].gameId == gameId)
  {
    if updates == [] then None
    else if updates[0].id as real == id && updates[0].gameId == gameId then Some(updates[0])
    else FindUpdate(updates[1..], id, gameId)
  }

  // ---------------------------------------------------------------------------
  // Statements, as functions of the table

  /** UPDATE games SET is_live = 0 WHERE is_live = 1. */
  function ClearedLive(games: seq<Game>): (r: seq<Game>)
    ensures |r| == |games| && forall i :: 0 <= i < |games| ==> r[i] == games[i].(isLive := false)
  {
    seq(|games|, i requires 0 <= i < |games| => games[i].(isLive := false))
  }

  /** UPDATE games SET is_live = 1, updated_at = NOW() WHERE id = ?. */
  function MarkedLive(games: seq<Game>, id: nat, now: int): (r: seq<Game>)
    ensures |r| == |games|
    ensures forall i :: 0 <= i < |games| ==>
      r[i] == if games[i].id == id then games[i].(isLive := true, updatedAt := now) else games[i]
  {
    seq(|games|, i requires 0 <= i < |games| =>
      if games[i].id == id then games[i].(isLive := true, updatedAt := now) else games[i])
  }

  /** UPDATE games SET is_live = 0, updated_at = NOW() WHERE id = ?. */
  function UnmarkedLive(games: seq<Game>, id: nat, now: int): (r: seq<Game>)
    ensures |r| == |games|
    ensures forall i :: 0 <= i < |games| ==>
      r[i] == if games[i].id == id then games[i].(isLive := false, updatedAt := now) else games[i]
  {
    seq(|games|, i requires 0 <= i < |games| =>
      if games[i].id == id then games[i].(isLive := false, updatedAt := now) else games[i])
  }

  /** The row after the save action's UPDATE. */
  function WithFields(g: Game, f: GameFields, now: int): Game
  {
    g.(title := f.title, homeTeam := f.homeTeam, awayTeam := f.awayTeam,
       scoreHome := f.scoreHome, scoreAway := f.scoreAway,
       homeLineup := Some(f.homeLineup), awayLineup := Some(f.awayLineup), updatedAt := now)
  }

  /** UPDATE games SET title = ?, ..., updated_at = NOW() WHERE id = ?. */
  function Edited(games: seq<Game>, id: nat, f: GameFields, now: int): (r: seq<Game>)
    ensures |r| == |games|
    ensures forall i :: 0 <= i < |games| ==>
      r[i] == if games[i].id == id then WithFields(games[i], f, now) else games[i]
  {
    seq(|games|, i requires 0 <= i < |games| =>
      if games[i].id == id then WithFields(games[i], f, now) else games[i])
  }

  /** DELETE FROM game_updates WHERE id = ?: every row whose id equals the number is removed. */
  function WithoutUpdate(updates: seq<Update>, id: real): (r: seq<Update>)
    ensures |r| <= |updates|
    ensures forall u :: u in r <==> u in updates && u.id as real != id
  {
    if updates == [] then []
    else
      var rest := WithoutUpdate(updates[..|updates| - 1], id);
      var last := updates[|updates| - 1];
      assert updates == updates[..|updates| - 1] + [last];
      if last.id as real == id then rest else rest + [last]
  }

  /** The number of rows the DELETE reports. */
  function CountWithId(updates: seq<Update>, id: real): (n: nat)
    ensures n == |updates| - |WithoutUpdate(updates, id)|
  {
    if updates == [] then 0
    else CountWithId(updates[..|updates| - 1], id) + if updates[|updates| - 1].id as real == id then 1 else 0
  }

  /** A row that has the id is deleted, so the DELETE reports at least one row. */
  lemma {:induction false} CountWithIdPositive(updates: seq<Update>, id: real, k: nat)
    requires k < |updates| && updates[k].id as real == id
    ensures CountWithId(updates, id) >= 1
  {
    if k < |updates| - 1 {
      CountWithIdPositive(updates[..|updates| - 1], id, k);
    }
  }

  /** No row has the id: the DELETE reports no row. */
  lemma {:induction false} CountWithIdZero(updates: seq<Update>, id: real)
    requires forall i :: 0 <= i < |updates| ==> updates[i].id as real != id
    ensures CountWithId(updates, id) == 0
  {
    if updates != [] {
      CountWithIdZero(updates[..|updates| - 1], id);
    }
  }

  /** With unique ids, deleting an existing row's id removes that row and no other. */
  lemma {:induction false} DeleteRemovesOneRow(updates: seq<Update>, k: nat)
    requires UpdateIdsUnique(updates) && k < |updates|
    ensures CountWithId(updates, updates[k].id as real) == 1
  {
    var init := updates[..|updates| - 1];
    var id := updates[k].id as real;
    if k == |updates| - 1 {
      CountWithIdZero(init, id);
    } else {
      assert updates[k] == init[k];
      DeleteRemovesOneRow(init, k);
    }
  }

  // ---------------------------------------------------------------------------
  // Properties of the statements

  /** The set_live transition: after clearing every flag and marking one existing game, that
      game is live, every other game is not, and the feed's live-game query returns it. */
  lemma SetLiveLeavesExactlyOne(games: seq<Game>, k: nat, now: int)
    requires GameIdsUnique(games) && k < |games|
    ensures var after := MarkedLive(ClearedLive(games), games[k].id, now);
      (forall i :: 0 <= i < |after| ==> (after[i].isLive <==> i == k)) &&
      AtMostOneLive(after) &&
      LiveGame(after) == Some(games[k].(isLive := true, updatedAt := now))
  {
    var after := MarkedLive(ClearedLive(games), games[k].id, now);
    assert forall i :: 0 <= i < |after| ==> (after[i].isLive <==> i == k);
    LiveGameIsTheLiveOne(after, k);
  }

  /** Clearing one game's flag never makes a second game live. */
  lemma UnmarkKeepsAtMostOne(games: seq<Game>, id: nat, now: int)
    requires AtMostOneLive(games)
    ensures AtMostOneLive(UnmarkedLive(games, id, now))
  {
  }

  /** Each id-keyed UPDATE keeps the ids, so ids stay unique. */
  lemma EditsKeepIds(games: seq<Game>, id: nat, f: GameFields, now: int)
    requires GameIdsUnique(games)
    ensures GameIdsUnique(ClearedLive(games)) && GameIdsUnique(MarkedLive(games, id, now))
    ensures GameIdsUnique(UnmarkedLive(games, id, now)) && GameIdsUnique(Edited(games, id, f, now))
  {
  }

  /** The save action's UPDATE leaves every live flag as it was. */
  lemma EditKeepsFlags(games: seq<Game>, id: nat, f: GameFields, now: int)
    ensures forall i :: 0 <= i < |games| ==> Edited(games, id, f, now)[i].isLive == games[i].isLive
  {
  }

  /** The delete removes exactly the rows with that id and keeps the others in their order. */
  lemma {:induction false} WithoutUpdateKeepsOrder(updates: seq<Update>, id: real)
    requires Chronological(updates)
    ensures Chronological(WithoutUpdate(updates, id))
  {
    if updates != [] {
      var init := updates[..|updates| - 1];
      var last := updates[|updates| - 1];
      WithoutUpdateKeepsOrder(init, id);
      var rest := WithoutUpdate(init, id);
      if last.id as real != id {
        forall i | 0 <= i < |rest|
          ensures rest[i].createdAt <= last.createdAt
        {
          assert rest[i] in init;
          var k :| 0 <= k < |init| && init[k] == rest[i];
        }
      }
    }
  }

  // ---------------------------------------------------------------------------
  // The database

  class Database {
    var games: seq<Game>
    var updates: seq<Update>
    /** The next AUTO_INCREMENT value of each table. */
    var nextGameId: nat
    var nextUpdateId: nat

    ghost predicate Valid()
      reads this
    {
      GameIdsUnique(games) && UpdateIdsUnique(updates) &&
      (forall i :: 0 <= i < |games| ==> games[i].id < nextGameId) &&
      (forall i :: 0 <= i < |updates| ==> updates[i].id < nextUpdateId)
    }

    constructor (games0: seq<Game>, updates0: seq<Update>, nextGame: nat, nextUpdate: nat)
      requires GameIdsUnique(games0) && UpdateIdsUnique(updates0)
      requires forall i :: 0 <= i < |games0| ==> games0[i].id < nextGame
      requires forall i :: 0 <= i < |updates0| ==> updates0[i].id < nextUpdate
      ensures Valid()
      ensures games == games0 && updates == updates0 && nextGameId == nextGame && nextUpdateId == nextUpdate
    {
      games, updates := games0, updates0;
      nextGameId, nextUpdateId := nextGame, nextUpdate;
    }

    method ClearLive()
      requires Valid()
      modifies this
      ensures Valid()
      ensures games == ClearedLive(old(games)) && updates == old(updates)
      ensures nextGameId == old(nextGameId) && nextUpdateId == old(nextUpdateId)
    {
      EditsKeepIds(games, 0, GameFields("", "", "", 0, 0, "", ""), 0);
      games := ClearedLive(games);
    }

    method MarkLive(id: nat, now: int)
      requires Valid()
      modifies this
      ensures Valid()
      ensures games == MarkedLive(old(games), id, now) && updates == old(updates)
      ensures nextGameId == old(nextGameId) && nextUpdateId == old(nextUpdateId)
    {
      EditsKeepIds(games, id, GameFields("", "", "", 0, 0, "", ""), now);
      games := MarkedLive(games, id, now);
    }

    method UnmarkLive(id: nat, now: int)
      requires Valid()
      modifies this
      ensures Valid()
      ensures games == UnmarkedLive(old(games), id, now) && updates == old(updates)
      ensures nextGameId == old(nextGameId) && nextUpdateId == old(nextUpdateId)
    {
      EditsKeepIds(games, id, GameFields("", "", "", 0, 0, "", ""), now);
      games := UnmarkedLive(games, id, now);
    }

    method EditGame(id: nat, f: GameFields, now: int)
      requires Valid()
      modifies this
      ensures Valid()
      ensures games == Edited(old(games), id, f, now) && updates == old(updates)
      ensures nextGameId == old(nextGameId) && nextUpdateId == old(nextUpdateId)
    {
      EditsKeepIds(games, id, f, now);
      games := Edited(games, id, f, now);
    }

    /** The transaction's rollback: the games table returns to the snapshot. */
    method RestoreGames(snapshot: seq<Game>)
      requires Valid() && GameIdsUnique(snapshot)
      requires forall i :: 0 <= i < |snapshot| ==> snapshot[i].id < nextGameId
      modifies this
      ensures Valid()
      ensures games == snapshot && updates == old(updates)
      ensures nextGameId == old(nextGameId) && nextUpdateId == old(nextUpdateId)
    {
      games := snapshot;
    }

    /** INSERT INTO games (...): a new row, not live, with the next id. */
    method InsertGame(f: GameFields, now: int) returns (id: nat)
      requires Valid()
      modifies this
      ensures Valid()
      ensures id == old(nextGameId) && nextGameId == id + 1 && nextUpdateId == old(nextUpdateId)
      ensures games == old(games) + [WithFields(Game(id, "", "", "", 0, 0, None, None, false, now), f, now)]
      ensures updates == old(updates)
    {
      id := nextGameId;
      games := games + [WithFields(Game(id, "", "", "", 0, 0, None, None, false, now), f, now)];
      nextGameId := nextGameId + 1;
    }

    /** INSERT INTO game_updates (game_id, type, content, url): created_at is the current time. */
    method InsertUpdate(gameId: nat, kind: string, content: Option<string>, url: Option<string>, now: int)
      returns (id: nat)
      requires Valid()
      modifies this
      ensures Valid()
      ensures id == old(nextUpdateId) && nextUpdateId == id + 1 && nextGameId == old(nextGameId)
      ensures updates == old(updates) + [Update(id, gameId, kind, content, url, now)]
      ensures games == old(games)
    {
      id := nextUpdateId;
      updates := updates + [Update(id, gameId, kind, content, url, now)];
      nextUpdateId := nextUpdateId + 1;
    }

    /** DELETE FROM game_updates WHERE id = ?; returns rowCount(). */
    method DeleteUpdate(id: real) returns (rowCount: nat)
      requires Valid()
      modifies this
      ensures Valid()
      ensures updates == WithoutUpdate(old(updates), id) && rowCount == |old(updates)| - |updates|
      ensures games == old(games) && nextGameId == old(nextGameId) && nextUpdateId == old(nextUpdateId)
    {
      DeleteKeepsIds(updates, id);
      rowCount := CountWithId(updates, id);
      updates := WithoutUpdate(updates, id);
    }
  }

  /** Removing rows keeps the remaining ids unique and below the counter. */
  lemma {:induction false} DeleteKeepsIds(updates: seq<Update>, id: real)
    requires UpdateIdsUnique(updates)
    ensures UpdateIdsUnique(WithoutUpdate(updates, id))
    ensures forall u :: u in WithoutUpdate(updates, id) ==> u in updates
  {
    if updates != [] {
      var init := updates[..|updates| - 1];
      var last := updates[|updates| - 1];
      DeleteKeepsIds(init, id);
      var rest := WithoutUpdate(init, id);
      if last.id as real != id {
        forall i | 0 <= i < |rest|
          ensures rest[i].id != last.id
        {
          assert rest[i] in init;
          var k :| 0 <= k < |init| && init[k] == rest[i];
        }
      }
    }
  }
}
