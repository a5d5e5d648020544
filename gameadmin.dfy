/**
 * admin/game.php: the game management page. The page loads a game (the one asked for, or
 * else the live one), then a POST with a valid CSRF token runs one action on the tables:
 * save, set_live, unset_live, add_update or delete_update. The page's $error, $success and
 * $game are the Page value each action returns. Rendering is not modelled.
 */
module GameAdmin {
  import opened Strings
  import opened Tables
  import Auth
  import Sanitizer
  import UpdateInput

  /** The POST fields the handler reads; None for a field that was not sent. The scores are
      the values after the (int) cast. */
  datatype Form = Form(action: Option<string>, csrfToken: Option<string>,
                       title: Option<string>, homeTeam: Option<string>, awayTeam: Option<string>,
                       scoreHome: int, scoreAway: int,
                       homeLineup: Option<string>, awayLineup: Option<string>,
                       kind: Option<string>, content: Option<string>, url: Option<string>,
                       updateId: Numeric)

  /** $error, $success and $game. */
  datatype Page = Page(error: string, success: string, game: Option<Game>)

  /** The id in the query string: absent, or its text and how is_numeric reads it. */
  datatype RequestedId = NoId | Id(raw: string, number: Numeric)

  const InvalidToken: string := "Invalid security token. Please try again."
  const GameNotFound: string := "Game not found."
  const TitleRequired: string := "Game title is required."
  const HomeRequired: string := "Home team is required."
  const AwayRequired: string := "Away team is required."
  const TitleTooLong: string := "Title is too long (max 255 characters)."
  const HomeTooLong: string := "Home team name is too long (max 100 characters)."
  const AwayTooLong: string := "Away team name is too long (max 100 characters)."
  const HomeScoreRange: string := "Home team score must be between 0 and 99."
  const AwayScoreRange: string := "Away team score must be between 0 and 99."
  const DatabaseError: string := "Database error: "
  const GameUpdated: string := "Game updated successfully."
  const GameCreated: string := "Game created successfully."
  const NoGameToSetLive: string := "No game to set live."
  const SetLiveFailed: string := "Failed to set game live: "
  const NowLive: string := "Game is now live!"
  const NotLive: string := "Game is not currently live."
  const UnsetLiveFailed: string := "Failed to unset game live: "
  const NoLongerLive: string := "Game is no longer live."
  const SelectGameFirst: string := "Create or select a game first before adding updates."
  const InvalidType: string := "Invalid update type."
  const UpdateAdded: string := "Update added successfully."
  const NoGameSelected: string := "No game selected."
  const InvalidUpdateId: string := "Invalid update ID."
  const UpdateNotFound: string := "Update not found for this game."
  const UpdateDeleted: string := "Update deleted successfully."

  // ---------------------------------------------------------------------------
  // Loading the page's game

  /** The game the page works on: the requested one when the id is truthy and numeric (with
      "Game not found." when there is no such row); the live game when no truthy id was given;
      otherwise none. */
  function LoadedPage(games: seq<Game>, error: string, success: string, requested: RequestedId): (page: Page)
    ensures page.game.Some? ==> page.game.value in games
    ensures page.success == success
    ensures (requested.NoId? || PhpEmpty(requested.raw)) ==> page == Page(error, success, LiveGame(games))
    ensures requested.Id? && !PhpEmpty(requested.raw) && requested.number.NotNumeric? ==>
      page == Page(error, success, None)
    ensures requested.Id? && !PhpEmpty(requested.raw) && requested.number.Number? ==>
      page.game == FindGame(games, requested.number.value) &&
      page.error == if page.game.None? then GameNotFound else error
  {
    var asked := requested.Id? && !PhpEmpty(requested.raw);
    var game := if asked && requested.number.Number? then FindGame(games, requested.number.value) else None;
    var error' := if asked && requested.number.Number? && game.None? then GameNotFound else error;
    var game' := if game.None? && !asked then LiveGame(games) else game;
    Page(error', success, game')
  }

  // ---------------------------------------------------------------------------
  // save

  /** The fields as the save action prepares them: trimmed names, normalised lineups. */
  function SubmittedFields(form: Form): (f: GameFields)
    ensures f.title == Trim(OrEmpty(form.title)) && f.homeTeam == Trim(OrEmpty(form.homeTeam))
    ensures f.awayTeam == Trim(OrEmpty(form.awayTeam))
    ensures f.scoreHome == form.scoreHome && f.scoreAway == form.scoreAway
    ensures f.homeLineup == NormalizeLineup(OrEmpty(form.homeLineup))
    ensures f.awayLineup == NormalizeLineup(OrEmpty(form.awayLineup))
  {
    GameFields(Trim(OrEmpty(form.title)), Trim(OrEmpty(form.homeTeam)), Trim(OrEmpty(form.awayTeam)),
               form.scoreHome, form.scoreAway,
               NormalizeLineup(OrEmpty(form.homeLineup)), NormalizeLineup(OrEmpty(form.awayLineup)))
  }

  /** str_replace("\r\n", "\n", ...): each CR LF pair, scanning left to right, becomes LF. */
  function CrlfToLf(s: string): (r: string)
    ensures |r| <= |s|
    ensures '\r' !in s ==> r == s
  {
    if |s| < 2 then s
    else if s[0] == '\r' && s[1] == '\n' then "\n" + CrlfToLf(s[2..])
    else [s[0]] + CrlfToLf(s[1..])
  }

  /** str_replace("\r", "\n", ...). */
  function CrToLf(s: string): (r: string)
    ensures |r| == |s| && forall i :: 0 <= i < |s| ==> r[i] == if s[i] == '\r' then '\n' else s[i]
  {
    seq(|s|, i requires 0 <= i < |s| => if s[i] == '\r' then '\n' else s[i])
  }

  /** The lineup text as stored: both replacements, in that order, then rtrim. */
  function NormalizeLineup(text: string): (r: string)
    ensures '\r' !in r
    ensures r == [] || !IsTrimChar(r[|r| - 1])
  {
    var unified := CrToLf(CrlfToLf(text));
    var r := TrimRight(unified);
    assert forall i :: 0 <= i < |r| ==> r[i] == unified[i];
    r
  }

  /** Normalising a normalised lineup changes nothing, and text that has no CR and no
      trailing whitespace is stored as it was typed. */
  lemma NormalizeLineupIdempotent(text: string)
    ensures NormalizeLineup(NormalizeLineup(text)) == NormalizeLineup(text)
  {
    NormalizeLeavesCleanText(NormalizeLineup(text));
  }

  lemma NormalizeLeavesCleanText(text: string)
    requires '\r' !in text && (text == [] || !IsTrimChar(text[|text| - 1]))
    ensures NormalizeLineup(text) == text
  {
    assert CrToLf(text) == text;
  }

  /** A line break typed as CR LF is stored as LF. */
  lemma CrlfBecomesLf(a: string, b: string)
    requires '\r' !in a && '\r' !in b && b != [] && !IsTrimChar(b[|b| - 1])
    ensures NormalizeLineup(a + "\r\n" + b) == a + "\n" + b
  {
    var joined := a + "\n" + b;
    assert joined[|joined| - 1] == b[|b| - 1];
    CrlfToLfPair(a, b);
    CrToLfKeepsLf(a, b);
    NormalizesTo(a + "\r\n" + b, joined);
  }

  /** A line break typed as a lone CR is stored as LF. */
  lemma LoneCrBecomesLf(a: string, b: string)
    requires '\r' !in a && '\r' !in b && b != [] && b[0] != '\n' && !IsTrimChar(b[|b| - 1])
    ensures NormalizeLineup(a + "\r" + b) == a + "\n" + b
  {
    var joined := a + "\n" + b;
    assert joined[|joined| - 1] == b[|b| - 1];
    CrlfToLfLone(a, b);
    CrToLfOfLone(a, b);
    NormalizesTo(a + "\r" + b, joined);
  }

  lemma CrToLfKeepsLf(a: string, b: string)
    requires '\r' !in a && '\r' !in b
    ensures CrToLf(a + "\n" + b) == a + "\n" + b && '\r' !in a + "\n" + b
  {
  }

  lemma CrToLfOfLone(a: string, b: string)
    requires '\r' !in a && '\r' !in b
    ensures CrToLf(a + "\r" + b) == a + "\n" + b && '\r' !in a + "\n" + b
  {
    var lone := a + "\r" + b;
    var joined := a + "\n" + b;
    assert forall i :: 0 <= i < |lone| ==> CrToLf(lone)[i] == joined[i];
  }

  lemma NormalizesTo(text: string, clean: string)
    requires CrToLf(CrlfToLf(text)) == clean
    requires '\r' !in clean && (clean == [] || !IsTrimChar(clean[|clean| - 1]))
    ensures NormalizeLineup(text) == clean
  {
    NormalizeLeavesCleanText(clean);
  }

  lemma {:induction false} CrlfToLfPair(a: string, b: string)
    requires '\r' !in a && '\r' !in b
    ensures CrlfToLf(a + "\r\n" + b) == a + "\n" + b
  {
    if a == [] {
      assert (a + "\r\n" + b)[2..] == b;
    } else {
      assert (a + "\r\n" + b)[1..] == a[1..] + "\r\n" + b;
      CrlfToLfPair(a[1..], b);
    }
  }

  lemma {:induction false} CrlfToLfLone(a: string, b: string)
    requires '\r' !in a && '\r' !in b && b != [] && b[0] != '\n'
    ensures CrlfToLf(a + "\r" + b) == a + "\r" + b
  {
    if a == [] {
      assert ("\r" + b)[1..] == b;
    } else {
      assert (a + "\r" + b)[1..] == a[1..] + "\r" + b;
      CrlfToLfLone(a[1..], b);
    }
  }

  /** str_replace("\r\n", ...) scans left to right: text up to the first CR is copied, and a
      first CR LF pair becomes LF before the rest is scanned in the same way. */
  lemma {:induction false} CrlfToLfSplit(a: string, b: string)
    requires '\r' !in a
    ensures CrlfToLf(a + "\r\n" + b) == a + "\n" + CrlfToLf(b)
  {
    if a == [] {
      var s := "\r\n" + b;
      assert s[0] == '\r' && s[1] == '\n' && s[2..] == b;
    } else {
      HeadSplit(a, "\r\n", b);
      CrlfToLfCons(a[0], a[1..] + "\r\n" + b);
      CrlfToLfSplit(a[1..], b);
      HeadSplit(a, "\n", CrlfToLf(b));
    }
  }

  lemma HeadSplit(a: string, m: string, x: string)
    requires a != []
    ensures a + m + x == [a[0]] + (a[1..] + m + x)
  {
    assert a == [a[0]] + a[1..];
  }

  /** A character other than CR is copied as it is. */
  lemma CrlfToLfCons(c: char, t: string)
    requires c != '\r'
    ensures CrlfToLf([c] + t) == [c] + CrlfToLf(t)
  {
    var s := [c] + t;
    if |s| >= 2 {
      assert s[0] == c && s[1..] == t;
    } else {
      assert t == [];
    }
  }

  /** A first CR that does not start a CR LF pair is left for the second replacement. */
  lemma {:induction false} CrlfToLfLoneSplit(a: string, b: string)
    requires '\r' !in a && (b == [] || b[0] != '\n')
    ensures CrlfToLf(a + "\r" + b) == a + "\r" + CrlfToLf(b)
  {
    var s := a + "\r" + b;
    if a == [] {
      assert s[1..] == b;
      if b != [] {
        assert s[0] == '\r' && s[1] == b[0] && b[0] != '\n';
        assert CrlfToLf(s) == [s[0]] + CrlfToLf(s[1..]);
      }
    } else {
      HeadSplit(a, "\r", b);
      CrlfToLfCons(a[0], a[1..] + "\r" + b);
      CrlfToLfLoneSplit(a[1..], b);
      HeadSplit(a, "\r", CrlfToLf(b));
    }
  }

  /** str_replace("\r", "\n", ...) works on each part of a text separately. */
  lemma CrToLfAppend(x: string, y: string)
    ensures CrToLf(x + y) == CrToLf(x) + CrToLf(y)
  {
    assert forall i :: 0 <= i < |x + y| ==> CrToLf(x + y)[i] == (CrToLf(x) + CrToLf(y))[i];
  }

  /** The first line break of a lineup typed as CR LF is stored as LF, whatever follows. */
  lemma NormalizeLineupCrlf(a: string, b: string)
    requires '\r' !in a
    ensures NormalizeLineup(a + "\r\n" + b) == TrimRight(a + "\n" + CrToLf(CrlfToLf(b)))
  {
    CrlfToLfSplit(a, b);
    CrToLfAppend(a + "\n", CrlfToLf(b));
    assert CrToLf(a + "\n") == a + "\n";
  }

  /** The first line break of a lineup typed as a lone CR is stored as LF, whatever follows. */
  lemma NormalizeLineupLoneCr(a: string, b: string)
    requires '\r' !in a && (b == [] || b[0] != '\n')
    ensures NormalizeLineup(a + "\r" + b) == TrimRight(a + "\n" + CrToLf(CrlfToLf(b)))
  {
    CrlfToLfLoneSplit(a, b);
    CrToLfAppend(a + "\r", CrlfToLf(b));
    assert CrToLf(a + "\r") == a + "\n";
  }

  /** A three-line lineup typed with CR LF breaks is stored with LF breaks. */
  lemma ThreeCrlfLines(a: string, b: string, c: string)
    requires '\r' !in a && '\r' !in b && '\r' !in c && c != [] && !IsTrimChar(c[|c| - 1])
    ensures NormalizeLineup(a + "\r\n" + b + "\r\n" + c) == a + "\n" + b + "\n" + c
  {
    var clean := a + "\n" + b + "\n" + c;
    assert a + "\r\n" + b + "\r\n" + c == a + "\r\n" + (b + "\r\n" + c);
    CrlfToLfSplit(a, b + "\r\n" + c);
    CrlfToLfPair(b, c);
    assert a + "\n" + (b + "\n" + c) == clean;
    assert '\r' !in clean;
    assert CrToLf(clean) == clean;
    assert clean[|clean| - 1] == c[|c| - 1];
    NormalizesTo(a + "\r\n" + b + "\r\n" + c, clean);
  }

  /** Every check of the save action passes. */
  predicate SaveAcceptable(f: GameFields)
  {
    !PhpEmpty(f.title) && !PhpEmpty(f.homeTeam) && !PhpEmpty(f.awayTeam) &&
    |f.title| <= 255 && |f.homeTeam| <= 100 && |f.awayTeam| <= 100 &&
    0 <= f.scoreHome <= 99 && 0 <= f.scoreAway <= 99
  }

  /** The $errors list, in the order the checks run. */
  function SaveErrors(f: GameFields): (errors: seq<string>)
    ensures errors == [] <==> SaveAcceptable(f)
    ensures |errors| <= 8
  {
    (if PhpEmpty(f.title) then [TitleRequired] else []) +
    (if PhpEmpty(f.homeTeam) then [HomeRequired] else []) +
    (if PhpEmpty(f.awayTeam) then [AwayRequired] else []) +
    (if |f.title| > 255 then [TitleTooLong] else []) +
    (if |f.homeTeam| > 100 then [HomeTooLong] else []) +
    (if |f.awayTeam| > 100 then [AwayTooLong] else []) +
    (if f.scoreHome < 0 || f.scoreHome > 99 then [HomeScoreRange] else []) +
    (if f.scoreAway < 0 || f.scoreAway > 99 then [AwayScoreRange] else [])
  }

  /** "0" is an empty title, and each failed check is reported by its own message. */
  lemma SaveErrorsReportEachCheck(f: GameFields)
    ensures f.title == "0" ==> SaveErrors(f)[0] == TitleRequired
    ensures PhpEmpty(f.title) ==> TitleRequired in SaveErrors(f)
    ensures !(0 <= f.scoreAway <= 99) ==> SaveErrors(f)[|SaveErrors(f)| - 1] == AwayScoreRange
    ensures !SaveAcceptable(f) ==> Join(SaveErrors(f), " ") != ""
  {
    var e := SaveErrors(f);
    if !SaveAcceptable(f) {
      JoinNonEmpty(e, " ");
    }
  }

  lemma JoinNonEmpty(parts: seq<string>, separator: string)
    requires parts != [] && forall i :: 0 <= i < |parts| ==> parts[i] != ""
    ensures Join(parts, separator) != ""
  {
    if |parts| > 1 {
      var last := parts[|parts| - 1];
      assert |Join(parts, separator)| >= |last| > 0;
    }
  }

  /** The outcome of the save action, from the games table before (`games`, with the next
      AUTO_INCREMENT value `nextGameId`) to the table after (`games'`) and the page: invalid
      fields give the joined messages, a failing statement the database error, and neither
      changes the table; otherwise the loaded game is updated, or a new game is appended and
      becomes the page's game. */
  predicate Saved(form: Form, page: Page, now: int, fault: DbFault, nextGameId: nat,
                  games: seq<Game>, games': seq<Game>, out: Page)
  {
    var f := SubmittedFields(form);
    if !SaveAcceptable(f) then games' == games && out == page.(error := Join(SaveErrors(f), " "))
    else if Throws(fault, 0) then games' == games && out == page.(error := DatabaseError + fault.message)
    else if page.game.Some? then
      games' == Edited(games, page.game.value.id, f, now) &&
      out == page.(success := GameUpdated, game := Some(WithFields(page.game.value, f, now)))
    else
      var row := WithFields(Game(nextGameId, "", "", "", 0, 0, None, None, false, now), f, now);
      games' == games + [row] && out == page.(success := GameCreated, game := Some(row))
  }

  /** The save action. */
  method Save(db: Database, form: Form, page: Page, now: int, fault: DbFault) returns (out: Page)
    requires db.Valid() && (page.game.Some? ==> page.game.value in db.games)
    modifies db
    ensures db.Valid() && db.updates == old(db.updates)
    ensures out.game.Some? ==> out.game.value in db.games
    ensures AtMostOneLive(old(db.games)) ==> AtMostOneLive(db.games)
    ensures Saved(form, page, now, fault, old(db.nextGameId), old(db.games), db.games, out)
  {
    var f := SubmittedFields(form);
    var errors := SaveErrors(f);
    if errors != [] {
      return page.(error := Join(errors, " "));
    }
    if Throws(fault, 0) {
      return page.(error := DatabaseError + fault.message);
    }
    out := StoreGame(db, f, page, now);
  }

  /** The UPDATE or INSERT of a validated save, then the refresh of $game. */
  method StoreGame(db: Database, f: GameFields, page: Page, now: int) returns (out: Page)
    requires db.Valid() && (page.game.Some? ==> page.game.value in db.games)
    modifies db
    ensures db.Valid() && db.updates == old(db.updates)
    ensures out.game.Some? ==> out.game.value in db.games
    ensures AtMostOneLive(old(db.games)) ==> AtMostOneLive(db.games)
    ensures page.game.Some? ==>
      db.games == Edited(old(db.games), page.game.value.id, f, now) &&
      out == page.(success := GameUpdated, game := Some(WithFields(page.game.value, f, now)))
    ensures page.game.None? ==>
      var row := WithFields(Game(old(db.nextGameId), "", "", "", 0, 0, None, None, false, now), f, now);
      db.games == old(db.games) + [row] && out == page.(success := GameCreated, game := Some(row))
  {
    if page.game.Some? {
      out := EditExisting(db, f, page, now);
    } else {
      out := CreateNew(db, f, page, now);
    }
  }

  /** UPDATE games SET ... WHERE id = ?, then the row read back. */
  method EditExisting(db: Database, f: GameFields, page: Page, now: int) returns (out: Page)
    requires db.Valid() && page.game.Some? && page.game.value in db.games
    modifies db
    ensures db.Valid() && db.updates == old(db.updates)
    ensures db.games == Edited(old(db.games), page.game.value.id, f, now)
    ensures out == page.(success := GameUpdated, game := Some(WithFields(page.game.value, f, now)))
    ensures out.game.value in db.games
    ensures AtMostOneLive(old(db.games)) ==> AtMostOneLive(db.games)
  {
    var game := page.game.value;
    ghost var k :| 0 <= k < |db.games| && db.games[k] == game;
    db.EditGame(game.id, f, now);
    FindGameFindsRow(db.games, k);
    out := page.(success := GameUpdated, game := FindGame(db.games, game.id as real));
  }

  /** INSERT INTO games ..., then the new row read back by its lastInsertId. */
  method CreateNew(db: Database, f: GameFields, page: Page, now: int) returns (out: Page)
    requires db.Valid()
    modifies db
    ensures db.Valid() && db.updates == old(db.updates)
    ensures var row := WithFields(Game(old(db.nextGameId), "", "", "", 0, 0, None, None, false, now), f, now);
      db.games == old(db.games) + [row] && out == page.(success := GameCreated, game := Some(row))
    ensures out.game.value in db.games
    ensures AtMostOneLive(old(db.games)) ==> AtMostOneLive(db.games)
  {
    var gameId := db.InsertGame(f, now);
    FindGameFindsRow(db.games, |db.games| - 1);
    out := page.(success := GameCreated, game := FindGame(db.games, gameId as real));
  }

  // ---------------------------------------------------------------------------
  // set_live and unset_live

  /** The outcome of the set_live action: no game gives an error; a failing statement rolls
      the table back and reports it; otherwise every flag is cleared, then the page's game is
      marked live. */
  predicate WentLive(page: Page, now: int, fault: DbFault, games: seq<Game>, games': seq<Game>, out: Page)
  {
    if page.game.None? then games' == games && out == page.(error := NoGameToSetLive)
    else if Throws(fault, 0) || Throws(fault, 1) then
      games' == games && out == page.(error := SetLiveFailed + fault.message)
    else
      games' == MarkedLive(ClearedLive(games), page.game.value.id, now) &&
      out == page.(success := NowLive, game := Some(page.game.value.(isLive := true, updatedAt := now)))
  }

  /** The set_live action: inside a transaction, clear every live flag, then mark the page's
      game; a statement that throws rolls the table back. */
  method SetLive(db: Database, page: Page, now: int, fault: DbFault) returns (out: Page)
    requires db.Valid() && (page.game.Some? ==> page.game.value in db.games)
    modifies db
    ensures db.Valid() && db.updates == old(db.updates)
    ensures out.game.Some? ==> out.game.value in db.games
    ensures WentLive(page, now, fault, old(db.games), db.games, out)
    ensures page.game.Some? && !Throws(fault, 0) && !Throws(fault, 1) ==>
      (forall i :: 0 <= i < |db.games| ==> (db.games[i].isLive <==> db.games[i].id == page.game.value.id)) &&
      LiveGame(db.games) == out.game
    ensures AtMostOneLive(old(db.games)) ==> AtMostOneLive(db.games)
  {
    if page.game.None? {
      return page.(error := NoGameToSetLive);
    }
    var game := page.game.value;
    var snapshot := db.games;
    ghost var k :| 0 <= k < |snapshot| && snapshot[k] == game;
    if !Throws(fault, 0) {
      db.ClearLive();
      if !Throws(fault, 1) {
        db.MarkLive(game.id, now);
        SetLiveLeavesExactlyOne(snapshot, k, now);
        FindGameFindsRow(db.games, k);
        return page.(success := NowLive, game := FindGame(db.games, game.id as real));
      }
    }
    db.RestoreGames(snapshot);
    out := page.(error := SetLiveFailed + fault.message);
  }

  /** The outcome of the unset_live action: a game that is not loaded, or not loaded as live,
      gives an error; a failing statement is reported; otherwise the game's flag is cleared. */
  predicate WentOffline(page: Page, now: int, fault: DbFault, games: seq<Game>, games': seq<Game>, out: Page)
  {
    if page.game.None? || !page.game.value.isLive then games' == games && out == page.(error := NotLive)
    else if Throws(fault, 0) then games' == games && out == page.(error := UnsetLiveFailed + fault.message)
    else
      games' == UnmarkedLive(games, page.game.value.id, now) &&
      out == page.(success := NoLongerLive, game := Some(page.game.value.(isLive := false, updatedAt := now)))
  }

  /** The unset_live action: only a game the page loaded as live is cleared. */
  method UnsetLive(db: Database, page: Page, now: int, fault: DbFault) returns (out: Page)
    requires db.Valid() && (page.game.Some? ==> page.game.value in db.games)
    modifies db
    ensures db.Valid() && db.updates == old(db.updates)
    ensures out.game.Some? ==> out.game.value in db.games
    ensures WentOffline(page, now, fault, old(db.games), db.games, out)
    ensures page.game.Some? && page.game.value.isLive && !Throws(fault, 0) && AtMostOneLive(old(db.games)) ==>
      LiveGame(db.games).None?
    ensures AtMostOneLive(old(db.games)) ==> AtMostOneLive(db.games)
  {
    if page.game.None? || !page.game.value.isLive {
      return page.(error := NotLive);
    }
    if Throws(fault, 0) {
      return page.(error := UnsetLiveFailed + fault.message);
    }
    var game := page.game.value;
    ghost var k :| 0 <= k < |db.games| && db.games[k] == game;
    ghost var before := db.games;
    db.UnmarkLive(game.id, now);
    if AtMostOneLive(before) {
      UnmarkKeepsAtMostOne(before, game.id, now);
      OnlyLiveGameCleared(before, k, now);
    }
    FindGameFindsRow(db.games, k);
    out := page.(success := NoLongerLive, game := FindGame(db.games, game.id as real));
  }

  /** Clearing the one live game leaves no game live. */
  lemma OnlyLiveGameCleared(games: seq<Game>, k: nat, now: int)
    requires AtMostOneLive(games) && k < |games| && games[k].isLive
    ensures LiveGame(UnmarkedLive(games, games[k].id, now)).None?
  {
    var after := UnmarkedLive(games, games[k].id, now);
    forall i | 0 <= i < |after|
      ensures !after[i].isLive
    {
      if i != k {
        assert games[k].isLive && !games[i].isLive;
      }
    }
  }

  // ---------------------------------------------------------------------------
  // add_update and delete_update

  /** Whether add_update inserts a row: a game is loaded, the type is exactly one of the three,
      the input passes validation, $error is still empty, and the INSERT does not throw. */
  predicate AddInserts(p: Sanitizer.Platform, form: Form, page: Page, fault: DbFault)
  {
    var kind := OrEmpty(form.kind);
    page.game.Some? && kind in ValidTypes &&
    UpdateInput.Validate(p, kind, Trim(OrEmpty(form.content)), Trim(OrEmpty(form.url)), UpdateInput.Identical).Accepted? &&
    PhpEmpty(page.error) && !Throws(fault, 0)
  }

  /** The outcome of the add_update action on the updates table (`nextUpdateId` is its next
      AUTO_INCREMENT value): no game, an invalid type, a failed validation, an error already on
      the page or a failing INSERT leave the table alone with the page's message; otherwise the
      validated row is appended. */
  predicate UpdateAddedTo(p: Sanitizer.Platform, form: Form, page: Page, now: int, fault: DbFault, nextUpdateId: nat,
                          updates: seq<Update>, updates': seq<Update>, out: Page)
  {
    var kind := OrEmpty(form.kind);
    if page.game.None? then updates' == updates && out == page.(error := SelectGameFirst)
    else if kind !in ValidTypes then updates' == updates && out == page.(error := InvalidType)
    else
      var v := UpdateInput.Validate(p, kind, Trim(OrEmpty(form.content)), Trim(OrEmpty(form.url)), UpdateInput.Identical);
      var error := if v.Rejected? then v.message else page.error;
      if !PhpEmpty(error) then updates' == updates && out == page.(error := error)
      else if Throws(fault, 0) then updates' == updates && out == page.(error := DatabaseError + fault.message)
      else
        updates' == updates + [Update(nextUpdateId, page.game.value.id, kind, v.content, v.url, now)] &&
        out == page.(success := UpdateAdded)
  }

  /** The add_update action. */
  method AddUpdate(db: Database, p: Sanitizer.Platform, form: Form, page: Page, now: int, fault: DbFault)
    returns (out: Page)
    requires db.Valid()
    modifies db
    ensures db.Valid() && db.games == old(db.games) && out.game == page.game
    ensures UpdateAddedTo(p, form, page, now, fault, old(db.nextUpdateId), old(db.updates), db.updates, out)
    ensures db.updates != old(db.updates) <==> AddInserts(p, form, page, fault)
    ensures AddInserts(p, form, page, fault) ==>
      |db.updates| == |old(db.updates)| + 1 && WellShaped(db.updates[|old(db.updates)|])
  {
    if page.game.None? {
      return page.(error := SelectGameFirst);
    }
    var kind := OrEmpty(form.kind);
    var content := Trim(OrEmpty(form.content));
    var url := Trim(OrEmpty(form.url));
    if kind !in ValidTypes {
      return page.(error := InvalidType);
    }
    var verdict := UpdateInput.Validate(p, kind, content, url, UpdateInput.Identical);
    var error := if verdict.Rejected? then verdict.message else page.error;
    out := page.(error := error);
    if PhpEmpty(error) {
      if Throws(fault, 0) {
        out := page.(error := DatabaseError + fault.message);
      } else {
        var _ := db.InsertUpdate(page.game.value.id, kind, verdict.content, verdict.url, now);
        out := page.(success := UpdateAdded);
      }
    }
  }

  /** Whether delete_update removes a row: a game is loaded, the id is numeric with a positive
      integer cast, a row with that id belongs to the game, and neither statement throws. */
  predicate DeleteRemoves(updates: seq<Update>, form: Form, page: Page, fault: DbFault)
  {
    page.game.Some? && form.updateId.Number? && IntCast(form.updateId.value) > 0 &&
    !Throws(fault, 0) && FindUpdate(updates, IntCast(form.updateId.value) as real, page.game.value.id).Some? &&
    !Throws(fault, 1)
  }

  /** The outcome of the delete_update action: no game, an id that is not a positive integer,
      a failing SELECT, a row that is not the game's, or a failing DELETE leave the table alone
      with the page's message; otherwise the row with that id is removed. */
  predicate UpdateDeletedFrom(form: Form, page: Page, fault: DbFault, updates: seq<Update>, updates': seq<Update>,
                              out: Page)
  {
    if page.game.None? then updates' == updates && out == page.(error := NoGameSelected)
    else if form.updateId.NotNumeric? || IntCast(form.updateId.value) <= 0 then
      updates' == updates && out == page.(error := InvalidUpdateId)
    else if Throws(fault, 0) then updates' == updates && out == page.(error := DatabaseError + fault.message)
    else if FindUpdate(updates, IntCast(form.updateId.value) as real, page.game.value.id).None? then
      updates' == updates && out == page.(error := UpdateNotFound)
    else if Throws(fault, 1) then updates' == updates && out == page.(error := DatabaseError + fault.message)
    else
      updates' == WithoutUpdate(updates, IntCast(form.updateId.value) as real) && out == page.(success := UpdateDeleted)
  }

  /** The delete_update action. */
  method DeleteUpdate(db: Database, form: Form, page: Page, fault: DbFault) returns (out: Page)
    requires db.Valid()
    modifies db
    ensures db.Valid() && db.games == old(db.games) && out.game == page.game
    ensures UpdateDeletedFrom(form, page, fault, old(db.updates), db.updates, out)
    ensures db.updates != old(db.updates) <==> DeleteRemoves(old(db.updates), form, page, fault)
    ensures DeleteRemoves(old(db.updates), form, page, fault) ==> |db.updates| == |old(db.updates)| - 1
  {
    if page.game.None? {
      return page.(error := NoGameSelected);
    }
    if form.updateId.NotNumeric? || IntCast(form.updateId.value) <= 0 {
      return page.(error := InvalidUpdateId);
    }
    var id := IntCast(form.updateId.value);
    if Throws(fault, 0) {
      return page.(error := DatabaseError + fault.message);
    }
    var update := FindUpdate(db.updates, id as real, page.game.value.id);
    if update.None? {
      return page.(error := UpdateNotFound);
    }
    if Throws(fault, 1) {
      return page.(error := DatabaseError + fault.message);
    }
    ghost var k :| 0 <= k < |db.updates| && db.updates[k] == update.value;
    DeleteRemovesOneRow(db.updates, k);
    var _ := db.DeleteUpdate(id as real);
    out := page.(success := UpdateDeleted);
  }

  // ---------------------------------------------------------------------------
  // The request

  const Actions: seq<string> := ["save", "set_live", "unset_live", "add_update", "delete_update"]

  /** The switch over the action, as a relation between the tables before (`games`,
      `updates` and their next AUTO_INCREMENT values) and after (`games'`, `updates'`) and the
      page it returns: each action changes only its own table, and an unknown action changes
      nothing. */
  predicate Performed(p: Sanitizer.Platform, form: Form, page: Page, now: int, fault: DbFault,
                      nextGameId: nat, nextUpdateId: nat, games: seq<Game>, updates: seq<Update>,
                      games': seq<Game>, updates': seq<Update>, out: Page)
  {
    var action := OrEmpty(form.action);
    if action == "save" then Saved(form, page, now, fault, nextGameId, games, games', out) && updates' == updates
    else if action == "set_live" then WentLive(page, now, fault, games, games', out) && updates' == updates
    else if action == "unset_live" then WentOffline(page, now, fault, games, games', out) && updates' == updates
    else if action == "add_update" then
      UpdateAddedTo(p, form, page, now, fault, nextUpdateId, updates, updates', out) && games' == games
    else if action == "delete_update" then UpdateDeletedFrom(form, page, fault, updates, updates', out) && games' == games
    else games' == games && updates' == updates && out == page
  }

  /** A set_live that goes through leaves exactly one live game, and it is the game the page
      then shows. */
  lemma SetLiveShowsTheLiveGame(p: Sanitizer.Platform, form: Form, page: Page, now: int, fault: DbFault,
                                nextGameId: nat, nextUpdateId: nat, games: seq<Game>, updates: seq<Update>,
                                games': seq<Game>, updates': seq<Update>, out: Page)
    requires GameIdsUnique(games) && page.game.Some? && page.game.value in games
    requires OrEmpty(form.action) == "set_live" && !Throws(fault, 0) && !Throws(fault, 1)
    requires Performed(p, form, page, now, fault, nextGameId, nextUpdateId, games, updates, games', updates', out)
    ensures AtMostOneLive(games') && LiveGame(games') == out.game && updates' == updates
  {
    var k :| 0 <= k < |games| && games[k] == page.game.value;
    SetLiveLeavesExactlyOne(games, k, now);
  }

  /** An unset_live that goes through on the live game leaves no game live, provided at most
      one was live before. */
  lemma UnsetLiveLeavesNoneLive(p: Sanitizer.Platform, form: Form, page: Page, now: int, fault: DbFault,
                                nextGameId: nat, nextUpdateId: nat, games: seq<Game>, updates: seq<Update>,
                                games': seq<Game>, updates': seq<Update>, out: Page)
    requires AtMostOneLive(games) && page.game.Some? && page.game.value in games && page.game.value.isLive
    requires OrEmpty(form.action) == "unset_live" && !Throws(fault, 0)
    requires Performed(p, form, page, now, fault, nextGameId, nextUpdateId, games, updates, games', updates', out)
    ensures LiveGame(games').None? && out.success == NoLongerLive && updates' == updates
  {
    var k :| 0 <= k < |games| && games[k] == page.game.value;
    OnlyLiveGameCleared(games, k, now);
  }

  /** The POST branch: CSRF validation, then the switch over the action. */
  method HandlePost(db: Database, session: Auth.Session, p: Sanitizer.Platform, form: Form, page: Page,
                    now: int, fault: DbFault) returns (out: Page)
    requires db.Valid() && session.Valid() && (page.game.Some? ==> page.game.value in db.games)
    modifies db, session
    ensures db.Valid() && session.Valid()
    ensures session.data == Auth.StartedData(old(session.data), old(session.active), now)
    ensures out.game.Some? ==> out.game.value in db.games
    ensures AtMostOneLive(old(db.games)) ==> AtMostOneLive(db.games)
    ensures !Auth.CsrfAccepts(old(session.data), Some(OrEmpty(form.csrfToken))) ==>
      db.games == old(db.games) && db.updates == old(db.updates) && out == page.(error := InvalidToken)
    ensures Auth.CsrfAccepts(old(session.data), Some(OrEmpty(form.csrfToken))) ==>
      Performed(p, form, page, now, fault, old(db.nextGameId), old(db.nextUpdateId), old(db.games), old(db.updates),
                db.games, db.updates, out)
    ensures Auth.CsrfAccepts(old(session.data), Some(OrEmpty(form.csrfToken))) && OrEmpty(form.action) == "set_live" &&
            page.game.Some? && !Throws(fault, 0) && !Throws(fault, 1) ==>
      LiveGame(db.games) == out.game
  {
    var valid := session.CsrfValidate(now, Some(OrEmpty(form.csrfToken)));
    if !valid {
      return page.(error := InvalidToken);
    }
    out := RunAction(db, p, form, page, now, fault);
  }

  /** The switch over the action. */
  method RunAction(db: Database, p: Sanitizer.Platform, form: Form, page: Page, now: int, fault: DbFault)
    returns (out: Page)
    requires db.Valid() && (page.game.Some? ==> page.game.value in db.games)
    modifies db
    ensures db.Valid()
    ensures out.game.Some? ==> out.game.value in db.games
    ensures AtMostOneLive(old(db.games)) ==> AtMostOneLive(db.games)
    ensures Performed(p, form, page, now, fault, old(db.nextGameId), old(db.nextUpdateId), old(db.games), old(db.updates),
                      db.games, db.updates, out)
    ensures OrEmpty(form.action) == "set_live" && page.game.Some? && !Throws(fault, 0) && !Throws(fault, 1) ==>
      LiveGame(db.games) == out.game
    ensures OrEmpty(form.action) == "unset_live" && page.game.Some? && page.game.value.isLive && !Throws(fault, 0) &&
            AtMostOneLive(old(db.games)) ==>
      LiveGame(db.games).None?
  {
    var action := OrEmpty(form.action);
    if action == "save" {
      out := Save(db, form, page, now, fault);
    } else if action == "set_live" {
      out := SetLive(db, page, now, fault);
    } else if action == "unset_live" {
      out := UnsetLive(db, page, now, fault);
    } else if action == "add_update" {
      out := AddUpdate(db, p, form, page, now, fault);
    } else if action == "delete_update" {
      out := DeleteUpdate(db, form, page, fault);
    } else {
      out := page;
    }
  }

  /** What the browser gets: the login page, or this page with its messages and game. */
  datatype Response = ToLogin | Shown(page: Page)

  /** One request to the page: the _auth.php guard, the flash messages, the game, and on POST
      the action. */
  method GameRequest(db: Database, session: Auth.Session, p: Sanitizer.Platform, requestUri: Option<string>,
                     isPost: bool, requested: RequestedId, form: Form, now: int, fault: DbFault)
    returns (response: Response)
    requires db.Valid() && session.Valid()
    modifies db, session
    ensures db.Valid() && session.Valid()
    ensures response.ToLogin? <==> !Auth.LoggedIn(old(session.data))
    ensures response.ToLogin? || !isPost ==> db.games == old(db.games) && db.updates == old(db.updates)
    ensures response.Shown? && response.page.game.Some? ==> response.page.game.value in db.games
    ensures AtMostOneLive(old(db.games)) ==> AtMostOneLive(db.games)
    ensures response.ToLogin? ==>
      session.data == Auth.RecordRedirect(Auth.StartedData(old(session.data), old(session.active), now), requestUri)
    ensures response.Shown? ==>
      session.data == Auth.StartedData(old(session.data), old(session.active), now) -
                      {Auth.ErrorMessageKey, Auth.SuccessMessageKey}
    ensures response.Shown? ==>
      var page := LoadedPage(old(db.games), Auth.Flashed(old(session.data), Auth.ErrorMessageKey),
                             Auth.Flashed(old(session.data), Auth.SuccessMessageKey), requested);
      var accepted := Auth.CsrfAccepts(old(session.data), Some(OrEmpty(form.csrfToken)));
      (!isPost ==> response.page == page) &&
      (isPost && !accepted ==>
        db.games == old(db.games) && db.updates == old(db.updates) && response.page == page.(error := InvalidToken)) &&
      (isPost && accepted ==>
        Performed(p, form, page, now, fault, old(db.nextGameId), old(db.nextUpdateId), old(db.games), old(db.updates),
                  db.games, db.updates, response.page))
  {
    var toLogin := session.RequireAuth(now, requestUri);
    if toLogin {
      return ToLogin;
    }
    Auth.StartKeepsLoginAndToken(old(session.data), old(session.active), now, Some(OrEmpty(form.csrfToken)));
    var error, success := session.TakeFlash();
    var page := LoadedPage(db.games, error, success, requested);
    assert Auth.CsrfAccepts(session.data, Some(OrEmpty(form.csrfToken))) ==
           Auth.CsrfAccepts(old(session.data), Some(OrEmpty(form.csrfToken)));
    var out := page;
    if isPost {
      out := HandlePost(db, session, p, form, page, now, fault);
    }
    response := Shown(out);
  }
}
