/**
 * admin/updates.php: the page for adding updates to the live game. It takes the flash
 * messages, sends the browser to admin/game.php when no game is live, and on POST with a
 * valid CSRF token runs add_update for the live game. It then lists the live game's updates.
 */
module UpdatesAdmin {
  import opened Strings
  import opened Tables
  import Auth
  import Sanitizer
  import UpdateInput

  /** The POST fields the handler reads; None for a field that was not sent. */
  datatype Form = Form(action: Option<string>, csrfToken: Option<string>, kind: Option<string>,
                       content: Option<string>, url: Option<string>)

  /** $error and $success. */
  datatype Page = Page(error: string, success: string)

  /** The login page, admin/game.php, or this page with its messages, the live game and the
      live game's updates. */
  datatype Response = ToLogin | ToGamePage | Shown(page: Page, live: Game, updates: seq<Update>)

  const InvalidToken: string := "Invalid security token. Please try again."
  const InvalidType: string := "Invalid update type."
  const UpdateAdded: string := "Update added successfully."
  const DatabaseError: string := "Database error: "

  /** The validation switch for a type already known to be valid, with empty() as the test
      for a missing field. */
  function Checked(p: Sanitizer.Platform, form: Form): (v: UpdateInput.Verdict)
    requires OrEmpty(form.kind) in ValidTypes
    ensures v.Accepted? ==> WellShaped(Update(0, 0, OrEmpty(form.kind), v.content, v.url, 0))
    ensures v.Rejected? ==> !PhpEmpty(v.message)
  {
    UpdateInput.Validate(p, OrEmpty(form.kind), Trim(OrEmpty(form.content)), Trim(OrEmpty(form.url)),
                         UpdateInput.PhpEmptiness)
  }

  /** Whether add_update inserts a row: the type is one of the three, the input passes
      validation, $error is still empty and the INSERT does not throw. */
  predicate AddInserts(p: Sanitizer.Platform, form: Form, error: string, fault: DbFault)
  {
    OrEmpty(form.kind) in ValidTypes && Checked(p, form).Accepted? && PhpEmpty(error) && !Throws(fault, 0)
  }

  /** The INSERT step of add_update for a verdict: a rejection reports its message, a pending
      $error leaves the page as it is, a throwing INSERT reports the database error, and
      otherwise one row for the live game is appended and success is reported. */
  predicate Stored(kind: string, verdict: UpdateInput.Verdict, liveId: nat, page: Page, now: int, fault: DbFault,
                   nextUpdateId: nat, updates: seq<Update>, updates': seq<Update>, out: Page)
  {
    if verdict.Rejected? then updates' == updates && out == page.(error := verdict.message)
    else if !PhpEmpty(page.error) then updates' == updates && out == page
    else if Throws(fault, 0) then updates' == updates && out == page.(error := DatabaseError + fault.message)
    else
      updates' == updates + [Update(nextUpdateId, liveId, kind, verdict.content, verdict.url, now)] &&
      out == page.(success := UpdateAdded)
  }

  /** The whole add_update case: an unknown type is reported, anything else is validated and
      stored as Stored says. */
  predicate UpdateAddedTo(p: Sanitizer.Platform, form: Form, liveId: nat, page: Page, now: int, fault: DbFault,
                          nextUpdateId: nat, updates: seq<Update>, updates': seq<Update>, out: Page)
  {
    if OrEmpty(form.kind) !in ValidTypes then updates' == updates && out == page.(error := InvalidType)
    else Stored(OrEmpty(form.kind), Checked(p, form), liveId, page, now, fault, nextUpdateId, updates, updates', out)
  }

  /** The POST branch: a refused token is reported, add_update runs as UpdateAddedTo says, and
      any other action changes nothing. */
  predicate Posted(p: Sanitizer.Platform, form: Form, accepted: bool, liveId: nat, page: Page, now: int,
                   fault: DbFault, nextUpdateId: nat, updates: seq<Update>, updates': seq<Update>, out: Page)
  {
    if !accepted then updates' == updates && out == page.(error := InvalidToken)
    else if OrEmpty(form.action) == "add_update" then
      UpdateAddedTo(p, form, liveId, page, now, fault, nextUpdateId, updates, updates', out)
    else updates' == updates && out == page
  }

  /** The INSERT step changes the table exactly when the verdict is an acceptance, no error is
      pending and the INSERT does not throw; the new row is then the accepted input. */
  lemma StoredInsertsIff(kind: string, verdict: UpdateInput.Verdict, liveId: nat, page: Page, now: int,
                         fault: DbFault, nextUpdateId: nat, updates: seq<Update>, updates': seq<Update>, out: Page)
    requires Stored(kind, verdict, liveId, page, now, fault, nextUpdateId, updates, updates', out)
    ensures updates' != updates <==> verdict.Accepted? && PhpEmpty(page.error) && !Throws(fault, 0)
    ensures updates' != updates ==>
      |updates'| == |updates| + 1 && updates'[..|updates|] == updates &&
      updates'[|updates|] == Update(nextUpdateId, liveId, kind, verdict.content, verdict.url, now) &&
      out == page.(success := UpdateAdded)
  {
    if verdict.Accepted? && PhpEmpty(page.error) && !Throws(fault, 0) {
      var row := Update(nextUpdateId, liveId, kind, verdict.content, verdict.url, now);
      assert updates' == updates + [row];
      assert |updates'| == |updates| + 1;
      assert updates'[..|updates|] == updates;
    }
  }

  /** A POST changes the table exactly when add_update inserts, and then the new row is the
      submitted one: the validated content and url of the posted type, for the live game. */
  lemma PostedInsertsIff(p: Sanitizer.Platform, form: Form, accepted: bool, liveId: nat,
                         page: Page, now: int, fault: DbFault, nextUpdateId: nat,
                         updates: seq<Update>, updates': seq<Update>, out: Page)
    requires Posted(p, form, accepted, liveId, page, now, fault, nextUpdateId, updates, updates', out)
    ensures updates' != updates <==>
      accepted && OrEmpty(form.action) == "add_update" && AddInserts(p, form, page.error, fault)
    ensures updates' != updates ==>
      var v := Checked(p, form);
      |updates'| == |updates| + 1 && updates'[..|updates|] == updates && WellShaped(updates'[|updates|]) &&
      updates'[|updates|] == Update(nextUpdateId, liveId, OrEmpty(form.kind), v.content, v.url, now) &&
      out == page.(success := UpdateAdded)
  {
    if accepted && OrEmpty(form.action) == "add_update" && OrEmpty(form.kind) in ValidTypes {
      var kind := OrEmpty(form.kind);
      var v := Checked(p, form);
      assert Stored(kind, v, liveId, page, now, fault, nextUpdateId, updates, updates', out);
      StoredInsertsIff(kind, v, liveId, page, now, fault, nextUpdateId, updates, updates', out);
    }
  }

  /** The add_update case. */
  method AddUpdate(db: Database, p: Sanitizer.Platform, form: Form, live: Game, page: Page, now: int,
                   fault: DbFault) returns (out: Page)
    requires db.Valid()
    modifies db
    ensures db.Valid() && db.games == old(db.games)
    ensures UpdateAddedTo(p, form, live.id, page, now, fault, old(db.nextUpdateId), old(db.updates), db.updates, out)
    ensures AddInserts(p, form, page.error, fault) ==>
      var v := Checked(p, form);
      var row := Update(old(db.nextUpdateId), live.id, OrEmpty(form.kind), v.content, v.url, now);
      db.updates == old(db.updates) + [row] && WellShaped(row) && out == page.(success := UpdateAdded)
    ensures !AddInserts(p, form, page.error, fault) ==> db.updates == old(db.updates)
    ensures OrEmpty(form.kind) !in ValidTypes ==> out == page.(error := InvalidType)
    ensures OrEmpty(form.kind) in ValidTypes && Checked(p, form).Rejected? ==>
      out == page.(error := Checked(p, form).message)
  {
    var kind := OrEmpty(form.kind);
    if kind !in ValidTypes {
      return page.(error := InvalidType);
    }
    var verdict := Checked(p, form);
    out := Store(db, kind, verdict, live, page, now, fault);
  }

  /** The INSERT after validation, run only when $error is empty. */
  method Store(db: Database, kind: string, verdict: UpdateInput.Verdict, live: Game, page: Page, now: int,
               fault: DbFault) returns (out: Page)
    requires db.Valid()
    requires verdict.Accepted? ==> WellShaped(Update(0, 0, kind, verdict.content, verdict.url, 0))
    requires verdict.Rejected? ==> !PhpEmpty(verdict.message)
    modifies db
    ensures db.Valid() && db.games == old(db.games)
    ensures Stored(kind, verdict, live.id, page, now, fault, old(db.nextUpdateId), old(db.updates), db.updates, out)
    ensures verdict.Accepted? && PhpEmpty(page.error) && !Throws(fault, 0) ==>
      var row := Update(old(db.nextUpdateId), live.id, kind, verdict.content, verdict.url, now);
      db.updates == old(db.updates) + [row] && WellShaped(row) && out == page.(success := UpdateAdded)
    ensures !(verdict.Accepted? && PhpEmpty(page.error) && !Throws(fault, 0)) ==> db.updates == old(db.updates)
    ensures verdict.Rejected? ==> out == page.(error := verdict.message)
    ensures verdict.Accepted? && PhpEmpty(page.error) && Throws(fault, 0) ==>
      out == page.(error := DatabaseError + fault.message)
  {
    if verdict.Rejected? {
      return page.(error := verdict.message);
    }
    out := page;
    if PhpEmpty(page.error) {
      if Throws(fault, 0) {
        out := page.(error := DatabaseError + fault.message);
      } else {
        var _ := db.InsertUpdate(live.id, kind, verdict.content, verdict.url, now);
        out := page.(success := UpdateAdded);
      }
    }
  }

  /** One request to the page. */
  method UpdatesRequest(db: Database, session: Auth.Session, p: Sanitizer.Platform, requestUri: Option<string>,
                        isPost: bool, form: Form, now: int, fault: DbFault) returns (response: Response)
    requires db.Valid() && session.Valid()
    modifies db, session
    ensures db.Valid() && session.Valid() && db.games == old(db.games)
    ensures response.ToLogin? <==> !Auth.LoggedIn(old(session.data))
    ensures response.ToLogin? ==>
      db.updates == old(db.updates) &&
      session.data == Auth.RecordRedirect(Auth.StartedData(old(session.data), old(session.active), now), requestUri)
    ensures !response.ToLogin? ==>
      session.data == Auth.StartedData(old(session.data), old(session.active), now) -
                      {Auth.ErrorMessageKey, Auth.SuccessMessageKey}
    ensures response.ToGamePage? ==> db.updates == old(db.updates)
    ensures response.Shown? ==>
      var page := Page(Auth.Flashed(old(session.data), Auth.ErrorMessageKey),
                       Auth.Flashed(old(session.data), Auth.SuccessMessageKey));
      (!isPost ==> db.updates == old(db.updates) && response.page == page) &&
      (isPost ==>
        Posted(p, form, Auth.CsrfAccepts(old(session.data), Some(OrEmpty(form.csrfToken))), response.live.id, page,
               now, fault, old(db.nextUpdateId), old(db.updates), db.updates, response.page))
    ensures response.ToGamePage? <==> Auth.LoggedIn(old(session.data)) && LiveGame(db.games).None?
    ensures response.ToGamePage? ==>
      Auth.ErrorMessageKey !in session.data && Auth.SuccessMessageKey !in session.data
    ensures response.Shown? ==>
      LiveGame(db.games) == Some(response.live) && response.updates == UpdatesOf(db.updates, response.live.id)
    ensures response.Shown? && isPost && !Auth.CsrfAccepts(old(session.data), Some(OrEmpty(form.csrfToken))) ==>
      response.page.error == InvalidToken
    ensures db.updates != old(db.updates) <==>
      Auth.LoggedIn(old(session.data)) && isPost && LiveGame(db.games).Some? &&
      Auth.CsrfAccepts(old(session.data), Some(OrEmpty(form.csrfToken))) && OrEmpty(form.action) == "add_update" &&
      AddInserts(p, form, Auth.Flashed(old(session.data), Auth.ErrorMessageKey), fault)
    ensures db.updates != old(db.updates) ==>
      |db.updates| == |old(db.updates)| + 1 && db.updates[..|old(db.updates)|] == old(db.updates) &&
      WellShaped(db.updates[|old(db.updates)|]) && db.updates[|old(db.updates)|].gameId == LiveGame(db.games).value.id
  {
    var toLogin := session.RequireAuth(now, requestUri);
    if toLogin {
      return ToLogin;
    }
    Auth.StartKeepsLoginAndToken(old(session.data), old(session.active), now, Some(OrEmpty(form.csrfToken)));
    response := ShowPage(db, session, p, isPost, form, now, fault);
  }

  /** The page after the _auth.php guard let the request through. */
  method ShowPage(db: Database, session: Auth.Session, p: Sanitizer.Platform, isPost: bool, form: Form, now: int,
                  fault: DbFault) returns (response: Response)
    requires db.Valid() && session.Valid() && session.active
    modifies db, session
    ensures db.Valid() && session.Valid() && db.games == old(db.games)
    ensures !response.ToLogin?
    ensures session.data == old(session.data) - {Auth.ErrorMessageKey, Auth.SuccessMessageKey}
    ensures response.ToGamePage? ==> db.updates == old(db.updates)
    ensures response.Shown? ==>
      var page := Page(Auth.Flashed(old(session.data), Auth.ErrorMessageKey),
                       Auth.Flashed(old(session.data), Auth.SuccessMessageKey));
      (!isPost ==> db.updates == old(db.updates) && response.page == page) &&
      (isPost ==>
        Posted(p, form, Auth.CsrfAccepts(old(session.data), Some(OrEmpty(form.csrfToken))), response.live.id, page,
               now, fault, old(db.nextUpdateId), old(db.updates), db.updates, response.page))
    ensures response.ToGamePage? <==> LiveGame(db.games).None?
    ensures response.ToGamePage? ==>
      Auth.ErrorMessageKey !in session.data && Auth.SuccessMessageKey !in session.data
    ensures response.Shown? ==>
      LiveGame(db.games) == Some(response.live) && response.updates == UpdatesOf(db.updates, response.live.id)
    ensures response.Shown? && isPost && !Auth.CsrfAccepts(old(session.data), Some(OrEmpty(form.csrfToken))) ==>
      response.page.error == InvalidToken
    ensures db.updates != old(db.updates) <==>
      isPost && LiveGame(db.games).Some? &&
      Auth.CsrfAccepts(old(session.data), Some(OrEmpty(form.csrfToken))) && OrEmpty(form.action) == "add_update" &&
      AddInserts(p, form, Auth.Flashed(old(session.data), Auth.ErrorMessageKey), fault)
    ensures db.updates != old(db.updates) ==>
      |db.updates| == |old(db.updates)| + 1 && db.updates[..|old(db.updates)|] == old(db.updates) &&
      WellShaped(db.updates[|old(db.updates)|]) && db.updates[|old(db.updates)|].gameId == LiveGame(db.games).value.id
  {
    var error, success := session.TakeFlash();
    var liveGame := LiveGame(db.games);
    if liveGame.None? {
      return ToGamePage;
    }
    assert error == Auth.Flashed(old(session.data), Auth.ErrorMessageKey);
    assert Auth.CsrfAccepts(session.data, Some(OrEmpty(form.csrfToken))) ==
           Auth.CsrfAccepts(old(session.data), Some(OrEmpty(form.csrfToken)));
    var page := Page(error, success);
    if isPost {
      page := HandlePost(db, session, p, form, liveGame.value, page, now, fault);
    }
    response := Shown(page, liveGame.value, UpdatesOf(db.updates, liveGame.value.id));
  }

  /** The POST branch, once the session is started and the live game is known. */
  method HandlePost(db: Database, session: Auth.Session, p: Sanitizer.Platform, form: Form, live: Game, page: Page,
                    now: int, fault: DbFault) returns (out: Page)
    requires db.Valid() && session.Valid() && session.active
    modifies db, session
    ensures db.Valid() && session.Valid() && db.games == old(db.games) && session.data == old(session.data)
    ensures !Auth.CsrfAccepts(old(session.data), Some(OrEmpty(form.csrfToken))) ==> out.error == InvalidToken
    ensures Posted(p, form, Auth.CsrfAccepts(old(session.data), Some(OrEmpty(form.csrfToken))), live.id, page, now,
                   fault, old(db.nextUpdateId), old(db.updates), db.updates, out)
    ensures db.updates != old(db.updates) <==>
      Auth.CsrfAccepts(old(session.data), Some(OrEmpty(form.csrfToken))) && OrEmpty(form.action) == "add_update" &&
      AddInserts(p, form, page.error, fault)
    ensures db.updates != old(db.updates) ==>
      |db.updates| == |old(db.updates)| + 1 && db.updates[..|old(db.updates)|] == old(db.updates) &&
      WellShaped(db.updates[|old(db.updates)|]) && db.updates[|old(db.updates)|].gameId == live.id
  {
    out := page;
    var valid := session.CsrfValidate(now, Some(OrEmpty(form.csrfToken)));
    if !valid {
      out := page.(error := InvalidToken);
    } else if OrEmpty(form.action) == "add_update" {
      out := AddUpdate(db, p, form, live, page, now, fault);
    }
  }

  /** A successful add shows the new row in the page's list of the live game's updates. */
  lemma AddedRowIsListed(updates: seq<Update>, row: Update)
    ensures UpdatesOf(updates + [row], row.gameId) == UpdatesOf(updates, row.gameId) + [row]
  {
    assert (updates + [row])[..|updates|] == updates;
  }
}
