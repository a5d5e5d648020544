/**
 * admin/update_delete.php: the endpoint that deletes one update of the live game and sends
 * the browser back to admin/updates.php with a flash message. Its response is always a
 * redirect; the flash message is the only thing it shows.
 */
module UpdateDelete {
  import opened Strings
  import opened Tables
  import Auth

  /** The POST fields it reads: the token, and update_id as is_numeric reads it (a missing
      field is '', which is not numeric). */
  datatype Form = Form(csrfToken: Option<string>, updateId: Numeric)

  datatype Response = ToLogin | Redirect(location: string)

  const UpdatesPage: string := "/admin/updates.php"
  const GamePage: string := "/admin/game.php"
  const InvalidToken: string := "Invalid security token. Please try again."
  const InvalidUpdateId: string := "Invalid update ID."
  const NotFound: string := "Update not found or does not belong to the current live game."
  const Deleted: string := "Update deleted successfully."
  const DeleteFailed: string := "Failed to delete update."
  const DatabaseError: string := "Database error: "

  /** The checks before the SELECT pass: logged in, a POST, a live game, a valid token and a
      positive numeric id. */
  predicate Admitted(data: map<string, Auth.SessionValue>, games: seq<Game>, isPost: bool, form: Form)
  {
    Auth.LoggedIn(data) && isPost && LiveGame(games).Some? &&
    Auth.CsrfAccepts(data, Some(OrEmpty(form.csrfToken))) &&
    form.updateId.Number? && form.updateId.value > 0.0
  }

  /** The DELETE runs: the row exists for the live game and neither statement throws. */
  predicate Removes(data: map<string, Auth.SessionValue>, games: seq<Game>, updates: seq<Update>, isPost: bool,
                    form: Form, fault: DbFault)
  {
    Admitted(data, games, isPost, form) && !Throws(fault, 0) &&
    FindUpdate(updates, form.updateId.value, LiveGame(games).value.id).Some? && !Throws(fault, 1)
  }

  /** The session key and message the try block leaves. */
  function RowFlash(updates: seq<Update>, updateId: real, liveId: nat, fault: DbFault): (r: (string, string))
    ensures r.0 == Auth.SuccessMessageKey <==>
      !Throws(fault, 0) && FindUpdate(updates, updateId, liveId).Some? && !Throws(fault, 1)
    ensures r.0 == Auth.SuccessMessageKey ==> r.1 == Deleted
    ensures r.0 != Auth.SuccessMessageKey ==> r.0 == Auth.ErrorMessageKey
  {
    if Throws(fault, 0) then (Auth.ErrorMessageKey, DatabaseError + fault.message)
    else if FindUpdate(updates, updateId, liveId).None? then (Auth.ErrorMessageKey, NotFound)
    else if Throws(fault, 1) then (Auth.ErrorMessageKey, DatabaseError + fault.message)
    else (Auth.SuccessMessageKey, Deleted)
  }

  /** The session key and message once the token is accepted: the id check, then the try
      block. */
  function IdFlash(form: Form, updates: seq<Update>, liveId: nat, fault: DbFault): (r: (string, string))
    ensures r.0 == Auth.SuccessMessageKey <==>
      form.updateId.Number? && form.updateId.value > 0.0 &&
      !Throws(fault, 0) && FindUpdate(updates, form.updateId.value, liveId).Some? && !Throws(fault, 1)
    ensures r.0 == Auth.SuccessMessageKey || r.0 == Auth.ErrorMessageKey
    ensures form.updateId.NotNumeric? || form.updateId.value <= 0.0 ==> r == (Auth.ErrorMessageKey, InvalidUpdateId)
  {
    if form.updateId.NotNumeric? || form.updateId.value <= 0.0 then (Auth.ErrorMessageKey, InvalidUpdateId)
    else RowFlash(updates, form.updateId.value, liveId, fault)
  }

  /** The session key and message a POST for a live game leaves: the token check first. */
  function RequestFlash(data: map<string, Auth.SessionValue>, form: Form, updates: seq<Update>, liveId: nat,
                        fault: DbFault): (r: (string, string))
    ensures r.0 == Auth.SuccessMessageKey <==>
      Auth.CsrfAccepts(data, Some(OrEmpty(form.csrfToken))) && form.updateId.Number? && form.updateId.value > 0.0 &&
      !Throws(fault, 0) && FindUpdate(updates, form.updateId.value, liveId).Some? && !Throws(fault, 1)
    ensures r.0 == Auth.SuccessMessageKey || r.0 == Auth.ErrorMessageKey
    ensures !Auth.CsrfAccepts(data, Some(OrEmpty(form.csrfToken))) ==> r == (Auth.ErrorMessageKey, InvalidToken)
  {
    if !Auth.CsrfAccepts(data, Some(OrEmpty(form.csrfToken))) then (Auth.ErrorMessageKey, InvalidToken)
    else IdFlash(form, updates, liveId, fault)
  }

  /** One request to the endpoint. */
  method DeleteRequest(db: Database, session: Auth.Session, requestUri: Option<string>, isPost: bool,
                       form: Form, now: int, fault: DbFault) returns (response: Response)
    requires db.Valid() && session.Valid()
    modifies db, session
    ensures db.Valid() && session.Valid() && db.games == old(db.games)
    ensures response.ToLogin? <==> !Auth.LoggedIn(old(session.data))
    ensures response.Redirect? ==>
      response.location == if isPost && LiveGame(db.games).None? then GamePage else UpdatesPage
    ensures Removes(old(session.data), old(db.games), old(db.updates), isPost, form, fault) ==>
      db.updates == WithoutUpdate(old(db.updates), form.updateId.value) &&
      |db.updates| == |old(db.updates)| - 1
    ensures !Removes(old(session.data), old(db.games), old(db.updates), isPost, form, fault) ==>
      db.updates == old(db.updates)
    ensures response.ToLogin? ==>
      session.data == Auth.RecordRedirect(Auth.StartedData(old(session.data), old(session.active), now), requestUri)
    ensures Auth.LoggedIn(old(session.data)) && !(isPost && LiveGame(db.games).Some?) ==>
      session.data == Auth.StartedData(old(session.data), old(session.active), now)
    ensures Auth.LoggedIn(old(session.data)) && isPost && LiveGame(db.games).Some? ==>
      var flash := RequestFlash(old(session.data), form, old(db.updates), LiveGame(db.games).value.id, fault);
      session.data == Auth.StartedData(old(session.data), old(session.active), now)[flash.0 := Auth.Text(flash.1)]
  {
    var toLogin := session.RequireAuth(now, requestUri);
    if toLogin {
      return ToLogin;
    }
    if !isPost {
      return Redirect(UpdatesPage);
    }
    var liveGame := LiveGame(db.games);
    if liveGame.None? {
      return Redirect(GamePage);
    }
    Auth.StartKeepsLoginAndToken(old(session.data), old(session.active), now, Some(OrEmpty(form.csrfToken)));
    HandleDelete(db, session, form, liveGame.value, now, fault);
    response := Redirect(UpdatesPage);
  }

  /** From the token check on, once the session is started and the live game is known. */
  method HandleDelete(db: Database, session: Auth.Session, form: Form, live: Game, now: int, fault: DbFault)
    requires db.Valid() && session.Valid() && session.active
    modifies db, session
    ensures db.Valid() && session.Valid() && db.games == old(db.games)
    ensures var flash := RequestFlash(old(session.data), form, old(db.updates), live.id, fault);
      session.data == old(session.data)[flash.0 := Auth.Text(flash.1)] &&
      (flash.0 == Auth.SuccessMessageKey ==>
         db.updates == WithoutUpdate(old(db.updates), form.updateId.value) &&
         |db.updates| == |old(db.updates)| - 1) &&
      (flash.0 != Auth.SuccessMessageKey ==> db.updates == old(db.updates))
  {
    var valid := session.CsrfValidate(now, Some(OrEmpty(form.csrfToken)));
    var key: string, message: string;
    if !valid {
      key, message := Auth.ErrorMessageKey, InvalidToken;
    } else {
      key, message := CheckAndDelete(db, form, live, fault);
    }
    session.Flash(key, message);
  }

  /** The id check, then the try block. */
  method CheckAndDelete(db: Database, form: Form, live: Game, fault: DbFault) returns (key: string, message: string)
    requires db.Valid()
    modifies db
    ensures db.Valid() && db.games == old(db.games)
    ensures (key, message) == IdFlash(form, old(db.updates), live.id, fault)
    ensures key == Auth.SuccessMessageKey ==>
      db.updates == WithoutUpdate(old(db.updates), form.updateId.value) && |db.updates| == |old(db.updates)| - 1
    ensures key != Auth.SuccessMessageKey ==> db.updates == old(db.updates)
  {
    if form.updateId.NotNumeric? || form.updateId.value <= 0.0 {
      return Auth.ErrorMessageKey, InvalidUpdateId;
    }
    key, message := DeleteRow(db, form.updateId.value, live, fault);
  }

  /** The try block: the SELECT that checks the row belongs to the live game, the DELETE, and
      the rowCount test. Returns the session key and message it sets. */
  method DeleteRow(db: Database, updateId: real, live: Game, fault: DbFault) returns (key: string, message: string)
    requires db.Valid() && updateId > 0.0
    modifies db
    ensures db.Valid() && db.games == old(db.games)
    ensures (key, message) == RowFlash(old(db.updates), updateId, live.id, fault)
    ensures key == Auth.SuccessMessageKey ==>
      db.updates == WithoutUpdate(old(db.updates), updateId) && |db.updates| == |old(db.updates)| - 1
    ensures key != Auth.SuccessMessageKey ==> db.updates == old(db.updates)
  {
    if Throws(fault, 0) {
      return Auth.ErrorMessageKey, DatabaseError + fault.message;
    }
    var update := FindUpdate(db.updates, updateId, live.id);
    if update.None? {
      return Auth.ErrorMessageKey, NotFound;
    }
    if Throws(fault, 1) {
      return Auth.ErrorMessageKey, DatabaseError + fault.message;
    }
    ghost var k :| 0 <= k < |db.updates| && db.updates[k] == update.value;
    DeleteRemovesOneRow(db.updates, k);
    var rowCount := db.DeleteUpdate(updateId);
    if rowCount > 0 {
      key, message := Auth.SuccessMessageKey, Deleted;
    } else {
      assert false;
      key, message := Auth.ErrorMessageKey, DeleteFailed;
    }
  }
}
