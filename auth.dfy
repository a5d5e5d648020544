/**
 * src/Auth.php: login check against the configured credentials, and the bookkeeping the
 * admin pages keep in the session map ($_SESSION): the login flag, the CSRF token, the URL to
 * return to after login and the time of the last session-id regeneration. The clock and the
 * freshly generated token are parameters; the session runtime itself (cookies, ini settings,
 * the id that regeneration replaces) is not modelled beyond a count of regenerations.
 */
module Auth {
  import opened Strings
  import Env

  /** The kinds of value the session map holds. */
  datatype SessionValue = Flag(b: bool) | Text(s: string) | Time(t: int)

  const LoggedInKey: string := "gameday_admin_logged_in"
  const CsrfKey: string := "gameday_csrf_token"
  const RedirectKey: string := "login_redirect"
  const RegenerationKey: string := "last_regeneration"
  /** Seconds after which a session start regenerates the session id. */
  const RegenerationInterval: int := 300
  const DefaultRedirect: string := "/admin/"
  /** The one-shot messages the admin pages pass on to the next page they redirect to. */
  const ErrorMessageKey: string := "error_message"
  const SuccessMessageKey: string := "success_message"

  /** PHP truthiness of a possibly missing string: null, "" and "0" are false. */
  predicate Truthy(v: Option<string>)
  {
    v.Some? && !PhpEmpty(v.value)
  }

  /** Auth::checkLogin: false unless both ADMIN_USER and ADMIN_PASS are set to truthy values;
      then true exactly when both submitted strings equal them. */
  function CheckLogin(env: Env.Environment, username: string, password: string): (ok: bool)
    reads env
    ensures ok ==> "ADMIN_USER" in env.vars && "ADMIN_PASS" in env.vars
    ensures ok ==> username == env.vars["ADMIN_USER"] && password == env.vars["ADMIN_PASS"]
    ensures ok ==> !PhpEmpty(username) && !PhpEmpty(password)
    ensures (Truthy(env.Get("ADMIN_USER", None)) && Truthy(env.Get("ADMIN_PASS", None)) &&
             username == env.vars["ADMIN_USER"] && password == env.vars["ADMIN_PASS"]) ==> ok
  {
    var validUsername := env.Get("ADMIN_USER", None);
    var validPassword := env.Get("ADMIN_PASS", None);
    if !Truthy(validUsername) || !Truthy(validPassword) then false
    else validUsername.value == username && validPassword.value == password
  }

  /** A falsy configured password (for instance "0") locks everyone out, even someone who
      submits that same value. */
  lemma FalsyPasswordLocksOut(env: Env.Environment, username: string)
    requires "ADMIN_PASS" in env.vars && env.vars["ADMIN_PASS"] == "0"
    ensures !CheckLogin(env, username, "0")
  {
  }

  /** Whether a session start regenerates the id: only the first start of a request, and only
      when the recorded time is more than 300 seconds old. */
  predicate Regenerates(data: map<string, SessionValue>, active: bool, now: int)
  {
    !active && RegenerationKey in data && data[RegenerationKey].Time? &&
    now - data[RegenerationKey].t > RegenerationInterval
  }

  /** The session map after Auth::startSession. */
  function StartedData(data: map<string, SessionValue>, active: bool, now: int): (r: map<string, SessionValue>)
    ensures forall k :: k != RegenerationKey ==> (k in r <==> k in data) && (k in data ==> r[k] == data[k])
    ensures RegenerationKey in data ==> RegenerationKey in r
  {
    if active then data
    else if RegenerationKey !in data || Regenerates(data, active, now) then data[RegenerationKey := Time(now)]
    else data
  }

  /** The regeneration timer: after the first start of a request the recorded time is at
      most 300 seconds old, it is reset exactly when the id is regenerated or on the very first
      start, and nothing else in the session changes. */
  lemma RegenerationTimer(data: map<string, SessionValue>, now: int)
    requires RegenerationKey in data ==> data[RegenerationKey].Time?
    ensures var s := StartedData(data, false, now);
      RegenerationKey in s && s[RegenerationKey].Time? && now - s[RegenerationKey].t <= RegenerationInterval
    ensures var s := StartedData(data, false, now);
      (s[RegenerationKey] == Time(now) <==> RegenerationKey !in data || Regenerates(data, false, now) ||
                                             data[RegenerationKey] == Time(now))
    ensures forall k :: k != RegenerationKey ==>
      (k in StartedData(data, false, now) <==> k in data) &&
      (k in data ==> StartedData(data, false, now)[k] == data[k])
  {
  }

  /** Starting the session touches only the regeneration time, so the login flag and the
      CSRF verdict read the same before and after. */
  lemma StartKeepsLoginAndToken(data: map<string, SessionValue>, active: bool, now: int, token: Option<string>)
    ensures LoggedIn(StartedData(data, active, now)) <==> LoggedIn(data)
    ensures CsrfAccepts(StartedData(data, active, now), token) <==> CsrfAccepts(data, token)
    ensures Flashed(StartedData(data, active, now), ErrorMessageKey) == Flashed(data, ErrorMessageKey)
    ensures Flashed(StartedData(data, active, now), SuccessMessageKey) == Flashed(data, SuccessMessageKey)
  {
  }

  /** The session map after csrfToken: a token is stored only when none is. */
  function IssuedData(data: map<string, SessionValue>, newToken: string): (r: map<string, SessionValue>)
    ensures CsrfKey in r
    ensures CsrfKey in data ==> r == data
    ensures CsrfKey !in data ==> r == data[CsrfKey := Text(newToken)]
  {
    if CsrfKey in data then data else data[CsrfKey := Text(newToken)]
  }

  /** csrfValidate's verdict: a truthy submitted token equal to the stored one. */
  predicate CsrfAccepts(data: map<string, SessionValue>, token: Option<string>): (r: bool)
    ensures r ==> token.Some? && !PhpEmpty(token.value) && CsrfKey in data && data[CsrfKey] == Text(token.value)
    ensures !Truthy(token) || CsrfKey !in data ==> !r
  {
    Truthy(token) && CsrfKey in data && data[CsrfKey] == Text(token.value)
  }

  /** The token once issued stays: a second csrfToken returns the same token whatever new
      value it is offered. */
  lemma TokenIsStable(data: map<string, SessionValue>, token1: string, token2: string)
    ensures IssuedData(IssuedData(data, token1), token2) == IssuedData(data, token1)
  {
  }

  /** A form carrying the issued token passes validation, provided the token is not a falsy
      string; any other token fails, as do a missing or empty one. */
  lemma IssuedTokenAccepted(data: map<string, SessionValue>, newToken: string, token: Option<string>)
    requires CsrfKey in data ==> data[CsrfKey].Text?
    ensures var d := IssuedData(data, newToken);
      CsrfAccepts(d, token) <==> Truthy(token) && token.value == d[CsrfKey].s
    ensures !Truthy(token) ==> !CsrfAccepts(IssuedData(data, newToken), token)
  {
  }

  /** The session map after requireAuth has sent an anonymous visitor to the login page: the
      requested URL is remembered unless one already is. */
  function RecordRedirect(data: map<string, SessionValue>, requestUri: Option<string>): (r: map<string, SessionValue>)
    ensures RedirectKey in r
    ensures RedirectKey in data ==> r == data
    ensures RedirectKey !in data ==> r[RedirectKey] == Text(if requestUri.Some? then requestUri.value else DefaultRedirect)
    ensures forall k :: k != RedirectKey ==> (k in r <==> k in data) && (k in data ==> r[k] == data[k])
  {
    if RedirectKey in data then data
    else data[RedirectKey := Text(if requestUri.Some? then requestUri.value else DefaultRedirect)]
  }

  /** What getLoginRedirect returns for a session map. */
  function RedirectTarget(data: map<string, SessionValue>): string
  {
    if RedirectKey in data && data[RedirectKey].Text? then data[RedirectKey].s else DefaultRedirect
  }

  /** After login the visitor goes back to the first URL that sent them to the login page, and
      the remembered URL is then gone. */
  lemma FirstRedirectWins(data: map<string, SessionValue>, first: Option<string>, second: Option<string>)
    requires RedirectKey !in data
    ensures RedirectTarget(RecordRedirect(RecordRedirect(data, first), second)) ==
      if first.Some? then first.value else DefaultRedirect
    ensures RedirectKey !in RecordRedirect(data, first) - {RedirectKey}
    ensures RedirectTarget(RecordRedirect(data, first) - {RedirectKey}) == DefaultRedirect
  {
  }

  /** The flag Auth::login sets, compared strictly with true. */
  predicate LoggedIn(data: map<string, SessionValue>)
  {
    LoggedInKey in data && data[LoggedInKey] == Flag(true)
  }

  /** The one-shot message a previous request left under `key`, or "". */
  function Flashed(data: map<string, SessionValue>, key: string): string
  {
    if key in data && data[key].Text? then data[key].s else ""
  }

  /** The session map as the admin pages see it. */
  class Session {
    var data: map<string, SessionValue>
    /** session_status() === PHP_SESSION_ACTIVE within the current request. */
    var active: bool
    /** How many times session_regenerate_id has been called. */
    var regenerations: nat

    /** The keys Auth writes hold the kind of value Auth writes there. */
    ghost predicate Valid()
      reads this
    {
      (RegenerationKey in data ==> data[RegenerationKey].Time?) &&
      (CsrfKey in data ==> data[CsrfKey].Text?) &&
      (RedirectKey in data ==> data[RedirectKey].Text?) &&
      (ErrorMessageKey in data ==> data[ErrorMessageKey].Text?) &&
      (SuccessMessageKey in data ==> data[SuccessMessageKey].Text?)
    }

    /** A request's session as stored from earlier requests, not yet started. */
    constructor (stored: map<string, SessionValue>)
      requires RegenerationKey in stored ==> stored[RegenerationKey].Time?
      requires CsrfKey in stored ==> stored[CsrfKey].Text?
      requires RedirectKey in stored ==> stored[RedirectKey].Text?
      requires ErrorMessageKey in stored ==> stored[ErrorMessageKey].Text?
      requires SuccessMessageKey in stored ==> stored[SuccessMessageKey].Text?
      ensures Valid() && data == stored && !active && regenerations == 0
    {
      data := stored;
      active := false;
      regenerations := 0;
    }

    /** Auth::startSession. */
    method StartSession(now: int)
      requires Valid()
      modifies this
      ensures Valid() && active
      ensures data == StartedData(old(data), old(active), now)
      ensures regenerations == old(regenerations) + if Regenerates(old(data), old(active), now) then 1 else 0
    {
      if !active {
        active := true;
        if RegenerationKey !in data {
          data := data[RegenerationKey := Time(now)];
        } else if now - data[RegenerationKey].t > RegenerationInterval {
          regenerations := regenerations + 1;
          data := data[RegenerationKey := Time(now)];
        }
      }
    }

    /** Auth::isLoggedIn: the flag must be exactly true. */
    method IsLoggedIn(now: int) returns (loggedIn: bool)
      requires Valid()
      modifies this
      ensures Valid() && active
      ensures data == StartedData(old(data), old(active), now)
      ensures loggedIn <==> LoggedIn(old(data))
    {
      StartSession(now);
      loggedIn := LoggedInKey in data && data[LoggedInKey] == Flag(true);
    }

    /** Auth::login. */
    method Login(now: int)
      requires Valid()
      modifies this
      ensures Valid() && active
      ensures data == StartedData(old(data), old(active), now)[LoggedInKey := Flag(true)]
    {
      StartSession(now);
      data := data[LoggedInKey := Flag(true)];
    }

    /** Auth::logout: the whole map is emptied and the session destroyed. */
    method Logout(now: int)
      requires Valid()
      modifies this
      ensures Valid() && !active
      ensures data == map[]
    {
      StartSession(now);
      data := map[];
      active := false;
    }

    /** Auth::requireAuth: for a visitor who is not logged in, remember where they were going
        (unless something is remembered already) and send them to the login page. */
    method RequireAuth(now: int, requestUri: Option<string>) returns (toLogin: bool)
      requires Valid()
      modifies this
      ensures Valid() && active
      ensures toLogin <==> !LoggedIn(old(data))
      ensures toLogin ==> data == RecordRedirect(StartedData(old(data), old(active), now), requestUri)
      ensures !toLogin ==> data == StartedData(old(data), old(active), now)
    {
      var loggedIn := IsLoggedIn(now);
      toLogin := !loggedIn;
      if toLogin {
        if RedirectKey !in data {
          data := data[RedirectKey := Text(if requestUri.Some? then requestUri.value else DefaultRedirect)];
        }
      }
    }

    /** Auth::csrfToken: the stored token, created from `newToken` when there is none. */
    method CsrfToken(now: int, newToken: string) returns (token: string)
      requires Valid()
      modifies this
      ensures Valid() && active
      ensures data == IssuedData(StartedData(old(data), old(active), now), newToken)
      ensures CsrfKey in old(data) ==> token == old(data)[CsrfKey].s
      ensures CsrfKey !in old(data) ==> token == newToken
    {
      StartSession(now);
      if CsrfKey !in data {
        data := data[CsrfKey := Text(newToken)];
      }
      token := data[CsrfKey].s;
    }

    /** Auth::csrfValidate: compares with the stored token and never rotates it. */
    method CsrfValidate(now: int, token: Option<string>) returns (valid: bool)
      requires Valid()
      modifies this
      ensures Valid() && active
      ensures data == StartedData(old(data), old(active), now)
      ensures valid == CsrfAccepts(old(data), token)
    {
      StartSession(now);
      if !Truthy(token) || CsrfKey !in data {
        return false;
      }
      valid := data[CsrfKey].s == token.value;
    }

    /** Auth::getLoginRedirect: the remembered URL or /admin/, and the URL is forgotten. */
    method GetLoginRedirect(now: int) returns (target: string)
      requires Valid()
      modifies this
      ensures Valid() && active
      ensures data == StartedData(old(data), old(active), now) - {RedirectKey}
      ensures target == RedirectTarget(old(data))
    {
      StartSession(now);
      target := if RedirectKey in data then data[RedirectKey].s else DefaultRedirect;
      data := data - {RedirectKey};
    }

    /** The opening lines of admin/game.php and admin/updates.php: read both messages,
        defaulting to "", and remove them from the session. */
    method TakeFlash() returns (error: string, success: string)
      requires Valid()
      modifies this
      ensures Valid() && active == old(active) && regenerations == old(regenerations)
      ensures data == old(data) - {ErrorMessageKey, SuccessMessageKey}
      ensures error == Flashed(old(data), ErrorMessageKey)
      ensures success == Flashed(old(data), SuccessMessageKey)
    {
      error := if ErrorMessageKey in data then data[ErrorMessageKey].s else "";
      success := if SuccessMessageKey in data then data[SuccessMessageKey].s else "";
      data := data - {ErrorMessageKey, SuccessMessageKey};
    }

    /** $_SESSION['error_message'] = ... or $_SESSION['success_message'] = ... */
    method Flash(key: string, message: string)
      requires Valid() && (key == ErrorMessageKey || key == SuccessMessageKey)
      modifies this
      ensures Valid() && active == old(active) && regenerations == old(regenerations)
      ensures data == old(data)[key := Text(message)]
    {
      data := data[key := Text(message)];
    }
  }
}
