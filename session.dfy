/**
 * App/Lib/Session.php: the session gate. The class keeps $_SESSION (`store`),
 * whether a session is active (session_status() == PHP_SESSION_ACTIVE), the
 * data the session backend would load for this client (`saved`), and the
 * cookie parameters and id regeneration that session_start is wrapped in.
 * Redirects, status codes and die are returned as Effect values.
 */
module SessionGate {
  import opened Php
  import opened Helpers
  import Router

  /** SESSION_TIME from App/Config/Config.php, in seconds. */
  const SessionTime := 7200

  /** The number of keys a logged-in session must hold. */
  const ExpectedKeys := 7

  const RefCookieName := "aff_value"

  datatype CookieParams = CookieParams(lifetime: int, path: string, secure: bool, httpOnly: bool, sameSite: string)

  /** SetSessionCookie(): lifetime SESSION_TIME, path /, secure iff HTTPS, httponly, SameSite Lax. */
  function SessionCookie(https: bool): (r: CookieParams)
    ensures r.lifetime == SessionTime && r.path == "/"
    ensures r.secure <==> https
    ensures r.httpOnly && r.sameSite == "Lax"
  {
    CookieParams(SessionTime, "/", https, true, "Lax")
  }

  /** What a call returns to its caller, and what it did to the response. */
  datatype Reply = Reply(value: Value, effects: seq<Effect>)

  // ---------------------------------------------------------------------------
  // getUrl() and the sessionValidator decision

  /** Session::getUrl(): the `?url=` segments, or null when `?url` is absent. */
  function GetUrl(query: map<string, string>): (r: Option<seq<string>>)
    ensures r.Some? <==> "url" in query
    ensures r.Some? ==> |r.value| >= 1
  {
    if "url" in query then Some(Router.UrlOverride(query["url"])) else None
  }

  /** With `?url` present, Session::getUrl and Core::getUrl agree. */
  lemma GetUrlAgreesWithCore(req: Router.Request, appController: string)
    requires "url" in req.query
    ensures GetUrl(req.query) == Some(Router.GetUrl(req, appController))
  {
  }

  /** isset(self::getUrl()[1]): the second `?url` segment, if any. */
  function SecondSegment(query: map<string, string>): (r: Option<string>)
    ensures r.Some? ==> "url" in query
  {
    match GetUrl(query)
    case None => None
    case Some(segments) => if |segments| > 1 then Some(segments[1]) else None
  }

  /** The branches of sessionValidator that return null without looking at the session. */
  predicate Bypassed(segment: Option<string>, exceptions: seq<string>) {
    segment.Some? && (Contains(segment.value, "cron") || |exceptions| > 0)
  }

  /**
   * The decision sessionValidator($exc, $validate) takes once the session is
   * open: a second segment containing "cron" bypasses everything and returns
   * null; a non-empty exception list with a second segment runs a loop whose
   * body does nothing and returns null whether or not the segment matches;
   * otherwise soft mode ($validate) answers whether the store is non-empty,
   * and strict mode on an empty store answers 401-and-stop for a POST and a
   * redirect to APP_URL (then null) for any other method.
   */
  function Validate(
    segment: Option<string>, exceptions: seq<string>, validate: bool,
    storeEmpty: bool, requestMethod: string, appUrl: string): (r: Reply)
    ensures segment.Some? && Contains(segment.value, "cron") ==> r == Reply(Null, [])
    ensures segment.Some? && |exceptions| > 0 ==> r == Reply(Null, [])
    ensures r.value == Bool(true) <==>
      && !(segment.Some? && (Contains(segment.value, "cron") || |exceptions| > 0))
      && validate && !storeEmpty
    ensures r.value.Bool? ==> validate || !storeEmpty
    ensures Exit in r.effects <==>
      && !(segment.Some? && (Contains(segment.value, "cron") || |exceptions| > 0))
      && !validate && storeEmpty && requestMethod == "POST"
    ensures r.effects != [] ==> !validate && storeEmpty && r.value == Null
    ensures Bypassed(segment, exceptions) ==> r == Reply(Null, [])
    ensures !Bypassed(segment, exceptions) && !validate && storeEmpty && requestMethod == "POST"
      ==> r == Reply(Null, [ResponseCode(401), Exit])
    ensures !Bypassed(segment, exceptions) && !validate && storeEmpty && requestMethod != "POST"
      ==> r == Reply(Null, [Header("Location: " + appUrl)])
    ensures !Bypassed(segment, exceptions) && !(validate && !storeEmpty) && !(!validate && storeEmpty)
      ==> r == Reply(Bool(false), [])
  {
    assert "Location: " + appUrl + "" == "Location: " + appUrl;
    if segment.Some? && Contains(segment.value, "cron") then
      Reply(Null, [])
    else if |exceptions| > 0 && segment.Some? then
      Reply(Null, [])
    else if !validate && storeEmpty then
      if requestMethod == "POST" then Reply(Null, [ResponseCode(401), Exit])
      else Reply(Null, [Redirect(appUrl, None)])
    else if validate && !storeEmpty then Reply(Bool(true), [])
    else Reply(Bool(false), [])
  }

  /** Soft validation reports exactly whether the store holds anything, whatever the request method. */
  lemma SoftValidationIsStoreNonEmpty(segment: Option<string>, storeEmpty: bool, requestMethod: string, appUrl: string)
    requires !(segment.Some? && Contains(segment.value, "cron"))
    ensures Validate(segment, [], true, storeEmpty, requestMethod, appUrl) == Reply(Bool(!storeEmpty), [])
  {
  }

  /** Strict validation on an empty store: a POST gets 401 and stops, anything else is redirected to APP_URL. */
  lemma StrictValidationOnEmptyStore(segment: Option<string>, requestMethod: string, appUrl: string)
    requires !(segment.Some? && Contains(segment.value, "cron"))
    ensures requestMethod == "POST" ==>
      Validate(segment, [], false, true, requestMethod, appUrl) == Reply(Null, [ResponseCode(401), Exit])
    ensures requestMethod != "POST" ==>
      Validate(segment, [], false, true, requestMethod, appUrl) == Reply(Null, [Header("Location: " + appUrl)])
  {
  }

  // ---------------------------------------------------------------------------
  // SessionStart's write

  /** The store after SessionStart writes the user id and login_status = 1. */
  function StartedStore(store: map<string, Value>, userId: Value): (r: map<string, Value>)
    ensures r.Keys == store.Keys + {"id", "login_status"}
    ensures r["id"] == userId && r["login_status"] == Int(1)
    ensures forall k :: k in store && k != "id" && k != "login_status" ==> r[k] == store[k]
  {
    store["id" := userId]["login_status" := Int(1)]
  }

  /** The write adds one key for each of id and login_status that was missing. */
  lemma StartedStoreSize(store: map<string, Value>, userId: Value)
    ensures |StartedStore(store, userId)|
         == |store| + (if "id" in store then 0 else 1) + (if "login_status" in store then 0 else 1)
  {
    var withId := store["id" := userId];
    assert |withId| == |store| + (if "id" in store then 0 else 1);
    assert "login_status" in withId <==> "login_status" in store;
    assert |withId["login_status" := Int(1)]| == |withId| + (if "login_status" in withId then 0 else 1);
  }

  /** A second login on the same store, for any user, finds the key count the first one left. */
  lemma RestartKeepsKeyCount(store: map<string, Value>, first: Value, second: Value)
    ensures |StartedStore(StartedStore(store, first), second)| == |StartedStore(store, first)|
  {
    StartedStoreSize(StartedStore(store, first), second);
  }

  // ---------------------------------------------------------------------------
  // setRefCookie($id, $delete)

  datatype RefCookieReply = RefCookieReply(effects: seq<Effect>, cookieStillPresent: bool)

  /**
   * SetRefCookie($id, $delete): with $delete and the cookie present, it is
   * expired and dropped from $_COOKIE; with `$id != null` (loosely, so 0
   * counts as null) the cookie is set for two hours, Strict and httponly,
   * and the client is redirected to "/".
   */
  function SetRefCookie(id: Option<int>, delete: bool, cookiePresent: bool, now: int, https: bool, appUrl: string)
    : (r: RefCookieReply)
    requires now >= 0  // time()
    ensures r.cookieStillPresent == (cookiePresent && !delete)
    ensures (exists c :: SetCookie(c) in r.effects && c.expires < now) <==> delete && cookiePresent
    ensures (exists c :: SetCookie(c) in r.effects && c.expires > now) <==> id.Some? && id.value != 0
    ensures id.Some? && id.value != 0 ==>
      && SetCookie(Cookie(RefCookieName, Int(id.value), now + SessionTime, "/", https, true, "Strict")) in r.effects
      && r.effects[|r.effects| - 1] == Redirect(appUrl, Some("/"))
    ensures !(id.Some? && id.value != 0) ==> forall e :: e in r.effects ==> !e.Header?
    ensures |r.effects| == (if delete && cookiePresent then 1 else 0) + (if id.Some? && id.value != 0 then 2 else 0)
    ensures delete && cookiePresent ==> r.effects[0] == SetCookie(Cookie(RefCookieName, Null, -1, "/", false, false, ""))
  {
    var expire := Cookie(RefCookieName, Null, -1, "/", false, false, "");
    var setRef := Cookie(RefCookieName, Int(if id.Some? then id.value else 0), now + SessionTime, "/", https, true, "Strict");
    var deleted := if delete && cookiePresent then [SetCookie(expire)] else [];
    var setting := if id.Some? && id.value != 0 then [SetCookie(setRef), Redirect(appUrl, Some("/"))] else [];
    assert delete && cookiePresent ==> SetCookie(expire) in deleted + setting;
    assert id.Some? && id.value != 0 ==> SetCookie(setRef) in deleted + setting;
    RefCookieReply(deleted + setting, cookiePresent && !delete)
  }

  // ---------------------------------------------------------------------------
  // The session itself

  class Session {
    var store: map<string, Value>
    var saved: map<string, Value>
    var active: bool
    var cookieParams: Option<CookieParams>
    var idRegenerated: bool

    /** A request before any session call: nothing started, $_SESSION not loaded. */
    constructor (saved: map<string, Value>)
      ensures this.saved == saved && store == map[] && !active
      ensures cookieParams == None && !idRegenerated
    {
      this.saved := saved;
      store := map[];
      active := false;
      cookieParams := None;
      idRegenerated := false;
    }

    /** What $_SESSION holds once the session is open. */
    function Loaded(): map<string, Value>
      reads this
    {
      if active then store else saved
    }

    /**
     * The prologue every gate method shares: when no session is active, set
     * the session cookie parameters and start it, loading the saved data.
     */
    method Open(https: bool)
      modifies this
      ensures active && store == old(Loaded()) && saved == old(saved)
      ensures cookieParams == if old(active) then old(cookieParams) else Some(SessionCookie(https))
      ensures idRegenerated == old(idRegenerated)
    {
      if !active {
        cookieParams := Some(SessionCookie(https));
        store := saved;
        active := true;
      }
    }

    /**
     * SessionStart($user): opens and regenerates the id only when no session
     * is active, writes id and login_status = 1, and succeeds iff the store
     * then holds exactly seven keys.
     */
    method SessionStart(userId: Value, https: bool) returns (ok: bool)
      modifies this
      ensures active && saved == old(saved)
      ensures store == StartedStore(old(Loaded()), userId)
      ensures ok <==> |store| == ExpectedKeys
      ensures cookieParams == if old(active) then old(cookieParams) else Some(SessionCookie(https))
      ensures idRegenerated == (old(idRegenerated) || !old(active))
    {
      ghost var loaded := Loaded();
      if !active {
        Open(https);
        idRegenerated := true;
      }
      assert store == loaded;
      store := store["id" := userId];
      store := store["login_status" := Int(1)];
      ok := |store| == ExpectedKeys;
    }

    /**
     * islogged(): redirects to APP_URL/HOME iff the store is non-empty. The
     * redirect only sets a header, so the request goes on.
     */
    method IsLogged(appUrl: string, home: string, https: bool) returns (effects: seq<Effect>)
      modifies this
      ensures active && store == old(Loaded()) && saved == old(saved)
      ensures effects == if |store| > 0 then [Redirect(appUrl, Some("/" + home))] else []
      ensures cookieParams == if old(active) then old(cookieParams) else Some(SessionCookie(https))
      ensures idRegenerated == old(idRegenerated)
      ensures Exit !in effects
    {
      Open(https);
      effects := [];
      if |store| > 0 {
        effects := [Redirect(appUrl, Some("/" + home))];
      }
    }

    /** sessionValidator($exc, $validate): opens the session, then decides as Validate does. */
    method SessionValidator(
      exceptions: seq<string>, validate: bool, query: map<string, string>,
      requestMethod: string, appUrl: string, https: bool) returns (reply: Reply)
      modifies this
      ensures active && store == old(Loaded()) && saved == old(saved)
      ensures reply == Validate(SecondSegment(query), exceptions, validate, |store| == 0, requestMethod, appUrl)
      ensures cookieParams == if old(active) then old(cookieParams) else Some(SessionCookie(https))
      ensures idRegenerated == old(idRegenerated)
    {
      Open(https);
      reply := Validate(SecondSegment(query), exceptions, validate, |store| == 0, requestMethod, appUrl);
    }

    /**
     * sessionDestroy($redirect): empties $_SESSION, destroys the session
     * (always, as the store is then empty) and redirects to APP_URL iff
     * $redirect.
     */
    method SessionDestroy(redirect: bool, appUrl: string) returns (effects: seq<Effect>)
      modifies this
      ensures store == map[] && saved == map[] && !active
      ensures effects == if redirect then [Redirect(appUrl, None)] else []
      ensures cookieParams == old(cookieParams) && idRegenerated == old(idRegenerated)
    {
      if !active {
        store := saved;
        active := true;
      }
      store := map[];
      if |store| == 0 {
        saved := map[];
        active := false;
      }
      effects := if redirect then [Redirect(appUrl, None)] else [];
    }
  }

  /** After sessionDestroy, soft validation reports false. */
  method LogoutThenValidate(s: Session, query: map<string, string>, requestMethod: string, appUrl: string, https: bool)
    returns (reply: Reply)
    requires !(SecondSegment(query).Some? && Contains(SecondSegment(query).value, "cron"))
    modifies s
    ensures reply == Reply(Bool(false), []) && s.store == map[]
  {
    var _ := s.SessionDestroy(false, appUrl);
    reply := s.SessionValidator([], true, query, requestMethod, appUrl, https);
  }
}
