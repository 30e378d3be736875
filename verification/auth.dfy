/**
 * The session gate (`Auth`): checks credentials against the user table and
 * records the logged-in user under the session key `AYLogin`.
 *
 * `Auth::login` opens its own database connection; here the table is passed
 * in, and a failing connection is modelled by the controllers that call it.
 * No operation of this module returns a table, so none of them changes one.
 */
module Auth {
  import Password
  import opened UserStore
  import opened Framework

  const LoginKey: string := "AYLogin"

  /** Whether the login succeeded, and the session afterwards. */
  datatype LoginStep = LoginStep(ok: bool, session: Session)

  /**
   * `Auth::login`: fails when no live row has the id, or when the password
   * does not verify against the first such row's hash; otherwise stores the
   * id under `AYLogin`. A failure leaves the session as it was.
   */
  function Login(t: Table, s: Session, id: string, password: string): (r: LoginStep)
    ensures !HasLive(t, id) ==> r == LoginStep(false, s)
    ensures HasLive(t, id) ==>
      r.ok == Password.Verify(password, Select(t, id, false)[0].pwHash)
    ensures !r.ok ==> r.session == s
    ensures r.ok ==> r.session == s.(vars := s.vars[LoginKey := LoginEntry(id)])
    ensures r.ok ==> exists i :: 0 <= i < |t| && Matches(t[i], id, false) && Password.Verify(password, t[i].pwHash)
  {
    var result := GetUser(t, id);
    if !result.IsSucceed() then
      LoginStep(false, s)
    else if !Password.Verify(password, result.data[0].pwHash) then
      LoginStep(false, s)
    else
      assert result.data[0] in t;
      LoginStep(true, s.(vars := s.vars[LoginKey := LoginEntry(id)]))
  }

  /** `Auth::logout`: `$_SESSION = []`. */
  function Logout(s: Session): (r: Session)
    ensures LoginKey !in r.vars
    ensures r.vars == map[] && r.flashes == [] && r.remembered == map[]
  {
    EmptySession
  }

  /** `Auth::isLogined`: PHP's `isset` is false for a missing key and for a `null` value. */
  predicate IsLogined(s: Session): (r: bool)
    ensures LoginKey !in s.vars ==> !r
    ensures LoginKey in s.vars && s.vars[LoginKey] == Null ==> !r
    ensures LoginKey in s.vars && s.vars[LoginKey] != Null ==> r
  {
    LoginKey in s.vars && s.vars[LoginKey] != Null
  }

  /** `Auth::getLoginUser`: the entry under `AYLogin`; callers check `IsLogined` first. */
  function GetLoginUser(s: Session): (r: Value)
    requires IsLogined(s)
    ensures r == s.vars[LoginKey]
    ensures r != Null && r in s.vars.Values
  {
    s.vars[LoginKey]
  }

  /** A successful login makes the session logged in as exactly that id; other keys keep their values. */
  lemma LoginThenCurrentUser(t: Table, s: Session, id: string, password: string)
    requires Login(t, s, id, password).ok
    ensures var s' := Login(t, s, id, password).session;
      IsLogined(s') && GetLoginUser(s') == LoginEntry(id)
      && (forall k :: k in s.vars && k != LoginKey ==> k in s'.vars && s'.vars[k] == s.vars[k])
      && s'.flashes == s.flashes && s'.remembered == s.remembered
  {
  }

  /**
   * The caller cannot tell an unknown id from a wrong password: both give
   * `false` and the untouched session.
   */
  lemma LoginFailuresIndistinguishable(t: Table, s: Session, unknown: string, known: string, wrong: string)
    requires !HasLive(t, unknown)
    requires HasLive(t, known) && !Password.Verify(wrong, Select(t, known, false)[0].pwHash)
    ensures Login(t, s, unknown, wrong) == Login(t, s, known, wrong) == LoginStep(false, s)
  {
  }

  /** After `logout` nobody is logged in, whatever the session held. */
  lemma LogoutLogsOut(s: Session)
    ensures !IsLogined(Logout(s))
  {
  }
}
