/** The `NeedAuth` route middleware, as functions of the session's login state. */
module NeedAuth {
  import opened UserStore
  import opened Framework
  import Auth

  const LoginRequiredMessage: string := "ログインが必要です。"

  /** `NeedAuth::handle`: asks an anonymous visitor to log in, and does nothing else. */
  function Handle(s: Session): (r: Session)
    ensures Auth.IsLogined(r) == Auth.IsLogined(s)
    ensures r.vars == s.vars && r.remembered == s.remembered
    ensures !Auth.IsLogined(s) ==> AddsOneFlash(s, r, Flash(Info, LoginRequiredMessage))
    ensures Auth.IsLogined(s) ==> r == s
  {
    if !Auth.IsLogined(s) then AddFlash(s, Info, LoginRequiredMessage) else s
  }

  /** `NeedAuth::shouldOverride`: the route is replaced exactly when nobody is logged in. */
  predicate ShouldOverride(s: Session): (r: bool)
    ensures r <==> (Auth.LoginKey !in s.vars || s.vars[Auth.LoginKey] == Null)
    ensures r <==> Handle(s) != s
  {
    !Auth.IsLogined(s)
  }

  /** A successful login lets the visitor through; a logout sends them back. */
  lemma LoginAndLogoutGate(t: Table, s: Session, id: string, password: string)
    ensures Auth.Login(t, s, id, password).ok ==> !ShouldOverride(Auth.Login(t, s, id, password).session)
    ensures ShouldOverride(Auth.Logout(s))
  {
  }
}
