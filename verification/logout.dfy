/** The logout controller (`session/Logout::main`). */
module LogoutController {
  import opened Framework
  import Auth

  const LoggedOutMessage: string := "ログアウトしました。"
  const Redirect: string := "/"

  /**
   * `Logout::main`: empties the session, then queues the farewell message, so
   * that message is the only thing the session holds afterwards.
   */
  function Main(s: Session): (r: Response)
    ensures !Auth.IsLogined(r.session)
    ensures r.session.flashes == [Flash(Info, LoggedOutMessage)]
    ensures r.session.vars == map[] && r.session.remembered == map[]
    ensures r.redirect == Redirect
  {
    Response(AddFlash(Auth.Logout(s), Info, LoggedOutMessage), Redirect)
  }

  /** Logging out gives the same result whatever the session held, logged in or not. */
  lemma MainIsUnconditional(s1: Session, s2: Session)
    ensures Main(s1) == Main(s2)
  {
  }
}
