/** The login controller (`session/Login::main`). */
module LoginController {
  import opened UserStore
  import opened Framework
  import Auth
  import Password

  const SuccessMessage: string := "ログインに成功しました！"
  const BadCredentialsMessage: string := "IDかパスワードが違うみたいです。"
  const DbFailedMessage: string := "DB接続に失敗しました。"
  const SuccessRedirect: string := "/top"
  /** `$redirectUrlWhenError`. */
  const ErrorRedirect: string := "/login"

  /**
   * `Login::main`. `fault` says that `Auth::login`'s connection or query
   * throws; the exception is logged (not modelled) and reported generically.
   */
  function Main(t: Table, s: Session, id: string, password: string, fault: bool): (r: Response)
    ensures |r.session.flashes| == |s.flashes| + 1 && r.session.flashes[..|s.flashes|] == s.flashes
    ensures fault ==>
      r.redirect == ErrorRedirect && AddsOneFlash(s, r.session, Flash(Alert, DbFailedMessage))
      && r.session.vars == s.vars && r.session.remembered == s.remembered
    ensures !fault && Auth.Login(t, s, id, password).ok ==>
      r.redirect == SuccessRedirect && AddsOneFlash(s, r.session, Flash(Info, SuccessMessage))
      && Auth.IsLogined(r.session) && Auth.GetLoginUser(r.session) == LoginEntry(id)
      && r.session.remembered == map[]
    ensures !fault && !Auth.Login(t, s, id, password).ok ==>
      r.redirect == ErrorRedirect && AddsOneFlash(s, r.session, Flash(Alert, BadCredentialsMessage))
      && r.session.vars == s.vars && r.session.remembered == s.remembered
    ensures r.redirect == SuccessRedirect <==> !fault && Auth.Login(t, s, id, password).ok
  {
    if fault then
      Response(AddFlash(s, Alert, DbFailedMessage), ErrorRedirect)
    else
      var step := Auth.Login(t, s, id, password);
      if step.ok then
        Response(UnsetRemain(AddFlash(step.session, Info, SuccessMessage)), SuccessRedirect)
      else
        Response(AddFlash(step.session, Alert, BadCredentialsMessage), ErrorRedirect)
  }

  /** An unknown id and a wrong password lead to the identical response. */
  lemma UnknownIdLooksLikeWrongPassword(t: Table, s: Session, unknown: string, known: string, wrong: string)
    requires !HasLive(t, unknown)
    requires HasLive(t, known) && !Password.Verify(wrong, Select(t, known, false)[0].pwHash)
    ensures Main(t, s, unknown, wrong, false) == Main(t, s, known, wrong, false)
  {
    Auth.LoginFailuresIndistinguishable(t, s, unknown, known, wrong);
  }
}
