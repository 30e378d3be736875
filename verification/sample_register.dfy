/**
 * The sample registration controller (`SampleRegister::main`), run after the
 * framework has validated the four form fields.
 */
module SampleRegister {
  import Password
  import opened UserStore
  import opened Framework

  const MismatchMessage: string := "パスワードが一致しません。"
  const RegisteredMessage: string := "ユーザー登録が完了しました！"
  const FailedMessage: string := "ユーザー登録に失敗しました。"
  /** `$redirectUrlWhenError`. */
  const ErrorRedirect: string := "/sample-register"
  const SuccessRedirect: string := "/"

  /** The table after the request, and the controller's response. */
  datatype Outcome = Outcome(table: Table, response: Response)

  /**
   * `SampleRegister::main`. `salt` is the randomness of `password_hash`;
   * `fault` says that opening the connection or one of `createUser`'s queries
   * throws, which happens before any row is written.
   */
  function Main(t: Table, s: Session, id: string, name: string, password: string, confirm: string,
                salt: nat, fault: bool): (r: Outcome)
    // every path queues exactly one flash message and keeps the other session keys
    ensures |r.response.session.flashes| == |s.flashes| + 1
    ensures r.response.session.flashes[..|s.flashes|] == s.flashes
    ensures r.response.session.vars == s.vars
    // a mismatch is reported before the store is touched
    ensures password != confirm ==>
      r.table == t && r.response.redirect == ErrorRedirect
      && AddsOneFlash(s, r.response.session, Flash(Alert, MismatchMessage))
      && r.response.session.remembered == s.remembered
    // a throwing store gives the generic message and leaves the table alone
    ensures password == confirm && fault ==>
      r.table == t && r.response.redirect == ErrorRedirect
      && AddsOneFlash(s, r.response.session, Flash(Alert, FailedMessage))
      && r.response.session.remembered == s.remembered
    // a live duplicate is reported with the store's message
    ensures password == confirm && !fault && HasLive(t, id) ==>
      r.table == t && r.response.redirect == ErrorRedirect
      && AddsOneFlash(s, r.response.session, Flash(Alert, DuplicateMessage))
      && r.response.session.remembered == s.remembered
    // otherwise exactly one live row is appended and the user is sent home
    ensures password == confirm && !fault && !HasLive(t, id) ==>
      |r.table| == |t| + 1 && r.table[..|t|] == t
      && r.table[|t|].userId == id && r.table[|t|].userName == name && !r.table[|t|].deleted
      && Password.Verify(password, r.table[|t|].pwHash)
      && r.response.redirect == SuccessRedirect
      && AddsOneFlash(s, r.response.session, Flash(Info, RegisteredMessage))
      && r.response.session.remembered == map[]
    ensures r.response.redirect == SuccessRedirect <==> password == confirm && !fault && !HasLive(t, id)
  {
    if password != confirm then
      Outcome(t, Response(AddFlash(s, Alert, MismatchMessage), ErrorRedirect))
    else if fault then
      Outcome(t, Response(AddFlash(s, Alert, FailedMessage), ErrorRedirect))
    else
      var step := CreateUser(t, id, name, password, salt);
      if step.result.IsSucceed() then
        Outcome(step.table, Response(UnsetRemain(AddFlash(s, Info, RegisteredMessage)), SuccessRedirect))
      else
        Outcome(step.table, Response(AddFlash(s, Alert, step.result.message), ErrorRedirect))
  }
}
