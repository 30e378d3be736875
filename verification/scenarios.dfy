/**
 * End-to-end properties that cross several files: registration followed by
 * login, repeated registration, and what the next page renders after logout.
 */
module Scenarios {
  import opened Wrappers
  import Password
  import opened UserStore
  import opened Framework
  import Auth
  import SampleRegister
  import LoginController
  import LogoutController
  import NeedAuth
  import FlashMessage
  import Html
  import UserStoreProps

  /**
   * Registering a fresh id and then logging in with the same password
   * succeeds, lands on `/top` and lets the visitor past `NeedAuth`.
   */
  lemma RegisterThenLogin(t: Table, s: Session, s2: Session, id: string, name: string, password: string, salt: nat)
    requires !HasLive(t, id)
    ensures var reg := SampleRegister.Main(t, s, id, name, password, password, salt, false);
      reg.response.redirect == SampleRegister.SuccessRedirect
      && Auth.Login(reg.table, s2, id, password).ok
      && LoginController.Main(reg.table, s2, id, password, false).redirect == LoginController.SuccessRedirect
      && !NeedAuth.ShouldOverride(Auth.Login(reg.table, s2, id, password).session)
  {
    UserStoreProps.CreateThenGet(t, id, name, password, salt);
  }

  /**
   * After registering, a password that differs from the registered one
   * within the 72 bytes bcrypt reads is refused, and the session is left as
   * it was.
   */
  lemma RegisterThenWrongPassword(t: Table, s: Session, s2: Session, id: string, name: string,
                                  password: string, wrong: string, salt: nat)
    requires !HasLive(t, id) && Password.Significant(wrong) != Password.Significant(password)
    ensures var reg := SampleRegister.Main(t, s, id, name, password, password, salt, false);
      Auth.Login(reg.table, s2, id, wrong) == Auth.LoginStep(false, s2)
  {
    UserStoreProps.CreateThenGet(t, id, name, password, salt);
    var reg := SampleRegister.Main(t, s, id, name, password, password, salt, false);
    assert reg.table == CreateUser(t, id, name, password, salt).table;
    Password.VerifyRejectsOthers(password, wrong, salt);
  }

  /**
   * After registering a password of 72 bytes or more, any password that
   * agrees with it on the first 72 bytes logs in.
   */
  lemma RegisterThenLongPrefixLogsIn(t: Table, s: Session, s2: Session, id: string, name: string,
                                     password: string, other: string, salt: nat)
    requires !HasLive(t, id)
    requires |Password.Utf8(password)| >= Password.BcryptLimit && |Password.Utf8(other)| >= Password.BcryptLimit
    requires Password.Utf8(password)[..Password.BcryptLimit] == Password.Utf8(other)[..Password.BcryptLimit]
    ensures var reg := SampleRegister.Main(t, s, id, name, password, password, salt, false);
      Auth.Login(reg.table, s2, id, other).ok
  {
    UserStoreProps.CreateThenGet(t, id, name, password, salt);
    var reg := SampleRegister.Main(t, s, id, name, password, password, salt, false);
    assert reg.table == CreateUser(t, id, name, password, salt).table;
    Password.LongPasswordsCollide(password, other, salt);
  }

  /**
   * Registering the same id twice: the second attempt reports the duplicate,
   * returns to the form and leaves the table as the first attempt left it.
   */
  lemma RegisterTwice(t: Table, s: Session, id: string, n1: string, p1: string, s1: nat, n2: string, p2: string, s2: nat)
    requires !HasLive(t, id)
    ensures var first := SampleRegister.Main(t, s, id, n1, p1, p1, s1, false);
      var second := SampleRegister.Main(first.table, first.response.session, id, n2, p2, p2, s2, false);
      second.table == first.table
      && second.response.redirect == SampleRegister.ErrorRedirect
      && LastFlash(second.response.session) == Flash(Alert, DuplicateMessage)
  {
    UserStoreProps.CreateTwice(t, id, n1, p1, s1, n2, p2, s2);
    var first := SampleRegister.Main(t, s, id, n1, p1, p1, s1, false);
    assert first.table == CreateUser(t, id, n1, p1, s1).table;
  }

  /** The farewell text contains nothing `h` rewrites. */
  lemma FarewellNeedsNoEscaping()
    ensures forall c :: c in LogoutController.LoggedOutMessage ==> !Html.PhpSpecial(c)
  {
  }

  /** The page after logout shows exactly one info box with the farewell text. */
  lemma LogoutRendersFarewell(s: Session)
    ensures var shown := FlashMessage.StoredQueue(LogoutController.Main(s).session.flashes);
      FlashMessage.Concat(FlashMessage.Divs(shown))
      == FlashMessage.DivOpen + "alert-info" + "\">" + LogoutController.LoggedOutMessage + FlashMessage.DivClose
  {
    FarewellNeedsNoEscaping();
    FlashMessage.RenderSingle(Flash(Info, LogoutController.LoggedOutMessage));
  }
}
