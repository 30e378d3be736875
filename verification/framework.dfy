/**
 * The pieces of the external web framework that the application's
 * controllers, helpers and middleware touch: the PHP session, the flash
 * message queue, the remembered form input and the redirect.
 *
 * The framework keeps its flash queue and the remembered form input inside
 * `$_SESSION`, so a session value carries all three; emptying `$_SESSION`
 * empties them all.
 */
module Framework {

  /** A value stored under a session key. */
  datatype Value =
    | Null                  // a key holding PHP `null`
    | LoginEntry(id: string) // `['id' => $user_id]`, written by `Auth::login`
    | Text(text: string)     // any other scalar the framework stores

  /** The severities of `FlashMessage::info`, `::alert` and `::error`. */
  datatype Kind = Info | Alert | Error

  datatype Flash = Flash(kind: Kind, text: string)

  /** `$_SESSION`: ordinary keys, the queued flash messages and the remembered form input. */
  datatype Session = Session(
    vars: map<string, Value>,
    flashes: seq<Flash>,
    remembered: map<string, string>)

  /** `$_SESSION = []`. */
  const EmptySession: Session := Session(map[], [], map[])

  /** `FlashMessage::info/alert/error($text)`: queues one message behind the others. */
  function AddFlash(s: Session, kind: Kind, text: string): (r: Session)
    ensures r.flashes == s.flashes + [Flash(kind, text)]
    ensures r.vars == s.vars && r.remembered == s.remembered
  {
    s.(flashes := s.flashes + [Flash(kind, text)])
  }

  /** `Controller::unsetRemain()`: forgets the remembered form input. */
  function UnsetRemain(s: Session): (r: Session)
    ensures r.remembered == map[]
    ensures r.vars == s.vars && r.flashes == s.flashes
  {
    s.(remembered := map[])
  }

  /** The most recently queued flash message. */
  function LastFlash(s: Session): Flash
    requires s.flashes != []
  {
    s.flashes[|s.flashes| - 1]
  }

  /** `s'` is `s` with exactly one more flash message, `f`, queued at the end. */
  predicate AddsOneFlash(s: Session, s': Session, f: Flash) {
    |s'.flashes| == |s.flashes| + 1 && s'.flashes[..|s.flashes|] == s.flashes && LastFlash(s') == f
  }

  /** What a browser-facing controller ends with: the session it leaves and the one redirect it issues. */
  datatype Response = Response(session: Session, redirect: string)
}
