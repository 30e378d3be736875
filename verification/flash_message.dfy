/**
 * The flash message view component (`FlashMessage::render`): one
 * `<div class="alert ...">` per queued message, in queue order, with the
 * text HTML-escaped.
 */
module FlashMessage {
  import opened Wrappers
  import opened Framework
  import opened Html

  /**
   * The value stored under a message's `alert_type`: one of the framework's
   * `INFO`, `ERROR`, `ALERT` constants, or any other value.
   */
  datatype TypeTag = Known(kind: Kind) | Unknown(raw: string)

  /** A message as the framework stores it; either key may be missing. */
  datatype StoredMessage = StoredMessage(alertType: Option<TypeTag>, text: Option<string>)

  /** How `FlashMessage::info/alert/error` store a queued message. */
  function Stored(f: Flash): StoredMessage {
    StoredMessage(Some(Known(f.kind)), Some(f.text))
  }

  /** The whole queue as the framework stores it. */
  function StoredQueue(fs: seq<Flash>): (r: seq<StoredMessage>)
    ensures |r| == |fs|
    ensures forall k :: 0 <= k < |fs| ==> r[k] == Stored(fs[k])
  {
    if fs == [] then [] else [Stored(fs[0])] + StoredQueue(fs[1..])
  }

  /** `TYPE_CLASS_MAP[$type] ?? 'alert-info'`. */
  function TypeClass(tag: TypeTag): string {
    match tag
    case Known(Info) => "alert-info"
    case Known(Error) => "alert-error"
    case Known(Alert) => "alert-warning"
    case Unknown(_) => "alert-info"
  }

  const DivOpen: string := "<div class=\"alert "
  const DivClose: string := "</div>"

  /** The markup for one message: a missing type counts as `INFO` and a missing text as `''`. */
  function Div(m: StoredMessage): string {
    var tag := m.alertType.GetOr(Known(Info));
    var text := m.text.GetOr("");
    DivOpen + TypeClass(tag) + "\">" + H(text) + DivClose
  }

  /** The markup for each message, in order. */
  function Divs(ms: seq<StoredMessage>): (r: seq<string>)
    ensures |r| == |ms|
    ensures forall k :: 0 <= k < |ms| ==> r[k] == Div(ms[k])
  {
    if ms == [] then [] else [Div(ms[0])] + Divs(ms[1..])
  }

  function Concat(parts: seq<string>): string {
    if parts == [] then "" else Concat(parts[..|parts| - 1]) + parts[|parts| - 1]
  }

  /**
   * `FlashMessage::render`: echoes one div per message, in order; an empty
   * queue prints nothing.
   */
  method Render(messages: seq<StoredMessage>) returns (out: string)
    ensures messages == [] ==> out == ""
    ensures out == Concat(Divs(messages))
  {
    out := "";
    if |messages| == 0 {
      return;
    }
    var i := 0;
    while i < |messages|
      invariant 0 <= i <= |messages|
      invariant out == Concat(Divs(messages[..i]))
    {
      var divs := Divs(messages[..i + 1]);
      assert messages[..i + 1][..i] == messages[..i];
      assert divs[..i] == Divs(messages[..i]);
      out := out + Div(messages[i]);
      i := i + 1;
    }
    assert messages[..i] == messages;
  }

  /**
   * Each message is one div: it opens with the alert class prefix, ends with
   * the closing tag, and no `<` occurs between the two, so neither the class
   * nor the escaped text can open or close a tag; the escaped text also
   * contains no quote that could end the attribute.
   */
  lemma DivShape(m: StoredMessage)
    ensures DivOpen <= Div(m)
    ensures |Div(m)| >= |DivOpen| + |DivClose| && Div(m)[|Div(m)| - |DivClose|..] == DivClose
    ensures forall k :: |DivOpen| <= k < |Div(m)| - |DivClose| ==> Div(m)[k] != '<'
    ensures forall c :: c in H(m.text.GetOr("")) ==> c !in {'<', '>', '"', '\''}
  {
    var cls := TypeClass(m.alertType.GetOr(Known(Info)));
    var text := H(m.text.GetOr(""));
    assert '<' !in cls;
    var mid := cls + "\">" + text;
    assert '<' !in mid;
    assert Div(m) == DivOpen + mid + DivClose;
    Framed(DivOpen, mid, DivClose, '<');
  }

  /** A character absent from the middle part is absent between the frame's two ends. */
  lemma Framed(open: string, mid: string, close: string, c: char)
    requires c !in mid
    ensures var d := open + mid + close;
      forall k :: |open| <= k < |d| - |close| ==> d[k] != c
  {
    var d := open + mid + close;
    forall k | |open| <= k < |d| - |close| ensures d[k] != c {
      assert d[k] == mid[k - |open|];
    }
  }

  /** `INFO`, `ERROR` and `ALERT` map to `alert-info`, `alert-error` and `alert-warning`; anything else to `alert-info`. */
  lemma TypeClassTable(raw: string, a: Kind, b: Kind)
    ensures TypeClass(Known(a)) == TypeClass(Known(b)) <==> a == b
    ensures TypeClass(Known(Info)) == "alert-info"
    ensures TypeClass(Known(Error)) == "alert-error"
    ensures TypeClass(Known(Alert)) == "alert-warning"
    ensures TypeClass(Unknown(raw)) == TypeClass(Known(Info))
  {
  }

  /** A queue of one message whose text needs no escaping renders as one box showing that text verbatim. */
  lemma RenderSingle(f: Flash)
    requires forall c :: c in f.text ==> !PhpSpecial(c)
    ensures Concat(Divs(StoredQueue([f]))) == DivOpen + TypeClass(Known(f.kind)) + "\">" + f.text + DivClose
  {
    var divs := Divs(StoredQueue([f]));
    assert divs == [Div(Stored(f))];
    assert divs[..0] == [];
  }

  /**
   * A missing type renders as `INFO` and a missing text as the empty text, so
   * a message without either is an empty info box.
   */
  lemma MissingKeysDefault(tag: Option<TypeTag>, text: Option<string>)
    ensures Div(StoredMessage(None, text)) == Div(StoredMessage(Some(Known(Info)), text))
    ensures Div(StoredMessage(tag, None)) == Div(StoredMessage(tag, Some("")))
    ensures Div(StoredMessage(None, None)) == "<div class=\"alert alert-info\"></div>"
  {
    EmptyInfoBox();
  }

  lemma EmptyInfoBox()
    ensures Div(StoredMessage(None, None)) == "<div class=\"alert alert-info\"></div>"
  {
    assert H("") == "";
  }
}
