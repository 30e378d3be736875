/**
 * The client-side `util` object: `escapeHtml` and `switchView`.
 */
module Util {
  import opened Wrappers
  import opened Strings
  import opened Html

  /** `str.replace(/c/g, rep)`: every occurrence of one character replaced by a fixed text. */
  function ReplaceAll(s: string, c: char, rep: string): string {
    if s == [] then [] else (if s[0] == c then rep else [s[0]]) + ReplaceAll(s[1..], c, rep)
  }

  lemma {:induction false} ReplaceAllAppend(a: string, b: string, c: char, rep: string)
    ensures ReplaceAll(a + b, c, rep) == ReplaceAll(a, c, rep) + ReplaceAll(b, c, rep)
  {
    if a == [] {
      assert a + b == b;
    } else {
      assert (a + b)[0] == a[0] && (a + b)[1..] == a[1..] + b;
      ReplaceAllAppend(a[1..], b, c, rep);
    }
  }

  lemma {:induction false} ReplaceAllAbsent(s: string, c: char, rep: string)
    requires c !in s
    ensures ReplaceAll(s, c, rep) == s
  {
    if s != [] {
      assert forall x :: x in s[1..] ==> x in s;
      ReplaceAllAbsent(s[1..], c, rep);
      assert s == [s[0]] + s[1..];
    }
  }

  /** The six global replaces of `escapeHtml`, in the order it applies them: `&` first. */
  const EscapeRules: seq<(char, string)> :=
    [('&', "&amp;"), ('<', "&lt;"), ('>', "&gt;"), ('"', "&quot;"), ('\'', "&#39;"), ('/', "&#x2F;")]

  /** Applies the replaces one after another, each to the whole result of the previous one. */
  function ApplyRules(s: string, rules: seq<(char, string)>): string
    decreases |rules|
  {
    if rules == [] then s else ApplyRules(ReplaceAll(s, rules[0].0, rules[0].1), rules[1..])
  }

  /**
   * `util.escapeHtml` as written: a chain of six global replaces, which
   * amounts to replacing each character by its entity.
   */
  function EscapeHtml(s: string): (r: string)
    ensures r == Substitute(s, JsEntity)
  {
    EscapeRulesAreSubstitution(s);
    ApplyRules(s, EscapeRules)
  }

  /** The six characters `escapeHtml` rewrites. */
  predicate JsSpecial(c: char) {
    c == '&' || c == '<' || c == '>' || c == '"' || c == '\'' || c == '/'
  }

  /** The entity `escapeHtml` produces for one character. */
  function JsEntity(c: char): string {
    match c
    case '&' => "&amp;"
    case '<' => "&lt;"
    case '>' => "&gt;"
    case '"' => "&quot;"
    case '\'' => "&#39;"
    case '/' => "&#x2F;"
    case _ => [c]
  }

  lemma {:induction false} ApplyRulesAppend(a: string, b: string, rules: seq<(char, string)>)
    ensures ApplyRules(a + b, rules) == ApplyRules(a, rules) + ApplyRules(b, rules)
    decreases |rules|
  {
    if rules != [] {
      var (c, rep) := rules[0];
      ReplaceAllAppend(a, b, c, rep);
      ApplyRulesAppend(ReplaceAll(a, c, rep), ReplaceAll(b, c, rep), rules[1..]);
    }
  }

  /** Text that no rule targets passes through every replace unchanged. */
  lemma {:induction false} ApplyRulesAbsent(s: string, rules: seq<(char, string)>)
    requires forall i :: 0 <= i < |rules| ==> rules[i].0 !in s
    ensures ApplyRules(s, rules) == s
    decreases |rules|
  {
    if rules != [] {
      ReplaceAllAbsent(s, rules[0].0, rules[0].1);
      var rest := rules[1..];
      assert forall i :: 0 <= i < |rest| ==> rest[i] == rules[i + 1];
      ApplyRulesAbsent(s, rest);
    }
  }

  /** One replace step applied to a single character `c` that it does not target. */
  lemma ReplaceOther(c: char, x: char, rep: string)
    requires c != x
    ensures ReplaceAll([c], x, rep) == [c]
  {
    ReplaceAllAbsent([c], x, rep);
  }

  /** One replace step applied to the single character it targets. */
  lemma ReplaceHit(x: char, rep: string)
    ensures ReplaceAll([x], x, rep) == rep
  {
    assert [x][1..] == [];
  }

  /**
   * A character first targeted by rule `i` becomes that rule's text, as long
   * as no later rule targets a character of that text.
   */
  lemma {:induction false} ApplyRulesHit(c: char, rules: seq<(char, string)>, i: nat)
    requires i < |rules| && rules[i].0 == c
    requires forall j :: 0 <= j < i ==> rules[j].0 != c
    requires forall j :: i < j < |rules| ==> rules[j].0 !in rules[i].1
    ensures ApplyRules([c], rules) == rules[i].1
    decreases i
  {
    var rest := rules[1..];
    assert forall j :: 0 <= j < |rest| ==> rest[j] == rules[j + 1];
    if i == 0 {
      ReplaceHit(c, rules[0].1);
      ApplyRulesAbsent(rules[0].1, rest);
    } else {
      ReplaceOther(c, rules[0].0, rules[0].1);
      ApplyRulesHit(c, rest, i - 1);
    }
  }

  /** A character no rule targets is kept. */
  lemma ApplyRulesMiss(c: char, rules: seq<(char, string)>)
    requires forall i :: 0 <= i < |rules| ==> rules[i].0 != c
    ensures ApplyRules([c], rules) == [c]
  {
    ApplyRulesAbsent([c], rules);
  }

  lemma EscapeRulesAppend(a: string, b: string)
    ensures ApplyRules(a + b, EscapeRules) == ApplyRules(a, EscapeRules) + ApplyRules(b, EscapeRules)
  {
    ApplyRulesAppend(a, b, EscapeRules);
  }

  /** The chain maps each single character to its entity. */
  lemma EscapeRulesChar(c: char)
    ensures ApplyRules([c], EscapeRules) == JsEntity(c)
  {
    var r := EscapeRules;
    match c
    case '&' =>
      assert forall j :: 0 < j < 6 ==> r[j].0 !in "&amp;";
      ApplyRulesHit(c, r, 0);
    case '<' =>
      assert forall j :: 1 < j < 6 ==> r[j].0 !in "&lt;";
      ApplyRulesHit(c, r, 1);
    case '>' =>
      assert forall j :: 2 < j < 6 ==> r[j].0 !in "&gt;";
      ApplyRulesHit(c, r, 2);
    case '"' =>
      assert forall j :: 3 < j < 6 ==> r[j].0 !in "&quot;";
      ApplyRulesHit(c, r, 3);
    case '\'' =>
      assert r[5].0 !in "&#39;";
      ApplyRulesHit(c, r, 4);
    case '/' =>
      ApplyRulesHit(c, r, 5);
    case _ =>
      ApplyRulesMiss(c, r);
  }

  /**
   * Because `&` is replaced first and no entity contains a character a later
   * replace targets, the chain of replaces is one per-character substitution:
   * nothing is escaped twice.
   */
  lemma {:induction false} EscapeRulesAreSubstitution(s: string)
    ensures ApplyRules(s, EscapeRules) == Substitute(s, JsEntity)
  {
    if s == [] {
    } else {
      assert s == [s[0]] + s[1..];
      EscapeRulesAppend([s[0]], s[1..]);
      EscapeRulesChar(s[0]);
      EscapeRulesAreSubstitution(s[1..]);
    }
  }

  /** One character's entity is never empty, avoids `< > " \' /`, and is the character itself unless it is special. */
  lemma JsEntityShape(c: char)
    ensures |JsEntity(c)| >= 1
    ensures forall d :: d in JsEntity(c) ==> d !in {'<', '>', '"', '\'', '/'}
    ensures !JsSpecial(c) ==> JsEntity(c) == [c]
  {
  }

  /** The escaped text contains none of `< > " ' /`, is never shorter, and is unchanged when nothing needs escaping. */
  lemma EscapeHtmlOutput(s: string)
    ensures forall d :: d in EscapeHtml(s) ==> d !in {'<', '>', '"', '\'', '/'}
    ensures |EscapeHtml(s)| >= |s|
    ensures (forall c :: c in s ==> !JsSpecial(c)) ==> EscapeHtml(s) == s
  {
    forall c ensures |JsEntity(c)| >= 1 && forall d :: d in JsEntity(c) ==> d !in {'<', '>', '"', '\'', '/'} {
      JsEntityShape(c);
    }
    SubstituteAvoids(s, JsEntity, {'<', '>', '"', '\'', '/'});
    SubstituteLength(s, JsEntity);
    if forall c :: c in s ==> !JsSpecial(c) {
      forall c | c in s ensures JsEntity(c) == [c] {
        JsEntityShape(c);
      }
      SubstituteFixes(s, JsEntity);
    }
  }

  /** Decodes the six entities `escapeHtml` produces and keeps every other character. */
  function UnescapeHtml(s: string): string
    decreases |s|
  {
    if s == [] then []
    else if StartsWith(s, "&amp;") then "&" + UnescapeHtml(s[5..])
    else if StartsWith(s, "&lt;") then "<" + UnescapeHtml(s[4..])
    else if StartsWith(s, "&gt;") then ">" + UnescapeHtml(s[4..])
    else if StartsWith(s, "&quot;") then "\"" + UnescapeHtml(s[6..])
    else if StartsWith(s, "&#39;") then "'" + UnescapeHtml(s[5..])
    else if StartsWith(s, "&#x2F;") then "/" + UnescapeHtml(s[6..])
    else [s[0]] + UnescapeHtml(s[1..])
  }

  /** `s` does not start with `lit` when the two differ at a position both have. */
  lemma NotStartsWith(s: string, lit: string, k: nat)
    requires k < |s| && k < |lit| && s[k] != lit[k]
    ensures !StartsWith(s, lit)
  {
    assert |lit| > |s| || s[..|lit|][k] != lit[k];
  }

  /** A string that starts with neither `&` nor an entity decodes its first character as itself. */
  lemma UnescapePlain(c: char, t: string)
    requires c != '&'
    ensures UnescapeHtml([c] + t) == [c] + UnescapeHtml(t)
  {
    var s := [c] + t;
    assert s[0] == c && s[1..] == t;
    NotStartsWith(s, "&amp;", 0);
    NotStartsWith(s, "&lt;", 0);
    NotStartsWith(s, "&gt;", 0);
    NotStartsWith(s, "&quot;", 0);
    NotStartsWith(s, "&#39;", 0);
    NotStartsWith(s, "&#x2F;", 0);
  }

  lemma UnescapeAmp(t: string)
    ensures UnescapeHtml("&amp;" + t) == "&" + UnescapeHtml(t)
  {
    var s := "&amp;" + t;
    assert s[..5] == "&amp;" && s[5..] == t;
  }

  lemma UnescapeLt(t: string)
    ensures UnescapeHtml("&lt;" + t) == "<" + UnescapeHtml(t)
  {
    var s := "&lt;" + t;
    assert s[..4] == "&lt;" && s[4..] == t && s[1] == 'l';
    NotStartsWith(s, "&amp;", 1);
  }

  lemma UnescapeGt(t: string)
    ensures UnescapeHtml("&gt;" + t) == ">" + UnescapeHtml(t)
  {
    var s := "&gt;" + t;
    assert s[..4] == "&gt;" && s[4..] == t && s[1] == 'g';
    NotStartsWith(s, "&amp;", 1);
    NotStartsWith(s, "&lt;", 1);
  }

  lemma UnescapeQuot(t: string)
    ensures UnescapeHtml("&quot;" + t) == "\"" + UnescapeHtml(t)
  {
    var s := "&quot;" + t;
    assert s[..6] == "&quot;" && s[6..] == t && s[1] == 'q';
    NotStartsWith(s, "&amp;", 1);
    NotStartsWith(s, "&lt;", 1);
    NotStartsWith(s, "&gt;", 1);
  }

  lemma UnescapeApos(t: string)
    ensures UnescapeHtml("&#39;" + t) == "'" + UnescapeHtml(t)
  {
    var s := "&#39;" + t;
    assert s[..5] == "&#39;" && s[5..] == t && s[1] == '#';
    NotStartsWith(s, "&amp;", 1);
    NotStartsWith(s, "&lt;", 1);
    NotStartsWith(s, "&gt;", 1);
    NotStartsWith(s, "&quot;", 1);
  }

  lemma UnescapeSlash(t: string)
    ensures UnescapeHtml("&#x2F;" + t) == "/" + UnescapeHtml(t)
  {
    var s := "&#x2F;" + t;
    assert s[..6] == "&#x2F;" && s[6..] == t && s[1] == '#' && s[2] == 'x';
    NotStartsWith(s, "&amp;", 1);
    NotStartsWith(s, "&lt;", 1);
    NotStartsWith(s, "&gt;", 1);
    NotStartsWith(s, "&quot;", 1);
    NotStartsWith(s, "&#39;", 2);
  }

  /** Decoding a string that starts with the entity of `c` yields `c` and decodes the rest. */
  lemma UnescapeEntity(c: char, t: string)
    ensures UnescapeHtml(JsEntity(c) + t) == [c] + UnescapeHtml(t)
  {
    match c
    case '&' => UnescapeAmp(t);
    case '<' => UnescapeLt(t);
    case '>' => UnescapeGt(t);
    case '"' => UnescapeQuot(t);
    case '\'' => UnescapeApos(t);
    case '/' => UnescapeSlash(t);
    case _ => UnescapePlain(c, t);
  }

  /** Decoding undoes `escapeHtml`, so `escapeHtml` is injective. */
  lemma {:induction false} EscapeHtmlRoundTrip(s: string)
    ensures UnescapeHtml(EscapeHtml(s)) == s
  {
    if s != [] {
      EscapeHtmlRoundTrip(s[1..]);
      assert EscapeHtml(s[1..]) == Substitute(s[1..], JsEntity);
      UnescapeEntity(s[0], Substitute(s[1..], JsEntity));
      assert s == [s[0]] + s[1..];
    }
  }

  lemma EscapeHtmlInjective(a: string, b: string)
    requires EscapeHtml(a) == EscapeHtml(b)
    ensures a == b
  {
    EscapeHtmlRoundTrip(a);
    EscapeHtmlRoundTrip(b);
  }

  /** A DOM element as `switchView` sees it: its `data-display-group`, `data-display-key` and `d-none` class. */
  datatype Element = Element(group: Option<string>, key: Option<string>, hidden: bool)

  /** The first `forEach`: every element of the group gets `d-none`. */
  function HideGroup(els: seq<Element>, group: string): (r: seq<Element>)
    ensures |r| == |els|
    ensures forall i :: 0 <= i < |els| ==>
      r[i] == if els[i].group == Some(group) then els[i].(hidden := true) else els[i]
  {
    if els == [] then []
    else [if els[0].group == Some(group) then els[0].(hidden := true) else els[0]] + HideGroup(els[1..], group)
  }

  /** The second `forEach`: elements of the group with the key lose `d-none`. */
  function ShowKey(els: seq<Element>, group: string, key: string): (r: seq<Element>)
    ensures |r| == |els|
    ensures forall i :: 0 <= i < |els| ==>
      r[i] == if els[i].group == Some(group) && els[i].key == Some(key) then els[i].(hidden := false) else els[i]
  {
    if els == [] then []
    else
      [if els[0].group == Some(group) && els[0].key == Some(key) then els[0].(hidden := false) else els[0]]
      + ShowKey(els[1..], group, key)
  }

  /**
   * `util.switchView(group, key)`: within the group exactly the elements with
   * the key are visible afterwards; elements outside the group are untouched.
   */
  function SwitchView(els: seq<Element>, group: string, key: string): (r: seq<Element>)
    ensures |r| == |els|
    ensures forall i :: 0 <= i < |els| && els[i].group == Some(group) ==>
      r[i] == els[i].(hidden := els[i].key != Some(key))
    ensures forall i :: 0 <= i < |els| && els[i].group != Some(group) ==> r[i] == els[i]
  {
    ShowKey(HideGroup(els, group), group, key)
  }

  /** When no element of the group has the key, the whole group ends up hidden. */
  lemma SwitchViewUnknownKeyHidesGroup(els: seq<Element>, group: string, key: string)
    requires forall i :: 0 <= i < |els| && els[i].group == Some(group) ==> els[i].key != Some(key)
    ensures forall i :: 0 <= i < |els| && els[i].group == Some(group) ==> SwitchView(els, group, key)[i].hidden
  {
  }

  /** Switching to the same view twice is the same as switching once. */
  lemma SwitchViewIdempotent(els: seq<Element>, group: string, key: string)
    ensures SwitchView(SwitchView(els, group, key), group, key) == SwitchView(els, group, key)
  {
    var once := SwitchView(els, group, key);
    var twice := SwitchView(once, group, key);
    assert |twice| == |once|;
    forall i | 0 <= i < |once| ensures twice[i] == once[i] {
    }
  }
}
