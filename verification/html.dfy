/**
 * HTML escaping as a per-character substitution, and PHP's `h` helper
 * (`htmlspecialchars($str, ENT_QUOTES, 'UTF-8')`) defined with it.
 */
module Html {

  /** Replaces every character `c` of `s` by `f(c)`, in order. */
  function Substitute(s: string, f: char -> string): string {
    if s == [] then [] else f(s[0]) + Substitute(s[1..], f)
  }

  lemma {:induction false} SubstituteAppend(a: string, b: string, f: char -> string)
    ensures Substitute(a + b, f) == Substitute(a, f) + Substitute(b, f)
  {
    if a == [] {
      assert a + b == b;
    } else {
      assert (a + b)[0] == a[0] && (a + b)[1..] == a[1..] + b;
      SubstituteAppend(a[1..], b, f);
    }
  }

  /** A substitution that never shortens a character never shortens a string. */
  lemma {:induction false} SubstituteLength(s: string, f: char -> string)
    requires forall c :: |f(c)| >= 1
    ensures |Substitute(s, f)| >= |s|
  {
    if s != [] {
      SubstituteLength(s[1..], f);
    }
  }

  /** A substitution whose images all avoid `bad` produces a string that avoids `bad`. */
  lemma {:induction false} SubstituteAvoids(s: string, f: char -> string, bad: set<char>)
    requires forall c :: forall d :: d in f(c) ==> d !in bad
    ensures forall d :: d in Substitute(s, f) ==> d !in bad
  {
    if s != [] {
      SubstituteAvoids(s[1..], f, bad);
    }
  }

  /** A substitution that keeps every character of `s` keeps `s`. */
  lemma {:induction false} SubstituteFixes(s: string, f: char -> string)
    requires forall c :: c in s ==> f(c) == [c]
    ensures Substitute(s, f) == s
  {
    if s != [] {
      assert s[0] in s;
      assert forall c :: c in s[1..] ==> c in s;
      SubstituteFixes(s[1..], f);
      assert s == [s[0]] + s[1..];
    }
  }

  /** The characters `htmlspecialchars` rewrites under `ENT_QUOTES`. */
  predicate PhpSpecial(c: char) {
    c == '&' || c == '<' || c == '>' || c == '"' || c == '\''
  }

  /** `htmlspecialchars` with `ENT_QUOTES` on one character. */
  function PhpEntity(c: char): string {
    match c
    case '&' => "&amp;"
    case '<' => "&lt;"
    case '>' => "&gt;"
    case '"' => "&quot;"
    case '\'' => "&#039;"
    case _ => [c]
  }

  /** `h($str)`. Invalid UTF-8 input, for which PHP returns the empty string, cannot occur in a `string`. */
  function H(s: string): (r: string)
    ensures |r| >= |s|
    ensures forall d :: d in r ==> d !in {'<', '>', '"', '\''}
    ensures (forall c :: c in s ==> !PhpSpecial(c)) ==> r == s
  {
    SubstituteLength(s, PhpEntity);
    SubstituteAvoids(s, PhpEntity, {'<', '>', '"', '\''});
    var r := Substitute(s, PhpEntity);
    assert (forall c :: c in s ==> !PhpSpecial(c)) ==> r == s by {
      if forall c :: c in s ==> !PhpSpecial(c) {
        SubstituteFixes(s, PhpEntity);
      }
    }
    r
  }
}
