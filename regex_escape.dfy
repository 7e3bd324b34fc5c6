/**
 * Escaping a URL so that it can be embedded in a regular expression, and
 * reading back the literal text that such an escaped pattern matches.
 */
module RegexEscape {
  import opened Wrappers

  /** The characters the relay escapes: `. * + ? ^ $ { } ( ) | [ ] \`. */
  predicate IsMeta(c: char) {
    c in ".*+?^${}()|[]\\"
  }

  /** Prefix every metacharacter with one backslash. */
  function Escape(s: string): string {
    if s == [] then []
    else (if IsMeta(s[0]) then ['\\', s[0]] else [s[0]]) + Escape(s[1..])
  }

  /** The pattern source built for a URL: an escaped `(`, the escaped URL, an escaped `)`. */
  function RegexSource(url: string): string {
    "\\(" + Escape(url) + "\\)"
  }

  /**
   * The literal text a pattern matches when it consists only of plain
   * characters and backslash-escaped metacharacters; `None` for any other
   * pattern (one using an operator, or an escape of a plain character).
   */
  function PatternText(p: string): Option<string> {
    if p == [] then Some([])
    else if p[0] == '\\' then
      if |p| >= 2 && IsMeta(p[1]) then
        match PatternText(p[2..])
        case Some(rest) => Some([p[1]] + rest)
        case None => None
      else None
    else if IsMeta(p[0]) then None
    else
      match PatternText(p[1..])
      case Some(rest) => Some([p[0]] + rest)
      case None => None
  }

  /** Escaping works character by character. */
  lemma {:induction false} EscapeConcat(a: string, b: string)
    ensures Escape(a + b) == Escape(a) + Escape(b)
  {
    if a != [] {
      assert (a + b)[0] == a[0] && (a + b)[1..] == a[1..] + b;
      EscapeConcat(a[1..], b);
      var head := if IsMeta(a[0]) then ['\\', a[0]] else [a[0]];
      calc {
        Escape(a + b);
        head + Escape(a[1..] + b);
        head + (Escape(a[1..]) + Escape(b));
        (head + Escape(a[1..])) + Escape(b);
      }
    } else {
      assert a + b == b;
    }
  }

  /** Escaping leaves a string unchanged exactly when it has no metacharacter. */
  lemma {:induction false} EscapeIdentity(s: string)
    ensures Escape(s) == s <==> forall i :: 0 <= i < |s| ==> !IsMeta(s[i])
  {
    if s != [] {
      EscapeIdentity(s[1..]);
      EscapeLength(s[1..]);
      if IsMeta(s[0]) {
        assert |Escape(s)| > |s|;
      } else {
        assert forall i :: 1 <= i < |s| ==> s[i] == s[1..][i - 1];
      }
    }
  }

  /** Escaping never shortens a string. */
  lemma {:induction false} EscapeLength(s: string)
    ensures |Escape(s)| >= |s|
  {
    if s != [] {
      EscapeLength(s[1..]);
    }
  }

  /**
   * A pattern reads as the literal `s` exactly when it is `Escape(s)`:
   * removing the escape backslashes gives the original back, and no other
   * pattern of this shape matches `s`.
   */
  lemma EscapeExact(p: string, s: string)
    ensures PatternText(p) == Some(s) <==> p == Escape(s)
  {
    if p == Escape(s) {
      EscapeRoundTrip(s);
    }
    if PatternText(p) == Some(s) {
      PatternTextIsEscape(p);
    }
  }

  lemma {:induction false} EscapeRoundTrip(s: string)
    ensures PatternText(Escape(s)) == Some(s)
  {
    if s != [] {
      var c, rest := s[0], s[1..];
      EscapeRoundTrip(rest);
      assert s == [c] + rest;
      if IsMeta(c) {
        var p := ['\\', c] + Escape(rest);
        assert Escape(s) == p;
        assert p[0] == '\\' && p[1] == c && p[2..] == Escape(rest);
      } else {
        var p := [c] + Escape(rest);
        assert Escape(s) == p;
        assert IsMeta('\\');
        assert p[0] == c && c != '\\' && p[1..] == Escape(rest);
      }
    }
  }

  lemma {:induction false} PatternTextIsEscape(p: string)
    requires PatternText(p).Some?
    ensures p == Escape(PatternText(p).value)
  {
    if p != [] {
      var s := PatternText(p).value;
      if p[0] == '\\' {
        PatternTextIsEscape(p[2..]);
        assert s[1..] == PatternText(p[2..]).value;
        assert p == ['\\', p[1]] + p[2..];
      } else {
        PatternTextIsEscape(p[1..]);
        assert s[1..] == PatternText(p[1..]).value;
        assert p == [p[0]] + p[1..];
      }
    }
  }

  /** The pattern built for a URL matches exactly the literal text `(url)`. */
  lemma PatternOfUrl(url: string)
    ensures PatternText(RegexSource(url)) == Some("(" + url + ")")
  {
    EscapeConcat("(", url);
    EscapeConcat("(" + url, ")");
    assert RegexSource(url) == Escape("(" + url + ")");
    EscapeRoundTrip("(" + url + ")");
  }
}
