/**
 * Global replacement of a literal pattern, as `String.prototype.replace`
 * performs it with a global regular expression that matches one fixed text:
 * find the leftmost occurrence, replace it, and continue scanning after it.
 */
module Replace {

  /** `pat` occurs in `s` at position `i`. */
  predicate OccursAt(s: string, pat: string, i: int) {
    0 <= i && i + |pat| <= |s| && s[i..i + |pat|] == pat
  }

  /** Replace every non-overlapping occurrence of `pat`, left to right, by the literal `rep`. */
  function ReplaceAll(s: string, pat: string, rep: string): string
    requires pat != []
    decreases |s|
  {
    if |s| < |pat| then s
    else if s[..|pat|] == pat then rep + ReplaceAll(s[|pat|..], pat, rep)
    else [s[0]] + ReplaceAll(s[1..], pat, rep)
  }

  /** An occurrence in the tail of `s` is an occurrence in `s`, one position later. */
  lemma OccursInTail(s: string, pat: string, k: nat)
    requires s != []
    ensures OccursAt(s[1..], pat, k) <==> OccursAt(s, pat, k + 1)
  {
    if k + |pat| <= |s| - 1 {
      assert s[1..][k..k + |pat|] == s[k + 1..k + 1 + |pat|];
    }
  }

  /** Text without an occurrence of the pattern comes back unchanged. */
  lemma {:induction false} ReplaceAllNoMatch(s: string, pat: string, rep: string)
    requires pat != []
    requires forall i :: !OccursAt(s, pat, i)
    ensures ReplaceAll(s, pat, rep) == s
  {
    if |s| >= |pat| {
      assert !OccursAt(s, pat, 0);
      forall i
        ensures !OccursAt(s[1..], pat, i)
      {
        if i >= 0 {
          OccursInTail(s, pat, i);
        }
      }
      ReplaceAllNoMatch(s[1..], pat, rep);
      assert s == [s[0]] + s[1..];
    }
  }

  /**
   * At the leftmost occurrence `i`: the text before it is kept, the
   * occurrence becomes `rep` (which is not scanned again), and scanning
   * resumes right after the occurrence.
   */
  lemma ReplaceAllFirstMatch(s: string, pat: string, rep: string, i: nat)
    requires pat != []
    requires OccursAt(s, pat, i)
    requires forall k :: 0 <= k < i ==> !OccursAt(s, pat, k)
    ensures ReplaceAll(s, pat, rep) == s[..i] + rep + ReplaceAll(s[i + |pat|..], pat, rep)
  {
    ReplaceAllSkip(s, pat, rep, i);
    ReplaceAllAtMatch(s, pat, rep, i);
  }

  /** An occurrence at `i` becomes `rep`, and scanning resumes after it. */
  lemma ReplaceAllAtMatch(s: string, pat: string, rep: string, i: nat)
    requires pat != [] && OccursAt(s, pat, i)
    ensures ReplaceAll(s[i..], pat, rep) == rep + ReplaceAll(s[i + |pat|..], pat, rep)
  {
    var from := s[i..];
    assert from[..|pat|] == pat && from[|pat|..] == s[i + |pat|..];
  }

  /** A prefix of `s` in which no occurrence starts is copied unchanged. */
  lemma {:induction false} ReplaceAllSkip(s: string, pat: string, rep: string, i: nat)
    requires pat != [] && i <= |s|
    requires forall k :: 0 <= k < i ==> !OccursAt(s, pat, k)
    ensures ReplaceAll(s, pat, rep) == s[..i] + ReplaceAll(s[i..], pat, rep)
  {
    if i == 0 {
      assert s[..0] == [] && s[0..] == s;
    } else if |s| < |pat| {
      assert s[..i] + s[i..] == s;
    } else {
      ReplaceAllSkipOne(s, pat, rep);
      NoOccurrenceInTail(s, pat, i);
      ReplaceAllSkip(s[1..], pat, rep, i - 1);
      SplitAfterHead(s, i);
    }
  }

  lemma NoOccurrenceInTail(s: string, pat: string, i: nat)
    requires 0 < i <= |s|
    requires forall k :: 0 <= k < i ==> !OccursAt(s, pat, k)
    ensures forall k :: 0 <= k < i - 1 ==> !OccursAt(s[1..], pat, k)
  {
    forall k | 0 <= k < i - 1
      ensures !OccursAt(s[1..], pat, k)
    {
      OccursInTail(s, pat, k);
    }
  }

  lemma SplitAfterHead<T>(s: seq<T>, i: nat)
    requires 0 < i <= |s|
    ensures s[..i] == [s[0]] + s[1..][..i - 1] && s[1..][i - 1..] == s[i..]
  {
  }

  /** A character at which no occurrence starts is copied, and scanning moves on by one. */
  lemma ReplaceAllSkipOne(s: string, pat: string, rep: string)
    requires pat != [] && |s| >= |pat| && !OccursAt(s, pat, 0)
    ensures ReplaceAll(s, pat, rep) == [s[0]] + ReplaceAll(s[1..], pat, rep)
  {
  }

  /** A replacement at least as long as the pattern never shortens the text. */
  lemma {:induction false} ReplaceAllLength(s: string, pat: string, rep: string)
    requires pat != [] && |rep| >= |pat|
    ensures |ReplaceAll(s, pat, rep)| >= |s|
    decreases |s|
  {
    if |s| >= |pat| {
      if s[..|pat|] == pat {
        ReplaceAllLength(s[|pat|..], pat, rep);
      } else {
        ReplaceAllLength(s[1..], pat, rep);
      }
    }
  }

  // ---------------------------------------------------------------------
  // The replacement string as the relay passes it: a template in which
  // `String.prototype.replace` expands `$` sequences.

  predicate NoDollar(s: string) {
    '$' !in s
  }

  /**
   * Expansion of a replacement template for a match of a pattern without
   * capture groups: `$$` gives `$`, `$&` the matched text, `` $` `` the text
   * before the match, `$'` the text after it; any other `$` stays literal.
   */
  function Expand(tmpl: string, matched: string, before: string, after: string): string
    decreases |tmpl|
  {
    if tmpl == [] then []
    else if tmpl[0] == '$' && |tmpl| >= 2 && tmpl[1] in "$&`'" then
      var piece := if tmpl[1] == '$' then "$"
                   else if tmpl[1] == '&' then matched
                   else if tmpl[1] == '`' then before
                   else after;
      piece + Expand(tmpl[2..], matched, before, after)
    else [tmpl[0]] + Expand(tmpl[1..], matched, before, after)
  }

  /** A template without `$` expands to itself. */
  lemma {:induction false} ExpandLiteral(tmpl: string, matched: string, before: string, after: string)
    requires NoDollar(tmpl)
    ensures Expand(tmpl, matched, before, after) == tmpl
  {
    if tmpl != [] {
      assert tmpl[0] != '$';
      assert NoDollar(tmpl[1..]) by {
        forall i | 0 <= i < |tmpl| - 1 ensures tmpl[1..][i] != '$' {
          assert tmpl[1..][i] == tmpl[i + 1];
        }
      }
      ExpandLiteral(tmpl[1..], matched, before, after);
      assert tmpl == [tmpl[0]] + tmpl[1..];
    }
  }

  /** Global replacement with template expansion, scanning `s` from position `i`. */
  function ReplaceTemplateFrom(s: string, pat: string, tmpl: string, i: nat): string
    requires pat != [] && i <= |s|
    decreases |s| - i
  {
    if i + |pat| > |s| then s[i..]
    else if s[i..i + |pat|] == pat then
      Expand(tmpl, pat, s[..i], s[i + |pat|..]) + ReplaceTemplateFrom(s, pat, tmpl, i + |pat|)
    else [s[i]] + ReplaceTemplateFrom(s, pat, tmpl, i + 1)
  }

  /** `s.replace(regex, tmpl)` for a global regex that matches exactly `pat`. */
  function ReplaceTemplate(s: string, pat: string, tmpl: string): string
    requires pat != []
  {
    ReplaceTemplateFrom(s, pat, tmpl, 0)
  }

  /** Without `$` in the template, template replacement is literal replacement. */
  lemma TemplateAgreesWhenLiteral(s: string, pat: string, tmpl: string)
    requires pat != [] && NoDollar(tmpl)
    ensures ReplaceTemplate(s, pat, tmpl) == ReplaceAll(s, pat, tmpl)
  {
    TemplateFromAgrees(s, pat, tmpl, 0);
    assert s[0..] == s;
  }

  lemma {:induction false} TemplateFromAgrees(s: string, pat: string, tmpl: string, i: nat)
    requires pat != [] && NoDollar(tmpl) && i <= |s|
    ensures ReplaceTemplateFrom(s, pat, tmpl, i) == ReplaceAll(s[i..], pat, tmpl)
    decreases |s| - i
  {
    var t := s[i..];
    if i + |pat| <= |s| {
      assert |t| >= |pat| && t[..|pat|] == s[i..i + |pat|];
      if s[i..i + |pat|] == pat {
        var m := i + |pat|;
        assert t[|pat|..] == s[m..];
        assert ReplaceAll(t, pat, tmpl) == tmpl + ReplaceAll(s[m..], pat, tmpl);
        ExpandLiteral(tmpl, pat, s[..i], s[m..]);
        TemplateFromAgrees(s, pat, tmpl, m);
      } else {
        assert t[1..] == s[i + 1..] && t[0] == s[i];
        assert ReplaceAll(t, pat, tmpl) == [s[i]] + ReplaceAll(s[i + 1..], pat, tmpl);
        TemplateFromAgrees(s, pat, tmpl, i + 1);
      }
    } else {
      assert ReplaceAll(t, pat, tmpl) == t;
    }
  }
}
