/**
 * The raw output mode of the tree serialiser: when output escaping is turned
 * off, the serialised document has every `&gt;`, `&lt;` and `&quot;` turned
 * back into `>`, `<` and `"`, one entity after the other.
 */
module Unescape {

  /** `pat` occurs in `s` at position `i`. */
  predicate At(s: string, i: nat, pat: string)
  {
    i + |pat| <= |s| && s[i..i + |pat|] == pat
  }

  /** `pat` occurs somewhere in `s`. */
  predicate Occurs(s: string, pat: string)
  {
    exists i: nat | i <= |s| :: At(s, i, pat)
  }

  /**
   * Replaces, scanning left to right, every non-overlapping occurrence of
   * `pat` by the single character `c`, as `String.replaceAll` does for a
   * pattern and a replacement free of regular-expression metacharacters.
   */
  function ReplaceAll(s: string, pat: string, c: char): (r: string)
    requires |pat| > 0
    ensures |r| <= |s|
  {
    if |s| < |pat| then s
    else if s[..|pat|] == pat then [c] + ReplaceAll(s[|pat|..], pat, c)
    else [s[0]] + ReplaceAll(s[1..], pat, c)
  }

  /** The un-escape pass applied to the serialised document in raw mode. */
  function UnescapeEntities(s: string): (r: string)
    ensures |r| <= |s|
  {
    ReplaceAll(ReplaceAll(ReplaceAll(s, "&gt;", '>'), "&lt;", '<'), "&quot;", '"')
  }

  /**
   * The attribute escaping of the XML serialiser for the characters the
   * un-escape pass is about (`&` becomes `&amp;`, which raw mode keeps).
   */
  function EscapeAttribute(s: string): string
  {
    if s == [] then ""
    else EscapeChar(s[0]) + EscapeAttribute(s[1..])
  }

  /** The escape of one character. */
  function EscapeChar(ch: char): string
  {
    if ch == '&' then "&amp;"
    else if ch == '<' then "&lt;"
    else if ch == '>' then "&gt;"
    else if ch == '"' then "&quot;"
    else [ch]
  }

  // ---------------------------------------------------------------------------
  // ReplaceAll

  /**
   * A prefix of the result that contains no `c` was copied unchanged from the
   * input: no replacement happened inside it.
   */
  lemma {:induction false} PrefixWithoutReplacement(t: string, pat: string, c: char, k: nat)
    requires |pat| > 0
    requires k <= |ReplaceAll(t, pat, c)|
    requires c !in ReplaceAll(t, pat, c)[..k]
    ensures k <= |t| && ReplaceAll(t, pat, c)[..k] == t[..k]
    decreases |t|
  {
    var r := ReplaceAll(t, pat, c);
    if |t| >= |pat| && k > 0 {
      assert r[..k][0] == r[0];
      assert t[..|pat|] != pat;
      var rest := ReplaceAll(t[1..], pat, c);
      assert r == [t[0]] + rest;
      assert rest[..k - 1] == r[1..k];
      var front := rest[..k - 1];
      assert c !in front by {
        forall j | 0 <= j < |front| ensures front[j] != c {
          assert front[j] == r[..k][j + 1];
        }
      }
      PrefixWithoutReplacement(t[1..], pat, c, k - 1);
      assert r[..k] == [t[0]] + rest[..k - 1];
    }
  }

  /** An occurrence in a suffix is an occurrence in the whole. */
  lemma {:induction false} OccursInSuffix(s: string, d: nat, q: string)
    requires d <= |s| && Occurs(s[d..], q)
    ensures Occurs(s, q)
  {
    var i: nat :| i <= |s[d..]| && At(s[d..], i, q);
    assert i + |q| <= |s| - d;
    assert s[d..][i..i + |q|] == s[d + i..d + i + |q|];
    assert At(s, d + i, q);
  }

  /**
   * Where the input does not start with `pat`, a `q` free of `c` at the front
   * of the result was copied from the front of the input.
   */
  lemma {:induction false} FrontCopied(s: string, pat: string, c: char, q: string)
    requires |pat| > 0 && |q| > 0 && c !in q
    requires |s| >= |pat| && s[..|pat|] != pat
    requires At(ReplaceAll(s, pat, c), 0, q)
    ensures At(s, 0, q)
  {
    var r := ReplaceAll(s, pat, c);
    var rest := ReplaceAll(s[1..], pat, c);
    assert r == [s[0]] + rest;
    var k := |q| - 1;
    assert r[..|q|] == q;
    assert s[0] == q[0] by {
      assert r[0] == r[..|q|][0];
    }
    assert rest[..k] == q[1..] by {
      assert rest[..k] == r[1..|q|];
      assert r[1..|q|] == r[..|q|][1..];
    }
    assert c !in rest[..k] by {
      forall j | 0 <= j < k ensures rest[..k][j] != c {
        assert rest[..k][j] == q[j + 1];
      }
    }
    PrefixWithoutReplacement(s[1..], pat, c, k);
    assert s[..|q|] == [s[0]] + s[1..][..k];
    assert q == [q[0]] + q[1..];
  }

  /**
   * Where the input starts with neither `pat` nor `q`, the result does not
   * start with `q` either.
   */
  lemma {:induction false} NoOccurrenceAtFront(s: string, pat: string, c: char, q: string)
    requires |pat| > 0 && |q| > 0 && c !in q
    requires |s| >= |pat| && s[..|pat|] != pat
    requires !At(s, 0, q)
    ensures !At(ReplaceAll(s, pat, c), 0, q)
  {
    if At(ReplaceAll(s, pat, c), 0, q) {
      FrontCopied(s, pat, c, q);
      assert false;
    }
  }

  /**
   * Replacing `pat` by a character that `q` does not contain leaves no
   * occurrence of `q` behind when `q` is `pat` itself, and creates none when
   * the input had none.
   */
  lemma {:induction false} ReplaceAllLeavesNoOccurrence(s: string, pat: string, c: char, q: string)
    requires |pat| > 0 && |q| > 0 && c !in q
    requires q == pat || !Occurs(s, q)
    ensures !Occurs(ReplaceAll(s, pat, c), q)
    decreases |s|
  {
    var r := ReplaceAll(s, pat, c);
    if |s| >= |pat| {
      var matched := s[..|pat|] == pat;
      var d := if matched then |pat| else 1;
      var rest := ReplaceAll(s[d..], pat, c);
      assert r == [if matched then c else s[0]] + rest;
      if q != pat && Occurs(s[d..], q) {
        OccursInSuffix(s, d, q);
      }
      ReplaceAllLeavesNoOccurrence(s[d..], pat, c, q);
      if matched {
        assert r[0] == c && q[0] in q;
      } else {
        assert !At(s, 0, q);
        NoOccurrenceAtFront(s, pat, c, q);
      }
      NoOccurrenceAfterFront(r, rest, q);
    }
  }

  /** A string with no `q` at its front and none in its tail has no `q` at all. */
  lemma {:induction false} NoOccurrenceAfterFront(r: string, rest: string, q: string)
    requires |r| > 0 && r[1..] == rest
    requires !At(r, 0, q) && !Occurs(rest, q)
    ensures !Occurs(r, q)
  {
    forall i: nat | 0 < i <= |r| ensures !At(r, i, q) {
      assert !At(rest, i - 1, q);
      if i + |q| <= |r| {
        var window := r[i..i + |q|];
        var shifted := rest[i - 1..i - 1 + |q|];
        forall k | 0 <= k < |q| ensures window[k] == shifted[k] {
          assert window[k] == r[i + k] == rest[i - 1 + k];
        }
        assert window == shifted;
      }
    }
  }

  /** A string in which the pattern's first character never appears is left as it is. */
  lemma {:induction false} ReplaceAllWithoutLead(s: string, pat: string, c: char)
    requires |pat| > 0 && pat[0] !in s
    ensures ReplaceAll(s, pat, c) == s
    decreases |s|
  {
    if |s| >= |pat| {
      assert s[0] in s;
      assert s[..|pat|][0] == s[0];
      ReplaceAllWithoutLead(s[1..], pat, c);
    }
  }

  /** Text free of the pattern's first character passes through, followed by the rest. */
  lemma {:induction false} ReplaceAllCopiesFree(w: string, u: string, pat: string, c: char)
    requires |pat| > 0 && pat[0] !in w
    ensures ReplaceAll(w + u, pat, c) == w + ReplaceAll(u, pat, c)
    decreases |w|
  {
    if w == [] {
      assert w + u == u;
    } else if |w + u| < |pat| {
      assert |u| < |pat|;
    } else {
      assert w[0] in w;
      assert (w + u)[..|pat|][0] == w[0];
      assert (w + u)[1..] == w[1..] + u;
      ReplaceAllCopiesFree(w[1..], u, pat, c);
    }
  }

  /**
   * A different entity that starts like the pattern but differs from it at its
   * second character passes through, followed by the rest.
   */
  lemma {:induction false} ReplaceAllCopiesOtherEntity(w: string, u: string, pat: string, c: char)
    requires |pat| >= 2 && |w| >= 2 && w[0] == pat[0] && w[1] != pat[1] && pat[0] !in w[1..]
    ensures ReplaceAll(w + u, pat, c) == w + ReplaceAll(u, pat, c)
  {
    var s := w + u;
    if |s| < |pat| {
      assert |u| < |pat|;
    } else {
      assert s[..|pat|] != pat by {
        assert s[..|pat|][1] == w[1];
      }
      assert ReplaceAll(s, pat, c) == [w[0]] + ReplaceAll(s[1..], pat, c);
      assert s[1..] == w[1..] + u;
      ReplaceAllCopiesFree(w[1..], u, pat, c);
      assert w == [w[0]] + w[1..];
    }
  }

  /** The pattern at the front becomes the one character. */
  lemma {:induction false} ReplaceAllAtFront(u: string, pat: string, c: char)
    requires |pat| > 0
    ensures ReplaceAll(pat + u, pat, c) == [c] + ReplaceAll(u, pat, c)
  {
    assert (pat + u)[..|pat|] == pat;
    assert (pat + u)[|pat|..] == u;
  }

  // ---------------------------------------------------------------------------
  // The un-escape pass

  /** After the pass, none of the three entities is left in the document. */
  lemma {:induction false} NoEntitiesLeft(s: string)
    ensures !Occurs(UnescapeEntities(s), "&gt;")
    ensures !Occurs(UnescapeEntities(s), "&lt;")
    ensures !Occurs(UnescapeEntities(s), "&quot;")
  {
    var s1 := ReplaceAll(s, "&gt;", '>');
    var s2 := ReplaceAll(s1, "&lt;", '<');
    ReplaceAllLeavesNoOccurrence(s, "&gt;", '>', "&gt;");
    ReplaceAllLeavesNoOccurrence(s1, "&lt;", '<', "&gt;");
    ReplaceAllLeavesNoOccurrence(s2, "&quot;", '"', "&gt;");
    ReplaceAllLeavesNoOccurrence(s1, "&lt;", '<', "&lt;");
    ReplaceAllLeavesNoOccurrence(s2, "&quot;", '"', "&lt;");
    ReplaceAllLeavesNoOccurrence(s2, "&quot;", '"', "&quot;");
  }

  /** A document without `&` is left unchanged by the pass. */
  lemma {:induction false} UnescapeWithoutAmpersand(s: string)
    requires '&' !in s
    ensures UnescapeEntities(s) == s
  {
    ReplaceAllWithoutLead(s, "&gt;", '>');
    ReplaceAllWithoutLead(s, "&lt;", '<');
    ReplaceAllWithoutLead(s, "&quot;", '"');
  }

  /** The first replacement, applied to one escaped character and the rest. */
  lemma {:induction false} StepGt(ch: char, u: string)
    requires ch != '&'
    ensures ReplaceAll(EscapeChar(ch) + u, "&gt;", '>') ==
      (if ch == '>' then ">" else EscapeChar(ch)) + ReplaceAll(u, "&gt;", '>')
  {
    if ch == '>' {
      ReplaceAllAtFront(u, "&gt;", '>');
    } else if ch == '<' || ch == '"' {
      ReplaceAllCopiesOtherEntity(EscapeChar(ch), u, "&gt;", '>');
    } else {
      ReplaceAllCopiesFree(EscapeChar(ch), u, "&gt;", '>');
    }
  }

  /** The second replacement, on what the first left of one escaped character. */
  lemma {:induction false} StepLt(ch: char, u: string)
    requires ch != '&'
    ensures ReplaceAll((if ch == '>' then ">" else EscapeChar(ch)) + u, "&lt;", '<') ==
      (if ch == '>' || ch == '<' then [ch] else EscapeChar(ch)) + ReplaceAll(u, "&lt;", '<')
  {
    if ch == '<' {
      ReplaceAllAtFront(u, "&lt;", '<');
    } else if ch == '"' {
      ReplaceAllCopiesOtherEntity(EscapeChar(ch), u, "&lt;", '<');
    } else {
      ReplaceAllCopiesFree(if ch == '>' then ">" else EscapeChar(ch), u, "&lt;", '<');
    }
  }

  /** The third replacement, on what the first two left of one escaped character. */
  lemma {:induction false} StepQuot(ch: char, u: string)
    requires ch != '&'
    ensures ReplaceAll((if ch == '>' || ch == '<' then [ch] else EscapeChar(ch)) + u, "&quot;", '"') ==
      [ch] + ReplaceAll(u, "&quot;", '"')
  {
    if ch == '"' {
      ReplaceAllAtFront(u, "&quot;", '"');
    } else {
      ReplaceAllCopiesFree([ch], u, "&quot;", '"');
    }
  }

  /**
   * Raw mode gives back the attribute text the serialiser escaped, provided the
   * text has no `&` (an escaped `&` stays `&amp;`).
   */
  lemma {:induction false} UnescapeInvertsEscape(s: string)
    requires '&' !in s
    ensures UnescapeEntities(EscapeAttribute(s)) == s
    decreases |s|
  {
    if s == [] {
      assert EscapeAttribute(s) == "";
    } else {
      var ch, u := s[0], EscapeAttribute(s[1..]);
      assert s[0] in s;
      assert forall x :: x in s[1..] ==> x in s;
      StepGt(ch, u);
      StepLt(ch, ReplaceAll(u, "&gt;", '>'));
      StepQuot(ch, ReplaceAll(ReplaceAll(u, "&gt;", '>'), "&lt;", '<'));
      UnescapeInvertsEscape(s[1..]);
      assert s == [ch] + s[1..];
    }
  }

  /** Escaped attribute text carries no literal `<`, `>` or `"`. */
  lemma {:induction false} EscapeRemovesSpecials(s: string)
    ensures '<' !in EscapeAttribute(s) && '>' !in EscapeAttribute(s) && '"' !in EscapeAttribute(s)
    decreases |s|
  {
    if s != [] {
      EscapeRemovesSpecials(s[1..]);
    }
  }
}
