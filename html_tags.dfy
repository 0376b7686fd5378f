/**
 * The display helper of movieSearch/MovieTableViewCell.swift that deletes
 * every match of the regular expression `<[^>]+>` from a title. The global
 * replacement scans left to right: at each position a match is tried, a match
 * is deleted and the scan resumes after it, otherwise one character is kept.
 */
module HtmlTags {
  import opened Wrappers

  /** The language of `<[^>]+>`: `<`, one or more characters other than `>`, then `>`. */
  predicate IsTag(t: string)
  {
    |t| >= 3 && t[0] == '<' && t[|t| - 1] == '>' && '>' !in t[1..|t| - 1]
  }

  /** Index of the first `>` in `s`. */
  function FirstClose(s: string): (r: Option<nat>)
    ensures r.Some? ==> r.value < |s| && s[r.value] == '>' && '>' !in s[..r.value]
    ensures r.None? ==> '>' !in s
  {
    if s == [] then None
    else if s[0] == '>' then Some(0)
    else
      match FirstClose(s[1..])
      case None => None
      case Some(k) =>
        assert s[..k + 1] == [s[0]] + s[1..][..k];
        Some(k + 1)
  }

  /**
   * Length of the match of `<[^>]+>` at the start of `s`, if any. Because
   * `[^>]` cannot cross a `>`, a match ends at the first `>` after the `<`.
   */
  function TagLength(s: string): (r: Option<nat>)
    ensures r.Some? ==> r.value <= |s| && IsTag(s[..r.value])
  {
    if s == [] || s[0] != '<' then None
    else
      match FirstClose(s[1..])
      case None => None
      case Some(k) =>
        if k == 0 then None
        else
          assert s[..k + 2][1..k + 1] == s[1..][..k];
          Some(k + 2)
  }

  /** `TagLength` finds the one prefix that matches the pattern, and finds none only when no prefix matches. */
  lemma TagLengthIsOnlyMatch(s: string)
    ensures TagLength(s).None? ==> forall n :: 0 <= n <= |s| ==> !IsTag(s[..n])
    ensures TagLength(s).Some? ==> forall n :: 0 <= n <= |s| && IsTag(s[..n]) ==> n == TagLength(s).value
  {
    if s != [] && s[0] == '<' {
      match FirstClose(s[1..])
      case None =>
        forall n | 0 <= n <= |s| && n >= 3 ensures s[..n][n - 1] != '>' {
          assert s[..n][n - 1] == s[1..][n - 2];
        }
      case Some(k) =>
        if k == 0 {
          forall n | 0 <= n <= |s| && n >= 3 ensures '>' in s[..n][1..n - 1] {
            assert s[..n][1..n - 1][0] == s[1];
          }
        } else {
          forall n | 0 <= n <= |s| && n >= 3 && n < k + 2 ensures s[..n][n - 1] != '>' {
            assert s[..n][n - 1] == s[1..][..k][n - 2];
          }
          forall n | 0 <= n <= |s| && n > k + 2 ensures '>' in s[..n][1..n - 1] {
            assert s[..n][1..n - 1][k] == s[1..][k];
          }
        }
    }
  }

  /** `string.replacingOccurrences(of: "<[^>]+>", with: "", options: .regularExpression)`. */
  function RemoveHTMLTags(s: string): (r: string)
    decreases |s|
  {
    if s == [] then []
    else
      match TagLength(s)
      case Some(n) => RemoveHTMLTags(s[n..])
      case None => [s[0]] + RemoveHTMLTags(s[1..])
  }

  /** `t` is `s` with some characters deleted, the rest in their original order. */
  predicate IsSubsequence(t: string, s: string)
    decreases |s|
  {
    if t == [] then true
    else if s == [] then false
    else (t[0] == s[0] && IsSubsequence(t[1..], s[1..])) || IsSubsequence(t, s[1..])
  }

  lemma {:induction false} SubsequenceNotLonger(t: string, s: string)
    requires IsSubsequence(t, s)
    ensures |t| <= |s|
    decreases |s|
  {
    if t != [] {
      if t[0] == s[0] && IsSubsequence(t[1..], s[1..]) {
        SubsequenceNotLonger(t[1..], s[1..]);
      } else {
        SubsequenceNotLonger(t, s[1..]);
      }
    }
  }

  lemma {:induction false} SubsequenceOfSuffix(t: string, s: string, k: nat)
    requires k <= |s| && IsSubsequence(t, s[k..])
    ensures IsSubsequence(t, s)
    decreases k
  {
    if k > 0 {
      assert s[k..] == s[1..][k - 1..];
      SubsequenceOfSuffix(t, s[1..], k - 1);
    }
  }

  /** Stripping only deletes characters: what is left is a subsequence of the input, so never longer. */
  lemma {:induction false} RemoveHTMLTagsIsSubsequence(s: string)
    ensures IsSubsequence(RemoveHTMLTags(s), s)
    ensures |RemoveHTMLTags(s)| <= |s|
    decreases |s|
  {
    if s != [] {
      match TagLength(s)
      case Some(n) =>
        RemoveHTMLTagsIsSubsequence(s[n..]);
        SubsequenceOfSuffix(RemoveHTMLTags(s[n..]), s, n);
      case None =>
        RemoveHTMLTagsIsSubsequence(s[1..]);
    }
    SubsequenceNotLonger(RemoveHTMLTags(s), s);
  }

  /** A string without `<` holds no tag and comes back unchanged. */
  lemma {:induction false} NoOpenBracketUnchanged(s: string)
    requires '<' !in s
    ensures RemoveHTMLTags(s) == s
    decreases |s|
  {
    if s != [] {
      assert TagLength(s) == None;
      assert '<' !in s[1..];
      NoOpenBracketUnchanged(s[1..]);
    }
  }

  /** A string without `>` holds no tag either: an unclosed `<` survives. */
  lemma {:induction false} NoCloseBracketUnchanged(s: string)
    requires '>' !in s
    ensures RemoveHTMLTags(s) == s
    decreases |s|
  {
    if s != [] {
      assert TagLength(s) == None;
      assert '>' !in s[1..];
      NoCloseBracketUnchanged(s[1..]);
    }
  }

  lemma {:induction false} FirstCloseIgnoresTail(x: string, b: string)
    requires '>' !in b
    ensures FirstClose(x + b) == FirstClose(x)
    decreases |x|
  {
    if x == [] {
      assert x + b == b;
      assert FirstClose(b) == None;
    } else {
      assert (x + b)[1..] == x[1..] + b;
      FirstCloseIgnoresTail(x[1..], b);
    }
  }

  /**
   * A tail without `>` cannot close a tag, so it survives whatever comes
   * before it: in particular a `<` with no later `>` is kept.
   */
  lemma {:induction false} UnclosedTailSurvives(a: string, b: string)
    requires '>' !in b
    ensures RemoveHTMLTags(a + b) == RemoveHTMLTags(a) + b
    decreases |a|
  {
    var s := a + b;
    if a == [] {
      assert s == b;
      NoCloseBracketUnchanged(b);
    } else {
      assert s[0] == a[0];
      if a[0] == '<' {
        assert s[1..] == a[1..] + b;
        FirstCloseIgnoresTail(a[1..], b);
      }
      assert TagLength(s) == TagLength(a);
      match TagLength(a)
      case Some(n) =>
        assert s[n..] == a[n..] + b;
        UnclosedTailSurvives(a[n..], b);
      case None =>
        assert s[1..] == a[1..] + b;
        UnclosedTailSurvives(a[1..], b);
    }
  }

  /**
   * A tag is deleted and the text around it kept: after plain text `a`
   * (no `<` that could open an earlier match), `<`, a non-empty body `u`
   * without `>`, and `>`, the scan resumes at `c`.
   */
  lemma {:induction false} TagRemoved(a: string, u: string, c: string)
    requires '<' !in a && u != [] && '>' !in u
    ensures RemoveHTMLTags(a + ['<'] + u + ['>'] + c) == a + RemoveHTMLTags(c)
    decreases |a|
  {
    var s := a + ['<'] + u + ['>'] + c;
    if a == [] {
      var rest := ['>'] + c;
      assert s == ['<'] + (u + rest);
      assert s[1..] == u + rest;
      FirstCloseAt(u, rest);
      assert TagLength(s) == Some(|u| + 2);
      assert s[|u| + 2..] == c;
    } else {
      assert s[0] == a[0] && a[0] != '<';
      assert TagLength(s) == None;
      assert s[1..] == a[1..] + ['<'] + u + ['>'] + c;
      TagRemoved(a[1..], u, c);
    }
  }

  lemma {:induction false} FirstCloseAt(u: string, rest: string)
    requires '>' !in u && rest != [] && rest[0] == '>'
    ensures FirstClose(u + rest) == Some(|u|)
    decreases |u|
  {
    if u != [] {
      assert (u + rest)[1..] == u[1..] + rest;
      FirstCloseAt(u[1..], rest);
    } else {
      assert u + rest == rest;
    }
  }

  /** `<>` is no tag, because `[^>]+` needs at least one character: both brackets survive. */
  lemma EmptyBracketsSurvive(c: string)
    ensures RemoveHTMLTags(['<', '>'] + c) == ['<', '>'] + RemoveHTMLTags(c)
  {
    var s := ['<', '>'] + c;
    assert s[1..] == ['>'] + c;
    assert FirstClose(s[1..]) == Some(0);
    assert TagLength(s) == None;
    assert RemoveHTMLTags(s) == ['<'] + RemoveHTMLTags(s[1..]);
    assert TagLength(s[1..]) == None;
    assert s[1..][1..] == c;
    assert RemoveHTMLTags(s[1..]) == ['>'] + RemoveHTMLTags(c);
  }

  /** A tag inside text is deleted and the text around it kept. */
  lemma TagInTextExample()
    ensures RemoveHTMLTags("a<b>c") == "ac"
  {
    assert "a<b>c" == "a" + ['<'] + "b" + ['>'] + "c";
    TagRemoved("a", "b", "c");
    NoOpenBracketUnchanged("c");
  }

  /** `<>` on its own stays. */
  lemma EmptyBracketsExample()
    ensures RemoveHTMLTags("<>") == "<>"
  {
    assert "<>" == ['<', '>'] + "";
    EmptyBracketsSurvive("");
  }

  /** A tag ends at the first `>` after its `<`; a later `>` is plain text. */
  lemma FirstCloseEndsTagExample()
    ensures RemoveHTMLTags("<a>b>") == "b>"
  {
    assert "<a>b>" == "" + ['<'] + "a" + ['>'] + "b>";
    TagRemoved("", "a", "b>");
    NoOpenBracketUnchanged("b>");
  }
}
