/**
 * `is_safe` (calculator.py:77-80): the denylist of substrings that makes the
 * engine refuse to evaluate a preprocessed expression.
 */
module Safety {
  import opened Text

  /** The banned substrings, in source order. */
  const Banned: seq<string> :=
    ["__", "import", "exec", "eval", "open", "file", "os", "sys", "subprocess", "input"]

  /** Some word of `words` occurs in `t`. */
  function AnyOccurs(words: seq<string>, t: string): (r: bool)
    ensures r <==> exists w | w in words :: Occurs(t, w)
  {
    if |words| == 0 then false
    else
      assert forall w | w in words :: w == words[0] || w in words[1..];
      Contains(t, words[0]) || AnyOccurs(words[1..], t)
  }

  /** `is_safe(expr)`: no banned word occurs in the lower-cased expression. */
  function IsSafe(s: string): (r: bool)
    ensures r <==> forall w | w in Banned :: !Occurs(ToLower(s), w)
  {
    !AnyOccurs(Banned, ToLower(s))
  }

  /** Lower-casing keeps an occurrence of a word written in lower-case letters. */
  lemma LowerKeepsOccurrence(s: string, w: string, i: int)
    requires OccursAt(s, w, i)
    requires forall j | 0 <= j < |w| :: IsLowerLetter(w[j])
    ensures OccursAt(ToLower(s), w, i)
  {
    var t := ToLower(s);
    assert t[i..i + |w|] == w by {
      forall j | 0 <= j < |w|
        ensures t[i + j] == w[j]
      {
        assert s[i + j] == s[i..i + |w|][j];
      }
    }
  }

  /**
   * The banned word "os" sits inside "cos": every expression that calls the
   * cosine or the arc cosine is refused.
   */
  lemma CosineIsUnsafe(s: string)
    requires Occurs(s, "cos")
    ensures !IsSafe(s)
  {
    var i :| OccursAt(s, "cos", i);
    assert s[i + 1..i + 3] == s[i..i + 3][1..3] == "os";
    LowerKeepsOccurrence(s, "os", i + 1);
    assert "os" in Banned;
  }

  /** The check ignores case: upper- or lower-casing the input never changes its verdict. */
  lemma CaseDoesNotMatter(s: string)
    ensures IsSafe(ToUpper(s)) == IsSafe(s)
    ensures IsSafe(ToLower(s)) == IsSafe(s)
  {
    assert ToLower(ToUpper(s)) == ToLower(s);
    assert ToLower(ToLower(s)) == ToLower(s);
  }
}
