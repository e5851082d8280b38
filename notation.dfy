/**
 * `preprocess` and `_convert_trig_mode` (calculator.py:32-75): the chain of
 * textual rewrites that turns calculator notation into the expression the
 * engine evaluates. Each stage is one `str.replace` or `re.sub` of the
 * source, written with `Patterns.Sub`; beside the stages stand independent
 * reference definitions (`StarAfter`, `FactorialRef`) and the lemmas that
 * connect them.
 */
module Notation {
  import opened Wrappers
  import opened Text
  import opened Patterns

  /** The notation glyphs that `preprocess` removes. */
  predicate GlyphFree(s: string) {
    ' ' !in s && '^' !in s && 'π' !in s && '√' !in s && '∛' !in s
  }

  ghost predicate IntroducesNoGlyph(p: Pattern) {
    ' ' !in Introduces(p) && '^' !in Introduces(p) && 'π' !in Introduces(p)
    && '√' !in Introduces(p) && '∛' !in Introduces(p)
  }

  lemma KeepsGlyphFree(s: string, p: Pattern)
    requires GlyphFree(s) && IntroducesNoGlyph(p)
    ensures GlyphFree(Sub(s, p))
  {
    SubChars(s, p);
  }

  // ---------------------------------------------------------------------
  // The stages, in the order `preprocess` applies them.
  // ---------------------------------------------------------------------

  /** `expr.replace(" ", "")` (line 34): the spaces dropped, every other character kept in order. */
  function StripSpaces(s: string): (r: string)
    ensures r == CharReplaced(s, ' ', "")
    ensures ' ' !in r
    ensures forall c | c in r :: c in s
  {
    ReplaceRemoves(s, ' ', "");
    SubChars(s, Literal(" ", ""));
    ReplaceAll(s, " ", "")
  }

  /** `√<numeral>` to `sqrt(<numeral>)`, then `∛<numeral>` to `cbrt(<numeral>)` (lines 36-37). */
  function ExpandRoots(s: string): (r: string)
    ensures '√' !in s && '∛' !in s ==> r == s
    ensures ' ' !in s ==> ' ' !in r
  {
    var r := Sub(Sub(s, Root('√', "sqrt")), Root('∛', "cbrt"));
    assert ' ' !in s ==> ' ' !in r by {
      if ' ' !in s {
        RootsKeepSpaceFree(s);
      }
    }
    assert '√' !in s && '∛' !in s ==> r == s by {
      if '√' !in s && '∛' !in s {
        RootAbsent(s, '√', "sqrt");
        RootAbsent(s, '∛', "cbrt");
      }
    }
    r
  }

  /**
   * A root glyph followed by a numeral `d` (the longest one there) becomes a
   * call on `d`; the scan goes on right after `d`.
   */
  lemma RootExpanded(glyph: char, name: string, d: string, rest: string)
    requires NumeralLen(d + rest) == Some(|d|)
    ensures Sub([glyph] + d + rest, Root(glyph, name)) == name + "(" + d + ")" + Sub(rest, Root(glyph, name))
  {
    var t := [glyph] + d + rest;
    assert t[1..] == d + rest;
    assert t[1..1 + |d|] == d;
    assert t[1 + |d|..] == rest;
  }

  /** Any character that is not the glyph followed by a numeral is copied, and the scan goes on after it. */
  lemma RootKept(glyph: char, name: string, s: string)
    requires |s| > 0 && !(s[0] == glyph && NumeralLen(s[1..]).Some?)
    ensures Sub(s, Root(glyph, name)) == [s[0]] + Sub(s[1..], Root(glyph, name))
  {
    MatchRoot(glyph, name, s);
    assert RootAt(glyph, name, s).None?;
    SubMiss(s, Root(glyph, name));
  }

  /** Text without the glyph is left as it is. */
  lemma RootAbsent(s: string, glyph: char, name: string)
    requires glyph !in s
    ensures Sub(s, Root(glyph, name)) == s
  {
    forall k | 0 <= k < |s|
      ensures Echoes(Root(glyph, name), s[k..])
    {
      assert s[k..][0] == s[k];
    }
    SubEcho(s, Root(glyph, name));
  }

  /**
   * `^` to `**`, `π` to `pi`, bare `√` to `sqrt`, bare `∛` to `cbrt` (line 40):
   * each glyph spelled out, every other character kept in order.
   */
  function SubstituteGlyphs(s: string): (r: string)
    ensures r == Spelled(s)
    ensures '^' !in r && 'π' !in r && '√' !in r && '∛' !in r
    ensures ' ' !in s ==> ' ' !in r
  {
    var s1 := ReplaceAll(s, "^", "**");
    var s2 := ReplaceAll(s1, "π", "pi");
    var s3 := ReplaceAll(s2, "√", "sqrt");
    GlyphStep(s, '^', "**", []);
    GlyphStep(s1, 'π', "pi", ['^']);
    GlyphStep(s2, '√', "sqrt", ['^', 'π']);
    GlyphStep(s3, '∛', "cbrt", ['^', 'π', '√']);
    GlyphPassesSpell(s);
    ReplaceAll(s3, "∛", "cbrt")
  }

  /** What one character becomes once the glyphs are spelled out. */
  function GlyphWord(c: char): string {
    if c == '^' then "**"
    else if c == 'π' then "pi"
    else if c == '√' then "sqrt"
    else if c == '∛' then "cbrt"
    else [c]
  }

  /** Reference: every character of `s` written as its `GlyphWord`, in order. */
  function Spelled(s: string): string {
    if |s| == 0 then [] else GlyphWord(s[0]) + Spelled(s[1..])
  }

  /** The four one-character replacements of line 40, one after the other. */
  function GlyphPasses(s: string): string {
    CharReplaced(CharReplaced(CharReplaced(CharReplaced(s, '^', "**"), 'π', "pi"), '√', "sqrt"), '∛', "cbrt")
  }

  lemma {:induction false} GlyphPassesSpell(s: string)
    ensures GlyphPasses(s) == Spelled(s)
  {
    if |s| > 0 {
      GlyphPassesSpell(s[1..]);
      GlyphPassesOne(s[0]);
      GlyphPassesConcat([s[0]], s[1..]);
      assert [s[0]] + s[1..] == s;
    }
  }

  /** The passes work character by character. */
  lemma GlyphPassesConcat(x: string, y: string)
    ensures GlyphPasses(x + y) == GlyphPasses(x) + GlyphPasses(y)
  {
    var x1 := CharReplaced(x, '^', "**");
    var y1 := CharReplaced(y, '^', "**");
    var x2 := CharReplaced(x1, 'π', "pi");
    var y2 := CharReplaced(y1, 'π', "pi");
    var x3 := CharReplaced(x2, '√', "sqrt");
    var y3 := CharReplaced(y2, '√', "sqrt");
    CharReplacedConcat(x, y, '^', "**");
    CharReplacedConcat(x1, y1, 'π', "pi");
    CharReplacedConcat(x2, y2, '√', "sqrt");
    CharReplacedConcat(x3, y3, '∛', "cbrt");
  }

  /** On one character the passes give its `GlyphWord`: a later pass never meets an earlier pass's letters. */
  lemma GlyphPassesOne(c: char)
    ensures GlyphPasses([c]) == GlyphWord(c)
  {
    CharReplacedOne(c, '^', "**");
    var w1 := CharReplaced([c], '^', "**");
    var w2 := CharReplaced(w1, 'π', "pi");
    if c == 'π' {
      CharReplacedOne(c, 'π', "pi");
    } else {
      CharReplacedAbsent(w1, 'π', "pi");
    }
    var w3 := CharReplaced(w2, '√', "sqrt");
    if c == '√' {
      CharReplacedOne(c, '√', "sqrt");
    } else {
      CharReplacedAbsent(w2, '√', "sqrt");
    }
    if c == '∛' {
      CharReplacedOne(c, '∛', "cbrt");
    } else {
      CharReplacedAbsent(w3, '∛', "cbrt");
    }
  }

  /**
   * Replacing glyph `g` by a word of ASCII letters removes `g` and keeps out
   * the space and every glyph in `gone` that was already absent.
   */
  lemma GlyphStep(s: string, g: char, word: string, gone: seq<char>)
    requires forall c | c in word :: 'a' <= c <= 'z' || c == '*'
    requires g !in word
    requires forall c | c in gone :: c !in s && !('a' <= c <= 'z' || c == '*')
    ensures g !in ReplaceAll(s, [g], word)
    ensures forall c | c in gone :: c !in ReplaceAll(s, [g], word)
    ensures ' ' !in s ==> ' ' !in ReplaceAll(s, [g], word)
  {
    ReplaceRemoves(s, g, word);
    SubChars(s, Literal([g], word));
  }

  /** `expr.replace("10^", "10**")` (line 41): nothing to do once no `^` is left. */
  function PowerOfTen(s: string): (r: string)
    ensures '^' !in s ==> r == s
  {
    var r := ReplaceAll(s, "10^", "10**");
    assert '^' !in s ==> r == s by {
      if '^' !in s {
        ReplaceAbsent(s, "10^", "10**", '^');
      }
    }
    r
  }

  /**
   * The four implicit-multiplication substitutions (lines 44-47), in source
   * order: they are the four star insertions one after the other, and none
   * of the four rules fires anywhere in the result.
   */
  function InsertProducts(s: string): (r: string)
    ensures r == StarAfter(StarAfter(StarAfter(StarAfter(s, DigitName), DigitParen), ParenName), ParenDigit)
    ensures Settled(r, DigitName) && Settled(r, DigitParen) && Settled(r, ParenName) && Settled(r, ParenDigit)
  {
    var s1 := Sub(s, Implicit(DigitName));
    var s2 := Sub(s1, Implicit(DigitParen));
    var s3 := Sub(s2, Implicit(ParenName));
    ProductsAreStarAfter(s, DigitName);
    ProductsAreStarAfter(s1, DigitParen);
    ProductsAreStarAfter(s2, ParenName);
    ProductsAreStarAfter(s3, ParenDigit);
    StarsSettle(s);
    Sub(s3, Implicit(ParenDigit))
  }

  /** `(\d+)!+` to `fact(\1)` (line 50). */
  function ExpandFactorials(s: string): (r: string)
    ensures r == FactorialRef(s)
    ensures NoBangAfterDigit(r)
  {
    FactorialsMatchRef(s);
    RefNoBangAfterDigit(s);
    Sub(s, Bang)
  }

  /** `replace("nCr", "nCr")` and `replace("nPr", "nPr")` (lines 53-54). */
  function KeepCombinations(s: string): (r: string)
    ensures r == s
  {
    ReplaceBySelf(s, "nCr");
    ReplaceBySelf(s, "nPr");
    ReplaceAll(ReplaceAll(s, "nCr", "nCr"), "nPr", "nPr")
  }

  /**
   * `_convert_trig_mode` (lines 63-75): in any mode other than "RAD", each
   * `f(arg)` with `f` a trigonometric name and `arg` free of `)` becomes
   * `f((arg)*pi/180)` when `evaluable(arg)` (the `eval` of line 70 succeeds)
   * and is kept as it is otherwise.
   */
  function ConvertTrig(s: string, mode: string, evaluable: string -> bool): (r: string)
    ensures mode == "RAD" ==> r == s
    ensures (forall a :: !evaluable(a)) ==> r == s
  {
    if mode == "RAD" then s
    else
      TrigEchoes(s, evaluable);
      Sub(s, Trig(evaluable))
  }

  /** `preprocess(expr)` (lines 32-56) in angle mode `mode`. */
  function Preprocess(s: string, mode: string, evaluable: string -> bool): (r: string)
    ensures GlyphFree(r)
  {
    var s1 := StripSpaces(s);
    var s2 := ExpandRoots(s1);
    var s3 := SubstituteGlyphs(s2);
    var s4 := PowerOfTen(s3);
    var s5 := InsertProducts(s4);
    ProductsKeepGlyphFree(s4);
    var s6 := ExpandFactorials(s5);
    BangKeepsGlyphFree(s5);
    var s7 := KeepCombinations(s6);
    TrigKeepsGlyphFree(s7, mode, evaluable);
    ConvertTrig(s7, mode, evaluable)
  }

  lemma BangKeepsGlyphFree(s: string)
    requires GlyphFree(s)
    ensures GlyphFree(ExpandFactorials(s))
  {
    assert IntroducesNoGlyph(Bang);
    KeepsGlyphFree(s, Bang);
  }

  lemma TrigKeepsGlyphFree(s: string, mode: string, evaluable: string -> bool)
    requires GlyphFree(s)
    ensures GlyphFree(ConvertTrig(s, mode, evaluable))
  {
    if mode != "RAD" {
      assert IntroducesNoGlyph(Trig(evaluable));
      KeepsGlyphFree(s, Trig(evaluable));
    }
  }

  lemma RootsKeepSpaceFree(s: string)
    requires ' ' !in s
    ensures ' ' !in Sub(Sub(s, Root('√', "sqrt")), Root('∛', "cbrt"))
  {
    var a := Sub(s, Root('√', "sqrt"));
    SubChars(s, Root('√', "sqrt"));
    assert ' ' !in Introduces(Root('√', "sqrt"));
    SubChars(a, Root('∛', "cbrt"));
    assert ' ' !in Introduces(Root('∛', "cbrt"));
  }

  lemma ProductsKeepGlyphFree(s: string)
    requires GlyphFree(s)
    ensures GlyphFree(InsertProducts(s))
  {
    var s1 := Sub(s, Implicit(DigitName));
    var s2 := Sub(s1, Implicit(DigitParen));
    var s3 := Sub(s2, Implicit(ParenName));
    KeepsGlyphFree(s, Implicit(DigitName));
    KeepsGlyphFree(s1, Implicit(DigitParen));
    KeepsGlyphFree(s2, Implicit(ParenName));
    KeepsGlyphFree(s3, Implicit(ParenDigit));
  }

  // ---------------------------------------------------------------------
  // Implicit multiplication: reference definition and its properties.
  // ---------------------------------------------------------------------

  /** The character a rule's match starts with. */
  predicate Lead(rule: Rule, c: char) {
    match rule
    case DigitName => IsDigit(c)
    case DigitParen => IsDigit(c)
    case ParenName => c == ')'
    case ParenDigit => c == ')'
  }

  /** What must come right after the leading character. */
  predicate Follows(rule: Rule, u: string) {
    match rule
    case DigitName => HasPrefixIn(Names, u)
    case ParenName => HasPrefixIn(Names, u)
    case DigitParen => |u| > 0 && u[0] == '('
    case ParenDigit => |u| > 0 && IsDigit(u[0])
  }

  /** The adjacency a rule repairs occurs at the start of `t`. */
  predicate Fires(rule: Rule, t: string) {
    |t| > 0 && Lead(rule, t[0]) && Follows(rule, t[1..])
  }

  /** Reference: one `*` written after every character at which `rule` fires, nothing else changed. */
  function StarAfter(s: string, rule: Rule): string {
    if |s| == 0 then []
    else [s[0]] + (if Fires(rule, s) then "*" else "") + StarAfter(s[1..], rule)
  }

  /** No position of `s` has the adjacency `rule` repairs. */
  ghost predicate Settled(s: string, rule: Rule) {
    |s| == 0 || (!Fires(rule, s) && Settled(s[1..], rule))
  }

  predicate IsWord(w: string) {
    |w| > 0 && forall i | 0 <= i < |w| :: IsLowerLetter(w[i])
  }

  lemma NamesAreWords()
    ensures forall w | w in Names :: IsWord(w)
  {
  }

  /** A rule's match is `<lead><rest>`, replaced by `<lead>*<rest>`, where no `<rest>` character can lead. */
  lemma MatchRuleFires(rule: Rule, t: string)
    ensures MatchRule(rule, t).Some? <==> Fires(rule, t)
    ensures MatchRule(rule, t).Some? ==>
              && MatchRule(rule, t).value.replacement == Starred(t[0], t[1..MatchRule(rule, t).value.len])
              && forall j | 1 <= j < MatchRule(rule, t).value.len :: !Lead(rule, t[j])
  {
    match rule
    case DigitName => NameRuleFires(rule, t);
    case ParenName => NameRuleFires(rule, t);
    case DigitParen =>
    case ParenDigit =>
  }

  lemma NameRuleFires(rule: Rule, t: string)
    requires rule.DigitName? || rule.ParenName?
    ensures MatchRule(rule, t).Some? <==> Fires(rule, t)
    ensures MatchRule(rule, t).Some? ==>
              && MatchRule(rule, t).value.replacement == Starred(t[0], t[1..MatchRule(rule, t).value.len])
              && forall j | 1 <= j < MatchRule(rule, t).value.len :: !Lead(rule, t[j])
  {
    if |t| > 0 && Lead(rule, t[0]) {
      var o := FirstPrefix(Names, t[1..]);
      if o.Some? {
        NameHit(rule, t, o.value);
        NameFires(rule, t, o.value);
        NameRest(rule, t, o.value);
      } else {
        NameMiss(rule, t);
      }
    } else {
      NoLead(rule, t);
    }
  }

  lemma NoLead(rule: Rule, t: string)
    requires rule.DigitName? || rule.ParenName?
    requires !(|t| > 0 && Lead(rule, t[0]))
    ensures MatchRule(rule, t).None? && !Fires(rule, t)
  {
  }

  lemma NameMiss(rule: Rule, t: string)
    requires rule.DigitName? || rule.ParenName?
    requires |t| > 0 && Lead(rule, t[0]) && FirstPrefix(Names, t[1..]).None?
    ensures MatchRule(rule, t).None? && !Fires(rule, t)
  {
  }

  /** A name rule's match, spelled out from the alternative the alternation commits to. */
  lemma NameHit(rule: Rule, t: string, w: string)
    requires rule.DigitName? || rule.ParenName?
    requires |t| > 0 && Lead(rule, t[0]) && FirstPrefix(Names, t[1..]) == Some(w)
    ensures MatchRule(rule, t).Some? && MatchRule(rule, t).value.len == 1 + |w|
    ensures MatchRule(rule, t).value.replacement == Starred(t[0], w)
  {
  }

  /** The alternative the alternation commits to is a name the rule accepts. */
  lemma NameFires(rule: Rule, t: string, w: string)
    requires rule.DigitName? || rule.ParenName?
    requires |t| > 0 && Lead(rule, t[0]) && w in Names && IsPrefix(w, t[1..])
    ensures Fires(rule, t)
  {
    assert HasPrefixIn(Names, t[1..]);
  }

  lemma NameRest(rule: Rule, t: string, w: string)
    requires |t| > 0 && w in Names && IsPrefix(w, t[1..])
    ensures t[1..1 + |w|] == w
    ensures forall j | 1 <= j < 1 + |w| :: !Lead(rule, t[j])
  {
    NamesAreWords();
    assert IsWord(w);
    forall j | 1 <= j < 1 + |w|
      ensures !Lead(rule, t[j])
    {
      assert t[j] == w[j - 1];
      assert IsLowerLetter(w[j - 1]);
    }
  }

  lemma {:induction false} StarAfterSkip(u: string, k: nat, rule: Rule)
    requires k <= |u|
    requires forall j | 0 <= j < k :: !Lead(rule, u[j])
    ensures StarAfter(u, rule) == u[..k] + StarAfter(u[k..], rule)
  {
    if k > 0 {
      StarAfterSkip(u[1..], k - 1, rule);
      SplitHead(u, k);
      DropDrop(u, 1, k - 1);
      StarAfterHead(u, rule);
      ConsAssoc(u[0], u[1..k], StarAfter(u[k..], rule));
    } else {
      DropNone(u);
    }
  }

  /** Each implicit-multiplication `re.sub` inserts exactly one `*` at each position its rule fires. */
  lemma {:induction false} ProductsAreStarAfter(s: string, rule: Rule)
    ensures Sub(s, Implicit(rule)) == StarAfter(s, rule)
    decreases |s|
  {
    if |s| > 0 {
      MatchImplicit(rule, s);
      MatchRuleFires(rule, s);
      match MatchRule(rule, s)
      case Some(h) =>
        ProductsAreStarAfter(s[h.len..], rule);
        ProductsHit(s, rule, h.len, h.replacement);
      case None =>
        ProductsAreStarAfter(s[1..], rule);
        SubMiss(s, Implicit(rule));
        StarAfterHead(s, rule);
    }
  }

  /** One step of `ProductsAreStarAfter` at a match of known length and replacement. */
  lemma ProductsHit(s: string, rule: Rule, n: nat, r: string)
    requires |s| > 0 && MatchAt(Implicit(rule), s).Some?
    requires MatchAt(Implicit(rule), s).value.len == n && MatchAt(Implicit(rule), s).value.replacement == r
    requires Fires(rule, s) && 0 < n <= |s| && r == Starred(s[0], s[1..n])
    requires forall j | 1 <= j < n :: !Lead(rule, s[j])
    requires Sub(s[n..], Implicit(rule)) == StarAfter(s[n..], rule)
    ensures Sub(s, Implicit(rule)) == StarAfter(s, rule)
  {
    SubHitAt(s, Implicit(rule), n, r);
    StarAfterFires(s, rule, n);
  }

  lemma StarAfterFires(s: string, rule: Rule, len: nat)
    requires Fires(rule, s) && 0 < len <= |s|
    requires forall j | 1 <= j < len :: !Lead(rule, s[j])
    ensures StarAfter(s, rule) == Starred(s[0], s[1..len]) + StarAfter(s[len..], rule)
  {
    StarAfterSkip(s[1..], len - 1, rule);
    SplitHead(s, len);
    DropDrop(s, 1, len - 1);
    StarAfterStarred(s, rule);
    StarredConcat(s[0], s[1..len], StarAfter(s[len..], rule));
  }

  lemma {:induction false} PrefixThrough(w: string, u: string, rule: Rule)
    requires forall i | 0 <= i < |w| :: IsLowerLetter(w[i])
    requires IsPrefix(w, StarAfter(u, rule))
    ensures IsPrefix(w, u)
  {
    if |w| > 0 {
      assert |u| > 0 && StarAfter(u, rule)[0] == u[0];
      assert IsLowerLetter(w[0]);
      StarAfterHead(u, rule);
      PrefixTail(w, u[0], StarAfter(u[1..], rule));
      PrefixThrough(w[1..], u[1..], rule);
      PrefixCons(w, u);
    }
  }

  /** No star follows a character that cannot lead the rule. */
  lemma StarAfterHead(u: string, rule: Rule)
    requires |u| > 0 && !Fires(rule, u)
    ensures StarAfter(u, rule) == [u[0]] + StarAfter(u[1..], rule)
  {
  }

  lemma StarAfterStarred(u: string, rule: Rule)
    requires Fires(rule, u)
    ensures StarAfter(u, rule) == Starred(u[0], StarAfter(u[1..], rule))
  {
  }

  /** Inserting stars never creates what a rule looks for after its leading character. */
  lemma FollowsThrough(r1: Rule, u: string, rule: Rule)
    ensures Follows(r1, StarAfter(u, rule)) ==> Follows(r1, u)
  {
    if Follows(r1, StarAfter(u, rule)) {
      if r1.DigitName? || r1.ParenName? {
        var w :| w in Names && IsPrefix(w, StarAfter(u, rule));
        NamesAreWords();
        PrefixThrough(w, u, rule);
      } else {
        assert |u| > 0 && StarAfter(u, rule)[0] == u[0];
      }
    }
  }

  /** Nothing a rule looks for after its leading character starts with `*`. */
  lemma NothingFollowsStar(r1: Rule, u: string)
    ensures !Follows(r1, "*" + u)
  {
    if r1.DigitName? || r1.ParenName? {
      if w :| w in Names && IsPrefix(w, "*" + u) {
        NamesAreWords();
        assert IsWord(w) && w[0] == '*';
      }
    }
  }

  lemma SettledCons(c: char, u: string, r1: Rule)
    requires Settled(u, r1) && !(Lead(r1, c) && Follows(r1, u))
    ensures Settled([c] + u, r1)
  {
    assert ([c] + u)[1..] == u;
  }

  /** A star pass settles its own rule and keeps every rule that was already settled. */
  lemma {:induction false} StarSettles(s: string, rule: Rule, r1: Rule)
    requires rule == r1 || Settled(s, r1)
    ensures Settled(StarAfter(s, rule), r1)
  {
    if |s| > 0 {
      StarSettles(s[1..], rule, r1);
      var tail := StarAfter(s[1..], rule);
      if Fires(rule, s) {
        NothingFollowsStar(r1, tail);
        SettledCons('*', tail, r1);
        SettledCons(s[0], "*" + tail, r1);
        StarAfterStarred(s, rule);
        ConsAssoc(s[0], "*", tail);
      } else {
        FollowsThrough(r1, s[1..], rule);
        SettledCons(s[0], tail, r1);
        StarAfterHead(s, rule);
      }
    }
  }

  lemma {:induction false} SettledAt(s: string, rule: Rule, k: nat)
    requires Settled(s, rule) && k < |s|
    ensures !Fires(rule, s[k..])
  {
    if k > 0 {
      SettledAt(s[1..], rule, k - 1);
      assert s[1..][k - 1..] == s[k..];
    }
  }

  /** After the four star insertions no rule fires anywhere. */
  lemma StarsSettle(s: string)
    ensures var r := StarAfter(StarAfter(StarAfter(StarAfter(s, DigitName), DigitParen), ParenName), ParenDigit);
      Settled(r, DigitName) && Settled(r, DigitParen) && Settled(r, ParenName) && Settled(r, ParenDigit)
  {
    var s1 := StarAfter(s, DigitName);
    var s2 := StarAfter(s1, DigitParen);
    var s3 := StarAfter(s2, ParenName);
    StarSettles(s, DigitName, DigitName);
    StarSettles(s1, DigitParen, DigitName);
    StarSettles(s1, DigitParen, DigitParen);
    StarSettles(s2, ParenName, DigitName);
    StarSettles(s2, ParenName, DigitParen);
    StarSettles(s2, ParenName, ParenName);
    StarSettles(s3, ParenDigit, DigitName);
    StarSettles(s3, ParenDigit, DigitParen);
    StarSettles(s3, ParenDigit, ParenName);
    StarSettles(s3, ParenDigit, ParenDigit);
  }

  /**
   * After the four passes no digit is followed by `(` or by a listed name,
   * and no `)` is followed by a digit or by a listed name.
   */
  lemma ProductsSettled(s: string)
    ensures var r := InsertProducts(s);
      && (forall k | 0 <= k < |r| - 1 :: IsDigit(r[k]) ==> r[k + 1] != '(')
      && (forall k | 0 <= k < |r| :: IsDigit(r[k]) ==> !HasPrefixIn(Names, r[k + 1..]))
      && (forall k | 0 <= k < |r| - 1 :: r[k] == ')' ==> !IsDigit(r[k + 1]))
      && (forall k | 0 <= k < |r| :: r[k] == ')' ==> !HasPrefixIn(Names, r[k + 1..]))
  {
    SettledPositions(InsertProducts(s));
  }

  lemma SettledPositions(r: string)
    requires Settled(r, DigitName) && Settled(r, DigitParen) && Settled(r, ParenName) && Settled(r, ParenDigit)
    ensures forall k | 0 <= k < |r| - 1 :: IsDigit(r[k]) ==> r[k + 1] != '('
    ensures forall k | 0 <= k < |r| :: IsDigit(r[k]) ==> !HasPrefixIn(Names, r[k + 1..])
    ensures forall k | 0 <= k < |r| - 1 :: r[k] == ')' ==> !IsDigit(r[k + 1])
    ensures forall k | 0 <= k < |r| :: r[k] == ')' ==> !HasPrefixIn(Names, r[k + 1..])
  {
    forall k | 0 <= k < |r| - 1
      ensures IsDigit(r[k]) ==> r[k + 1] != '('
    {
      DigitPosition(r, k);
    }
    forall k | 0 <= k < |r|
      ensures IsDigit(r[k]) ==> !HasPrefixIn(Names, r[k + 1..])
    {
      DigitPosition(r, k);
    }
    forall k | 0 <= k < |r| - 1
      ensures r[k] == ')' ==> !IsDigit(r[k + 1])
    {
      ParenPosition(r, k);
    }
    forall k | 0 <= k < |r|
      ensures r[k] == ')' ==> !HasPrefixIn(Names, r[k + 1..])
    {
      ParenPosition(r, k);
    }
  }

  lemma DigitPosition(r: string, k: nat)
    requires Settled(r, DigitName) && Settled(r, DigitParen) && k < |r|
    ensures IsDigit(r[k]) ==> !HasPrefixIn(Names, r[k + 1..]) && (k + 1 < |r| ==> r[k + 1] != '(')
  {
    SettledAt(r, DigitName, k);
    SettledAt(r, DigitParen, k);
    FiresAt(r, k);
  }

  lemma ParenPosition(r: string, k: nat)
    requires Settled(r, ParenName) && Settled(r, ParenDigit) && k < |r|
    ensures r[k] == ')' ==> !HasPrefixIn(Names, r[k + 1..]) && (k + 1 < |r| ==> !IsDigit(r[k + 1]))
  {
    SettledAt(r, ParenName, k);
    SettledAt(r, ParenDigit, k);
    FiresAt(r, k);
  }

  lemma FiresAt(r: string, k: nat)
    requires k < |r|
    ensures Fires(DigitName, r[k..]) <==> IsDigit(r[k]) && HasPrefixIn(Names, r[k + 1..])
    ensures Fires(ParenName, r[k..]) <==> r[k] == ')' && HasPrefixIn(Names, r[k + 1..])
    ensures Fires(DigitParen, r[k..]) <==> IsDigit(r[k]) && k + 1 < |r| && r[k + 1] == '('
    ensures Fires(ParenDigit, r[k..]) <==> r[k] == ')' && k + 1 < |r| && IsDigit(r[k + 1])
  {
    assert r[k..][1..] == r[k + 1..];
  }

  // ---------------------------------------------------------------------
  // Factorials: reference definition and its properties.
  // ---------------------------------------------------------------------

  /**
   * Reference: every maximal run of digits followed by one or more `!`
   * becomes `fact(<digits>)` (the `!` are dropped); everything else is kept.
   */
  function FactorialRef(s: string): string
    decreases |s|
  {
    if |s| == 0 then []
    else
      var k := DigitRun(s);
      if k == 0 then [s[0]] + FactorialRef(s[1..])
      else
        var b := BangRun(s[k..]);
        if b > 0 then Call("fact", s[..k]) + FactorialRef(s[k + b..])
        else s[..k] + FactorialRef(s[k..])
  }

  predicate NoBangAfterDigit(x: string) {
    forall i | 0 <= i < |x| - 1 :: IsDigit(x[i]) ==> x[i + 1] != '!'
  }

  /** A digit run followed by neither a digit nor `!` is copied as it is. */
  lemma {:induction false} ScanDigitRun(u: string, rest: string)
    requires AllDigits(u)
    requires |rest| > 0 ==> !IsDigit(rest[0]) && rest[0] != '!'
    ensures Sub(u + rest, Bang) == u + Sub(rest, Bang)
  {
    if |u| > 0 {
      var t := u + rest;
      DigitRunAcross(u, rest);
      assert |u| < |t| ==> t[|u|] == rest[0];
      BangMiss(t);
      SubMiss(t, Bang);
      TailConcat(u, rest);
      ScanDigitRun(u[1..], rest);
      Uncons(u, Sub(rest, Bang));
    } else {
      assert u + rest == rest;
    }
  }

  /** The digit run at the front of `u + rest` is `u` when `rest` does not start with a digit. */
  lemma {:induction false} DigitRunAcross(u: string, rest: string)
    requires AllDigits(u)
    requires |rest| > 0 ==> !IsDigit(rest[0])
    ensures DigitRun(u + rest) == |u|
  {
    if |u| > 0 {
      assert (u + rest)[1..] == u[1..] + rest;
      assert IsDigit(u[0]);
      DigitRunAcross(u[1..], rest);
    }
  }

  lemma BangMiss(u: string)
    requires !(0 < DigitRun(u) < |u| && u[DigitRun(u)] == '!')
    ensures MatchAt(Bang, u).None?
  {
    MatchBang(u);
  }

  /** The factorial `re.sub` is the run-by-run reference. */
  lemma {:induction false} FactorialsMatchRef(s: string)
    ensures Sub(s, Bang) == FactorialRef(s)
    decreases |s|
  {
    if |s| > 0 {
      match BangAt(s)
      case Some(h) =>
        FactorialsMatchRef(s[h.len..]);
        RefAtMatch(s);
        RefBangRun(s, h.len, h.replacement);
      case None =>
        var k := DigitRun(s);
        if k == 0 {
          FactorialsMatchRef(s[1..]);
          RefNoRun(s);
        } else {
          FactorialsMatchRef(s[k..]);
          RefPlainRun(s, k);
        }
    }
  }

  /** Scan and reference agree on a text that does not start with a digit. */
  lemma RefNoRun(s: string)
    requires |s| > 0 && DigitRun(s) == 0
    requires Sub(s[1..], Bang) == FactorialRef(s[1..])
    ensures Sub(s, Bang) == FactorialRef(s)
  {
    BangMiss(s);
    SubMiss(s, Bang);
  }

  /**
   * The factorial pattern matches at `t` exactly when a digit run is followed
   * by `!`; it then takes the whole digit run and every `!` after it.
   */
  lemma BangHit(t: string)
    ensures BangAt(t).Some? <==> 0 < DigitRun(t) < |t| && t[DigitRun(t)] == '!'
    ensures BangAt(t).Some? ==>
              var k := DigitRun(t);
              var n := BangAt(t).value.len;
              && AllDigits(t[..k]) && k < n
              && (forall j | k <= j < n :: t[j] == '!')
              && (n < |t| ==> t[n] != '!')
              && BangAt(t).value.replacement == Call("fact", t[..k])
  {
    var k := DigitRun(t);
    if 0 < k < |t| && t[k] == '!' {
      RunDigits(t);
      RunBangs(t[k..]);
      var n := BangAt(t).value.len;
      assert n == k + BangRun(t[k..]);
      forall j | k <= j < n
        ensures t[j] == '!'
      {
        assert t[j] == t[k..][j - k];
      }
      if n < |t| {
        assert t[n] == t[k..][n - k];
      }
    }
  }

  /** Where the factorial pattern matches, the reference writes the same call and skips the same text. */
  lemma RefAtMatch(s: string)
    requires BangAt(s).Some?
    ensures FactorialRef(s) == BangAt(s).value.replacement + FactorialRef(s[BangAt(s).value.len..])
  {
  }

  /** Scan and reference agree on a text that starts with digits and `!`. */
  lemma RefBangRun(s: string, n: nat, r: string)
    requires |s| > 0 && BangAt(s).Some? && BangAt(s).value.len == n && BangAt(s).value.replacement == r
    requires FactorialRef(s) == r + FactorialRef(s[n..])
    requires Sub(s[n..], Bang) == FactorialRef(s[n..])
    ensures Sub(s, Bang) == FactorialRef(s)
  {
    SubHitBang(s, n, r);
    SameFront(Sub(s, Bang), FactorialRef(s), r, Sub(s[n..], Bang), FactorialRef(s[n..]));
  }

  /** One step of the factorial scan at a match of known length and replacement. */
  lemma SubHitBang(s: string, n: nat, r: string)
    requires |s| > 0 && BangAt(s).Some? && BangAt(s).value.len == n && BangAt(s).value.replacement == r
    ensures n <= |s| && Sub(s, Bang) == r + Sub(s[n..], Bang)
  {
    MatchBang(s);
    SubHitAt(s, Bang, n, r);
  }

  /** Scan and reference agree on a text that starts with digits not followed by `!`. */
  lemma RefPlainRun(s: string, k: nat)
    requires k == DigitRun(s) && 0 < k && (k < |s| ==> s[k] != '!')
    requires Sub(s[k..], Bang) == FactorialRef(s[k..])
    ensures Sub(s, Bang) == FactorialRef(s)
  {
    RunDigits(s);
    ScanDigitRun(s[..k], s[k..]);
    Rejoin(s, k);
    RefAtPlain(s, k);
    SameFront(Sub(s, Bang), FactorialRef(s), s[..k], Sub(s[k..], Bang), FactorialRef(s[k..]));
  }

  /** The reference copies a digit run that no `!` follows. */
  lemma RefAtPlain(s: string, k: nat)
    requires k == DigitRun(s) && 0 < k && (k < |s| ==> s[k] != '!')
    ensures FactorialRef(s) == s[..k] + FactorialRef(s[k..])
  {
  }

  lemma NoBangConcat(a: string, b: string)
    requires NoBangAfterDigit(a) && NoBangAfterDigit(b)
    requires |a| > 0 && |b| > 0 && IsDigit(a[|a| - 1]) ==> b[0] != '!'
    ensures NoBangAfterDigit(a + b)
  {
    var x := a + b;
    forall i | 0 <= i < |x| - 1 && IsDigit(x[i])
      ensures x[i + 1] != '!'
    {
      if i >= |a| {
        assert x[i] == b[i - |a|] && x[i + 1] == b[i + 1 - |a|];
      }
    }
  }

  /** After the factorial step no `!` is left directly after a digit. */
  lemma {:induction false} RefNoBangAfterDigit(s: string)
    ensures NoBangAfterDigit(FactorialRef(s))
    decreases |s|
  {
    if |s| > 0 {
      BangHit(s);
      match BangAt(s)
      case Some(h) =>
        RefNoBangAfterDigit(s[h.len..]);
        CallNoBang(s, h.len, h.replacement);
      case None =>
        var k := DigitRun(s);
        if k == 0 {
          RefNoBangAfterDigit(s[1..]);
          NoBangConcat([s[0]], FactorialRef(s[1..]));
        } else {
          RefNoBangAfterDigit(s[k..]);
          RunNoBang(s, k);
        }
    }
  }

  /** A `fact(<digits>)` call followed by text without `!` after a digit has none either. */
  lemma CallNoBang(s: string, n: nat, r: string)
    requires BangAt(s).Some? && BangAt(s).value.len == n && BangAt(s).value.replacement == r
    requires NoBangAfterDigit(FactorialRef(s[n..]))
    ensures NoBangAfterDigit(FactorialRef(s))
  {
    RefAtMatch(s);
    BangHit(s);
    CallFree(s[..DigitRun(s)]);
    NoBangConcat(r, FactorialRef(s[n..]));
  }

  /** `fact(<digits>)` holds no `!` and ends in `)`. */
  lemma CallFree(u: string)
    requires AllDigits(u)
    ensures NoBangAfterDigit(Call("fact", u))
  {
    var call := "fact(" + u + ")";
    forall i | 0 <= i < |call|
      ensures call[i] != '!'
    {
      if 5 <= i < 5 + |u| {
        assert call[i] == u[i - 5];
      }
    }
  }

  /** A digit run kept as it is, followed by no `!`, adds no `!` after a digit. */
  lemma RunNoBang(s: string, k: nat)
    requires k == DigitRun(s) && 0 < k && (k < |s| ==> s[k] != '!')
    requires NoBangAfterDigit(FactorialRef(s[k..]))
    ensures NoBangAfterDigit(FactorialRef(s))
  {
    RunDigits(s);
    var rest := FactorialRef(s[k..]);
    assert FactorialRef(s) == s[..k] + rest by {
      assert BangRun(s[k..]) == 0;
    }
    if k < |s| {
      assert DigitRun(s[k..]) == 0;
      assert rest[0] == s[k];
    }
    NoBangConcat(s[..k], rest);
  }

  // ---------------------------------------------------------------------
  // Angle mode.
  // ---------------------------------------------------------------------

  /** When every argument is unevaluable each match is written back unchanged. */
  lemma TrigEchoes(s: string, evaluable: string -> bool)
    ensures (forall a :: !evaluable(a)) ==> Sub(s, Trig(evaluable)) == s
  {
    if forall a :: !evaluable(a) {
      forall k | 0 <= k < |s|
        ensures Echoes(Trig(evaluable), s[k..])
      {
        TrigEcho(s[k..], evaluable);
      }
      SubEcho(s, Trig(evaluable));
    }
  }

  /** A call whose argument does not evaluate is written back as it was matched. */
  lemma TrigEcho(t: string, evaluable: string -> bool)
    requires forall a :: !evaluable(a)
    ensures Echoes(Trig(evaluable), t)
  {
    var m := MatchAt(Trig(evaluable), t);
    if m.Some? {
      var f := FirstPrefix(TrigNames, t).value;
      var u := t[|f|..];
      var a := NonCloseRun(u[1..]);
      CallText(t, f, a);
    }
  }

  /** The text a call match covers is the name, `(`, the argument and `)`. */
  lemma CallText(t: string, f: string, a: nat)
    requires IsPrefix(f, t) && |f| + 2 + a <= |t|
    requires t[|f|] == '(' && t[|f| + 1 + a] == ')'
    ensures t[..|f| + 2 + a] == f + "(" + t[|f|..][1..1 + a] + ")"
  {
    var w := f + "(" + t[|f|..][1..1 + a] + ")";
    forall i | 0 <= i < |w|
      ensures t[i] == w[i]
    {
      if i < |f| {
        assert t[..|f|][i] == t[i];
      }
    }
  }

  /** No trigonometric name is a proper prefix of another. */
  lemma TrigNamesExclusive(f: string, g: string, t: string)
    requires f in TrigNames && g in TrigNames
    requires IsPrefix(f, t) && IsPrefix(g, t)
    ensures f == g
  {
    assert t[0] == f[0] == g[0] && t[1] == f[1] == g[1] && t[2] == f[2] == g[2];
  }

  lemma {:induction false} NonCloseRunExact(x: string, y: string)
    requires ')' !in x
    ensures NonCloseRun(x + ")" + y) == |x|
  {
    if |x| > 0 {
      NonCloseRunExact(x[1..], y);
      assert (x + ")" + y)[1..] == x[1..] + ")" + y;
    }
  }

  /** The angle-mode pattern matches a whole call `f(arg)` at the front. */
  lemma TrigMatch(t: string, f: string, arg: string, rest: string, evaluable: string -> bool)
    requires f in TrigNames && |arg| > 0 && ')' !in arg
    requires t == f + "(" + arg + ")" + rest
    ensures MatchAt(Trig(evaluable), t).Some?
    ensures MatchAt(Trig(evaluable), t).value.len == |f| + 2 + |arg|
    ensures MatchAt(Trig(evaluable), t).value.replacement
         == if evaluable(arg) then InDegrees(f, arg) else Call(f, arg)
  {
    TrigNameFirst(t, f, arg, rest);
    var u := "(" + arg + ")" + rest;
    Regroup(f, "(", arg, ")", rest);
    DropFront(f, u);
    MatchTrig(evaluable, t);
    TrigAtCall(evaluable, t, f);
    CallMatch(evaluable, f, u, arg, rest);
  }

  /** `s` starts with a call `f(arg)` the angle-mode pattern is written for, followed by `rest`. */
  ghost predicate CallFront(s: string, f: string, arg: string, rest: string) {
    f in TrigNames && |arg| > 0 && ')' !in arg && s == Call(f, arg) + rest
  }

  ghost predicate StartsCall(s: string) {
    exists f, arg, rest {:trigger CallFront(s, f, arg, rest)} :: CallFront(s, f, arg, rest)
  }

  /** The angle-mode pattern matches at the front of `s` exactly when a call starts there. */
  lemma TrigMatchesOnlyCalls(s: string, evaluable: string -> bool)
    ensures MatchAt(Trig(evaluable), s).Some? <==> StartsCall(s)
  {
    if MatchAt(Trig(evaluable), s).Some? {
      MatchedIsCall(s, evaluable);
    }
    if StartsCall(s) {
      var f, arg, rest :| CallFront(s, f, arg, rest);
      TrigMatch(s, f, arg, rest, evaluable);
    }
  }

  lemma MatchedIsCall(s: string, evaluable: string -> bool)
    requires MatchAt(Trig(evaluable), s).Some?
    ensures StartsCall(s)
  {
    MatchTrig(evaluable, s);
    var f := FirstPrefix(TrigNames, s).value;
    TrigAtCall(evaluable, s, f);
    var u := s[|f|..];
    var a := NonCloseRun(u[1..]);
    assert |u| > 0 && u[0] == '(' && 0 < a && 1 + a < |u|;
    NonCloseRunFree(u[1..]);
    CallWitness(s, f, a);
  }

  /** The text a call match covers, taken apart into the call's name, argument and what follows. */
  lemma CallWitness(s: string, f: string, a: nat)
    requires f in TrigNames && IsPrefix(f, s) && |f| + 2 + a <= |s| && 0 < a
    requires s[|f|] == '(' && s[|f| + 1 + a] == ')' && ')' !in s[|f|..][1..][..a]
    ensures StartsCall(s)
  {
    var n := |f| + 2 + a;
    var arg, rest := s[|f|..][1..1 + a], s[n..];
    CallText(s, f, a);
    assert arg == s[|f|..][1..][..a];
    assert s == s[..n] + rest;
    assert CallFront(s, f, arg, rest);
  }

  /**
   * In any mode but RAD, a character where no call starts is copied and the
   * scan goes on after it.
   */
  lemma TrigSkip(s: string, mode: string, evaluable: string -> bool)
    requires mode != "RAD" && |s| > 0 && !StartsCall(s)
    ensures ConvertTrig(s, mode, evaluable) == [s[0]] + ConvertTrig(s[1..], mode, evaluable)
  {
    TrigMatchesOnlyCalls(s, evaluable);
    SubMiss(s, Trig(evaluable));
  }

  /** No call starts at a character that begins no trigonometric name. */
  lemma NoCallHere(s: string)
    requires |s| > 0 && s[0] != 's' && s[0] != 'c' && s[0] != 't' && s[0] != 'a'
    ensures !StartsCall(s)
  {
  }

  /** Text where no character begins a trigonometric name is copied, and the scan goes on after it. */
  lemma {:induction false} TrigSkipText(p: string, t: string, mode: string, evaluable: string -> bool)
    requires mode != "RAD"
    requires forall i | 0 <= i < |p| :: p[i] != 's' && p[i] != 'c' && p[i] != 't' && p[i] != 'a'
    ensures ConvertTrig(p + t, mode, evaluable) == p + ConvertTrig(t, mode, evaluable)
  {
    if |p| > 0 {
      TailConcat(p, t);
      NoCallHere(p + t);
      TrigSkip(p + t, mode, evaluable);
      TrigSkipText(p[1..], t, mode, evaluable);
      Uncons(p, ConvertTrig(t, mode, evaluable));
    } else {
      assert p + t == t;
    }
  }

  /** In DEG mode `1+sin(30)` becomes `1+sin((30)*pi/180)`: the call is converted and the text before it is kept. */
  lemma DegreesExample(evaluable: string -> bool)
    requires evaluable("30")
    ensures ConvertTrig("1+" + Call("sin", "30"), "DEG", evaluable) == "1+" + InDegrees("sin", "30")
  {
    TrigSkipText("1+", Call("sin", "30"), "DEG", evaluable);
    TrigCallConverted("sin", "30", "", "DEG", evaluable);
    assert Call("sin", "30") + "" == Call("sin", "30");
    assert InDegrees("sin", "30") + "" == InDegrees("sin", "30");
  }

  /** A trigonometric name at the front of a call is the alternative the alternation commits to. */
  lemma TrigNameFirst(t: string, f: string, arg: string, rest: string)
    requires f in TrigNames && t == f + "(" + arg + ")" + rest
    ensures FirstPrefix(TrigNames, t) == Some(f)
  {
    assert IsPrefix(f, t);
    var g := FirstPrefix(TrigNames, t).value;
    TrigNamesExclusive(f, g, t);
  }

  /** After the name, the pattern takes `(arg)` up to the first `)`. */
  lemma CallMatch(evaluable: string -> bool, f: string, u: string, arg: string, rest: string)
    requires |arg| > 0 && ')' !in arg && u == "(" + arg + ")" + rest
    ensures CallAt(evaluable, f, u).Some?
    ensures CallAt(evaluable, f, u).value.len == |f| + 2 + |arg|
    ensures CallAt(evaluable, f, u).value.replacement
         == if evaluable(arg) then InDegrees(f, arg) else Call(f, arg)
  {
    var v := u[1..];
    assert v == arg + ")" + rest;
    ArgUpToClose(v, arg, rest);
    assert u[1..1 + |arg|] == v[..|arg|];
  }

  /** `[^)]*` stops at the `)` that closes a `)`-free argument. */
  lemma ArgUpToClose(v: string, arg: string, rest: string)
    requires ')' !in arg && v == arg + ")" + rest
    ensures NonCloseRun(v) == |arg| && v[..|arg|] == arg
  {
    NonCloseRunExact(arg, rest);
  }

  /**
   * Outside RAD mode a trigonometric call at the front is rewritten to take
   * its argument in degrees when the argument evaluates, and kept otherwise;
   * the scan then goes on after the call's `)`.
   */
  lemma TrigCallConverted(f: string, arg: string, rest: string, mode: string, evaluable: string -> bool)
    requires mode != "RAD" && f in TrigNames && |arg| > 0 && ')' !in arg
    ensures ConvertTrig(Call(f, arg) + rest, mode, evaluable)
         == (if evaluable(arg) then InDegrees(f, arg) else Call(f, arg)) + ConvertTrig(rest, mode, evaluable)
  {
    var t := Call(f, arg) + rest;
    TrigMatch(t, f, arg, rest, evaluable);
    var n := |f| + 2 + |arg|;
    SubHitAt(t, Trig(evaluable), n, if evaluable(arg) then InDegrees(f, arg) else Call(f, arg));
    DropFront(Call(f, arg), rest);
  }

  /**
   * A call nested in another one's argument is not reached: the outer match
   * takes the argument up to the first `)`, which the `eval` of line 70
   * cannot evaluate, so both calls are kept as they are.
   */
  lemma NestedCallKept(f: string, g: string, d: string, evaluable: string -> bool)
    requires f in TrigNames && g in TrigNames && |d| > 0 && ')' !in d
    requires !evaluable(g + "(" + d)
    ensures ConvertTrig(Call(f, Call(g, d)), "DEG", evaluable) == Call(f, Call(g, d))
  {
    var arg := g + "(" + d;
    assert ')' !in g;
    assert ')' !in arg;
    NestedText(f, g, d);
    TrigCallConverted(f, arg, ")", "DEG", evaluable);
    TrigFree(")", "DEG", evaluable);
  }

  /** `f(g(d))` is the call `f(g(d)` followed by `)`. */
  lemma NestedText(f: string, g: string, d: string)
    ensures Call(f, Call(g, d)) == Call(f, g + "(" + d) + ")"
  {
  }

  /** Text holding no trigonometric name is left alone in either mode. */
  lemma TrigFree(s: string, mode: string, evaluable: string -> bool)
    requires forall k | 0 <= k < |s| :: !HasPrefixIn(TrigNames, s[k..])
    ensures ConvertTrig(s, mode, evaluable) == s
  {
    SubEcho(s, Trig(evaluable));
  }
}
