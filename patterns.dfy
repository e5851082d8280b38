/**
 * The regular expressions and literal replacements of `preprocess` and
 * `_convert_trig_mode` (calculator.py:32-75), and `re.sub` / `str.replace`
 * themselves: a leftmost, non-overlapping, left-to-right scan that tries an
 * anchored match at each position, emits the replacement and resumes after
 * the match, or copies one character and moves on. None of the patterns
 * looks behind, so the anchored match at a position sees only the suffix
 * that starts there.
 */
module Patterns {
  import opened Wrappers
  import opened Text

  /** An anchored match: how many characters it consumes and what replaces them. */
  datatype Hit = Hit(len: nat, replacement: string)

  /** The four implicit-multiplication substitutions (calculator.py:44-47). */
  datatype Rule =
    | DigitName   // (\d)(pi|e|...|cbrt)  ->  \1*\2
    | DigitParen  // (\d)\(               ->  \1*(
    | ParenName   // \)(pi|e|...|cbrt)    ->  )*\1
    | ParenDigit  // \)(\d)               ->  )*\1

  datatype Pattern =
    | Literal(find: string, put: string)   // str.replace(find, put), `find` non-empty
    | Root(glyph: char, name: string)      // <glyph>(\d*\.?\d+)  ->  <name>(\1)
    | Implicit(rule: Rule)
    | Bang                                 // (\d+)!+  ->  fact(\1)
    | Trig(evaluable: string -> bool)      // (sin|...|atan)\(([^)]+)\) through `convert`

  /** The name alternation of the implicit-multiplication patterns, in source order. */
  const Names: seq<string> :=
    ["pi", "e", "sin", "cos", "tan", "asin", "acos", "atan", "sqrt", "log", "ln", "exp", "cbrt"]

  /** The function alternation of the angle-mode pattern, in source order. */
  const TrigNames: seq<string> := ["sin", "cos", "tan", "asin", "acos", "atan"]

  /** A string of the regular language `\d*\.?\d+`. */
  ghost predicate IsNumeral(w: string) {
    || (|w| > 0 && AllDigits(w))
    || exists i :: DotAt(w, i)
  }

  /** `w` is digits, a dot at `i`, and at least one digit. */
  ghost predicate DotAt(w: string, i: int) {
    0 <= i < |w| - 1 && w[i] == '.' && AllDigits(w[..i]) && AllDigits(w[i + 1..])
  }

  /**
   * What `\d*\.?\d+` matches at the start of `t`. Greedy matching with
   * backtracking finds, for this pattern, the longest matching prefix.
   */
  function NumeralLen(t: string): (r: Option<nat>)
    ensures r.Some? ==> 0 < r.value <= |t| && IsNumeral(t[..r.value])
    ensures r.Some? ==> forall j | r.value < j <= |t| :: !IsNumeral(t[..j])
    ensures r.None? ==> forall j | 0 <= j <= |t| :: !IsNumeral(t[..j])
  {
    var k := DigitRun(t);
    RunDigits(t);
    if k + 1 < |t| && t[k] == '.' && IsDigit(t[k + 1]) then
      var m := DigitRun(t[k + 1..]);
      RunDigits(t[k + 1..]);
      NumeralWithDot(t, k, m);
      Some(k + 1 + m)
    else
      NumeralWithoutDot(t, k);
      if k > 0 then Some(k) else None
  }

  lemma NumeralWithDot(t: string, k: nat, m: nat)
    requires k + 1 + m <= |t| && 0 < m && t[k] == '.'
    requires AllDigits(t[..k]) && AllDigits(t[k + 1..][..m])
    requires k + 1 + m < |t| ==> !IsDigit(t[k + 1 + m])
    ensures 0 < k + 1 + m <= |t| && IsNumeral(t[..k + 1 + m])
    ensures forall j | k + 1 + m < j <= |t| :: !IsNumeral(t[..j])
  {
    DottedNumeral(t, k, m);
    var n := k + 1 + m;
    forall j | n < j <= |t|
      ensures !IsNumeral(t[..j])
    {
      NotNumeral(t, k, j, n);
    }
  }

  lemma DottedNumeral(t: string, k: nat, m: nat)
    requires k + 1 + m <= |t| && m > 0 && t[k] == '.'
    requires AllDigits(t[..k]) && AllDigits(t[k + 1..][..m])
    ensures DotAt(t[..k + 1 + m], k)
  {
    var n := k + 1 + m;
    var w := t[..n];
    assert AllDigits(w[..k]) by {
      assert w[..k] == t[..k];
    }
    assert AllDigits(w[k + 1..]) by {
      assert w[k + 1..] == t[k + 1..][..m];
    }
  }

  /** A prefix of `t` longer than `n` is no numeral when `t[n - 1]` is not a digit or ends the dotted form. */
  lemma NotNumeral(t: string, k: nat, j: nat, n: nat)
    requires k < n < j <= |t| && AllDigits(t[..k]) && !IsDigit(t[k])
    requires !IsDigit(t[n]) || n == k + 1
    requires n == k + 1 ==> !IsDigit(t[k + 1]) || t[k] != '.'
    requires n > k + 1 ==> t[k] == '.' && !IsDigit(t[n])
    ensures !IsNumeral(t[..j])
  {
    var w := t[..j];
    AllDigitsAt(w, k);
    forall i
      ensures !DotAt(w, i)
    {
      DotPosition(t, k, j, i);
    }
  }

  lemma AllDigitsAt(s: string, x: int)
    ensures AllDigits(s) && 0 <= x < |s| ==> IsDigit(s[x])
  {
  }

  /** Where a dot can sit in a prefix `t[..j]`: right after the leading digit run, followed by digits. */
  lemma DotPosition(t: string, k: nat, j: nat, i: int)
    requires k <= |t| && AllDigits(t[..k]) && (k < |t| ==> !IsDigit(t[k]))
    requires j <= |t|
    ensures DotAt(t[..j], i) ==> i == k && k + 1 < j && forall x | k < x < j :: IsDigit(t[x])
  {
    var w := t[..j];
    if DotAt(w, i) {
      AllDigitsAt(w[..i], k);
      AllDigitsAt(t[..k], i);
      forall x | k < x < j
        ensures IsDigit(t[x])
      {
        AllDigitsAt(w[i + 1..], x - i - 1);
      }
    }
  }

  lemma NumeralWithoutDot(t: string, k: nat)
    requires k <= |t| && AllDigits(t[..k]) && (k < |t| ==> !IsDigit(t[k]))
    requires !(k + 1 < |t| && t[k] == '.' && IsDigit(t[k + 1]))
    ensures k > 0 ==> IsNumeral(t[..k])
    ensures forall j | k < j <= |t| :: !IsNumeral(t[..j])
    ensures k == 0 ==> forall j | 0 <= j <= |t| :: !IsNumeral(t[..j])
  {
    forall j | k < j <= |t|
      ensures !IsNumeral(t[..j])
    {
      if k + 1 < j {
        NotNumeral(t, k, j, k + 1);
      } else {
        var w := t[..j];
        AllDigitsAt(w, k);
        forall i
          ensures !DotAt(w, i)
        {
          DotPosition(t, k, j, i);
        }
      }
    }
  }

  /** The anchored match of pattern `p` at the start of `t`. */
  function MatchAt(p: Pattern, t: string): (m: Option<Hit>)
    ensures m.Some? ==> 0 < m.value.len <= |t|
  {
    match p
    case Literal(find, put) => LiteralAt(find, put, t)
    case Root(glyph, name) => RootAt(glyph, name, t)
    case Implicit(rule) => MatchRule(rule, t)
    case Bang => BangAt(t)
    case Trig(evaluable) => TrigAt(evaluable, t)
  }

  function LiteralAt(find: string, put: string, t: string): (m: Option<Hit>)
    ensures m.Some? ==> 0 < m.value.len <= |t|
  {
    if |find| > 0 && IsPrefix(find, t) then Some(Hit(|find|, put)) else None
  }

  function RootAt(glyph: char, name: string, t: string): (m: Option<Hit>)
    ensures m.Some? ==> 0 < m.value.len <= |t|
  {
    if |t| > 0 && t[0] == glyph then
      match NumeralLen(t[1..])
      case Some(n) => Some(Hit(1 + n, Call(name, t[1..1 + n])))
      case None => None
    else None
  }

  function BangAt(t: string): (m: Option<Hit>)
    ensures m.Some? ==> 0 < m.value.len <= |t|
  {
    var k := DigitRun(t);
    if 0 < k < |t| && t[k] == '!' then
      Some(Hit(k + BangRun(t[k..]), Call("fact", t[..k])))
    else None
  }

  function TrigAt(evaluable: string -> bool, t: string): (m: Option<Hit>)
    ensures m.Some? ==> 0 < m.value.len <= |t|
  {
    match FirstPrefix(TrigNames, t)
    case None => None
    case Some(f) => CallAt(evaluable, f, t[|f|..])
  }

  /**
   * The rest of the angle-mode pattern after the function name `f`:
   * `\(([^)]+)\)`. `convert` writes the call in degrees when `eval` accepts
   * the argument and gives back the matched text `f(arg)` otherwise.
   */
  function CallAt(evaluable: string -> bool, f: string, u: string): (m: Option<Hit>)
    ensures m.Some? ==> |f| + 2 < m.value.len <= |f| + |u|
  {
    if |u| > 0 && u[0] == '(' then
      var a := NonCloseRun(u[1..]);
      if 0 < a && 1 + a < |u| then
        var arg := u[1..1 + a];
        Some(Hit(|f| + 2 + a, if evaluable(arg) then InDegrees(f, arg) else Call(f, arg)))
      else None
    else None
  }

  /** A root pattern's match is `RootAt`. */
  lemma MatchRoot(glyph: char, name: string, t: string)
    ensures MatchAt(Root(glyph, name), t) == RootAt(glyph, name, t)
  {
  }

  /** The factorial pattern's match is `BangAt`. */
  lemma MatchBang(t: string)
    ensures MatchAt(Bang, t) == BangAt(t)
  {
  }

  /** An implicit-multiplication pattern's match is its rule's match. */
  lemma MatchImplicit(rule: Rule, t: string)
    ensures MatchAt(Implicit(rule), t) == MatchRule(rule, t)
  {
  }

  /** The angle-mode pattern's match is `TrigAt`. */
  lemma MatchTrig(evaluable: string -> bool, t: string)
    ensures MatchAt(Trig(evaluable), t) == TrigAt(evaluable, t)
  {
    var p := Trig(evaluable);
    assert p.Trig? && p.evaluable == evaluable;
  }

  /** Once the name is fixed, the angle-mode match is the match of the call after it. */
  lemma TrigAtCall(evaluable: string -> bool, t: string, f: string)
    requires FirstPrefix(TrigNames, t) == Some(f)
    ensures TrigAt(evaluable, t) == CallAt(evaluable, f, t[|f|..])
  {
  }

  /** The text of a call `f(arg)`. */
  function Call(f: string, arg: string): string {
    f + "(" + arg + ")"
  }

  /** A call `f(arg)` rewritten to take its argument in degrees. */
  function InDegrees(f: string, arg: string): string {
    f + "((" + arg + ")*pi/180)"
  }

  /** The text `a*b` an implicit-multiplication rule writes. */
  function Starred(a: char, b: string): string {
    [a] + "*" + b
  }

  lemma StarredConcat(a: char, x: string, y: string)
    ensures Starred(a, x + y) == Starred(a, x) + y
  {
  }

  function MatchRule(rule: Rule, t: string): (m: Option<Hit>)
    ensures m.Some? ==> 0 < m.value.len <= |t|
  {
    match rule
    case DigitName =>
      if |t| > 0 && IsDigit(t[0]) then
        match FirstPrefix(Names, t[1..])
        case Some(w) => Some(Hit(1 + |w|, Starred(t[0], w)))
        case None => None
      else None
    case DigitParen =>
      if |t| > 1 && IsDigit(t[0]) && t[1] == '(' then Some(Hit(2, Starred(t[0], "("))) else None
    case ParenName =>
      if |t| > 0 && t[0] == ')' then
        match FirstPrefix(Names, t[1..])
        case Some(w) => Some(Hit(1 + |w|, Starred(')', w)))
        case None => None
      else None
    case ParenDigit =>
      if |t| > 1 && t[0] == ')' && IsDigit(t[1]) then Some(Hit(2, Starred(')', [t[1]]))) else None
  }

  /**
   * `re.sub(p, ..., s)`: replace every leftmost non-overlapping match, left to
   * right; a pattern that matches nowhere leaves the text as it is.
   */
  function Sub(s: string, p: Pattern): (r: string)
    ensures MatchesNowhere(s, p) ==> r == s
    decreases |s|
  {
    if |s| == 0 then []
    else
      NowhereTail(s, p);
      match MatchAt(p, s)
      case Some(h) => h.replacement + Sub(s[h.len..], p)
      case None => [s[0]] + Sub(s[1..], p)
  }

  /** No anchored match of `p` at any position of `s`. */
  ghost predicate MatchesNowhere(s: string, p: Pattern) {
    forall k | 0 <= k < |s| :: MatchAt(p, s[k..]).None?
  }

  lemma NowhereTail(s: string, p: Pattern)
    requires |s| > 0
    ensures MatchesNowhere(s, p) ==> MatchAt(p, s).None? && MatchesNowhere(s[1..], p)
  {
    if MatchesNowhere(s, p) {
      assert s[0..] == s;
      forall k | 0 <= k < |s| - 1
        ensures MatchAt(p, s[1..][k..]).None?
      {
        assert s[1..][k..] == s[k + 1..];
      }
    }
  }

  /**
   * `s.replace(find, put)`; an empty `find` puts `put` around every character.
   * Replacing one character writes `put` for each occurrence of it and keeps
   * every other character, in order.
   */
  function ReplaceAll(s: string, find: string, put: string): (r: string)
    ensures |find| == 1 ==> r == CharReplaced(s, find[0], put)
  {
    if |find| == 0 then Interleave(s, put)
    else if |find| == 1 then
      ReplaceChar(s, find[0], put);
      assert find == [find[0]];
      Sub(s, Literal(find, put))
    else Sub(s, Literal(find, put))
  }

  /** Reference: every `c` of `s` written as `put`, every other character kept, in order. */
  function CharReplaced(s: string, c: char, put: string): string {
    if |s| == 0 then []
    else (if s[0] == c then put else [s[0]]) + CharReplaced(s[1..], c, put)
  }

  /** The scan for a one-character literal is the character-by-character reference. */
  lemma {:induction false} ReplaceChar(s: string, c: char, put: string)
    ensures Sub(s, Literal([c], put)) == CharReplaced(s, c, put)
  {
    if |s| > 0 {
      ReplaceChar(s[1..], c, put);
      var p := Literal([c], put);
      if s[0] == c {
        assert IsPrefix([c], s);
        SubHitAt(s, p, 1, put);
      } else {
        assert !IsPrefix([c], s);
        SubMiss(s, p);
      }
    }
  }

  lemma CharReplacedOne(x: char, c: char, put: string)
    ensures CharReplaced([x], c, put) == if x == c then put else [x]
  {
    assert |[x][1..]| == 0;
  }

  lemma {:induction false} CharReplacedConcat(x: string, y: string, c: char, put: string)
    ensures CharReplaced(x + y, c, put) == CharReplaced(x, c, put) + CharReplaced(y, c, put)
  {
    if |x| > 0 {
      CharReplacedConcat(x[1..], y, c, put);
      TailConcat(x, y);
    } else {
      assert x + y == y;
    }
  }

  lemma {:induction false} CharReplacedAbsent(s: string, c: char, put: string)
    requires c !in s
    ensures CharReplaced(s, c, put) == s
  {
    if |s| > 0 {
      CharReplacedAbsent(s[1..], c, put);
      Uncons(s, []);
      assert s + [] == s;
    }
  }

  function Interleave(s: string, put: string): string {
    if |s| == 0 then put else put + [s[0]] + Interleave(s[1..], put)
  }

  /** The characters a pattern writes that do not come from the text it matched. */
  function Introduces(p: Pattern): set<char> {
    match p
    case Literal(_, put) => set c | c in put
    case Root(_, name) => (set c | c in name) + {'(', ')'}
    case Implicit(_) => {'*'}
    case Bang => {'f', 'a', 'c', 't', '(', ')'}
    case Trig(_) => {'s', 'i', 'n', 'c', 'o', 't', 'a', '(', ')', '*', 'p', '/', '1', '8', '0'}
  }

  /** Every character of a replacement comes from the text or from the pattern's own literal. */
  lemma MatchChars(p: Pattern, t: string)
    requires MatchAt(p, t).Some?
    ensures forall c | c in MatchAt(p, t).value.replacement :: c in t || c in Introduces(p)
  {
    match p
    case Literal(_, _) =>
    case Root(glyph, name) =>
      RootChars(glyph, name, t);
    case Implicit(rule) =>
      RuleChars(rule, t);
    case Bang =>
      BangChars(t);
    case Trig(evaluable) =>
      TrigChars(evaluable, t);
  }

  lemma RootChars(glyph: char, name: string, t: string)
    requires RootAt(glyph, name, t).Some?
    ensures forall c | c in RootAt(glyph, name, t).value.replacement :: c in t || c in name || c == '(' || c == ')'
  {
    var n := NumeralLen(t[1..]).value;
    SliceChars(t, 1, 1 + n);
  }

  lemma RuleChars(rule: Rule, t: string)
    requires MatchRule(rule, t).Some?
    ensures forall c | c in MatchRule(rule, t).value.replacement :: c in t || c == '*'
  {
    if rule.DigitName? || rule.ParenName? {
      NameRuleChars(rule, t);
    } else {
      PairRuleChars(rule, t);
    }
  }

  /** A name rule writes the leading character, a `*` and the name it matched. */
  lemma NameRuleChars(rule: Rule, t: string)
    requires (rule.DigitName? || rule.ParenName?) && MatchRule(rule, t).Some?
    ensures forall c | c in MatchRule(rule, t).value.replacement :: c in t || c == '*'
  {
    var w := FirstPrefix(Names, t[1..]).value;
    assert MatchRule(rule, t).value.replacement == Starred(t[0], w);
    NameChars(t, w);
  }

  /** A rule on two characters writes them with a `*` between. */
  lemma PairRuleChars(rule: Rule, t: string)
    requires (rule.DigitParen? || rule.ParenDigit?) && MatchRule(rule, t).Some?
    ensures forall c | c in MatchRule(rule, t).value.replacement :: c in t || c == '*'
  {
    assert MatchRule(rule, t).value.replacement == Starred(t[0], [t[1]]);
  }

  /** A name rule writes the character it matched, a `*`, then the name it matched. */
  lemma NameChars(t: string, w: string)
    requires |t| > 0 && IsPrefix(w, t[1..])
    ensures forall c | c in Starred(t[0], w) :: c in t || c == '*'
  {
    assert w == t[1..1 + |w|];
    SliceChars(t, 1, 1 + |w|);
  }

  lemma BangChars(t: string)
    requires BangAt(t).Some?
    ensures forall c | c in BangAt(t).value.replacement :: c in t || c in "fact()"
  {
    SliceChars(t, 0, DigitRun(t));
  }

  /** A converted or kept call writes the name, the argument and the literal parts. */
  lemma TrigChars(evaluable: string -> bool, t: string)
    requires TrigAt(evaluable, t).Some?
    ensures forall c | c in TrigAt(evaluable, t).value.replacement :: c in t || c in Introduces(Trig(evaluable))
  {
    var f := FirstPrefix(TrigNames, t).value;
    var u := t[|f|..];
    CallChars(evaluable, f, u);
    assert forall c | c in u :: c in t;
    assert forall c | c in f :: c in Introduces(Trig(evaluable));
  }

  lemma CallChars(evaluable: string -> bool, f: string, u: string)
    requires CallAt(evaluable, f, u).Some?
    ensures forall c | c in CallAt(evaluable, f, u).value.replacement :: c in u || c in f || c in "(()*pi/180)"
  {
    var a := NonCloseRun(u[1..]);
    SliceChars(u, 1, 1 + a);
  }

  lemma SliceChars(t: string, i: nat, j: nat)
    requires i <= j <= |t|
    ensures forall c | c in t[i..j] :: c in t
  {
    forall c | c in t[i..j]
      ensures c in t
    {
      var x :| 0 <= x < j - i && t[i..j][x] == c;
      assert t[i + x] == c;
    }
  }

  /** A scan writes only characters of its input and of the pattern's literal. */
  lemma {:induction false} SubChars(s: string, p: Pattern)
    ensures forall c | c in Sub(s, p) :: c in s || c in Introduces(p)
  {
    if |s| > 0 {
      match MatchAt(p, s)
      case Some(h) =>
        SubChars(s[h.len..], p);
        MatchChars(p, s);
        assert forall c | c in s[h.len..] :: c in s;
      case None =>
        SubChars(s[1..], p);
        assert forall c | c in s[1..] :: c in s;
    }
  }

  /** The match at `t` is absent or replaces the matched text by itself. */
  predicate Echoes(p: Pattern, t: string) {
    match MatchAt(p, t)
    case None => true
    case Some(h) => h.replacement == t[..h.len]
  }

  /** A scan whose every match writes back what it matched leaves the text unchanged. */
  lemma {:induction false} SubEcho(s: string, p: Pattern)
    requires forall k | 0 <= k < |s| :: Echoes(p, s[k..])
    ensures Sub(s, p) == s
    decreases |s|
  {
    if |s| > 0 {
      DropNone(s);
      var n: nat;
      if MatchAt(p, s).Some? {
        n := MatchAt(p, s).value.len;
        SubHit(s, p);
      } else {
        n := 1;
        SubMiss(s, p);
      }
      forall k | 0 <= k < |s[n..]|
        ensures Echoes(p, s[n..][k..])
      {
        DropDrop(s, n, k);
      }
      SubEcho(s[n..], p);
      Rejoin(s, n);
    }
  }

  /** One step of the scan where a match starts. */
  lemma SubHit(s: string, p: Pattern)
    requires |s| > 0 && MatchAt(p, s).Some?
    ensures Sub(s, p) == MatchAt(p, s).value.replacement + Sub(s[MatchAt(p, s).value.len..], p)
  {
  }

  /** One step of the scan at a match of known length and replacement. */
  lemma SubHitAt(s: string, p: Pattern, n: nat, r: string)
    requires |s| > 0 && MatchAt(p, s).Some?
    requires MatchAt(p, s).value.len == n && MatchAt(p, s).value.replacement == r
    ensures n <= |s| && Sub(s, p) == r + Sub(s[n..], p)
  {
    SubHit(s, p);
  }

  /** One step of the scan where no match starts. */
  lemma SubMiss(s: string, p: Pattern)
    requires |s| > 0 && MatchAt(p, s).None?
    ensures Sub(s, p) == [s[0]] + Sub(s[1..], p)
  {
  }

  /** Replacing a character by text without it leaves no occurrence of it. */
  lemma {:induction false} ReplaceRemoves(s: string, c: char, put: string)
    requires c !in put
    ensures c !in ReplaceAll(s, [c], put)
  {
    if |s| > 0 {
      ReplaceRemoves(s[1..], c, put);
      if MatchAt(Literal([c], put), s).Some? {
        assert s[1..] == s[|[c]|..];
      }
    }
  }

  /** `s.replace(w, w)` is the identity. */
  lemma ReplaceBySelf(s: string, w: string)
    ensures ReplaceAll(s, w, w) == s
  {
    if |w| == 0 {
      InterleaveEmpty(s);
    } else {
      forall k | 0 <= k < |s|
        ensures Echoes(Literal(w, w), s[k..])
      {
      }
      SubEcho(s, Literal(w, w));
    }
  }

  lemma {:induction false} InterleaveEmpty(s: string)
    ensures Interleave(s, []) == s
  {
    if |s| > 0 {
      InterleaveEmpty(s[1..]);
    }
  }

  /** `s.replace(w, v)` does nothing when some character of `w` is absent from `s`. */
  lemma ReplaceAbsent(s: string, w: string, v: string, c: char)
    requires c in w && c !in s
    ensures ReplaceAll(s, w, v) == s
  {
    forall k | 0 <= k < |s|
      ensures Echoes(Literal(w, v), s[k..])
    {
    }
    SubEcho(s, Literal(w, v));
  }
}
