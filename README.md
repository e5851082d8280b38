# sci-calc calculator engine, modelled in Dafny

This project models `CalculatorEngine` from `calculator/calculator.py` of sci-calc, a
scientific calculator. The engine turns what the user keys in (`2π`, `√9`, `5!`,
`sin(30)`) into a Python expression, refuses expressions that look dangerous, evaluates
them, and keeps the angle mode and a history of results. The model covers:

- **Text** (`text.dfy`): the pieces of Python's `str` and `re` that the engine relies on,
  stated over `seq<char>`. This covers `\d` runs, substring search (`w in s`), the
  commit-to-first-alternative rule of a regex alternation, ASCII `lower`/`upper`, the
  whitespace of `strip()`, and `split(sep)[-1]`.
- **Patterns** (`patterns.dfy`): `re.sub` and `str.replace` as a leftmost, non-overlapping,
  left-to-right scan. An anchored match is tried at each position. On a match the
  replacement is emitted and the scan resumes after the match; otherwise one character is
  copied. Each regular expression of the engine is one `Pattern`. `\d*\.?\d+` is proved to
  match the longest numeral prefix, and the general facts about scans are proved here.
- **Notation** (`notation.dfy`): `preprocess` and `_convert_trig_mode`, one function per
  rewrite stage, composed in source order. Independent reference definitions stand beside
  them:
  - `StarAfter` puts one `*` after each position where an implicit-multiplication rule fires;
  - `FactorialRef` rewrites run by run;
  - `CharReplaced` and `Spelled` write each character on its own, for the one-character
    `str.replace` calls.

  Lemmas prove that the scans equal the references, and prove the properties of the output.
- **Safety** (`safety.dfy`): `is_safe`, the substring denylist on the lower-cased expression.
- **Combinatorics** (`combinatorics.dfy`): `fact`, `nCr` and `nPr` on integers. They are
  proved against textbook definitions (factorial, Pascal's rule and the falling
  factorial), including the rule that the result is 0 when `r > n`, the
  `ValueError` messages of `math.factorial`, `math.comb` and `math.perm`, and the
  `OverflowError` they raise for arguments beyond CPython's C `long` and `long long`
  (2^63 − 1 on a 64-bit Linux build).
- **Session** (`session.dfy`): the class `Engine` holds the mutable `mode` and `history`.
  Its methods are `SetMode`, `Evaluate`, `GetHistory`, `ClearHistory` and `GetLastResult`.
  `Evaluate` keeps the source's order: the blank check, then `preprocess` in the current
  mode, then `is_safe`, then evaluation. Its contract says that history grows by exactly
  the entry `<input> = <result>` on success, and that every `Error: …` reply leaves
  history and mode as they were.

Two evaluations are outside the model and are passed to the model as parameters:

- `evaluable: string -> bool` stands for the `eval` of a trigonometric argument
  (line 70).
- `run: string -> Outcome` stands for evaluating the canonical expression and formatting
  its value (lines 117-149). Its result is the formatted value or the exception that was
  caught.

The model keeps the source's behaviour where that behaviour is surprising, and proves it:

- `is_safe` bans the substring `os`, so every expression that uses `cos` or `acos` is
  refused as unsafe (`Safety.CosineIsUnsafe`).
- The angle-mode regex takes an argument up to the first `)`. A trigonometric call nested
  inside another one's argument is therefore not converted: in `sin(cos(30))` neither call
  is rewritten when `cos(30` cannot be evaluated (`Notation.NestedCallKept`). The outer
  match has already taken the inner call's name and argument, so the scan resumes after
  them and never reaches the inner call.
- `get_last_result` returns the text after the final cut of `split(" = ")`. That text is
  the result written by `evaluate` whenever the input holds no ` = ` and does not end in
  ` =`, and the result holds no `=` (`Session.LastPieceOfEntry`).
- Line 49 is indented by seven spaces, so Python would reject the file. The model follows
  the evident intent: the factorial rewrite is a step of `preprocess`.
- Line 41 and lines 53-54 are identity steps, and are proved to be.

## Model

| member | source | states |
|---|---|---|
| Text.DigitRun | calculator/calculator.py:50 | the greedy `\d+` stops at a non-digit or at the end of the text |
| Text.RunDigits | calculator/calculator.py:50 | everything the greedy `\d+` covers is a digit |
| Text.BangRun | calculator/calculator.py:50 | the greedy `!+` stops at a character other than `!` or at the end of the text |
| Text.RunBangs | calculator/calculator.py:50 | everything the greedy `!+` covers is a `!` |
| Text.IsBlank | calculator/calculator.py:84 | `not expr.strip()` holds exactly when every character is whitespace (also for the empty string) |
| Text.Contains | calculator/calculator.py:80 | `w in s` holds exactly when `w` occurs at some index of `s` |
| Text.FirstPrefix | calculator/calculator.py:44-47 | an alternation commits to the earliest listed alternative that is a prefix of the text, and fails exactly when no alternative is a prefix |
| Text.AfterLastCut | calculator/calculator.py:162 | after the last cut of `split(sep)` the text holds no `sep` |
| Text.BeforeLastCut | calculator/calculator.py:162 | a last cut other than at the start comes right after an occurrence of `sep` |
| Text.NoCut | calculator/calculator.py:162 | a text without `sep` is not cut, so its last piece is all of it |
| Text.CutAfter | calculator/calculator.py:162 | positions before the first occurrence of `sep` do not move the last cut |
| Text.LastPiece | calculator/calculator.py:162 | `split(sep)[-1]` is a suffix that holds no `sep` and, unless it is the whole string, follows an occurrence of `sep` |
| Combinatorics.ChooseBeyond | calculator/calculator.py:19 | the binomial coefficient is 0 when more items are chosen than there are |
| Combinatorics.ChooseFactorials | calculator/calculator.py:20 | C(n, k) · k! · (n−k)! = n! for k ≤ n |
| Combinatorics.FallingFactorials | calculator/calculator.py:26 | P(n, k) · (n−k)! = n! for k ≤ n |
| Combinatorics.FallingIsChooseTimesFactorial | calculator/calculator.py:16-26 | P(n, k) = C(n, k) · k! |
| Combinatorics.ChooseSymmetric | calculator/calculator.py:20 | C(n, k) = C(n, n−k) |
| Combinatorics.Fact | calculator/calculator.py:12-14 | a negative argument fails with the `math.factorial` `ValueError`, an argument above the C `long` maximum with its `OverflowError`; otherwise 0! = 1 and n! = n · (n−1)!, so the value is n! |
| Combinatorics.NCr | calculator/calculator.py:16-20 | 0 when r > n; otherwise the `math.comb` `ValueError` for a negative n, then for a negative r; the `OverflowError` when both r and n−r exceed the C `long long` maximum; and n!/(r!(n−r)!) in every other case with 0 ≤ r ≤ n |
| Combinatorics.NPr | calculator/calculator.py:22-26 | 0 when r > n; otherwise the `math.perm` `ValueError` for a negative n, then for a negative r; the `OverflowError` when r exceeds the C `long long` maximum; and n!/(n−r)! in every other case with 0 ≤ r ≤ n |
| Combinatorics.PermutationsAreOrderedCombinations | calculator/calculator.py:16-26 | for r ≥ 0, nPr succeeds exactly when r > n or r is within the C `long long` range; whenever it succeeds nCr succeeds too, and nPr(n, r) = nCr(n, r) · r! |
| Patterns.NumeralLen | calculator/calculator.py:36-37 | what `\d*\.?\d+` matches is a numeral and no longer prefix is one; no match means that no prefix is a numeral |
| Patterns.Sub | calculator/calculator.py:36-50 | a `re.sub` whose pattern matches at no position of the text leaves the text as it is |
| Patterns.ReplaceAll | calculator/calculator.py:34-41 | `s.replace(c, put)` for one character `c` writes `put` for every `c` and keeps every other character, in order |
| Patterns.SubChars | calculator/calculator.py:34-50 | a `re.sub` or `replace` writes only characters of its input or of its own replacement text |
| Patterns.MatchChars | calculator/calculator.py:34-75 | each single match writes only characters of the text it is tried on or of the pattern's own replacement text |
| Patterns.SubEcho | calculator/calculator.py:72-75 | a substitution whose every match is written back unchanged leaves the text unchanged |
| Patterns.ReplaceRemoves | calculator/calculator.py:34 | replacing a character by text that lacks it leaves no occurrence of it |
| Patterns.ReplaceBySelf | calculator/calculator.py:53-54 | `s.replace(w, w)` is `s` |
| Patterns.ReplaceAbsent | calculator/calculator.py:41 | `s.replace(w, v)` is `s` when a character of `w` is missing from `s` |
| Notation.StripSpaces | calculator/calculator.py:34 | the spaces are dropped and every other character is kept, in order; so the output has no space and only characters of the input |
| Notation.ExpandRoots | calculator/calculator.py:36-37 | text without `√` and `∛` is unchanged, and the root rewrites bring in no space |
| Notation.RootExpanded | calculator/calculator.py:36-37 | a root glyph followed by its longest numeral `d` becomes `sqrt(d)` or `cbrt(d)`, and the scan goes on after `d` |
| Notation.RootKept | calculator/calculator.py:36-37 | a character that is not the root glyph followed by a numeral is copied, and the scan goes on after it |
| Notation.SubstituteGlyphs | calculator/calculator.py:40 | `^`, `π`, `√` and `∛` become `**`, `pi`, `sqrt` and `cbrt` and every other character is kept, in order; so no glyph is left and no space is brought in |
| Notation.GlyphPassesSpell | calculator/calculator.py:40 | the four chained one-character replacements equal spelling out each character on its own, because no pass meets the letters an earlier pass wrote |
| Notation.PowerOfTen | calculator/calculator.py:41 | the step changes nothing once no `^` is left |
| Notation.MatchRuleFires | calculator/calculator.py:44-47 | an implicit-multiplication pattern matches exactly where its rule fires, inserting one `*` after the first character and keeping the rest of the match |
| Notation.ProductsAreStarAfter | calculator/calculator.py:44-47 | each implicit-multiplication pass puts exactly one `*` after each position where its rule fires, and changes nothing else |
| Notation.InsertProducts | calculator/calculator.py:44-47 | the four passes are the four star insertions in source order, and none of the four rules fires anywhere in the result |
| Notation.StarSettles | calculator/calculator.py:44-47 | a pass leaves no position where its own rule fires, and keeps every rule that was already settled |
| Notation.ProductsSettled | calculator/calculator.py:44-47 | after the passes, no digit is followed by `(` or a listed name, and no `)` is followed by a digit or a listed name |
| Notation.ExpandFactorials | calculator/calculator.py:50 | the factorial rewrite equals the run-by-run reference, and leaves no `!` directly after a digit |
| Notation.FactorialsMatchRef | calculator/calculator.py:50 | `re.sub(r"(\d+)!+", …)` rewrites each maximal digit run followed by `!`s as `fact(<digits>)` and keeps everything else |
| Notation.BangHit | calculator/calculator.py:50 | the factorial pattern matches exactly where a digit run is followed by `!`; it then takes the whole run and every `!` after it, and writes `fact(<digits>)` |
| Notation.ScanDigitRun | calculator/calculator.py:50 | a digit run followed by neither a digit nor `!` is copied unchanged and the scan goes on after it |
| Notation.RefNoBangAfterDigit | calculator/calculator.py:50 | after the rewrite no digit is directly followed by `!` |
| Notation.KeepCombinations | calculator/calculator.py:53-54 | the two replacements are the identity |
| Notation.ConvertTrig | calculator/calculator.py:63-75 | in RAD mode the text is returned as it is, and it is also unchanged when no argument can be evaluated; every other mode, DEG among them, is stated call by call and character by character by `TrigCallConverted` and `TrigSkip` |
| Notation.TrigMatch | calculator/calculator.py:67-75 | the angle-mode pattern matches a whole call `f(arg)`, with `f` a trigonometric name and `arg` non-empty and free of `)`, and replaces it by `f((arg)*pi/180)` when `arg` evaluates and by `f(arg)` otherwise |
| Notation.TrigMatchesOnlyCalls | calculator/calculator.py:75 | the angle-mode pattern matches at a position exactly when a call `f(arg)` starts there, with `f` a trigonometric name and `arg` non-empty and free of `)` |
| Notation.TrigSkip | calculator/calculator.py:63-75 | outside RAD mode, a character where no call starts is copied and the conversion goes on after it |
| Notation.TrigSkipText | calculator/calculator.py:63-75 | outside RAD mode, text in which no character can begin a trigonometric name is copied in front of the converted rest |
| Notation.DegreesExample | calculator/calculator.py:63-75 | in DEG mode `1+sin(30)` becomes `1+sin((30)*pi/180)` when `30` evaluates |
| Notation.TrigNameFirst | calculator/calculator.py:75 | the name alternation commits to the trigonometric name that starts a call, as no listed name is a proper prefix of another |
| Notation.CallMatch | calculator/calculator.py:75 | after the name, `\(([^)]+)\)` takes the argument up to the first `)` |
| Notation.TrigEcho | calculator/calculator.py:72-73 | when no argument evaluates, the match at any position writes back exactly the text it matched |
| Notation.TrigCallConverted | calculator/calculator.py:63-75 | in every mode but RAD a call `f(arg)` becomes `f((arg)*pi/180)` when its argument evaluates, and is kept otherwise; the rest is converted on its own |
| Notation.NestedCallKept | calculator/calculator.py:67-75 | a call nested in another call's argument is not converted, and neither is the outer call when the truncated argument cannot be evaluated |
| Notation.TrigFree | calculator/calculator.py:75 | text with no trigonometric name is unchanged in either mode |
| Notation.TrigEchoes | calculator/calculator.py:72-73 | when no argument evaluates, each match is written back unchanged |
| Notation.Preprocess | calculator/calculator.py:32-56 | the canonical expression holds no space, `^`, `π`, `√` or `∛` |
| Safety.AnyOccurs | calculator/calculator.py:80 | `any(b in t for b in words)` holds exactly when some word occurs in `t` |
| Safety.IsSafe | calculator/calculator.py:77-80 | an expression is safe exactly when no banned word occurs in its lower-cased form |
| Safety.CosineIsUnsafe | calculator/calculator.py:79-80 | every expression that contains `cos` (so also `acos`) is refused, because it contains the banned `os` |
| Safety.CaseDoesNotMatter | calculator/calculator.py:80 | with the ASCII case mapping of `lower()` and `upper()`, upper- or lower-casing an expression never changes the verdict |
| Session.Raised | calculator/calculator.py:142-145 | an exception from `fact`, `nCr` or `nPr` is reported as `Error: <message>` for a `ValueError` and as `Error: Number too large` for an `OverflowError` |
| Session.ErrorText | calculator/calculator.py:140-149 | every caught exception is reported as `Error: …`, carrying the `ValueError` message or the exception's class name |
| Session.Engine.constructor | calculator/calculator.py:7-10 | a new engine is in DEG mode with an empty history |
| Session.Engine.SetMode | calculator/calculator.py:58-61 | the mode becomes `upper(m)` exactly when that is DEG or RAD, is otherwise unchanged, stays DEG or RAD, and history is untouched |
| Session.Engine.Evaluate | calculator/calculator.py:82-149 | blank input, unsafe input and every exception return their `Error:` text and leave history unchanged; a value is returned and `<input> = <value>` is appended; the mode never changes |
| Session.Engine.GetHistory | calculator/calculator.py:151-153 | the history is returned as it is |
| Session.Engine.ClearHistory | calculator/calculator.py:155-157 | the history becomes empty, the mode is kept, and the engine stays valid |
| Session.Engine.GetLastResult | calculator/calculator.py:159-163 | no result on an empty history; otherwise the last piece of the final entry split at ` = ` |
| Session.LastPieceOfEntry | calculator/calculator.py:162 | the last piece of an entry `<input> = <result>` is the result when the input holds no ` = `, does not end in ` =`, and the result holds no `=` |

## Left out

- calculator/app.py, calculator/buttons.py and main.py are not part of this model. They hold the GUI, the button layout and the entry point, which only insert symbols into a text widget.
- The `eval` of the canonical expression (line 118), the `math` namespace (lines 94-115) and the formatting of results (lines 120-134) are not modelled. They are foreign calls and floating-point arithmetic; `Evaluate` takes their outcome as the parameter `run`.
- The `eval` inside the angle conversion (line 70) is the parameter `evaluable`, because its outcome depends on Python's evaluator.
- `cbrt` (lines 28-30) is not modelled. It is a floating-point power.
- Combinatorics.Fact: does not model `int(n)`; the argument is already an integer, because truncating a float and rejecting a non-number belong to the evaluator that is left out.
- Combinatorics.Fact, Combinatorics.NCr and Combinatorics.NPr: the overflow limits are those of a 64-bit Linux build, where C `long` and `long long` both hold 2^63 − 1; a build with a 32-bit C `long` makes `math.factorial` overflow sooner. Running out of memory or time on a huge result within those limits is not modelled.
- Combinatorics.NCr: does not model `int(n)` and `int(r)`, for the same reason.
- Combinatorics.NPr: does not model `int(n)` and `int(r)`, for the same reason.
- Text.DigitRun: `\d` is restricted to the ASCII digits, whereas Python's `\d` also matches other Unicode decimal digits. The calculator's keys produce ASCII digits.
- Safety.IsSafe: `lower()` is modelled on ASCII letters only, whereas Python also lower-cases other Unicode letters. Every banned word is ASCII.
- Safety.CaseDoesNotMatter: holds for the ASCII case mapping only. Python's `upper()` also maps some non-ASCII letters to ASCII ones that `lower()` leaves alone, so `ſys` is accepted while its upper-cased `SYS` is refused. The lower-casing half holds in Python as well, because `lower()` is idempotent.
- Session.Engine.SetMode: `upper()` is modelled on ASCII letters only; every other character is kept as it is.
- The debugging `print` on line 89 and the unused `current_input` field (line 8) are left out. Neither affects any result.
- `Session.Engine.Valid` requires the mode to be DEG or RAD. The source does not check this, but only `__init__` and `set_mode` ever assign the mode, and both keep it true.
