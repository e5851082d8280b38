/**
 * The string operations of Python's `str` and `re` that the calculator engine
 * relies on, stated over `seq<char>`: digit classes, prefix and substring
 * search, case mapping, `strip()`'s notion of whitespace and `split(sep)[-1]`.
 */
module Text {
  import opened Wrappers

  /** The `\d` class, restricted to ASCII digits. */
  predicate IsDigit(c: char) {
    '0' <= c <= '9'
  }

  predicate IsLowerLetter(c: char) {
    'a' <= c <= 'z'
  }

  predicate AllDigits(s: string) {
    forall i | 0 <= i < |s| :: IsDigit(s[i])
  }

  /** `w` is a prefix of `t`. */
  predicate IsPrefix(w: string, t: string) {
    |w| <= |t| && t[..|w|] == w
  }

  /** `w` occurs in `s` starting at index `i`. */
  predicate OccursAt(s: string, w: string, i: int) {
    0 <= i && i + |w| <= |s| && s[i..i + |w|] == w
  }

  /** `w` occurs somewhere in `s` (the meaning of Python's `w in s`). */
  ghost predicate Occurs(s: string, w: string) {
    exists i :: OccursAt(s, w, i)
  }

  /**
   * Length of the longest all-digit prefix of `t` (what a greedy `\d*`
   * consumes); `RunDigits` states that the prefix it measures is all digits.
   */
  function DigitRun(t: string): (k: nat)
    ensures k <= |t|
    ensures k < |t| ==> !IsDigit(t[k])
  {
    if |t| > 0 && IsDigit(t[0]) then 1 + DigitRun(t[1..]) else 0
  }

  /** The prefix `DigitRun` measures is all digits. */
  lemma {:induction false} RunDigits(t: string)
    ensures AllDigits(t[..DigitRun(t)])
  {
    if |t| > 0 && IsDigit(t[0]) {
      RunDigits(t[1..]);
      var k := DigitRun(t);
      forall i | 0 <= i < k
        ensures IsDigit(t[..k][i])
      {
        if i > 0 {
          assert t[..k][i] == t[1..][..k - 1][i - 1];
        }
      }
    }
  }

  /** Cutting a sequence at `k` and joining the pieces gives it back. */
  lemma Rejoin<T>(s: seq<T>, k: nat)
    requires k <= |s|
    ensures s[..k] + s[k..] == s
  {
  }

  /** Dropping nothing leaves the sequence as it is. */
  lemma DropNone<T>(s: seq<T>)
    ensures s[0..] == s
  {
  }

  /** Dropping `n` elements and then `k` more drops `n + k`. */
  lemma DropDrop<T>(s: seq<T>, n: nat, k: nat)
    requires n + k <= |s|
    ensures s[n..][k..] == s[n + k..]
  {
  }

  /** The first `k` elements are the first one followed by the next `k - 1`. */
  lemma SplitHead<T>(u: seq<T>, k: nat)
    requires 0 < k <= |u|
    ensures u[1..][..k - 1] == u[1..k] && u[..k] == [u[0]] + u[1..k]
  {
  }

  /** Putting an element in front of a concatenation. */
  lemma ConsAssoc<T>(x: T, a: seq<T>, b: seq<T>)
    ensures [x] + (a + b) == [x] + a + b
  {
  }

  /** Dropping the front piece of a concatenation leaves the back piece. */
  lemma DropFront<T>(a: seq<T>, b: seq<T>)
    ensures (a + b)[|a|..] == b
  {
  }

  /** Regrouping a concatenation of five pieces after its first piece. */
  lemma Regroup<T>(a: seq<T>, b: seq<T>, c: seq<T>, d: seq<T>, e: seq<T>)
    ensures a + b + c + d + e == a + (b + c + d + e)
  {
  }

  /** Taking the first element off a concatenation whose front piece is non-empty. */
  lemma TailConcat<T>(a: seq<T>, b: seq<T>)
    requires |a| > 0
    ensures (a + b)[1..] == a[1..] + b && (a + b)[0] == a[0]
  {
  }

  /** Putting the first element back in front of the rest of a concatenation. */
  lemma Uncons<T>(a: seq<T>, x: seq<T>)
    requires |a| > 0
    ensures [a[0]] + (a[1..] + x) == a + x
  {
  }

  /** Two texts that are the same front followed by equal backs are equal. */
  lemma SameFront<T>(x: seq<T>, y: seq<T>, front: seq<T>, xs: seq<T>, ys: seq<T>)
    requires x == front + xs && y == front + ys && xs == ys
    ensures x == y
  {
  }

  /** Length of the run of `!` at the start of `t` (what a greedy `!+` consumes). */
  function BangRun(t: string): (k: nat)
    ensures k <= |t| && (k > 0 ==> t[0] == '!')
    ensures k < |t| ==> t[k] != '!'
  {
    if |t| > 0 && t[0] == '!' then 1 + BangRun(t[1..]) else 0
  }

  /** The prefix `BangRun` measures is all `!`. */
  lemma {:induction false} RunBangs(t: string)
    ensures forall j | 0 <= j < BangRun(t) :: t[j] == '!'
  {
    if |t| > 0 && t[0] == '!' {
      RunBangs(t[1..]);
      forall j | 1 <= j < BangRun(t)
        ensures t[j] == '!'
      {
        assert t[j] == t[1..][j - 1];
      }
    }
  }

  /** Length of the longest prefix of `t` free of `)` (what a greedy `[^)]*` consumes). */
  function NonCloseRun(t: string): (k: nat)
    ensures k <= |t|
    ensures k < |t| ==> t[k] == ')'
  {
    if |t| > 0 && t[0] != ')' then 1 + NonCloseRun(t[1..]) else 0
  }

  /** The prefix `NonCloseRun` measures holds no `)`. */
  lemma {:induction false} NonCloseRunFree(t: string)
    ensures ')' !in t[..NonCloseRun(t)]
  {
    if |t| > 0 && t[0] != ')' {
      NonCloseRunFree(t[1..]);
      var k := NonCloseRun(t);
      assert t[..k] == [t[0]] + t[1..][..k - 1];
    }
  }

  /**
   * Substring test by scanning, as Python evaluates `w in s`; the empty
   * string is contained in every string.
   */
  function Contains(s: string, w: string): (b: bool)
    ensures b <==> Occurs(s, w)
    decreases |s|
  {
    if IsPrefix(w, s) then
      assert OccursAt(s, w, 0);
      true
    else if |s| == 0 then
      false
    else
      var b := Contains(s[1..], w);
      OccursStep(s, w);
      b
  }

  /** An occurrence in `s` is either at the front or an occurrence in `s[1..]`. */
  lemma OccursStep(s: string, w: string)
    requires |s| > 0 && !IsPrefix(w, s)
    ensures Occurs(s, w) <==> Occurs(s[1..], w)
  {
    if Occurs(s, w) {
      var i :| OccursAt(s, w, i);
      assert i != 0;
      assert s[1..][i - 1..i - 1 + |w|] == s[i..i + |w|];
      assert OccursAt(s[1..], w, i - 1);
    }
    if Occurs(s[1..], w) {
      var i :| OccursAt(s[1..], w, i);
      assert s[i + 1..i + 1 + |w|] == s[1..][i..i + |w|];
      assert OccursAt(s, w, i + 1);
    }
  }

  /** Some element of `alts` is a prefix of `t`. */
  predicate HasPrefixIn(alts: seq<string>, t: string) {
    exists w :: w in alts && IsPrefix(w, t)
  }

  /**
   * The alternative a regular-expression alternation `(a|b|...)` commits to
   * first: the earliest element of `alts` that is a prefix of `t`.
   */
  function FirstPrefix(alts: seq<string>, t: string): (r: Option<string>)
    ensures r.Some? ==> r.value in alts && IsPrefix(r.value, t)
    ensures r.None? <==> !HasPrefixIn(alts, t)
    ensures r.Some? ==>
              exists i | 0 <= i < |alts| ::
                alts[i] == r.value && forall j | 0 <= j < i :: !IsPrefix(alts[j], t)
  {
    if |alts| == 0 then None
    else if IsPrefix(alts[0], t) then Some(alts[0])
    else
      var r := FirstPrefix(alts[1..], t);
      assert forall w :: w in alts ==> w == alts[0] || w in alts[1..];
      assert r.Some? ==>
               exists i | 0 <= i < |alts| ::
                 alts[i] == r.value && forall j | 0 <= j < i :: !IsPrefix(alts[j], t) by {
        if r.Some? {
          var k :| 0 <= k < |alts[1..]| && alts[1..][k] == r.value
                   && forall j | 0 <= j < k :: !IsPrefix(alts[1..][j], t);
          assert alts[k + 1] == r.value;
          assert forall j | 0 <= j < k + 1 :: !IsPrefix(alts[j], t) by {
            forall j | 0 <= j < k + 1
              ensures !IsPrefix(alts[j], t)
            {
              if j > 0 {
                assert alts[j] == alts[1..][j - 1];
              }
            }
          }
        }
      }
      r
  }

  /** `str.lower()` on ASCII letters; every other character is kept. */
  function LowerChar(c: char): char {
    if 'A' <= c <= 'Z' then (c as int + 32) as char else c
  }

  /** `str.upper()` on ASCII letters; every other character is kept. */
  function UpperChar(c: char): char {
    if 'a' <= c <= 'z' then (c as int - 32) as char else c
  }

  function ToLower(s: string): string {
    seq(|s|, i requires 0 <= i < |s| => LowerChar(s[i]))
  }

  function ToUpper(s: string): string {
    seq(|s|, i requires 0 <= i < |s| => UpperChar(s[i]))
  }

  /** The characters for which Python's `str.isspace()` holds, i.e. what `strip()` removes. */
  predicate IsSpace(c: char) {
    || '\t' <= c <= '\r'
    || '\U{001C}' <= c <= ' '
    || c == '\U{0085}' || c == '\U{00A0}' || c == '\U{1680}'
    || '\U{2000}' <= c <= '\U{200A}'
    || c == '\U{2028}' || c == '\U{2029}' || c == '\U{202F}' || c == '\U{205F}' || c == '\U{3000}'
  }

  /** `s.strip()`: whitespace removed from both ends. */
  function Strip(s: string): string {
    TrimEnd(TrimStart(s))
  }

  function TrimStart(s: string): string {
    if |s| > 0 && IsSpace(s[0]) then TrimStart(s[1..]) else s
  }

  function TrimEnd(s: string): string {
    if |s| > 0 && IsSpace(s[|s| - 1]) then TrimEnd(s[..|s| - 1]) else s
  }

  /** `not s.strip()`: holds exactly when the string is empty or whitespace only. */
  predicate IsBlank(s: string): (r: bool)
    ensures r <==> forall i | 0 <= i < |s| :: IsSpace(s[i])
  {
    TrimStartBlank(s);
    TrimEndKeepsHead(TrimStart(s));
    |Strip(s)| == 0
  }

  /** `TrimStart` empties exactly a whitespace-only string, and otherwise stops at a non-space. */
  lemma {:induction false} TrimStartBlank(s: string)
    ensures |TrimStart(s)| == 0 <==> forall i | 0 <= i < |s| :: IsSpace(s[i])
    ensures |TrimStart(s)| > 0 ==> !IsSpace(TrimStart(s)[0])
  {
    if |s| > 0 && IsSpace(s[0]) {
      TrimStartBlank(s[1..]);
      assert forall i | 1 <= i < |s| :: s[i] == s[1..][i - 1];
    }
  }

  /** `TrimEnd` never removes a leading non-space. */
  lemma {:induction false} TrimEndKeepsHead(s: string)
    ensures |s| > 0 && !IsSpace(s[0]) ==> |TrimEnd(s)| > 0
    decreases |s|
  {
    if |s| > 0 && !IsSpace(s[0]) && IsSpace(s[|s| - 1]) {
      TrimEndKeepsHead(s[..|s| - 1]);
    }
  }

  /** A non-empty prefix of `[x] + t` starts with `x` and goes on with a prefix of `t`. */
  lemma PrefixTail(w: string, x: char, t: string)
    requires |w| > 0 && IsPrefix(w, [x] + t)
    ensures w[0] == x && IsPrefix(w[1..], t)
  {
    assert ([x] + t)[..|w|][1..] == t[..|w| - 1];
  }

  /** A text whose first character and rest match a prefix's has that prefix. */
  lemma PrefixCons(w: string, u: string)
    requires 0 < |w| && 0 < |u| && w[0] == u[0] && IsPrefix(w[1..], u[1..])
    ensures IsPrefix(w, u)
  {
    assert u[..|w|] == [u[0]] + u[1..][..|w| - 1];
  }

  /** A prefix is an occurrence at index 0. */
  lemma PrefixOccurs(s: string, w: string)
    ensures IsPrefix(w, s) <==> OccursAt(s, w, 0)
  {
    if |w| <= |s| {
      assert s[0..|w|] == s[..|w|];
    }
  }

  /** An occurrence at `i` in `s[d..]` is an occurrence at `d + i` in `s`. */
  lemma OccursDrop(s: string, w: string, d: nat, i: nat)
    requires d <= |s|
    ensures OccursAt(s[d..], w, i) == OccursAt(s, w, d + i)
  {
    if d + i + |w| <= |s| {
      assert s[d..][i..i + |w|] == s[d + i..d + i + |w|];
    }
  }

  /**
   * Where `s.split(sep)[-1]` starts. `split` scans left to right and cuts
   * after each occurrence of `sep` it meets, going on after the cut, so the
   * last piece starts after the final cut, or at 0 when there is none.
   */
  function LastCut(s: string, sep: string): (c: nat)
    requires |sep| > 0
    ensures c <= |s|
    decreases |s|
  {
    if |s| == 0 then 0
    else if IsPrefix(sep, s) then |sep| + LastCut(s[|sep|..], sep)
    else
      var c := LastCut(s[1..], sep);
      if c == 0 then 0 else 1 + c
  }

  /** No `sep` occurs after the last cut. */
  lemma {:induction false} AfterLastCut(s: string, sep: string)
    requires |sep| > 0
    ensures !Occurs(s[LastCut(s, sep)..], sep)
    decreases |s|
  {
    var c := LastCut(s, sep);
    if |s| == 0 {
    } else if IsPrefix(sep, s) {
      AfterLastCut(s[|sep|..], sep);
      DropDrop(s, |sep|, c - |sep|);
    } else {
      AfterLastCut(s[1..], sep);
      if c == 0 {
        OccursStep(s, sep);
        DropNone(s[1..]);
        DropNone(s);
      } else {
        DropDrop(s, 1, c - 1);
      }
    }
  }

  /** A cut other than at the start comes right after an occurrence of `sep`. */
  lemma {:induction false} BeforeLastCut(s: string, sep: string)
    requires |sep| > 0
    ensures 0 < LastCut(s, sep) ==> |sep| <= LastCut(s, sep) && OccursAt(s, sep, LastCut(s, sep) - |sep|)
    decreases |s|
  {
    if |s| == 0 {
    } else if IsPrefix(sep, s) {
      BeforeLastCut(s[|sep|..], sep);
      CutAtPrefix(s, sep);
    } else {
      BeforeLastCut(s[1..], sep);
      CutAfterFirst(s, sep);
    }
  }

  /** The step of `BeforeLastCut` where `sep` starts the text. */
  lemma CutAtPrefix(s: string, sep: string)
    requires |sep| > 0 && |s| > 0 && IsPrefix(sep, s)
    requires var d := LastCut(s[|sep|..], sep);
      0 < d ==> |sep| <= d && OccursAt(s[|sep|..], sep, d - |sep|)
    ensures |sep| <= LastCut(s, sep) && OccursAt(s, sep, LastCut(s, sep) - |sep|)
  {
    var d := LastCut(s[|sep|..], sep);
    assert LastCut(s, sep) == |sep| + d;
    OccurrenceBeforeCut(s, sep, |sep|, d);
  }

  /** The step of `BeforeLastCut` where `sep` does not start the text. */
  lemma CutAfterFirst(s: string, sep: string)
    requires |sep| > 0 && |s| > 0 && !IsPrefix(sep, s)
    requires var d := LastCut(s[1..], sep);
      0 < d ==> |sep| <= d && OccursAt(s[1..], sep, d - |sep|)
    ensures 0 < LastCut(s, sep) ==> |sep| <= LastCut(s, sep) && OccursAt(s, sep, LastCut(s, sep) - |sep|)
  {
    var d := LastCut(s[1..], sep);
    if d > 0 {
      assert LastCut(s, sep) == 1 + d;
      OccurrenceBeforeCut(s, sep, 1, d);
    }
  }

  /**
   * A cut `d` in `s[n..]` that follows an occurrence of `sep` is a cut
   * `n + d` in `s` that follows it; for a cut right after a leading `sep`,
   * that leading `sep` is the occurrence.
   */
  lemma OccurrenceBeforeCut(s: string, sep: string, n: nat, d: nat)
    requires 0 < |sep| && n <= |s| && d <= |s| - n
    requires 0 < d ==> |sep| <= d && OccursAt(s[n..], sep, d - |sep|)
    requires d == 0 ==> n == |sep| && IsPrefix(sep, s)
    ensures |sep| <= n + d && OccursAt(s, sep, n + d - |sep|)
  {
    if d == 0 {
      PrefixOccurs(s, sep);
    } else {
      OccursDrop(s, sep, n, d - |sep|);
    }
  }

  /** Without an occurrence of `sep` there is no cut. */
  lemma {:induction false} NoCut(s: string, sep: string)
    requires |sep| > 0 && !Occurs(s, sep)
    ensures LastCut(s, sep) == 0
    decreases |s|
  {
    if |s| > 0 {
      assert !OccursAt(s, sep, 0);
      PrefixOccurs(s, sep);
      OccursStep(s, sep);
      NoCut(s[1..], sep);
    }
  }

  /** Positions before the first occurrence of `sep` are skipped by the scan. */
  lemma {:induction false} CutAfter(s: string, sep: string, k: nat)
    requires |sep| > 0 && k <= |s|
    requires forall j | 0 <= j < k :: !OccursAt(s, sep, j)
    requires 0 < LastCut(s[k..], sep)
    ensures LastCut(s, sep) == k + LastCut(s[k..], sep)
    decreases k
  {
    if k == 0 {
      DropNone(s);
    } else {
      PrefixOccurs(s, sep);
      forall j | 0 <= j < k - 1
        ensures !OccursAt(s[1..], sep, j)
      {
        OccursDrop(s, sep, 1, j);
      }
      DropDrop(s, 1, k - 1);
      CutAfter(s[1..], sep, k - 1);
    }
  }

  /** `s.split(sep)[-1]`. */
  function LastPiece(s: string, sep: string): (r: string)
    requires |sep| > 0
    ensures |r| <= |s| && r == s[|s| - |r|..]
    ensures !Occurs(r, sep)
    ensures |r| < |s| ==> OccursAt(s, sep, |s| - |r| - |sep|)
  {
    AfterLastCut(s, sep);
    BeforeLastCut(s, sep);
    s[LastCut(s, sep)..]
  }
}
