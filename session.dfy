/**
 * The session state of `CalculatorEngine` (calculator.py:7-10, 58-61,
 * 82-163): the angle mode, the history of successful evaluations, and the
 * fixed order in which `evaluate` checks, rewrites and evaluates its input.
 */
module Session {
  import opened Wrappers
  import opened Text
  import opened Notation
  import opened Safety
  import Combinatorics

  /**
   * What evaluating the canonical expression comes to (lines 117-149): the
   * formatted value, or the exception that `evaluate` catches.
   */
  datatype Outcome =
    | Value(text: string)       // `str(result)` after formatting
    | ZeroDivision              // ZeroDivisionError
    | Domain(message: string)   // ValueError, carrying `str(e)`
    | TooLarge                  // OverflowError
    | Syntax                    // SyntaxError
    | Other(kind: string)       // any other exception, by class name

  const EmptyMessage: string := "Error: Empty expression"
  const UnsafeMessage: string := "Error: Unsafe expression"

  /** The text `evaluate` returns for a caught exception (lines 140-149). */
  function ErrorText(o: Outcome): (r: string)
    requires !o.Value?
    ensures IsPrefix("Error: ", r)
    ensures o.Domain? ==> r == "Error: " + o.message
    ensures o.Other? ==> r == "Error: " + o.kind
  {
    match o
    case ZeroDivision => "Error: Division by zero"
    case Domain(m) => "Error: " + m
    case TooLarge => "Error: Number too large"
    case Syntax => "Error: Syntax"
    case Other(k) => "Error: " + k
  }

  /**
   * What `evaluate` makes of an exception raised inside `fact`, `nCr` or
   * `nPr` (lines 12-26): a `ValueError` is reported with its own message, an
   * `OverflowError` as a number too large (lines 142-145).
   */
  function Raised(e: Combinatorics.MathError): (o: Outcome)
    ensures !o.Value?
    ensures e.ValueError? ==> ErrorText(o) == "Error: " + e.message
    ensures e.OverflowError? ==> ErrorText(o) == "Error: Number too large"
  {
    match e
    case ValueError(m) => Domain(m)
    case OverflowError(_) => TooLarge
  }

  /** The history entry of a successful evaluation (line 137). */
  function Entry(original: string, result: string): string {
    original + " = " + result
  }

  /** The angle modes `set_mode` accepts (line 60). */
  predicate IsMode(m: string) {
    m == "DEG" || m == "RAD"
  }

  class Engine {
    /** "DEG" or "RAD". */
    var mode: string
    /** One `<input> = <result>` entry per successful evaluation, oldest first. */
    var history: seq<string>

    ghost predicate Valid()
      reads this
    {
      IsMode(mode)
    }

    /** `__init__` (lines 7-10). */
    constructor()
      ensures Valid()
      ensures mode == "DEG" && history == []
    {
      mode := "DEG";
      history := [];
    }

    /** `set_mode` (lines 58-61): only "DEG" and "RAD", in any case, are accepted. */
    method SetMode(m: string)
      requires Valid()
      modifies this
      ensures Valid()
      ensures ToUpper(m) == "DEG" || ToUpper(m) == "RAD" ==> mode == ToUpper(m)
      ensures !(ToUpper(m) == "DEG" || ToUpper(m) == "RAD") ==> mode == old(mode)
      ensures history == old(history)
    {
      var u := ToUpper(m);
      if u == "DEG" || u == "RAD" {
        mode := u;
      }
    }

    /**
     * `evaluate` (lines 82-149). `evaluable` stands for the `eval` inside the
     * angle conversion and `run` for evaluating and formatting the canonical
     * expression; both are outside this model.
     */
    method Evaluate(expr: string, evaluable: string -> bool, run: string -> Outcome) returns (r: string)
      requires Valid()
      modifies this
      ensures Valid() && mode == old(mode)
      ensures IsBlank(expr) ==> r == EmptyMessage && history == old(history)
      ensures !IsBlank(expr) && !IsSafe(Preprocess(expr, old(mode), evaluable)) ==>
                r == UnsafeMessage && history == old(history)
      ensures !IsBlank(expr) && IsSafe(Preprocess(expr, old(mode), evaluable)) ==>
                var o := run(Preprocess(expr, old(mode), evaluable));
                && (o.Value? ==> r == o.text && history == old(history) + [Entry(expr, r)])
                && (!o.Value? ==> r == ErrorText(o) && history == old(history))
    {
      if IsBlank(expr) {
        return EmptyMessage;
      }
      var original := expr;
      var canonical := Preprocess(expr, mode, evaluable);
      if !IsSafe(canonical) {
        return UnsafeMessage;
      }
      var o := run(canonical);
      if o.Value? {
        r := o.text;
        history := history + [Entry(original, r)];
      } else {
        r := ErrorText(o);
      }
    }

    /** `get_history` (lines 151-153). */
    method GetHistory() returns (h: seq<string>)
      ensures h == history
    {
      h := history;
    }

    /** `clear_history` (lines 155-157). */
    method ClearHistory()
      requires Valid()
      modifies this
      ensures Valid() && history == [] && mode == old(mode)
    {
      history := [];
    }

    /** `get_last_result` (lines 159-163). */
    method GetLastResult() returns (r: Option<string>)
      ensures history == [] ==> r == None
      ensures history != [] ==> r == Some(LastPiece(history[|history| - 1], " = "))
    {
      if history == [] {
        r := None;
      } else {
        r := Some(LastPiece(history[|history| - 1], " = "));
      }
    }
  }

  /**
   * The last result read back from an entry is the result that was written,
   * as long as the input holds no " = " and does not end in " =", and the
   * result holds no '='.
   */
  lemma LastPieceOfEntry(original: string, result: string)
    requires !Occurs(original, " = ")
    requires !(|original| >= 2 && original[|original| - 2..] == " =")
    requires '=' !in result
    ensures LastPiece(Entry(original, result), " = ") == result
  {
    var e := Entry(original, result);
    var n := |original|;
    forall j | 0 <= j < n
      ensures !OccursAt(e, " = ", j)
    {
      NoEarlierSeparator(original, result, j);
    }
    forall j
      ensures !OccursAt(result, " = ", j)
    {
      if 0 <= j && j + 3 <= |result| {
        assert result[j..j + 3][1] == result[j + 1];
      }
    }
    NoCut(result, " = ");
    var tail := e[n..];
    assert tail == " = " + result;
    assert IsPrefix(" = ", tail);
    assert tail[3..] == result;
    assert LastCut(tail, " = ") == 3;
    CutAfter(e, " = ", n);
    assert e[n + 3..] == result;
  }

  lemma NoEarlierSeparator(original: string, result: string, j: nat)
    requires !Occurs(original, " = ")
    requires !(|original| >= 2 && original[|original| - 2..] == " =")
    requires j < |original|
    ensures !OccursAt(Entry(original, result), " = ", j)
  {
    var e := Entry(original, result);
    var n := |original|;
    if j + 3 <= n {
      assert e[j..j + 3] == original[j..j + 3];
      assert !OccursAt(original, " = ", j);
    } else if j == n - 2 {
      assert e[j..j + 2] == original[n - 2..];
      assert e[j..j + 3][..2] == e[j..j + 2] && " = "[..2] == " =";
    } else {
      assert e[j + 1] == ' ';
    }
  }
}
