/**
 * The calculator engine of CalculatorApp (src/jsMain/kotlin/Main.kt:22-79)
 * as values: the four state variables form a State, and each of the five
 * local functions is a function from the old State to the new one. The
 * class in calculator.dfy is proved to make exactly these transitions.
 */
module Engine {
  import opened Options
  import opened Numerals

  /** `display`, `previousValue`, `operation`, `waitingForNewValue` (Main.kt:22-25). */
  datatype State = State(
    display: string,
    previousValue: Option<real>,
    operation: Option<string>,
    waitingForNewValue: bool)

  /** The state at mount, and the state `clear()` restores. */
  const Initial: State := State("0", None, None, false)

  /** The text the engine shows when a division by zero is attempted. */
  const ErrorText: string := "Error"

  /** The outcome of the `when (operation)` switch (Main.kt:57-63). */
  datatype Resolution = Value(result: real) | DivisionByZero

  /** `prev <operation> current`; an operator other than the four yields `current`. */
  function Resolve(operation: string, prev: real, current: real): Resolution
  {
    if operation == "+" then Value(prev + current)
    else if operation == "-" then Value(prev - current)
    else if operation == "×" then Value(prev * current)
    else if operation == "÷" then
      if current != 0.0 then Value(prev / current) else DivisionByZero
    else Value(current)
  }

  /** The guard of Main.kt:55: a pending operation and a freshly typed operand. */
  predicate Resolves(s: State)
  {
    s.operation.Some? && s.previousValue.Some? && !s.waitingForNewValue
  }

  /** `inputNumber(num)` (Main.kt:27-34). */
  function InputNumber(s: State, num: string): State
  {
    if s.waitingForNewValue then s.(display := num, waitingForNewValue := false)
    else s.(display := if s.display == "0" then num else s.display + num)
  }

  /** `inputDecimal()` (Main.kt:36-43). */
  function InputDecimal(s: State): State
  {
    if s.waitingForNewValue then s.(display := "0.", waitingForNewValue := false)
    else if '.' !in s.display then s.(display := s.display + ".")
    else s
  }

  /** `clear()` (Main.kt:45-50): the same result from every state. */
  function Clear(s: State): State
  {
    Initial
  }

  /**
   * `performOperation(nextOperation)` (Main.kt:52-70). The right operand is
   * the display read as a number; a division by zero shows ErrorText and
   * returns before the last three assignments.
   */
  function PerformOperation(s: State, nextOperation: string): State
  {
    var current := ParseOrZero(s.display);
    if Resolves(s) then
      match Resolve(s.operation.value, s.previousValue.value, current)
      case DivisionByZero => s.(display := ErrorText)
      case Value(r) => State(Format(r), Some(current), Some(nextOperation), true)
    else
      s.(previousValue := Some(current), operation := Some(nextOperation), waitingForNewValue := true)
  }

  /** `calculate()` (Main.kt:72-79): resolve with the pending operator, then forget it. */
  function Calculate(s: State): State
  {
    if s.operation.Some? && s.previousValue.Some? then
      PerformOperation(s, s.operation.value).(operation := None, previousValue := None, waitingForNewValue := false)
    else
      s
  }

  // ---------------------------------------------------------------------------
  // Invariants
  // ---------------------------------------------------------------------------

  /** An operand is pending exactly when an operator is (Main.kt:23-24). */
  predicate PendingPaired(s: State)
  {
    s.operation.None? <==> s.previousValue.None?
  }

  /** The display is never empty and has at most one decimal point. */
  predicate DisplayWellFormed(s: State)
  {
    s.display != [] && AtMostOnePoint(s.display)
  }

  predicate Valid(s: State)
  {
    PendingPaired(s) && DisplayWellFormed(s)
  }

  /** The labels the button grid passes to `inputNumber`: one decimal digit. */
  predicate IsDigitLabel(num: string)
  {
    |num| == 1 && IsDigit(num[0])
  }

  // ---------------------------------------------------------------------------
  // Sequences of keystrokes, to state properties of whole sessions
  // ---------------------------------------------------------------------------

  /** One call into the engine, with its argument. */
  datatype Key = Digit(text: string) | Point | Operator(text: string) | Equals | ClearAll

  predicate KeyAllowed(k: Key)
  {
    k.Digit? ==> IsDigitLabel(k.text)
  }

  function Press(s: State, k: Key): State
  {
    match k
    case Digit(text) => InputNumber(s, text)
    case Point => InputDecimal(s)
    case Operator(text) => PerformOperation(s, text)
    case Equals => Calculate(s)
    case ClearAll => Clear(s)
  }

  function Run(s: State, keys: seq<Key>): State
    decreases |keys|
  {
    if keys == [] then s else Run(Press(s, keys[0]), keys[1..])
  }

  /** The display after typing the digits of `ds` one at a time. */
  function TypeDigits(s: State, ds: string): State
    decreases |ds|
  {
    if ds == [] then s else TypeDigits(InputNumber(s, [ds[0]]), ds[1..])
  }

  /** A digit string with its leading zeros collapsed, "0" when nothing is left. */
  function Collapse(ds: string): string
  {
    if ds == [] then "0" else if ds[0] == '0' then Collapse(ds[1..]) else ds
  }

  // ---------------------------------------------------------------------------
  // Lemmas
  // ---------------------------------------------------------------------------

  /** Resolution fails exactly on a division whose right operand is zero. */
  lemma ResolveFailsOnlyDividingByZero(operation: string, prev: real, current: real)
    ensures Resolve(operation, prev, current).DivisionByZero? <==> (operation == "÷" && current == 0.0)
  {
  }

  /** `performOperation` always leaves an operator and an operand pending. */
  lemma PerformOperationPairs(s: State, nextOperation: string)
    ensures PerformOperation(s, nextOperation).operation.Some?
    ensures PerformOperation(s, nextOperation).previousValue.Some?
  {
  }

  /** Every transition keeps the operator and the operand paired. */
  lemma TransitionsKeepPairing(s: State, num: string, nextOperation: string)
    requires PendingPaired(s)
    ensures PendingPaired(InputNumber(s, num))
    ensures PendingPaired(InputDecimal(s))
    ensures PendingPaired(Clear(s))
    ensures PendingPaired(PerformOperation(s, nextOperation))
    ensures PendingPaired(Calculate(s))
  {
  }

  /** Appending text without a point keeps the point count. */
  lemma AppendKeepsPoints(d: string, t: string)
    requires AtMostOnePoint(d) && '.' !in t
    ensures AtMostOnePoint(d + t)
  {
    assert multiset(d + t) == multiset(d) + multiset(t);
  }

  /** Digit entry keeps the display well formed. */
  lemma InputNumberKeepsDisplay(s: State, num: string)
    requires DisplayWellFormed(s) && IsDigitLabel(num)
    ensures DisplayWellFormed(InputNumber(s, num))
  {
    assert '.' !in num by {
      assert num == [num[0]];
    }
    assert multiset(num)['.'] == 0;
    AppendKeepsPoints(s.display, num);
  }

  /** After `inputDecimal` the display has exactly one point. */
  lemma {:induction false} InputDecimalOnePoint(s: State)
    requires DisplayWellFormed(s)
    ensures DisplayWellFormed(InputDecimal(s))
    ensures '.' in InputDecimal(s).display
  {
    if s.waitingForNewValue {
      assert "0."[1] == '.';
      assert multiset("0.") == multiset{'0', '.'};
    } else if '.' !in s.display {
      var d := s.display + ".";
      assert d[|s.display|] == '.';
      assert multiset(d) == multiset(s.display) + multiset{'.'};
    }
  }

  /** A second `inputDecimal` changes nothing. */
  lemma InputDecimalIdempotent(s: State)
    ensures InputDecimal(InputDecimal(s)) == InputDecimal(s)
  {
    if s.waitingForNewValue {
      assert "0."[1] == '.';
    } else if '.' !in s.display {
      assert (s.display + ".")[|s.display|] == '.';
    }
  }

  /** `clear` restores the initial state, and clearing twice is clearing once. */
  lemma ClearResetsAndIsIdempotent(s: State)
    ensures Clear(s) == State("0", None, None, false)
    ensures Clear(Clear(s)) == Clear(s)
    ensures Valid(Clear(s))
  {
    assert multiset("0")['.'] == 0;
  }

  /** Operator choice keeps the display well formed. */
  lemma PerformOperationKeepsDisplay(s: State, nextOperation: string)
    requires DisplayWellFormed(s)
    ensures DisplayWellFormed(PerformOperation(s, nextOperation))
  {
    assert multiset(ErrorText)['.'] == 0 by {
      assert '.' !in ErrorText;
    }
  }

  /** Equals keeps the display well formed. */
  lemma CalculateKeepsDisplay(s: State)
    requires DisplayWellFormed(s)
    ensures DisplayWellFormed(Calculate(s))
  {
    if s.operation.Some? && s.previousValue.Some? {
      PerformOperationKeepsDisplay(s, s.operation.value);
    }
  }

  /** One allowed keystroke keeps the state valid. */
  lemma PressKeepsValid(s: State, k: Key)
    requires Valid(s) && KeyAllowed(k)
    ensures Valid(Press(s, k))
  {
    match k
    case Digit(text) => InputNumberKeepsDisplay(s, text);
    case Point => InputDecimalOnePoint(s);
    case Operator(text) => PerformOperationKeepsDisplay(s, text);
    case Equals => CalculateKeepsDisplay(s);
    case ClearAll => ClearResetsAndIsIdempotent(s);
  }

  /**
   * From a valid state (the initial one, say), any session of digit,
   * point, operator, equals and clear keystrokes keeps the display non-empty
   * with at most one point and the pending operator paired with its operand.
   */
  lemma {:induction false} RunKeepsValid(s: State, keys: seq<Key>)
    requires Valid(s)
    requires forall i :: 0 <= i < |keys| ==> KeyAllowed(keys[i])
    ensures Valid(Run(s, keys))
    decreases |keys|
  {
    if keys != [] {
      PressKeepsValid(s, keys[0]);
      RunKeepsValid(Press(s, keys[0]), keys[1..]);
    }
  }

  lemma InitialIsValid()
    ensures Valid(Initial)
  {
    ClearResetsAndIsIdempotent(Initial);
  }

  /** Typing a digit after the digits of `p` gives the collapsed digits of `p` and that digit. */
  lemma {:induction false} CollapseSnoc(p: string, c: char)
    requires AllDigits(p) && IsDigit(c)
    ensures Collapse(p + [c]) == if Collapse(p) == "0" then [c] else Collapse(p) + [c]
  {
    if p == [] {
      assert p + [c] == [c];
    } else if p[0] == '0' {
      assert (p + [c])[1..] == p[1..] + [c];
      CollapseSnoc(p[1..], c);
    } else {
      assert (p + [c])[0] == p[0];
    }
  }

  /** `Collapse` of digits is never empty and never starts with a zero unless it is "0". */
  lemma {:induction false} CollapseShape(p: string)
    requires AllDigits(p)
    ensures Collapse(p) != []
    ensures Collapse(p)[0] == '0' ==> Collapse(p) == "0"
  {
    if p != [] && p[0] == '0' {
      CollapseShape(p[1..]);
    }
  }

  /**
   * With no operator in between, typing digits shows their concatenation
   * with leading zeros collapsed ("0" + "5" shows "5", not "05").
   */
  lemma {:induction false} TypeDigitsCollapses(s: State, p: string, ds: string)
    requires !s.waitingForNewValue && AllDigits(p) && AllDigits(ds)
    requires s.display == Collapse(p)
    ensures TypeDigits(s, ds).display == Collapse(p + ds)
    ensures TypeDigits(s, ds).previousValue == s.previousValue
    ensures TypeDigits(s, ds).operation == s.operation
    decreases |ds|
  {
    if ds == [] {
      assert p + ds == p;
    } else {
      var t := InputNumber(s, [ds[0]]);
      CollapseSnoc(p, ds[0]);
      assert t.display == Collapse(p + [ds[0]]);
      assert (p + [ds[0]]) + ds[1..] == p + ds;
      TypeDigitsCollapses(t, p + [ds[0]], ds[1..]);
    }
  }

  lemma TypeDigitsFromInitial(ds: string)
    requires AllDigits(ds)
    ensures TypeDigits(Initial, ds).display == Collapse(ds)
  {
    TypeDigitsCollapses(Initial, "", ds);
    assert "" + ds == ds;
  }

  /**
   * Without a resolution, `performOperation` keeps the display and records
   * it (read as a number, 0 if unreadable) as the pending operand.
   */
  lemma OperatorWithoutResolution(s: State, nextOperation: string)
    requires !Resolves(s)
    ensures PerformOperation(s, nextOperation)
         == State(s.display, Some(ParseOrZero(s.display)), Some(nextOperation), true)
  {
  }

  /**
   * After a resolution the display shows the formatted result, but the
   * pending operand is the right operand that was read, not the result.
   */
  lemma ResolutionKeepsRightOperand(s: State, nextOperation: string)
    requires Resolves(s)
    requires Resolve(s.operation.value, s.previousValue.value, ParseOrZero(s.display)).Value?
    ensures var r := Resolve(s.operation.value, s.previousValue.value, ParseOrZero(s.display)).result;
            PerformOperation(s, nextOperation)
              == State(Format(r), Some(ParseOrZero(s.display)), Some(nextOperation), true)
  {
  }

  /** Dividing by zero shows ErrorText and changes nothing else. */
  lemma DivisionByZeroExitsEarly(s: State, nextOperation: string)
    requires Resolves(s) && s.operation.value == "÷" && ParseOrZero(s.display) == 0.0
    ensures PerformOperation(s, nextOperation) == s.(display := ErrorText)
  {
  }

  /**
   * Two operators in a row: the second resolves nothing; it replaces the
   * operator and re-reads the display as the operand. When the first did
   * not resolve either, the pair acts like the second alone.
   */
  lemma SecondOperatorReplacesFirst(s: State, first: string, second: string)
    ensures var t := PerformOperation(s, first);
            t.waitingForNewValue ==>
              PerformOperation(t, second) == t.(previousValue := Some(ParseOrZero(t.display)), operation := Some(second))
    ensures !Resolves(s) ==>
              PerformOperation(PerformOperation(s, first), second) == PerformOperation(s, second)
  {
  }

  /** Equals with nothing pending does nothing. */
  lemma CalculateWithoutOperator(s: State)
    requires s.operation.None? || s.previousValue.None?
    ensures Calculate(s) == s
  {
  }

  /**
   * Equals with an operator pending always forgets it and the operand and
   * expects more digits, whatever the display shows afterwards (a result or
   * ErrorText); pressed right after an operator it leaves the display as is.
   */
  lemma CalculateResets(s: State)
    requires s.operation.Some? && s.previousValue.Some?
    ensures Calculate(s).operation.None? && Calculate(s).previousValue.None?
    ensures !Calculate(s).waitingForNewValue
    ensures s.waitingForNewValue ==> Calculate(s).display == s.display
    ensures !s.waitingForNewValue ==>
              Calculate(s).display
                == match Resolve(s.operation.value, s.previousValue.value, ParseOrZero(s.display))
                   case DivisionByZero => ErrorText
                   case Value(r) => Format(r)
  {
  }

  // ---------------------------------------------------------------------------
  // Sessions
  // ---------------------------------------------------------------------------

  /** A typed digit string with no point reads as its decimal value. */
  lemma ReadNumeral(d: string, v: real)
    requires AllDigits(d) && d != [] && v == DigitsValue(d) as real
    ensures ParseOrZero(d) == v
  {
    ParseDigits(d);
  }

  /** A single digit is worth its value, and reads as it. */
  lemma ReadDigit(d: string, v: real)
    requires IsDigitLabel(d) && v == DigitValue(d[0]) as real
    ensures AllDigits(d) && DigitsValue(d) as real == v
    ensures ParseOrZero(d) == v
  {
    assert d[..|d| - 1] == [];
    ReadNumeral(d, v);
  }

  lemma ShowWhole(n: int, text: string)
    requires text == IntToString(n)
    ensures Format(n as real) == text
  {
    assert (n as real).Floor == n;
  }

  /** An operator after typed digits with nothing pending: their value becomes the left operand. */
  lemma OperatorStartsPending(d: string, v: real, next: string)
    requires AllDigits(d) && d != [] && v == DigitsValue(d) as real
    ensures PerformOperation(State(d, None, None, false), next) == State(d, Some(v), Some(next), true)
  {
    ReadNumeral(d, v);
  }

  /**
   * An operator after typed digits with an operation pending whose result
   * is the whole number r: r is shown and the digits' value is the new left
   * operand.
   */
  lemma OperatorResolvesWhole(d: string, v: real, p: real, op: string, next: string, r: int, text: string)
    requires AllDigits(d) && d != [] && v == DigitsValue(d) as real
    requires Resolve(op, p, v) == Value(r as real) && text == IntToString(r)
    ensures PerformOperation(State(d, Some(p), Some(op), false), next) == State(text, Some(v), Some(next), true)
  {
    ReadNumeral(d, v);
    ShowWhole(r, text);
  }

  /** Equals after typed digits whose operation yields the whole number r: r is shown, nothing pending. */
  lemma EqualsResolvesWhole(d: string, v: real, p: real, op: string, r: int, text: string)
    requires AllDigits(d) && d != [] && v == DigitsValue(d) as real
    requires Resolve(op, p, v) == Value(r as real) && text == IntToString(r)
    ensures Calculate(State(d, Some(p), Some(op), false)) == State(text, None, None, false)
  {
    OperatorResolvesWhole(d, v, p, op, op, r, text);
  }

  /** An operator right after an operator replaces it and re-reads the digits shown. */
  lemma OperatorReplacesPending(d: string, v: real, p: real, op: string, next: string)
    requires AllDigits(d) && d != [] && v == DigitsValue(d) as real
    ensures PerformOperation(State(d, Some(p), Some(op), true), next) == State(d, Some(v), Some(next), true)
  {
    ReadNumeral(d, v);
  }

  /** 6 + 3 = shows 9. */
  lemma SixPlusThree()
    ensures Run(Initial, [Digit("6"), Operator("+"), Digit("3"), Equals]).display == "9"
  {
    var s0 := Initial;
    var s1 := State("6", None, None, false);
    var s2 := State("6", Some(6.0), Some("+"), true);
    var s3 := State("3", Some(6.0), Some("+"), false);
    var s4 := State("9", None, None, false);
    assert Press(s0, Digit("6")) == s1;
    ReadDigit("6", 6.0);
    OperatorStartsPending("6", 6.0, "+");
    assert Press(s2, Digit("3")) == s3;
    ReadDigit("3", 3.0);
    EqualsResolvesWhole("3", 3.0, 6.0, "+", 9, "9");
    RunFirst(s3, Equals, []);
    RunFirst(s2, Digit("3"), [Equals]);
    RunFirst(s1, Operator("+"), [Digit("3"), Equals]);
    RunFirst(s0, Digit("6"), [Operator("+"), Digit("3"), Equals]);
  }

  /** 4 + 6 = shows 10: a whole result is shown without a point. */
  lemma FourPlusSix()
    ensures Run(Initial, [Digit("4"), Operator("+"), Digit("6"), Equals]).display == "10"
  {
    var s0 := Initial;
    var s1 := State("4", None, None, false);
    var s2 := State("4", Some(4.0), Some("+"), true);
    var s3 := State("6", Some(4.0), Some("+"), false);
    var s4 := State("10", None, None, false);
    assert Press(s0, Digit("4")) == s1;
    ReadDigit("4", 4.0);
    OperatorStartsPending("4", 4.0, "+");
    assert Press(s2, Digit("6")) == s3;
    assert IntToString(10) == "10" by {
      assert NatToString(10) == NatToString(1) + [DigitChar(0)];
    }
    ReadDigit("6", 6.0);
    EqualsResolvesWhole("6", 6.0, 4.0, "+", 10, "10");
    RunFirst(s3, Equals, []);
    RunFirst(s2, Digit("6"), [Equals]);
    RunFirst(s1, Operator("+"), [Digit("6"), Equals]);
    RunFirst(s0, Digit("4"), [Operator("+"), Digit("6"), Equals]);
  }

  /**
   * 5 + 2 × 3 = shows 6, not 21: the chained "×" resolves 5 + 2 on the
   * display but keeps 2, the operand read before resolving, as the left
   * operand of the multiplication.
   */
  lemma ChainKeepsRightOperand()
    ensures Run(Initial, [Digit("5"), Operator("+"), Digit("2"), Operator("×"), Digit("3"), Equals]).display == "6"
    ensures Calculate(InputNumber(PerformOperation(InputNumber(PerformOperation(
              InputNumber(Initial, "5"), "+"), "2"), "×"), "3")).display == "6"
  {
    var s0 := Initial;
    var s1 := State("5", None, None, false);
    var s2 := State("5", Some(5.0), Some("+"), true);
    var s3 := State("2", Some(5.0), Some("+"), false);
    var s4 := State("7", Some(2.0), Some("×"), true);
    var s5 := State("3", Some(2.0), Some("×"), false);
    var s6 := State("6", None, None, false);
    assert InputNumber(s0, "5") == s1;
    ReadDigit("5", 5.0);
    OperatorStartsPending("5", 5.0, "+");
    assert InputNumber(s2, "2") == s3;
    ReadDigit("2", 2.0);
    OperatorResolvesWhole("2", 2.0, 5.0, "+", "×", 7, "7");
    assert InputNumber(s4, "3") == s5;
    ReadDigit("3", 3.0);
    EqualsResolvesWhole("3", 3.0, 2.0, "×", 6, "6");
    RunFirst(s5, Equals, []);
    RunFirst(s4, Digit("3"), [Equals]);
    RunFirst(s3, Operator("×"), [Digit("3"), Equals]);
    RunFirst(s2, Digit("2"), [Operator("×"), Digit("3"), Equals]);
    RunFirst(s1, Operator("+"), [Digit("2"), Operator("×"), Digit("3"), Equals]);
    RunFirst(s0, Digit("5"), [Operator("+"), Digit("2"), Operator("×"), Digit("3"), Equals]);
  }

  /** 12 + 30 = shows 42: operands of several digits are read whole. */
  lemma TwelvePlusThirty()
    ensures Run(Initial, [Digit("1"), Digit("2"), Operator("+"), Digit("3"), Digit("0"), Equals]).display == "42"
  {
    var s0 := Initial;
    var s1 := State("1", None, None, false);
    var s2 := State("12", None, None, false);
    var s3 := State("12", Some(12.0), Some("+"), true);
    var s4 := State("3", Some(12.0), Some("+"), false);
    var s5 := State("30", Some(12.0), Some("+"), false);
    var s6 := State("42", None, None, false);
    assert Press(s0, Digit("1")) == s1;
    assert Press(s1, Digit("2")) == s2;
    assert AllDigits("12") && DigitsValue("12") == 12 by {
      assert "12"[..1] == "1";
      assert "1"[..0] == [];
    }
    OperatorStartsPending("12", 12.0, "+");
    assert Press(s3, Digit("3")) == s4;
    assert Press(s4, Digit("0")) == s5;
    assert AllDigits("30") && DigitsValue("30") == 30 by {
      assert "30"[..1] == "3";
      assert "3"[..0] == [];
    }
    assert IntToString(42) == "42" by {
      assert NatToString(42) == NatToString(4) + [DigitChar(2)];
    }
    EqualsResolvesWhole("30", 30.0, 12.0, "+", 42, "42");
    RunFirst(s5, Equals, []);
    RunFirst(s4, Digit("0"), [Equals]);
    RunFirst(s3, Digit("3"), [Digit("0"), Equals]);
    RunFirst(s2, Operator("+"), [Digit("3"), Digit("0"), Equals]);
    RunFirst(s1, Digit("2"), [Operator("+"), Digit("3"), Digit("0"), Equals]);
    RunFirst(s0, Digit("1"), [Digit("2"), Operator("+"), Digit("3"), Digit("0"), Equals]);
  }

  /** 8 ÷ 0 = shows Error and leaves nothing pending. */
  lemma EightDividedByZero()
    ensures Run(Initial, [Digit("8"), Operator("÷"), Digit("0"), Equals]) == State(ErrorText, None, None, false)
  {
    var s0 := Initial;
    var s1 := State("8", None, None, false);
    var s2 := State("8", Some(8.0), Some("÷"), true);
    var s3 := State("0", Some(8.0), Some("÷"), false);
    var s4 := State(ErrorText, None, None, false);
    assert Press(s0, Digit("8")) == s1;
    ReadDigit("8", 8.0);
    OperatorStartsPending("8", 8.0, "÷");
    assert Press(s2, Digit("0")) == s3;
    assert Press(s3, Equals) == s4 by {
      ReadDigit("0", 0.0);
    }
    RunFirst(s3, Equals, []);
    RunFirst(s2, Digit("0"), [Equals]);
    RunFirst(s1, Operator("÷"), [Digit("0"), Equals]);
    RunFirst(s0, Digit("8"), [Operator("÷"), Digit("0"), Equals]);
  }

  /** 5 + × 3 = shows 15: the second operator only replaces the first. */
  lemma OperatorReplacesOperator()
    ensures Run(Initial, [Digit("5"), Operator("+"), Operator("×"), Digit("3"), Equals]).display == "15"
  {
    var s0 := Initial;
    var s1 := State("5", None, None, false);
    var s2 := State("5", Some(5.0), Some("+"), true);
    var s3 := State("5", Some(5.0), Some("×"), true);
    var s4 := State("3", Some(5.0), Some("×"), false);
    var s5 := State("15", None, None, false);
    assert Press(s0, Digit("5")) == s1;
    ReadDigit("5", 5.0);
    OperatorStartsPending("5", 5.0, "+");
    OperatorReplacesPending("5", 5.0, 5.0, "+", "×");
    assert Press(s3, Digit("3")) == s4;
    assert IntToString(15) == "15" by {
      assert NatToString(15) == NatToString(1) + [DigitChar(5)];
    }
    ReadDigit("3", 3.0);
    EqualsResolvesWhole("3", 3.0, 5.0, "×", 15, "15");
    RunFirst(s4, Equals, []);
    RunFirst(s3, Digit("3"), [Equals]);
    RunFirst(s2, Operator("×"), [Digit("3"), Equals]);
    RunFirst(s1, Operator("+"), [Operator("×"), Digit("3"), Equals]);
    RunFirst(s0, Digit("5"), [Operator("+"), Operator("×"), Digit("3"), Equals]);
  }

  /** 5 + = shows 5 and forgets the operator. */
  lemma EqualsRightAfterOperator()
    ensures Run(Initial, [Digit("5"), Operator("+"), Equals]) == State("5", None, None, false)
  {
    var s0 := Initial;
    var s1 := State("5", None, None, false);
    var s2 := State("5", Some(5.0), Some("+"), true);
    var s3 := State("5", None, None, false);
    assert Press(s0, Digit("5")) == s1;
    ReadDigit("5", 5.0);
    OperatorStartsPending("5", 5.0, "+");
    OperatorReplacesPending("5", 5.0, 5.0, "+", "+");
    assert Press(s2, Equals) == s3;
    RunFirst(s2, Equals, []);
    RunFirst(s1, Operator("+"), [Equals]);
    RunFirst(s0, Digit("5"), [Operator("+"), Equals]);
  }

  /**
   * A digit typed after Error is appended to it: 8 ÷ 0 = 7 shows "Error7",
   * which then reads as 0.
   */
  lemma DigitAfterErrorAppends()
    ensures Run(Initial, [Digit("8"), Operator("÷"), Digit("0"), Equals, Digit("7")]).display == "Error7"
    ensures ParseOrZero("Error7") == 0.0
  {
    var keys := [Digit("8"), Operator("÷"), Digit("0"), Equals];
    EightDividedByZero();
    RunAppend(Initial, keys, [Digit("7")]);
    assert keys + [Digit("7")] == [Digit("8"), Operator("÷"), Digit("0"), Equals, Digit("7")];
    assert Run(State(ErrorText, None, None, false), [Digit("7")]) == State("Error7", None, None, false);
    NotNumeral("Error7");
  }

  /** Running two sessions one after the other is running their concatenation. */
  lemma {:induction false} RunAppend(s: State, a: seq<Key>, b: seq<Key>)
    ensures Run(s, a + b) == Run(Run(s, a), b)
    decreases |a|
  {
    if a == [] {
      assert a + b == b;
    } else {
      assert (a + b)[0] == a[0];
      assert (a + b)[1..] == a[1..] + b;
      RunAppend(Press(s, a[0]), a[1..], b);
    }
  }

  /** Running from the first key is pressing it and running the rest. */
  lemma RunFirst(s: State, k: Key, rest: seq<Key>)
    ensures Run(s, [k] + rest) == Run(Press(s, k), rest)
  {
    assert ([k] + rest)[1..] == rest;
  }
}
