/**
 * The composable's state as an object: the four `mutableStateOf` variables
 * of CalculatorApp (src/jsMain/kotlin/Main.kt:22-25) are fields, and each
 * local function is a method that assigns them as the Kotlin code does.
 * Every method is proved to make the transition its Engine function
 * describes, so the lemmas of Engine hold of the object.
 */
module CalculatorApp {
  import opened Options
  import Numerals
  import Engine

  class Calculator {
    var display: string
    var previousValue: Option<real>
    var operation: Option<string>
    var waitingForNewValue: bool

    /** The fields as an Engine.State. */
    function Snapshot(): Engine.State
      reads this
    {
      Engine.State(display, previousValue, operation, waitingForNewValue)
    }

    /** The initial values of Main.kt:22-25. */
    constructor()
      ensures Snapshot() == Engine.Initial
      ensures Engine.Valid(Snapshot())
    {
      display := "0";
      previousValue := None;
      operation := None;
      waitingForNewValue := false;
      Engine.InitialIsValid();
    }

    /** `inputNumber(num)` (Main.kt:27-34). */
    method InputNumber(num: string)
      modifies this
      ensures Snapshot() == Engine.InputNumber(old(Snapshot()), num)
      ensures previousValue == old(previousValue) && operation == old(operation)
      ensures old(waitingForNewValue) ==> display == num && !waitingForNewValue
      ensures !old(waitingForNewValue) && old(display) == "0" ==> display == num && !waitingForNewValue
      ensures !old(waitingForNewValue) && old(display) != "0" ==> display == old(display) + num && !waitingForNewValue
      ensures Engine.Valid(old(Snapshot())) && Engine.IsDigitLabel(num) ==> Engine.Valid(Snapshot())
    {
      ghost var s := Snapshot();
      if waitingForNewValue {
        display := num;
        waitingForNewValue := false;
      } else {
        display := if display == "0" then num else display + num;
      }
      if Engine.Valid(s) && Engine.IsDigitLabel(num) {
        Engine.PressKeepsValid(s, Engine.Digit(num));
      }
    }

    /** `inputDecimal()` (Main.kt:36-43). */
    method InputDecimal()
      modifies this
      ensures Snapshot() == Engine.InputDecimal(old(Snapshot()))
      ensures previousValue == old(previousValue) && operation == old(operation) && !waitingForNewValue
      ensures old(waitingForNewValue) ==> display == "0."
      ensures !old(waitingForNewValue) && '.' !in old(display) ==> display == old(display) + "."
      ensures !old(waitingForNewValue) && '.' in old(display) ==> display == old(display)
      ensures Engine.Valid(old(Snapshot())) ==> Engine.Valid(Snapshot())
    {
      ghost var s := Snapshot();
      if waitingForNewValue {
        display := "0.";
        waitingForNewValue := false;
      } else if '.' !in display {
        display := display + ".";
      }
      if Engine.Valid(s) {
        Engine.PressKeepsValid(s, Engine.Point);
      }
    }

    /** `clear()` (Main.kt:45-50). */
    method Clear()
      modifies this
      ensures Snapshot() == Engine.Clear(old(Snapshot()))
      ensures Snapshot() == Engine.Initial
      ensures Engine.Valid(Snapshot())
    {
      display := "0";
      previousValue := None;
      operation := None;
      waitingForNewValue := false;
      Engine.InitialIsValid();
    }

    /**
     * `performOperation(nextOperation)` (Main.kt:52-70). The `when` on the
     * pending operator is Engine.Resolve; a division by zero shows the error
     * and returns before the last three assignments.
     */
    method PerformOperation(nextOperation: string)
      modifies this
      ensures Snapshot() == Engine.PerformOperation(old(Snapshot()), nextOperation)
      ensures Engine.Valid(old(Snapshot())) ==> Engine.Valid(Snapshot())
    {
      ghost var s := Snapshot();
      if Engine.Valid(s) {
        Engine.PressKeepsValid(s, Engine.Operator(nextOperation));
      }
      var currentValue := Numerals.ParseOrZero(display);

      if operation.Some? && previousValue.Some? && !waitingForNewValue {
        var prev := previousValue.value;
        match Engine.Resolve(operation.value, prev, currentValue)
        case DivisionByZero =>
          display := Engine.ErrorText;
          return;
        case Value(result) =>
          display := Numerals.Format(result);
      }

      previousValue := Some(currentValue);
      operation := Some(nextOperation);
      waitingForNewValue := true;
    }

    /** `calculate()` (Main.kt:72-79): resolve, then forget the pending operation. */
    method Calculate()
      modifies this
      ensures Snapshot() == Engine.Calculate(old(Snapshot()))
      ensures old(operation).None? || old(previousValue).None? ==> Snapshot() == old(Snapshot())
      ensures old(operation).Some? && old(previousValue).Some? ==>
        operation.None? && previousValue.None? && !waitingForNewValue
      ensures Engine.Valid(old(Snapshot())) ==> Engine.Valid(Snapshot())
    {
      ghost var s := Snapshot();
      if operation.Some? && previousValue.Some? {
        PerformOperation(operation.value);
        operation := None;
        previousValue := None;
        waitingForNewValue := false;
      }
      if Engine.Valid(s) {
        Engine.PressKeepsValid(s, Engine.Equals);
      }
    }
  }

  /**
   * A client pressing 5 + 2 × 3 = on a fresh calculator: the display shows
   * 6, because the chained × takes 2 as its left operand.
   */
  method ChainedSession() returns (shown: string)
    ensures shown == "6"
  {
    var c := new Calculator();
    c.InputNumber("5");
    c.PerformOperation("+");
    c.InputNumber("2");
    c.PerformOperation("×");
    c.InputNumber("3");
    c.Calculate();
    Engine.ChainKeepsRightOperand();
    shown := c.display;
  }
}
