# CalculatorApp engine in Dafny

This project models the calculator engine of the Compose-for-Web app
`CalculatorApp` (`src/jsMain/kotlin/Main.kt:22-79`). The engine has four
state variables: the `display` text, the pending left operand `previousValue`,
the pending `operation`, and the flag `waitingForNewValue`. Five local
functions change them: `inputNumber`, `inputDecimal`, `clear`,
`performOperation` and `calculate`.

The model has four modules:

- `Options` (`options.dfy`): `Option<T>`, which stands for Kotlin's nullable
  `Double?` and `String?`. `GetOr` is the `?:` operator.
- `Numerals` (`numerals.dfy`): reading the display as a number
  (`toDoubleOrNull() ?: 0.0`) and rendering a result (`toInt().toString()`
  for a whole value, `toString()` otherwise), written out over exact
  `real` numbers.
- `Engine` (`engine.dfy`): the state as a `State` value and each local
  function as a function from the old state to the new one. It also holds
  the invariants those functions keep, a small keystroke vocabulary
  (`Key`, `Press`, `Run`) used to state properties of whole sessions, and
  worked sessions.
- `CalculatorApp` (`calculator.dfy`): the class `Calculator`. It has the
  four variables as mutable fields and one method per local function. Each
  method assigns the fields in the order the Kotlin code does, with the
  early `return` on a division by zero, and is proved to make exactly the
  transition its `Engine` function describes. So every `Engine` lemma holds
  of the object.

The model follows the code as written, which differs from the usual
calculator convention in two places:

- **A chained operator keeps the right operand, not the result.** After a
  chained resolution, `previousValue` is set to `currentValue`, the right
  operand read at `Main.kt:53`, not to the result shown at `Main.kt:64`
  (`Main.kt:67`). So `5 + 2 × 3 =` shows `6` (it resolves `2 × 3`),
  not `21`; see `Engine.ChainKeepsRightOperand`.
- **A digit typed after "Error" is appended to it.** `inputNumber` only
  replaces a display of "0" or one shown while waiting (`Main.kt:28-33`),
  and the early return at `Main.kt:61` leaves waiting off. So the display
  then shows `Error7`, which reads as 0 at `Main.kt:53`; see
  `Engine.DigitAfterErrorAppends`. The display is therefore not always a
  numeral or `Error`. What always holds is that it is non-empty and has at
  most one point (`Engine.RunKeepsValid`).

## Model

| member | source | states |
|---|---|---|
| Numerals.ParseNumeral | src/jsMain/kotlin/Main.kt:53 | `toDoubleOrNull`: an optional '-', digits and at most one point, with at least one digit; None otherwise. Characterised by `Numerals.ParseDigits`, `Numerals.NotNumeral`, `Numerals.ParseFormatWhole` and `Numerals.ParseFormatFraction` |
| Numerals.ParseOrZero | src/jsMain/kotlin/Main.kt:53 | `toDoubleOrNull() ?: 0.0`: the numeral's value, or 0 when the text is not one. Characterised by `Engine.ReadNumeral`, `Engine.ReadDigit` and `Engine.DigitAfterErrorAppends` |
| Numerals.IntToString | src/jsMain/kotlin/Main.kt:64 | `toInt().toString()` of a whole result: '-' for a negative value, then the digits of its magnitude. Characterised by `Numerals.NatToString`, `Numerals.NatToStringValue` and `Numerals.ParseFormatWhole` |
| Numerals.NatToString | src/jsMain/kotlin/Main.kt:64 | the numeral of a natural number is non-empty, all digits, and starts with '0' exactly when the number is 0 |
| Numerals.NatToStringValue | src/jsMain/kotlin/Main.kt:64 | the digits of `n.toString()` have the value `n` |
| Numerals.ParseDigits | src/jsMain/kotlin/Main.kt:53 | a non-empty digit string reads as its decimal value |
| Numerals.Format | src/jsMain/kotlin/Main.kt:64 | the shown result is non-empty, has at most one point, and has a point exactly when the value is not whole |
| Numerals.ParseFormatWhole | src/jsMain/kotlin/Main.kt:53-64 | a whole result, once shown, reads back as exactly that value |
| Numerals.ParseFormatFraction | src/jsMain/kotlin/Main.kt:53-64 | a non-whole result, once shown, reads back as the value truncated toward zero to 15 fractional digits: within one unit of the last digit, never larger in magnitude |
| Engine.Resolve | src/jsMain/kotlin/Main.kt:57-63 | the `when (operation)`: +, -, × and ÷ of the two operands, the right operand for any other operator, and a failure on ÷ by zero. Characterised by `Engine.ResolveFailsOnlyDividingByZero` |
| Engine.Resolves | src/jsMain/kotlin/Main.kt:55 | the guard: an operator and an operand pending and not waiting for a new value. Used by `Engine.OperatorWithoutResolution`, `Engine.ResolutionKeepsRightOperand`, `Engine.DivisionByZeroExitsEarly` and `Engine.SecondOperatorReplacesFirst` |
| Engine.InputNumber | src/jsMain/kotlin/Main.kt:27-34 | `inputNumber(num)` from the old state to the new. Characterised by `Engine.InputNumberKeepsDisplay`, `Engine.CollapseSnoc`, `Engine.TypeDigitsCollapses` and `Engine.DigitAfterErrorAppends` |
| Engine.InputDecimal | src/jsMain/kotlin/Main.kt:36-43 | `inputDecimal()` from the old state to the new. Characterised by `Engine.InputDecimalOnePoint` and `Engine.InputDecimalIdempotent` |
| Engine.Clear | src/jsMain/kotlin/Main.kt:45-50 | `clear()`: the same state from every state. Characterised by `Engine.ClearResetsAndIsIdempotent` |
| Engine.PerformOperation | src/jsMain/kotlin/Main.kt:52-70 | `performOperation(nextOperation)` from the old state to the new, with the early return. Characterised by `Engine.PerformOperationPairs`, `Engine.OperatorWithoutResolution`, `Engine.ResolutionKeepsRightOperand`, `Engine.DivisionByZeroExitsEarly`, `Engine.SecondOperatorReplacesFirst` and `Engine.PerformOperationKeepsDisplay` |
| Engine.Calculate | src/jsMain/kotlin/Main.kt:72-79 | `calculate()` from the old state to the new. Characterised by `Engine.CalculateWithoutOperator`, `Engine.CalculateResets` and `Engine.CalculateKeepsDisplay` |
| Engine.ResolveFailsOnlyDividingByZero | src/jsMain/kotlin/Main.kt:57-63 | the `when` fails exactly for "÷" with a zero right operand |
| Engine.PerformOperationPairs | src/jsMain/kotlin/Main.kt:52-70 | from every state, `performOperation` leaves both an operator and an operand pending (also on the early return) |
| Engine.TransitionsKeepPairing | src/jsMain/kotlin/Main.kt:22-79 | all five transitions keep "operation is null exactly when previousValue is null" |
| Engine.InputNumberKeepsDisplay | src/jsMain/kotlin/Main.kt:27-34 | a one-digit label keeps the display non-empty with at most one point |
| Engine.InputDecimalOnePoint | src/jsMain/kotlin/Main.kt:36-43 | after `inputDecimal` the display has a point, and still at most one |
| Engine.InputDecimalIdempotent | src/jsMain/kotlin/Main.kt:36-43 | a second `inputDecimal` changes nothing |
| Engine.ClearResetsAndIsIdempotent | src/jsMain/kotlin/Main.kt:45-50 | `clear` yields ("0", null, null, false) from every state, clearing twice is clearing once, and the result is valid |
| Engine.PerformOperationKeepsDisplay | src/jsMain/kotlin/Main.kt:52-70 | `performOperation` keeps the display non-empty with at most one point (a formatted result or "Error") |
| Engine.CalculateKeepsDisplay | src/jsMain/kotlin/Main.kt:72-79 | `calculate` keeps the display non-empty with at most one point |
| Engine.PressKeepsValid | src/jsMain/kotlin/Main.kt:27-79 | each engine call keeps the pairing and the display invariant |
| Engine.RunKeepsValid | src/jsMain/kotlin/Main.kt:27-79 | from a valid state, any session of digits, points, operators, equals and clears keeps the pairing, a non-empty display and at most one point in it |
| Engine.InitialIsValid | src/jsMain/kotlin/Main.kt:22-25 | the initial state satisfies the invariant |
| Engine.CollapseSnoc | src/jsMain/kotlin/Main.kt:32 | one more digit replaces a lone "0" and is appended to anything else |
| Engine.CollapseShape | src/jsMain/kotlin/Main.kt:32 | the collapsed digits are non-empty and start with '0' only when they are "0" |
| Engine.TypeDigitsCollapses | src/jsMain/kotlin/Main.kt:27-34 | with no operator in between, typing digits shows their concatenation with leading zeros collapsed, and the pending operator and operand are untouched |
| Engine.TypeDigitsFromInitial | src/jsMain/kotlin/Main.kt:22-34 | from the initial state, typed digits show with leading zeros collapsed ("0" then "5" shows "5") |
| Engine.OperatorWithoutResolution | src/jsMain/kotlin/Main.kt:52-56 | without a resolution: display unchanged, previousValue = the display read as a number (0 if unreadable), operation set, waiting set |
| Engine.ResolutionKeepsRightOperand | src/jsMain/kotlin/Main.kt:53-69 | after a resolution the display shows the formatted result and previousValue is the right operand that was read, not the result |
| Engine.DivisionByZeroExitsEarly | src/jsMain/kotlin/Main.kt:61 | a division by zero shows "Error" and leaves previousValue, operation and waiting unchanged |
| Engine.SecondOperatorReplacesFirst | src/jsMain/kotlin/Main.kt:52-70 | a second operator in a row only replaces the first and re-reads the display; with no resolution the pair acts like the second operator alone |
| Engine.CalculateWithoutOperator | src/jsMain/kotlin/Main.kt:72-73 | `calculate` with nothing pending changes nothing |
| Engine.CalculateResets | src/jsMain/kotlin/Main.kt:72-79 | `calculate` with an operator pending leaves nothing pending and clears waiting, even on "Error"; right after an operator it keeps the display, otherwise it shows the result or "Error" |
| Engine.ReadNumeral | src/jsMain/kotlin/Main.kt:53 | a non-empty digit string on the display reads as its decimal value |
| Engine.ReadDigit | src/jsMain/kotlin/Main.kt:53 | a single digit is worth its value and reads as it |
| Engine.OperatorStartsPending | src/jsMain/kotlin/Main.kt:52-70 | an operator after typed digits with nothing pending keeps the display and makes the digits' value the left operand |
| Engine.OperatorResolvesWhole | src/jsMain/kotlin/Main.kt:52-70 | an operator after typed digits with an operation pending shows a whole result as an integer numeral, and makes the digits' value, not the result, the left operand |
| Engine.EqualsResolvesWhole | src/jsMain/kotlin/Main.kt:72-79 | equals after typed digits with an operation pending shows a whole result and leaves nothing pending |
| Engine.OperatorReplacesPending | src/jsMain/kotlin/Main.kt:52-70 | an operator right after an operator keeps the display, replaces the operator and makes the digits shown the left operand |
| Engine.SixPlusThree | src/jsMain/kotlin/Main.kt:27-79 | 6 + 3 = shows "9" |
| Engine.FourPlusSix | src/jsMain/kotlin/Main.kt:27-79 | 4 + 6 = shows "10", with no point |
| Engine.TwelvePlusThirty | src/jsMain/kotlin/Main.kt:27-79 | 12 + 30 = shows "42": operands of several digits are read whole |
| Engine.ChainKeepsRightOperand | src/jsMain/kotlin/Main.kt:52-79 | 5 + 2 × 3 = shows "6", as a key sequence and as nested calls |
| Engine.EightDividedByZero | src/jsMain/kotlin/Main.kt:61-79 | 8 ÷ 0 = ends in ("Error", null, null, false) |
| Engine.OperatorReplacesOperator | src/jsMain/kotlin/Main.kt:52-79 | 5 + × 3 = shows "15" |
| Engine.EqualsRightAfterOperator | src/jsMain/kotlin/Main.kt:52-79 | 5 + = ends in ("5", null, null, false) |
| Engine.DigitAfterErrorAppends | src/jsMain/kotlin/Main.kt:27-34 | a digit after "Error" is appended ("Error7"), and that text reads as 0 |
| Engine.RunAppend | src/jsMain/kotlin/Main.kt:27-79 | running two key sequences in turn is running their concatenation |
| CalculatorApp.Calculator.constructor | src/jsMain/kotlin/Main.kt:22-25 | the fields start as ("0", null, null, false), which is valid |
| CalculatorApp.Calculator.InputNumber | src/jsMain/kotlin/Main.kt:27-34 | the new fields are `Engine.InputNumber` of the old: `num` replaces the display when waiting or when it shows "0", and is appended otherwise; the operand and operator are untouched; validity is kept for a digit label |
| CalculatorApp.Calculator.InputDecimal | src/jsMain/kotlin/Main.kt:36-43 | the new fields are `Engine.InputDecimal` of the old: "0." when waiting, a point appended when there is none, otherwise unchanged; validity is kept |
| CalculatorApp.Calculator.Clear | src/jsMain/kotlin/Main.kt:45-50 | the fields become ("0", null, null, false) |
| CalculatorApp.Calculator.PerformOperation | src/jsMain/kotlin/Main.kt:52-70 | the new fields are `Engine.PerformOperation` of the old, including the early return on a division by zero; validity is kept |
| CalculatorApp.Calculator.Calculate | src/jsMain/kotlin/Main.kt:72-79 | the new fields are `Engine.Calculate` of the old: no change with nothing pending, otherwise nothing pending and not waiting afterwards; validity is kept |
| CalculatorApp.ChainedSession | src/jsMain/kotlin/Main.kt:22-79 | a fresh calculator fed 5 + 2 × 3 = shows "6" |

## Left out

- The user interface: the Compose layout, the button grid and the label
  dispatch (`Main.kt:81-178`). These are presentation. The `Key` type only
  names the five engine calls, so that properties of whole sessions can be
  stated.
- `main` (`Main.kt:180-184`): it only mounts the composable.
- The "±" and "%" buttons: their handlers do nothing.
- `build.gradle.kts`: it is build configuration.
- IEEE `Double` arithmetic. Operands and results are exact `real` numbers.
  Rounding, `Infinity`, `NaN` and signed zero are not modelled. Neither are
  overflow and the saturation of `toInt()` for a whole result beyond the
  32-bit range: the model shows the exact integer.
- Numerals.ParseNumeral: accepts an optional '-', decimal digits and at most
  one point. It does not accept the rest of `toDoubleOrNull`'s grammar:
  exponents, a leading '+', `Infinity`, `NaN`, and surrounding whitespace.
  The model's `Format` never produces them. The program's displays can:
  the app targets JavaScript, where `result.toString()` at `Main.kt:64`
  writes e.g. "1e-7" for 1 ÷ 10000000 and "Infinity" on overflow, and digits
  typed next are appended to that text and read back at `Main.kt:53`. That
  difference is not modelled.
- Numerals.Format: renders a non-whole value with its first 15 fractional
  digits, truncated, with trailing zeros dropped. It does not reproduce
  `Double.toString`'s shortest round-trip digits or its exponent notation.
  So `Numerals.ParseFormatFraction` promises a read-back within 10^-15,
  not an exact one.
- Recomposition and concurrency of the `mutableStateOf` holders: each
  engine call is modelled as one atomic update of the fields.
