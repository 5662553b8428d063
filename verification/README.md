# calculaterm: the calculator state machine, in Dafny

calculaterm is a terminal calculator. Its logic is a single state object,
`CalcState`, with six fields:

- `display`: the line shown to the user;
- `input`: the text being typed;
- `result`: the last result;
- `error`: an error message;
- `operator`: the pending operator;
- `operand`: the pending left-hand value.

Button presses drive it through a few transitions: `clear`, `update_input`,
`invert_input`, `update_operator`, `calculate` and the private
`update_display`. The keypad maps labels to kinds of button and back, and
`press` routes each kind of button to one transition.

This project models that core in four modules:

- `Operations` (`operations.dfy`): the four operators and the arithmetic they
  stand for.
- `NumberText` (`number_text.dfy`): the three pieces of Rust's standard
  library the calculator uses to turn numbers into text and back. These are
  fixed-point formatting `{:.10}`, `str::parse::<f64>` and `f64::to_string`,
  all stated concretely on real numbers. It also holds the
  trailing-`'0'`-then-`'.'` trimming the display applies. The display text is
  proved to parse back to the value rounded to ten decimals, and `to_string`
  of a value with at most 20 decimals is proved to round-trip through
  `parse`.
- `State` (`state.dfy`): each transition as a function on a value of the six
  fields (`Snapshot`); two invariants; and the class `CalcState`, whose
  methods update the fields in place. Each method is proved to leave exactly
  the state its function describes. `Consistent` holds of every state the
  calculator as written reaches:
  - the display is never empty;
  - an error is one of the two messages, with no result and no typed value;
  - a result comes with its operand and operator, and nothing typed.

  `Valid` adds that the display shows the error, or else the result. The
  code as written breaks `Valid`, because `calculate` never refreshes the
  display (see Findings). The corrected variant keeps it.
- `Buttons` (`buttons.dfy`): `ButtonType`, its `press` method, the labels
  with both round trips, and `Step`/`Run`, which give the state a press, or a
  sequence of presses, leads to. `PressCorrected` and `StepCorrected` are the
  same with the display refreshed after '='.

`Scenarios` (`scenarios.dfy`) works whole key sequences through to the state
they leave: `a op b =`, a repeated `=`, `a op =`, and `a + b + c =`.
`wrappers.dfy` holds the `Option` type.

Numbers are Dafny `real`s, and arithmetic is exact. Two behaviours of the
code differ from what one might expect of a calculator. The model follows the code in both:

- A repeated `=` applies the operator to the held operand and the previous
  result. `5 + 3 = =` holds 13, not 11.
- An operator pressed while an operand is held only replaces the operator.
  It neither computes nor takes the typed text as operand, so `5 + 3 + 2 =`
  adds 32 to 5.

The machine starts from `CalcState::new()`, whose display is `"0"`.

## Model

| member | source | states |
|---|---|---|
| Operations.Operator.Calculate | src/operations.rs:9-17 | each operator gives its arithmetic result; there is no result exactly when dividing by zero |
| Operations.Commutative | src/operations.rs:12-14 | adding and multiplying do not depend on operand order (also true of f64) |
| NumberText.NatDigits | src/state.rs:44-47 | the digits of n have no leading zero, are never empty and spell n |
| NumberText.TrimEndPrefix | src/state.rs:45-46 | `trim_end_matches` leaves a prefix of its input |
| NumberText.TrimEndLast | src/state.rs:45-46 | what `trim_end_matches(c)` leaves is empty or does not end in c |
| NumberText.TrimEndConcat | src/state.rs:45-46 | trimming a concatenation reaches into the front only when the back trims away entirely |
| NumberText.TrimNumber | src/state.rs:45-46 | trimming '0's then '.'s leaves a prefix of the text that does not end in '.' |
| NumberText.TrimmedDecimalText | src/state.rs:44-47 | trimming `{:.p}` text drops the fraction's trailing zeros, and the '.' when nothing is left after it |
| NumberText.TrimmedDecimalShape | src/state.rs:44-47 | trimmed text is non-empty, never ends in '.', ends in a non-zero digit when it keeps a '.', and keeps the sign and integer part |
| NumberText.FormatNumber | src/state.rs:44-47 | the displayed text for a number is never empty |
| NumberText.FormatNumberShape | src/state.rs:44-47 | the displayed number never ends in '.', has no trailing '0' after a '.', and starts with the sign and integer part of the value rounded |
| NumberText.FormatNumberParses | src/state.rs:44-47 | the displayed text parses back to the value rounded to ten decimals |
| NumberText.Parse | src/state.rs:80 | text that parses has a digit |
| NumberText.ParseDigits | src/state.rs:80 | a string of digits parses to the number it spells |
| NumberText.ParseUnsignedDecimal | src/state.rs:80 | digits with an optional '.' and fraction parse to all the digits over ten to the fraction's length |
| NumberText.ParsePlaces | src/state.rs:80 | a value that parses has no more decimals than its text has after the '.' |
| NumberText.ToString | src/state.rs:89 | `to_string` writes non-empty text that does not end in '.' |
| NumberText.ToStringParses | src/state.rs:89 | `to_string` of a value with at most 20 decimals parses back to that value |
| State.InputValueOf | src/state.rs:74-85 | a typed value exists only when something is typed, and has no more decimals than the text has after its '.' |
| State.TypedTextValue | src/state.rs:74-85 | text of digits and '.'s, other than a lone '.', has a value exactly when it has at most one '.' and at least one digit |
| State.SecondDotInvalid | src/state.rs:77-80 | text with two '.'s has no value |
| State.InputDigitsValue | src/state.rs:74-85 | typed digits have the value they spell |
| State.FormatInteger | src/state.rs:44-47 | an integer is displayed as its digits, after '-' when negative, with no '.' |
| State.InitialValid | src/state.rs:14-23 | the state `new` builds satisfies `Valid`, and so `Consistent` |
| State.FreshEntryAfterFinish | src/state.rs:63-72 | after a result or an error, typing c leaves only c typed, with nothing else held |
| State.UpdateInputAppends | src/state.rs:63-72 | otherwise typing appends c and leaves operand, operator, result and error alone |
| State.InvertFrame | src/state.rs:87-92 | inverting changes only the typed text and display, and nothing when the text has no value |
| State.InvertNegates | src/state.rs:87-92 | inverting typed text of value v gives text of value -v, and shows -v when no result or error is held |
| State.InvertTwice | src/state.rs:87-92 | in a consistent state, inverting twice gives back the typed value and shows it |
| State.UpdateOperatorEffect | src/state.rs:95-103 | the operator is always replaced; a typed value becomes the operand only when none is held; the display is untouched |
| State.CalculateAsWrittenCases | src/state.rs:107-137 | all outcomes of `calculate` as written: no-op, calculation error, divide-by-zero reset, or result with typed text dropped and display unchanged |
| State.AfterCalculateShows | src/state.rs:107-137 | with the refresh, the display after `calculate` shows its error or its result |
| State.RepeatedEquals | src/state.rs:109-112 | '=' after a result, with nothing typed, applies the operator to the held operand and that result and changes nothing else, the display included; a zero divisor resets |
| State.UpdateInputKeepsValid | src/state.rs:63-72 | typing keeps `Valid`, whatever the state before |
| State.InvertKeepsValid | src/state.rs:87-92 | inverting keeps `Consistent`, and keeps `Valid` |
| State.UpdateOperatorKeepsValid | src/state.rs:95-103 | choosing an operator keeps `Consistent`, and keeps `Valid` |
| State.CalculateAsWrittenKeepsConsistent | src/state.rs:107-137 | `calculate` as written keeps `Consistent` |
| State.CalculateKeepsValid | src/state.rs:107-137 | the corrected `calculate` keeps `Valid` |
| State.CalculateAsWrittenHidesResult | src/state.rs:107-137 | as written, with 5 + held and 3 typed, `calculate` holds 8 but the display still reads "3", breaking `Valid` |
| State.AfterCalculateShowsResult | src/state.rs:107-137 | with the refresh, the same press shows "8" and keeps `Valid` |
| State.Apply | src/state.rs:115-127 | the operator match inside `calculate` computes exactly what `Operator::calculate` does, with no value when dividing by zero |
| State.CalcState.constructor | src/state.rs:14-23 | a new calculator shows "0" and holds nothing else |
| State.CalcState.Clear | src/state.rs:25-32 | clearing leaves the initial state, whatever the state before, so clearing twice is clearing once |
| State.CalcState.UpdateDisplay | src/state.rs:34-61 | the display becomes the error, else the formatted result, else the formatted typed value, else "0"; no other field changes |
| State.CalcState.UpdateInput | src/state.rs:63-72 | the fields become those of `AfterUpdateInput` (see its lemmas) |
| State.CalcState.InvertInput | src/state.rs:87-92 | the fields become those of `AfterInvert` |
| State.CalcState.UpdateOperator | src/state.rs:95-103 | the fields become those of `AfterUpdateOperator` |
| State.CalcState.CalculateWithoutRefresh | src/state.rs:107-137 | `calculate` as written: the fields become those of `CalculateAsWritten` |
| State.CalcState.Calculate | src/state.rs:107-137 | the corrected `calculate`, which refreshes the display after a calculation (see Findings) |
| Buttons.ButtonType.Press | src/buttons.rs:16-26 | `Percent` aborts and changes nothing; every other kind performs its one transition as written, as `Step` gives it, so '=' runs `calculate` without a refresh |
| Buttons.ButtonType.PressCorrected | src/buttons.rs:16-26 | the same, with '=' refreshing the display, as `StepCorrected` gives it |
| Buttons.Step | src/buttons.rs:16-26 | a press yields no state exactly when it is `Percent`, which panics |
| Buttons.StepCorrected | src/buttons.rs:16-26 | the corrected press differs from `Step` only for '=' with an operand and operator held, where it refreshes the display |
| Buttons.U8ToChar | src/buttons.rs:76-78 | for n at most 9, `u8_to_char(n)` is the digit character for n |
| Buttons.NewButton | src/buttons.rs:35-38 | a new button keeps its kind, and on the keypad its label reads back as that kind |
| Buttons.ButtonChar | src/buttons.rs:40-55 | every keypad button's label is one `button_type` accepts |
| Buttons.ButtonTypeOf | src/buttons.rs:57-73 | a label is read exactly when it is one of the 20 keypad labels, and reads as a keypad button |
| Buttons.LabelRoundTrip | src/buttons.rs:40-73 | reading back the label of any keypad button gives that button |
| Buttons.TypeRoundTrip | src/buttons.rs:57-73 | a label that is read carries that label again, except 'c' comes back as 'C' |
| Buttons.LabelsDistinct | src/buttons.rs:40-55 | distinct keypad buttons have distinct labels |
| Buttons.StepKeepsConsistent | src/buttons.rs:16-26 | every press other than `Percent` succeeds and keeps `Consistent` |
| Buttons.StepCorrectedKeepsValid | src/buttons.rs:16-26 | with '=' refreshing the display, every press other than `Percent` succeeds and keeps `Valid` |
| Buttons.RunKeepsConsistent | src/buttons.rs:16-26 | a sequence of presses fails exactly when it contains `Percent`, and otherwise ends in a consistent state |
| Buttons.RunConcat | src/buttons.rs:16-26 | pressing a then b is pressing b from where a left off |
| Buttons.TypingDigits | src/state.rs:63-72 | digits typed into a new calculator are shown as the number they spell, without leading zeros |
| Scenarios.SingleOperation | src/state.rs:107-137 | `a op b =` holds the result with operand and operator kept, while the display still shows b; dividing by zero resets, with the message set and the display "0" |
| Scenarios.RepeatedEqualsRun | src/state.rs:109-112 | `a op b = =` applies op to a and the first result |
| Scenarios.FivePlusThreeTwice | src/state.rs:109-112 | `5 + 3 = =` holds 13 |
| Scenarios.FiveDividedByZero | src/state.rs:119-123 | `5 / 0 =` resets the calculator and sets "Divide by Zero", while the display reads "0" |
| Scenarios.MissingRightOperand | src/state.rs:131-134 | `a op =` sets "Calculation Error", keeping operand and operator, while the display still shows a |
| Scenarios.OperatorBeforeEquals | src/state.rs:95-103 | `a + b + c =` adds the two-digit number bc to a |

## Left out

- `src/ui.rs` and `src/main.rs` are not part of this model. They hold the terminal drawing, the event loop and process setup, all of which is I/O. `ui.rs` starts from the derived `CalcState::default()`, whose display is `""` rather than `"0"`. The model starts from `CalcState::new()`.
- IEEE-754 arithmetic is not modelled: binary rounding, overflow to infinity, NaN and -0.0. Numbers are exact reals. No algebraic identities beyond commutativity are stated about the operators, since f64 arithmetic lacks the exact inverses that reals have.
- Operations.Operator.Calculate: returns no value for division by zero, where Rust yields an infinity or NaN. `CalcState::calculate` does not call it: it repeats the match and checks for a zero divisor before dividing. State.Apply proves that repeated match equal to this function.
- NumberText.Parse: accepts only an optional sign, digits and at most one '.'. Exponents, "inf" and "NaN" are not modelled, because typing can only produce digits, '.' and a leading '-'.
- NumberText.ToString: writes the value rounded to 20 decimals, with trailing zeros trimmed. Rust writes the shortest text that reads back as the same f64, so the two can differ for large or inexact values: 2^64 is "18446744073709551616" here but "18446744073709552000" in Rust.
- State.InvertNegates: proved only for typed text with at most 20 decimals, or a lone '.' (`ShortInput`). Longer typed fractions, such as "0." followed by 21 digits, are not covered.
- State.InvertTwice: has the same restriction to `ShortInput` text as State.InvertNegates.
- Buttons.ButtonType.Press: `Percent` panics in the source (`todo!()`). The model reports it as an aborted press that changes nothing, and gives it no other meaning.
- Buttons.U8ToChar: models `n + b'0'` with wrap-around at 256, as a release build behaves. A debug build panics for n above 207. The keypad only creates digits 0 to 9.

## Findings

| source | as written | input that shows it | evidently intended | confidence | as-written member | corrected member |
|---|---|---|---|---|---|---|
| src/state.rs:107-137 | `calculate` stores the new result or error but never calls `update_display`, and the renderer shows only `display`. A computed result is therefore not shown, and after dividing by zero the display reads "0" rather than the message. | `5 + 3 =`: result 8 is held, display still "3" | the display is refreshed after a calculation, so it shows "8" (or the error) | not executed | State.CalculateAsWrittenHidesResult (on State.CalcState.CalculateWithoutRefresh, which Buttons.ButtonType.Press and Buttons.Step use) | State.AfterCalculateShowsResult (on State.CalcState.Calculate, which Buttons.ButtonType.PressCorrected and Buttons.StepCorrected use) |
