/**
 * The calculator's state machine (`CalcState`): the text being typed, the
 * operand and operator waiting for a right-hand value, the last result, the
 * error message and the display line.
 *
 * Each transition is first stated on values, as a function from the state
 * before to the state after (`Snapshot`); the `CalcState` class at the end
 * performs the same transitions in place, and each of its methods is proved
 * to leave exactly the state the matching function describes.
 */
module State {
  import opened Wrappers
  import opened NumberText
  import opened Operations

  const DivideByZeroMessage: string := "Divide by Zero"
  const CalculationErrorMessage: string := "Calculation Error"

  /** The six fields of the calculator, as a value. */
  datatype Snapshot = Snapshot(
    display: string,
    input: Option<string>,
    result: Option<real>,
    error: Option<string>,
    operator: Option<Operator>,
    operand: Option<real>)

  /** A fresh calculator, and the state `clear` returns to: "0" on the display, nothing else set. */
  function Initial(): Snapshot
  {
    Snapshot("0", None, None, None, None, None)
  }

  /**
   * The value of the text being typed: a lone '.' counts as zero; text that
   * does not parse has none. A value has no more decimals than the text has
   * characters after its '.'.
   */
  function InputValueOf(input: Option<string>): (v: Option<real>)
    ensures v.Some? ==> input.Some? && HasPlaces(v.value, FractionDigits(input.value))
  {
    match input
    case None => None
    case Some(i) =>
      if i == "." then
        assert Scaled(0.0, 0) == 0.0;
        Some(0.0)
      else
        var r := Parse(i);
        if r.Some? then ParsePlaces(i); r else r
  }

  /** What the display shows: the error, else the result, else the typed value, else "0". */
  function DisplayFor(s: Snapshot): string
  {
    if s.error.Some? then s.error.value
    else if s.result.Some? then FormatNumber(s.result.value)
    else match InputValueOf(s.input)
      case Some(v) => FormatNumber(v)
      case None => "0"
  }

  /** `update_display`: the display recomputed from the other fields, which stay as they are. */
  function Refreshed(s: Snapshot): Snapshot
  {
    s.(display := DisplayFor(s))
  }

  /** `update_input`: after a result or an error, start over; then append c to the typed text and refresh. */
  function AfterUpdateInput(s: Snapshot, c: char): Snapshot
  {
    var t := if s.result.Some? || s.error.Some? then Initial() else s;
    var typed := match t.input
      case Some(i) => i + [c]
      case None => [c];
    Refreshed(t.(input := Some(typed)))
  }

  /** `invert_input`: when the typed text has a value, replace it by the text of its negation and refresh. */
  function AfterInvert(s: Snapshot): Snapshot
  {
    if InputValueOf(s.input).Some? then Inverted(s, InputValueOf(s.input).value) else s
  }

  /** The typed text replaced by the text of -v, and the display refreshed. */
  function Inverted(s: Snapshot, v: real): Snapshot
  {
    Retyped(s, -v)
  }

  /** The typed text replaced by the text `to_string` writes for x, and the display refreshed. */
  function Retyped(s: Snapshot, x: real): Snapshot
  {
    Refreshed(s.(input := Some(ToString(x))))
  }

  /** `update_operator`: the first value typed becomes the operand; the operator is always replaced. */
  function AfterUpdateOperator(s: Snapshot, op: Operator): Snapshot
  {
    var t := if s.operand.None? && InputValueOf(s.input).Some? then
               s.(operand := InputValueOf(s.input), input := None)
             else s;
    t.(operator := Some(op))
  }

  /**
   * `calculate` as written: with an operand and an operator, apply them to
   * the typed value (or, when nothing typed has a value, to the last
   * result); dividing by zero resets everything and sets the error;
   * without any right-hand value the error is set instead. The display is
   * left as it was.
   */
  function CalculateAsWritten(s: Snapshot): Snapshot
  {
    if s.operand.Some? && s.operator.Some? then
      var target := if InputValueOf(s.input).Some? then InputValueOf(s.input) else s.result;
      match target
      case None => s.(error := Some(CalculationErrorMessage), result := None)
      case Some(value) =>
        match s.operator.value.Calculate(s.operand.value, value)
        case None => Initial().(error := Some(DivideByZeroMessage))
        case Some(r) => s.(result := Some(r), input := None)
    else s
  }

  /** `calculate`, with the display refreshed after a calculation so that it shows the new result or error. */
  function AfterCalculate(s: Snapshot): Snapshot
  {
    if s.operand.Some? && s.operator.Some? then Refreshed(CalculateAsWritten(s)) else s
  }

  /**
   * What holds of every state the calculator reaches: the display is never
   * empty; an error is one of the two messages and comes without a result
   * and with no typed value; a result comes with the operand and operator
   * that produced it, with nothing typed.
   */
  predicate Consistent(s: Snapshot)
  {
    s.display != [] &&
    (s.error.Some? ==>
       (s.error.value == DivideByZeroMessage || s.error.value == CalculationErrorMessage) &&
       s.result.None? && InputValueOf(s.input).None?) &&
    (s.result.Some? ==> s.input.None? && s.operand.Some? && s.operator.Some?)
  }

  /**
   * What holds, on top, of every state the corrected calculator reaches
   * (the one that refreshes the display after `calculate`): an error is
   * what the display shows, and otherwise a result is.
   */
  predicate Valid(s: Snapshot)
  {
    Consistent(s) &&
    (s.error.Some? ==> s.display == s.error.value) &&
    (s.result.Some? ==> s.display == FormatNumber(s.result.value))
  }

  // ---------------------------------------------------------------------------
  // The typed text and its value

  /** Digits alone have the value they spell. */
  lemma InputDigitsValue(i: string)
    requires i != [] && AllDigits(i)
    ensures InputValueOf(Some(i)) == Some(DigitsValue(i) as real)
  {
    ParseDigits(i);
    assert IsDigit(i[0]);
  }

  /** A second '.' makes the typed text worthless: it has no value, and the display falls back to "0". */
  lemma SecondDotInvalid(i: string, j: nat, k: nat)
    requires j < k < |i| && i[j] == '.' && i[k] == '.'
    ensures InputValueOf(Some(i)) == None
  {
    var u := if i != [] && (i[0] == '-' || i[0] == '+') then i[1..] else i;
    var d := |i| - |u|;
    assert i != ".";
    if d == 1 {
      assert i[0] != '.';
      assert u[j - 1] == '.' && u[k - 1] == '.';
    }
    var p := IndexOf(u, '.');
    var j', k' := j - d, k - d;
    assert u[j'] == '.' && u[k'] == '.';
    var frac := u[p + 1..];
    assert frac[k' - p - 1] == '.';
  }

  // ---------------------------------------------------------------------------
  // Formatting whole numbers

  /** Padding a multiple of 10^width to `width` digits gives only zeros. */
  lemma {:induction false} PaddedZeros(n: nat, width: nat)
    requires n % Pow10(width) == 0
    ensures TrimEnd(PaddedDigits(n, width), '0') == []
  {
    if width > 0 {
      ModTen(n, Pow10(width - 1));
      var rest := PaddedDigits(n / 10, width - 1);
      assert n % 10 == 0 && (n / 10) % Pow10(width - 1) == 0;
      PaddedZeros(n / 10, width - 1);
      assert PaddedDigits(n, width) == rest + ['0'];
      assert (rest + ['0'])[..|rest|] == rest;
    }
  }

  /** A whole number scaled by 10^places needs no rounding. */
  lemma ScaledWhole(n: nat, places: nat)
    ensures ScaledMagnitude(n as real, places) == n * Pow10(places)
  {
    RealOfProduct(n, Pow10(places));
    assert Scaled(n as real, places) == (n * Pow10(places)) as real;
  }

  /** An integer is displayed as its digits, after a '-' when it is negative, with no '.'. */
  lemma FormatInteger(i: int)
    ensures FormatNumber(i as real) == (if i < 0 then "-" else "") + NatDigits(if i < 0 then -i else i)
  {
    var n: nat := if i < 0 then -i else i;
    var x := i as real;
    assert Abs(x) == n as real;
    var p := Pow10(10);
    ScaledWhole(n, 10);
    assert ScaledMagnitude(x, 10) == ScaledMagnitude(n as real, 10);
    DivModUnique(n * p, p, n, 0);
    PaddedZeros(n * p, 10);
    TrimmedDecimalText(SignText(x), n * p, 10);
    assert FixedText(x, 10) == DecimalText(SignText(x), n * p, 10);
    assert NatDigits(n) + "" == NatDigits(n);
  }

  // ---------------------------------------------------------------------------
  // Transitions

  lemma InitialValid()
    ensures Valid(Initial())
  {
  }

  /** Typing after a result or an error discards everything: only the new character is left. */
  lemma FreshEntryAfterFinish(s: Snapshot, c: char)
    requires s.result.Some? || s.error.Some?
    ensures AfterUpdateInput(s, c) == AfterUpdateInput(Initial(), c)
    ensures var t := AfterUpdateInput(s, c);
            t.input == Some([c]) && t.result.None? && t.error.None? && t.operator.None? && t.operand.None?
  {
  }

  /** Otherwise typing appends the character and leaves the operand, operator, result and error alone. */
  lemma UpdateInputAppends(s: Snapshot, c: char)
    requires s.result.None? && s.error.None?
    ensures var t := AfterUpdateInput(s, c);
            t.input == Some(if s.input.Some? then s.input.value + [c] else [c]) &&
            t.operand == s.operand && t.operator == s.operator && t.result == s.result && t.error == s.error
  {
  }

  /** Text made only of digits and '.'s, which is what typing without inverting produces. */
  predicate DigitsAndDots(i: string)
  {
    forall k :: 0 <= k < |i| ==> IsDigit(i[k]) || i[k] == '.'
  }

  predicate AtMostOneDot(i: string)
  {
    forall j, k :: 0 <= j < k < |i| && i[j] == '.' ==> i[k] != '.'
  }

  /**
   * Typed digits and '.'s other than a lone '.' have a value exactly when
   * there is at most one '.' and at least one digit: "5.", ".5" and "5.5"
   * have one, "" and "1.2.3" do not.
   */
  lemma TypedTextValue(i: string)
    requires i != "." && DigitsAndDots(i)
    ensures InputValueOf(Some(i)).Some? <==> AtMostOneDot(i) && HasDigit(i)
  {
    if i != [] {
      assert i[0] != '-' && i[0] != '+' by { assert IsDigit(i[0]) || i[0] == '.'; }
    }
    assert InputValueOf(Some(i)) == ParseUnsigned(i);
    var p := IndexOf(i, '.');
    var whole := i[..p];
    var frac := if p < |i| then i[p + 1..] else [];
    assert AllDigits(whole) by {
      forall k | 0 <= k < |whole| ensures IsDigit(whole[k]) {
        assert whole[k] == i[k] && i[k] != '.';
      }
    }
    if AtMostOneDot(i) && HasDigit(i) {
      assert AllDigits(frac) by {
        forall k | 0 <= k < |frac| ensures IsDigit(frac[k]) {
          assert frac[k] == i[p + 1 + k] && i[p] == '.';
        }
      }
      var k :| 0 <= k < |i| && IsDigit(i[k]);
      assert k < p || k > p;
      assert k < p ==> whole[k] == i[k];
    }
    if ParseUnsigned(i).Some? {
      forall j | 0 <= j < p ensures i[j] != '.' {
        assert whole[j] == i[j];
      }
      forall k | p < k < |i| ensures i[k] != '.' {
        assert frac[k - p - 1] == i[k];
      }
      if |whole| > 0 {
        assert IsDigit(i[0]) by { assert whole[0] == i[0]; }
      } else {
        assert IsDigit(i[p + 1]) by { assert frac[0] == i[p + 1]; }
      }
    }
  }

  /** Inverting changes only the typed text and the display, and changes nothing when the text has no value. */
  lemma InvertFrame(s: Snapshot)
    ensures var t := AfterInvert(s);
            t.result == s.result && t.error == s.error && t.operator == s.operator && t.operand == s.operand
    ensures InputValueOf(s.input).None? ==> AfterInvert(s) == s
  {
  }

  /**
   * Choosing an operator always sets it; the typed value moves into the
   * operand only when no operand is held and the text has a value. The
   * display is never refreshed.
   */
  lemma UpdateOperatorEffect(s: Snapshot, op: Operator)
    ensures var t := AfterUpdateOperator(s, op);
            t.operator == Some(op) && t.display == s.display && t.result == s.result && t.error == s.error &&
            (if s.operand.None? && InputValueOf(s.input).Some?
             then t.operand == InputValueOf(s.input) && t.input.None?
             else t.operand == s.operand && t.input == s.input)
  {
  }

  /**
   * The outcomes of `calculate` as written: nothing happens without an
   * operand and an operator; with no right-hand value the calculation error
   * is set and everything else stays; dividing by zero resets and sets the
   * division error; otherwise the result is the operator applied to the
   * operand and the right-hand value, the typed text is dropped, and the
   * operand and operator stay. The display only changes when resetting.
   */
  lemma CalculateAsWrittenCases(s: Snapshot)
    ensures s.operand.None? || s.operator.None? ==> CalculateAsWritten(s) == s
    ensures s.operand.Some? && s.operator.Some? ==>
              var target := if InputValueOf(s.input).Some? then InputValueOf(s.input) else s.result;
              var t := CalculateAsWritten(s);
              if target.None? then
                t == s.(error := Some(CalculationErrorMessage), result := None)
              else if s.operator.value == Divide && target.value == 0.0 then
                t == Snapshot("0", None, None, Some(DivideByZeroMessage), None, None)
              else
                t.result == s.operator.value.Calculate(s.operand.value, target.value) && t.result.Some? &&
                t.input.None? && t.display == s.display && t.error == s.error &&
                t.operand == s.operand && t.operator == s.operator
  {
  }

  /** With the refresh, the display after `calculate` always shows the error or the result it leaves. */
  lemma AfterCalculateShows(s: Snapshot)
    requires s.operand.Some? && s.operator.Some?
    ensures var t := AfterCalculate(s);
            t.display == (if t.error.Some? then t.error.value else FormatNumber(t.result.value))
  {
  }

  lemma UpdateInputKeepsValid(s: Snapshot, c: char)
    ensures Valid(AfterUpdateInput(s, c))
  {
  }

  lemma InvertKeepsValid(s: Snapshot)
    requires Consistent(s)
    ensures Consistent(AfterInvert(s))
    ensures Valid(s) ==> Valid(AfterInvert(s))
  {
  }

  lemma UpdateOperatorKeepsValid(s: Snapshot, op: Operator)
    requires Consistent(s)
    ensures Consistent(AfterUpdateOperator(s, op))
    ensures Valid(s) ==> Valid(AfterUpdateOperator(s, op))
  {
  }

  /** `calculate` as written keeps the calculator consistent, though not `Valid` (see CalculateAsWrittenHidesResult). */
  lemma CalculateAsWrittenKeepsConsistent(s: Snapshot)
    requires Consistent(s)
    ensures Consistent(CalculateAsWritten(s))
  {
  }

  /** The corrected `calculate` keeps the calculator `Valid`. */
  lemma CalculateKeepsValid(s: Snapshot)
    requires Valid(s)
    ensures Valid(AfterCalculate(s))
  {
  }

  /** Text of the kind typing produces, or `to_string` writes: a lone '.', or at most 20 decimals. */
  predicate ShortInput(i: string)
  {
    i == "." || FractionDigits(i) <= ToStringPlaces
  }

  /** Short text that has a value has at most 20 decimals. */
  lemma ShortInputPlaces(i: string, v: real)
    requires InputValueOf(Some(i)) == Some(v) && ShortInput(i)
    ensures HasPlaces(v, ToStringPlaces)
  {
    if i == "." {
      assert Scaled(v, ToStringPlaces) == 0.0;
    } else {
      ParsePlaces(i);
      HasPlacesMono(v, FractionDigits(i), ToStringPlaces);
    }
  }

  /** What `to_string` writes for a value of at most 20 decimals is short text with that value. */
  lemma ToStringInput(x: real)
    requires HasPlaces(x, ToStringPlaces)
    ensures InputValueOf(Some(ToString(x))) == Some(x)
    ensures ShortInput(ToString(x))
  {
    ToStringParses(x);
    assert Parse(".") == None;
  }

  /** Inverting, when there is a value, writes the text of its negation and refreshes. */
  lemma AfterInvertValue(s: Snapshot, v: real)
    requires InputValueOf(s.input) == Some(v)
    ensures AfterInvert(s) == Inverted(s, v)
  {
  }

  /** Inverting v writes the text of its negation w. */
  lemma InvertedRetyped(s: Snapshot, v: real, w: real)
    requires w == -v
    ensures Inverted(s, v) == Retyped(s, w)
  {
  }

  /** Text written for a short value reads back as that value, and shows it when nothing else is shown. */
  lemma RetypedValue(s: Snapshot, x: real)
    requires HasPlaces(x, ToStringPlaces)
    ensures InputValueOf(Retyped(s, x).input) == Some(x)
    ensures ShortInput(Retyped(s, x).input.value)
    ensures s.error.None? && s.result.None? ==> Retyped(s, x).display == FormatNumber(x)
  {
    ToStringInput(x);
  }

  /** Inverting negates the typed value (v becomes w, its negation), shows it, and what it writes is again short. */
  lemma InvertNegates(s: Snapshot, v: real, w: real)
    requires InputValueOf(s.input) == Some(v) && ShortInput(s.input.value) && w == -v
    ensures InputValueOf(AfterInvert(s).input) == Some(w)
    ensures ShortInput(AfterInvert(s).input.value)
    ensures s.error.None? && s.result.None? ==> AfterInvert(s).display == FormatNumber(w)
  {
    ShortInputPlaces(s.input.value, v);
    HasPlacesNegate(v, ToStringPlaces);
    AfterInvertValue(s, v);
    RetypedValue(s, w);
  }

  /** Inverting twice gives back the typed value and shows it again. */
  lemma InvertTwice(s: Snapshot, v: real)
    requires Consistent(s)
    requires InputValueOf(s.input) == Some(v) && ShortInput(s.input.value)
    ensures InputValueOf(AfterInvert(AfterInvert(s)).input) == Some(v)
    ensures AfterInvert(AfterInvert(s)).display == FormatNumber(v)
  {
    var t, w := AfterInvert(s), -v;
    InvertNegates(s, v, w);
    assert t.error.None? && t.result.None?;
    InvertNegates(t, w, v);
  }

  /**
   * Pressing '=' again after a result applies the operator to the held
   * operand and that result, and changes nothing else; dividing by a zero
   * result resets and sets the division error.
   */
  lemma RepeatedEquals(s: Snapshot)
    requires s.result.Some? && s.input.None? && s.operand.Some? && s.operator.Some?
    ensures var r := s.operator.value.Calculate(s.operand.value, s.result.value);
            CalculateAsWritten(s) ==
              if r.Some? then s.(result := r) else Initial().(error := Some(DivideByZeroMessage))
  {
  }

  /**
   * As written, `calculate` leaves the display alone, so the result it
   * computes is never shown: with 5 + pending and 3 typed, it computes 8
   * while the display still reads "3", which breaks `Valid`.
   */
  lemma CalculateAsWrittenHidesResult(s: Snapshot)
    requires s == Snapshot("3", Some("3"), None, None, Some(Add), Some(5.0))
    ensures var t := CalculateAsWritten(s);
            Valid(s) && t.result == Some(8.0) && t.display == "3" && !Valid(t)
  {
    TypedThree();
    ShownEight();
  }

  /** The corrected `calculate` shows the 8 it computes in the same situation. */
  lemma AfterCalculateShowsResult(s: Snapshot)
    requires s == Snapshot("3", Some("3"), None, None, Some(Add), Some(5.0))
    ensures var t := AfterCalculate(s);
            t.result == Some(8.0) && t.display == "8" && Valid(t)
  {
    TypedThree();
    ShownEight();
  }

  lemma TypedThree()
    ensures InputValueOf(Some("3")) == Some(3.0)
  {
    InputDigitsValue("3");
  }

  lemma ShownEight()
    ensures FormatNumber(8.0) == "8"
  {
    FormatInteger(8);
  }

  // ---------------------------------------------------------------------------
  // The calculator object

  /** The operator match inside `calculate`: the arithmetic `Operator::calculate` stands for, division by zero aside. */
  method Apply(op: Operator, left: real, value: real) returns (r: Option<real>)
    ensures r == op.Calculate(left, value)
  {
    match op {
      case Add => r := Some(left + value);
      case Subtract => r := Some(left - value);
      case Multiply =>
        r := Some(left * value);
        Applied(Multiply, left, value);
      case Divide =>
        if value == 0.0 {
          r := None;
        } else {
          r := Some(left / value);
          Applied(Divide, left, value);
        }
    }
  }

  class CalcState {
    var display: string
    var input: Option<string>
    var result: Option<real>
    var error: Option<string>
    var operator: Option<Operator>
    var operand: Option<real>

    /** The fields, as a value. */
    function Snap(): Snapshot
      reads this
    {
      Snapshot(display, input, result, error, operator, operand)
    }

    /** `CalcState::new`. */
    constructor()
      ensures Snap() == Initial()
    {
      display := "0";
      input := None;
      result := None;
      error := None;
      operator := None;
      operand := None;
    }

    method Clear()
      modifies this
      ensures Snap() == Initial()
    {
      display := "0";
      input := None;
      result := None;
      error := None;
      operator := None;
      operand := None;
    }

    method UpdateDisplay()
      modifies this
      ensures Snap() == Refreshed(old(Snap()))
    {
      if error.Some? {
        display := error.value;
        return;
      }
      if result.Some? {
        display := FormatNumber(result.value);
        return;
      }
      match InputValueOf(input) {
        case Some(value) => display := FormatNumber(value);
        case None => display := "0";
      }
    }

    method UpdateInput(n: char)
      modifies this
      ensures Snap() == AfterUpdateInput(old(Snap()), n)
    {
      if result.Some? || error.Some? {
        Clear();
      }
      match input {
        case Some(i) => input := Some(i + [n]);
        case None => input := Some([n]);
      }
      UpdateDisplay();
    }

    method InvertInput()
      modifies this
      ensures Snap() == AfterInvert(old(Snap()))
    {
      ghost var s := Snap();
      match InputValueOf(input) {
        case Some(value) =>
          var negated := -value;
          input := Some(ToString(negated));
          UpdateDisplay();
          assert Snap() == Retyped(s, negated);
          InvertedRetyped(s, value, negated);
          AfterInvertValue(s, value);
        case None =>
      }
    }

    method UpdateOperator(op: Operator)
      modifies this
      ensures Snap() == AfterUpdateOperator(old(Snap()), op)
    {
      if operand.None? {
        match InputValueOf(input) {
          case Some(value) =>
            operand := Some(value);
            input := None;
          case None =>
        }
      }
      operator := Some(op);
    }

    /** `calculate` as written: the new result or error is stored, the display is left alone. */
    method CalculateWithoutRefresh()
      modifies this
      ensures Snap() == CalculateAsWritten(old(Snap()))
    {
      if operand.Some? && operator.Some? {
        var target := match InputValueOf(input) {
          case Some(value) => Some(value)
          case None => result
        };
        if target.Some? {
          var computed := Apply(operator.value, operand.value, target.value);
          if computed.None? {
            Clear();
            error := Some(DivideByZeroMessage);
            result := None;
          } else {
            result := computed;
            input := None;
          }
        } else {
          error := Some(CalculationErrorMessage);
          result := None;
        }
      }
    }

    /** `calculate`, followed by the display refresh the source leaves out. */
    method Calculate()
      modifies this
      ensures Snap() == AfterCalculate(old(Snap()))
    {
      var ready := operand.Some? && operator.Some?;
      CalculateWithoutRefresh();
      if ready {
        UpdateDisplay();
      }
    }
  }
}
