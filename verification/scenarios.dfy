/**
 * Whole sequences of presses on a fresh calculator, worked out to the state
 * they leave: one operation, a repeated '=', '=' with no right-hand value,
 * and a second operator pressed before '='.
 */
module Scenarios {
  import opened Wrappers
  import opened NumberText
  import opened Operations
  import opened State
  import Buttons

  /** Nothing typed and nothing held, as after `new` or `clear`; the display may show anything. */
  predicate Idle(s: Snapshot)
  {
    s.input.None? && s.result.None? && s.error.None? && s.operator.None? && s.operand.None?
  }

  lemma InitialIdle()
    ensures Idle(Initial())
  {
  }

  /** Typing the digit d when nothing is typed, and no result or error is held, types d and shows it. */
  lemma TypeDigit(s: Snapshot, d: Buttons.U8)
    requires d <= 9 && s.input.None? && s.result.None? && s.error.None?
    ensures Buttons.Step(s, Buttons.Numeric(d)) ==
              Some(s.(display := FormatNumber(d as real), input := Some([DigitChar(d as nat)])))
  {
    InputDigitsValue([DigitChar(d as nat)]);
  }

  /** An operator pressed with a value typed and no operand held makes that value the operand. */
  lemma OperandStep(m: Snapshot, v: real, op: Operator)
    requires InputValueOf(m.input) == Some(v) && m.operand.None?
    ensures Buttons.Step(m, Buttons.Operator(op)) == Some(m.(operand := Some(v), input := None, operator := Some(op)))
  {
  }

  /** Pressing an operator after the first digit makes that digit the operand. */
  lemma FirstOperand(s: Snapshot, a: Buttons.U8, op: Operator)
    requires Idle(s) && a <= 9
    ensures Buttons.Run(s, [Buttons.Numeric(a), Buttons.Operator(op)]) ==
              Some(Snapshot(FormatNumber(a as real), None, None, None, Some(op), Some(a as real)))
  {
    TypeDigit(s, a);
    var m1 := s.(display := FormatNumber(a as real), input := Some([DigitChar(a as nat)]));
    InputDigitsValue([DigitChar(a as nat)]);
    OperandStep(m1, a as real, op);
    Buttons.RunStep(s, [], Buttons.Numeric(a), s, m1);
    assert [] + [Buttons.Numeric(a)] == [Buttons.Numeric(a)];
    Buttons.RunStep(s, [Buttons.Numeric(a)], Buttons.Operator(op), m1, m1.(operand := Some(a as real), input := None, operator := Some(op)));
    assert [Buttons.Numeric(a)] + [Buttons.Operator(op)] == [Buttons.Numeric(a), Buttons.Operator(op)];
  }

  /** An operator pressed while an operand is held only replaces the operator. */
  lemma OperatorStep(m: Snapshot, op: Operator)
    requires m.operand.Some?
    ensures Buttons.Step(m, Buttons.Operator(op)) == Some(m.(operator := Some(op)))
  {
  }

  /** A digit pressed with text typed and no result or error held is appended to the text. */
  lemma AppendDigitStep(m: Snapshot, d: Buttons.U8)
    requires m.input.Some? && m.result.None? && m.error.None?
    ensures Buttons.Step(m, Buttons.Numeric(d)) ==
              Some(Refreshed(m.(input := Some(m.input.value + [Buttons.U8ToChar(d)]))))
  {
  }

  /**
   * '=' pressed with an operand, an operator and a typed value: the result
   * is held and the display left as it was, or division by zero resets.
   */
  lemma CalculateStep(m: Snapshot, v: real)
    requires m.operand.Some? && m.operator.Some? && InputValueOf(m.input) == Some(v)
    ensures var r := m.operator.value.Calculate(m.operand.value, v);
            Buttons.Step(m, Buttons.Calculate) ==
              if r.Some? then Some(m.(result := r, input := None))
              else Some(Initial().(error := Some(DivideByZeroMessage)))
  {
  }

  /** a op b with single digits: a is the operand, op the operator, and b is typed and shown. */
  lemma OperandOperatorDigit(s: Snapshot, a: Buttons.U8, op: Operator, b: Buttons.U8)
    requires Idle(s) && a <= 9 && b <= 9
    ensures Buttons.Run(s, [Buttons.Numeric(a), Buttons.Operator(op), Buttons.Numeric(b)]) ==
              Some(Snapshot(FormatNumber(b as real), Some([DigitChar(b as nat)]), None, None, Some(op), Some(a as real)))
  {
    var k2 := [Buttons.Numeric(a), Buttons.Operator(op)];
    FirstOperand(s, a, op);
    var m2 := Snapshot(FormatNumber(a as real), None, None, None, Some(op), Some(a as real));
    TypeDigit(m2, b);
    var m3 := m2.(display := FormatNumber(b as real), input := Some([DigitChar(b as nat)]));
    Buttons.RunStep(s, k2, Buttons.Numeric(b), m2, m3);
    assert k2 + [Buttons.Numeric(b)] == [Buttons.Numeric(a), Buttons.Operator(op), Buttons.Numeric(b)];
  }

  /** '=' after a op b: the outcome of applying op to a and b, with b still on the display. */
  lemma EqualsAfterDigit(m: Snapshot, a: Buttons.U8, op: Operator, b: Buttons.U8)
    requires a <= 9 && b <= 9
    requires m == Snapshot(FormatNumber(b as real), Some([DigitChar(b as nat)]), None, None, Some(op), Some(a as real))
    ensures var r := op.Calculate(a as real, b as real);
            Buttons.Step(m, Buttons.Calculate) ==
              if r.Some? then Some(Snapshot(FormatNumber(b as real), None, r, None, Some(op), Some(a as real)))
              else Some(Initial().(error := Some(DivideByZeroMessage)))
  {
    InputDigitsValue([DigitChar(b as nat)]);
    CalculateStep(m, b as real);
  }

  /**
   * a op b = with single digits: the result of the operation is held, with
   * the operand and operator kept, while the display still shows b;
   * dividing by zero instead resets the calculator, display "0", and sets
   * the division-by-zero message without showing it.
   */
  lemma SingleOperation(s: Snapshot, a: Buttons.U8, op: Operator, b: Buttons.U8)
    requires Idle(s) && a <= 9 && b <= 9
    ensures var r := op.Calculate(a as real, b as real);
            Buttons.Run(s, [Buttons.Numeric(a), Buttons.Operator(op), Buttons.Numeric(b), Buttons.Calculate]) ==
              if r.Some? then Some(Snapshot(FormatNumber(b as real), None, r, None, Some(op), Some(a as real)))
              else Some(Initial().(error := Some(DivideByZeroMessage)))
  {
    var k3 := [Buttons.Numeric(a), Buttons.Operator(op), Buttons.Numeric(b)];
    var m3 := Snapshot(FormatNumber(b as real), Some([DigitChar(b as nat)]), None, None, Some(op), Some(a as real));
    OperandOperatorDigit(s, a, op, b);
    EqualsAfterDigit(m3, a, op, b);
    Buttons.RunStep(s, k3, Buttons.Calculate, m3, Buttons.Step(m3, Buttons.Calculate).value);
    assert k3 + [Buttons.Calculate] == [Buttons.Numeric(a), Buttons.Operator(op), Buttons.Numeric(b), Buttons.Calculate];
  }

  /**
   * a op b = = : the second '=' applies the operator to the operand and the
   * first result, so 5 + 3 = = holds 13 (5 + 8), not 11 (8 + 3).
   */
  lemma RepeatedEqualsRun(s: Snapshot, a: Buttons.U8, op: Operator, b: Buttons.U8)
    requires Idle(s) && a <= 9 && b <= 9 && op.Calculate(a as real, b as real).Some?
    ensures var first := op.Calculate(a as real, b as real).value;
            var keys := [Buttons.Numeric(a), Buttons.Operator(op), Buttons.Numeric(b), Buttons.Calculate, Buttons.Calculate];
            Buttons.Run(s, keys).Some? &&
            Buttons.Run(s, keys).value.result == op.Calculate(a as real, first)
  {
    var k := [Buttons.Numeric(a), Buttons.Operator(op), Buttons.Numeric(b), Buttons.Calculate, Buttons.Calculate];
    SingleOperation(s, a, op, b);
    assert k[..4] == [Buttons.Numeric(a), Buttons.Operator(op), Buttons.Numeric(b), Buttons.Calculate];
    var s4 := Buttons.Run(s, k[..4]).value;
    RepeatedEquals(s4);
    assert k[..5] == k;
  }

  /** 5 + 3 = = holds 13. */
  lemma FivePlusThreeTwice(s: Snapshot)
    requires Idle(s)
    ensures var keys := [Buttons.Numeric(5), Buttons.Operator(Add), Buttons.Numeric(3), Buttons.Calculate, Buttons.Calculate];
            Buttons.Run(s, keys).Some? && Buttons.Run(s, keys).value.result == Some(13.0)
  {
    RepeatedEqualsRun(s, 5, Add, 3);
  }

  /** 5 / 0 = resets the calculator and sets the division-by-zero message, but the display reads "0". */
  lemma FiveDividedByZero(s: Snapshot)
    requires Idle(s)
    ensures Buttons.Run(s, [Buttons.Numeric(5), Buttons.Operator(Divide), Buttons.Numeric(0), Buttons.Calculate]) ==
              Some(Snapshot("0", None, None, Some(DivideByZeroMessage), None, None))
  {
    SingleOperation(s, 5, Divide, 0);
  }

  /**
   * a op = has no right-hand value: the calculation-error message is set,
   * the operand and operator stay, and the display still shows a.
   */
  lemma MissingRightOperand(s: Snapshot, a: Buttons.U8, op: Operator)
    requires Idle(s) && a <= 9
    ensures Buttons.Run(s, [Buttons.Numeric(a), Buttons.Operator(op), Buttons.Calculate]) ==
              Some(Snapshot(FormatNumber(a as real), None, None, Some(CalculationErrorMessage), Some(op), Some(a as real)))
  {
    var k := [Buttons.Numeric(a), Buttons.Operator(op), Buttons.Calculate];
    FirstOperand(s, a, op);
    assert k[..2] == [Buttons.Numeric(a), Buttons.Operator(op)];
    assert k[..3] == k;
  }

  /**
   * a + b + c = : the second '+' neither computes a + b nor takes b as an
   * operand, since an operand is already held; c is appended to the typed
   * b, and '=' adds the two-digit number bc to a.
   */
  lemma OperatorBeforeEquals(s: Snapshot, a: Buttons.U8, b: Buttons.U8, c: Buttons.U8)
    requires Idle(s) && a <= 9 && b <= 9 && c <= 9
    ensures var keys := [Buttons.Numeric(a), Buttons.Operator(Add), Buttons.Numeric(b),
                         Buttons.Operator(Add), Buttons.Numeric(c), Buttons.Calculate];
            Buttons.Run(s, keys).Some? && Buttons.Run(s, keys).value.result == Some(a as real + (10 * b + c) as real)
  {
    var k3 := [Buttons.Numeric(a), Buttons.Operator(Add), Buttons.Numeric(b)];
    var typed := [DigitChar(b as nat)];
    var m3 := Snapshot(FormatNumber(b as real), Some(typed), None, None, Some(Add), Some(a as real));
    OperandOperatorDigit(s, a, Add, b);
    var k5 := k3 + [Buttons.Operator(Add)] + [Buttons.Numeric(c)];
    var keys := k5 + [Buttons.Calculate];
    assert keys == [Buttons.Numeric(a), Buttons.Operator(Add), Buttons.Numeric(b),
                    Buttons.Operator(Add), Buttons.Numeric(c), Buttons.Calculate];
    var m5 := SecondDigit(s, k3, m3, c);
    assert typed + [Buttons.U8ToChar(c)] == [DigitChar(b as nat), Buttons.U8ToChar(c)];
    LastAdd(m5, a, b, c);
    Buttons.RunStep(s, k5, Buttons.Calculate, m5, Buttons.Step(m5, Buttons.Calculate).value);
  }

  /** With an operand held, + then a digit only appends the digit to the typed text. */
  lemma SecondDigit(s: Snapshot, ks: seq<Buttons.ButtonType>, m: Snapshot, c: Buttons.U8) returns (m': Snapshot)
    requires Buttons.Run(s, ks) == Some(m) && m.operand.Some? && m.input.Some? && m.result.None? && m.error.None?
    ensures Buttons.Run(s, ks + [Buttons.Operator(Add)] + [Buttons.Numeric(c)]) == Some(m')
    ensures m' == Refreshed(m.(operator := Some(Add), input := Some(m.input.value + [Buttons.U8ToChar(c)])))
  {
    OperatorStep(m, Add);
    var m4 := m.(operator := Some(Add));
    Buttons.RunStep(s, ks, Buttons.Operator(Add), m, m4);
    AppendDigitStep(m4, c);
    m' := Refreshed(m4.(input := Some(m.input.value + [Buttons.U8ToChar(c)])));
    Buttons.RunStep(s, ks + [Buttons.Operator(Add)], Buttons.Numeric(c), m4, m');
  }

  /** '=' after a + b + c: a added to the two digits bc read as one number. */
  lemma LastAdd(m: Snapshot, a: Buttons.U8, b: Buttons.U8, c: Buttons.U8)
    requires a <= 9 && b <= 9 && c <= 9
    requires m.operand == Some(a as real) && m.operator == Some(Add) && m.error.None?
    requires m.input == Some([DigitChar(b as nat), Buttons.U8ToChar(c)])
    ensures Buttons.Step(m, Buttons.Calculate).Some?
    ensures Buttons.Step(m, Buttons.Calculate).value.result == Some(a as real + (10 * b + c) as real)
  {
    var both := [DigitChar(b as nat), DigitChar(c as nat)];
    assert DigitsValue(both) == 10 * b as int + c as int by {
      assert both[..1] == [DigitChar(b as nat)];
      assert DigitsValue([DigitChar(b as nat)]) == b as int by {
        assert [DigitChar(b as nat)][..0] == [];
      }
    }
    InputDigitsValue(both);
    CalculateStep(m, (10 * b + c) as real);
  }
}
