/**
 * The calculator's keypad: what each kind of button is labelled with, how a
 * label is read back into a kind of button, and what pressing a button does
 * to the calculator.
 */
module Buttons {
  import opened Wrappers
  import opened NumberText
  import Operations
  import opened State

  /** Rust's `u8`. */
  newtype U8 = x: int | 0 <= x < 256

  /** The kinds of button; `Numeric(n)` types the digit n. */
  datatype ButtonType =
    | Operator(op: Operations.Operator)
    | Calculate
    | Decimal
    | Invert
    | Clear
    | Percent
    | Numeric(n: U8)
  {
    /**
     * `press`: the transition `Step` describes. `Percent` is not implemented
     * and panics: the press aborts and the state is left as it was.
     */
    method Press(state: CalcState) returns (aborted: bool)
      modifies state
      ensures aborted <==> this == Percent
      ensures aborted ==> unchanged(state)
      ensures !aborted ==> state.Snap() == Step(old(state.Snap()), this).value
    {
      aborted := false;
      match this {
        case Clear => state.Clear();
        case Numeric(n) => state.UpdateInput(U8ToChar(n));
        case Operator(op) => state.UpdateOperator(op);
        case Decimal => state.UpdateInput('.');
        case Calculate => state.CalculateWithoutRefresh();
        case Percent => aborted := true;
        case Invert => state.InvertInput();
      }
    }

    /** `press` with '=' refreshing the display after calculating: the transition `StepCorrected` describes. */
    method PressCorrected(state: CalcState) returns (aborted: bool)
      modifies state
      ensures aborted <==> this == Percent
      ensures aborted ==> unchanged(state)
      ensures !aborted ==> state.Snap() == StepCorrected(old(state.Snap()), this).value
    {
      if this == Calculate {
        aborted := false;
        state.Calculate();
      } else {
        aborted := Press(state);
      }
    }
  }

  /** `u8_to_char`: the character with code n + '0', the sum wrapping around at 256; the digit for n when n is one. */
  function U8ToChar(n: U8): (c: char)
    ensures n <= 9 ==> c == DigitChar(n as nat)
  {
    ((n as int + '0' as int) % 256) as char
  }

  /** A button as shown: its kind and its label. */
  datatype Button = Button(buttonType: ButtonType, labelChar: char)

  /** `Button::new`: a button of kind t, labelled so that the label reads back as t. */
  function NewButton(t: ButtonType): (b: Button)
    ensures b.buttonType == t
    ensures OnKeypad(t) ==> ButtonTypeOf(b.labelChar) == Some(t)
  {
    var b := Button(t, ButtonChar(t));
    if OnKeypad(t) then LabelRoundTrip(t); b else b
  }

  /** `button_char`: the label of each kind of button, one `button_type` reads for buttons on the keypad. */
  function ButtonChar(t: ButtonType): (c: char)
    ensures OnKeypad(t) ==> c in Labels
  {
    match t
    case Operator(op) =>
      (match op
       case Add => '+'
       case Subtract => '-'
       case Multiply => 'x'
       case Divide => '/')
    case Calculate => '='
    case Decimal => '.'
    case Invert => '±'
    case Clear => 'C'
    case Percent => '%'
    case Numeric(n) => U8ToChar(n)
  }

  /** `button_type`: the kind of button a label stands for, if any; 'c' is accepted for Clear as well as 'C'. */
  function ButtonTypeOf(c: char): (r: Option<ButtonType>)
    ensures r.Some? <==> c in Labels
    ensures r.Some? ==> OnKeypad(r.value)
  {
    match c
    case '+' => Some(Operator(Operations.Add))
    case '-' => Some(Operator(Operations.Subtract))
    case 'x' => Some(Operator(Operations.Multiply))
    case '/' => Some(Operator(Operations.Divide))
    case '=' => Some(Calculate)
    case '.' => Some(Decimal)
    case '±' => Some(Invert)
    case 'C' => Some(Clear)
    case 'c' => Some(Clear)
    case '%' => Some(Percent)
    case _ =>
      if IsDigit(c) then Some(Numeric((c as int - '0' as int) as U8))
      else None
  }

  /** The labels `button_type` accepts. */
  const Labels: set<char> := {'+', '-', 'x', '/', '=', '.', '±', 'C', 'c', '%',
                              '0', '1', '2', '3', '4', '5', '6', '7', '8', '9'}

  /** A kind of button that is on the keypad: every kind, with digits 0 to 9 only. */
  predicate OnKeypad(t: ButtonType)
  {
    t.Numeric? ==> t.n <= 9
  }

  // ---------------------------------------------------------------------------
  // Labels

  /** Reading back the label of a button on the keypad gives back that button. */
  lemma LabelRoundTrip(t: ButtonType)
    requires OnKeypad(t)
    ensures ButtonTypeOf(ButtonChar(t)) == Some(t)
  {
  }

  /** What a label is read as carries that label again, except that 'c' comes back as 'C'. */
  lemma TypeRoundTrip(c: char)
    ensures ButtonTypeOf(c).Some? ==> ButtonChar(ButtonTypeOf(c).value) == (if c == 'c' then 'C' else c)
  {
  }

  /** Different buttons on the keypad have different labels. */
  lemma LabelsDistinct(a: ButtonType, b: ButtonType)
    requires OnKeypad(a) && OnKeypad(b) && a != b
    ensures ButtonChar(a) != ButtonChar(b)
  {
    LabelRoundTrip(a);
    LabelRoundTrip(b);
  }

  // ---------------------------------------------------------------------------
  // Pressing buttons

  /** The state after pressing t, or `None` exactly when the press panics. */
  function Step(s: Snapshot, t: ButtonType): (r: Option<Snapshot>)
    ensures r.None? <==> t == Percent
  {
    match t
    case Clear => Some(Initial())
    case Numeric(n) => Some(AfterUpdateInput(s, U8ToChar(n)))
    case Operator(op) => Some(AfterUpdateOperator(s, op))
    case Decimal => Some(AfterUpdateInput(s, '.'))
    case Calculate => Some(CalculateAsWritten(s))
    case Percent => None
    case Invert => Some(AfterInvert(s))
  }

  /** `Step`, with '=' refreshing the display after calculating. */
  function StepCorrected(s: Snapshot, t: ButtonType): (r: Option<Snapshot>)
    ensures r == if t == Calculate && s.operand.Some? && s.operator.Some? then Some(Refreshed(Step(s, t).value)) else Step(s, t)
  {
    if t == Calculate then Some(AfterCalculate(s)) else Step(s, t)
  }

  /** The state after pressing the buttons of ts in order, or `None` when one of them panics. */
  function Run(s: Snapshot, ts: seq<ButtonType>): Option<Snapshot>
  {
    if ts == [] then Some(s)
    else match Run(s, ts[..|ts| - 1])
      case None => None
      case Some(m) => Step(m, ts[|ts| - 1])
  }

  /** Every press that does not panic keeps the calculator consistent. */
  lemma StepKeepsConsistent(s: Snapshot, t: ButtonType)
    requires Consistent(s) && t != Percent
    ensures Step(s, t).Some? && Consistent(Step(s, t).value)
  {
    match t {
      case Clear => InitialValid();
      case Numeric(n) => UpdateInputKeepsValid(s, U8ToChar(n));
      case Operator(op) => UpdateOperatorKeepsValid(s, op);
      case Decimal => UpdateInputKeepsValid(s, '.');
      case Calculate => CalculateAsWrittenKeepsConsistent(s);
      case Invert => InvertKeepsValid(s);
    }
  }

  /** With '=' refreshing the display, every press that does not panic keeps the calculator `Valid`. */
  lemma StepCorrectedKeepsValid(s: Snapshot, t: ButtonType)
    requires Valid(s) && t != Percent
    ensures StepCorrected(s, t).Some? && Valid(StepCorrected(s, t).value)
  {
    match t {
      case Clear => InitialValid();
      case Numeric(n) => UpdateInputKeepsValid(s, U8ToChar(n));
      case Operator(op) => UpdateOperatorKeepsValid(s, op);
      case Decimal => UpdateInputKeepsValid(s, '.');
      case Calculate => CalculateKeepsValid(s);
      case Invert => InvertKeepsValid(s);
    }
  }

  /** A run panics exactly when it presses Percent; otherwise it ends consistent. */
  lemma {:induction false} RunKeepsConsistent(s: Snapshot, ts: seq<ButtonType>)
    requires Consistent(s)
    ensures Run(s, ts).Some? <==> Percent !in ts
    ensures Run(s, ts).Some? ==> Consistent(Run(s, ts).value)
  {
    if ts != [] {
      var init := ts[..|ts| - 1];
      RunKeepsConsistent(s, init);
      assert ts == init + [ts[|ts| - 1]];
      if Run(s, init).Some? && ts[|ts| - 1] != Percent {
        StepKeepsConsistent(Run(s, init).value, ts[|ts| - 1]);
      }
    }
  }

  /** Pressing one more button after a run that reaches m is the press from m. */
  lemma RunStep(s: Snapshot, ts: seq<ButtonType>, t: ButtonType, m: Snapshot, m': Snapshot)
    requires Run(s, ts) == Some(m) && Step(m, t) == Some(m')
    ensures Run(s, ts + [t]) == Some(m')
  {
    assert (ts + [t])[..|ts|] == ts;
  }

  /** Pressing a + b is pressing a, then b from where a left off. */
  lemma {:induction false} RunConcat(s: Snapshot, a: seq<ButtonType>, b: seq<ButtonType>)
    ensures Run(s, a + b) == (match Run(s, a) case None => None case Some(m) => Run(m, b))
  {
    if b == [] {
      assert a + b == a;
    } else {
      var init := b[..|b| - 1];
      assert (a + b)[..|a + b| - 1] == a + init;
      RunConcat(s, a, init);
    }
  }

  // ---------------------------------------------------------------------------
  // Typing digits

  /** The keys for the digits ds. */
  function DigitKeys(ds: seq<U8>): (ts: seq<ButtonType>)
    ensures |ts| == |ds|
  {
    if ds == [] then [] else DigitKeys(ds[..|ds| - 1]) + [Numeric(ds[|ds| - 1])]
  }

  /** The text typing the digits ds produces. */
  function DigitText(ds: seq<U8>): (text: string)
    requires forall i :: 0 <= i < |ds| ==> ds[i] <= 9
    ensures |text| == |ds| && AllDigits(text)
  {
    if ds == [] then [] else
      DigitText(ds[..|ds| - 1]) + [U8ToChar(ds[|ds| - 1])]
  }

  /** A fresh calculator shows digits typed into it as the number they spell, without leading zeros. */
  lemma {:induction false} TypingDigits(ds: seq<U8>)
    requires ds != [] && forall i :: 0 <= i < |ds| ==> ds[i] <= 9
    ensures Run(Initial(), DigitKeys(ds)) ==
              Some(Snapshot(NatDigits(DigitsValue(DigitText(ds))), Some(DigitText(ds)), None, None, None, None))
  {
    var init := ds[..|ds| - 1];
    var c := U8ToChar(ds[|ds| - 1]);
    var text := DigitText(ds);
    assert DigitKeys(ds)[..|ds| - 1] == DigitKeys(init);
    if init == [] {
      assert text == [c];
    } else {
      TypingDigits(init);
      assert text == DigitText(init) + [c];
    }
    var before := Run(Initial(), DigitKeys(init)).value;
    DigitsShown(before.display, text);
  }

  /** Digits typed with nothing else set are shown as the number they spell. */
  lemma DigitsShown(shown: string, text: string)
    requires text != [] && AllDigits(text)
    ensures DisplayFor(Snapshot(shown, Some(text), None, None, None, None)) == NatDigits(DigitsValue(text))
  {
    InputDigitsValue(text);
    FormatInteger(DigitsValue(text));
  }
}
