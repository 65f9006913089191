/** The keypad controller of calculator_frontend.js. The DOM display element
    becomes a `Display` value holding its text and whether the `error` class
    is set; every function that wrote to the element returns the new value. */
module Keypad {
  import opened Wrappers
  import Arithmetic
  import opened Decimal

  /** The display element: its text and its `error` class. */
  datatype Display = Display(text: string, error: bool)

  /** The keys `appendDigit` accepts. */
  const ValidDigits: seq<string> := ["0", "1", "2", "3", "4", "5", "6", "7", "8", "9", "."]

  /** `clearDisplay`: the text becomes "0"; the error class is left alone. */
  function ClearDisplay(d: Display): Display {
    d.(text := "0")
  }

  /** `showError`: the message is shown and the error class set. */
  function ShowError(d: Display, message: string): Display {
    Display(message, true)
  }

  /** `clearError`: the error class is removed; the text is left alone. */
  function ClearError(d: Display): Display {
    d.(error := false)
  }

  /** `getDisplayValue`: the number the text starts with, if any. */
  function DisplayValue(d: Display): Option<real> {
    Parse(d.text)
  }

  /** The number of decimal points in a buffer. */
  function Dots(s: string): nat {
    multiset(s)['.']
  }

  // ---- Buffer edits ----

  /** `appendDigit`: refuses anything but a digit or '.'; ignores a second
      point; replaces a lone "0" with a digit; otherwise appends. */
  function AppendDigit(text: string, digit: string): (r: Result<string, string>)
    ensures r.Err? <==> digit !in ValidDigits
    ensures r.Err? ==> r.error == "Invalid digit: " + digit
    ensures r.Ok? && digit == "." && '.' in text ==> r.value == text
    ensures r.Ok? && text == "0" && digit != "." ==> r.value == digit
    ensures r.Ok? && !(digit == "." && '.' in text) && !(text == "0" && digit != ".")
      ==> r.value == text + digit
  {
    if digit !in ValidDigits then Err("Invalid digit: " + digit)
    else if digit == "." && '.' in text then Ok(text)
    else if text == "0" && digit != "." then Ok(digit)
    else Ok(text + digit)
  }

  /** `backspace`: drops the last character, but never leaves the buffer
      empty: a buffer of at most one character, or "0", becomes "0". */
  function Backspace(text: string): (r: string)
    ensures |r| > 0
    ensures |text| <= 1 || text == "0" ==> r == "0"
    ensures |text| > 1 ==> r == text[..|text| - 1]
  {
    if |text| <= 1 || text == "0" then "0" else text[..|text| - 1]
  }

  /** `toggleSign`: shows the negated value when the text starts with a
      number, and leaves the text alone otherwise. */
  function ToggleSign(text: string): string {
    ShowNegation(Parse(text), text)
  }

  /** What `toggleSign` shows once `parseNumber` has read `text`. */
  function ShowNegation(p: Option<real>, text: string): string {
    match p
    case Some(v) => Format(-v)
    case None => text
  }

  /** A number read from the text is shown negated. */
  lemma ShowsNegation(p: Option<real>, text: string, v: real)
    requires p == Some(v)
    ensures ShowNegation(p, text) == Format(-v)
  {
  }

  /** When no number could be read, the text stays as it was. */
  lemma ShowsText(p: Option<real>, text: string)
    requires p.None?
    ensures ShowNegation(p, text) == text
  {
  }

  /** A buffer with at most one point keeps at most one point, whatever is
      appended to it. */
  lemma AppendKeepsOnePoint(text: string, digit: string)
    requires Dots(text) <= 1
    requires AppendDigit(text, digit).Ok?
    ensures Dots(AppendDigit(text, digit).value) <= 1
  {
    var r := AppendDigit(text, digit).value;
    if digit == "." && '.' in text {
    } else if text == "0" && digit != "." {
      assert digit in ValidDigits;
      assert digit[0] != '.' && multiset(digit) == multiset{digit[0]};
    } else {
      assert multiset(r) == multiset(text) + multiset(digit);
      if digit == "." {
        assert Dots(text) == 0;
      } else {
        assert digit in ValidDigits;
        assert multiset(digit) == multiset{digit[0]};
      }
    }
  }

  /** Backspace takes back any append that changed a non-empty buffer. */
  lemma BackspaceUndoesAppend(text: string, digit: string)
    requires |text| > 0
    requires AppendDigit(text, digit).Ok?
    requires AppendDigit(text, digit).value != text
    ensures Backspace(AppendDigit(text, digit).value) == text
  {
    assert digit in ValidDigits;
    var r := AppendDigit(text, digit).value;
    if text == "0" && digit != "." {
      assert |r| == 1;
    } else {
      assert r == text + digit && |digit| == 1;
      assert r[..|r| - 1] == text;
    }
  }

  /** Toggling the sign shows a text that reads back as the negated value,
      for any text that starts with a number with at most ten decimal places. */
  lemma ToggleSignNegates(text: string, v: real)
    requires Parse(text) == Some(v) && IsScaled(v)
    ensures Parse(ToggleSign(text)) == Some(-v)
  {
    ToggleOfNumber(text, v);
    NegatedReadsBack(v);
  }

  /** Text that starts with a number toggles to the negated value's text. */
  lemma ToggleOfNumber(text: string, v: real)
    requires Parse(text) == Some(v)
    ensures ToggleSign(text) == Format(-v)
  {
    ShowsNegation(Parse(text), text, v);
  }

  /** Toggling the sign twice shows the original value again, in its
      canonical form. */
  lemma ToggleSignTwice(text: string, v: real)
    requires Parse(text) == Some(v) && IsScaled(v)
    ensures ToggleSign(ToggleSign(text)) == Format(v)
  {
    ToggleSignNegates(text, v);
    var t := ToggleSign(text);
    assert ToggleSign(t) == Format(- -v);
    assert - -v == v;
  }

  // ---- Binary operations ----

  /** The operator symbols `performCalculation` knows. */
  predicate IsOperator(op: string) {
    op in ["+", "-", "*", "×", "/", "÷"]
  }

  predicate IsDivision(op: string) {
    op == "/" || op == "÷"
  }

  /** The exact value of `a op b`, written with plain real arithmetic: the
      reference `PerformCalculation` is compared against. */
  function Exact(a: real, op: string, b: real): real
    requires IsOperator(op) && !(IsDivision(op) && b == 0.0)
  {
    if op == "+" then a + b
    else if op == "-" then a - b
    else if op == "*" || op == "×" then a * b
    else a / b
  }

  /** Whether `performCalculation(first, op, second)` fails. */
  predicate Fails(first: Option<real>, op: string, second: Option<real>) {
    first.None? || second.None? || !IsOperator(op) || (IsDivision(op) && second == Some(0.0))
  }

  /** The `switch` inside `performCalculation`, over the backend primitives:
      the exact value, or the message of the error it shows. */
  function Evaluate(a: real, op: string, b: real): (r: Result<real, string>)
    ensures r.Err? <==> !IsOperator(op) || (IsDivision(op) && b == 0.0)
    ensures r.Ok? ==> r.value == Exact(a, op, b)
    ensures !IsOperator(op) ==> r == Err("Unknown operator")
    ensures IsDivision(op) && b == 0.0 ==> r == Err(Arithmetic.Message(Arithmetic.DivisionByZero))
  {
    if op == "+" then Ok(Arithmetic.Add(a, b))
    else if op == "-" then Ok(Arithmetic.Subtract(a, b))
    else if op == "*" || op == "×" then Ok(Arithmetic.Multiply(a, b))
    else if op == "/" || op == "÷" then
      match Arithmetic.Divide(a, b)
      case Ok(q) => Ok(q)
      case Err(e) => Err(Arithmetic.Message(e))
    else Err("Unknown operator")
  }

  /** `performCalculation`: clears the error class, then either shows and
      returns the result rounded to ten places, or shows an error, sets the
      error class and returns `None` (the source's `null`). It fails exactly
      on a missing operand, an unknown operator or a division by zero, and a
      shown result reads back as the returned value. */
  function PerformCalculation(d: Display, first: Option<real>, op: string, second: Option<real>)
    : (r: (Option<real>, Display))
    ensures r.0.None? <==> Fails(first, op, second)
    ensures r.1.error <==> r.0.None?
    ensures r.0.Some? ==> r.0.value == RoundTo(Exact(first.value, op, second.value))
    ensures r.0.Some? ==> r.1.text == Format(r.0.value) && DisplayValue(r.1) == r.0
    ensures (first.None? || second.None?) ==> r.1.text == "Invalid input"
    ensures first.Some? && second.Some? && !IsOperator(op) ==> r.1.text == "Unknown operator"
    ensures first.Some? && IsDivision(op) && second == Some(0.0)
      ==> r.1.text == Arithmetic.Message(Arithmetic.DivisionByZero)
  {
    var cleared := ClearError(d);
    if first.None? || second.None? then (None, ShowError(cleared, "Invalid input"))
    else
      match Evaluate(first.value, op, second.value)
      case Err(message) => (None, ShowError(cleared, message))
      case Ok(v) =>
        var result := RoundTo(v);
        ParseFormat(result);
        (Some(result), cleared.(text := Format(result)))
  }

  // ---- The controller ----

  /** The closure state of `createCalculatorController` and its display. */
  datatype Controller = Controller(
    firstOperand: Option<real>,
    currentOperator: Option<string>,
    waiting: bool,
    display: Display)

  /** `createCalculatorController(display)`. */
  function Init(d: Display): Controller {
    Controller(None, None, false, d)
  }

  /** JavaScript truthiness of `currentOperator`: set and not empty. */
  predicate HasPendingOperator(c: Controller) {
    c.currentOperator.Some? && c.currentOperator.value != ""
  }

  /** `inputDigit`: while waiting, the display is reset to "0" and waiting
      cleared first, then the digit is appended. An invalid digit throws
      after that reset; the thrown message is the second component. */
  function InputDigit(c: Controller, digit: string): (r: (Controller, Option<string>))
    ensures !r.0.waiting
    ensures r.0.firstOperand == c.firstOperand && r.0.currentOperator == c.currentOperator
    ensures r.0.display.error == c.display.error
    ensures r.1.Some? <==> digit !in ValidDigits
    ensures var base := if c.waiting then "0" else c.display.text;
      match AppendDigit(base, digit)
      case Ok(t) => r.0.display.text == t
      case Err(_) => r.0.display.text == base
  {
    var c1 := if c.waiting then c.(display := ClearDisplay(c.display), waiting := false) else c;
    match AppendDigit(c1.display.text, digit)
    case Ok(t) => (c1.(display := c1.display.(text := t)), None)
    case Err(message) => (c1, Some(message))
  }

  /** Whether `inputOperator` resolves the pending operation first. */
  predicate Resolves(c: Controller) {
    c.firstOperand.Some? && HasPendingOperator(c) && !c.waiting
  }

  /** `inputOperator(op)`: the first operator captures the display value as
      the first operand; a later one, when an operator is pending and a
      second operand has been typed, resolves the pending operation and
      keeps the first operand if that fails. It always ends with `op`
      pending and the controller waiting for the next operand. */
  function InputOperator(c: Controller, op: string): (r: Controller)
    ensures r.currentOperator == Some(op) && r.waiting
    ensures c.firstOperand.None? ==> r.firstOperand == DisplayValue(c.display) && r.display == c.display
    ensures c.firstOperand.Some? && !Resolves(c) ==> r.firstOperand == c.firstOperand && r.display == c.display
    ensures Resolves(c) ==>
      var p := PerformCalculation(c.display, c.firstOperand, c.currentOperator.value, DisplayValue(c.display));
      && r.display == p.1
      && r.firstOperand == (if p.0.Some? then p.0 else c.firstOperand)
  {
    var value := DisplayValue(c.display);
    var c1 :=
      if c.firstOperand.None? then c.(firstOperand := value)
      else if HasPendingOperator(c) && !c.waiting then
        var p := PerformCalculation(c.display, c.firstOperand, c.currentOperator.value, value);
        c.(firstOperand := if p.0.Some? then p.0 else c.firstOperand, display := p.1)
      else c;
    c1.(currentOperator := Some(op), waiting := true)
  }

  /** `calculate()` (the equals key): nothing happens with no operator set or
      while waiting. Otherwise a successful resolution stores the result as
      the first operand, clears the operator and waits; a failed one shows
      the error and leaves the three state fields as they were. */
  function Calculate(c: Controller): (r: Controller)
    ensures c.currentOperator.None? || c.waiting ==> r == c
    ensures c.currentOperator.Some? && !c.waiting ==>
      var p := PerformCalculation(c.display, c.firstOperand, c.currentOperator.value, DisplayValue(c.display));
      && r.display == p.1
      && (p.0.Some? ==> r.firstOperand == p.0 && r.currentOperator.None? && r.waiting)
      && (p.0.None? ==> r == c.(display := p.1))
  {
    if c.currentOperator.None? || c.waiting then c
    else
      var p := PerformCalculation(c.display, c.firstOperand, c.currentOperator.value, DisplayValue(c.display));
      if p.0.Some? then Controller(p.0, None, true, p.1)
      else c.(display := p.1)
  }

  /** `clear()` (C): back to the initial state with "0" shown and no error. */
  function Clear(c: Controller): (r: Controller)
    ensures r == Init(Display("0", false))
  {
    Controller(None, None, false, ClearError(ClearDisplay(c.display)))
  }

  /** `clearEntry()` (CE): only the display is reset. */
  function ClearEntry(c: Controller): (r: Controller)
    ensures r.display == Display("0", false)
    ensures r.firstOperand == c.firstOperand && r.currentOperator == c.currentOperator && r.waiting == c.waiting
  {
    c.(display := ClearError(ClearDisplay(c.display)))
  }

  /** The controller's `backspace()`: ignored while waiting. */
  function BackspaceKey(c: Controller): (r: Controller)
    ensures c.waiting ==> r == c
    ensures !c.waiting ==> r == c.(display := c.display.(text := Backspace(c.display.text)))
  {
    if c.waiting then c else c.(display := c.display.(text := Backspace(c.display.text)))
  }

  /** The controller's `toggleSign()`: only the display text changes, and
      it changes as `toggleSign` changes it (see `ToggleOfText` and
      `ToggleSignNegates`). */
  function ToggleSignKey(c: Controller): (r: Controller)
    ensures r.firstOperand == c.firstOperand && r.currentOperator == c.currentOperator
    ensures r.waiting == c.waiting && r.display.error == c.display.error
    ensures r.display.text == ToggleSign(c.display.text)
  {
    c.(display := c.display.(text := ToggleSign(c.display.text)))
  }

  /** Text that does not start with a number is left as it is. */
  lemma ToggleOfText(text: string)
    requires Parse(text).None?
    ensures ToggleSign(text) == text
  {
    ShowsText(Parse(text), text);
  }

  // ---- Key sequences ----

  /** One key press, as `initCalculator` wires the buttons. */
  datatype Key =
    | DigitKey(digit: string)
    | OperatorKey(op: string)
    | EqualsKey
    | ClearKey
    | ClearEntryKey
    | BackKey
    | SignKey

  /** Handles one press. A digit key that throws still leaves the reset it
      made before throwing. */
  function Press(c: Controller, k: Key): Controller {
    match k
    case DigitKey(d) => InputDigit(c, d).0
    case OperatorKey(op) => InputOperator(c, op)
    case EqualsKey => Calculate(c)
    case ClearKey => Clear(c)
    case ClearEntryKey => ClearEntry(c)
    case BackKey => BackspaceKey(c)
    case SignKey => ToggleSignKey(c)
  }

  /** Handles the presses in order. */
  function Type(c: Controller, keys: seq<Key>): Controller
    decreases |keys|
  {
    if |keys| == 0 then c else Type(Press(c, keys[0]), keys[1..])
  }

  /** Typing two runs of keys one after the other is typing them joined. */
  lemma {:induction false} TypeAppend(c: Controller, a: seq<Key>, b: seq<Key>)
    ensures Type(c, a + b) == Type(Type(c, a), b)
    decreases |a|
  {
    if |a| == 0 {
      assert a + b == b;
    } else {
      assert (a + b)[0] == a[0] && (a + b)[1..] == a[1..] + b;
      TypeAppend(Press(c, a[0]), a[1..], b);
    }
  }

  /** The controller waits for a second operand only when it has an operator
      pending or a result standing as first operand. */
  predicate WaitingHasOperand(c: Controller) {
    c.waiting ==> c.currentOperator.Some? || c.firstOperand.Some?
  }

  /** Every key press keeps `WaitingHasOperand`. */
  lemma PressKeepsWaitingHasOperand(c: Controller, k: Key)
    requires WaitingHasOperand(c)
    ensures WaitingHasOperand(Press(c, k))
  {
  }

  /** Whatever keys are pressed from a state where `WaitingHasOperand`
      holds, it keeps holding. */
  lemma {:induction false} TypeKeepsWaitingHasOperand(c: Controller, keys: seq<Key>)
    requires WaitingHasOperand(c)
    ensures WaitingHasOperand(Type(c, keys))
    decreases |keys|
  {
    if |keys| > 0 {
      PressKeepsWaitingHasOperand(c, keys[0]);
      TypeKeepsWaitingHasOperand(Press(c, keys[0]), keys[1..]);
    }
  }

  // ---- Quirks the source has ----

  /** A digit typed while waiting starts from "0": a point gives "0.". */
  lemma PointWhileWaiting(c: Controller)
    requires c.waiting
    ensures InputDigit(c, ".").0.display.text == "0."
    ensures InputDigit(c, ".").1.None?
  {
  }

  /** After `=`, a new operator does not capture the number typed since:
      the first operand is already set and no operator is pending, so the
      standing result stays the first operand. */
  lemma OperatorAfterEqualsKeepsResult(c: Controller, digits: seq<Key>, op: string)
    requires c.firstOperand.Some? && c.currentOperator.None?
    requires forall i :: 0 <= i < |digits| ==> digits[i].DigitKey?
    ensures Type(c, digits).firstOperand == c.firstOperand
    ensures InputOperator(Type(c, digits), op).firstOperand == c.firstOperand
  {
    DigitsKeepOperands(c, digits);
  }

  /** Digit keys never touch the operand or the operator. */
  lemma {:induction false} DigitsKeepOperands(c: Controller, digits: seq<Key>)
    requires forall i :: 0 <= i < |digits| ==> digits[i].DigitKey?
    ensures Type(c, digits).firstOperand == c.firstOperand
    ensures Type(c, digits).currentOperator == c.currentOperator
    decreases |digits|
  {
    if |digits| > 0 {
      DigitsKeepOperands(Press(c, digits[0]), digits[1..]);
    }
  }

  /** A division by zero at `=` shows the error, sets the error class and
      leaves the operand, the operator and the waiting flag as they were, so
      the controller can go on once the error is cleared. */
  lemma DivisionByZeroAtEquals(c: Controller)
    requires c.firstOperand.Some? && c.currentOperator == Some("/") && !c.waiting
    requires DisplayValue(c.display) == Some(0.0)
    ensures Calculate(c).display == Display("Cannot divide by zero", true)
    ensures Calculate(c).firstOperand == c.firstOperand
    ensures Calculate(c).currentOperator == c.currentOperator
    ensures Calculate(c).waiting == c.waiting
  {
  }
}
