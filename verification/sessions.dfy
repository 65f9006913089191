/** Whole sessions typed on the keypad: whole numbers entered digit by digit,
    joined by operators and closed with `=`. The keypad evaluates strictly
    left to right, with no operator precedence, rounding every intermediate
    result to ten decimal places; `Running` is that evaluation written as a
    plain left fold, and `Session` proves the keypad computes it. */
module Sessions {
  import opened Wrappers
  import opened Decimal
  import opened Keypad

  /** The controller `initCalculator` starts with. */
  function Fresh(): Controller {
    Init(Display("0", false))
  }

  /** The digit buttons pressed to type the digits of `s`. */
  function DigitKeys(s: string): (keys: seq<Key>)
    ensures |keys| == |s|
    ensures forall i :: 0 <= i < |s| ==> keys[i] == DigitKey([s[i]])
  {
    seq(|s|, i requires 0 <= i < |s| => DigitKey([s[i]]))
  }

  /** The digit buttons pressed to type the whole number `n`. */
  function NumberKeys(n: nat): seq<Key> {
    DigitKeys(NatDigits(n))
  }

  /** An operator followed by its whole-number right operand. */
  datatype Step = Step(op: string, operand: nat)

  /** Every step names a known operator and divides by a non-zero number. */
  predicate Defined(steps: seq<Step>) {
    forall i :: 0 <= i < |steps| ==>
      IsOperator(steps[i].op) && !(IsDivision(steps[i].op) && steps[i].operand == 0)
  }

  /** The keys of a run of steps: each operator, then its operand. */
  function StepKeys(steps: seq<Step>): seq<Key>
    decreases |steps|
  {
    if |steps| == 0 then []
    else [OperatorKey(steps[0].op)] + NumberKeys(steps[0].operand) + StepKeys(steps[1..])
  }

  /** Left-to-right evaluation with ten-place rounding after every step. */
  function Running(a: real, steps: seq<Step>): (r: real)
    requires Defined(steps)
    ensures |steps| > 0 ==> IsScaled(r)
    decreases |steps|
  {
    if |steps| == 0 then a
    else Running(RoundTo(Exact(a, steps[0].op, steps[0].operand as real)), steps[1..])
  }

  /** The controller after `=` has shown the result `r`. */
  function Shown(r: real): Controller {
    Controller(Some(r), None, true, Display(Format(r), false))
  }

  /** A digit button is always accepted, and is not the point. */
  lemma DigitAccepted(ch: char)
    requires IsDigit(ch)
    ensures [ch] in ValidDigits && [ch] != "."
  {
    if ch == '0' { assert ValidDigits[0] == [ch]; }
    else if ch == '1' { assert ValidDigits[1] == [ch]; }
    else if ch == '2' { assert ValidDigits[2] == [ch]; }
    else if ch == '3' { assert ValidDigits[3] == [ch]; }
    else if ch == '4' { assert ValidDigits[4] == [ch]; }
    else if ch == '5' { assert ValidDigits[5] == [ch]; }
    else if ch == '6' { assert ValidDigits[6] == [ch]; }
    else if ch == '7' { assert ValidDigits[7] == [ch]; }
    else if ch == '8' { assert ValidDigits[8] == [ch]; }
    else { assert ValidDigits[9] == [ch]; }
  }

  /** Digits typed after a buffer other than "0", not waiting, are appended
      to it one by one; nothing else changes. */
  lemma {:induction false} TypeDigits(c: Controller, s: string)
    requires !c.waiting && |c.display.text| > 0 && c.display.text != "0"
    requires AllDigits(s)
    ensures Type(c, DigitKeys(s)) == c.(display := c.display.(text := c.display.text + s))
    decreases |s|
  {
    var keys := DigitKeys(s);
    if |s| == 0 {
      assert c.display.text + s == c.display.text;
    } else {
      var c1 := c.(display := c.display.(text := c.display.text + [s[0]]));
      PressDigit(c, s[0]);
      assert keys[1..] == DigitKeys(s[1..]);
      TypeDigits(c1, s[1..]);
      assert c.display.text + [s[0]] + s[1..] == c.display.text + s;
    }
  }

  /** One digit typed after a buffer other than "0", not waiting, is
      appended to it; nothing else changes. */
  lemma PressDigit(c: Controller, ch: char)
    requires !c.waiting && |c.display.text| > 0 && c.display.text != "0"
    requires IsDigit(ch)
    ensures Press(c, DigitKey([ch])) == c.(display := c.display.(text := c.display.text + [ch]))
  {
    DigitAccepted(ch);
  }

  /** Typing a whole number, either while waiting or on a buffer showing
      "0", shows exactly its digits; operands, operator and error flag stay. */
  lemma EnterNumber(c: Controller, n: nat)
    requires c.waiting || c.display.text == "0"
    ensures Type(c, NumberKeys(n)) == c.(waiting := false, display := c.display.(text := NatDigits(n)))
  {
    var s := NatDigits(n);
    var keys := NumberKeys(n);
    DigitAccepted(s[0]);
    var c1 := Press(c, keys[0]);
    assert c1 == c.(waiting := false, display := c.display.(text := [s[0]]));
    assert keys[1..] == DigitKeys(s[1..]);
    if |s| == 1 {
      assert s == [s[0]];
    } else {
      LeadingDigitNonZero(n);
      TypeDigits(c1, s[1..]);
      assert [s[0]] + s[1..] == s;
    }
  }

  /** The controller with `v op` pending and the digits of `b` typed. */
  function Pending(v: real, op: string, b: nat): Controller {
    Controller(Some(v), Some(op), false, Display(NatDigits(b), false))
  }

  /** Resolving a pending `v op b` shows the rounded exact value. */
  lemma Resolved(v: real, op: string, b: nat)
    requires IsOperator(op) && !(IsDivision(op) && b == 0)
    ensures var d := Display(NatDigits(b), false);
      var w := RoundTo(Exact(v, op, b as real));
      PerformCalculation(d, Some(v), op, DisplayValue(d)) == (Some(w), Display(Format(w), false))
  {
    var d := Display(NatDigits(b), false);
    ParseNatDigits(b);
    assert DisplayValue(d) == Some(b as real);
    var p := PerformCalculation(d, Some(v), op, Some(b as real));
    assert p.0 == Some(RoundTo(Exact(v, op, b as real)));
    assert !p.1.error;
  }

  /** `=` on a pending `v op b` shows its rounded value. */
  lemma EqualsStep(v: real, op: string, b: nat)
    requires IsOperator(op) && !(IsDivision(op) && b == 0)
    ensures Type(Pending(v, op, b), [EqualsKey]) == Shown(RoundTo(Exact(v, op, b as real)))
  {
    Resolved(v, op, b);
    assert [EqualsKey][1..] == [];
  }

  /** Another operator and operand on a pending `v op b` resolve it first:
      its rounded value becomes the left operand of the next step. */
  lemma NextStep(v: real, op: string, b: nat, s: Step)
    requires IsOperator(op) && !(IsDivision(op) && b == 0)
    ensures Type(Pending(v, op, b), [OperatorKey(s.op)] + NumberKeys(s.operand))
      == Pending(RoundTo(Exact(v, op, b as real)), s.op, s.operand)
  {
    var w := RoundTo(Exact(v, op, b as real));
    Resolved(v, op, b);
    var c2 := Press(Pending(v, op, b), OperatorKey(s.op));
    assert c2 == Controller(Some(w), Some(s.op), true, Display(Format(w), false));
    assert ([OperatorKey(s.op)] + NumberKeys(s.operand))[1..] == NumberKeys(s.operand);
    EnterNumber(c2, s.operand);
  }

  /** The steps after the first are defined when all are. */
  lemma DefinedTail(steps: seq<Step>)
    requires |steps| > 0 && Defined(steps)
    ensures Defined(steps[1..])
  {
    forall i | 0 <= i < |steps[1..]|
      ensures IsOperator(steps[1..][i].op) && !(IsDivision(steps[1..][i].op) && steps[1..][i].operand == 0)
    {
      assert steps[1..][i] == steps[i + 1];
    }
  }

  /** From a pending `v op b`, typing the remaining steps and `=` shows the
      left fold of the steps starting from the rounded `v op b`. */
  lemma {:induction false} Resume(v: real, op: string, b: nat, rest: seq<Step>)
    requires IsOperator(op) && !(IsDivision(op) && b == 0)
    requires Defined(rest)
    ensures Type(Pending(v, op, b), StepKeys(rest) + [EqualsKey])
      == Shown(Running(RoundTo(Exact(v, op, b as real)), rest))
    decreases |rest|
  {
    if |rest| == 0 {
      assert StepKeys(rest) + [EqualsKey] == [EqualsKey];
      EqualsStep(v, op, b);
    } else {
      var w := RoundTo(Exact(v, op, b as real));
      var s := rest[0];
      var tail := StepKeys(rest[1..]) + [EqualsKey];
      assert StepKeys(rest) + [EqualsKey] == ([OperatorKey(s.op)] + NumberKeys(s.operand)) + tail;
      TypeAppend(Pending(v, op, b), [OperatorKey(s.op)] + NumberKeys(s.operand), tail);
      NextStep(v, op, b, s);
      DefinedTail(rest);
      Resume(w, s.op, s.operand, rest[1..]);
    }
  }

  /** Typing the first number and the first step on a fresh keypad leaves
      that step pending. */
  lemma FirstStep(a: nat, s: Step)
    ensures Type(Fresh(), NumberKeys(a) + ([OperatorKey(s.op)] + NumberKeys(s.operand)))
      == Pending(a as real, s.op, s.operand)
  {
    var c1 := Controller(None, None, false, Display(NatDigits(a), false));
    EnterNumber(Fresh(), a);
    ParseNatDigits(a);
    var c2 := Press(c1, OperatorKey(s.op));
    assert c2 == Controller(Some(a as real), Some(s.op), true, Display(NatDigits(a), false));
    assert ([OperatorKey(s.op)] + NumberKeys(s.operand))[1..] == NumberKeys(s.operand);
    EnterNumber(c2, s.operand);
    TypeAppend(Fresh(), NumberKeys(a), [OperatorKey(s.op)] + NumberKeys(s.operand));
  }

  /** A session typed on a fresh keypad, `a op1 b1 op2 b2 ... =`, ends
      showing the left-to-right evaluation of the steps, with that result
      kept as the first operand and no error; the text shown reads back as
      that result. */
  lemma Session(a: nat, steps: seq<Step>)
    requires |steps| > 0 && Defined(steps)
    ensures Type(Fresh(), NumberKeys(a) + StepKeys(steps) + [EqualsKey]) == Shown(Running(a as real, steps))
    ensures DisplayValue(Shown(Running(a as real, steps)).display) == Some(Running(a as real, steps))
  {
    var s := steps[0];
    var first := NumberKeys(a) + ([OperatorKey(s.op)] + NumberKeys(s.operand));
    var tail := StepKeys(steps[1..]) + [EqualsKey];
    assert NumberKeys(a) + StepKeys(steps) + [EqualsKey] == first + tail;
    TypeAppend(Fresh(), first, tail);
    FirstStep(a, s);
    DefinedTail(steps);
    Resume(a as real, s.op, s.operand, steps[1..]);
    ParseFormat(Running(a as real, steps));
  }
  /** `12 + 34 - 6 =` shows 40. */
  lemma ChainExample()
    ensures Defined([Step("+", 34), Step("-", 6)])
    ensures Running(12.0, [Step("+", 34), Step("-", 6)]) == 40.0
    ensures Format(40.0) == "40"
  {
    var steps := [Step("+", 34), Step("-", 6)];
    WholeIsScaled(46);
    WholeIsScaled(40);
    assert steps[1..] == [Step("-", 6)];
    assert [Step("-", 6)][1..] == [];
    FormatNat(40);
    assert NatDigits(40) == "40";
  }

  /** `5 + 3 + 2 =` gives 10, shown as "10". */
  lemma ChainedAddition()
    ensures Defined([Step("+", 3), Step("+", 2)])
    ensures Running(5.0, [Step("+", 3), Step("+", 2)]) == 10.0
    ensures Format(10.0) == "10"
  {
    var steps := [Step("+", 3), Step("+", 2)];
    WholeIsScaled(8);
    WholeIsScaled(10);
    assert steps[1..] == [Step("+", 2)];
    assert [Step("+", 2)][1..] == [];
    FormatNat(10);
    assert NatDigits(10) == "10";
  }

  /** `10 - 3 * 2 =` gives 14, not 4: `*` does not bind tighter than `-`. */
  lemma NoPrecedence()
    ensures Defined([Step("-", 3), Step("*", 2)])
    ensures Running(10.0, [Step("-", 3), Step("*", 2)]) == 14.0
  {
    var steps := [Step("-", 3), Step("*", 2)];
    WholeIsScaled(7);
    WholeIsScaled(14);
    assert steps[1..] == [Step("*", 2)];
    assert [Step("*", 2)][1..] == [];
  }
}
