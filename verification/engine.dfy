/** The stateful `Calculator` class of calculator_backend.ts and
    calculator_backend.js, as an immutable record with one pure transition
    function per method. A method that throws returns `Err` and the caller
    keeps the state it had. */
module Engine {
  import opened Wrappers
  import opened Arithmetic

  /** The tag of a history entry: the operation that produced it. */
  datatype Operation = AddOp | SubtractOp | MultiplyOp | DivideOp | SetOp | ClearOp

  /** One recorded mutation: its tag, its operand, and the value it left.
      The source's ISO timestamp is clock input and is not kept. */
  datatype HistoryEntry = HistoryEntry(operation: Operation, value: real, result: real)

  /** The three private fields of a `Calculator`. */
  datatype Calculator = Calculator(currentValue: real, memory: real, history: seq<HistoryEntry>)

  /** `new Calculator()`. */
  function New(): Calculator {
    Calculator(0.0, 0.0, [])
  }

  /** `getValue()`. */
  function GetValue(c: Calculator): real {
    c.currentValue
  }

  /** `getHistory()`: a copy of the history, which for an immutable sequence
      is the sequence itself. */
  function GetHistory(c: Calculator): seq<HistoryEntry> {
    c.history
  }

  /** `_addToHistory(op, v)`: appends an entry whose result is the value the
      calculator holds now. */
  function Record(c: Calculator, op: Operation, v: real): (r: Calculator)
    ensures r.currentValue == c.currentValue
    ensures Appended(c, r, op, v)
  {
    c.(history := c.history + [HistoryEntry(op, v, c.currentValue)])
  }

  /** What every successful mutating call promises: `c'` is `c` with one more
      history entry, tagged `op` with operand `v`, whose result is the new
      current value; the memory register is untouched. */
  ghost predicate Appended(c: Calculator, c': Calculator, op: Operation, v: real) {
    && c'.memory == c.memory
    && c'.history == c.history + [HistoryEntry(op, v, c'.currentValue)]
  }

  /** `setValue(v)`. */
  function SetValue(c: Calculator, v: real): (r: Calculator)
    ensures r.currentValue == v
    ensures Appended(c, r, SetOp, v)
  {
    Record(c.(currentValue := v), SetOp, v)
  }

  /** `clear()`: resets the value to 0 and records a `clear` with operand 0. */
  function Clear(c: Calculator): (r: Calculator)
    ensures r.currentValue == 0.0
    ensures Appended(c, r, ClearOp, 0.0)
  {
    Record(c.(currentValue := 0.0), ClearOp, 0.0)
  }

  /** `add(v)`. */
  function Add(c: Calculator, v: real): (r: Calculator)
    ensures r.currentValue - v == c.currentValue
    ensures Appended(c, r, AddOp, v)
  {
    Record(c.(currentValue := Arithmetic.Add(c.currentValue, v)), AddOp, v)
  }

  /** `subtract(v)`. */
  function Subtract(c: Calculator, v: real): (r: Calculator)
    ensures r.currentValue + v == c.currentValue
    ensures Appended(c, r, SubtractOp, v)
  {
    Record(c.(currentValue := Arithmetic.Subtract(c.currentValue, v)), SubtractOp, v)
  }

  /** `multiply(v)`. */
  function Multiply(c: Calculator, v: real): (r: Calculator)
    ensures v != 0.0 ==> r.currentValue / v == c.currentValue
    ensures v == 0.0 ==> r.currentValue == 0.0
    ensures Appended(c, r, MultiplyOp, v)
  {
    Record(c.(currentValue := Arithmetic.Multiply(c.currentValue, v)), MultiplyOp, v)
  }

  /** `divide(v)`: the primitive throws on a zero divisor before anything is
      assigned, so a failing call changes nothing. */
  function Divide(c: Calculator, v: real): (r: Result<Calculator, MathError>)
    ensures r.Err? <==> v == 0.0
    ensures r.Err? ==> r.error == DivisionByZero
    ensures r.Ok? ==> r.value.currentValue * v == c.currentValue
    ensures r.Ok? ==> Appended(c, r.value, DivideOp, v)
  {
    match Arithmetic.Divide(c.currentValue, v)
    case Err(e) => Err(e)
    case Ok(q) => Ok(Record(c.(currentValue := q), DivideOp, v))
  }

  /** `memoryStore()`. */
  function MemoryStore(c: Calculator): (r: Calculator)
    ensures r.memory == c.currentValue
    ensures r.currentValue == c.currentValue && r.history == c.history
  {
    c.(memory := c.currentValue)
  }

  /** `memoryRecall()`. */
  function MemoryRecall(c: Calculator): real {
    c.memory
  }

  /** `memoryAdd()`. */
  function MemoryAdd(c: Calculator): (r: Calculator)
    ensures r.memory - c.currentValue == c.memory
    ensures r.currentValue == c.currentValue && r.history == c.history
  {
    c.(memory := c.memory + c.currentValue)
  }

  /** `memorySubtract()`. */
  function MemorySubtract(c: Calculator): (r: Calculator)
    ensures r.memory + c.currentValue == c.memory
    ensures r.currentValue == c.currentValue && r.history == c.history
  {
    c.(memory := c.memory - c.currentValue)
  }

  /** `memoryClear()`. */
  function MemoryClear(c: Calculator): (r: Calculator)
    ensures r.memory == 0.0
    ensures r.currentValue == c.currentValue && r.history == c.history
  {
    c.(memory := 0.0)
  }

  /** `clearHistory()`. */
  function ClearHistory(c: Calculator): (r: Calculator)
    ensures r.history == []
    ensures r.currentValue == c.currentValue && r.memory == c.memory
  {
    c.(history := [])
  }

  /** The inverse `undo` applies for one popped entry to the value `x`.
      It is lossy on purpose: a multiply by 0 and a `clear` are left alone,
      and a `set` goes back to 0 rather than to the value before it. */
  function Inverse(e: HistoryEntry, x: real): real {
    match e.operation
    case AddOp => x - e.value
    case SubtractOp => x + e.value
    case MultiplyOp => if e.value != 0.0 then x / e.value else x
    case DivideOp => x * e.value
    case SetOp => 0.0
    case ClearOp => x
  }

  /** `undo()`: `false` and no change on an empty history; otherwise the last
      entry is popped, its inverse applied to the current value, and `true`
      returned whether or not the value changed. */
  function Undo(c: Calculator): (r: (bool, Calculator))
    ensures r.0 <==> |c.history| > 0
    ensures !r.0 ==> r.1 == c
    ensures r.0 ==> r.1.history == c.history[..|c.history| - 1]
    ensures r.0 ==> r.1.memory == c.memory
    ensures r.0 ==> r.1.currentValue == Inverse(c.history[|c.history| - 1], c.currentValue)
  {
    if |c.history| == 0 then (false, c)
    else
      var last := c.history[|c.history| - 1];
      (true, Calculator(Inverse(last, c.currentValue), c.memory, c.history[..|c.history| - 1]))
  }

  // ---- Undo as an inverse ----

  /** Undo right after `add(v)` restores the calculator exactly. */
  lemma UndoAdd(c: Calculator, v: real)
    ensures Undo(Add(c, v)) == (true, c)
  {
    assert (c.history + [HistoryEntry(AddOp, v, c.currentValue + v)])[..|c.history|] == c.history;
  }

  /** Undo right after `subtract(v)` restores the calculator exactly. */
  lemma UndoSubtract(c: Calculator, v: real)
    ensures Undo(Subtract(c, v)) == (true, c)
  {
    assert (c.history + [HistoryEntry(SubtractOp, v, c.currentValue - v)])[..|c.history|] == c.history;
  }

  /** Undo right after `multiply(v)` restores the calculator when `v` is not 0;
      after `multiply(0)` the value stays 0, which is the lossy case. */
  lemma UndoMultiply(c: Calculator, v: real)
    ensures v != 0.0 ==> Undo(Multiply(c, v)) == (true, c)
    ensures v == 0.0 ==> Undo(Multiply(c, v)) == (true, c.(currentValue := 0.0))
  {
    assert (c.history + [HistoryEntry(MultiplyOp, v, c.currentValue * v)])[..|c.history|] == c.history;
  }

  /** Undo right after a successful `divide(v)` restores the calculator exactly. */
  lemma UndoDivide(c: Calculator, v: real)
    requires Divide(c, v).Ok?
    ensures Undo(Divide(c, v).value) == (true, c)
  {
    var q := c.currentValue / v;
    var d := Divide(c, v).value;
    assert d == Calculator(q, c.memory, c.history + [HistoryEntry(DivideOp, v, q)]);
    assert d.history[..|c.history|] == c.history;
    assert d.history[|d.history| - 1] == HistoryEntry(DivideOp, v, q);
    assert Inverse(HistoryEntry(DivideOp, v, q), q) == q * v == c.currentValue;
    assert Undo(d) == (true, Calculator(q * v, c.memory, c.history));
  }

  /** Undo right after `setValue(v)` or `clear()` cannot recover the earlier
      value: the history entry goes, and the value is 0 either way. */
  lemma UndoSetAndClear(c: Calculator, v: real)
    ensures Undo(SetValue(c, v)) == (true, c.(currentValue := 0.0))
    ensures Undo(Clear(c)) == (true, c.(currentValue := 0.0))
  {
    assert (c.history + [HistoryEntry(SetOp, v, v)])[..|c.history|] == c.history;
    assert (c.history + [HistoryEntry(ClearOp, 0.0, 0.0)])[..|c.history|] == c.history;
  }

  // ---- Sequences of calls ----

  /** One call on the public surface of `Calculator` that may change it. */
  datatype Command =
    | SetValueCall(v: real)
    | ClearCall
    | AddCall(v: real)
    | SubtractCall(v: real)
    | MultiplyCall(v: real)
    | DivideCall(v: real)
    | MemoryStoreCall
    | MemoryAddCall
    | MemorySubtractCall
    | MemoryClearCall
    | ClearHistoryCall
    | UndoCall

  /** The calls that append to the history: the six history tags. */
  predicate IsMutation(cmd: Command) {
    cmd.SetValueCall? || cmd.ClearCall? || cmd.AddCall? || cmd.SubtractCall?
    || cmd.MultiplyCall? || cmd.DivideCall?
  }

  /** The tag a mutating call records. */
  function TagOf(cmd: Command): Operation
    requires IsMutation(cmd)
  {
    match cmd
    case SetValueCall(_) => SetOp
    case ClearCall => ClearOp
    case AddCall(_) => AddOp
    case SubtractCall(_) => SubtractOp
    case MultiplyCall(_) => MultiplyOp
    case DivideCall(_) => DivideOp
  }

  /** The operand a mutating call records (`clear` records 0). */
  function OperandOf(cmd: Command): real
    requires IsMutation(cmd)
  {
    if cmd.ClearCall? then 0.0 else cmd.v
  }

  /** Performs one call; only `divide(0)` throws. */
  function Step(c: Calculator, cmd: Command): Result<Calculator, MathError> {
    match cmd
    case SetValueCall(v) => Ok(SetValue(c, v))
    case ClearCall => Ok(Clear(c))
    case AddCall(v) => Ok(Add(c, v))
    case SubtractCall(v) => Ok(Subtract(c, v))
    case MultiplyCall(v) => Ok(Multiply(c, v))
    case DivideCall(v) => Divide(c, v)
    case MemoryStoreCall => Ok(MemoryStore(c))
    case MemoryAddCall => Ok(MemoryAdd(c))
    case MemorySubtractCall => Ok(MemorySubtract(c))
    case MemoryClearCall => Ok(MemoryClear(c))
    case ClearHistoryCall => Ok(ClearHistory(c))
    case UndoCall => Ok(Undo(c).1)
  }

  /** A caller that catches every exception and carries on: a throwing call
      leaves the calculator as it was. */
  function Run(c: Calculator, cmds: seq<Command>): Calculator
    decreases |cmds|
  {
    if |cmds| == 0 then c
    else
      var before := Run(c, cmds[..|cmds| - 1]);
      match Step(before, cmds[|cmds| - 1])
      case Ok(after) => after
      case Err(_) => before
  }

  /** A caller that lets the first exception escape. */
  function Perform(c: Calculator, cmds: seq<Command>): Result<Calculator, MathError>
    decreases |cmds|
  {
    if |cmds| == 0 then Ok(c)
    else
      match Perform(c, cmds[..|cmds| - 1])
      case Err(e) => Err(e)
      case Ok(before) => Step(before, cmds[|cmds| - 1])
  }

  /** No `divide` entry in a history has operand 0. */
  ghost predicate NoZeroDivisor(h: seq<HistoryEntry>) {
    forall i :: 0 <= i < |h| && h[i].operation == DivideOp ==> h[i].value != 0.0
  }

  /** Every call keeps the history free of `divide` entries with operand 0,
      because `divide(0)` throws before anything is recorded. */
  lemma StepKeepsNoZeroDivisor(c: Calculator, cmd: Command)
    requires NoZeroDivisor(c.history)
    ensures Step(c, cmd).Ok? ==> NoZeroDivisor(Step(c, cmd).value.history)
  {
    if Step(c, cmd).Ok? {
      var h := Step(c, cmd).value.history;
      if cmd.UndoCall? && |c.history| > 0 {
        assert h == c.history[..|c.history| - 1];
      } else if IsMutation(cmd) {
        assert h == c.history + [h[|h| - 1]];
        assert h[|h| - 1].operation == DivideOp ==> cmd.DivideCall? && cmd.v != 0.0;
      }
    }
  }

  /** Whatever a caller does, starting from a calculator whose history has no
      `divide` entry with operand 0, no such entry ever appears. */
  lemma {:induction false} RunKeepsNoZeroDivisor(c: Calculator, cmds: seq<Command>)
    requires NoZeroDivisor(c.history)
    ensures NoZeroDivisor(Run(c, cmds).history)
    decreases |cmds|
  {
    if |cmds| > 0 {
      var before := Run(c, cmds[..|cmds| - 1]);
      RunKeepsNoZeroDivisor(c, cmds[..|cmds| - 1]);
      StepKeepsNoZeroDivisor(before, cmds[|cmds| - 1]);
    }
  }

  /** History integrity: after a run of N mutating calls that all succeed,
      the history has grown by exactly N entries, the old entries are kept,
      memory is untouched, and the entry of the k-th call records that call's
      tag and operand together with the value the calculator held right
      after it, that is, after the first k calls. */
  lemma {:induction false} HistoryIntegrity(c: Calculator, cmds: seq<Command>)
    requires forall i :: 0 <= i < |cmds| ==> IsMutation(cmds[i])
    requires Perform(c, cmds).Ok?
    ensures |Perform(c, cmds).value.history| == |c.history| + |cmds|
    ensures Perform(c, cmds).value.history[..|c.history|] == c.history
    ensures Perform(c, cmds).value.memory == c.memory
    ensures forall k :: 0 < k <= |cmds| ==>
      && Perform(c, cmds[..k]).Ok?
      && Perform(c, cmds).value.history[|c.history| + k - 1]
         == HistoryEntry(TagOf(cmds[k - 1]), OperandOf(cmds[k - 1]), Perform(c, cmds[..k]).value.currentValue)
    decreases |cmds|
  {
    if |cmds| > 0 {
      var n := |cmds| - 1;
      var init := cmds[..n];
      assert Perform(c, init).Ok?;
      HistoryIntegrity(c, init);
      var before := Perform(c, init).value;
      var after := Perform(c, cmds).value;
      assert Step(before, cmds[n]) == Ok(after);
      assert after.history == before.history + [HistoryEntry(TagOf(cmds[n]), OperandOf(cmds[n]), after.currentValue)];
      forall k | 0 < k <= |cmds|
        ensures
          && Perform(c, cmds[..k]).Ok?
          && after.history[|c.history| + k - 1]
             == HistoryEntry(TagOf(cmds[k - 1]), OperandOf(cmds[k - 1]), Perform(c, cmds[..k]).value.currentValue)
      {
        if k <= n {
          assert cmds[..k] == init[..k];
        } else {
          assert cmds[..k] == cmds;
        }
      }
    }
  }

  // ---- Scenarios from the tests ----

  /** A fresh calculator reads 0 in value and memory with an empty history,
      and `setValue(42)` makes `getValue()` read 42. */
  lemma FreshCalculator()
    ensures GetValue(New()) == 0.0 && MemoryRecall(New()) == 0.0 && GetHistory(New()) == []
    ensures GetValue(SetValue(New(), 42.0)) == 42.0
  {
  }

  /** `add(5); subtract(2)` reads 3 with two history entries; after
      `setValue(10)`, `divide(0)` throws and a caller that catches it keeps
      the calculator unchanged; `clear()` twice reads 0 with two `clear`
      entries; `setValue(10); add(5); undo()` reads 10 while
      `setValue(10); multiply(0); undo()` reads 0. */
  lemma Scenarios()
    ensures var c := Subtract(Add(New(), 5.0), 2.0); GetValue(c) == 3.0 && |GetHistory(c)| == 2
    ensures var c := SetValue(New(), 10.0); Divide(c, 0.0).Err? && Run(c, [DivideCall(0.0)]) == c
    ensures var c := Clear(Clear(New()));
      GetValue(c) == 0.0 && |c.history| == 2 && c.history[0].operation == c.history[1].operation == ClearOp
    ensures GetValue(Undo(Add(SetValue(New(), 10.0), 5.0)).1) == 10.0
    ensures GetValue(Undo(Multiply(SetValue(New(), 10.0), 0.0)).1) == 0.0
  {
    UndoAdd(SetValue(New(), 10.0), 5.0);
    assert [DivideCall(0.0)][..0] == [];
  }
}
