# Calculator engine, keypad controller and book slug, in Dafny

This project models three pieces of logic from a web-development exercise
repository and proves properties about them:

- **The arithmetic primitives and the `Calculator` engine.** The engine is
  written twice, as `calculator_backend.ts` and `calculator_backend.js`, with
  the same logic. Each primitive that guards its arguments (`divide`,
  `modulo`, `squareRoot`, `getPercentageOf`, `applyDiscount`) returns a
  `Result`. The `Calculator` class becomes an immutable record
  (`currentValue`, `memory`, `history`) with one pure transition function per
  method. A method that throws returns `Err`, and the caller keeps the state
  it had.
- **The keypad controller of `calculator_frontend.js`.** This covers the
  buffer edits `appendDigit`, `backspace` and `toggleSign`, the binary
  resolver `performCalculation`, and the closure state of
  `createCalculatorController` (`firstOperand`, `currentOperator`,
  `waitingForSecondOperand`). The DOM display element becomes a value
  `Display(text, error)`, where `error` stands for the `error` CSS class.
  Parsing the display (`parseNumber`, i.e. `parseFloat`) and writing a number
  to it (`String(number)`) are modelled concretely for plain decimal text.
  That makes whole key sequences provable, such as `12 + 34 - 6 =` showing
  `40`.
- **The slug transform of the book schema's `pre("save")` hook.** It
  lowercases the title, collapses each run of characters outside
  `[a-z0-9æøå]` into one `-`, and strips a leading and a trailing `-`.

Numbers are exact reals, so floating-point rounding does not arise. The
`roundTo(result, 10)` inside `performCalculation` is modelled exactly as
`Math.round(x * 10^10) / 10^10`, not dropped. Keeping it means the value the
controller stores always equals the value it shows.

Modules:

- `Wrappers`: `Option`, `Result`.
- `Arithmetic`: the stateless primitives.
- `Engine`: the `Calculator` class.
- `Decimal`: `parseNumber`, `String(number)` and `roundTo` on decimal text.
- `Keypad`: the frontend functions and controller.
- `Sessions`: whole typed sessions, with no operator precedence.
- `Slug`: the slug hook.

`roundTo` calls `Math.round`, which rounds halves up, towards positive
infinity, on both sides of zero. A negative half unit therefore goes up to
the value nearer zero, not away from zero (`Decimal.RoundTo`,
`Decimal.HalvesRoundUp`).

## Model

| member | source | states |
|---|---|---|
| Arithmetic.Divide | sesh2-Intro-To-Testing/files/calculator_backend.ts:34-39 | fails, with the divide-by-zero error, exactly when the divisor is 0; otherwise the quotient multiplied back by the divisor gives the dividend |
| Arithmetic.Trunc | sesh2-Intro-To-Testing/files/calculator_backend.ts:53 | the integer quotient JavaScript's `%` uses lies within 1 of `x` and between 0 and `x` (truncation toward zero) |
| Arithmetic.Modulo | sesh2-Intro-To-Testing/files/calculator_backend.js:60-65 | fails exactly on a zero divisor; otherwise the remainder differs from `a` by a whole multiple of `b`, is smaller than `b` in size, and never has the opposite sign to `a`, which characterises JavaScript's truncating `%` |
| Arithmetic.RemainderFacts | sesh2-Intro-To-Testing/files/calculator_backend.ts:49-54 | for the truncated quotient, `a - b*q` has the three properties `Modulo` promises |
| Arithmetic.SquareRoot | sesh2-Intro-To-Testing/files/calculator_backend.js:83-88 | fails exactly when the radicand is negative; otherwise returns the host square root of it |
| Arithmetic.CalculatePercentage | sesh2-Intro-To-Testing/files/calculator_backend.ts:88-90 | no contract of its own: `percentage` hundredths of `value`; `Arithmetic.GetPercentageOf` is proved to be its inverse and `Arithmetic.ApplyDiscount` bounds it |
| Arithmetic.GetPercentageOf | sesh2-Intro-To-Testing/files/calculator_backend.ts:96-101 | fails exactly when the total is 0; otherwise the percentage that `calculatePercentage` turns back into the part |
| Arithmetic.ApplyDiscount | sesh2-Intro-To-Testing/files/calculator_backend.ts:107-113 | fails exactly when the percentage is below 0 or above 100; otherwise the price less that percentage of it, which lies between 0 and a non-negative price |
| Engine.New | sesh2-Intro-To-Testing/files/calculator_backend.ts:142-146 | no contract of its own: value 0, memory 0, empty history, as `Engine.FreshCalculator` states |
| Engine.GetValue | sesh2-Intro-To-Testing/files/calculator_backend.ts:151-153 | no contract of its own: the current value; read in `Engine.FreshCalculator` and `Engine.Scenarios` |
| Engine.MemoryRecall | sesh2-Intro-To-Testing/files/calculator_backend.ts:220-222 | no contract of its own: the memory register; read in `Engine.FreshCalculator` |
| Engine.GetHistory | sesh2-Intro-To-Testing/files/calculator_backend.ts:250-252 | no contract of its own: the history itself (the copy is left out below); read in `Engine.FreshCalculator` and `Engine.Scenarios` |
| Engine.Record | sesh2-Intro-To-Testing/files/calculator_backend.ts:305-315 | appends one entry with the operation and operand whose result is the current value, in the form `Engine.Appended` requires of every mutator; value and memory are kept (`Engine.HistoryIntegrity` lifts this to call sequences) |
| Engine.SetValue | sesh2-Intro-To-Testing/files/calculator_backend.ts:158-161 | the value becomes `v`; exactly one `set` entry with operand `v` and the new value as result is appended; memory unchanged |
| Engine.Clear | sesh2-Intro-To-Testing/files/calculator_backend.ts:166-169 | the value becomes 0; exactly one `clear` entry with operand 0 is appended; memory unchanged |
| Engine.Add | sesh2-Intro-To-Testing/files/calculator_backend.ts:174-178 | the new value less `v` is the old value; one `add` entry recording `v` and the new value; memory unchanged |
| Engine.Subtract | sesh2-Intro-To-Testing/files/calculator_backend.ts:183-187 | the new value plus `v` is the old value; one `subtract` entry; memory unchanged |
| Engine.Multiply | sesh2-Intro-To-Testing/files/calculator_backend.ts:192-196 | for `v` not 0 the new value divided by `v` is the old value, for `v` = 0 it is 0; one `multiply` entry; memory unchanged |
| Engine.Divide | sesh2-Intro-To-Testing/files/calculator_backend.js:221-225 | fails exactly when `v` is 0, before anything is assigned; on success the new value times `v` is the old value and one `divide` entry is appended |
| Engine.MemoryStore | sesh2-Intro-To-Testing/files/calculator_backend.ts:213-215 | memory takes the current value; value and history unchanged |
| Engine.MemoryAdd | sesh2-Intro-To-Testing/files/calculator_backend.ts:227-229 | memory grows by the current value; value and history unchanged |
| Engine.MemorySubtract | sesh2-Intro-To-Testing/files/calculator_backend.ts:234-236 | memory shrinks by the current value; value and history unchanged |
| Engine.MemoryClear | sesh2-Intro-To-Testing/files/calculator_backend.ts:241-243 | memory becomes 0; value and history unchanged |
| Engine.ClearHistory | sesh2-Intro-To-Testing/files/calculator_backend.js:278-280 | history becomes empty; value and memory unchanged |
| Engine.Undo | sesh2-Intro-To-Testing/files/calculator_backend.ts:265-300 | returns false and changes nothing exactly when the history is empty; otherwise removes exactly the last entry, keeps memory, applies that entry's inverse to the value, and returns true |
| Engine.UndoAdd | sesh2-Intro-To-Testing/files/calculator_backend.ts:276-278 | undo right after `add(v)` restores the whole calculator |
| Engine.UndoSubtract | sesh2-Intro-To-Testing/files/calculator_backend.ts:279-281 | undo right after `subtract(v)` restores the whole calculator |
| Engine.UndoMultiply | sesh2-Intro-To-Testing/files/calculator_backend.ts:282-286 | undo right after `multiply(v)` restores the calculator for `v` not 0; after `multiply(0)` the value stays 0 (lossy) |
| Engine.UndoDivide | sesh2-Intro-To-Testing/files/calculator_backend.ts:287-289 | undo right after a successful `divide(v)` restores the whole calculator |
| Engine.UndoSetAndClear | sesh2-Intro-To-Testing/files/calculator_backend.js:310-316 | undo right after `setValue(v)` or `clear()` drops the entry and leaves the value 0, not the earlier value (lossy) |
| Engine.StepKeepsNoZeroDivisor | sesh2-Intro-To-Testing/files/calculator_backend.ts:202-206 | no call adds a `divide` entry with operand 0 to a history that had none |
| Engine.RunKeepsNoZeroDivisor | sesh2-Intro-To-Testing/files/calculator_backend.js:221-225 | whatever calls a caller makes, catching every exception, the history never gains a `divide` entry with operand 0 |
| Engine.HistoryIntegrity | sesh2-Intro-To-Testing/files/calculator_backend.ts:305-315 | after N successful mutating calls the history grew by exactly N, old entries kept, memory kept, and the k-th new entry records the k-th call's tag and operand and the value after the first k calls |
| Engine.FreshCalculator | sesh2-Intro-To-Testing/files/calculator_backend.ts:142-146 | a new calculator reads 0 with memory 0 and an empty history; `setValue(42)` then reads 42 |
| Engine.Scenarios | sesh2-Intro-To-Testing/files/calculator_backend.js:286-320 | `add(5); subtract(2)` reads 3 with two entries; `divide(0)` fails and keeps 10; `setValue(10); add(5); undo()` reads 10 while `setValue(10); multiply(0); undo()` reads 0 |
| Decimal.Parse | sesh2-Intro-To-Testing/files/calculator_backend.js:365-368 | no contract of its own: `parseNumber` on plain decimal text; `Decimal.ParseFormat` and `Decimal.ParseNatDigits` prove it reads back what `Decimal.Format` shows |
| Decimal.Format | sesh2-Intro-To-Testing/files/calculator_frontend.js:33-38 | no contract of its own: `String(value)` in plain decimal notation; `Decimal.ParseFormat` proves `Decimal.Parse` inverts it on values with at most ten decimal places, and `Decimal.FormatNat` shows whole numbers as their digits |
| Decimal.RoundTo | sesh2-Intro-To-Testing/files/calculator_backend.js:346-349 | the result has at most ten decimal places and lies in the half-open window of half a tenth-place unit around `x`, ties going up, which makes it unique; values already with ten places are kept |
| Decimal.HalvesRoundUp | sesh2-Intro-To-Testing/files/calculator_backend.ts:325-328 | a positive half unit rounds up and a negative half unit rounds up to 0, not away from zero |
| Decimal.ParseFormat | sesh2-Intro-To-Testing/files/calculator_frontend.js:33-50 | reading back the displayed text of any value with at most ten decimal places gives that value |
| Decimal.FormatNat | sesh2-Intro-To-Testing/files/calculator_frontend.js:33-38 | a natural number is displayed as its decimal digits |
| Decimal.ParseNatDigits | sesh2-Intro-To-Testing/files/calculator_backend.js:365-368 | the decimal digits of a natural number parse back to that number |
| Decimal.NegatedReadsBack | sesh2-Intro-To-Testing/files/calculator_frontend.js:127-133 | the displayed negation of a value with ten places at most reads back as the negation |
| Keypad.DisplayValue | sesh2-Intro-To-Testing/files/calculator_frontend.js:45-50 | no contract of its own: `getDisplayValue` is `Decimal.Parse` of the text; what it returns after a result is shown is in `Keypad.PerformCalculation` |
| Keypad.ClearDisplay | sesh2-Intro-To-Testing/files/calculator_frontend.js:56-58 | no contract of its own: the text becomes "0" and the error class is left alone; `Keypad.Clear` and `Keypad.ClearEntry` state the result |
| Keypad.ShowError | sesh2-Intro-To-Testing/files/calculator_frontend.js:65-68 | no contract of its own: the message is shown with the error class set; `Keypad.PerformCalculation` states which message |
| Keypad.ClearError | sesh2-Intro-To-Testing/files/calculator_frontend.js:74-76 | no contract of its own: the error class is removed and the text kept; `Keypad.PerformCalculation` and `Keypad.Clear` rely on it |
| Keypad.AppendDigit | sesh2-Intro-To-Testing/files/calculator_frontend.js:87-107 | throws "Invalid digit: d" exactly for keys outside 0-9 and '.'; a second '.' changes nothing; a digit replaces a lone "0"; otherwise the key is appended |
| Keypad.AppendKeepsOnePoint | sesh2-Intro-To-Testing/files/calculator_frontend.js:97-99 | a buffer with at most one '.' keeps at most one '.' after any append |
| Keypad.Backspace | sesh2-Intro-To-Testing/files/calculator_frontend.js:113-121 | the result is never empty; a buffer of at most one character, or "0", becomes "0"; otherwise the last character goes |
| Keypad.BackspaceUndoesAppend | sesh2-Intro-To-Testing/files/calculator_frontend.js:87-121 | backspace takes back any append that changed a non-empty buffer |
| Keypad.ToggleSign | sesh2-Intro-To-Testing/files/calculator_frontend.js:127-133 | no contract of its own: the text of the negated value when the text starts with a number, else the text unchanged; see `Keypad.ToggleOfNumber`, `Keypad.ToggleOfText`, `Keypad.ToggleSignNegates` |
| Keypad.ToggleOfNumber | sesh2-Intro-To-Testing/files/calculator_frontend.js:127-133 | text that starts with a number toggles to the displayed negation of that number |
| Keypad.ToggleSignNegates | sesh2-Intro-To-Testing/files/calculator_frontend.js:127-133 | for text reading as a number with at most ten decimal places, the toggled text reads back as the negated value |
| Keypad.ToggleSignTwice | sesh2-Intro-To-Testing/files/calculator_frontend.js:127-133 | for text reading as a number with at most ten decimal places, toggling twice shows that number in canonical form |
| Keypad.Evaluate | sesh2-Intro-To-Testing/files/calculator_frontend.js:157-176 | fails exactly on an unknown operator ("Unknown operator") or a division by zero (the divide error message); otherwise the exact value of `a op b` |
| Keypad.PerformCalculation | sesh2-Intro-To-Testing/files/calculator_frontend.js:147-187 | fails exactly on a missing operand, an unknown operator or a division by zero, and the error class is set exactly then, with the matching message; a success is the rounded exact value, shown so that it reads back as itself |
| Keypad.Init | sesh2-Intro-To-Testing/files/calculator_frontend.js:200-203 | no contract of its own: no operand, no operator, not waiting; `Keypad.Clear` is proved to return to it |
| Keypad.InputDigit | sesh2-Intro-To-Testing/files/calculator_frontend.js:222-228 | never leaves the controller waiting; operands, operator and error class kept; the text is the append to "0" when waiting, else to the buffer; throws exactly on an invalid key, after the reset |
| Keypad.InputOperator | sesh2-Intro-To-Testing/files/calculator_frontend.js:234-254 | always ends with `op` pending and waiting; captures the display value first time; resolves only with an operator pending and not waiting, keeping the first operand when that fails |
| Keypad.Calculate | sesh2-Intro-To-Testing/files/calculator_frontend.js:259-277 | no-op with no operator or while waiting; success stores the result, clears the operator and waits; failure changes only the display |
| Keypad.Clear | sesh2-Intro-To-Testing/files/calculator_frontend.js:282-288 | back to the initial state, "0" shown with no error |
| Keypad.ClearEntry | sesh2-Intro-To-Testing/files/calculator_frontend.js:293-296 | display "0" with no error; operand, operator and waiting kept |
| Keypad.BackspaceKey | sesh2-Intro-To-Testing/files/calculator_frontend.js:301-305 | ignored while waiting; otherwise only the text changes, by `backspace` |
| Keypad.ToggleOfText | sesh2-Intro-To-Testing/files/calculator_frontend.js:127-133 | text that does not start with a number is left exactly as it is |
| Keypad.ToggleSignKey | sesh2-Intro-To-Testing/files/calculator_frontend.js:310-312 | the key changes only the display text, and only as the buffer-level `toggleSign` does; operands, operator, waiting flag and error class are kept |
| Keypad.TypeKeepsWaitingHasOperand | sesh2-Intro-To-Testing/files/calculator_frontend.js:200-305 | whatever keys are pressed, the controller only waits when it has an operator pending or a standing first operand |
| Keypad.PointWhileWaiting | sesh2-Intro-To-Testing/files/calculator_frontend.js:222-228 | a '.' typed while waiting shows "0." |
| Keypad.OperatorAfterEqualsKeepsResult | sesh2-Intro-To-Testing/files/calculator_frontend.js:237-250 | after `=`, digits then an operator leave the standing result as first operand, not the number typed |
| Keypad.DigitsKeepOperands | sesh2-Intro-To-Testing/files/calculator_frontend.js:222-228 | digit keys never change the first operand or the operator |
| Keypad.DivisionByZeroAtEquals | sesh2-Intro-To-Testing/files/calculator_frontend.js:259-277 | `=` on a division by zero shows "Cannot divide by zero" with the error class and keeps operand, operator and waiting flag |
| Sessions.EnterNumber | sesh2-Intro-To-Testing/files/calculator_frontend.js:222-228 | typing a whole number while waiting, or on "0", shows exactly its digits and clears the waiting flag; operands, operator and error flag are kept |
| Sessions.Resume | sesh2-Intro-To-Testing/files/calculator_frontend.js:234-277 | from a pending `v op b`, typing further steps and `=` shows the left-to-right rounded fold of the steps |
| Sessions.Session | sesh2-Intro-To-Testing/files/calculator_frontend.js:234-277 | on a fresh keypad, `a op1 b1 op2 b2 ... =` shows and stores the strict left-to-right evaluation (no precedence), and the shown text reads back as it |
| Sessions.ChainExample | sesh2-Intro-To-Testing/tests/calculator_frontend_react.test.jsx:314-340 | `12 + 34 - 6 =`, the key sequence of this user-flow test, evaluates to 40, shown as "40" |
| Sessions.ChainedAddition | sesh2-Intro-To-Testing/tests/calculator_frontend.test.js:237 | `5 + 3 + 2 =` evaluates to 10, shown as "10" |
| Sessions.NoPrecedence | sesh2-Intro-To-Testing/tests/calculator_frontend.test.js:238 | `10 - 3 * 2 =` evaluates to 14, not 4 |
| Slug.Lower | sesh1-intro-mongoDB-mongoose/solutions/Book.solution.ts:61 | the same length as the title; a lowered character is in `[a-z0-9æøå]` exactly when it already was or it is A-Z, Æ, Ø, Å, the Kelvin sign or the Angstrom sign |
| Slug.LowerIdempotent | sesh1-intro-mongoDB-mongoose/solutions/Book.solution.ts:61 | lowering a lowered title changes nothing |
| Slug.SkipRun | sesh1-intro-mongoDB-mongoose/solutions/Book.solution.ts:62 | the result is no longer than `s`, starts with a class character if non-empty, and every character before it is outside the class |
| Slug.SkipRunSuffix | sesh1-intro-mongoDB-mongoose/solutions/Book.solution.ts:62 | what `SkipRun` leaves is exactly the rest of `s` after the skipped run |
| Slug.Collapse | sesh1-intro-mongoDB-mongoose/solutions/Book.solution.ts:62 | no contract of its own: each maximal run outside the class becomes one '-'; `Slug.ScanIsCollapse`, `Slug.CollapseShape`, `Slug.CollapseKeeps` and `Slug.CollapseWellFormed` carry its properties |
| Slug.Trim | sesh1-intro-mongoDB-mongoose/solutions/Book.solution.ts:63 | the result is the input with at most its first and at most its last character removed, and it differs from the input only when the input starts or ends with '-', so every inner '-' stays; `Slug.TrimShape` and `Slug.TrimKeeps` add that no '-' is left at either end and only '-' is removed |
| Slug.TrimKeeps | sesh1-intro-mongoDB-mongoose/solutions/Book.solution.ts:63 | trimming removes only '-' |
| Slug.MakeSlug | sesh1-intro-mongoDB-mongoose/solutions/Book.solution.ts:60-63 | no contract of its own: lower, collapse, trim; `Slug.SlugWellFormed`, `Slug.SlugKeeps` and `Slug.SlugIdempotent` carry its properties |
| Slug.ScanIsCollapse | sesh1-intro-mongoDB-mongoose/solutions/Book.solution.ts:62 | a one-pass scanner that writes '-' once per run agrees with the run-by-run replacement, after any already written output |
| Slug.ScanFromEmpty | sesh1-intro-mongoDB-mongoose/solutions/Book.solution.ts:62 | started with nothing written, the one-pass scanner produces exactly the replacement |
| Slug.CollapseShape | sesh1-intro-mongoDB-mongoose/solutions/Book.solution.ts:62 | the replacement writes only class characters and '-', never two '-' in a row |
| Slug.CollapseKeeps | sesh1-intro-mongoDB-mongoose/solutions/Book.solution.ts:62 | without its '-', the replacement is exactly the class characters of its input in order |
| Slug.CollapseWellFormed | sesh1-intro-mongoDB-mongoose/solutions/Book.solution.ts:62 | a string of class characters and single inner '-' is its own replacement |
| Slug.TrimShape | sesh1-intro-mongoDB-mongoose/solutions/Book.solution.ts:63 | stripping the edge '-' of a collapsed string leaves no '-' at either end |
| Slug.SlugWellFormed | sesh1-intro-mongoDB-mongoose/solutions/Book.solution.ts:60-63 | every slug has only class characters and '-', no two '-' in a row, no '-' at either end; a title with no class character gives "" |
| Slug.SlugKeeps | sesh1-intro-mongoDB-mongoose/solutions/Book.solution.ts:60-63 | the slug without its '-' is exactly the lowered title's class characters |
| Slug.LowerWellFormed | sesh1-intro-mongoDB-mongoose/solutions/Book.solution.ts:61 | lowering a string of class characters and '-' changes nothing |
| Slug.SlugIdempotent | sesh1-intro-mongoDB-mongoose/solutions/Book.solution.ts:60-63 | slugging a slug gives it back |
| Slug.PreSave | sesh1-intro-mongoDB-mongoose/solutions/Book.solution.ts:58-66 | the title is kept; the slug is recomputed and well formed when the title was modified and is non-empty, and the book is otherwise untouched |

## Left out

- `power`, `absolute`, and `add`/`subtract`/`multiply` as exported primitives beyond their use in the engine and keypad: these have no guard, and over exact reals there is nothing to state beyond their bodies.
- `isValidNumber`: NaN and Infinity do not exist among reals. A missing operand (`null`) is the only invalid input kept.
- Floating-point rounding: every operation is exact, so for example undo after `multiply(3)` restores the value exactly, where the source can be off by one ulp.
- `squareRoot`'s numeric result: `Math.sqrt` is a parameter; only the guard is modelled.
- The history entry's `timestamp`: clock input, dropped.
- `getHistory` returns a copy of the array; over immutable sequences that copy is the history itself.
- `getState`, `updateDisplay` on a missing element, and the CSS class bookkeeping other than the error flag: DOM concerns.
- `initCalculator`: DOM event wiring. `Keypad.Press` stands for one button press.
- `calculator_frontend_react.jsx`: rendering, with behaviour that depends on React state batching.
- The book, author and review schemas, the database connection, and test setup: declarative configuration run by mongoose, which is not part of this model. The schema's `trim` on the title is left out with them.
- The TypeScript `undo`'s second guard `if (!lastOp) return false`: it cannot fire after the length check, so one `Engine.Undo` stands for both files.
- Decimal.Parse: reads an optional sign, digits and an optional point with digits, as `parseFloat` does on the keypad's own output. It does not handle leading whitespace, exponents or "Infinity".
- Decimal.Format: shows at most ten decimal places, truncating beyond them, and never uses exponent notation. `String(value)` shows the shortest text that reads back as the number, with exponent notation for very small or very large magnitudes. They differ on a typed number with more than ten places after a sign toggle (below). They also differ on results smaller than 1e-6 or at least 1e21 in magnitude, which `String` writes with an exponent: `1 ÷ 10000000 =` shows "1e-7" in the source and "0.0000001" in the model.
- Keypad.ToggleSign: `toggleSign` writes `String(-value)` of the number as typed, unrounded. Typing "0.12345678901" and toggling shows "-0.12345678901" in the source, but "-0.123456789" in the model. Typing "0.0000001" and toggling shows "-1e-7" in the source, so a further "5" reads as "-1e-75"; the model shows "-0.0000001" and then "-0.00000015". The model agrees with the source only on numbers with at most ten decimal places that `String` writes without an exponent.
- Keypad.ToggleSignNegates: the negation is promised to read back only for numbers with at most ten decimal places, because of the `Decimal.Format` limit above.
- Keypad.ToggleSignTwice: stated only for numbers with at most ten decimal places, for the same reason.
- Slug.Lower: lowers A-Z, the Latin-1 capitals U+00C0 to U+00DE (except U+00D7), the Kelvin sign and the Angstrom sign. These are the only characters whose JavaScript lower case lands in `[a-z0-9æøå]`. U+0130, whose lower case is two characters, is treated as staying outside the class. Full Unicode case mapping is not modelled.
- Keypad.PerformCalculation: the result text is `Decimal.Format` of the rounded value, so a result smaller than 1e-6 or at least 1e21 in magnitude is shown in plain decimal notation where `String` uses an exponent ("0.0000001" for "1e-7", 22 digits for "1e+21"). The stored operand and the value read back from the display agree with the source.
- Sessions.Resume: the shown text is `Decimal.Format` of the running result, with the same exponent-notation difference for results smaller than 1e-6 or at least 1e21 in magnitude.
- Sessions.Session: the shown text differs in the same way for results smaller than 1e-6 or at least 1e21 in magnitude (`1 ÷ 10000000 =`).
- Sessions.Session: operands are whole numbers typed digit by digit; decimal operands and sessions mixing in backspace, sign or clear keys are covered only by the single-key contracts.
