# Gatekeeper quiz core in Dafny

Gatekeeper teaches binary numbers. A learner steps through a fixed sequence of
eleven targets (0, 1, 2, 4, 10, 100, 128, 256, -1, -10, -128). For each target
they set the bits of an input string, and the game checks the answer: unsigned
for a non-negative target, two's complement for a negative one. This project
models the core of the game and proves properties of the model:

- `Radix.dfy`: the JavaScript built-ins the library relies on, as integer and
  string functions:
  - `toString(2)`, `parseInt(_, 2)` on digit strings, `padStart`,
    `repeat` and bit inversion;
  - the integer bit length, which stands in for `Math.floor(Math.log2(n)) + 1`.
- `Binary.dfy`: the conversion library `scripts/binary.ts`. This covers
  `decimalToBinary` (a method, since it reassigns its locals),
  `binaryToDecimal`, `calculateBitCount`, `isValidBinary`, `checkAnswer`,
  `formatBinary` (a method with the source's loop), the learning sequence,
  `getStepInfo` and `getHint`.
- `BinaryDraft.dfy`: the loop-based helpers of `scripts/binary.js`
  (`getMinimumBitCount`, `toBinaryString`, `toTwosComplement`). Each is a
  `while` loop proved against the functions of Radix. A comparison lemma
  relates them to `calculateBitCount`.
- `Game.dfy`: the `GameManager` class of `scripts/game.ts`. It holds the state
  record, the configuration record and the listener registry as mutable
  fields. `scripts/game.js` is the compiled copy of the same class, so it is
  modelled once, bound to the binary.ts functions. Every method keeps the
  class invariant `Valid()`:
  - the step index is in range;
  - the step number, target and hint belong to that index;
  - a result is recorded exactly when the answer has been evaluated.

  The headline property: every step load zeroes the input to a width at which
  some string passes `checkAnswer` (`StepSolvable`). At that width the correct
  string is unique (`AnswerUnique`).

How the environment is modelled:
- **Listeners** are opaque ids. The registry is a
  `map<string, seq<ListenerId>>`.
- **Callbacks.** Whether a callback throws on a payload is a ghost function
  given to the constructor. `emit` appends one entry per registered callback
  to a ghost delivery log, in registration order. Each entry records whether
  that callback threw, and a throw does not stop the callbacks after it.
- **The timer.** The one-second auto-advance timer of `evaluate` is a counter
  of pending advances. `FireAdvanceTimer` is the external step that fires one
  timer and runs `nextStep`.

The model follows the code where it departs from its documented intent. In
particular, `decimalToBinary` does not produce the two's complement of a
negative value n below -1 at the default width, or at an explicit width w
whenever -2^(w-1) < n, although its comments and `getHint` say it does (see
Findings). The bottom of the range, n = -2^(w-1) at width w, does come out
right.

## Model

| member | source | states |
|---|---|---|
| Radix.Value | scripts/binary.ts:50 | `parseInt(s, 2)` on a digit string, most significant digit first; no contract of its own, its meaning is stated by the Value lemmas below |
| Radix.BitLength | scripts/binary.ts:118 | the integer bit length, zero exactly for zero; its bounds are in `BitLengthBounds` |
| Radix.PadStart | scripts/binary.ts:56 | `padStart(w, "0")`: length max(w, old length), zeros then the input, never truncated, a bit string stays one |
| Radix.Repeat | scripts/binary.ts:43 | `c.repeat(n)`: n copies of c |
| Radix.Invert | scripts/binary.ts:46-49 | the per-digit flip: same length, '0' becomes '1' and anything else '0' |
| Radix.ToBinary | scripts/binary.ts:56 | `toString(2)` of a natural number: only '0'/'1', length the bit length (1 for zero), value the number, leading '1' when positive |
| Radix.ValueBound | scripts/binary.ts:98 | the base-2 value of an n-digit string is below 2^n |
| Radix.BitLengthBounds | scripts/binary.ts:118 | `floor(log2(n)) + 1` as an integer: for n > 0, 2^(b-1) <= n < 2^b |
| Radix.BitLengthUnique | scripts/binary.ts:118 | the bit length is the only k with 2^(k-1) <= n < 2^k |
| Radix.ValuePadStart | scripts/binary.ts:56 | left-padding with '0' keeps the value and keeps a bit string a bit string |
| Radix.ValueInvert | scripts/binary.ts:86-90 | inverting every digit of a bit string of length n gives value 2^n - 1 - value |
| Radix.ValueInjective | scripts/binary.ts:90 | two bit strings of the same length and value are equal |
| Binary.CalculateBitCount | scripts/binary.ts:108-125 | 1 for zero whatever the flag; else the bit length of abs(n), plus exactly one when signed; always at least 1 |
| Binary.DefaultWidthFits | scripts/binary.ts:26-36 | the default width holds the value: n < 2^w for n >= 0, and -2^(w-1) < n with w >= 2 for n < 0 |
| Binary.MatchesBinaryDigits | scripts/binary.ts:137 | the regular expression /^[01]+$/ matches iff the string is non-empty and all bits |
| Binary.IsValidBinary | scripts/binary.ts:132-138 | true iff non-empty and every character is '0' or '1' |
| Binary.BinaryToDecimal | scripts/binary.ts:73-100 | "" gives 0; unsigned gives the base-2 value in [0, 2^n); signed with leading '0' the same value, with leading '1' value - 2^n; signed results lie in [-2^(n-1), 2^(n-1)) |
| Binary.InvertPlusOneValue | scripts/binary.ts:45-51 | padding the magnitude m to L digits, inverting, adding one and re-padding gives a bit string of value 2^L - m and the stated length |
| Binary.DecimalToBinary | scripts/binary.ts:18-65 | as written: width defaults (absent or 0) to `calculateBitCount(n, n < 0)`. A non-negative n gives the zero-padded digits, never truncated, decoding unsigned to n. -1 gives `bitCount` ones, decoding signed to -1. Other negatives give value 2^L + n with L = max(bitCount-1, bitlen(abs n)). At the default width that string has exactly `bitCount` digits and a leading '0'. |
| Binary.AsWrittenNegativeAtWidth | scripts/binary.ts:45-52 | as written, at any width w: a negative n with -2^(w-1) < n < -1 gives w digits with a leading '0', which checkAnswer rejects; n = -2^(w-1) gives w digits with a leading '1', which checkAnswer accepts |
| Binary.InvertPlusOne | scripts/binary.ts:45-51 | the pad/invert/+1/pad expression: a bit string at least `bitCount` long (its value is `InvertPlusOneValue`) |
| Binary.DecimalToBinaryCorrected | scripts/binary.ts:40-53 | with the magnitude padded to `bitCount`: every negative value that fits the width (always at the default width) gives `bitCount` digits, a leading '1', value 2^w + n, and signed decoding back to n; non-negative values as before |
| Binary.AsWrittenAgreesAboveMinusTwo | scripts/binary.ts:40-57 | for n >= -1 the as-written output already meets the two's-complement description |
| Binary.NegativeTenAsWritten | scripts/binary.ts:45-52 | as written, -10 gives "00110" by default (signed value 6, rejected by checkAnswer) and "01110110" at width 8 (also rejected) |
| Binary.NegativeTenCorrected | scripts/binary.ts:236 | corrected, -10 gives "10110" by default and "11110110" at width 8 (the string getHint quotes), both accepted by checkAnswer |
| Binary.LearningSequence | scripts/binary.ts:144-146 | eleven targets, pairwise distinct |
| Binary.ExpectedAnswer | scripts/binary.ts:183-195 | for every target, a string of exactly the default width that checkAnswer accepts |
| Binary.GetStepInfo | scripts/binary.ts:153-175 | success iff 0 <= i < 11, with `sequence[i]`, `totalSteps` 11 and `stepNumber` i+1; otherwise the invalid-index error for i |
| Binary.CheckAnswer | scripts/binary.ts:183-195 | false on invalid input; for t >= 0 true iff the unsigned value is t (a leading '1' is read unsigned); for t < 0 true iff leading '1' and value 2^n + t |
| Binary.FormatBinary | scripts/binary.ts:203-209 | the loop pushes exactly the groups of `Chunks` and joins them with single spaces; "" formats to "" |
| Binary.Chunks | scripts/binary.ts:204-207 | the `slice(i, i + groupSize)` groups: none iff the input is empty, each 1 to `groupSize` characters long |
| Binary.JoinWithSpaces | scripts/binary.ts:208 | `groups.join(" ")` as a recursive function, with no contract of its own; `FormatThenRemoveSpaces` states what joining keeps |
| Binary.ChunksSizes | scripts/binary.ts:205-207 | every group has exactly `groupSize` characters except the last, which has 1 to `groupSize`; no groups iff the input is empty |
| Binary.ChunksConcat | scripts/binary.ts:205-207 | concatenating the groups gives back the input |
| Binary.FormatThenRemoveSpaces | scripts/binary.ts:203-209 | removing the spaces from the formatted string gives back the input (any input without spaces) |
| Binary.GetHint | scripts/binary.ts:216-242 | the canned text per known target, else the generic advice; no contract of its own, `HintForStep` and `HintFallbackExactlyOffSequence` state which numbers get which |
| Binary.HintForStep | scripts/binary.ts:216-239 | every target of the learning sequence has its own hint |
| Binary.HintFallbackExactlyOffSequence | scripts/binary.ts:216-241 | getHint gives the generic advice iff the number is not in the learning sequence |
| BinaryDraft.JsBinaryString | scripts/binary.js:27 | `toString(2)` of an integer: bits of value n for n >= 0; for n < 0 a '-' followed by the bits of abs(n) |
| BinaryDraft.GetMinimumBitCount | scripts/binary.js:6-21 | n >= 0: max(1, digit count), equal to `calculateBitCount(n)`, n < 2^r and minimal. n < 0: both loops terminate with the least r >= 2 such that -2^(r-1) <= n < 2^(r-1) |
| BinaryDraft.MinimumVersusCalculated | scripts/binary.js:10-19 | for n < 0 the minimum width equals `calculateBitCount(n, true)` except when abs(n) is a power of two of at least 2, where it is one smaller |
| BinaryDraft.PrependZeros | scripts/binary.js:28-30 | the prepend-"0" loop yields the input left-padded with '0' to the width |
| BinaryDraft.ToBinaryString | scripts/binary.js:26-32 | the digits zero-padded to the width; for n >= 0 a bit string of value n and length max(w, digits); exactly w digits when n < 2^w |
| BinaryDraft.ToTwosComplement | scripts/binary.js:37-46 | the digits of 2^w + n zero-padded to w. For -2^w <= n the value is 2^w + n. For n < 0 exactly w digits. For -2^(w-1) <= n < 0 a leading '1' and signed decoding to n |
| BinaryDraft.EncodeAtMinimumWidth | scripts/binary.js:6-46 | `getMinimumBitCount` followed by the matching encoder gives a string that decodes (signed iff n < 0) to n and that checkAnswer accepts |
| Game.ValidState | scripts/game.ts:12-21 | the class invariant on the state record (a predicate, no contract): step index in range, step number, target and hint of that index, `isCorrect` set iff evaluated |
| Game.StepState | scripts/game.ts:47-61 | a step load satisfies the class invariant, is unevaluated, and zeroes the input to the default width of its target |
| Game.StepSolvable | scripts/game.ts:134-138 | some string of the zeroed input's width passes checkAnswer for the loaded target |
| Game.AnswerUnique | scripts/game.ts:106-109 | at that width exactly one string passes checkAnswer |
| Game.Toggled | scripts/game.ts:95-97 | position i becomes '1' if it was '0', else '0'; length and all other positions kept |
| Game.ToggleTwice | scripts/game.ts:90-100 | toggling the same position twice restores the string iff the position held a bit |
| Game.ToggledKeepsBits | scripts/game.ts:95-97 | toggling keeps a bit string a bit string |
| Game.MergeConfig | scripts/game.ts:215 | each key present in the update overwrites; every other key keeps its old value |
| Game.MergeConfigLaws | scripts/game.ts:215 | merging is idempotent, an empty update is the identity, a complete update replaces the configuration |
| Game.MergeConfigCompose | scripts/game.ts:215 | two updates in a row equal one update in which the later keys win |
| Game.IndexOf | scripts/game.ts:262 | -1 iff absent; otherwise the first position holding the callback |
| Game.RemoveFirst | scripts/game.ts:262-265 | unchanged if absent; otherwise the list with its first occurrence spliced out, the rest in order, one element shorter |
| Game.RemoveFirstMultiset | scripts/game.ts:262-265 | exactly one copy of the callback is removed |
| Game.RemoveFirstAfterAppend | scripts/game.ts:250-266 | `on` then `off` of a fresh callback restores the list; with an earlier copy, the earlier copy is the one removed |
| Game.GameManager.Valid | scripts/game.ts:29-33 | the manager's invariant: its state record satisfies `ValidState` (a predicate, no contract) |
| Game.GameManager.Deliveries | scripts/game.ts:272-278 | one delivery per registered callback, in order, each to its callback with the payload, whether or not earlier ones threw |
| Game.GameManager.constructor | scripts/game.ts:34-42 | default configuration (all true), no listeners, the state of step 0 |
| Game.GameManager.InitializeState | scripts/game.ts:47-61 | the state of step 0 |
| Game.GameManager.GetState | scripts/game.ts:66-68 | a copy of the state, satisfying the invariant |
| Game.GameManager.GetConfig | scripts/game.ts:73-75 | a copy of the configuration |
| Game.GameManager.Emit | scripts/game.ts:268-279 | an event with no list delivers nothing; otherwise every callback of the event receives the payload in order; nothing else changes |
| Game.GameManager.UpdateBinary | scripts/game.ts:80-85 | stores the input, clears both evaluation flags, emits "binaryUpdated" |
| Game.GameManager.ToggleBit | scripts/game.ts:90-100 | out of range: no change, no event; in range: only that position flips, flags cleared, "binaryUpdated" emitted |
| Game.GameManager.Evaluate | scripts/game.ts:105-122 | returns and stores checkAnswer(input, target), sets evaluated, emits "evaluated", schedules one advance iff auto-advance and correct |
| Game.GameManager.FireAdvanceTimer | scripts/game.ts:118 | one scheduled timer fires `nextStep`: the next step is loaded, or on the last step only "gameComplete" is emitted |
| Game.GameManager.LoadStep | scripts/game.ts:133-142 | the state becomes exactly the step load of the index; config, listeners, timers unchanged |
| Game.GameManager.NextStep | scripts/game.ts:127-145 | on the last step: no change, "gameComplete"; otherwise the next step is loaded and "stepChanged" emitted |
| Game.GameManager.PreviousStep | scripts/game.ts:150-167 | on step 0: no change, no event; otherwise the previous step is loaded and "stepChanged" emitted |
| Game.GameManager.GoToStep | scripts/game.ts:172-189 | outside [0, totalSteps): no change, no event; otherwise that step is loaded and "stepChanged" emitted |
| Game.GameManager.ResetStep | scripts/game.ts:194-201 | same step and target, input zeroed to the target's width, flags cleared (the step's load state), "stepReset" emitted |
| Game.GameManager.ResetGame | scripts/game.ts:206-209 | exactly the initial state; configuration, listeners and timers untouched; "gameReset" emitted |
| Game.GameManager.UpdateConfig | scripts/game.ts:214-217 | the configuration becomes the shallow merge; "configUpdated" emitted with it |
| Game.GameManager.IsGameComplete | scripts/game.js:167-170 | true iff on the last step with a correct evaluation (which implies it was evaluated) |
| Game.GameManager.GetStats | scripts/game.js:174-180 | completed steps = current step + 1 = step number, between 1 and the 11 total steps |
| Game.GameManager.On | scripts/game.ts:250-255 | appends the callback to the event's list (created if missing); duplicates kept |
| Game.GameManager.Off | scripts/game.ts:257-266 | removes only the first registration; unknown event or callback: no change |

The other GameManager rows cite scripts/game.ts. The compiled copy has the same
bodies at scripts/game.js:47-64 (`updateBinary`, `toggleBit`), 68-78
(`evaluate`), 82-133 (step moves), 137-157 (resets, `updateConfig`) and 184-212
(`on`, `off`, `emit`).

## Left out

- Floating point. `getProgress` (scripts/game.ts:222-224) is a percentage; `GetStats` keeps only its integer counts.
- Game.GameManager.GetStats: omits the `progress` entry because it is floating point.
- `parseInt` on strings with characters other than '0' and '1' (a partial parse
  or `NaN`). Binary.BinaryToDecimal requires a bit string. `checkAnswer`
  validates before it decodes, so `CheckAnswer` is total.
- Binary.BinaryToDecimal: stated only for bit strings (see the previous line).
- Binary.DecimalToBinary: `bitCount` is an optional natural number. A negative
  or fractional explicit width, and non-integer `decimal` values, are not
  modelled.
- Binary.FormatBinary: with a non-positive `groupSize` and a non-empty string
  the source loop never ends. The method requires a positive size in that
  case.
- The game's methods require the class invariant `Valid()`. The constructor
  establishes it and every method re-establishes it.
- Wall-clock time: the one-second delay of `setTimeout` is not modelled. The
  timer is a counter fired by an external step and never cancelled.
- Callback bodies, `console.error`, and re-entrant calls from a callback into
  the manager. Callbacks are opaque ids, and whether they throw is a given
  ghost function.
- Aliasing of the payload. `emit` passes the live state object, which later
  mutations change under a listener that kept it. The model delivers a
  snapshot of the value.
- Non-integer step indices for `goToStep`/`getStepInfo`, and a
  `Partial<GameConfig>` with a key explicitly set to `undefined`.
- The import at scripts/game.js:4 names `./binary.js`, whose shown exports
  (`getMinimumBitCount`, `toBinaryString`, `toTwosComplement`) do not include
  the imported functions. The compiled game is bound to the binary.ts functions
  instead.
- `scripts/ui.ts`, `scripts/main.ts` and their compiled copies (DOM
  rendering, input handling, persistence) are not part of this model.
- Numbers are IEEE doubles in the source and unbounded integers here. Near large
  powers of two `Math.log2` rounds up (by correct rounding `Math.log2(2^50 - 1)`
  is 50), so `calculateBitCount` gives one more than `BitLength` there; above
  2^53, `parseInt`, `toString(2)` and `+ 1` stop being exact.
- Radix.BitLength: equals `Math.floor(Math.log2(n)) + 1` only where the
  double-precision logarithm rounds correctly, not near large powers of two.
- Binary.CalculateBitCount: the integer bit length, not the double-precision
  one (see the previous line).
- Default arguments. `formatBinary`'s `groupSize = 4` (used by
  scripts/ui.ts:234) and the `isSigned = false` defaults of `binaryToDecimal`
  and `calculateBitCount` are not modelled; the model always passes them.
- Strings are sequences of characters. `toggleBit`'s `length` and `split("")`
  count UTF-16 code units, which differ for characters outside the Basic
  Multilingual Plane.
- BinaryDraft.ToTwosComplement: `bitCount` is a natural number; a negative
  width is not modelled.
- `getHint` wording is content only. Beyond the strings themselves, the model
  proves only which targets get the generic advice.

## Findings

| source | as written | input that shows it | evidently intended | confidence | as-written member | corrected member |
|---|---|---|---|---|---|---|
| scripts/binary.ts:45 | the magnitude is padded to `bitCount - 1` digits before inversion, so at the default width, and at an explicit width w whenever -2^(w-1) < n < -1, the result is 2^(w-1) - abs(n), with a leading '0' (n = -2^(w-1) at width w comes out right) | `decimalToBinary(-10)` gives "00110" (signed value 6), and with width 8 it gives "01110110", while `getHint(-10)` states "11110110" | pad to `bitCount` digits, giving the two's complement ("10110", "11110110") | not executed | Binary.NegativeTenAsWritten | Binary.DecimalToBinaryCorrected |

The game reads only the `bitCount` field of `decimalToBinary`. Both versions
agree on that field, so the game model calls the as-written method unchanged.
