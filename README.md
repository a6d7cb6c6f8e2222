# aoc23 GPU reduction core, in Dafny

This project models the computing core of `charlieharutaka/aoc23`, a set of Advent of
Code solutions that run on the GPU through WebGPU. It covers three parts:

- **The shader preprocessor** (`preprocessor` in `src/utils.ts`). While the pattern
  `$<key>` matches some part of the shader text, the leftmost match is replaced by the
  value the replacement map holds for its key.
- **The day-0 reduction** (`src/modules/day-0.ts`). Newline-separated numbers are
  parsed and padded to a multiple of the workgroup size W. The program allocates the
  `ComputeBuffers`. It then dispatches the reduction kernel again and again: each pass
  launches `ceil(elements / W)` workgroups and continues with that many elements, until
  one element remains. The answer is element 0 of the host-readable buffer.
- **The day-1 matrix** (`src/modules/day-1.ts`). Every line is UTF-8 encoded and
  padded with zeros to `pow2round` of its length. The rows are then packed into one
  zero-filled `Uint32Array` of `width * height` cells, where `width` is the longest
  row and row `i` starts at offset `i * width`.

The helpers `pad` and `pow2round` are modelled in `utils.dfy`. JavaScript's
`String.prototype.split` with a one-character separator is modelled in `strings.dfy`.

Modules: `Utils` (utils.dfy), `Strings` (strings.dfy), `Preprocessor`
(preprocessor.dfy), `Day0` (day0.dfy), `Day1` (day1.dfy).

### Behaviour of the code worth knowing

- **The preprocessor rescans its own output.** After every replacement, `re.exec`
  runs again on the new text. So a placeholder that a replacement creates is expanded
  too (`ReplacementIsRescanned`).
- **A missing key becomes "undefined".** `replacements[key]` yields `undefined` for a
  missing key, and `replace` inserts it as the text "undefined" (`Lookup`).
- **The `$` count drops, not the placeholder count.** In `$<$<a>>` with `a -> b`, the
  only match is `$<a>`. Replacing it gives `$<b>`, which is again one placeholder.
  What drops by one, when no value contains `$`, is the number of `$` characters
  (`ReplaceRemovesOneDollar`). `Expand` and `Preprocess` terminate on that measure.
- **An empty key never exits.** The regular expression accepts an empty key (`$<>`),
  but the loop body skips any key that is not truthy. The text is left as it is and
  `exec` matches the same text again, so the loop never ends. The model stops there
  and returns `Diverges` (`DivergesIsStuck`, `EmptyKeyDiverges`). Non-empty keys in
  the input are not enough to rule this out: a replacement can create an empty key, as
  `$<$<a>>` with `a -> ""` becomes `$<>` (`ReplacementCreatesEmptyKey`).
- **Buffers are never shrunk.** Every buffer keeps the padded input's size, and only
  the dispatch count shrinks (`ComputeBuffers.Compute`).
- **Nothing rejects W = 1 or malformed numbers.**
  - With W = 1 a pass keeps the element count (`UnitWorkgroupNeverShrinks`). For an
    input of two or more lines the loop therefore never ends, so `Run` requires
    W >= 2.
  - With W = 1 and a single line, the loop does not run at all. `day0` then returns
    element 0 of the read buffer, which no copy has written, so 0.
  - `Number` turns a malformed line into NaN.
- **Powers of two round to themselves.** The comment on `pow2round` says "greater
  than", but `2 ** Math.ceil(Math.log2(n))` returns n itself for a power of two
  (`Pow2RoundOfPowerOfTwo`). `pow2round(0)` is 0.

## Model

| member | source | states |
|---|---|---|
| Utils.Pad | src/utils.ts:13-16 | the result has exactly `length` elements; the first min(len, length) are the input's, the rest are `value` (truncation when longer) |
| Utils.PadUnique | src/utils.ts:13-16 | any sequence with those three properties is `pad`'s result, so the contract pins the function down |
| Utils.PadToOwnLength | src/utils.ts:15 | padding to the current length changes nothing |
| Utils.PadIdempotent | src/utils.ts:13-16 | padding twice to the same length equals padding once |
| Utils.Pow2IsPowerOfTwo | src/utils.ts:20 | `2 ** k` is a power of two and at least 1 |
| Utils.PowersOfTwoApart | src/utils.ts:18-21 | a smaller power of two is at most half a larger one, so "least power of two at least n" has one answer |
| Utils.CeilLog2 | src/utils.ts:20 | the exact integer ceil(log2 n) for n >= 1: n <= 2^k and, for k > 0, 2^(k-1) < n |
| Utils.Pow2Round | src/utils.ts:18-21 | `pow2round(0)` is 0; for n >= 1 the result is a power of two with n <= r < 2n |
| Utils.Pow2RoundIsLeast | src/utils.ts:18-21 | no power of two that is at least n is smaller than `pow2round(n)` |
| Utils.Pow2RoundOfPowerOfTwo | src/utils.ts:18-21 | a power of two rounds to itself |
| Utils.Pow2RoundIdempotent | src/utils.ts:18-21 | rounding twice equals rounding once |
| Strings.Split | src/modules/day-0.ts:7 | `split(sep)` gives one more piece than there are separators, and no piece holds a separator |
| Strings.JoinSplit | src/modules/day-0.ts:7 | joining the pieces with the separator gives back the text |
| Strings.SplitFreePrefix | src/modules/day-1.ts:32 | a separator-free prefix becomes part of the first piece |
| Strings.SplitJoin | src/modules/day-1.ts:32 | splitting a join of separator-free pieces gives back the pieces |
| Preprocessor.KeyEnd | src/utils.ts:2 | the greedy `[a-zA-Z0-9_]*` run from j: every character before its end is a key character, and the one at its end is not |
| Preprocessor.KeyEndIsFirstNonKey | src/utils.ts:2 | the greedy run stops exactly at the first non-key character |
| Preprocessor.MatchesAtIsPattern | src/utils.ts:2 | the engine's match (`$<`, greedy run, `>`) holds exactly when `$<`, some run of key characters, `>` starts there, in both directions |
| Preprocessor.ExecFrom | src/utils.ts:4 | the first match at or after a position, with its closing `>`, or none when no match follows |
| Preprocessor.Exec | src/utils.ts:4 | `re.exec` finds nothing exactly when the text has no placeholder; otherwise it returns the leftmost match |
| Preprocessor.ExecFindsLeftmost | src/utils.ts:4 | a match with no match before it is the one `exec` returns |
| Preprocessor.MatchesAt | src/utils.ts:2 | where the regular expression matches: `$<`, the greedy key run, `>`; `MatchesAtIsPattern` proves it equal to the pattern's direct reading |
| Preprocessor.Key | src/utils.ts:5 | the `key` group of a match spans from after `$<` to the closing `>`, and holds only key characters |
| Preprocessor.Replace | src/utils.ts:7 | text without a placeholder is unchanged; otherwise the match's length is traded for the value's; `ReplaceLeftmost` and `ReplaceRemovesOneDollar` state which text is cut |
| Preprocessor.Lookup | src/utils.ts:7 | a present key gives its value; the result is always one of the map's values or "undefined" |
| Preprocessor.Iterate | src/utils.ts:4-8 | an empty key leaves the text unchanged; `IterateReplacesLeftmost` states what a non-empty key does |
| Preprocessor.LookupDollarFree | src/utils.ts:7 | with `$`-free values, the value looked up (or "undefined" for a missing key) holds no `$` |
| Preprocessor.MatchHasOneDollar | src/utils.ts:2 | a matched placeholder holds exactly one `$` |
| Preprocessor.ReplaceRemovesOneDollar | src/utils.ts:7 | replacing the leftmost match by a `$`-free value lowers the number of `$` by exactly one |
| Preprocessor.ReplaceLeftmost | src/utils.ts:7 | `replace` cuts out exactly the leftmost match and puts the value in its place, keeping the text before and after |
| Preprocessor.IterateReplacesLeftmost | src/utils.ts:4-8 | one loop iteration with a non-empty key replaces the leftmost match by `replacements[key]` and keeps the rest of the text |
| Preprocessor.Expand | src/utils.ts:1-11 | a finished text holds no placeholder; a diverging one has a leftmost match with an empty key |
| Preprocessor.DivergesIsStuck | src/utils.ts:4-6 | at a diverging text `exec` still matches and the loop body leaves the text unchanged, so the source loop never exits |
| Preprocessor.ExpandStep | src/utils.ts:4-8 | with a non-empty key the outcome is that of the text after the replacement |
| Preprocessor.ExpandEmptyKey | src/utils.ts:5-6 | a leftmost match with an empty key is where the loop sticks |
| Preprocessor.DollarFreeTextHasNoPlaceholder | src/utils.ts:2 | text without `$` has no placeholder |
| Preprocessor.ExpandWithoutPlaceholder | src/utils.ts:4-10 | text without a placeholder is returned unchanged |
| Preprocessor.ExpandIdempotent | src/utils.ts:1-11 | preprocessing a finished text again returns it unchanged |
| Preprocessor.Preprocess | src/utils.ts:1-11 | the `while (re.exec(code))` loop computes `Expand`: done with no placeholder left, or stuck at an empty key |
| Preprocessor.EmptyKeyDiverges | src/utils.ts:5-6 | `a$<>b` is a text the source loop spins on forever |
| Preprocessor.ReplacementIsRescanned | src/utils.ts:4-7 | `$<$<a>>` with `a -> b` becomes `$<b>` after one iteration and then "undefined": replacements are rescanned, and the placeholder count need not drop |
| Preprocessor.MissingKeyExpands | src/utils.ts:7 | `$<b>` with `b` missing expands to the text "undefined" |
| Preprocessor.ReplacementCreatesEmptyKey | src/utils.ts:4-7 | `$<$<a>>` with `a -> ""` becomes `$<>` and the loop sticks there, although the input has no empty key |
| Day0.CeilDiv | src/modules/day-0.ts:8 | `Math.ceil(n / w)`: q * w >= n and q * w < n + w; at most n, and at least 1 for n >= 1 |
| Day0.CeilDivUnique | src/modules/day-0.ts:8 | those two bounds determine the quotient |
| Day0.WorkgroupBounds | src/modules/day-0.ts:171-174 | a pass covers every live element, launches at least one workgroup, and with W >= 2 shrinks any count above one |
| Day0.UnitWorkgroupNeverShrinks | src/modules/day-0.ts:171-174 | with W = 1 the element count never changes, so for two or more elements the loop would not end |
| Day0.CeilDivCeilDiv | src/modules/day-0.ts:172-174 | ceil(ceil(n / a) / b) = ceil(n / (a * b)) |
| Day0.Shrink | src/modules/day-0.ts:170-175 | the element count after k passes never grows and stays at least 1 for a non-empty input |
| Day0.Passes | src/modules/day-0.ts:171-175 | the loop makes no pass exactly when at most one element is live; `PassesIsLeastExponent` gives the count |
| Day0.ShrinkClosedForm | src/modules/day-0.ts:170-175 | after k passes the element count is ceil(L / W^k) |
| Day0.ShrinkStep | src/modules/day-0.ts:172-174 | each pass divides the current count by W, rounding up |
| Day0.PassesIsLeastExponent | src/modules/day-0.ts:171-175 | the loop makes the least number of passes k with W^k >= L |
| Day0.ShrinkReachesOne | src/modules/day-0.ts:171-175 | after that many passes exactly one element is left |
| Day0.PaddedSize | src/modules/day-0.ts:8 | the padded size is the least multiple of W that is at least the line count, and at least W for any line count >= 1 |
| Day0.Parse | src/modules/day-0.ts:6-11 | the result has ceil(lines / W) * W values, which is at least W and below lines + W; value i is line i's number, and the tail is 0 |
| Day0.Reduce | src/modules/day-0.ts:170-175 | the input buffer after the loop has as many values as before it |
| Day0.ComputeBuffers.constructor | src/modules/day-0.ts:13-62 | every buffer has the data's size and is a fresh allocation, and no two buffers (scratchpads included) are the same array; `input` holds the data; `output`, `read` and the scratchpads hold zeros |
| Day0.ComputeBuffers.Compute | src/modules/day-0.ts:133-160 | given a cleared `output` (the kernel's premise), after a pass `input` and `read` both hold the kernel's output on the old input, `output` is cleared again, and the scratchpads are untouched |
| Day0.Run | src/modules/day-0.ts:162-179 | the loop makes `Passes(L, W)` >= 1 passes; W^passes >= L > W^(passes-1); the answer is element 0 of the reduced input, which is what `read` holds |
| Day1.ToUint32 | src/modules/day-1.ts:22 | storing into a `Uint32Array` keeps values in [0, 2^32) unchanged and otherwise reduces them modulo 2^32 |
| Day1.FoldMaxLength | src/modules/day-1.ts:18 | the `reduce` result is at least the start value, at least every row's length, and is the start value or some row's length |
| Day1.MaxLength | src/modules/day-1.ts:18 | the width is at least every row's length, 0 without rows, and otherwise the length of some row |
| Day1.OffsetIsProduct | src/modules/day-1.ts:22 | the row offset by repeated addition equals `i * width` |
| Day1.RowStart | src/modules/day-1.ts:22 | the offset `i * width` that row i is copied to is the row's block start |
| Day1.OffsetMonotone | src/modules/day-1.ts:21-23 | a later row starts at least one whole row later |
| Day1.OffsetInjective | src/modules/day-1.ts:21-23 | distinct (row, column) pairs inside the width name distinct cells, so no two rows share a cell |
| Day1.Cells | src/modules/day-1.ts:22 | a row as stored in the `Uint32Array`: a row whose values all lie in [0, 2^32) is stored unchanged |
| Day1.Layout | src/modules/day-1.ts:17-24 | the packed buffer of the first n rows has n * width cells |
| Day1.LayoutAt | src/modules/day-1.ts:21-23 | cell `i * width + j` holds row i's element j, or 0 past the row's end |
| Day1.LayoutCovered | src/modules/day-1.ts:20-23 | every cell of the buffer lies in some row's block |
| Day1.RowCopied | src/modules/day-1.ts:22 | copying row i over the zeros at its offset turns "first i rows copied" into "first i + 1 rows copied" |
| Day1.Set | src/modules/day-1.ts:22 | `data.set(row, offset)` overwrites exactly the cells from the offset with the converted row and keeps every other cell |
| Day1.CopyRows | src/modules/day-1.ts:21-23 | the `for` loop turns the zero buffer into the packed layout of all rows |
| Day1.CopyRow | src/modules/day-1.ts:22 | one iteration extends the copied prefix by row i |
| Day1.Uint32Matrix.constructor | src/modules/day-1.ts:17-24 | width is the longest row, height is the number of rows, and the fresh buffer has width * height cells holding the packed layout |
| Day1.PadRows | src/modules/day-1.ts:34 | each row has `pow2round` of its line's length (a power of two, or empty for an empty line), starts with the line and is 0 after it |
| Day1.Parse | src/modules/day-1.ts:28-36 | the matrix has one row per line of the encoded input, its width is the longest padded line, and its buffer is their packed layout |
| Day1.ParsedByte | src/modules/day-1.ts:28-36 | byte j of line i is found at cell `i * width + j`; the width is a power of two or 0 |
| Day1.ParsedPadding | src/modules/day-1.ts:34 | past the end of line i, its row holds 0 up to the width |
| Day1.ParseEmptyInput | src/modules/day-1.ts:38 | `parse('')` is one empty line: a 0-wide, 1-high matrix with an empty buffer |

## Left out

- WebGPU itself is not modelled: the device, `createBuffer` usage flags, bind groups, bind group layouts, shader modules, pipelines, command encoders and `queue.submit`. A buffer is an array of numbers, and GPU-side allocation is zero-filled.
- The compute kernel (the WGSL shader and what it computes) is not part of this model. `Compute` and `Run` take it as a parameter that maps the input buffer and the workgroup count to an output of the same length. The kernel does not see `output`: `Compute` requires it to be cleared, as the constructor and every earlier pass leave it.
- `readFromBuffer` and `mapAsync` (src/utils.ts:23-26) are async host I/O. `Run` reads element 0 of the `read` buffer directly.
- `initComputeBindings`, `initComputeModule` and `initComputePipeline` (src/modules/day-0.ts:64-131) only build WebGPU objects that carry no data, and are left out.
- The `constants` module is not part of this model. The workgroup size is a parameter W. The replacement map is given already stringified as a `map<string, string>`.
- `Number` and `Float32Array.from` on the day-0 lines are the parameter `toNumber` from a line to an integer. Floating point, NaN and Float32 rounding are not modelled.
- `TextEncoder` is not modelled: day-1's `Parse` takes the UTF-8 bytes of the input.
- Preprocessor.Preprocess: requires that no replacement value contains `$`. JavaScript's `replace` interprets `$&`, `$1`, `$<name>` and similar in its replacement string, and that behaviour is not modelled. Replacement values that are functions, and keys found on the object's prototype (such as `constructor`), are also left out.
- Preprocessor.Preprocess: returns `Diverges` where the source loops forever (a leftmost match with an empty key). Dafny only accepts loops that are known to end.
- Day0.Run: requires W >= 2. With W = 1 and two or more lines the source loop never ends (`UnitWorkgroupNeverShrinks`). With W = 1 and one line the source returns 0, the unwritten element 0 of `read`; this case is not modelled.
- Day0.Parse: states the padded length as `CeilDiv(lines, W) * W` with its bounds, not as a `%` fact.
- Day0.Reduce: states only the length it keeps. Its value depends on the kernel, which is not part of this model.
- Utils.Pow2Round: `Math.log2` and `Math.ceil` are modelled over exact integers, not doubles. For n just above a large power of two, such as 2^50 + 1, the double `Math.log2(n)` rounds to exactly 50, so the source returns 2^50, which is below n. The model returns 2^51.
- A rejected or failed GPU submission is not modelled. For example, a dispatch above the device's workgroup-count limit makes the batch invalid: none of its copies happen, and the host loop carries on. The model assumes every pass runs.
- `src/main.ts` (canvas, rendering and DOM wiring) is not part of this model.
- Integer widths: day-0 values are unbounded integers. Day-1 cells are stored modulo 2^32 (`ToUint32`). Encoded bytes are 0..255, so they pass through unchanged.
- Day1.Uint32Matrix.constructor: a row longer than the width would make `set` throw a RangeError, but this cannot happen because the width is the longest row. `CopyRows` requires every row to fit, so the failing `set` is not modelled.
