# strudel_reactor: gain parsing and tempo control, modelled in Dafny

This project models two pieces of the strudel_reactor web front end.

- **The gain chart's data path** (`src/components/D3_Graph.jsx`).
  - `parseGain` finds the first `gain:<number>` in a logged line and returns
    that number. It returns 0 when the input is not a string, is empty, has no
    such number, or the number is not finite.
  - The chart maps `parseGain` over the logged array, both for its initial
    state and for each `d3Data` event.
  - It bounds its x-domain by `Math.max(1, n - 1)` and its tick count by
    `Math.min(6, Math.max(1, n - 1))`.
- **The tempo control** (`handleSetCpm` in `src/App.js`).
  - A cycles-per-minute value is rejected when it is NaN or not positive. A
    rejected value raises the `cpmError` flag and leaves the tune text alone.
  - An accepted value clears the flag and rewrites the first `setcps(...)` call
    of the tune text into `setcps(<value>/60/4)`.

The files are:

- `wrappers.dfy`: `Option`, for `null`, `undefined` and failed matches.
- `number_text.dfy`: the numeric lexeme `[0-9]*\.?[0-9]+`.
  - Its longest-prefix length is the regex capture.
  - Its exact value is what `Number()` reads.
  - `Render` is the decimal text JavaScript writes for `${value}`.
  - `RenderValue` proves that this text reads back as the value.
- `gain_graph.dfy`: `ParseGain`, the leftmost-match scan, the mapped series
  and the axis bounds.
- `tempo_control.dfy`: the first-match `setcps(...)` rewrite and the
  `StrudelDemo` class. The class has the `procText` and `cpmError` fields;
  its method `HandleSetCpm` updates them.
- `gain_examples.dfy` and `tempo_examples.dfy`: particular inputs and what
  they give, each derived from the general lemmas.

Numbers are exact rationals (`real`). The regular expressions are not
interpreted. Each one is given as a scan for its leftmost match, and lemmas
relate that scan to a separate description of the language:

- For the gain pattern, the description is `IsLexeme`. `LexemeLongest` proves
  that the capture is the longest accepted prefix, which is what the
  backtracking `[0-9]*\.?[0-9]+` yields.
- For the `setcps` pattern, the description is `IsCall`. `CallAtIsCall` and
  `IsCallIsCallAt` prove that a match exists exactly where an accepted
  string starts, and that it is unique.

## Model

| member | source | states |
|---|---|---|
| GainGraph.ParseGain | src/components/D3_Graph.jsx:95-101 | the result is never negative and always finite: it lies below the least decimal value that `Number()` turns into Infinity |
| GainGraph.ParseGainFalsy | src/components/D3_Graph.jsx:96 | a value that is not a string, and the empty string, give 0 |
| GainGraph.ParseGainNoNumber | src/components/D3_Graph.jsx:97-98 | when no `gain:` is followed by a digit, or by a point and a digit, the result is 0 |
| GainGraph.FiniteOrZero | src/components/D3_Graph.jsx:100 | `Number.isFinite(v) ? v : 0`: the result is always finite, is the value itself when that is finite, and 0 otherwise |
| GainGraph.GainCapture | src/components/D3_Graph.jsx:97-98 | `str.match(...)` and `m[1]`: null exactly when no position matches; otherwise the capture is accepted by `[0-9]*\.?[0-9]+`, is a prefix of the text after the label of the leftmost match (the leftmost `gain:` followed by a number; bare labels are skipped), and no longer prefix of that text is accepted (ParseGainLeftmost and LexemeLongest state the same through the grammar) |
| GainGraph.FindGain | src/components/D3_Graph.jsx:97 | the scan returns a position where the pattern matches and no earlier one; None means no position matches |
| GainGraph.ParseGainAt | src/components/D3_Graph.jsx:97-100 | the leftmost match decides: the result is the value of its longest lexeme, or 0 if that value is not finite |
| GainGraph.ParseGainLeftmost | src/components/D3_Graph.jsx:97-100 | the same, with the lexeme described by the grammar alone: at the leftmost label that is followed by a number (the leftmost match), the longest accepted prefix after it gives the result |
| GainGraph.ParseGainDecimal | src/components/D3_Graph.jsx:97-100 | `gain:` then digits a, a point, digits b, then a non-digit gives a + b/10^\|b\|, or 0 if not finite; this covers `gain:12.34`, `gain:.5` and a second point ending the number |
| GainGraph.ParseGainInteger | src/components/D3_Graph.jsx:97-100 | `gain:` then digits a, with neither a digit nor a point-then-digit after them, gives the integer a, or 0 if not finite; this covers `gain:1.` giving 1 |
| GainGraph.ParseGainSkipsBareLabels | src/components/D3_Graph.jsx:97 | a prefix in which no match starts does not change the result; this covers `gain:x gain:3` giving 3 |
| GainGraph.FindGainShift | src/components/D3_Graph.jsx:97 | after a prefix with no match, the leftmost match is the rest's leftmost match, shifted by the prefix length |
| GainGraph.MatchShift | src/components/D3_Graph.jsx:97 | whether the pattern matches at a position depends only on the text from that position on |
| NumberText.LexemeLength | src/components/D3_Graph.jsx:97 | the length of the capture after the label, within the text; LexemeLongest proves it is the longest accepted prefix and LexemeStart when it is non-empty |
| NumberText.LexemeValue | src/components/D3_Graph.jsx:99 | `Number(m[1])` as an exact rational: never negative, and a lexeme without a point reads as its integer value; PointValue gives the value with a point, and RenderValue shows it inverts Render |
| NumberText.LexemeLongest | src/components/D3_Graph.jsx:97 | the capture is accepted by `[0-9]*\.?[0-9]+` and no longer prefix is |
| NumberText.LexemeStart | src/components/D3_Graph.jsx:97 | the capture is non-empty exactly when a digit, or a point and a digit, comes first |
| NumberText.LexemeDecimal | src/components/D3_Graph.jsx:97 | for digits, a point, at least one digit, then a non-digit, the capture is exactly those digits, the point and the digits after it |
| NumberText.LexemeInteger | src/components/D3_Graph.jsx:97 | for digits with no digit and no point-then-digit after them, the capture is those digits and reads as their integer value |
| NumberText.DigitRun | src/components/D3_Graph.jsx:97 | the greedy `[0-9]*` takes every leading digit and stops at a non-digit |
| NumberText.PointValue | src/components/D3_Graph.jsx:99 | `Number()` of `a.b` is the integer a plus the fraction b/10^\|b\| |
| NumberText.DigitsValueAppend | src/components/D3_Graph.jsx:99 | the value of concatenated digit strings is the first shifted by the length of the second, plus the second |
| GainExamples.ParseGain1234 | src/components/D3_Graph.jsx:97-100 | `gain:12.34` gives 12.34 |
| GainExamples.ParseGainPoint5 | src/components/D3_Graph.jsx:97-100 | `gain:.5` gives 0.5 |
| GainExamples.ParseGainOnePoint | src/components/D3_Graph.jsx:97-100 | `gain:1.` gives 1 |
| GainExamples.ParseGainTwoPoints | src/components/D3_Graph.jsx:97-100 | `gain:1.2.3` gives 1.2 |
| GainExamples.ParseGainBareLabel | src/components/D3_Graph.jsx:97-100 | `gain:x gain:3` gives 3 |
| GainExamples.ParseGainNaN | src/components/D3_Graph.jsx:97-98 | `gain:NaN` gives 0 |
| GainGraph.GainSeries | src/components/D3_Graph.jsx:11-18 | `map(parseGain)`, for the initial state at lines 11-12 and for each event at line 18, keeps the length, and each point is `parseGain` of the log entry at the same index |
| GainGraph.GainSeriesAppend | src/components/D3_Graph.jsx:11-18 | mapping distributes over concatenation, so the series keeps the log's order |
| GainGraph.DetailSeries | src/components/D3_Graph.jsx:11-18 | `(getD3Data?.() ?? []).map(parseGain)` at lines 11-12 and `(e?.detail ?? []).map(parseGain)` at lines 17-18: a missing array gives no points; a present one gives one point per entry, each its `parseGain` |
| Wrappers.Option.GetOr | src/components/D3_Graph.jsx:11-17 | `??` yields the value when present and the default otherwise |
| GainGraph.XDomainMax | src/components/D3_Graph.jsx:50 | the x-domain's upper end is at least 1 and at least n - 1; it is exactly 1 up to two points and exactly n - 1 from two points on |
| GainGraph.TickCount | src/components/D3_Graph.jsx:84 | the tick count lies in [1, 6] and never exceeds the x-domain's upper end; it equals that end when the end is at most 6, and is 6 otherwise |
| TempoControl.StrudelDemo.constructor | src/App.js:30-33 | the state starts with the given tune text and no error |
| TempoControl.StrudelDemo.HandleSetCpm | src/App.js:55-67 | NaN or a value ≤ 0 sets `cpmError` and keeps the text; a positive value clears `cpmError` and rewrites the first `setcps(...)` into the call for that value |
| TempoControl.IsValidCpm | src/App.js:57 | the negation of `isNaN(value) \|\| value <= 0`: NaN is invalid, and a decimal is valid exactly when its value mantissa / 10^scale is positive |
| TempoControl.ReplaceFirstCall | src/App.js:66 | `prev.replace(/setcps\([^)]+\)/, replacement)`: with no match the text is unchanged; otherwise the text before the leftmost match and after its end is kept and the replacement stands in between (ReplaceLeftmost, ReplaceNoMatch and ReplaceIdempotent state the same from the match's grammar) |
| TempoControl.FirstClose | src/App.js:66 | the first ')' at or after a position: no ')' before it, and it is a ')' unless it is the end of the text |
| TempoControl.FirstCloseIs | src/App.js:66 | the first ')' is the only position with those properties |
| TempoControl.FindCall | src/App.js:66 | the scan returns a position where `setcps\([^)]+\)` matches and no earlier one; None means it matches nowhere |
| TempoControl.CallAtIsCall | src/App.js:66 | a match spans a string the pattern accepts: `setcps(`, at least one non-')' character, then ')' |
| TempoControl.IsCallIsCallAt | src/App.js:66 | any accepted string at a position is the match there, so a match has a single end |
| TempoControl.EmptyCallNoMatch | src/App.js:66 | `setcps()` with nothing inside is not a match |
| TempoControl.ReplaceNoMatch | src/App.js:66 | with no match, the rewrite leaves the text unchanged |
| TempoControl.ReplaceLeftmost | src/App.js:66 | only the leftmost match is replaced; the text before it and after it, later `setcps(...)` calls included, is kept |
| TempoControl.NoEarlierCall | src/App.js:66 | replacing a call with another call creates no match before it |
| TempoControl.CallAtReplaced | src/App.js:66 | the inserted call is a match in the rewritten text, ending where the insertion ends |
| TempoControl.ReplaceIdempotent | src/App.js:66 | rewriting with a replacement that is itself a call, a second time, changes nothing |
| TempoControl.SetCpmIdempotent | src/App.js:55-67 | setting the same valid tempo twice gives the same text as setting it once |
| TempoControl.SetcpsCall | src/App.js:66 | `setcps(${value}/60/4)` is a string the pattern accepts, and it holds no `$`, so `replace` inserts it literally |
| TempoControl.SetcpsCallValue | src/App.js:66 | the number written into the call reads back as the value that was set |
| TempoExamples.SetCpm120 | src/App.js:66 | setting 120 on `setcps(140/60/4)` gives `setcps(120/60/4)` |
| TempoExamples.SetCpmSkipsEmptyCall | src/App.js:66 | in `setcps() setcps(1)` the empty call is kept and the second call is replaced |
| TempoExamples.Render120 | src/App.js:66 | 120 is written `120` |
| TempoExamples.RenderHalf | src/App.js:66 | 0.5 is written `0.5` |
| TempoExamples.RenderTrailingZero | src/App.js:66 | 1.50 is written `1.5` |
| NumberText.Render | src/App.js:66 | `${value}` of a positive decimal is a numeric lexeme; if it has a point, it does not end in 0; it does not start with a point, and it starts with 0 only as `0.` (no leading zeros), which excludes forms such as `.5` and `0120` |
| NumberText.RenderSameValue | src/App.js:66 | `${value}` depends only on the number: two (mantissa, scale) pairs with the same value are written the same way |
| NumberText.RenderValue | src/App.js:66 | the rendered text reads back as exactly mantissa / 10^scale |

## Left out

- `preProcess`, `toggleSectionPrefix` and `handleToggle`: their modules (`src/utils/preProcessLogic`, `src/utils/MuteLogic`) are not part of this model.
- Playback, the Strudel editor, audio set-up, `handlePlay`, the volume effect and the `proc` element: these are side effects on foreign libraries and the DOM.
- The console patching and the `d3Data` event plumbing are not modelled. The handler's argument is modelled directly as `Option<seq<LogValue>>`. A `detail` that is present but not an array, which would throw in the source, is not modelled.
- D3 rendering is not modelled: scales, the gradient, the line, `d3.max` and the y-domain, and the axes beyond the two counts above.
- GainGraph.ParseGain: values are exact rationals, so the rounding of `Number()` to the nearest double is not modelled. The finiteness test compares the exact value with the least decimal that rounds to Infinity, (2^54 - 1) * 2^970.
- NumberText.Render: it does not model JavaScript's exponent notation for values of 10^21 and above or below 10^-6, nor the shortest round-trip digit choice of a double. It writes the exact decimal.
- TempoControl.CpmValue: `valueAsNumber` is NaN or a finite decimal. Infinity cannot come from a number input and is not modelled.
- TempoControl.ReplaceFirstCall: inserts the replacement literally. `String.prototype.replace` would expand `$&`, `` $` ``, `$'` and `$$` in a replacement string, and that is not modelled. So ReplaceFirstCall and ReplaceIdempotent describe `replace` only for replacements without `$`. This is harmless at src/App.js:66, because SetcpsCall ensures its result holds no `$`.
- TempoControl.StrudelDemo.HandleSetCpm: `setProcText` with an updater and `setCpmError` are modelled as immediate field assignments, so React's batching and re-rendering are not modelled.
