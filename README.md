# Container timing parser

A Dafny model of the text-processing core of `src/brane.py`. That script
runs a workflow with profiling turned on and captures the orchestrator's
standard output. It turns the output into three lists of durations in
microseconds, one per container metric: creation, launching and runtime.

The model has three parts, each with the Python built-ins it relies on:

- **Sanitizer** (`sanitizer.dfy`): the list comprehensions inside
  `run_benchmark`. They split the captured output on `"\n"`, drop the
  pieces that are blank after `strip()`, strip the others, and remove one
  leading `"- "` bullet.
- **Durations** (`durations.dfy`): the nested `convert_to_microseconds`. A
  value ending in `us` counts microseconds and one ending in `ms` counts
  milliseconds. Anything else is a `ValueError`, and so is a number that
  does not parse. Converting a list fails on the first bad value.
- **Extractor** (`extractor.dfy`): `parse_results`. Its `for` loop is the
  method `ScanLines`. The loop gives each line to at most one metric: the
  first whose label occurs in it, trying creation, then launching, then
  runtime. It removes every occurrence of that label to leave the value.
  The three lists are then converted in that order and returned under the
  keys `container_creation`, `container_launching` and `container_runtime`.
  The module `Profiles` states what parsing does to well-formed profile
  lines (label, number, unit).

Supporting modules: `Wrappers` (`Option`, `Result`) and `PyStr`
(`pystr.dfy`). `PyStr` models `str.isspace`, `strip`, `split` on one
character, `startswith`, `endswith`, the substring test `in` and `replace`
with an empty replacement, as CPython defines them. A raised `ValueError` is
the `Err` case of a `Result`. Its payload is the offending value
(`UnexpectedTimeFormat`) or the text that `int` rejected (`InvalidLiteral`).

Later revisions of the script add a `total_runtime` metric found by a
two-line pattern, an `s` suffix and an error when a metric has no values.
None of these is in `src/brane.py`, and the model follows that file: `"5s"`
is rejected, and a successful result always has exactly three keys, with an
empty list for a metric that has no lines. The label is removed with
`str.replace`, so every occurrence anywhere in the line goes, not only a
leading one.

## Model

| member | source | states |
|---|---|---|
| PyStr.Strip | src/brane.py:12-13 | `strip()` yields a slice of the line with only whitespace around it, starting and ending with non-whitespace; it is empty exactly when the line is all whitespace |
| PyStr.StripUnique | src/brane.py:12-13 | whitespace, then a trimmed text, then whitespace strips to exactly that text |
| PyStr.ContainsIff | src/brane.py:29-33 | the substring test `in` holds exactly when the pattern occurs at some index |
| PyStr.RemoveAll | src/brane.py:30-34 | `replace(label, "")` never lengthens the line; it keeps the length exactly when the label does not occur, and then leaves the line unchanged |
| PyStr.RemoveAllFirst | src/brane.py:30-34 | when the label occurs, `replace(label, "")` keeps the text before its first occurrence, deletes that occurrence and carries on with the text after it |
| PyStr.RemoveAllKeeps | src/brane.py:30-34 | text in which no occurrence of the label starts is kept unchanged in front of what the rest of the line becomes |
| PyStr.RemoveAllLeading | src/brane.py:30-34 | removing the label from a line that starts with it equals removing it from the rest |
| PyStr.RemoveAllSinglePass | src/brane.py:30-34 | removal is one left-to-right pass: "aabb" without "ab" is "ab", which still contains "ab" |
| PyStr.AbsentHead | src/brane.py:29-33 | a line in which the label's first character never occurs does not contain the label |
| PyStr.OnlyAtStart | src/brane.py:29-33 | a line holding the label's first character only at its start, and not starting with the label, does not contain it |
| PyStr.Split | src/brane.py:11 | `split("\n")` gives one piece more than there are newlines; no piece holds a newline; joining the pieces with newlines gives back the text |
| PyStr.SplitJoin | src/brane.py:11 | splitting the newline-join of newline-free pieces gives back those pieces |
| PyStr.SplitNoSeparator | src/brane.py:11 | a text without a newline splits into itself alone |
| PyStr.SplitAppend | src/brane.py:11 | splitting `a + "\n" + b` gives the pieces of `a` followed by those of `b` |
| Sanitizer.KeepNonBlank | src/brane.py:12-14 | at most one line per piece; every kept line is non-empty with no whitespace at either end; nothing is kept exactly when every piece is blank |
| Sanitizer.DropBullet | src/brane.py:17 | the line equals `"- "` + result exactly when it starts with `"- "`; otherwise it is unchanged; a trimmed non-empty line stays non-empty and does not end in whitespace |
| Sanitizer.DropBullets | src/brane.py:16-18 | one output line per input line, each with `DropBullet` applied |
| Sanitizer.Sanitize | src/brane.py:11-18 | at most one line per newline-separated piece; every line is non-empty and does not end in whitespace; the result is empty exactly when the output is all whitespace |
| Sanitizer.BlankJoin | src/brane.py:11-14 | a newline-join is all whitespace exactly when every piece is |
| Sanitizer.SanitizeAppend | src/brane.py:11-18 | order is preserved: sanitizing `a + "\n" + b` gives the lines of `a` followed by those of `b` |
| Sanitizer.SanitizeLine | src/brane.py:11-18 | a single piece gives nothing when blank, and otherwise its stripped form with one bullet removed |
| SanitizerExamples.SanitizeExample | src/brane.py:11-18 | `"  - foo  \n\n   \nbar"` sanitizes to `["foo", "bar"]` |
| SanitizerExamples.SanitizeBulletLine | src/brane.py:12-18 | a bulleted line with padding comes out as the text after the bullet |
| SanitizerExamples.SanitizeOneBullet | src/brane.py:12-18 | only one bullet is removed: `"- - x"` becomes `"- x"`; as the bullet is removed after stripping, `"-  x"` becomes `" x"`, which starts with a space |
| Durations.ParseNat | src/brane.py:38 | on the strings the model admits (ASCII digits only), `int` succeeds exactly on a non-empty string of decimal digits |
| Durations.ShowNat | src/brane.py:38 | the numeral of a number is a digit string without a leading zero (except for 0 itself) |
| Durations.ParseShowNat | src/brane.py:38 | parsing the numeral of `n` gives `n` |
| Durations.ParseLeadingZero | src/brane.py:38 | a leading zero does not change the parsed value |
| Durations.Scaled | src/brane.py:38-40 | a literal that is not a numeral fails with that literal, and only such a literal fails |
| Durations.ToMicroseconds | src/brane.py:36-42 | the value is rejected with itself as the error exactly when it ends in neither `us` nor `ms` |
| Durations.WithUnit | src/brane.py:37-40 | a literal followed by `us` or `ms` converts to its number times 1 or 1000, or fails on the literal |
| Durations.ShowWithUnit | src/brane.py:37-40 | `n` written with `us` converts to `n`, and with `ms` to `n * 1000` |
| Durations.ConvertedShape | src/brane.py:37-40 | every value that converts is a numeral followed by a unit, and converts to the numeral's value times the unit's factor |
| Durations.SuffixesExclusive | src/brane.py:37-39 | no value ends in both `us` and `ms`, so checking `us` first never hides an `ms` value |
| Durations.RejectedFormats | src/brane.py:41-42 | `"5s"`, `"5ns"` and `"abc"` fail with the unexpected-format error |
| Durations.RejectedLiterals | src/brane.py:38-40 | `"ms"`, `"0x5us"` and `"1.5ms"` fail because what precedes the unit is not a decimal integer, as `int` rejects `""`, `"0x5"` and `"1.5"` |
| Durations.ConvertAll | src/brane.py:44-46 | the list converts exactly when every value does, one result per value in order; otherwise the error is that of the first value that fails |
| Durations.ConvertAllConcat | src/brane.py:44-46 | converting a concatenation gives the two conversions concatenated |
| Extractor.Classify | src/brane.py:29-34 | a line's metric is one whose label it contains, and no label tried earlier occurs in it; it has none exactly when it contains no label |
| Extractor.Value | src/brane.py:30-34 | the value is shorter than the line exactly when the line contains the label |
| Extractor.ValueAtFirst | src/brane.py:30-34 | the value of a line is the text before the label's first occurrence followed by the value of the text after that occurrence |
| Extractor.Attributed | src/brane.py:28-34 | a metric's list has at most one entry per line |
| Extractor.AttributedPartition | src/brane.py:28-34 | the three lists and the lines carrying no label add up to the number of lines, so each line goes to at most one list |
| Extractor.AttributedConcat | src/brane.py:28-34 | the scan preserves order: it distributes over concatenation of the lines |
| Extractor.AttributedOne | src/brane.py:28-34 | a single line adds its value to its own metric's list and nothing to the others |
| Extractor.UnlabelledIgnored | src/brane.py:28-34 | inserting a line without any label changes no list |
| Extractor.AllConvertAttributed | src/brane.py:44-46 | a metric's values all convert exactly when every line attributed to it has a value that converts |
| Extractor.ScanLines | src/brane.py:24-34 | the loop leaves in each list the values of exactly the lines attributed to that metric, in order |
| Extractor.Dictionary | src/brane.py:48-52 | the result has exactly the three keys, each holding its metric's list |
| Extractor.Timings | src/brane.py:44-52 | the call succeeds exactly when all three lists convert, and then has exactly the three keys, each holding the conversions of its metric's values in order; otherwise it fails with the error of the first bad value, trying creation, then launching, then runtime |
| Extractor.ParseResults | src/brane.py:23-52 | the scan followed by the three conversions computes `Timings` |
| Extractor.TimingsOk | src/brane.py:44-46 | the call succeeds exactly when the value of every labelled line converts |
| Extractor.OneBadValueFails | src/brane.py:41-46 | one labelled line whose value does not convert makes the whole call fail |
| Extractor.NoLabels | src/brane.py:24-26 | output without any label gives the three keys, each with an empty list |
| Profiles.LabelShape | src/brane.py:3-5 | every label starts with `C` and has no other `C` |
| Profiles.LabelsDiffer | src/brane.py:3-5 | any two labels differ at their eleventh character |
| Profiles.OtherLabelAbsent | src/brane.py:29-33 | a line written as label, number and unit contains no other label |
| Profiles.RenderedLine | src/brane.py:28-34 | such a line goes to its own metric, and its value is the number with its unit |
| Profiles.PrefixedValue | src/brane.py:28-34 | text before the label stays in the value: a prefix without `C` in front of label, number and unit gives the prefix, the number and the unit |
| Profiles.PrefixedFails | src/brane.py:30-42 | so such a line whose prefix starts with a non-digit fails to convert, with the prefix and the number as the rejected literal |
| Profiles.RoundTrip | src/brane.py:23-52 | parsing the lines that report a list of samples gives, under each key, that metric's samples in microseconds and in order |
| Profiles.TwoLines | src/brane.py:23-52 | a creation line with `5ms` and a runtime line with `200us` give `[5000]`, `[]` and `[200]` |

## Left out

- Running the workflow (`src/brane.py:9-10`): the command line and `subprocess.run` are process I/O. `Sanitizer.Sanitize` takes the captured standard output as its argument.
- `main` (`src/brane.py:55-66`): it repeats the benchmark fifty times and stores the parsed results. This is orchestration with no behaviour of its own.
- Durations.ParseNat: models Python's `int` only on strings of ASCII decimal digits. `int` also accepts surrounding whitespace, a sign, single underscores between digits and non-ASCII decimal digits. For those inputs the model reports `InvalidLiteral` where Python returns a number. It also has no limit on the number of digits: since CPython 3.11 (and 3.10.7, 3.9.14, 3.8.14, 3.7.14), `int` raises `ValueError` on a decimal string of more than 4300 digits (`sys.int_info.default_max_str_digits`), which the model converts.
- Durations.ToMicroseconds: inherits that restriction, so a value such as `"-5us"` or `" 5ms"` is an error in the model but converts in Python. This is also why results are `nat` rather than any integer.
- The text of the `ValueError` messages is not modelled. The error carries the offending value instead.
- PyStr.RemoveAll: covers only a non-empty pattern, because the source replaces only the three non-empty labels.
- Features of later revisions that are not in this file: the two-line total-runtime pattern, the `s` suffix, the fatal error for a metric without values, regrouping results across runs, plotting and on-disk caching.
