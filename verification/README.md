# falsediscovery in Dafny

A verified model of the two components of the Go library `falsediscovery`.

**The Benjamini-Hochberg correction engine** (`BenjaminiHochberg`) works in place on an array of
`Value` objects:
- it rejects an FDR outside (0, 1) before touching anything;
- it sorts the records by p-value;
- it writes each record's critical value (k+1)/n·FDR and its raw estimate min(1, n/(k+1)·p);
- it repairs the raw estimates with repeated forward scans until they are monotone.

Each step is a method proved against pure functions in module `Adjustment`. The repaired values
are proved equal to the standard BH adjusted p-values, the suffix minima of the raw estimates,
whenever the function returns without error. The model also proves when the convergence error
fires. It fires on valid input (see Findings). A corrected engine that repairs in one
right-to-left sweep is proved to always succeed with the same values.

**The input parser** is covered in four parts:
- `detectFields` picks the ID column and the p-value column of a record.
- `GuessDelimiter` tries space, comma, tab, bar and tab again on the first at most five lines.
- `ParseDelimitedInput` normalises `\r\n` line ends and splits the text into lines. It guesses the
  delimiter, falling back to a comma when the first line is a bare number. It then reads the
  original input record by record into fresh `Value` objects, all or nothing.
- The `Value` class carries the getters, the setters and `Significant`.

Each Go loop is a Dafny method whose result is proved equal to a closed-form specification
function (`Detected`, `Guess`, `Delimiter`, `ParseRecords`, `Parse`). Properties are stated
about those functions. The library's own test inputs appear as lemmas in `ParserExamples`.

`encoding/csv` and `strconv` are not modelled. They enter as a `Library` value with three
functions:
- `read(text, delim)`: the successive results of `csv.Reader.Read`, each a record, an error, or
  `io.EOF`;
- `isInt`: whether `ParseInt` base 10, 64 bits accepts a token;
- `parseFloat`: what `ParseFloat` 64 bits makes of a token.

The only property assumed of the reader is csv's field-count rule, `Library.Valid`: every record a
reader returns without error has as many fields as the first. `strings.Replace`, `strings.Split`
and `strings.Join` are modelled concretely in module `Text`.

The convergence error says the repair could not finish after 200 iterations (falsediscovery.go:65).
The loop at falsediscovery.go:46-66 actually runs scans 0 through 201, so 202 scans, before it
returns that error. The model follows the loop.

Files:
- `values.dfy`: the `Value` class.
- `adjustment.dfy`: the BH arithmetic and the repair passes.
- `falsediscovery.dfy`: the engine.
- `text.dfy`: the string functions.
- `csv.dfy`: the reader interface.
- `parser.dfy`: the parser.
- `parser_examples.dfy`: the test inputs.
- `wrappers.dfy`: `Option`.

## Model

| member | source | states |
|---|---|---|
| Values.Value.constructor | parser.go:156-160 | a new record holds the given ID and p-value; its critical and adjusted values are zero |
| Values.Value.SetAdjustedPValue | parser.go:18-20 | the getter returns the value set; the critical value is unchanged; only that field is written |
| Values.Value.SetCriticalValue | parser.go:22-24 | the getter returns the value set; the adjusted value is unchanged; only that field is written |
| Adjustment.RawAdjusted | falsediscovery.go:42 | the raw estimate of rank k+1 of n is at most 1, at most n/(k+1)·p, and not negative for a non-negative p |
| Adjustment.SuffixMin | falsediscovery.go:45-67 | the least value from position k on is at most every value from k on |
| Adjustment.SuffixMinAttained | falsediscovery.go:45-67 | that least value is one of the values, so the repair only ever copies existing values |
| Adjustment.SuffixMinNonNegative | falsediscovery.go:50-54 | suffix minima of non-negative values are non-negative, so the first slot is never below the scan's starting lastP of 0.0 |
| Adjustment.SuffixMins | falsediscovery.go:45-67 | the canonical monotone repair: non-decreasing, elementwise the suffix minimum, never above the input |
| Adjustment.BhAdjusted | falsediscovery.go:34-67 | the BH adjusted p-values: non-decreasing, at most the raw estimate and at most 1, the suffix minimum of the raw estimates |
| Adjustment.DescentBeforeMeaning | falsediscovery.go:47-58 | a scan's backtracked flag after k reads is set exactly when the first k values are not monotone |
| Adjustment.NonDecreasingPrefix | falsediscovery.go:49-58 | a monotone prefix stays monotone one element longer exactly when the new element is at least its left neighbour |
| Adjustment.PassLowers | falsediscovery.go:51-56 | a scan only lowers values, and only to the right neighbour's value |
| Adjustment.PassFixpoint | falsediscovery.go:47-63 | a scan changes nothing exactly when the values are already monotone |
| Adjustment.PassesStable | falsediscovery.go:46-63 | once the scans have made the values monotone, further scans change nothing |
| Adjustment.PassesBounds | falsediscovery.go:46-63 | after any number of scans each value lies between its suffix minimum and its raw value |
| Adjustment.PassesSettle | falsediscovery.go:46-63 | after m scans the last m+1 values hold their final suffix minima |
| Adjustment.PassesConverge | falsediscovery.go:46-66 | for n values, n-1 scans reach the suffix minima, so at most 202 values can never hit the convergence error |
| Adjustment.MonotonePassesIsSuffixMins | falsediscovery.go:46-63 | when the scans stop without a fix, the values are exactly the suffix minima |
| Adjustment.ScaleCompare | falsediscovery.go:37-42 | n/(k+1)·p stays below a bound q exactly when p stays below the critical value for q |
| Adjustment.RawVsCritical | falsediscovery.go:37-42 | for q < 1, the raw estimate is at most q exactly when p is at most the critical value for q |
| Adjustment.StepUp | falsediscovery.go:34-67 | the BH step-up rule: the adjusted value at k is at most q < 1 exactly when some p at or after k is at most its critical value |
| Adjustment.SignificantBelowFdr | parser.go:34-40 | a record whose p-value is below its critical value has a BH adjusted p-value below the FDR |
| Adjustment.FixtureNoRepair | falsediscovery_test.go:66-73 | the first test batch needs no repair and adjusts to 0.06, 0.09, 0.10, 0.18, 0.24, 0.3 |
| Adjustment.FixtureRepair | falsediscovery_test.go:77-89 | the second test batch is non-monotone and adjusts to the expected values, with B lowered to C's 0.008498 |
| Adjustment.FixtureSomeSignificant | falsediscovery_test.go:91-110 | the third test batch is non-monotone; every BH adjusted value is within the tests' tolerance of 1e-7 of the expected one |
| Adjustment.OneScanRepairs | falsediscovery.go:46-63 | values that one scan makes monotone are repaired to that scan's result |
| Adjustment.PassesShift | falsediscovery.go:46-63 | on strictly decreasing values, m scans move every value m slots left |
| Adjustment.DecreasingOutlastsPasses | falsediscovery.go:46-66 | strictly decreasing values of length more than m+1 are still not monotone after m scans |
| Adjustment.TiedRaw | falsediscovery.go:42 | for n tied p-values c with n·c <= 1 the cap never applies: the raw estimates are n/(k+1)·c |
| Adjustment.TiedRawDecreasing | falsediscovery.go:42 | those raw estimates strictly decrease |
| Adjustment.TiedPValuesExhaustCap | falsediscovery.go:64-66 | for 203 or more tied p-values c with 0 < c <= 1/n, 201 scans still leave the values non-monotone |
| FalseDiscovery.SortByP | falsediscovery.go:32 | the array ends sorted ascending by p-value and is a permutation of its input; ties are left open |
| FalseDiscovery.Insert | falsediscovery.go:32 | one insertion step extends the sorted prefix by one and keeps the multiset |
| FalseDiscovery.AssignRanks | falsediscovery.go:34-43 | every critical value is (k+1)/n·FDR and the adjusted values are the raw estimates |
| FalseDiscovery.Scan | falsediscovery.go:47-60 | one scan leaves Pass of the values, reports a fix exactly when they were not monotone, and keeps the critical values |
| FalseDiscovery.RepairMonotonicity | falsediscovery.go:45-67 | converges exactly when 201 scans leave the values monotone, and then holds the suffix minima; otherwise it stops after 202 scans, which needs more than 202 values |
| FalseDiscovery.BenjaminiHochberg | falsediscovery.go:27-70 | a bad FDR changes nothing; otherwise the array is a sorted permutation with the critical values set; Ok holds the BH adjusted p-values, and every significant record is below the FDR; the error leaves the 202-scan state |
| FalseDiscovery.TiedBatchNotConverged | falsediscovery.go:64-66 | a valid batch of 203 or more tied p-values at most 1/n fails the convergence condition, so BenjaminiHochberg returns the error for it |
| FalseDiscovery.RepairBySweep | falsediscovery.go:45-67 | corrected repair: one right-to-left sweep leaves exactly the suffix minima, whatever the batch size, and keeps the critical values |
| FalseDiscovery.CarryMin | falsediscovery.go:51-56 | one sweep step: the left slot keeps the smaller of its own value and its neighbour's |
| FalseDiscovery.BenjaminiHochbergSweep | falsediscovery.go:27-70 | corrected engine: never the convergence error; a bad FDR changes nothing; Ok gives the sorted permutation, the critical values and the BH adjusted p-values |
| Text.SplitSingle | parser.go:112 | text without a line feed splits into itself alone |
| Text.Split | parser.go:112 | strings.Split on a line feed always yields at least one line |
| Text.JoinSplit | parser.go:112 | joining the pieces of a split with the line feed gives back the text |
| Text.SplitPrefix | parser.go:112 | a line without a line feed, followed by one, splits off as the first piece |
| Text.SplitJoin | parser.go:112 | splitting undoes joining for lines that hold no line feed |
| Text.SplitCount | parser.go:112 | text holding a line feed yields at least two lines |
| Text.ReplaceCrlfNoCr | parser.go:112 | text without a carriage return is left unchanged by the line-end replacement |
| Text.ReplaceCrlfAppend | parser.go:112 | the replacement passes over a prefix without a carriage return |
| Text.ReplaceCrlfJoin | parser.go:112 | lines joined with "\r\n" become the same lines joined with "\n" |
| Text.Lines | parser.go:112 | the parser's lines are never empty and join back to the normalised input |
| Text.CrlfLines | parser.go:109-112 | input sent with Windows line ends yields exactly the lines sent |
| Csv.ReadAt | parser.go:134-139 | a record can only come from one of the listed reads; the reads after them give no record |
| Csv.Leading | parser.go:133-139 | the reads from i up to the first non-record are all records |
| Csv.RecordCount | parser.go:133-139 | the read loop sees exactly the leading records and then a non-record |
| Csv.RecordCountAt | parser.go:133-139 | a loop that read i records and then no record has seen all the records |
| Parser.FirstFloat | parser.go:177-180 | the first float-parseable field at or after k, or -1 when there is none |
| Parser.Detected | parser.go:168-197 | both chosen columns lie in [-1, n); a chosen p-value column is float-parseable and differs from the ID column |
| Parser.DetectedPValueField | parser.go:171-185 | no field other than the ID column before the p-value column parses as a float |
| Parser.DetectedIdField | parser.go:171-190 | the ID column is missing only for an empty record or a single bare non-integer number; a leading integer is the ID; the ID is never past the second field |
| Parser.DetectFields | parser.go:168-197 | the loop's columns are the closed form Detected, and the error is returned exactly when no p-value column was found |
| Parser.Tried | parser.go:51-54 | the guess looks at all lines when there are at most five, otherwise five |
| Parser.FirstAccepted | parser.go:58-97 | the first accepted candidate in order from c on, with every earlier one rejected; or none accepted |
| Parser.Guess | parser.go:49-101 | a guessed delimiter is a candidate whose reads pass; no guess exactly when every candidate is rejected |
| Parser.GuessDelimiter | parser.go:49-101 | the loop returns the first accepted candidate; when none is accepted, a space with the error |
| Parser.Delimiter | parser.go:112-126 | the guess, else a comma when the first line is a float; an error exactly when neither applies |
| Parser.RowsUpTo | parser.go:151-160 | the rows of the first n records have one row per record |
| Parser.RowsUpToMeaning | parser.go:151-160 | rows exist exactly when every p-value column parses; row k holds that float and the ID column, or "" without one |
| Parser.RowsUpToDetermined | parser.go:151-160 | any rows that match the columns record by record are the rows |
| Parser.ParseRecords | parser.go:128-163 | a read error, or no p-value column in the first record, is an error; success gives one row per record |
| Parser.Parse | parser.go:108-164 | when no delimiter is settled on, the input is an error |
| Parser.ReadValues | parser.go:128-163 | the read loop succeeds exactly when ParseRecords does; on success it yields fresh distinct values holding the rows in order with zero critical and adjusted values; on error no values |
| Parser.ParseDelimitedInput | parser.go:108-164 | succeeds exactly when Parse does; the values are fresh and distinct and hold Parse's rows in order; on error there are none |
| ParserExamples.BareNumberHasNoId | falsediscovery_test.go:156-162 | the lone token "0.025" gives no ID column and p-value column 0 |
| ParserExamples.BareNumberInput | parser.go:115-123 | a single bare number: no candidate is guessed, the comma fallback applies, and the one row has an empty ID |
| ParserExamples.ChangedDelimiter | falsediscovery_test.go:137-145 | space is guessed from the first two lines; the third line's comma makes the input an error |
| ParserExamples.NoPValueInFirstLine | falsediscovery_test.go:146-154 | no field of the first record is a float, so detection fails and the input is an error |
| ParserExamples.NoPValueInSubsequentLine | falsediscovery_test.go:164-172 | the third record's p-value does not parse, so the whole input is an error |
| ParserExamples.TabDelimited | falsediscovery_test.go:180-182 | tab is guessed and the three rows come out in order with the integer column as ID |
| ParserExamples.SpaceDelimited | falsediscovery_test.go:183-185 | space is guessed at once and the same three rows come out as for the tab input |
| ParserExamples.CommaDelimited | falsediscovery_test.go:189-191 | space gives one field per record, comma is guessed, and the same three rows come out |
| ParserExamples.MixedSpace | falsediscovery_test.go:186-188 | a doubled space rejects every candidate and the input is an error |

## Left out

- float64 is modelled as exact reals. Rounding, NaN and ±Inf are not modelled. A NaN FDR would pass the range check and NaN p-values break the sort comparator; neither can be expressed over reals.
- The `TestStatistic` interface is not modelled. The engine works directly on an array of `Value` objects, the only implementation in the library.
- `helpers.go` (`ValuesToTestStatistics`) only converts a slice to the interface type and is not part of this model.
- Tokenisation by `encoding/csv` is not modelled: quotes, blank-line skipping and field counting. Nor are `strconv.ParseInt` and `ParseFloat`. They are the `Library` parameter; the reader is assumed only to obey the field-count rule.
- Error messages built with `fmt.Errorf` are not modelled. Errors are the `Outcome` tags, a `false` flag, or `None`.
- The tie order of `sort.Slice` is left open. The insertion sort may order equal p-values differently from Go.
- The random-input test and the logging of the test file are not modelled. Only its fixed inputs are.
- FalseDiscovery.BenjaminiHochberg: requires non-negative p-values when the FDR is valid. With a negative smallest p-value, Go's first scan indexes `pValues[-1]` and panics.
- FalseDiscovery.BenjaminiHochberg: requires distinct objects in the array. Go would alias a repeated pointer, so writes to one slot would change another.
- FalseDiscovery.RepairMonotonicity: requires non-negative adjusted values and distinct objects. That is what the engine hands it.
- FalseDiscovery.Scan: requires a non-negative first value and distinct objects, for the same reason.
- Parser.ParseDelimitedInput: requires `Library.Valid`, csv's field-count rule. Without it, Go's `rec[pField]` could index past a short record.
- Parser.Parse: requires `Library.Valid` for the same reason. Its own ensures states only the delimiter error; the record-level behaviour is stated on Parser.ParseRecords and Parser.RowsUpToMeaning, and Parser.ParseDelimitedInput is proved equal to it.
- The `else if err != nil` branch of `ParseDelimitedInput` is not modelled as reachable. `strings.Split` always yields a line, so it is dead; the model proves that.
- Scan order inside `GuessDelimiter` is not modelled read by read. The reads are a precomputed list per candidate, so a reader that would block or fail lazily is not represented.

## Findings

| source | as written | input that shows it | evidently intended | confidence | as-written member | corrected member |
|---|---|---|---|---|---|---|
| falsediscovery.go:64-66 | the repair gives up when scan number 201 still makes a fix. A strictly decreasing sequence of raw estimates needs n-1 scans, so any such batch of 203 or more values returns the convergence error | 203 records that all have p-value 0.001 with FDR 0.05: the raw estimates 0.203/(k+1) strictly decrease, and BenjaminiHochberg returns the "nonmonotonic P values" error | BH adjusted p-values for every valid batch, as the single right-to-left running-minimum sweep gives | high, not executed | FalseDiscovery.TiedBatchNotConverged | FalseDiscovery.BenjaminiHochbergSweep |
