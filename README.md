# Serial data logger core, in Dafny

A model of the data path of `MainScript`, the Unity component of a serial-port
data logger. It reads one line from a device each frame and cuts it at a
user-chosen delimiter. It parses the pieces as numbers and scales each one by a
per-column conversion factor. Each parsed line becomes a record in an
append-only log. The screen shows the last 30 records, and the whole log can be
exported as text (`.txt`/`.csv`) or JSON.

The model has five modules:

- `Tokenizer` (`tokenizer.dfy`) — the character-by-character scanning loop of
  `Update` (`Tokenize`) and the counting loop of `initConversionFactors`
  (`CountSegments`). Both are proved equal to a functional specification,
  `Candidates`: the line is cut wherever the growing token first ends with the
  delimiter. Lemmas show that `Candidates` is the usual split into
  delimiter-terminated segments:
  - it loses nothing (`Reassembles`);
  - it is the inverse of writing the segments back out (`RoundTrip`);
  - no candidate holds the delimiter;
  - an empty delimiter makes every character a candidate;
  - malformed numbers are dropped without disturbing the rest.
- `Calibration` (`calibration.dfy`) — the conversion-factor vector:
  - `Reconciled` is what the grow/shrink `while` loops produce, with its
    uniqueness, idempotence and composition laws;
  - `Overridden` is the single-entry update.
- `DataLog` (`datalog.dfy`) — the `DataLine` record and its well-formedness.
  It also holds:
  - the scaling loop (`BuildLine`, proved against `Scaled`);
  - the 30-line window;
  - the text rendering shared by the screen and the text export, with the
    lemma that the screen is exactly the tail of the export.
- `Acquisition` (`main_script.dfy`) — the `MainScript` class. Its fields are
  the delimiter, the parsing switch, the factor vector, the log and the screen
  text. Its methods are `Update` and the UI event handlers. Each method states
  its complete new state, and `Update` keeps the invariant `Valid()`: every
  record is well formed and the screen shows the rendering of the last 30
  records.
- `Wrappers` (`wrappers.dfy`) — `Option`.

What a frame reads from the port is an input value, `Read`:
- `PortClosed` — the port is not open;
- `TimedOut` — the 20 ms `TimeoutException`;
- `Received(line)` — the line `ReadLine` returned.

Three conversions of the .NET runtime are fixed per instance as function-valued
constants:
- `parse` for `Double.Parse`, where `None` is a `FormatException`;
- `show` for the number formatting of `String.Join`;
- `toJson` for `JsonUtility.ToJson`.

Numbers are Dafny `real`s.

In four places the code behaves in a way that is easy to misread; the model follows the code:
- An empty delimiter is accepted, not rejected. C#'s `String.Contains("")` is
  always true, so every character becomes its own candidate
  (`Tokenizer.EmptyDelimiter`).
- `initConversionFactors` appends its factors to whatever the vector already
  holds. It does not reset the vector to the counted length.
- The bootstrap count covers every delimiter-terminated segment, numeric or
  not. It is therefore an upper bound on the values a line yields, not their
  number (`Tokenizer.BootstrapBound`).
- `onConversionFactorEnter` with a dropdown entry past the end of the vector is
  not silently ignored. `Double.Parse` runs before the list is indexed, so a
  number entered there raises an `ArgumentOutOfRangeException` that the
  handler does not catch. The model reports this exception as the result
  `escaped`. Text that is not a number is ignored whatever the entry.

## Model

| member | source | states |
|---|---|---|
| Tokenizer.Tokenize | Assets/MainScript.cs:82-91 | the values the loop appends are exactly the parsed candidates of the line, in order, with the ones that fail to parse left out |
| Tokenizer.CountSegments | Assets/MainScript.cs:140-149 | the loop counts the delimiter-terminated segments before the first newline, numeric or not |
| Tokenizer.Reassembles | Assets/MainScript.cs:82-91 | each candidate written back with its delimiter, followed by the discarded trailing text, gives the line again; every candidate is a segment; the trailing text holds no further cut |
| Tokenizer.RoundTrip | Assets/MainScript.cs:82-91 | segments written out with their delimiters, followed by text without a cut, are split back into exactly those segments, with exactly that text trailing |
| Tokenizer.CandidatesHaveNoDelimiter | Assets/MainScript.cs:84-85 | with a non-empty delimiter, no candidate contains the delimiter: the token is cut at its first occurrence |
| Tokenizer.EmptyDelimiter | Assets/MainScript.cs:84-85 | with the empty delimiter, every character is a candidate of its own and nothing trails |
| Tokenizer.KeptDropsMalformed | Assets/MainScript.cs:86-88 | a candidate that does not parse is dropped without shifting or changing the values around it |
| Tokenizer.KeptAll | Assets/MainScript.cs:86-88 | a line yields one value per candidate exactly when every candidate parses, and then the values are the parses in order |
| Tokenizer.BootstrapBound | Assets/MainScript.cs:142-149 | on a line without newlines, the bootstrap count is at least the number of values the tokenizer keeps from it |
| Tokenizer.SingleCharSegment | Assets/MainScript.cs:84-85 | with a one-character delimiter, any text without that character is a segment |
| Tokenizer.CommaLineCandidates | Assets/MainScript.cs:82-91 | the line "1.0,2.0,x,3.0," has the candidates "1.0", "2.0", "x", "3.0" |
| Tokenizer.CommaLineExample | Assets/MainScript.cs:82-91 | with "x" malformed, that line yields the values 1.0, 2.0, 3.0 |
| Calibration.Ones | Assets/MainScript.cs:154-157 | the bootstrap loop appends `n` factors, each 1.0 |
| Calibration.Grown | Assets/MainScript.cs:165-167 | adding a column keeps every factor and puts 1.0 at the end |
| Calibration.Shrunk | Assets/MainScript.cs:168-170 | removing a column drops only the last factor |
| Calibration.Reconciled | Assets/MainScript.cs:94-95 | after the two loops the vector has the target length, keeps every factor below both lengths, and holds 1.0 in every new column |
| Calibration.ReconciledUnique | Assets/MainScript.cs:94-95 | those three properties determine the reconciled vector |
| Calibration.ReconcileSameLength | Assets/MainScript.cs:94-95 | a line with as many values as there are factors leaves the vector unchanged |
| Calibration.ReconcileIdempotent | Assets/MainScript.cs:94-95 | a second line with the same number of values changes nothing more |
| Calibration.ReconcileGrowThenShrink | Assets/MainScript.cs:94-95 | a longer line and then a shorter one leave the same vector as the shorter line alone |
| Calibration.ReconcileShrinkForgets | Assets/MainScript.cs:94-95 | after a shorter line, columns that come back start again from 1.0 |
| Calibration.GrowStep | Assets/MainScript.cs:94 | each pass of the growing loop keeps the vector on the way to the reconciled one |
| Calibration.ShrinkStep | Assets/MainScript.cs:95 | each pass of the shrinking loop keeps the vector on the way to the reconciled one |
| Calibration.Overridden | Assets/MainScript.cs:241 | an override replaces one factor and keeps the length and every other factor |
| Calibration.OverrideSurvives | Assets/MainScript.cs:241 | an overridden factor survives the next reconciliation to a length that still has its column |
| DataLog.WellFormedAppend | Assets/MainScript.cs:102 | appending a well-formed record keeps every record of the log well formed |
| DataLog.Products | Assets/MainScript.cs:96-99 | the products are the element-wise products of the values with the leading factors |
| DataLog.Scaled | Assets/MainScript.cs:96-99 | a record has three lists of equal length, its factors are the leading factors of the vector, and each product is the value times its factor |
| DataLog.WellFormedDetermined | Assets/MainScript.cs:18-22 | the products of a well-formed record are determined by its values and factors |
| DataLog.BuildLine | Assets/MainScript.cs:96-99 | the copy-and-multiply loop builds exactly the scaled record |
| DataLog.Window | Assets/MainScript.cs:108 | the window holds the last min(30, count) records of the log, in arrival order |
| DataLog.WindowAppend | Assets/MainScript.cs:102-108 | appending a record slides the window: the record becomes the last entry, and the oldest entry leaves only when the window was full |
| DataLog.RenderAllAppend | Assets/MainScript.cs:224-226 | the rendering of two runs of records is the concatenation of their renderings |
| DataLog.RenderAllExtend | Assets/MainScript.cs:108-109 | rendering one more record appends its line |
| DataLog.DisplayIsExportTail | Assets/MainScript.cs:107-110 | the text export is the rendering of the older records followed by exactly the screen text |
| DataLog.JoinPair | Assets/MainScript.cs:109 | two parts are joined with the separator between them |
| DataLog.RenderPair | Assets/MainScript.cs:224-226 | two records render as their two lines, the older first |
| DataLog.RenderLinePair | Assets/MainScript.cs:109 | a record with two values renders as both formatted values, ", " between them, and a newline |
| DataLog.ExportExample | Assets/MainScript.cs:221-227 | when `show` prints 1.0, 2.0, 3.0 and 4.0 as "1", "2", "3" and "4" (as `Double.ToString()` does), records with values [1.0, 2.0] and [3.0, 4.0] export as "1, 2\n3, 4\n" |
| DataLog.RenderedLineCount | Assets/MainScript.cs:109 | when no formatted number contains a newline, the rendering has one text line per record |
| DataLog.ScreenLineCount | Assets/MainScript.cs:107-110 | the screen shows min(30, count) text lines |
| Acquisition.BootstrapCoversLine | Assets/MainScript.cs:137-157 | for a line `ReadLine` returned, the factors the bootstrap adds are at least as many as the values `Update` keeps from the same line |
| Acquisition.TextExportEndsWithScreen | Assets/MainScript.cs:221-227 | a `.txt` or `.csv` export holds every record and ends with exactly the screen text |
| Acquisition.IngestedRecord | Assets/MainScript.cs:94-99 | the appended record carries the whole reconciled vector, and each value is scaled by its column's earlier factor, or by 1.0 for a new column |
| Acquisition.MainScript.constructor | Assets/MainScript.cs:26-32 | the component starts with no delimiter, not parsing, no factors, an empty log and an empty screen (taken as ""; see Left out) |
| Acquisition.MainScript.FixConversionFactors | Assets/MainScript.cs:164-172 | the vector grows by one 1.0 or loses its last factor, and nothing else changes |
| Acquisition.MainScript.Reconcile | Assets/MainScript.cs:94-95 | the two loops leave the reconciled vector, and nothing else changes |
| Acquisition.MainScript.InitConversionFactors | Assets/MainScript.cs:134-161 | one 1.0 per counted segment is appended to the existing vector, and nothing else changes |
| Acquisition.MainScript.OnDelimiterInput | Assets/MainScript.cs:194-199 | the delimiter is replaced, and factors for the next line's segments under the new delimiter are appended |
| Acquisition.MainScript.OnStartParsingButton | Assets/MainScript.cs:202-209 | the parsing switch flips, and nothing else changes |
| Acquisition.MainScript.ScreenText | Assets/MainScript.cs:107-110 | the redraw loop produces the rendering of the window of the last 30 records |
| Acquisition.MainScript.Ingest | Assets/MainScript.cs:78-102 | a line that arrives is tokenized, the vector is reconciled to the number of values, and exactly one scaled record is appended at the end of the log |
| Acquisition.MainScript.Update | Assets/MainScript.cs:70-111 | when not parsing nothing changes; when parsing, a received line appends exactly one record and a timeout or a closed port leaves the log and the factors alone; the records stay well formed and the screen shows the last 30 |
| Acquisition.MainScript.OnConversionFactorEnter | Assets/MainScript.cs:238-244 | entry 0 and text that is not a number change nothing; otherwise the chosen factor takes the number, or the out-of-range exception is reported and nothing changes |
| Acquisition.MainScript.OnFileSaveButton | Assets/MainScript.cs:212-235 | the file name is the name followed by the type; the contents are the rendering of every record for ".txt" and ".csv", the JSON form for ".json", and empty for any other type |

## Left out

- The serial transport is not modelled: opening the port, `initSerialPort`, `onSerialPortDropdown`, `onBaudRateDropdown` (with its `Int32.Parse` of the baud-rate label), `SerialPort.GetPortNames` in `Start`, and `DiscardInBuffer` in `onStartParsingButton`. What a frame reads is an input to `Update`. An `InvalidOperationException` from `ReadLine` is not modelled.
- The bootstrap read in `initConversionFactors` is an input of type `Read`. `ReadLine` returns a line without its newline, so the check for '\n' in that loop never fires on real input. The model keeps the check all the same. `print(str)` is not modelled.
- Acquisition.MainScript.constructor: the initial screen text is taken to be "". The source never sets `parsedDataText` before the first `Update`; its first text comes from the Unity scene. `Valid()` holds from construction only under that assumption.
- Unity UI state is not modelled: the dropdown options that mirror the factor vector (the "Input n" labels), the `interactable` flags, the button label, and the `GameObject.Find` lookups in `Start`.
- `Acquisition.MainScript.FixConversionFactors`: requires a non-empty vector when removing. In the source, removing from an empty list throws, but the removal loop never calls it on an empty vector.
- Floating point is not modelled. `double` is `real`, so multiplication is exact and there is no infinity, NaN or rounding.
- Culture-dependent parsing and formatting are parameters (`parse`, `show`), not fixed functions. `OverflowException` from `Double.Parse` on older runtimes is not modelled.
- `JsonUtility.ToJson` is the uninterpreted parameter `toJson`. The JSON layout is not modelled, and neither is its round trip.
- `File.WriteAllTextAsync` is not modelled: `OnFileSaveButton` returns the path and the text that would be written. Write failures and the asynchronous completion are not modelled.
- `onQuitButton` (`Application.Quit`) is not modelled.
