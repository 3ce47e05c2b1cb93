/**
 * The `MainScript` component: its state (delimiter, parsing switch, factor
 * vector, log of parsed lines, the on-screen text) and the event handlers
 * that change it. The serial port is reduced to what one `ReadLine` call
 * gives back, and the three culture-dependent conversions of the runtime
 * (`Double.Parse`, `Double.ToString`, `JsonUtility.ToJson`) are fixed when
 * the component is created.
 */
module Acquisition {
  import opened Wrappers
  import opened Tokenizer
  import opened Calibration
  import opened DataLog

  /**
   * What one frame gets from the serial port: the port is not open, the
   * 20 ms read timeout expired, or `ReadLine` returned a line (without its
   * terminating newline).
   */
  datatype Read = PortClosed | TimedOut | Received(line: string)

  /**
   * The number of factors `initConversionFactors` adds for a read: the
   * delimiter-terminated segments before the first newline when a line
   * arrived, none otherwise.
   */
  function BootstrapCount(read: Read, d: string): (n: nat)
  {
    match read
    case Received(line) => |Candidates(FirstLine(line), d)|
    case _ => 0
  }

  /**
   * The factors the bootstrap adds for a line that `ReadLine` returned (so
   * without newlines) are enough for every value `Update` reads from that
   * same line: segments that are not numbers are counted but not kept.
   */
  lemma BootstrapCoversLine(read: Read, d: string, parse: string -> Option<real>)
    ensures read.Received? && '\n' !in read.line ==>
      BootstrapCount(read, d) >= |Kept(Candidates(read.line, d), parse)|
  {
    if read.Received? && '\n' !in read.line {
      BootstrapBound(read.line, d, parse);
    }
  }

  /** The file contents `onFileSaveButton` writes for a file type; an unknown type writes nothing. */
  function Exported(log: seq<DataLine>, fileType: string, show: real -> string,
                    toJson: seq<DataLine> -> string): (text: string)
  {
    if fileType == ".txt" || fileType == ".csv" then RenderAll(log, show)
    else if fileType == ".json" then toJson(log)
    else ""
  }

  /**
   * A text export holds every record and ends with exactly the text on screen,
   * so nothing shown is ever missing from the file.
   */
  lemma TextExportEndsWithScreen(log: seq<DataLine>, fileType: string, show: real -> string,
                                 toJson: seq<DataLine> -> string)
    requires fileType == ".txt" || fileType == ".csv"
    ensures var screen := RenderAll(Window(log, BufferSize), show);
      var text := Exported(log, fileType, show, toJson);
      |screen| <= |text| && text[|text| - |screen|..] == screen
  {
    DisplayIsExportTail(log, BufferSize, show);
  }

  /**
   * The record `Update` appends for a line with values `raw` when the factor
   * vector was `f`: its factors are the whole reconciled vector, and each value
   * is scaled by the factor the user left for its column, or by 1.0 for a
   * column the vector did not have yet.
   */
  lemma IngestedRecord(raw: seq<real>, f: seq<real>)
    ensures var dl := Scaled(raw, Reconciled(f, |raw|));
      && dl.conversionFactors == Reconciled(f, |raw|)
      && forall i :: 0 <= i < |raw| ==> dl.parsedData[i] == raw[i] * (if i < |f| then f[i] else DefaultFactor)
  {
  }

  class MainScript {
    /** `Double.Parse`; `None` is a `FormatException`. */
    const parse: string -> Option<real>
    /** `Double.ToString()`, as used by `String.Join`. */
    const show: real -> string
    /** `JsonUtility.ToJson` applied to the log. */
    const toJson: seq<DataLine> -> string

    var delimiter: string
    var parsing: bool
    var factors: seq<real>
    var log: seq<DataLine>
    /** The text of the scrolling data view. */
    var display: string

    /** Every record is well formed and the screen shows the rendering of the last `BufferSize` records. */
    ghost predicate Valid()
      reads this
    {
      && (forall k :: 0 <= k < |log| ==> WellFormed(log[k]))
      && display == RenderAll(Window(log, BufferSize), show)
    }

    /** The component as Unity creates it: no delimiter, not parsing, no factors, no data. */
    constructor (parse: string -> Option<real>, show: real -> string, toJson: seq<DataLine> -> string)
      ensures Valid()
      ensures this.parse == parse && this.show == show && this.toJson == toJson
      ensures delimiter == "" && !parsing && factors == [] && log == [] && display == ""
    {
      this.parse := parse;
      this.show := show;
      this.toJson := toJson;
      delimiter := "";
      parsing := false;
      factors := [];
      log := [];
      display := "";
      assert Window([], BufferSize) == [];
    }

    /** `fixConversionFactors`: add a default factor, or remove the last one. */
    method FixConversionFactors(add: bool)
      requires add || |factors| > 0
      modifies this
      ensures factors == if add then Grown(old(factors)) else Shrunk(old(factors))
      ensures delimiter == old(delimiter) && parsing == old(parsing)
      ensures log == old(log) && display == old(display)
    {
      if add {
        factors := factors + [DefaultFactor];
      } else {
        factors := factors[..|factors| - 1];
      }
    }

    /** The two `while` loops of `Update`: grow or shrink the factors to `target` columns. */
    method Reconcile(target: nat)
      modifies this
      ensures factors == Reconciled(old(factors), target)
      ensures delimiter == old(delimiter) && parsing == old(parsing)
      ensures log == old(log) && display == old(display)
    {
      ghost var f0 := factors;
      ReconcileSameLength(f0);
      while |factors| < target
        invariant |f0| <= |factors| && factors == Reconciled(f0, |factors|)
        invariant |factors| <= target || factors == f0
        invariant delimiter == old(delimiter) && parsing == old(parsing)
        invariant log == old(log) && display == old(display)
        decreases target - |factors|
      {
        GrowStep(f0, factors, target);
        FixConversionFactors(true);
      }
      while |factors| > target
        invariant target <= |factors| && factors == Reconciled(f0, |factors|)
        invariant |factors| > target ==> |factors| <= |f0|
        invariant delimiter == old(delimiter) && parsing == old(parsing)
        invariant log == old(log) && display == old(display)
        decreases |factors| - target
      {
        ShrinkStep(f0, factors, target);
        FixConversionFactors(false);
      }
    }

    /**
     * `initConversionFactors`: count the segments of one line and append a
     * default factor for each; a timeout or a closed port adds none.
     */
    method InitConversionFactors(read: Read)
      modifies this
      ensures factors == old(factors) + Ones(BootstrapCount(read, delimiter))
      ensures delimiter == old(delimiter) && parsing == old(parsing)
      ensures log == old(log) && display == old(display)
    {
      ghost var f0 := factors;
      var size := 0;
      if read.Received? {
        size := CountSegments(read.line, delimiter);
      }
      for i := 1 to size + 1
        invariant factors == f0 + Ones(i - 1)
        invariant delimiter == old(delimiter) && parsing == old(parsing)
        invariant log == old(log) && display == old(display)
      {
        OnesSnoc(f0, i - 1);
        factors := factors + [DefaultFactor];
      }
    }

    /** `onDelimeterInput`: take the new delimiter and bootstrap the factors from the next line. */
    method OnDelimiterInput(text: string, read: Read)
      modifies this
      ensures delimiter == text
      ensures factors == old(factors) + Ones(BootstrapCount(read, text))
      ensures parsing == old(parsing) && log == old(log) && display == old(display)
    {
      delimiter := text;
      InitConversionFactors(read);
    }

    /** `onStartParsingButton`: toggle whether `Update` reads lines. */
    method OnStartParsingButton()
      modifies this
      ensures parsing == !old(parsing)
      ensures delimiter == old(delimiter) && factors == old(factors)
      ensures log == old(log) && display == old(display)
    {
      parsing := !parsing;
    }

    /** The display loop of `Update`: the rendering of the last `BufferSize` records, oldest first. */
    method ScreenText() returns (text: string)
      ensures text == RenderAll(Window(log, BufferSize), show)
    {
      text := "";
      var from := if |log| > BufferSize then |log| - BufferSize else 0;
      for i := from to |log|
        invariant text == RenderAll(log[from..i], show)
      {
        RenderAllExtend(log, from, i, show);
        text := text + RenderLine(log[i], show);
      }
      assert log[from..|log|] == Window(log, BufferSize);
    }

    /**
     * The part of `Update` that handles a line that arrived: it is cut at the
     * delimiter, its numeric segments become the raw values, the factor vector
     * is brought to their number, and the scaled record is appended to the log.
     */
    method Ingest(line: string)
      requires forall k :: 0 <= k < |log| ==> WellFormed(log[k])
      modifies this
      ensures forall k :: 0 <= k < |log| ==> WellFormed(log[k])
      ensures var raw := Kept(Candidates(line, delimiter), parse);
        && factors == Reconciled(old(factors), |raw|)
        && log == old(log) + [Scaled(raw, factors)]
      ensures delimiter == old(delimiter) && parsing == old(parsing) && display == old(display)
    {
      var raw := Tokenize(line, delimiter, parse);
      Reconcile(|raw|);
      var dl := BuildLine(raw, factors);
      WellFormedAppend(log, dl);
      log := log + [dl];
    }

    /**
     * `Update`, once per frame. While parsing, a line that arrives is ingested
     * and a timeout or a closed port adds nothing; the screen is then redrawn.
     * When not parsing, nothing changes.
     */
    method Update(read: Read)
      requires Valid()
      modifies this
      ensures Valid()
      ensures delimiter == old(delimiter) && parsing == old(parsing)
      ensures !old(parsing) ==> factors == old(factors) && log == old(log) && display == old(display)
      ensures old(parsing) && read.Received? ==>
        var raw := Kept(Candidates(read.line, delimiter), parse);
        && factors == Reconciled(old(factors), |raw|)
        && log == old(log) + [Scaled(raw, factors)]
      ensures old(parsing) && !read.Received? ==> factors == old(factors) && log == old(log)
    {
      if !parsing {
        return;
      }
      if read.Received? {
        Ingest(read.line);
      }
      display := ScreenText();
    }

    /**
     * `onConversionFactorEnter`: dropdown entry `value` (0 is the placeholder)
     * selects factor `value - 1`, which gets the number typed in `text`. Text
     * that is not a number is ignored. The number is parsed before the list is
     * indexed, so an entry past the end of the vector raises an exception only
     * when the text parses; `escaped` reports that exception, which the handler
     * does not catch.
     */
    method OnConversionFactorEnter(value: nat, text: string) returns (escaped: bool)
      modifies this
      ensures value != 0 && parse(text).Some? && value - 1 < |old(factors)| ==>
        factors == Overridden(old(factors), value - 1, parse(text).value) && !escaped
      ensures !(value != 0 && parse(text).Some? && value - 1 < |old(factors)|) ==>
        factors == old(factors) && (escaped <==> value != 0 && parse(text).Some?)
      ensures delimiter == old(delimiter) && parsing == old(parsing)
      ensures log == old(log) && display == old(display)
    {
      escaped := false;
      if value != 0 {
        var v := parse(text);
        if v.Some? {
          if value - 1 < |factors| {
            factors := factors[value - 1 := v.value];
          } else {
            escaped := true;
          }
        }
      }
    }

    /**
     * `onFileSaveButton`: the file name (`filename` followed by the type) and
     * the text written to it: one rendered line per record for ".txt" and
     * ".csv", the JSON form of the log for ".json", nothing otherwise.
     */
    method OnFileSaveButton(filename: string, fileType: string) returns (path: string, text: string)
      ensures path == filename + fileType
      ensures text == Exported(log, fileType, show, toJson)
    {
      text := "";
      if fileType == ".txt" || fileType == ".csv" {
        for k := 0 to |log|
          invariant text == RenderAll(log[..k], show)
        {
          RenderAllExtend(log, 0, k, show);
          assert log[..k] == log[0..k] && log[..k + 1] == log[0..k + 1];
          text := text + RenderLine(log[k], show);
        }
        assert log[..|log|] == log;
      } else if fileType == ".json" {
        text := toJson(log);
      }
      path := filename + fileType;
    }
  }
}
