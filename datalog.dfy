/**
 * The record `MainScript` keeps of every line it has read (`DataLine`), the
 * window of the most recent lines it shows on screen, and the text rendering
 * used both on screen and in `.txt`/`.csv` exports: one line of text per
 * record, the scaled values joined by ", " and ended by a newline.
 */
module DataLog {

  /** One parsed line: the values read, the factors applied to them and the products. */
  datatype DataLine = DataLine(rawData: seq<real>, conversionFactors: seq<real>, parsedData: seq<real>)

  /** The three lists line up and every parsed value is its raw value times its factor. */
  predicate WellFormed(dl: DataLine) {
    && |dl.conversionFactors| == |dl.rawData|
    && |dl.parsedData| == |dl.rawData|
    && forall i :: 0 <= i < |dl.rawData| ==> dl.parsedData[i] == dl.rawData[i] * dl.conversionFactors[i]
  }

  /** Appending a well-formed record to a log of well-formed records keeps every record well formed. */
  lemma WellFormedAppend(log: seq<DataLine>, dl: DataLine)
    requires forall k :: 0 <= k < |log| ==> WellFormed(log[k])
    requires WellFormed(dl)
    ensures forall k :: 0 <= k < |log + [dl]| ==> WellFormed((log + [dl])[k])
  {
    forall k | 0 <= k < |log + [dl]| ensures WellFormed((log + [dl])[k]) {
      if k < |log| {
        assert (log + [dl])[k] == log[k];
      }
    }
  }

  /** Element-wise products of `raw` with the first `|raw|` factors. */
  function Products(raw: seq<real>, factors: seq<real>): (r: seq<real>)
    requires |raw| <= |factors|
    ensures |r| == |raw|
    ensures forall i :: 0 <= i < |raw| ==> r[i] == raw[i] * factors[i]
  {
    if raw == [] then [] else Products(raw[..|raw| - 1], factors) + [raw[|raw| - 1] * factors[|raw| - 1]]
  }

  /**
   * The record `Update` builds from the values of a line and the factor
   * vector: the values, a copy of the factors in use, and the products.
   */
  function Scaled(raw: seq<real>, factors: seq<real>): (dl: DataLine)
    requires |raw| <= |factors|
    ensures WellFormed(dl) && dl.rawData == raw && dl.conversionFactors == factors[..|raw|]
  {
    DataLine(raw, factors[..|raw|], Products(raw, factors))
  }

  /** The records of a well-formed log are determined by their values and factors. */
  lemma WellFormedDetermined(a: DataLine, b: DataLine)
    requires WellFormed(a) && WellFormed(b)
    requires a.rawData == b.rawData && a.conversionFactors == b.conversionFactors
    ensures a == b
  {
    assert a.parsedData == b.parsedData by {
      forall i | 0 <= i < |a.parsedData| ensures a.parsedData[i] == b.parsedData[i] {
      }
    }
  }

  /** The `for` loop of `Update` that copies the factors in use and multiplies. */
  method BuildLine(raw: seq<real>, factors: seq<real>) returns (dl: DataLine)
    requires |raw| <= |factors|
    ensures dl == Scaled(raw, factors)
  {
    var used: seq<real> := [];
    var parsed: seq<real> := [];
    for i := 0 to |raw|
      invariant used == factors[..i]
      invariant |parsed| == i && forall k :: 0 <= k < i ==> parsed[k] == raw[k] * used[k]
    {
      used := used + [factors[i]];
      parsed := parsed + [raw[i] * used[i]];
    }
    dl := DataLine(raw, used, parsed);
    WellFormedDetermined(dl, Scaled(raw, factors));
  }

  // ---------------------------------------------------------------------------
  // The on-screen window.

  /** How many of the most recent lines the screen shows. */
  const BufferSize: nat := 30

  /** The last `n` records of `log` (all of them when there are fewer), oldest first. */
  function Window(log: seq<DataLine>, n: nat): (w: seq<DataLine>)
    ensures |w| == if |log| > n then n else |log|
    ensures w == log[|log| - |w|..]
  {
    if |log| > n then log[|log| - n..] else log
  }

  /**
   * Appending a record slides the window: the new record is its last entry,
   * and the oldest entry falls out only when the window was already full.
   */
  lemma WindowAppend(log: seq<DataLine>, x: DataLine, n: nat)
    requires n > 0
    ensures Window(log + [x], n) == (if |log| >= n then Window(log, n)[1..] else Window(log, n)) + [x]
  {
    var all := log + [x];
    var w := Window(log, n);
    var v := if |log| >= n then w[1..] else w;
    assert |Window(all, n)| == |v| + 1;
    forall k | 0 <= k < |v| + 1 ensures Window(all, n)[k] == (v + [x])[k] {
    }
  }

  // ---------------------------------------------------------------------------
  // Text rendering.

  /** `String.Join(sep, parts)`: the parts with `sep` between neighbours, "" for no parts. */
  function Join(parts: seq<string>, sep: string): (r: string)
  {
    if |parts| == 0 then ""
    else if |parts| == 1 then parts[0]
    else parts[0] + sep + Join(parts[1..], sep)
  }

  /** Each value formatted by `show`, which stands for `Double.ToString()`. */
  function Shown(values: seq<real>, show: real -> string): (r: seq<string>)
  {
    seq(|values|, i requires 0 <= i < |values| => show(values[i]))
  }

  /** The text line for one record: its scaled values joined by ", ", then a newline. */
  function RenderLine(dl: DataLine, show: real -> string): (r: string)
  {
    Join(Shown(dl.parsedData, show), ", ") + "\n"
  }

  /** The text for a sequence of records, one line each, oldest first. */
  function RenderAll(lines: seq<DataLine>, show: real -> string): (r: string)
  {
    if lines == [] then "" else RenderAll(lines[..|lines| - 1], show) + RenderLine(lines[|lines| - 1], show)
  }

  /** Rendering distributes over concatenation of the record sequence. */
  lemma {:induction false} RenderAllAppend(a: seq<DataLine>, b: seq<DataLine>, show: real -> string)
    ensures RenderAll(a + b, show) == RenderAll(a, show) + RenderAll(b, show)
    decreases |b|
  {
    if b == [] {
      assert a + b == a;
    } else {
      var b', last := b[..|b| - 1], b[|b| - 1];
      assert (a + b)[..|a + b| - 1] == a + b';
      assert (a + b)[|a + b| - 1] == last;
      RenderAllAppend(a, b', show);
      assert (RenderAll(a, show) + RenderAll(b', show)) + RenderLine(last, show)
          == RenderAll(a, show) + (RenderAll(b', show) + RenderLine(last, show));
    }
  }

  /** Rendering one more record of a slice appends its line. */
  lemma RenderAllExtend(lines: seq<DataLine>, a: nat, b: nat, show: real -> string)
    requires a <= b < |lines|
    ensures RenderAll(lines[a..b + 1], show) == RenderAll(lines[a..b], show) + RenderLine(lines[b], show)
  {
    assert lines[a..b + 1][..b - a] == lines[a..b];
    assert lines[a..b + 1][b - a] == lines[b];
  }

  /**
   * The screen text is the tail of the `.txt`/`.csv` export: the export is the
   * rendering of the older records followed by exactly what the screen shows.
   */
  lemma DisplayIsExportTail(log: seq<DataLine>, n: nat, show: real -> string)
    ensures RenderAll(log, show)
         == RenderAll(log[..|log| - |Window(log, n)|], show) + RenderAll(Window(log, n), show)
  {
    var w := Window(log, n);
    assert log == log[..|log| - |w|] + w;
    RenderAllAppend(log[..|log| - |w|], w, show);
  }

  /** Two parts are joined with the separator between them. */
  lemma JoinPair(x: string, y: string, sep: string)
    ensures Join([x, y], sep) == x + sep + y
  {
    assert [x, y][1..] == [y];
  }

  /** Two records render as their two lines, the older first. */
  lemma RenderPair(a: DataLine, b: DataLine, show: real -> string)
    ensures RenderAll([a, b], show) == RenderLine(a, show) + RenderLine(b, show)
  {
    assert [a, b][..1] == [a] && [a][..0] == [];
    assert RenderAll([a], show) == "" + RenderLine(a, show) == RenderLine(a, show);
  }

  /** A record with two values renders as the two formatted values, a comma and space between them. */
  lemma RenderLinePair(dl: DataLine, x: real, y: real, show: real -> string)
    requires dl.parsedData == [x, y]
    ensures RenderLine(dl, show) == show(x) + ", " + show(y) + "\n"
  {
    assert Shown(dl.parsedData, show) == [show(x), show(y)];
    JoinPair(show(x), show(y), ", ");
  }

  /**
   * Two records export as two lines of comma-and-space separated values. The
   * `show` assumed here prints whole numbers without a fractional part, as
   * `Double.ToString()` does.
   */
  lemma ExportExample(a: DataLine, b: DataLine, show: real -> string)
    requires a.parsedData == [1.0, 2.0] && b.parsedData == [3.0, 4.0]
    requires show(1.0) == "1" && show(2.0) == "2" && show(3.0) == "3" && show(4.0) == "4"
    ensures RenderAll([a, b], show) == "1, 2\n3, 4\n"
  {
    RenderPair(a, b, show);
    RenderLinePair(a, 1.0, 2.0, show);
    RenderLinePair(b, 3.0, 4.0, show);
    assert ("1" + ", " + "2" + "\n") + ("3" + ", " + "4" + "\n") == "1, 2\n3, 4\n";
  }

  /** The number of newline characters in `s`. */
  function Newlines(s: string): (r: nat)
    ensures r <= |s|
  {
    if s == [] then 0 else Newlines(s[..|s| - 1]) + (if s[|s| - 1] == '\n' then 1 else 0)
  }

  /** Counting newlines distributes over concatenation. */
  lemma {:induction false} NewlinesAppend(a: string, b: string)
    ensures Newlines(a + b) == Newlines(a) + Newlines(b)
    decreases |b|
  {
    if b == [] {
      assert a + b == a;
    } else {
      var b' := b[..|b| - 1];
      assert (a + b)[..|a + b| - 1] == a + b';
      NewlinesAppend(a, b');
    }
  }

  /** A string without newline characters counts none. */
  lemma {:induction false} NoNewlines(s: string)
    requires '\n' !in s
    ensures Newlines(s) == 0
    decreases |s|
  {
    if s != [] {
      assert '\n' !in s[..|s| - 1] by {
        forall c | c in s[..|s| - 1] ensures c in s {
        }
      }
      NoNewlines(s[..|s| - 1]);
    }
  }

  /** Joining newline-free parts with a newline-free separator gives a newline-free line. */
  lemma {:induction false} JoinNoNewline(parts: seq<string>, sep: string)
    requires forall i :: 0 <= i < |parts| ==> '\n' !in parts[i]
    requires '\n' !in sep
    ensures '\n' !in Join(parts, sep)
    decreases |parts|
  {
    if |parts| > 1 {
      JoinNoNewline(parts[1..], sep);
    }
  }

  /**
   * When no number formats with a newline in it, the rendering of `lines`
   * has exactly one text line per record.
   */
  lemma {:induction false} RenderedLineCount(lines: seq<DataLine>, show: real -> string)
    requires forall v: real :: '\n' !in show(v)
    ensures Newlines(RenderAll(lines, show)) == |lines|
    decreases |lines|
  {
    if lines != [] {
      var last := lines[|lines| - 1];
      var parts := Shown(last.parsedData, show);
      var body := Join(parts, ", ");
      forall i | 0 <= i < |parts| ensures '\n' !in parts[i] {
        var v := last.parsedData[i];
        assert parts[i] == show(v) && '\n' !in show(v);
      }
      JoinNoNewline(parts, ", ");
      NoNewlines(body);
      NewlinesAppend(body, "\n");
      assert Newlines("\n") == 1;
      RenderedLineCount(lines[..|lines| - 1], show);
      NewlinesAppend(RenderAll(lines[..|lines| - 1], show), RenderLine(last, show));
    }
  }

  /** The screen shows at most `BufferSize` text lines, and fewer only while the log is shorter. */
  lemma ScreenLineCount(log: seq<DataLine>, show: real -> string)
    requires forall v: real :: '\n' !in show(v)
    ensures Newlines(RenderAll(Window(log, BufferSize), show)) == if |log| > BufferSize then BufferSize else |log|
  {
    RenderedLineCount(Window(log, BufferSize), show);
  }
}
