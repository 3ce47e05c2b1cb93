/**
 * The line tokenizer of `MainScript.Update` and the segment counter of
 * `MainScript.initConversionFactors`.
 *
 * Both scan a line one character at a time, appending to a `token`, and react
 * as soon as the token contains the delimiter. The functional specification
 * here is `Candidates`: starting from an empty token, a line is cut where the
 * token first ends with the delimiter, the delimiter is removed from the end
 * of the token, and scanning starts afresh behind the cut; whatever follows
 * the last cut (`Trailing`) is discarded. The scanning methods `Tokenize` and
 * `CountSegments` are proved to compute it, and `Reassembles` and `RoundTrip`
 * show that it is the usual split at delimiter-terminated segments.
 */
module Tokenizer {
  import opened Wrappers

  /** `d` occurs in `s` starting at index `j`. */
  predicate OccursAt(s: string, d: string, j: nat) {
    j + |d| <= |s| && s[j..j + |d|] == d
  }

  /** Ordinal substring test, as C#'s `String.Contains(string)`: the empty string occurs in every string. */
  predicate Contains(s: string, d: string) {
    exists j: nat :: j <= |s| && OccursAt(s, d, j)
  }

  /** The token `s[start..e]` ends with `d`. */
  predicate EndsAt(s: string, d: string, start: nat, e: nat) {
    start + |d| <= e <= |s| && s[e - |d|..e] == d
  }

  /** No token `s[start..e]` with `start < e <= n` ends with `d`. */
  predicate NoHitBetween(s: string, d: string, start: nat, n: nat) {
    forall e :: start < e <= n ==> !EndsAt(s, d, start, e)
  }

  /** The first end `e'` from `e` on at which the token that starts at `start` ends with `d`. */
  function ScanFrom(s: string, d: string, start: nat, e: nat): (r: Option<nat>)
    requires start < e <= |s| + 1
    ensures r.Some? ==> e <= r.value <= |s| && start + |d| <= r.value
    decreases |s| + 1 - e
  {
    if e > |s| then None
    else if EndsAt(s, d, start, e) then Some(e)
    else ScanFrom(s, d, start, e + 1)
  }

  /**
   * Where a token started empty at `start` first ends with `d`.
   * `FirstHitMinimal` shows that no shorter token does.
   */
  function FirstHit(s: string, d: string, start: nat): (r: Option<nat>)
    requires start <= |s|
    ensures r.Some? ==> start < r.value <= |s| && start + |d| <= r.value
  {
    ScanFrom(s, d, start, start + 1)
  }

  /** The delimiter-terminated segments of `s[start..]`, each with its delimiter removed, in order. */
  function CandidatesFrom(s: string, d: string, start: nat): seq<string>
    requires start <= |s|
    decreases |s| - start
  {
    match FirstHit(s, d, start)
    case None => []
    case Some(e) => [s[start..e - |d|]] + CandidatesFrom(s, d, e)
  }

  /** The text of `s[start..]` after its last delimiter-terminated segment. */
  function TrailingFrom(s: string, d: string, start: nat): string
    requires start <= |s|
    decreases |s| - start
  {
    match FirstHit(s, d, start)
    case None => s[start..]
    case Some(e) => TrailingFrom(s, d, e)
  }

  /** The candidates of a line: what `Double.Parse` is tried on, in order. */
  function Candidates(s: string, d: string): seq<string> {
    CandidatesFrom(s, d, 0)
  }

  /** The text after the last delimiter, which the tokenizer discards. */
  function Trailing(s: string, d: string): string {
    TrailingFrom(s, d, 0)
  }

  /** The values of the candidates that parse, in their original order; the others are dropped. */
  function Kept(cands: seq<string>, parse: string -> Option<real>): (r: seq<real>)
    ensures |r| <= |cands|
  {
    if cands == [] then []
    else
      var rest := Kept(cands[1..], parse);
      match parse(cands[0])
      case Some(v) => [v] + rest
      case None => rest
  }

  /** The text before the first newline, where `initConversionFactors` stops scanning. */
  function FirstLine(s: string): (r: string)
    ensures |r| <= |s| && r == s[..|r|] && '\n' !in r
    ensures |r| < |s| ==> s[|r|] == '\n'
  {
    if s == [] || s[0] == '\n' then []
    else [s[0]] + FirstLine(s[1..])
  }

  /** Writes each segment followed by the delimiter: the inverse of `Candidates`. */
  function Terminated(cands: seq<string>, d: string): string {
    if cands == [] then [] else cands[0] + d + Terminated(cands[1..], d)
  }

  /** `c` is a segment `Candidates` can produce: scanning `c + d`, the delimiter is found only at the very end. */
  predicate IsSegment(c: string, d: string) {
    FirstHit(c + d, d, 0) == Some(|c| + |d|)
  }

  // ---------------------------------------------------------------------------
  // The scanning step shared by both loops.

  /** `ScanFrom` stops only where the token ends with `d`, and skips only token ends at which it does not. */
  lemma {:induction false} ScanFromMinimal(s: string, d: string, start: nat, e: nat)
    requires start < e <= |s| + 1
    ensures ScanFrom(s, d, start, e).Some? ==> EndsAt(s, d, start, ScanFrom(s, d, start, e).value)
    ensures ScanFrom(s, d, start, e).Some? ==>
      forall e' :: e <= e' < ScanFrom(s, d, start, e).value ==> !EndsAt(s, d, start, e')
    ensures ScanFrom(s, d, start, e).None? ==> forall e' :: e <= e' <= |s| ==> !EndsAt(s, d, start, e')
    decreases |s| + 1 - e
  {
    if e <= |s| && !EndsAt(s, d, start, e) {
      ScanFromMinimal(s, d, start, e + 1);
    }
  }

  /** The cut `FirstHit` finds is a cut and the first; when it finds none, the token never ends with `d`. */
  lemma FirstHitMinimal(s: string, d: string, start: nat)
    requires start <= |s|
    ensures FirstHit(s, d, start).Some? ==> EndsAt(s, d, start, FirstHit(s, d, start).value)
    ensures FirstHit(s, d, start).Some? ==> NoHitBetween(s, d, start, FirstHit(s, d, start).value - 1)
    ensures FirstHit(s, d, start).None? ==> NoHitBetween(s, d, start, |s|)
  {
    ScanFromMinimal(s, d, start, start + 1);
  }

  /** The first cut is at `e` when the token ends with `d` there and at no earlier end. */
  lemma FirstHitAt(s: string, d: string, start: nat, e: nat)
    requires start < e <= |s| && EndsAt(s, d, start, e) && NoHitBetween(s, d, start, e - 1)
    ensures FirstHit(s, d, start) == Some(e)
  {
    FirstHitMinimal(s, d, start);
  }

  /** A slice of a slice is a slice of the whole. */
  lemma SliceOfSlice(s: string, a: nat, b: nat, i: nat, j: nat)
    requires a <= b <= |s| && i <= j <= b - a
    ensures s[a..b][i..j] == s[a + i..a + j]
  {
    var x, y := s[a..b][i..j], s[a + i..a + j];
    forall k | 0 <= k < |x| ensures x[k] == y[k] {
      assert x[k] == s[a..b][i + k];
    }
  }

  /** Unfolds `CandidatesFrom` at its first cut. */
  lemma CandidatesAt(s: string, d: string, start: nat, e: nat)
    requires start <= |s| && FirstHit(s, d, start) == Some(e)
    ensures start <= e - |d| && CandidatesFrom(s, d, start) == [s[start..e - |d|]] + CandidatesFrom(s, d, e)
    ensures TrailingFrom(s, d, start) == TrailingFrom(s, d, e)
  {
  }

  /** An occurrence of `d` at `j` in the token `s[start..n]` ends a shorter or equal token. */
  lemma OccurrenceInToken(s: string, d: string, start: nat, n: nat, j: nat)
    requires start <= n <= |s| && OccursAt(s[start..n], d, j)
    ensures EndsAt(s, d, start, start + j + |d|)
  {
    SliceOfSlice(s, start, n, j, j + |d|);
  }

  /**
   * One step of the scan: when no shorter token hit, the token `s[start..i + 1]`
   * contains the delimiter exactly when it ends with it, which is then the
   * first cut.
   */
  lemma ScanStep(s: string, d: string, start: nat, i: nat)
    requires start <= i < |s| && NoHitBetween(s, d, start, i)
    ensures Contains(s[start..i + 1], d) <==> EndsAt(s, d, start, i + 1)
    ensures EndsAt(s, d, start, i + 1) ==> FirstHit(s, d, start) == Some(i + 1)
    ensures !EndsAt(s, d, start, i + 1) ==> NoHitBetween(s, d, start, i + 1)
  {
    var t := s[start..i + 1];
    if EndsAt(s, d, start, i + 1) {
      assert t[|t| - |d|..|t|] == s[i + 1 - |d|..i + 1];
      assert OccursAt(t, d, |t| - |d|);
      FirstHitAt(s, d, start, i + 1);
    } else if Contains(t, d) {
      var j: nat :| j <= |t| && OccursAt(t, d, j);
      OccurrenceInToken(s, d, start, i + 1, j);
      assert false;
    }
  }

  /**
   * `ScanStep` for the loops, whose invariant says that the scan from `start`
   * has not found its cut before `i + 1`.
   */
  lemma PendingStep(s: string, d: string, start: nat, i: nat)
    requires start <= i < |s| && ScanFrom(s, d, start, i + 1) == FirstHit(s, d, start)
    ensures Contains(s[start..i + 1], d) <==> EndsAt(s, d, start, i + 1)
  {
    FirstHitMinimal(s, d, start);
    ScanStep(s, d, start, i);
  }

  /** Unfolds `Kept` over a candidate put in front. */
  lemma KeptCons(c: string, rest: seq<string>, parse: string -> Option<real>)
    ensures Kept([c] + rest, parse) == (if parse(c).Some? then [parse(c).value] else []) + Kept(rest, parse)
  {
    assert ([c] + rest)[0] == c;
    assert ([c] + rest)[1..] == rest;
  }

  /** Sequence concatenation is associative. */
  lemma AppendAssoc<T>(a: seq<T>, b: seq<T>, c: seq<T>)
    ensures (a + b) + c == a + (b + c)
  {
  }

  /** `Kept` works candidate by candidate: a failed parse never shifts the values around it. */
  lemma {:induction false} KeptConcat(a: seq<string>, b: seq<string>, parse: string -> Option<real>)
    ensures Kept(a + b, parse) == Kept(a, parse) + Kept(b, parse)
  {
    if a != [] {
      KeptConcat(a[1..], b, parse);
      KeptCons(a[0], a[1..] + b, parse);
      assert a + b == [a[0]] + (a[1..] + b);
    } else {
      assert a + b == b;
    }
  }


  /**
   * The state of the `Tokenize` loop before character `i`: `token` holds what
   * was read since the last cut at `start`, no shorter token has hit yet, and
   * `raw` followed by the values still to come is the whole result.
   */
  ghost predicate Scanning(line: string, d: string, parse: string -> Option<real>,
                           i: nat, start: nat, token: string, raw: seq<real>)
  {
    start <= i <= |line| && token == line[start..i]
    && ScanFrom(line, d, start, i + 1) == FirstHit(line, d, start)
    && Kept(Candidates(line, d), parse) == raw + Kept(CandidatesFrom(line, d, start), parse)
  }

  /** `Scanning` holds before the first character. */
  lemma ScanningInit(line: string, d: string, parse: string -> Option<real>)
    ensures Scanning(line, d, parse, 0, 0, "", [])
  {
    assert [] + Kept(CandidatesFrom(line, d, 0), parse) == Kept(CandidatesFrom(line, d, 0), parse);
  }

  /** `Scanning` after the last character: nothing is left to cut, so `raw` is the whole result. */
  lemma ScanningDone(line: string, d: string, parse: string -> Option<real>, start: nat, token: string, raw: seq<real>)
    requires Scanning(line, d, parse, |line|, start, token, raw)
    ensures raw == Kept(Candidates(line, d), parse)
  {
    assert CandidatesFrom(line, d, start) == [];
    assert raw + [] == raw;
  }

  /** One character of the `Tokenize` loop keeps `Scanning`, whether or not the token now contains the delimiter. */
  lemma ScanningStep(line: string, d: string, parse: string -> Option<real>,
                     i: nat, start: nat, token: string, raw: seq<real>)
    requires i < |line| && Scanning(line, d, parse, i, start, token, raw)
    ensures var t := token + [line[i]];
      if Contains(t, d) then
        |d| <= |t| &&
        var cut := t[..|t| - |d|];
        Scanning(line, d, parse, i + 1, i + 1, "", if parse(cut).Some? then raw + [parse(cut).value] else raw)
      else Scanning(line, d, parse, i + 1, start, t, raw)
  {
    var t := token + [line[i]];
    assert t == line[start..i + 1];
    PendingStep(line, d, start, i);
    if EndsAt(line, d, start, i + 1) {
      CandidatesAt(line, d, start, i + 1);
      var cut := t[..|t| - |d|];
      SliceOfSlice(line, start, i + 1, 0, i + 1 - start - |d|);
      KeptCons(cut, CandidatesFrom(line, d, i + 1), parse);
      if parse(cut).Some? {
        AppendAssoc(raw, [parse(cut).value], Kept(CandidatesFrom(line, d, i + 1), parse));
      }
    }
  }

  // ---------------------------------------------------------------------------
  // The loops of the original.

  /**
   * The tokenizing loop of `Update`: the parsed values of the
   * delimiter-terminated segments of `line`, in order; failed parses are dropped.
   */
  method Tokenize(line: string, d: string, parse: string -> Option<real>) returns (raw: seq<real>)
    ensures raw == Kept(Candidates(line, d), parse)
  {
    raw := [];
    var token := "";
    ghost var start := 0;
    ScanningInit(line, d, parse);
    for i := 0 to |line|
      invariant Scanning(line, d, parse, i, start, token, raw)
    {
      ScanningStep(line, d, parse, i, start, token, raw);
      token := token + [line[i]];
      if Contains(token, d) {
        token := token[..|token| - |d|];
        var value := parse(token);
        if value.Some? {
          raw := raw + [value.value];
        }
        token := "";
        start := i + 1;
      }
    }
    ScanningDone(line, d, parse, start, token, raw);
  }

  /**
   * The state of the `initConversionFactors` loop before character `i` of
   * the first line: `size` cuts so far, `token` read since the last one.
   */
  ghost predicate Counting(first: string, d: string, i: nat, start: nat, token: string, size: nat) {
    start <= i <= |first| && token == first[start..i]
    && ScanFrom(first, d, start, i + 1) == FirstHit(first, d, start)
    && |Candidates(first, d)| == size + |CandidatesFrom(first, d, start)|
  }

  /** One character of the counting loop keeps `Counting`. */
  lemma CountingStep(first: string, d: string, i: nat, start: nat, token: string, size: nat)
    requires i < |first| && Counting(first, d, i, start, token, size)
    ensures var t := token + [first[i]];
      if Contains(t, d) then Counting(first, d, i + 1, i + 1, "", size + 1)
      else Counting(first, d, i + 1, start, t, size)
  {
    var t := token + [first[i]];
    assert t == first[start..i + 1];
    PendingStep(first, d, start, i);
    if EndsAt(first, d, start, i + 1) {
      CandidatesAt(first, d, start, i + 1);
    }
  }

  /**
   * The counting loop of `initConversionFactors`: the number of
   * delimiter-terminated segments before the first newline, numeric or not.
   */
  method CountSegments(line: string, d: string) returns (size: nat)
    ensures size == |Candidates(FirstLine(line), d)|
  {
    ghost var first := FirstLine(line);
    size := 0;
    var token := "";
    ghost var start := 0;
    for i := 0 to |line|
      invariant i <= |first| && Counting(first, d, i, start, token, size)
    {
      if line[i] == '\n' {
        break;
      }
      CountingStep(first, d, i, start, token, size);
      token := token + [line[i]];
      if Contains(token, d) {
        size := size + 1;
        token := "";
        start := i + 1;
      }
    }
  }

  // ---------------------------------------------------------------------------
  // What the split means.

  /**
   * Up to `n` characters from `start`, the tokens of `s` are those of `x`
   * from 0 whenever the two agree on that stretch.
   */
  lemma EndsAtTransfer(s: string, d: string, start: nat, x: string, n: nat, e: nat)
    requires start + n <= |s| && n <= |x| && s[start..start + n] == x[..n]
    requires start < e <= start + n
    ensures EndsAt(s, d, start, e) <==> EndsAt(x, d, 0, e - start)
  {
    var m := e - start;
    if |d| <= m {
      SliceOfSlice(s, start, start + n, m - |d|, m);
      SliceOfSlice(x, 0, n, m - |d|, m);
      assert x[..n] == x[0..n];
    }
  }

  /** No token of `s` from `start` ends with `d` within `m` characters exactly when none of `x` does. */
  lemma NoHitTransfer(s: string, d: string, start: nat, x: string, n: nat, m: nat)
    requires start + n <= |s| && n <= |x| && s[start..start + n] == x[..n] && m <= n
    ensures NoHitBetween(x, d, 0, m) <==> NoHitBetween(s, d, start, start + m)
  {
    if NoHitBetween(x, d, 0, m) {
      forall e | start < e <= start + m ensures !EndsAt(s, d, start, e) {
        EndsAtTransfer(s, d, start, x, n, e);
      }
    }
    if NoHitBetween(s, d, start, start + m) {
      forall e | 0 < e <= m ensures !EndsAt(x, d, 0, e) {
        EndsAtTransfer(s, d, start, x, n, start + e);
      }
    }
  }

  /** The scan of `s` from `start` cuts after `n` characters exactly when the scan of `x` from 0 does. */
  lemma FirstHitTransfer(s: string, d: string, start: nat, x: string, n: nat)
    requires start + n <= |s| && n <= |x| && s[start..start + n] == x[..n]
    ensures FirstHit(x, d, 0) == Some(n) <==> FirstHit(s, d, start) == Some(start + n)
  {
    FirstHitMinimal(x, d, 0);
    FirstHitMinimal(s, d, start);
    if n > 0 {
      EndsAtTransfer(s, d, start, x, n, start + n);
      NoHitTransfer(s, d, start, x, n, n - 1);
      if FirstHit(x, d, 0) == Some(n) {
        FirstHitAt(s, d, start, start + n);
      }
      if FirstHit(s, d, start) == Some(start + n) {
        FirstHitAt(x, d, 0, n);
      }
    }
  }

  /** The scan of all of `s` from `start` finds no cut exactly when the scan of an equal `x` finds none. */
  lemma NoCutTransfer(s: string, d: string, start: nat, x: string)
    requires start <= |s| && s[start..] == x
    ensures FirstHit(x, d, 0).None? <==> FirstHit(s, d, start).None?
  {
    assert s[start..start + |x|] == x[..|x|];
    FirstHitMinimal(x, d, 0);
    FirstHitMinimal(s, d, start);
    NoHitTransfer(s, d, start, x, |x|, |x|);
  }

  /** What follows the last cut never contains a cut of its own. */
  lemma {:induction false} TrailingFromHasNoCut(s: string, d: string, start: nat)
    requires start <= |s|
    ensures FirstHit(TrailingFrom(s, d, start), d, 0) == None
    decreases |s| - start
  {
    match FirstHit(s, d, start)
    case None =>
      NoCutTransfer(s, d, start, s[start..]);
    case Some(e) =>
      TrailingFromHasNoCut(s, d, e);
  }

  /** Every candidate cut from `s[start..]`, followed by the delimiter, is cut exactly at its end. */
  lemma {:induction false} CandidatesFromAreSegments(s: string, d: string, start: nat)
    requires start <= |s|
    ensures forall i :: 0 <= i < |CandidatesFrom(s, d, start)| ==> IsSegment(CandidatesFrom(s, d, start)[i], d)
    decreases |s| - start
  {
    match FirstHit(s, d, start)
    case None =>
    case Some(e) =>
      CandidatesFromAreSegments(s, d, e);
      FirstHitMinimal(s, d, start);
      var c := s[start..e - |d|];
      assert c + d == s[start..e];
      FirstHitTransfer(s, d, start, c + d, e - start);
  }

  /**
   * The split loses nothing and invents nothing: the candidates, each put back
   * with its delimiter, followed by the trailing text, are the line again;
   * every candidate is a segment and the trailing text holds no further cut.
   */
  lemma Reassembles(s: string, d: string)
    ensures Terminated(Candidates(s, d), d) + Trailing(s, d) == s
    ensures forall i :: 0 <= i < |Candidates(s, d)| ==> IsSegment(Candidates(s, d)[i], d)
    ensures FirstHit(Trailing(s, d), d, 0) == None
  {
    ReassemblesFrom(s, d, 0);
    CandidatesFromAreSegments(s, d, 0);
    TrailingFromHasNoCut(s, d, 0);
  }

  /** `Reassembles` for the cut starting at `start`. */
  lemma {:induction false} ReassemblesFrom(s: string, d: string, start: nat)
    requires start <= |s|
    ensures Terminated(CandidatesFrom(s, d, start), d) + TrailingFrom(s, d, start) == s[start..]
    decreases |s| - start
  {
    match FirstHit(s, d, start)
    case None =>
    case Some(e) =>
      ReassemblesFrom(s, d, e);
      FirstHitMinimal(s, d, start);
      var c := s[start..e - |d|];
      var rest := CandidatesFrom(s, d, e);
      TerminatedCons(c, rest, d);
      AppendAssoc(c + d, Terminated(rest, d), TrailingFrom(s, d, e));
      Pieces(s, start, e - |d|, e);
  }

  /** `Terminated` writes the first segment and its delimiter first. */
  lemma TerminatedCons(c: string, rest: seq<string>, d: string)
    ensures Terminated([c] + rest, d) == c + d + Terminated(rest, d)
  {
    assert ([c] + rest)[0] == c && ([c] + rest)[1..] == rest;
  }

  /** Three consecutive pieces of a string make up its suffix. */
  lemma Pieces(s: string, a: nat, b: nat, c: nat)
    requires a <= b <= c <= |s|
    ensures s[a..b] + s[b..c] + s[c..] == s[a..]
  {
  }

  /** Text that starts with a segment and its delimiter is cut right after them. */
  lemma RoundTripHead(s: string, d: string, start: nat, c: string, rest: string)
    requires start <= |s| && s[start..] == c + d + rest && IsSegment(c, d)
    ensures start + |c| + |d| <= |s| && s[start + |c| + |d|..] == rest
    ensures CandidatesFrom(s, d, start) == [c] + CandidatesFrom(s, d, start + |c| + |d|)
    ensures TrailingFrom(s, d, start) == TrailingFrom(s, d, start + |c| + |d|)
  {
    var p := c + d;
    assert s[start..start + |p|] == p[..|p|];
    FirstHitTransfer(s, d, start, p, |p|);
    CandidatesAt(s, d, start, start + |p|);
    assert s[start..start + |p| - |d|] == c;
  }

  /** `RoundTrip` for text written out from `start` on. */
  lemma {:induction false} RoundTripFrom(s: string, d: string, start: nat, cs: seq<string>, t: string)
    requires start <= |s| && s[start..] == Terminated(cs, d) + t
    requires forall i :: 0 <= i < |cs| ==> IsSegment(cs[i], d)
    requires FirstHit(t, d, 0) == None
    ensures CandidatesFrom(s, d, start) == cs
    ensures TrailingFrom(s, d, start) == t
    decreases |cs|
  {
    if cs == [] {
      assert s[start..] == t;
      NoCutTransfer(s, d, start, t);
    } else {
      AppendAssoc(cs[0] + d, Terminated(cs[1..], d), t);
      RoundTripHead(s, d, start, cs[0], Terminated(cs[1..], d) + t);
      RoundTripFrom(s, d, start + |cs[0]| + |d|, cs[1..], t);
      assert [cs[0]] + cs[1..] == cs;
    }
  }

  /**
   * The split is the inverse of `Terminated`: segments written out with their
   * delimiters, followed by text holding no cut, are split back into exactly
   * those segments, and the text is what trails.
   */
  lemma RoundTrip(cs: seq<string>, d: string, t: string)
    requires forall i :: 0 <= i < |cs| ==> IsSegment(cs[i], d)
    requires FirstHit(t, d, 0) == None
    ensures Candidates(Terminated(cs, d) + t, d) == cs
    ensures Trailing(Terminated(cs, d) + t, d) == t
  {
    var s := Terminated(cs, d) + t;
    assert s[0..] == s;
    RoundTripFrom(s, d, 0, cs, t);
  }

  /** A segment never contains a non-empty delimiter: the scan would have cut at its first occurrence. */
  lemma SegmentHasNoDelimiter(c: string, d: string)
    requires |d| > 0 && IsSegment(c, d)
    ensures !Contains(c, d)
  {
    if Contains(c, d) {
      var j: nat :| j <= |c| && OccursAt(c, d, j);
      FirstHitMinimal(c + d, d, 0);
      assert (c + d)[j..j + |d|] == c[j..j + |d|];
      assert EndsAt(c + d, d, 0, j + |d|);
      assert false;
    }
  }

  /** With a non-empty delimiter no candidate holds the delimiter. */
  lemma CandidatesHaveNoDelimiter(s: string, d: string)
    requires |d| > 0
    ensures forall i :: 0 <= i < |Candidates(s, d)| ==> !Contains(Candidates(s, d)[i], d)
  {
    Reassembles(s, d);
    forall i | 0 <= i < |Candidates(s, d)| ensures !Contains(Candidates(s, d)[i], d) {
      SegmentHasNoDelimiter(Candidates(s, d)[i], d);
    }
  }

  /**
   * The empty delimiter is contained in every token, so the scan cuts after
   * every character: each character is a candidate of its own and nothing trails.
   */
  lemma {:induction false} EmptyDelimiterFrom(s: string, start: nat)
    requires start <= |s|
    ensures |CandidatesFrom(s, "", start)| == |s| - start
    ensures forall k :: 0 <= k < |s| - start ==> CandidatesFrom(s, "", start)[k] == [s[start + k]]
    ensures TrailingFrom(s, "", start) == ""
    decreases |s| - start
  {
    if start < |s| {
      assert EndsAt(s, "", start, start + 1);
      assert FirstHit(s, "", start) == Some(start + 1);
      EmptyDelimiterFrom(s, start + 1);
      assert s[start..start + 1] == [s[start]];
    }
  }

  /** `EmptyDelimiterFrom` for a whole line. */
  lemma EmptyDelimiter(s: string)
    ensures |Candidates(s, "")| == |s|
    ensures forall k :: 0 <= k < |s| ==> Candidates(s, "")[k] == [s[k]]
    ensures Trailing(s, "") == ""
  {
    EmptyDelimiterFrom(s, 0);
  }

  /** A candidate that does not parse is dropped without disturbing the values around it. */
  lemma KeptDropsMalformed(a: seq<string>, x: string, b: seq<string>, parse: string -> Option<real>)
    requires parse(x).None?
    ensures Kept(a + [x] + b, parse) == Kept(a + b, parse)
  {
    KeptConcat(a + [x], b, parse);
    KeptConcat(a, [x], parse);
    KeptConcat(a, b, parse);
    KeptCons(x, [], parse);
    assert [x] + [] == [x];
  }

  /** Every candidate yields a value exactly when all of them parse. */
  lemma {:induction false} KeptAll(cands: seq<string>, parse: string -> Option<real>)
    ensures |Kept(cands, parse)| == |cands| <==> forall i :: 0 <= i < |cands| ==> parse(cands[i]).Some?
    ensures (forall i :: 0 <= i < |cands| ==> parse(cands[i]).Some?) ==>
      forall i :: 0 <= i < |cands| ==> Kept(cands, parse)[i] == parse(cands[i]).value
    decreases |cands|
  {
    if cands != [] {
      KeptAll(cands[1..], parse);
      assert forall i :: 1 <= i < |cands| ==> cands[i] == cands[1..][i - 1];
    }
  }

  /** A line without newline characters is its own first line. */
  lemma {:induction false} FirstLineWhole(s: string)
    requires '\n' !in s
    ensures FirstLine(s) == s
    decreases |s|
  {
    if s != [] {
      assert '\n' !in s[1..] by {
        forall c | c in s[1..] ensures c in s {
        }
      }
      FirstLineWhole(s[1..]);
      assert [s[0]] + s[1..] == s;
    }
  }

  /**
   * On a line without newlines, the bootstrap count of `initConversionFactors`
   * bounds the number of values `Update` reads from the same line: segments
   * that are not numbers are counted there but dropped here.
   */
  lemma BootstrapBound(s: string, d: string, parse: string -> Option<real>)
    requires '\n' !in s
    ensures |Kept(Candidates(s, d), parse)| <= |Candidates(FirstLine(s), d)|
  {
    FirstLineWhole(s);
  }

  /** With a one-character delimiter, every text free of that character is a segment. */
  lemma SingleCharSegment(c: string, ch: char)
    requires ch !in c
    ensures IsSegment(c, [ch])
  {
    var s := c + [ch];
    forall e | 0 < e <= |s| - 1 ensures !EndsAt(s, [ch], 0, e) {
      assert s[e - 1..e] == [c[e - 1]];
    }
    assert s[|s| - 1..|s|] == [ch];
    FirstHitAt(s, [ch], 0, |s|);
  }

  /** The candidates of a comma-terminated line are its fields. */
  lemma CommaLineCandidates()
    ensures Candidates("1.0,2.0,x,3.0,", ",") == ["1.0", "2.0", "x", "3.0"]
  {
    var cs := ["1.0", "2.0", "x", "3.0"];
    forall i | 0 <= i < |cs| ensures IsSegment(cs[i], ",") {
      SingleCharSegment(cs[i], ',');
    }
    assert Terminated(cs, ",") + "" == "1.0,2.0,x,3.0,";
    RoundTrip(cs, ",", "");
  }

  /**
   * A comma-separated line with a malformed field: the field is dropped and the
   * numbers around it keep their order.
   */
  lemma CommaLineExample(parse: string -> Option<real>)
    requires parse("1.0") == Some(1.0) && parse("2.0") == Some(2.0)
    requires parse("x") == None && parse("3.0") == Some(3.0)
    ensures Kept(Candidates("1.0,2.0,x,3.0,", ","), parse) == [1.0, 2.0, 3.0]
  {
    CommaLineCandidates();
    var cs := ["1.0", "2.0", "x", "3.0"];
    assert cs[1..][1..][1..][1..] == [];
  }
}
