/**
 * The pure part of `writeFile` (javascript/Utility.js): the `normalize`
 * helper, the quoting of the message column, and the per-row classification
 * that fills the report lines and the two counters.
 */
module Report {
  import opened Text
  import opened Csv

  /** The first line of both reports. */
  const Header: string := "Message,Extracted,Expected"

  /**
   * `normalize`: a missing value or one that is only whitespace becomes
   * "nan"; anything else is trimmed. The result is never empty and never
   * has whitespace at either end.
   */
  function Normalize(v: Option<string>): (r: string)
    ensures r != [] && Trimmed(r)
    ensures r == "nan" <==> v.None? || Trim(v.value) == [] || Trim(v.value) == "nan"
    ensures v.Some? && Trim(v.value) != [] ==> r == Trim(v.value)
  {
    match v
    case None => "nan"
    case Some(s) => if Trim(s) == [] then "nan" else Trim(s)
  }

  /** Normalizing a normalized value changes nothing. */
  lemma NormalizeIdempotent(v: Option<string>)
    ensures Normalize(Some(Normalize(v))) == Normalize(v)
  {
    var r := Normalize(v);
    assert Trimmed(r) && Trim(r) == r;
  }

  predicate IsSpecial(c: char) { c == ',' || c == '"' || c == '\n' || c == '\r' }

  /** The message holds a comma, a quote or a line break. */
  predicate NeedsQuoting(m: string) { exists k | 0 <= k < |m| :: IsSpecial(m[k]) }

  /** The message column as written: quoted, with inner quotes doubled, when it needs quoting. */
  function SafeField(m: string): string {
    if NeedsQuoting(m) then Quoted(m) else m
  }

  /** One report line: message, extracted value and expected value, comma-separated. */
  function RowLine(m: string, extracted: string, expected: string): string {
    SafeField(m) + "," + extracted + "," + expected
  }

  lemma AppendTwo<T>(fs: seq<T>, a: T, b: T)
    ensures fs + [a] + [b] == fs + [a, b]
  {
  }

  lemma AppendThree<T>(fs: seq<T>, a: T, b: T, c: T)
    ensures fs + [a] + [b, c] == fs + [a, b, c]
  {
  }

  lemma EmptyAppend<T>(x: seq<T>)
    ensures [] + x == x
  {
  }

  lemma LastPiece<T>(p: seq<T>, s: seq<T>, y: seq<T>)
    ensures (p + s + y)[|p| + |s|..|p| + |s| + |y|] == y
  {
  }

  lemma MiddlePiece<T>(p: seq<T>, s: seq<T>, x: seq<T>, t: seq<T>, y: seq<T>)
    ensures (p + s + x + t + y)[|p| + |s|..|p| + |s| + |x|] == x
  {
  }

  lemma Regroup<T>(q: seq<T>, s: seq<T>, x: seq<T>, t: seq<T>, y: seq<T>)
    ensures q + s + x + t + y == q + (s + x + t + y)
  {
  }

  /** At the start of a field, a plain piece `x` becomes the open field. */
  lemma PlainOpensField(line: string, i: nat, k: nat, fs: seq<string>, x: string)
    requires IsPlain(x) && i + |x| == k <= |line| && line[i..k] == x
    ensures ParseFrom(line, i, ParseState(fs, [], false)) == ParseFrom(line, k, ParseState(fs, x, false))
  {
    var e: string := [];
    var st := ParseState(fs, e, false);
    EmptyAppend(x);
    calc {
      ParseFrom(line, i, st);
      == { PlainTextReads(line, i, st, x); }
      ParseFrom(line, k, st.(current := e + x));
    }
  }

  /** From a comma at `j`, a plain piece `x` up to position `k` ends the open field and becomes the new open field. */
  lemma CommaThenPlain(line: string, j: nat, k: nat, fs: seq<string>, cur: string, x: string)
    requires IsPlain(x) && j + 1 + |x| == k <= |line|
    requires line[j] == ',' && line[j + 1..k] == x
    ensures ParseFrom(line, j, ParseState(fs, cur, false)) == ParseFrom(line, k, ParseState(fs + [Trim(cur)], x, false))
  {
    ParseComma(line, j, fs, cur);
    PlainOpensField(line, j + 1, k, fs + [Trim(cur)], x);
  }

  /** After any prefix `p`, the text `,y` reads as the end of the open field and one last field `y`. */
  lemma LastFieldReads(p: string, fs: seq<string>, cur: string, y: string)
    requires IsPlain(y)
    ensures ParseFrom(p + "," + y, |p|, ParseState(fs, cur, false)) == fs + [Trim(cur), Trim(y)]
  {
    var line := p + "," + y;
    LastPiece(p, ",", y);
    CommaThenPlain(line, |p|, |line|, fs, cur, y);
    ParseEnd(line, ParseState(fs + [Trim(cur)], y, false));
    AppendTwo(fs, Trim(cur), Trim(y));
  }

  /** After any prefix `p`, the text `,x,y` reads as the end of the open field and the fields `x` and `y`. */
  lemma RowTailReads(p: string, fs: seq<string>, cur: string, x: string, y: string)
    requires IsPlain(x) && IsPlain(y)
    ensures ParseFrom(p + "," + x + "," + y, |p|, ParseState(fs, cur, false)) == fs + [Trim(cur), Trim(x), Trim(y)]
  {
    var q := p + "," + x;
    var line := q + "," + y;
    MiddlePiece(p, ",", x, ",", y);
    CommaThenPlain(line, |p|, |q|, fs, cur, x);
    LastFieldReads(q, fs + [Trim(cur)], x, y);
    AppendThree(fs, Trim(cur), Trim(x), Trim(y));
  }

  /** A line opening with a quote followed by a quoted body spelling `m` reads `m` as its first, still open, field. */
  lemma QuotedFirstField(line: string, m: string)
    requires 0 < |line| && line[0] == '"' && QuotedBodyAt(line, 1, m)
    ensures 2 + |DoubleQuotes(m)| <= |line|
    ensures ParseFrom(line, 0, ParseState([], [], false)) == ParseFrom(line, 2 + |DoubleQuotes(m)|, ParseState([], m, false))
  {
    var e: string := [];
    var st1 := ParseState([], e, true);
    assert st1.(current := st1.current + m, inQuotes := false) == ParseState([], m, false);
    ParseOpeningQuote(line, 0, []);
    QuotedBodyReads(line, 1, st1, m);
  }

  /** A quoted message column reads back as the message itself, left open as the current field. */
  lemma QuotedHeadReads(m: string, x: string, y: string)
    ensures var line := Quoted(m) + "," + x + "," + y;
      ParseFrom(line, 0, ParseState([], [], false)) == ParseFrom(line, |Quoted(m)|, ParseState([], m, false))
  {
    var rest := "," + x + "," + y;
    var line := Quoted(m) + "," + x + "," + y;
    Regroup(Quoted(m), ",", x, ",", y);
    assert line == "\"" + DoubleQuotes(m) + "\"" + rest;
    DoubleQuotesSpells("\"", m, rest);
    QuotedFirstField(line, m);
  }

  /** An unquoted message column with no comma or quote reads back as itself, left open as the current field. */
  lemma PlainHeadReads(m: string, x: string, y: string)
    requires IsPlain(m)
    ensures var line := m + "," + x + "," + y;
      ParseFrom(line, 0, ParseState([], [], false)) == ParseFrom(line, |m|, ParseState([], m, false))
  {
    var line := m + "," + x + "," + y;
    var e: string := [];
    assert line[0..|m|] == m;
    PlainTextReads(line, 0, ParseState([], e, false), m);
    assert e + m == m;
  }

  /**
   * A report line reads back, through the line parser, as the trimmed
   * message and the two values, whether or not the message was quoted,
   * provided the two values hold no comma or quote.
   */
  lemma RowReadsBack(m: string, x: string, y: string)
    requires IsPlain(x) && IsPlain(y)
    ensures Fields(RowLine(m, x, y)) == [Trim(m), Trim(x), Trim(y)]
  {
    var e: seq<string> := [];
    if NeedsQuoting(m) {
      QuotedHeadReads(m, x, y);
      RowTailReads(Quoted(m), e, m, x, y);
    } else {
      assert IsPlain(m) by {
        forall k | 0 <= k < |m| ensures m[k] != ',' && m[k] != '"' {
          assert !IsSpecial(m[k]);
        }
      }
      PlainHeadReads(m, x, y);
      RowTailReads(m, e, m, x, y);
    }
    assert e + [Trim(m), Trim(x), Trim(y)] == [Trim(m), Trim(x), Trim(y)];
  }

  // ---------------------------------------------------------------------------
  // Classification

  /** One prediction: the message and what the extractor returned for it (missing when `undefined`). */
  datatype Prediction = Prediction(message: string, extracted: Option<string>)

  /** The expected value of row `i`: its second column, missing when the row or the column is absent. */
  function ExpectedRaw(groundTruth: seq<seq<string>>, i: nat): Option<string> {
    if i < |groundTruth| && 1 < |groundTruth[i]| then Some(groundTruth[i][1]) else None
  }

  datatype Verdict = Unscored | Passed | Failed

  /** Rows without an expected value are not scored; the rest fail when the values differ ignoring case. */
  function Judge(extracted: string, expected: string): Verdict {
    if expected == "nan" then Unscored
    else if ToLower(extracted) == ToLower(expected) then Passed
    else Failed
  }

  function Extracted(preds: seq<Prediction>, i: nat): string
    requires i < |preds|
  {
    Normalize(preds[i].extracted)
  }

  function Expected(groundTruth: seq<seq<string>>, i: nat): string {
    Normalize(ExpectedRaw(groundTruth, i))
  }

  /** The verdict of every prediction, in order. */
  function Verdicts(preds: seq<Prediction>, groundTruth: seq<seq<string>>): (vs: seq<Verdict>)
    ensures |vs| == |preds|
  {
    seq(|preds|, i requires 0 <= i < |preds| => Judge(Extracted(preds, i), Expected(groundTruth, i)))
  }

  /** The report line of every prediction, in order. */
  function Rows(preds: seq<Prediction>, groundTruth: seq<seq<string>>): (rs: seq<string>)
    ensures |rs| == |preds|
  {
    seq(|preds|, i requires 0 <= i < |preds| => RowLine(preds[i].message, Extracted(preds, i), Expected(groundTruth, i)))
  }

  /**
   * Row `i` is scored exactly when its normalized expected value is not
   * "nan", and a scored row fails exactly when the two normalized values
   * differ once lower-cased.
   */
  lemma VerdictOfRow(preds: seq<Prediction>, groundTruth: seq<seq<string>>, i: nat)
    requires i < |preds|
    ensures Verdicts(preds, groundTruth)[i] == Unscored <==> Expected(groundTruth, i) == "nan"
    ensures Verdicts(preds, groundTruth)[i] == Failed <==>
      Expected(groundTruth, i) != "nan" && ToLower(Extracted(preds, i)) != ToLower(Expected(groundTruth, i))
  {
  }

  /** Number of scored verdicts among the first `n`. */
  function ScoredCount(vs: seq<Verdict>, n: nat): nat
    requires n <= |vs|
  {
    if n == 0 then 0 else ScoredCount(vs, n - 1) + (if vs[n - 1] != Unscored then 1 else 0)
  }

  /** The lines of the failed rows among the first `n`, in order. */
  function FailedRows(vs: seq<Verdict>, rs: seq<string>, n: nat): seq<string>
    requires n <= |vs| == |rs|
  {
    if n == 0 then []
    else FailedRows(vs, rs, n - 1) + (if vs[n - 1] == Failed then [rs[n - 1]] else [])
  }

  /**
   * Every failed row is a scored row, and is the line of one of the first
   * `n` rows; so there are never more failures than scored rows.
   */
  lemma {:induction false} FailedRowsAreScoredRows(vs: seq<Verdict>, rs: seq<string>, n: nat)
    requires n <= |vs| == |rs|
    ensures |FailedRows(vs, rs, n)| <= ScoredCount(vs, n)
    ensures forall l | l in FailedRows(vs, rs, n) :: exists i | 0 <= i < n :: l == rs[i] && vs[i] == Failed
  {
    if n > 0 {
      FailedRowsAreScoredRows(vs, rs, n - 1);
    }
  }

  /**
   * The row loop of `writeFile`, over the verdicts and lines of the rows:
   * every row adds its line to the full report; scored rows are counted, and
   * failed ones are counted and added to the failure report as well.
   */
  method Tally(vs: seq<Verdict>, rs: seq<string>)
    returns (allLines: seq<string>, failedLines: seq<string>, validCases: nat, failCases: nat)
    requires |vs| == |rs|
    ensures |allLines| == |rs| + 1 && allLines[0] == Header
    ensures forall i | 0 <= i < |rs| :: allLines[i + 1] == rs[i]
    ensures failedLines == [Header] + FailedRows(vs, rs, |rs|)
    ensures validCases == ScoredCount(vs, |rs|)
    ensures failCases == |FailedRows(vs, rs, |rs|)|
    ensures failCases <= validCases
    ensures forall l | l in failedLines :: l in allLines
  {
    allLines := [Header];
    failedLines := [Header];
    validCases := 0;
    failCases := 0;
    var i := 0;
    while i < |rs|
      invariant i <= |rs|
      invariant |allLines| == i + 1 && allLines[0] == Header
      invariant forall k | 0 <= k < i :: allLines[k + 1] == rs[k]
      invariant failedLines == [Header] + FailedRows(vs, rs, i)
      invariant validCases == ScoredCount(vs, i)
      invariant failCases == |FailedRows(vs, rs, i)|
    {
      if vs[i] == Unscored {
        allLines := allLines + [rs[i]];
      } else {
        validCases := validCases + 1;
        var isFail := vs[i] == Failed;
        if isFail {
          failCases := failCases + 1;
        }
        allLines := allLines + [rs[i]];
        if isFail {
          failedLines := failedLines + [rs[i]];
        }
      }
      i := i + 1;
    }
    FailedRowsAreScoredRows(vs, rs, |rs|);
    forall l | l in failedLines
      ensures l in allLines
    {
      if l != Header {
        var k :| 0 <= k < |rs| && l == rs[k] && vs[k] == Failed;
        assert allLines[k + 1] == l;
      }
    }
  }

  lemma TailIs<T>(a: seq<T>, b: seq<T>)
    requires |a| == |b| + 1 && forall i | 0 <= i < |b| :: a[i + 1] == b[i]
    ensures a[1..] == b
  {
  }

  /**
   * `writeFile` without the file system: the full report is the header and
   * one line per prediction, in order; the failure report is the header and
   * the lines of the failed rows, in order; the counters count the scored and
   * the failed rows, so there are never more failures than scored rows, and
   * every line of the failure report is in the full report.
   */
  method WriteReport(preds: seq<Prediction>, groundTruth: seq<seq<string>>)
    returns (allLines: seq<string>, failedLines: seq<string>, validCases: nat, failCases: nat)
    ensures |allLines| == |preds| + 1 && allLines[0] == Header && allLines[1..] == Rows(preds, groundTruth)
    ensures failedLines == [Header] + FailedRows(Verdicts(preds, groundTruth), Rows(preds, groundTruth), |preds|)
    ensures validCases == ScoredCount(Verdicts(preds, groundTruth), |preds|)
    ensures failCases == |FailedRows(Verdicts(preds, groundTruth), Rows(preds, groundTruth), |preds|)|
    ensures failCases <= validCases
    ensures forall l | l in failedLines :: l in allLines
  {
    var vs := Verdicts(preds, groundTruth);
    var rs := Rows(preds, groundTruth);
    allLines, failedLines, validCases, failCases := Tally(vs, rs);
    TailIs(allLines, rs);
  }
}
