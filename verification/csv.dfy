/**
 * `tryGetDataRow` (javascript/Utility.js): a one-line CSV reader with two
 * states, inside or outside a quoted field. Outside quotes a comma ends the
 * field and a quote opens quoted mode only at the start of a field; inside
 * quotes a doubled quote stands for one quote character and a single quote
 * closes the field. Every field is trimmed.
 */
module Csv {
  import opened Text

  /** The loop state: the finished fields, the field being read, and whether a quoted field is open. */
  datatype ParseState = ParseState(fields: seq<string>, current: string, inQuotes: bool)

  /** Every string of `xs` is trimmed. */
  predicate AllTrimmed(xs: seq<string>) { forall k | 0 <= k < |xs| :: Trimmed(xs[k]) }

  /** A loop position and the state there. */
  datatype Cursor = Cursor(pos: nat, st: ParseState)

  /**
   * One iteration of the loop at position `i`: a doubled quote inside a
   * quoted field is consumed as one quote; a lone quote there closes it; a
   * comma outside quotes finishes the field; a quote at the start of a field
   * opens it; anything else is appended to the field.
   */
  function Step(line: string, i: nat, st: ParseState): (c: Cursor)
    requires i < |line|
    ensures i < c.pos <= |line|
  {
    var ch := line[i];
    if st.inQuotes then
      if ch == '"' && i + 1 < |line| && line[i + 1] == '"' then Cursor(i + 2, st.(current := st.current + ['"']))
      else if ch == '"' then Cursor(i + 1, st.(inQuotes := false))
      else Cursor(i + 1, st.(current := st.current + [ch]))
    else if ch == ',' then Cursor(i + 1, ParseState(st.fields + [Trim(st.current)], [], false))
    else if ch == '"' && st.current == [] then Cursor(i + 1, st.(inQuotes := true))
    else Cursor(i + 1, st.(current := st.current + [ch]))
  }

  /**
   * The loop from position `i` to the end of the line, then the final push of
   * the open field. One more field than those already finished is always
   * produced, and every field added is trimmed.
   */
  function ParseFrom(line: string, i: nat, st: ParseState): (r: seq<string>)
    requires i <= |line|
    ensures |r| > |st.fields|
    decreases |line| - i
  {
    if i == |line| then st.fields + [Trim(st.current)]
    else
      var c := Step(line, i, st);
      ParseFrom(line, c.pos, c.st)
  }

  /** Every field the loop adds is trimmed. */
  lemma {:induction false} ParseFromTrimmed(line: string, i: nat, st: ParseState)
    requires i <= |line| && AllTrimmed(st.fields)
    ensures AllTrimmed(ParseFrom(line, i, st))
    decreases |line| - i
  {
    if i < |line| {
      var c := Step(line, i, st);
      ParseFromTrimmed(line, c.pos, c.st);
    }
  }

  /** The fields of a line: at least one, each trimmed. */
  function Fields(line: string): (r: seq<string>)
    ensures |r| >= 1 && AllTrimmed(r)
  {
    ParseFromTrimmed(line, 0, ParseState([], [], false));
    ParseFrom(line, 0, ParseState([], [], false))
  }

  /**
   * `tryGetDataRow`: the column values are cleared, then filled with the
   * fields of the line. With `skipEmptyRows`, a line whose fields are all
   * empty is refused and leaves the values empty; any other line is
   * accepted, since it always has at least one field.
   */
  function TryGetDataRow(line: string, skipEmptyRows: bool): (r: (bool, seq<string>))
    ensures !r.0 <==> skipEmptyRows && forall k | 0 <= k < |Fields(line)| :: Fields(line)[k] == []
    ensures r.0 ==> r.1 == Fields(line)
    ensures !r.0 ==> r.1 == []
  {
    var fields := Fields(line);
    if skipEmptyRows && forall k | 0 <= k < |fields| :: fields[k] == [] then (false, [])
    else (|fields| > 0, fields)
  }

  // ---------------------------------------------------------------------------
  // Lines without quotes

  /** `s.split(c)`: the pieces between occurrences of `c`; the empty string splits into one empty piece. */
  function SplitOn(s: string, c: char): (r: seq<string>)
    ensures |r| >= 1
    decreases |s|
  {
    if s == [] then [[]]
    else
      var rest := SplitOn(s[1..], c);
      if s[0] == c then [[]] + rest else [[s[0]] + rest[0]] + rest[1..]
  }

  /** Number of occurrences of `c` in `s`. */
  function Occurrences(s: string, c: char): nat
    decreases |s|
  {
    if s == [] then 0 else (if s[0] == c then 1 else 0) + Occurrences(s[1..], c)
  }

  /** Splitting on `c` gives one more piece than there are occurrences of `c`. */
  lemma {:induction false} SplitOnCount(s: string, c: char)
    ensures |SplitOn(s, c)| == Occurrences(s, c) + 1
    decreases |s|
  {
    if s != [] {
      SplitOnCount(s[1..], c);
    }
  }

  /** Each string of `xs` trimmed. */
  function TrimAll(xs: seq<string>): (r: seq<string>)
    ensures |r| == |xs|
    decreases |xs|
  {
    if xs == [] then [] else [Trim(xs[0])] + TrimAll(xs[1..])
  }

  lemma ParseComma(line: string, i: nat, fs: seq<string>, cur: string)
    requires i < |line| && line[i] == ','
    ensures ParseFrom(line, i, ParseState(fs, cur, false)) == ParseFrom(line, i + 1, ParseState(fs + [Trim(cur)], [], false))
  {
  }

  lemma ParsePlainChar(line: string, i: nat, fs: seq<string>, cur: string)
    requires i < |line| && line[i] != ',' && line[i] != '"'
    ensures ParseFrom(line, i, ParseState(fs, cur, false)) == ParseFrom(line, i + 1, ParseState(fs, cur + [line[i]], false))
  {
    assert Step(line, i, ParseState(fs, cur, false)) == Cursor(i + 1, ParseState(fs, cur + [line[i]], false));
  }

  /** Outside quotes, a quote at the start of a field opens quoted mode. */
  lemma ParseOpeningQuote(line: string, i: nat, fs: seq<string>)
    requires i < |line| && line[i] == '"'
    ensures ParseFrom(line, i, ParseState(fs, [], false)) == ParseFrom(line, i + 1, ParseState(fs, [], true))
  {
  }

  /** Outside quotes, a quote in the middle of a field is an ordinary character. */
  lemma ParseLiteralQuote(line: string, i: nat, st: ParseState)
    requires !st.inQuotes && i < |line| && line[i] == '"' && st.current != []
    ensures ParseFrom(line, i, st) == ParseFrom(line, i + 1, st.(current := st.current + ['"']))
  {
  }

  /** At the end of the line the open field is trimmed and pushed. */
  lemma ParseEnd(line: string, st: ParseState)
    ensures ParseFrom(line, |line|, st) == st.fields + [Trim(st.current)]
  {
  }

  /** The pieces `ps` with `cur` put in front of the first. */
  function Prepend(cur: string, ps: seq<string>): seq<string>
    requires |ps| >= 1
  {
    [cur + ps[0]] + ps[1..]
  }

  lemma PrependEmpty(ps: seq<string>)
    requires |ps| >= 1
    ensures Prepend([], ps) == ps
  {
    var e: string := [];
    assert e + ps[0] == ps[0];
    assert [ps[0]] + ps[1..] == ps;
  }

  lemma PrependShift(cur: string, c: char, t: seq<string>)
    requires |t| >= 1
    ensures Prepend(cur, [[c] + t[0]] + t[1..]) == Prepend(cur + [c], t)
  {
    var ps := [[c] + t[0]] + t[1..];
    assert ps[0] == [c] + t[0];
    assert ps[1..] == t[1..];
    assert cur + ([c] + t[0]) == (cur + [c]) + t[0];
  }

  lemma PrependComma(cur: string, t: seq<string>)
    requires |t| >= 1
    ensures Prepend(cur, [[]] + t) == [cur] + t
  {
    var e: string := [];
    var ps := [e] + t;
    assert ps[0] == e && ps[1..] == t;
    assert cur + e == cur;
  }

  lemma TrimAllCons(x: string, xs: seq<string>)
    ensures TrimAll([x] + xs) == [Trim(x)] + TrimAll(xs)
  {
    assert ([x] + xs)[1..] == xs;
  }

  lemma SplitOnFirst(line: string, i: nat, c: char)
    requires i < |line|
    ensures line[i] == c ==> SplitOn(line[i..], c) == [[]] + SplitOn(line[i + 1..], c)
    ensures line[i] != c ==>
      SplitOn(line[i..], c) == [[line[i]] + SplitOn(line[i + 1..], c)[0]] + SplitOn(line[i + 1..], c)[1..]
  {
    assert line[i..][0] == line[i] && line[i..][1..] == line[i + 1..];
  }

  lemma {:induction false} PlainParse(line: string, i: nat, fs: seq<string>, cur: string)
    requires i <= |line|
    requires forall k | i <= k < |line| :: line[k] != '"'
    ensures ParseFrom(line, i, ParseState(fs, cur, false)) == fs + TrimAll(Prepend(cur, SplitOn(line[i..], ',')))
    decreases |line| - i, 1
  {
    if i == |line| {
      assert line[i..] == [];
      assert Prepend(cur, [[]]) == [cur] by { assert cur + [] == cur; }
    } else if line[i] == ',' {
      PlainParseComma(line, i, fs, cur);
    } else {
      PlainParseChar(line, i, fs, cur);
    }
  }

  lemma {:induction false} PlainParseComma(line: string, i: nat, fs: seq<string>, cur: string)
    requires i < |line| && line[i] == ','
    requires forall k | i <= k < |line| :: line[k] != '"'
    ensures ParseFrom(line, i, ParseState(fs, cur, false)) == fs + TrimAll(Prepend(cur, SplitOn(line[i..], ',')))
    decreases |line| - i, 0
  {
      var tail := SplitOn(line[i + 1..], ',');
      calc {
        ParseFrom(line, i, ParseState(fs, cur, false));
      == { ParseComma(line, i, fs, cur); }
        ParseFrom(line, i + 1, ParseState(fs + [Trim(cur)], [], false));
      == { PlainParse(line, i + 1, fs + [Trim(cur)], []); }
        fs + [Trim(cur)] + TrimAll(Prepend([], tail));
      == { PrependEmpty(tail); }
        fs + [Trim(cur)] + TrimAll(tail);
      == { TrimAllCons(cur, tail); }
        fs + TrimAll([cur] + tail);
      == { PrependComma(cur, tail); SplitOnFirst(line, i, ','); }
        fs + TrimAll(Prepend(cur, SplitOn(line[i..], ',')));
      }
  }

  lemma {:induction false} PlainParseChar(line: string, i: nat, fs: seq<string>, cur: string)
    requires i < |line| && line[i] != ','
    requires forall k | i <= k < |line| :: line[k] != '"'
    ensures ParseFrom(line, i, ParseState(fs, cur, false)) == fs + TrimAll(Prepend(cur, SplitOn(line[i..], ',')))
    decreases |line| - i, 0
  {
      var tail := SplitOn(line[i + 1..], ',');
      calc {
        ParseFrom(line, i, ParseState(fs, cur, false));
      == { ParsePlainChar(line, i, fs, cur); }
        ParseFrom(line, i + 1, ParseState(fs, cur + [line[i]], false));
      == { PlainParse(line, i + 1, fs, cur + [line[i]]); }
        fs + TrimAll(Prepend(cur + [line[i]], tail));
      == { PrependShift(cur, line[i], tail); SplitOnFirst(line, i, ','); }
        fs + TrimAll(Prepend(cur, SplitOn(line[i..], ',')));
      }
  }

  /**
   * A line without quote characters is split at every comma and each piece
   * trimmed, so it has one field more than it has commas.
   */
  lemma PlainLine(line: string)
    requires forall k | 0 <= k < |line| :: line[k] != '"'
    ensures Fields(line) == TrimAll(SplitOn(line, ','))
    ensures |Fields(line)| == Occurrences(line, ',') + 1
  {
    PlainParse(line, 0, [], []);
    assert line[0..] == line;
    PrependEmpty(SplitOn(line, ','));
    SplitOnCount(line, ',');
  }

  // ---------------------------------------------------------------------------
  // Reading one field

  /** `m` with every quote doubled, as `replace(/"/g, '""')` writes it. */
  function DoubleQuotes(m: string): (r: string)
    ensures |r| >= |m|
    decreases |m|
  {
    if m == [] then [] else (if m[0] == '"' then "\"\"" else [m[0]]) + DoubleQuotes(m[1..])
  }

  /** `m` enclosed in quotes with its inner quotes doubled. */
  function Quoted(m: string): string { "\"" + DoubleQuotes(m) + "\"" }

  lemma ParseEscapedQuote(line: string, i: nat, st: ParseState)
    requires st.inQuotes && i + 1 < |line| && line[i] == '"' && line[i + 1] == '"'
    ensures ParseFrom(line, i, st) == ParseFrom(line, i + 2, st.(current := st.current + ['"']))
  {
  }

  lemma ParseQuotedChar(line: string, i: nat, st: ParseState)
    requires st.inQuotes && i < |line| && line[i] != '"'
    ensures ParseFrom(line, i, st) == ParseFrom(line, i + 1, st.(current := st.current + [line[i]]))
  {
  }

  lemma ParseClosingQuote(line: string, i: nat, st: ParseState)
    requires st.inQuotes && i < |line| && line[i] == '"' && (i + 1 == |line| || line[i + 1] != '"')
    ensures ParseFrom(line, i, st) == ParseFrom(line, i + 1, st.(inQuotes := false))
  {
  }

  /**
   * From position `i`, `line` holds `m` written as a quoted field's body:
   * each quote of `m` doubled, then a closing quote that is not followed by
   * another quote.
   */
  predicate QuotedBodyAt(line: string, i: nat, m: string)
    decreases |m|
  {
    if m == [] then i < |line| && line[i] == '"' && (i + 1 == |line| || line[i + 1] != '"')
    else if m[0] == '"' then i + 1 < |line| && line[i] == '"' && line[i + 1] == '"' && QuotedBodyAt(line, i + 2, m[1..])
    else i < |line| && line[i] == m[0] && QuotedBodyAt(line, i + 1, m[1..])
  }

  /**
   * Inside a quoted field, a body that spells `m` reads back as exactly `m`:
   * each doubled quote gives one quote and every other character, commas
   * included, is kept; the closing quote ends quoted mode.
   */
  lemma {:induction false} QuotedBodyReads(line: string, i: nat, st: ParseState, m: string)
    requires st.inQuotes && QuotedBodyAt(line, i, m)
    ensures i + |DoubleQuotes(m)| < |line|
    ensures ParseFrom(line, i, st) == ParseFrom(line, i + |DoubleQuotes(m)| + 1, st.(current := st.current + m, inQuotes := false))
    decreases |m|
  {
    var fin := st.(current := st.current + m, inQuotes := false);
    if m == [] {
      assert fin == st.(inQuotes := false) by { assert st.current + m == st.current; }
      ParseClosingQuote(line, i, st);
    } else {
      var h: nat := if m[0] == '"' then 2 else 1;
      var st1 := st.(current := st.current + [m[0]]);
      assert |DoubleQuotes(m)| == h + |DoubleQuotes(m[1..])|;
      assert st1.(current := st1.current + m[1..], inQuotes := false) == fin by { AppendHead(st.current, m); }
      QuotedBodyReads(line, i + h, st1, m[1..]);
      if m[0] == '"' {
        ParseEscapedQuote(line, i, st);
      } else {
        ParseQuotedChar(line, i, st);
      }
    }
  }

  /** `DoubleQuotes(m)` and a closing quote, written after any prefix `p` and before any suffix not starting with a quote, spell `m`. */
  lemma {:induction false} DoubleQuotesSpells(p: string, m: string, suffix: string)
    requires suffix == [] || suffix[0] != '"'
    ensures QuotedBodyAt(p + DoubleQuotes(m) + "\"" + suffix, |p|, m)
    decreases |m|
  {
    var line := p + DoubleQuotes(m) + "\"" + suffix;
    if m == [] {
      assert line == p + "\"" + suffix;
      assert line[|p|] == '"';
      assert |p| + 1 == |line| || line[|p| + 1] == suffix[0];
    } else {
      var h := if m[0] == '"' then "\"\"" else [m[0]];
      assert line == (p + h) + DoubleQuotes(m[1..]) + "\"" + suffix;
      DoubleQuotesSpells(p + h, m[1..], suffix);
      assert line[|p|..|p| + |h|] == h;
    }
  }

  lemma AppendHead<T>(a: seq<T>, x: seq<T>)
    requires x != []
    ensures a + [x[0]] + x[1..] == a + x
  {
  }

  /** Text holding neither a comma nor a quote. */
  predicate IsPlain(x: string) { forall k | 0 <= k < |x| :: x[k] != ',' && x[k] != '"' }

  /** Outside quotes, text with no comma and no quote is appended to the open field. */
  lemma {:induction false} PlainTextReads(line: string, i: nat, st: ParseState, x: string)
    requires !st.inQuotes
    requires i + |x| <= |line| && line[i..i + |x|] == x
    requires IsPlain(x)
    ensures ParseFrom(line, i, st) == ParseFrom(line, i + |x|, st.(current := st.current + x))
    decreases |x|
  {
    if x == [] {
      assert st.current + x == st.current;
    } else {
      assert line[i] == x[0];
      assert line[i + 1..i + |x|] == x[1..];
      var st1 := st.(current := st.current + [x[0]]);
      var st2 := st1.(current := st1.current + x[1..]);
      assert st2 == st.(current := st.current + x) by { AppendHead(st.current, x); }
      ParsePlainChar(line, i, st.fields, st.current);
      assert ParseState(st.fields, st.current, false) == st && ParseState(st.fields, st.current + [line[i]], false) == st1;
      PlainTextReads(line, i + 1, st1, x[1..]);
      assert i + 1 + |x[1..]| == i + |x|;
    }
  }
}
