/**
 * The cleaner's regular expressions read literally, position by position,
 * and proofs that the scanners of `Patterns` find exactly what a
 * backtracking matcher finds at a start position: the match when it is
 * unique, and the longest one when a greedy quantifier or an optional group
 * leaves a choice.
 */
module Literals {
  import opened Text
  import opened Patterns

  /** `s[a..b]` holds only characters of class `cls`. */
  predicate Span(s: string, a: nat, b: nat, cls: CharClass) {
    a <= b <= |s| && forall k | a <= k < b :: InClass(s[k], cls)
  }

  /** A span that the next character, or the end, closes off is the maximal run. */
  lemma SpanIsRun(s: string, a: nat, b: nat, cls: CharClass)
    requires Span(s, a, b, cls) && (b == |s| || !InClass(s[b], cls))
    ensures Run(cls, s, a) == b - a
  {
    RunIsExact(cls, s, a, b - a);
  }

  /** The maximal run is a span. */
  lemma RunIsSpan(s: string, a: nat, cls: CharClass)
    requires a <= |s|
    ensures Span(s, a, a + Run(cls, s, a), cls)
  {
  }

  /** A closed-off digit span of admissible length is what `DigitsAt` reads. */
  lemma SpanIsDigitsAt(s: string, a: nat, b: nat, lo: nat, hi: nat)
    requires Span(s, a, b, Digits) && lo <= b - a <= hi && (b == |s| || !IsDigit(s[b]))
    ensures DigitsAt(s, a, lo, hi) == Some(b)
  {
    SpanIsRun(s, a, b, Digits);
  }

  /** What `DigitsAt` reads is a closed-off digit span of admissible length. */
  lemma DigitsAtIsSpan(s: string, a: nat, lo: nat, hi: nat)
    requires a <= |s| && DigitsAt(s, a, lo, hi).Some?
    ensures Span(s, a, DigitsAt(s, a, lo, hi).value, Digits)
    ensures lo <= DigitsAt(s, a, lo, hi).value - a <= hi
    ensures DigitsAt(s, a, lo, hi).value == |s| || !IsDigit(s[DigitsAt(s, a, lo, hi).value])
  {
    RunIsSpan(s, a, Digits);
  }

  /** After a digit, a boundary means no digit follows. */
  lemma BoundaryAfterDigit(s: string, e: nat)
    requires 0 < e <= |s| && IsDigit(s[e - 1]) && Boundary(s, e)
    ensures e == |s| || !IsDigit(s[e])
  {
  }

  // ---------------------------------------------------------------------------
  // `\bID\s+(\d{1,20})\b`, case-insensitive

  /** "id" in any case at `i`, whitespace from `i + 2` to `q`, 1..20 digits from `q` to `e`, boundaries around. */
  predicate IdLiteral(s: string, i: nat, q: nat, e: nat) {
    Boundary(s, i) && HasAtIgnoreCase(s, i, "id") && i + 2 < q && Span(s, i + 2, q, Spaces)
    && 1 <= e - q <= 20 && Span(s, q, e, Digits) && Boundary(s, e)
  }

  lemma IdAgrees(s: string, i: nat)
    requires i <= |s|
    ensures IdAt(s, i).Some? ==> exists q :: IdLiteral(s, i, q, IdAt(s, i).value)
    ensures forall q: nat, e: nat | IdLiteral(s, i, q, e) :: IdAt(s, i) == Some(e)
  {
    if IdAt(s, i).Some? {
      var q := i + 2 + Run(Spaces, s, i + 2);
      RunIsSpan(s, i + 2, Spaces);
      RunIsSpan(s, q, Digits);
      assert IdLiteral(s, i, q, IdAt(s, i).value);
    }
    forall q: nat, e: nat | IdLiteral(s, i, q, e)
      ensures IdAt(s, i) == Some(e)
    {
      IdLiteralIsFound(s, i, q, e);
    }
  }

  lemma IdLiteralIsFound(s: string, i: nat, q: nat, e: nat)
    requires IdLiteral(s, i, q, e)
    ensures IdAt(s, i) == Some(e)
  {
    SpanIsRun(s, i + 2, q, Spaces);
    BoundaryAfterDigit(s, e);
    SpanIsDigitsAt(s, q, e, 1, 20);
  }

  // ---------------------------------------------------------------------------
  // `\b\d+\+\b`

  /** Digits from `i` to `p`, a '+' at `p`, boundaries before the digits and after the '+'. */
  predicate PlusLiteral(s: string, i: nat, p: nat, e: nat) {
    Boundary(s, i) && i < p && Span(s, i, p, Digits) && p < |s| && s[p] == '+' && e == p + 1 && Boundary(s, e)
  }

  lemma PlusAgrees(s: string, i: nat)
    requires i <= |s|
    ensures PlusAt(s, i).Some? ==> exists p :: PlusLiteral(s, i, p, PlusAt(s, i).value)
    ensures forall p: nat, e: nat | PlusLiteral(s, i, p, e) :: PlusAt(s, i) == Some(e)
  {
    if PlusAt(s, i).Some? {
      RunIsSpan(s, i, Digits);
      assert PlusLiteral(s, i, i + Run(Digits, s, i), PlusAt(s, i).value);
    }
    forall p: nat, e: nat | PlusLiteral(s, i, p, e)
      ensures PlusAt(s, i) == Some(e)
    {
      SpanIsRun(s, i, p, Digits);
    }
  }

  // ---------------------------------------------------------------------------
  // `\*+\d+`

  /** Stars from `i` to `m`, then digits from `m` to `e`, at least one of each. */
  predicate MaskedLiteral(s: string, i: nat, m: nat, e: nat) {
    i < m && Span(s, i, m, Stars) && m < e && Span(s, m, e, Digits)
  }

  /** The scanner takes the longest of the literal matches, as the greedy `\d+` does. */
  lemma MaskedAgrees(s: string, i: nat)
    requires i <= |s|
    ensures MaskedAt(s, i).Some? ==> exists m :: MaskedLiteral(s, i, m, MaskedAt(s, i).value)
    ensures forall m: nat, e: nat | MaskedLiteral(s, i, m, e) :: MaskedAt(s, i).Some? && e <= MaskedAt(s, i).value
  {
    if MaskedAt(s, i).Some? {
      var m := i + Run(Stars, s, i);
      RunIsSpan(s, i, Stars);
      RunIsSpan(s, m, Digits);
      assert MaskedLiteral(s, i, m, MaskedAt(s, i).value);
    }
    forall m: nat, e: nat | MaskedLiteral(s, i, m, e)
      ensures MaskedAt(s, i).Some? && e <= MaskedAt(s, i).value
    {
      SpanIsRun(s, i, m, Stars);
      RunIsSpan(s, m, Digits);
      assert forall k | m <= k < e :: IsDigit(s[k]);
      RunCoversSpan(s, m, e, Digits);
    }
  }

  // ---------------------------------------------------------------------------
  // The three date patterns: `\b\d{lo1,hi1}[sep]\d{1,2}[sep]\d{lo3,hi3}\b`

  /**
   * Digits from `i` to `p`, a separator at `p`, digits from `p + 1` to `q`, a
   * separator at `q`, digits from `q + 1` to `e`, with the group lengths in
   * range and boundaries at both ends.
   */
  predicate DateLiteral(s: string, i: nat, lo1: nat, hi1: nat, slash: bool, lo3: nat, hi3: nat, p: nat, q: nat, e: nat) {
    && Boundary(s, i) && lo1 <= p - i <= hi1 && Span(s, i, p, Digits) && p < |s| && IsDateSep(s[p], slash)
    && 1 <= q - (p + 1) <= 2 && Span(s, p + 1, q, Digits) && q < |s| && IsDateSep(s[q], slash)
    && lo3 <= e - (q + 1) <= hi3 && Span(s, q + 1, e, Digits) && Boundary(s, e)
  }

  /** Every group is followed by a non-digit, so the literal match at `i` is unique and it is the one `DateAt` finds. */
  lemma DateAgrees(s: string, i: nat, lo1: nat, hi1: nat, slash: bool, lo3: nat, hi3: nat)
    requires i <= |s| && 1 <= lo1 && 1 <= lo3
    ensures DateAt(s, i, lo1, hi1, slash, lo3, hi3).Some? ==>
      exists p, q :: DateLiteral(s, i, lo1, hi1, slash, lo3, hi3, p, q, DateAt(s, i, lo1, hi1, slash, lo3, hi3).value)
    ensures forall p: nat, q: nat, e: nat | DateLiteral(s, i, lo1, hi1, slash, lo3, hi3, p, q, e) ::
      DateAt(s, i, lo1, hi1, slash, lo3, hi3) == Some(e)
  {
    if DateAt(s, i, lo1, hi1, slash, lo3, hi3).Some? {
      DateIsLiteral(s, i, lo1, hi1, slash, lo3, hi3);
    }
    forall p: nat, q: nat, e: nat | DateLiteral(s, i, lo1, hi1, slash, lo3, hi3, p, q, e)
      ensures DateAt(s, i, lo1, hi1, slash, lo3, hi3) == Some(e)
    {
      DateLiteralIsFound(s, i, lo1, hi1, slash, lo3, hi3, p, q, e);
    }
  }

  lemma DateIsLiteral(s: string, i: nat, lo1: nat, hi1: nat, slash: bool, lo3: nat, hi3: nat)
    requires i <= |s| && 1 <= lo1 && DateAt(s, i, lo1, hi1, slash, lo3, hi3).Some?
    ensures exists p, q :: DateLiteral(s, i, lo1, hi1, slash, lo3, hi3, p, q, DateAt(s, i, lo1, hi1, slash, lo3, hi3).value)
  {
    var e := DateAt(s, i, lo1, hi1, slash, lo3, hi3).value;
    var p := DigitsAt(s, i, lo1, hi1).value;
    var q := DigitsAt(s, p + 1, 1, 2).value;
    assert DigitsAt(s, q + 1, lo3, hi3) == Some(e);
    DigitsAtIsSpan(s, i, lo1, hi1);
    DigitsAtIsSpan(s, p + 1, 1, 2);
    DigitsAtIsSpan(s, q + 1, lo3, hi3);
    assert DateLiteral(s, i, lo1, hi1, slash, lo3, hi3, p, q, e);
  }

  lemma DateLiteralIsFound(s: string, i: nat, lo1: nat, hi1: nat, slash: bool, lo3: nat, hi3: nat, p: nat, q: nat, e: nat)
    requires 1 <= lo1 && 1 <= lo3 && DateLiteral(s, i, lo1, hi1, slash, lo3, hi3, p, q, e)
    ensures DateAt(s, i, lo1, hi1, slash, lo3, hi3) == Some(e)
  {
    SpanIsDigitsAt(s, i, p, lo1, hi1);
    SpanIsDigitsAt(s, p + 1, q, 1, 2);
    BoundaryAfterDigit(s, e);
    SpanIsDigitsAt(s, q + 1, e, lo3, hi3);
    DateAtSteps(s, i, lo1, hi1, slash, lo3, hi3, p, q, e);
  }

  /** `DateAt` succeeds when each of its steps does. */
  lemma DateAtSteps(s: string, i: nat, lo1: nat, hi1: nat, slash: bool, lo3: nat, hi3: nat, p: nat, q: nat, e: nat)
    requires i <= |s| && 1 <= lo1 && Boundary(s, i)
    requires p < |s| && DigitsAt(s, i, lo1, hi1) == Some(p) && IsDateSep(s[p], slash)
    requires q < |s| && DigitsAt(s, p + 1, 1, 2) == Some(q) && IsDateSep(s[q], slash)
    requires DigitsAt(s, q + 1, lo3, hi3) == Some(e) && Boundary(s, e)
    ensures DateAt(s, i, lo1, hi1, slash, lo3, hi3) == Some(e)
  {
  }

  // ---------------------------------------------------------------------------
  // `\b\d{1,2}:\d{2}(:\d{2})?\b`

  /** 1..2 digits from `i` to `p`, ':' and two digits, optionally ':' and two more, ending at `e`; boundaries at both ends. */
  predicate ClockLiteral(s: string, i: nat, p: nat, e: nat) {
    && Boundary(s, i) && 1 <= p - i <= 2 && Span(s, i, p, Digits)
    && p + 3 <= |s| && s[p] == ':' && IsDigit(s[p + 1]) && IsDigit(s[p + 2])
    && (e == p + 3 || (e == p + 6 && e <= |s| && s[p + 3] == ':' && IsDigit(s[p + 4]) && IsDigit(s[p + 5])))
    && Boundary(s, e)
  }

  /**
   * With the seconds present both the short and the long reading can match;
   * the greedy optional group makes the matcher take the long one, which is
   * the longest literal match and the one `ClockAt` finds.
   */
  lemma ClockAgrees(s: string, i: nat)
    requires i <= |s|
    ensures ClockAt(s, i).Some? ==> exists p :: ClockLiteral(s, i, p, ClockAt(s, i).value)
    ensures forall p: nat, e: nat | ClockLiteral(s, i, p, e) :: ClockAt(s, i).Some? && e <= ClockAt(s, i).value
  {
    if ClockAt(s, i).Some? {
      var p := i + Run(Digits, s, i);
      RunIsSpan(s, i, Digits);
      assert ClockLiteral(s, i, p, ClockAt(s, i).value);
    }
    forall p: nat, e: nat | ClockLiteral(s, i, p, e)
      ensures ClockAt(s, i).Some? && e <= ClockAt(s, i).value
    {
      SpanIsRun(s, i, p, Digits);
    }
  }

  // ---------------------------------------------------------------------------
  // `\b(?:Rs\.?|INR)\s*\d+(?:\.\d+)?\b`, case-insensitive

  /** What follows the currency marker, from `m`: whitespace to `q`, digits to `r`, optionally '.' and digits to `e`, then a boundary. */
  predicate TailLiteral(s: string, m: nat, q: nat, r: nat, e: nat) {
    && Span(s, m, q, Spaces) && q < r && Span(s, q, r, Digits)
    && (e == r || (r < |s| && s[r] == '.' && r + 1 < e && Span(s, r + 1, e, Digits)))
    && Boundary(s, e)
  }

  /** The marker at `i` ends at `m`: "rs", "rs." or "inr", in any case. */
  predicate MarkerLiteral(s: string, i: nat, m: nat) {
    || (m == i + 2 && HasAtIgnoreCase(s, i, "rs"))
    || (m == i + 3 && HasAtIgnoreCase(s, i, "rs") && i + 2 < |s| && s[i + 2] == '.')
    || (m == i + 3 && HasAtIgnoreCase(s, i, "inr"))
  }

  predicate AmountLiteral(s: string, i: nat, m: nat, q: nat, r: nat, e: nat) {
    Boundary(s, i) && MarkerLiteral(s, i, m) && TailLiteral(s, m, q, r, e)
  }

  /**
   * The greedy decimal group makes the matcher take the longest literal
   * match of the amount's tail, and that is the one `AmountTail` finds.
   */
  lemma TailAgrees(s: string, m: nat)
    requires m <= |s|
    ensures AmountTail(s, m).Some? ==> exists q, r :: TailLiteral(s, m, q, r, AmountTail(s, m).value)
    ensures forall q: nat, r: nat, e: nat | TailLiteral(s, m, q, r, e) :: AmountTail(s, m).Some? && e <= AmountTail(s, m).value
  {
    if AmountTail(s, m).Some? {
      TailIsLiteral(s, m);
    }
    forall q: nat, r: nat, e: nat | TailLiteral(s, m, q, r, e)
      ensures AmountTail(s, m).Some? && e <= AmountTail(s, m).value
    {
      TailLiteralIsFound(s, m, q, r, e);
    }
  }

  lemma TailIsLiteral(s: string, m: nat)
    requires m <= |s| && AmountTail(s, m).Some?
    ensures exists q, r :: TailLiteral(s, m, q, r, AmountTail(s, m).value)
  {
    var q := m + Run(Spaces, s, m);
    var r := q + Run(Digits, s, q);
    RunIsSpan(s, m, Spaces);
    RunIsSpan(s, q, Digits);
    if r + 1 < |s| && s[r] == '.' && IsDigit(s[r + 1]) && Boundary(s, r + 1 + Run(Digits, s, r + 1)) {
      RunIsSpan(s, r + 1, Digits);
    }
    assert TailLiteral(s, m, q, r, AmountTail(s, m).value);
  }

  lemma TailLiteralIsFound(s: string, m: nat, q: nat, r: nat, e: nat)
    requires TailLiteral(s, m, q, r, e)
    ensures AmountTail(s, m).Some? && e <= AmountTail(s, m).value
  {
    SpanIsRun(s, m, q, Spaces);
    if e == r {
      BoundaryAfterDigit(s, r);
    }
    SpanIsRun(s, q, r, Digits);
    if e != r {
      BoundaryAfterDigit(s, e);
      SpanIsRun(s, r + 1, e, Digits);
    }
  }

  /** A marker found ignoring case starts with the lower-case form of its first letter. */
  lemma MarkerFirstLetter(s: string, i: nat, w: string)
    requires w != [] && HasAtIgnoreCase(s, i, w)
    ensures Lower(s[i]) == w[0]
  {
    assert ToLower(s[i..i + |w|])[0] == Lower(s[i]);
  }

  /** The marker reading is forced by the text, and the amount is the longest literal match. */
  lemma AmountAgrees(s: string, i: nat)
    requires i <= |s|
    ensures AmountAt(s, i).Some? ==> exists m, q, r :: AmountLiteral(s, i, m, q, r, AmountAt(s, i).value)
    ensures forall m: nat, q: nat, r: nat, e: nat | AmountLiteral(s, i, m, q, r, e) :: AmountAt(s, i).Some? && e <= AmountAt(s, i).value
  {
    if AmountAt(s, i).Some? {
      var m := if HasAtIgnoreCase(s, i, "rs") && !(i + 2 < |s| && s[i + 2] == '.' && AmountTail(s, i + 3).Some?) then i + 2 else i + 3;
      assert AmountAt(s, i) == AmountTail(s, m);
      TailIsLiteral(s, m);
      var q, r :| TailLiteral(s, m, q, r, AmountAt(s, i).value);
      assert AmountLiteral(s, i, m, q, r, AmountAt(s, i).value);
    }
    forall m: nat, q: nat, r: nat, e: nat | AmountLiteral(s, i, m, q, r, e)
      ensures AmountAt(s, i).Some? && e <= AmountAt(s, i).value
    {
      AmountLiteralIsFound(s, i, m, q, r, e);
    }
  }

  lemma AmountLiteralIsFound(s: string, i: nat, m: nat, q: nat, r: nat, e: nat)
    requires AmountLiteral(s, i, m, q, r, e)
    ensures AmountAt(s, i).Some? && e <= AmountAt(s, i).value
  {
    TailLiteralIsFound(s, m, q, r, e);
    if HasAtIgnoreCase(s, i, "rs") {
      MarkerFirstLetter(s, i, "rs");
    }
    if HasAtIgnoreCase(s, i, "inr") {
      MarkerFirstLetter(s, i, "inr");
    }
    if m == i + 2 && i + 2 < |s| && s[i + 2] == '.' {
      assert false;
    }
  }

  /** Every span from `a` lies within the maximal run from `a`. */
  lemma {:induction false} RunCoversSpan(s: string, a: nat, b: nat, cls: CharClass)
    requires Span(s, a, b, cls)
    ensures b <= a + Run(cls, s, a)
    decreases b - a
  {
    if a < b {
      RunCoversSpan(s, a + 1, b, cls);
    }
  }
}
