/**
 * The regular expressions of the message cleaner (javascript/Child.js,
 * `cleanMessage`), each written as a matcher that tries one start position,
 * and the global `replace` that scans a string with one of them.
 *
 * Backtracking: in every pattern here a bounded digit quantifier is followed
 * by something that can never be a digit (a separator, whitespace, or a word
 * boundary right after a digit), so the only digit count that can succeed is
 * the whole maximal run. The matchers therefore read maximal runs (`Run`);
 * `StandaloneAgrees` proves that this agrees with the literal reading of
 * "word boundary, digits, word boundary".
 */
module Patterns {
  import opened Text

  /** Literal reading of "word boundary, exactly `L` digits, word boundary" at `i`. */
  predicate StandaloneDigits(s: string, i: nat, L: nat) {
    i + L <= |s| && Boundary(s, i) && (forall k | i <= k < i + L :: IsDigit(s[k])) && Boundary(s, i + L)
  }

  /** A maximal run of `lo`..`hi` digits starting at `i`; yields the position after it. */
  function DigitsAt(s: string, i: nat, lo: nat, hi: nat): (r: Option<nat>)
    requires i <= |s|
    ensures r.Some? ==> i + lo <= r.value <= i + hi && r.value <= |s|
    ensures r.Some? ==> AllDigits(s[i..r.value]) && (r.value == |s| || !IsDigit(s[r.value]))
  {
    var n := Run(Digits, s, i);
    if lo <= n <= hi then Some(i + n) else None
  }

  /** Word boundary, `lo`..`hi` digits, word boundary, read as a maximal digit run. */
  function Standalone(s: string, i: nat, lo: nat, hi: nat): (r: Option<nat>)
    requires i <= |s|
    ensures r.Some? ==> i + lo <= r.value <= i + hi && r.value <= |s| && AllDigits(s[i..r.value])
  {
    if !Boundary(s, i) then None
    else match DigitsAt(s, i, lo, hi)
      case Some(e) => if Boundary(s, e) then Some(e) else None
      case None => None
  }

  lemma StandaloneRunIsExact(s: string, i: nat, L: nat)
    requires L >= 1 && StandaloneDigits(s, i, L)
    ensures Run(Digits, s, i) == L
  {
  }

  /**
   * The scanner `Standalone` succeeds exactly on the literal reading: when
   * it matches, the text it spans is a standalone number, and every
   * standalone number of an admissible length is what it matches.
   */
  lemma StandaloneAgrees(s: string, i: nat, lo: nat, hi: nat)
    requires i <= |s| && 1 <= lo
    ensures Standalone(s, i, lo, hi).Some? ==> StandaloneDigits(s, i, Standalone(s, i, lo, hi).value - i)
    ensures forall L | lo <= L <= hi && StandaloneDigits(s, i, L) :: Standalone(s, i, lo, hi) == Some(i + L)
  {
    forall L | lo <= L <= hi && StandaloneDigits(s, i, L)
      ensures Standalone(s, i, lo, hi) == Some(i + L)
    {
      StandaloneRunIsExact(s, i, L);
    }
  }

  /** One `replace` pass of the cleaner. */
  datatype Pass =
    | Whitespace  // a whitespace run, replaced by one space
    | IdLabel     // "ID" in any case, whitespace, 1..20 digits; replaced by "ID"
    | Amount      // "Rs", "Rs." or "INR" in any case, optional whitespace, a number with optional decimals
    | SlashDate   // 1-2 digits, '-' or '/', 1-2 digits, '-' or '/', 2-4 digits
    | LongNumber  // 9..20 digits
    | IsoDate     // 4 digits, '-' or '.', 1-2 digits, '-' or '.', 1-2 digits
    | DottedDate  // 1-2 digits, '-' or '.', 1-2 digits, '-' or '.', 2-4 digits
    | ClockTime   // 1-2 digits, ':', 2 digits, optionally ':' and 2 more digits
    | Year        // exactly 4 digits; removed only next to '/' or '-' and when 1900..2099
    | Masked      // one or more '*' followed by digits
    | PlusSuffix  // digits then '+', with a word character right after the '+'

  /** The separator classes of the date patterns: `-` or `/` when `slash`, else `-` or `.`. */
  predicate IsDateSep(c: char, slash: bool) { c == '-' || (if slash then c == '/' else c == '.') }

  /** Boundary, `lo1`..`hi1` digits, separator, 1..2 digits, separator, `lo3`..`hi3` digits, boundary. */
  function DateAt(s: string, i: nat, lo1: nat, hi1: nat, slash: bool, lo3: nat, hi3: nat): (r: Option<nat>)
    requires i <= |s| && 1 <= lo1
    ensures r.Some? ==> i < r.value <= |s|
  {
    if !Boundary(s, i) then None
    else match DigitsAt(s, i, lo1, hi1)
      case None => None
      case Some(p) =>
        if !(p < |s| && IsDateSep(s[p], slash)) then None
        else match DigitsAt(s, p + 1, 1, 2)
          case None => None
          case Some(q) =>
            if !(q < |s| && IsDateSep(s[q], slash)) then None
            else match DigitsAt(s, q + 1, lo3, hi3)
              case None => None
              case Some(e) => if Boundary(s, e) then Some(e) else None
  }

  /**
   * Boundary, 1..2 digits, ':', exactly 2 digits, then the optional group
   * ':' and 2 digits, then a boundary. The greedy group is tried first; if
   * the boundary after it fails the match ends before its ':' instead.
   */
  function ClockAt(s: string, i: nat): (r: Option<nat>)
    requires i <= |s|
    ensures r.Some? ==> i < r.value <= |s|
  {
    if !Boundary(s, i) then None
    else match DigitsAt(s, i, 1, 2)
      case None => None
      case Some(p) =>
        if !(p + 3 <= |s| && s[p] == ':' && IsDigit(s[p + 1]) && IsDigit(s[p + 2])) then None
        else
          var m := p + 3;
          if m + 3 <= |s| && s[m] == ':' && IsDigit(s[m + 1]) && IsDigit(s[m + 2]) && Boundary(s, m + 3) then Some(m + 3)
          else if Boundary(s, m) then Some(m)
          else None
  }

  /**
   * What follows the currency marker: optional whitespace, an integer part,
   * an optional '.' with more digits, then a boundary. Without the decimal
   * group the match can still end at the integer part, since the '.' after
   * it is a boundary.
   */
  function AmountTail(s: string, p: nat): (r: Option<nat>)
    requires p <= |s|
    ensures r.Some? ==> p < r.value <= |s|
  {
    var q := p + Run(Spaces, s, p);
    var n := Run(Digits, s, q);
    if n == 0 then None
    else
      var r := q + n;
      if r + 1 < |s| && s[r] == '.' && IsDigit(s[r + 1]) && Boundary(s, r + 1 + Run(Digits, s, r + 1)) then
        Some(r + 1 + Run(Digits, s, r + 1))
      else if Boundary(s, r) then Some(r)
      else None
  }

  /** A currency marker "Rs", "Rs." or "INR" (any case) after a boundary, and its amount. */
  function AmountAt(s: string, i: nat): (r: Option<nat>)
    requires i <= |s|
    ensures r.Some? ==> i < r.value <= |s|
  {
    if !Boundary(s, i) then None
    else if HasAtIgnoreCase(s, i, "rs") then
      if i + 2 < |s| && s[i + 2] == '.' && AmountTail(s, i + 3).Some? then AmountTail(s, i + 3)
      else AmountTail(s, i + 2)
    else if HasAtIgnoreCase(s, i, "inr") then AmountTail(s, i + 3)
    else None
  }

  /** "ID" (any case) after a boundary, whitespace, then 1..20 digits and a boundary. */
  function IdAt(s: string, i: nat): (r: Option<nat>)
    requires i <= |s|
    ensures r.Some? ==> i + 4 <= r.value <= |s|
  {
    if Boundary(s, i) && HasAtIgnoreCase(s, i, "id") && Run(Spaces, s, i + 2) > 0 then
      match DigitsAt(s, i + 2 + Run(Spaces, s, i + 2), 1, 20)
      case Some(e) => if Boundary(s, e) then Some(e) else None
      case None => None
    else None
  }

  /** One or more '*', then one or more digits; no boundary is needed on either side. */
  function MaskedAt(s: string, i: nat): (r: Option<nat>)
    requires i <= |s|
    ensures r.Some? ==> i < r.value <= |s|
  {
    if i < |s| && s[i] == '*' then
      var k := Run(Stars, s, i);
      var n := Run(Digits, s, i + k);
      if n > 0 then Some(i + k + n) else None
    else None
  }

  /** A boundary, digits, '+', and a boundary right after the '+' (so a word character follows it). */
  function PlusAt(s: string, i: nat): (r: Option<nat>)
    requires i <= |s|
    ensures r.Some? ==> i < r.value <= |s|
  {
    var n := Run(Digits, s, i);
    if Boundary(s, i) && n > 0 && i + n < |s| && s[i + n] == '+' && Boundary(s, i + n + 1) then Some(i + n + 1)
    else None
  }

  /** The end of the match of pass `p` that starts at `i`, if there is one. */
  function MatchAt(p: Pass, s: string, i: nat): (r: Option<nat>)
    requires i <= |s|
    ensures r.Some? ==> i < r.value <= |s|
    ensures p == IdLabel && r.Some? ==> i + 4 <= r.value
    ensures p == Year && r.Some? ==> r.value == i + 4 && AllDigits(s[i..i + 4])
  {
    match p
    case Whitespace =>
      if i < |s| && IsSpace(s[i]) then Some(i + Run(Spaces, s, i)) else None
    case IdLabel => IdAt(s, i)
    case Amount => AmountAt(s, i)
    case SlashDate => DateAt(s, i, 1, 2, true, 2, 4)
    case LongNumber => Standalone(s, i, 9, 20)
    case IsoDate => DateAt(s, i, 4, 4, false, 1, 2)
    case DottedDate => DateAt(s, i, 1, 2, false, 2, 4)
    case ClockTime => ClockAt(s, i)
    case Year => Standalone(s, i, 4, 4)
    case Masked => MaskedAt(s, i)
    case PlusSuffix => PlusAt(s, i)
  }

  predicate IsSlashOrDash(c: char) { c == '/' || c == '-' }

  /**
   * The year callback's context test: the character before the number or the
   * one four places after its start is '/' or '-'; a missing neighbour reads
   * as a space.
   */
  predicate DateContext(s: string, i: nat) {
    (1 <= i <= |s| && IsSlashOrDash(s[i - 1])) || (i + 4 < |s| && IsSlashOrDash(s[i + 4]))
  }

  function DigitValue(c: char): nat { if IsDigit(c) then c as int - '0' as int else 0 }

  /** Numeric value of a decimal digit string, as unary `+` reads it. */
  function DecimalValue(d: string): nat
  {
    if d == [] then 0 else DecimalValue(d[..|d| - 1]) * 10 + DigitValue(d[|d| - 1])
  }

  predicate InYearRange(d: string) { 1900 <= DecimalValue(d) <= 2099 }

  /** What the pass puts in place of the match `s[i..e]`; never longer than the match. */
  function Replacement(p: Pass, s: string, i: nat, e: nat): (r: string)
    requires i <= |s| && MatchAt(p, s, i) == Some(e)
    ensures |r| <= e - i
    ensures p != Whitespace && p != IdLabel ==> r == [] || r == s[i..e]
    ensures p != Whitespace && p != IdLabel && p != Year ==> r == []
  {
    match p
    case Whitespace => " "
    case IdLabel => "ID"
    case Year => if DateContext(s, i) && InYearRange(s[i..e]) then [] else s[i..e]
    case _ => []
  }

  /** A match found at some start position: where it ends and what replaces it. */
  datatype Hit = Hit(end: nat, replacement: string)

  /**
   * For each start position 0..|s|, the match there (if any). Every match
   * ends after its start, within the string, and is replaced by nothing
   * longer than itself.
   */
  predicate IsMatchTable(s: string, t: seq<Option<Hit>>) {
    |t| == |s| + 1 &&
    forall j | 0 <= j <= |s| :: t[j].Some? ==> j < t[j].value.end <= |s| && |t[j].value.replacement| <= t[j].value.end - j
  }

  /** The matches of pass `p` in `s`, which are always looked for in the original `s`. */
  function MatchTable(p: Pass, s: string): (t: seq<Option<Hit>>)
    ensures IsMatchTable(s, t)
    ensures forall j | 0 <= j <= |s| :: t[j].Some? <==> MatchAt(p, s, j).Some?
  {
    seq(|s| + 1, j requires 0 <= j <= |s| =>
      match MatchAt(p, s, j)
      case Some(e) => Some(Hit(e, Replacement(p, s, j, e)))
      case None => None)
  }

  /**
   * The global `replace` from position `i`: a match starting at `i` is
   * replaced and the scan resumes at its end; otherwise `s[i]` is copied and
   * the scan moves one place on. The result is never longer than the input.
   */
  function ScanFrom(s: string, t: seq<Option<Hit>>, i: nat): (r: string)
    requires IsMatchTable(s, t) && i <= |s|
    ensures |r| <= |s| - i
    decreases |s| - i
  {
    if i == |s| then []
    else match t[i]
      case Some(h) => h.replacement + ScanFrom(s, t, h.end)
      case None => [s[i]] + ScanFrom(s, t, i + 1)
  }

  /** `s.replace(pattern, replacement)` with the global flag, for pass `p`. */
  function Rewrite(p: Pass, s: string): (r: string)
    ensures |r| <= |s|
  {
    ScanFrom(s, MatchTable(p, s), 0)
  }

  /** Where no match starts, the scan copies the text through unchanged. */
  lemma {:induction false} ScanCopies(s: string, t: seq<Option<Hit>>, i: nat, k: nat)
    requires IsMatchTable(s, t) && i + k <= |s|
    requires forall m | i <= m < i + k :: t[m].None?
    ensures ScanFrom(s, t, i) == s[i..i + k] + ScanFrom(s, t, i + k)
    decreases k
  {
    if k > 0 {
      assert ScanFrom(s, t, i) == [s[i]] + ScanFrom(s, t, i + 1);
      ScanCopies(s, t, i + 1, k - 1);
      PrependSlice(s, i, i + k, ScanFrom(s, t, i + k));
    } else {
      assert s[i..i] == [];
    }
  }

  lemma PrependSlice<T>(s: seq<T>, i: nat, j: nat, tail: seq<T>)
    requires i < j <= |s|
    ensures s[i..j] + tail == [s[i]] + (s[i + 1..j] + tail)
  {
    assert s[i..j] == [s[i]] + s[i + 1..j];
  }

  /** Position `k` lies in the match starting at `j`, and that match is replaced by nothing. */
  predicate ErasedBy(s: string, t: seq<Option<Hit>>, j: nat, k: nat)
    requires IsMatchTable(s, t) && j <= |s|
  {
    t[j].Some? && j <= k < t[j].value.end && t[j].value.replacement == []
  }

  predicate Erased(s: string, t: seq<Option<Hit>>, k: nat)
    requires IsMatchTable(s, t) && k <= |s|
  {
    exists j | 0 <= j <= k :: ErasedBy(s, t, j, k)
  }

  /** The characters from `i` on that no deleted match covers, in order. */
  function Survivors(s: string, t: seq<Option<Hit>>, i: nat): string
    requires IsMatchTable(s, t) && i <= |s|
    decreases |s| - i
  {
    if i == |s| then [] else (if Erased(s, t, i) then [] else [s[i]]) + Survivors(s, t, i + 1)
  }

  /** No match starts strictly inside another match. */
  predicate NonOverlapping(s: string, t: seq<Option<Hit>>)
    requires IsMatchTable(s, t)
  {
    forall j, k | 0 <= j < k <= |s| :: t[j].Some? && k < t[j].value.end ==> t[k].None?
  }

  /** Every match is either deleted or put back unchanged. */
  predicate ErasesOrKeeps(s: string, t: seq<Option<Hit>>)
    requires IsMatchTable(s, t)
  {
    forall j | 0 <= j <= |s| :: t[j].Some? ==> t[j].value.replacement == [] || t[j].value.replacement == s[j..t[j].value.end]
  }

  /** No match that starts before `i` reaches past `i`. */
  predicate ScanAlignedAt(s: string, t: seq<Option<Hit>>, i: nat)
    requires IsMatchTable(s, t) && i <= |s|
  {
    forall j | 0 <= j < i :: t[j].Some? ==> t[j].value.end <= i
  }

  /** Inside a match, a position is erased exactly when that match is replaced by nothing. */
  lemma ErasedInsideMatch(s: string, t: seq<Option<Hit>>, i: nat, k: nat)
    requires IsMatchTable(s, t) && i <= |s| && t[i].Some? && i <= k < t[i].value.end
    requires NonOverlapping(s, t) && ScanAlignedAt(s, t, i)
    ensures Erased(s, t, k) <==> t[i].value.replacement == []
  {
    if t[i].value.replacement == [] {
      assert ErasedBy(s, t, i, k);
    }
  }

  lemma {:induction false} SurvivorsAcrossMatch(s: string, t: seq<Option<Hit>>, i: nat, k: nat)
    requires IsMatchTable(s, t) && i <= |s| && t[i].Some? && i <= k <= t[i].value.end
    requires NonOverlapping(s, t) && ScanAlignedAt(s, t, i)
    ensures Survivors(s, t, k)
         == (if t[i].value.replacement == [] then [] else s[k..t[i].value.end]) + Survivors(s, t, t[i].value.end)
    decreases t[i].value.end - k
  {
    var e := t[i].value.end;
    if k < e {
      SurvivorsAcrossMatch(s, t, i, k + 1);
      ErasedInsideMatch(s, t, i, k);
      assert s[k..e] == [s[k]] + s[k + 1..e];
    }
  }

  lemma {:induction false} ScanFromSurvivors(s: string, t: seq<Option<Hit>>, i: nat)
    requires IsMatchTable(s, t) && i <= |s|
    requires NonOverlapping(s, t) && ErasesOrKeeps(s, t) && ScanAlignedAt(s, t, i)
    ensures ScanFrom(s, t, i) == Survivors(s, t, i)
    decreases |s| - i
  {
    if i < |s| {
      match t[i]
      case Some(h) =>
        SurvivorsAcrossMatch(s, t, i, i);
        assert ScanAlignedAt(s, t, h.end);
        ScanFromSurvivors(s, t, h.end);
      case None =>
        assert !Erased(s, t, i);
        ScanFromSurvivors(s, t, i + 1);
    }
  }

  /**
   * A global replace whose matches never overlap and are each either deleted
   * or kept verbatim acts as a filter: its output is exactly the characters
   * that no deleted match covers, in their original order.
   */
  lemma ScanIsFilter(s: string, t: seq<Option<Hit>>)
    requires IsMatchTable(s, t) && NonOverlapping(s, t) && ErasesOrKeeps(s, t)
    ensures ScanFrom(s, t, 0) == Survivors(s, t, 0)
  {
    ScanFromSurvivors(s, t, 0);
  }

  // ---------------------------------------------------------------------------
  // Passes that only delete

  /** Every pass but the whitespace and the "ID" pass deletes its matches or puts them back unchanged. */
  lemma PassErasesOrKeeps(p: Pass, s: string)
    ensures p != Whitespace && p != IdLabel ==> ErasesOrKeeps(s, MatchTable(p, s))
  {
    var t := MatchTable(p, s);
    if p != Whitespace && p != IdLabel {
      forall j | 0 <= j <= |s| && t[j].Some?
        ensures t[j].value.replacement == [] || t[j].value.replacement == s[j..t[j].value.end]
      {
        var e := MatchAt(p, s, j).value;
        assert t[j] == Some(Hit(e, Replacement(p, s, j, e)));
      }
    }
  }

  /** A scan whose matches are deleted or kept verbatim leaves out characters and keeps the rest in order; overlapping matches are allowed. */
  lemma {:induction false} ScanSubseq(s: string, t: seq<Option<Hit>>, i: nat)
    requires IsMatchTable(s, t) && ErasesOrKeeps(s, t) && i <= |s|
    ensures IsSubseq(ScanFrom(s, t, i), s[i..])
    decreases |s| - i
  {
    if i == |s| {
      SubseqOfEmpty(s[i..]);
    } else {
      match t[i]
      case Some(h) =>
        ScanSubseq(s, t, h.end);
        if h.replacement == [] {
          SubseqOfEmpty(s[i..h.end]);
        } else {
          SubseqOfSelf(s[i..h.end]);
        }
        SubseqAppend(h.replacement, s[i..h.end], ScanFrom(s, t, h.end), s[h.end..]);
        assert s[i..] == s[i..h.end] + s[h.end..];
      case None =>
        ScanSubseq(s, t, i + 1);
        SubseqOfSelf([s[i]]);
        SubseqAppend([s[i]], [s[i]], ScanFrom(s, t, i + 1), s[i + 1..]);
        assert s[i..] == [s[i]] + s[i + 1..];
    }
  }

  /** The redaction passes other than "ID" only delete characters. */
  lemma RewriteOnlyDeletes(p: Pass, s: string)
    ensures p != Whitespace && p != IdLabel ==> IsSubseq(Rewrite(p, s), s)
  {
    if p != Whitespace && p != IdLabel {
      PassErasesOrKeeps(p, s);
      ScanSubseq(s, MatchTable(p, s), 0);
      assert s[0..] == s;
    }
  }

  /** Each replacement, lower-cased, is a subsequence of the lower-cased text it replaces. */
  ghost predicate LowerSubseqReplacements(s: string, t: seq<Option<Hit>>)
    requires IsMatchTable(s, t)
  {
    forall j | 0 <= j <= |s| && t[j].Some? :: IsSubseq(ToLower(t[j].value.replacement), ToLower(s[j..t[j].value.end]))
  }

  lemma {:induction false} ScanLowerSubseq(s: string, t: seq<Option<Hit>>, i: nat)
    requires IsMatchTable(s, t) && LowerSubseqReplacements(s, t) && i <= |s|
    ensures IsSubseq(ToLower(ScanFrom(s, t, i)), ToLower(s[i..]))
    decreases |s| - i
  {
    if i == |s| {
      SubseqOfEmpty(ToLower(s[i..]));
    } else {
      match t[i]
      case Some(h) =>
        ScanLowerSubseq(s, t, h.end);
        SubseqAppend(ToLower(h.replacement), ToLower(s[i..h.end]), ToLower(ScanFrom(s, t, h.end)), ToLower(s[h.end..]));
        LowerAppend(h.replacement, ScanFrom(s, t, h.end));
        assert s[i..] == s[i..h.end] + s[h.end..];
        LowerAppend(s[i..h.end], s[h.end..]);
      case None =>
        ScanLowerSubseq(s, t, i + 1);
        SubseqOfSelf(ToLower([s[i]]));
        SubseqAppend(ToLower([s[i]]), ToLower([s[i]]), ToLower(ScanFrom(s, t, i + 1)), ToLower(s[i + 1..]));
        LowerAppend([s[i]], ScanFrom(s, t, i + 1));
        assert s[i..] == [s[i]] + s[i + 1..];
        LowerAppend([s[i]], s[i + 1..]);
    }
  }

  /** The "ID" pass writes "ID" over a match that starts with "id" in some case, so case aside it only deletes. */
  lemma IdTableLowerSubseq(s: string)
    ensures LowerSubseqReplacements(s, MatchTable(IdLabel, s))
  {
    var t := MatchTable(IdLabel, s);
    forall j | 0 <= j <= |s| && t[j].Some?
      ensures IsSubseq(ToLower(t[j].value.replacement), ToLower(s[j..t[j].value.end]))
    {
      var e := IdAt(s, j).value;
      assert t[j] == Some(Hit(e, "ID"));
      IdReplacementLowerSubseq(s, j, e);
    }
  }

  lemma IdReplacementLowerSubseq(s: string, j: nat, e: nat)
    requires j <= |s| && IdAt(s, j) == Some(e)
    ensures IsSubseq(ToLower("ID"), ToLower(s[j..e]))
  {
    var rest := ToLower(s[j + 2..e]);
    assert ToLower("ID") == "id";
    assert s[j..e] == s[j..j + 2] + s[j + 2..e];
    LowerAppend(s[j..j + 2], s[j + 2..e]);
    SubseqOfSelf("id");
    SubseqOfEmpty(rest);
    SubseqAppend("id", "id", [], rest);
    assert "id" + [] == "id";
  }

  lemma IdRewriteLowerSubseq(s: string)
    ensures IsSubseq(ToLower(Rewrite(IdLabel, s)), ToLower(s))
  {
    IdTableLowerSubseq(s);
    ScanLowerSubseq(s, MatchTable(IdLabel, s), 0);
    assert s[0..] == s;
  }
}
