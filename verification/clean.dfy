/**
 * `cleanMessage` (javascript/Child.js): whitespace collapse and trim, then a
 * fixed, ordered list of redaction passes, then a final trim.
 */
module Clean {
  import opened Text
  import opened Patterns

  /** The redaction passes, in the order the cleaner applies them. */
  const Redactions: seq<Pass> :=
    [IdLabel, Amount, SlashDate, LongNumber, IsoDate, DottedDate, ClockTime, Year, Masked, PlusSuffix]

  /** Each pass consumes the output of the previous one; none makes the text longer. */
  function ApplyAll(passes: seq<Pass>, s: string): (r: string)
    ensures |r| <= |s|
    decreases |passes|
  {
    if passes == [] then s else ApplyAll(passes[1..], Rewrite(passes[0], s))
  }

  /** The cleaned message: never longer than the input, and trimmed. */
  function CleanMessage(m: string): (r: string)
    ensures Trimmed(r)
    ensures |r| <= |m|
  {
    Trim(ApplyAll(Redactions, Trim(Rewrite(Whitespace, m))))
  }

  /**
   * The cleaner never reorders or duplicates the text it keeps: ignoring
   * whitespace and case, the cleaned message is a subsequence of the message.
   */
  lemma CleanKeepsOrder(m: string)
    ensures IsSubseq(ToLower(Squeeze(CleanMessage(m))), ToLower(Squeeze(m)))
  {
    var m1 := Rewrite(Whitespace, m);
    var m2 := Trim(m1);
    var m3 := ApplyAll(Redactions, m2);
    CollapseWhitespace(m);
    TrimSqueeze(m1);
    TrimSqueeze(m3);
    RedactionsOnlyDelete(m2);
    SqueezeSubseq(ToLower(m3), ToLower(m2));
    LowerSqueeze(m3);
    LowerSqueeze(m2);
  }

  /** A run of passes none of which is the whitespace or the "ID" pass only deletes characters. */
  lemma {:induction false} ApplyAllOnlyDeletes(passes: seq<Pass>, s: string)
    ensures (forall k | 0 <= k < |passes| :: passes[k] != Whitespace && passes[k] != IdLabel) ==> IsSubseq(ApplyAll(passes, s), s)
    decreases |passes|
  {
    if passes == [] {
      SubseqOfSelf(s);
    } else if forall k | 0 <= k < |passes| :: passes[k] != Whitespace && passes[k] != IdLabel {
      var s1 := Rewrite(passes[0], s);
      RewriteOnlyDeletes(passes[0], s);
      assert forall k | 0 <= k < |passes[1..]| :: passes[1..][k] == passes[k + 1];
      ApplyAllOnlyDeletes(passes[1..], s1);
      SubseqTrans(ApplyAll(passes[1..], s1), s1, s);
    }
  }

  /** The "ID" pass comes first, and no later pass is the whitespace or the "ID" pass. */
  lemma RedactionsAfterId()
    ensures Redactions[0] == IdLabel
    ensures forall k | 0 <= k < |Redactions[1..]| :: Redactions[1..][k] != Whitespace && Redactions[1..][k] != IdLabel
  {
  }

  /**
   * After the "ID" pass, the redactions only delete characters; the "ID"
   * pass itself only deletes when case is ignored. So the redacted text,
   * lower-cased, is a subsequence of its input lower-cased.
   */
  lemma RedactionsOnlyDelete(s: string)
    ensures ApplyAll(Redactions, s) == ApplyAll(Redactions[1..], Rewrite(IdLabel, s))
    ensures IsSubseq(ApplyAll(Redactions[1..], s), s)
    ensures IsSubseq(ToLower(ApplyAll(Redactions, s)), ToLower(s))
  {
    RedactionsAfterId();
    ApplyAllOnlyDeletes(Redactions[1..], s);
    var s1 := Rewrite(IdLabel, s);
    ApplyAllOnlyDeletes(Redactions[1..], s1);
    IdRewriteLowerSubseq(s);
    SubseqLower(ApplyAll(Redactions[1..], s1), s1);
    SubseqTrans(ToLower(ApplyAll(Redactions[1..], s1)), ToLower(s1), ToLower(s));
  }

  // ---------------------------------------------------------------------------
  // The whitespace pass

  /** Every whitespace character is a plain space, and no two of them are adjacent. */
  predicate SingleSpaced(r: string) {
    forall k | 0 <= k < |r| :: IsSpace(r[k]) ==> r[k] == ' ' && (k + 1 == |r| || !IsSpace(r[k + 1]))
  }

  /** The whitespace pass's table: a whitespace run starts a match that ends with the run and becomes one space. */
  predicate CollapsingTable(s: string, t: seq<Option<Hit>>)
    requires IsMatchTable(s, t)
  {
    forall i {:trigger t[i]} | 0 <= i < |s| :: t[i] == (if IsSpace(s[i]) then Some(Hit(i + Run(Spaces, s, i), " ")) else None)
  }

  lemma WhitespaceTable(s: string)
    ensures CollapsingTable(s, MatchTable(Whitespace, s))
  {
    var t := MatchTable(Whitespace, s);
    forall i | 0 <= i < |s|
      ensures t[i] == (if IsSpace(s[i]) then Some(Hit(i + Run(Spaces, s, i), " ")) else None)
    {
      assert MatchAt(Whitespace, s, i) == (if IsSpace(s[i]) then Some(i + Run(Spaces, s, i)) else None);
    }
  }

  /** The scan from a position inside the string starts with a space exactly when the string does there. */
  lemma CollapseFirst(s: string, t: seq<Option<Hit>>, i: nat)
    requires IsMatchTable(s, t) && CollapsingTable(s, t) && i < |s|
    ensures ScanFrom(s, t, i) != [] && (IsSpace(ScanFrom(s, t, i)[0]) <==> IsSpace(s[i]))
  {
    if IsSpace(s[i]) {
      assert t[i] == Some(Hit(i + Run(Spaces, s, i), " "));
    } else {
      assert t[i].None?;
    }
  }

  lemma {:induction false} CollapseSpaced(s: string, t: seq<Option<Hit>>, i: nat)
    requires IsMatchTable(s, t) && CollapsingTable(s, t) && i <= |s|
    ensures SingleSpaced(ScanFrom(s, t, i))
    decreases |s| - i
  {
    if i < |s| {
      if IsSpace(s[i]) {
        var e := i + Run(Spaces, s, i);
        assert t[i] == Some(Hit(e, " "));
        CollapseSpaced(s, t, e);
        if e < |s| {
          CollapseFirst(s, t, e);
        }
        assert ScanFrom(s, t, i) == " " + ScanFrom(s, t, e);
      } else {
        assert t[i].None?;
        CollapseSpaced(s, t, i + 1);
        assert ScanFrom(s, t, i) == [s[i]] + ScanFrom(s, t, i + 1);
      }
    }
  }

  lemma {:induction false} CollapseSqueeze(s: string, t: seq<Option<Hit>>, i: nat)
    requires IsMatchTable(s, t) && CollapsingTable(s, t) && i <= |s|
    ensures Squeeze(ScanFrom(s, t, i)) == Squeeze(s[i..])
    decreases |s| - i
  {
    if i < |s| {
      if IsSpace(s[i]) {
        var e := i + Run(Spaces, s, i);
        assert t[i] == Some(Hit(e, " "));
        CollapseSqueeze(s, t, e);
        var rest := ScanFrom(s, t, e);
        assert ScanFrom(s, t, i) == " " + rest;
        assert s[i..] == s[i..e] + s[e..];
        SqueezeAppend(s[i..e], s[e..]);
        SqueezeAllSpace(s[i..e]);
        assert (" " + rest)[1..] == rest;
      } else {
        assert t[i].None?;
        CollapseSqueeze(s, t, i + 1);
        var rest := ScanFrom(s, t, i + 1);
        assert ScanFrom(s, t, i) == [s[i]] + rest;
        assert ([s[i]] + rest)[1..] == rest;
        assert s[i..][1..] == s[i + 1..];
      }
    }
  }

  /** The scan splits into the same words as the text it scans. */
  lemma {:induction false} CollapseSplit(s: string, t: seq<Option<Hit>>, i: nat)
    requires IsMatchTable(s, t) && CollapsingTable(s, t) && i <= |s|
    ensures SplitWords(ScanFrom(s, t, i)) == SplitWords(s[i..])
    decreases |s| - i
  {
    var k, e := CollapseStep(s, t, i);
    if i + k < |s| {
      CollapseSplit(s, t, e);
      SameSplitAfterWord(s[i..], ScanFrom(s, t, i), s[i..i + k], s[i + k..e], s[e..], ScanFrom(s, t, e));
    }
  }

  /**
   * One step of the whitespace scan from `i`: the word up to the next
   * whitespace run is copied, and the run from `i + k` to `e` becomes one space.
   */
  lemma CollapseStep(s: string, t: seq<Option<Hit>>, i: nat) returns (k: nat, e: nat)
    requires IsMatchTable(s, t) && CollapsingTable(s, t) && i <= |s|
    ensures i + k <= e <= |s|
    ensures i + k == |s| ==> ScanFrom(s, t, i) == s[i..]
    ensures i + k < |s| ==>
      && i + k < e
      && ScanFrom(s, t, i) == s[i..i + k] + " " + ScanFrom(s, t, e)
      && NoSpace(s[i..i + k]) && AllSpace(s[i + k..e])
      && s[i..] == s[i..i + k] + s[i + k..e] + s[e..]
      && (s[e..] == [] || !IsSpace(s[e..][0]))
      && (ScanFrom(s, t, e) == [] || !IsSpace(ScanFrom(s, t, e)[0]))
  {
    k := CollapseCopy(s, t, i);
    if i + k == |s| {
      e := |s|;
      assert ScanFrom(s, t, i + k) == [];
      assert s[i..i + k] + [] == s[i..];
    } else {
      e := CollapseGap(s, t, i + k);
      PrefixChain(ScanFrom(s, t, i), s[i..i + k], ScanFrom(s, t, i + k), " ", ScanFrom(s, t, e));
      SliceThree(s, i, i + k, e);
    }
  }

  lemma PrefixChain<T>(a: seq<T>, w: seq<T>, b: seq<T>, g: seq<T>, c: seq<T>)
    requires a == w + b && b == g + c
    ensures a == w + g + c
  {
  }

  /** The scan copies the non-space run at `i`, which ends at whitespace or at the end. */
  lemma CollapseCopy(s: string, t: seq<Option<Hit>>, i: nat) returns (k: nat)
    requires IsMatchTable(s, t) && CollapsingTable(s, t) && i <= |s|
    ensures i + k <= |s| && NoSpace(s[i..i + k])
    ensures i + k == |s| || IsSpace(s[i + k])
    ensures ScanFrom(s, t, i) == s[i..i + k] + ScanFrom(s, t, i + k)
  {
    k := Run(NonSpaces, s, i);
    forall m | i <= m < i + k
      ensures t[m].None?
    {
      assert !IsSpace(s[m]);
    }
    ScanCopies(s, t, i, k);
    var w := s[i..i + k];
    forall m | 0 <= m < k
      ensures !IsSpace(w[m])
    {
      assert w[m] == s[i + m];
    }
  }

  /**
   * The scan turns the whitespace run from `j` to `e` into one space; the
   * text after the run, and the scan from there, do not start with whitespace.
   */
  lemma CollapseGap(s: string, t: seq<Option<Hit>>, j: nat) returns (e: nat)
    requires IsMatchTable(s, t) && CollapsingTable(s, t) && j < |s| && IsSpace(s[j])
    ensures j < e <= |s| && AllSpace(s[j..e])
    ensures s[e..] == [] || !IsSpace(s[e..][0])
    ensures ScanFrom(s, t, j) == " " + ScanFrom(s, t, e)
    ensures ScanFrom(s, t, e) == [] || !IsSpace(ScanFrom(s, t, e)[0])
  {
    e := j + Run(Spaces, s, j);
    assert t[j] == Some(Hit(e, " "));
    if e < |s| {
      CollapseFirst(s, t, e);
      assert s[e..][0] == s[e];
    } else {
      assert ScanFrom(s, t, e) == [];
    }
    forall m | 0 <= m < e - j
      ensures IsSpace(s[j..e][m])
    {
      assert s[j..e][m] == s[j + m];
    }
  }

  /** The same word before different whitespace, followed by texts with the same split. */
  lemma SameSplitAfterWord(x: string, y: string, w: string, g: string, tailx: string, rest: string)
    requires x == w + g + tailx && y == w + " " + rest
    requires NoSpace(w) && g != [] && AllSpace(g)
    requires tailx == [] || !IsSpace(tailx[0])
    requires rest == [] || !IsSpace(rest[0])
    requires SplitWords(rest) == SplitWords(tailx)
    ensures SplitWords(y) == SplitWords(x)
  {
    SplitAfterWord(w, " ", rest);
    SplitAfterWord(w, g, tailx);
  }

  /**
   * The whitespace pass leaves only single plain spaces between words and
   * keeps every other character, in order.
   */
  lemma CollapseWhitespace(s: string)
    ensures SingleSpaced(Rewrite(Whitespace, s))
    ensures Squeeze(Rewrite(Whitespace, s)) == Squeeze(s)
    ensures SplitWords(Rewrite(Whitespace, s)) == SplitWords(s)
  {
    WhitespaceTable(s);
    CollapseSplit(s, MatchTable(Whitespace, s), 0);
    CollapseSpaced(s, MatchTable(Whitespace, s), 0);
    CollapseSqueeze(s, MatchTable(Whitespace, s), 0);
    assert s[0..] == s;
  }

  // ---------------------------------------------------------------------------
  // Passes that delete whole standalone numbers

  /** Inside a standalone number no other standalone number can start. */
  lemma StandaloneNoInnerStart(s: string, j: nat, k: nat, lo: nat, hi: nat, lo2: nat, hi2: nat)
    requires j <= |s| && Standalone(s, j, lo, hi).Some? && j < k < Standalone(s, j, lo, hi).value
    ensures Standalone(s, k, lo2, hi2).None?
  {
    var e := Standalone(s, j, lo, hi).value;
    assert s[j..e][k - 1 - j] == s[k - 1] && s[j..e][k - j] == s[k];
    assert !Boundary(s, k);
  }

  /** Position `k` lies inside a standalone 4-digit number next to '/' or '-' whose value is 1900..2099. */
  predicate InDatedYear(s: string, k: nat) {
    exists j | 0 <= j <= k && k < j + 4 :: StandaloneDigits(s, j, 4) && DateContext(s, j) && InYearRange(s[j..j + 4])
  }

  /** The characters of `s` from `i` on that are not inside a dated year. */
  function WithoutDatedYears(s: string, i: nat): string
    requires i <= |s|
    decreases |s| - i
  {
    if i == |s| then [] else (if InDatedYear(s, i) then [] else [s[i]]) + WithoutDatedYears(s, i + 1)
  }

  /** The year pass's table: each standalone 4-digit number is matched, and deleted when it is a dated year. */
  predicate YearShaped(s: string, t: seq<Option<Hit>>)
    requires IsMatchTable(s, t)
  {
    forall j | 0 <= j <= |s| :: t[j] == (
      match Standalone(s, j, 4, 4)
      case None => None
      case Some(e) => Some(Hit(e, if DateContext(s, j) && InYearRange(s[j..e]) then [] else s[j..e])))
  }

  lemma YearTable(s: string)
    ensures YearShaped(s, MatchTable(Year, s))
  {
    var t := MatchTable(Year, s);
    forall j | 0 <= j <= |s|
      ensures t[j] == (
        match Standalone(s, j, 4, 4)
        case None => None
        case Some(e) => Some(Hit(e, if DateContext(s, j) && InYearRange(s[j..e]) then [] else s[j..e])))
    {
      assert MatchAt(Year, s, j) == Standalone(s, j, 4, 4);
    }
  }

  lemma YearTableShape(s: string, t: seq<Option<Hit>>)
    requires IsMatchTable(s, t) && YearShaped(s, t)
    ensures NonOverlapping(s, t) && ErasesOrKeeps(s, t)
  {
    forall j, k | 0 <= j < k <= |s| && t[j].Some? && k < t[j].value.end
      ensures t[k].None?
    {
      StandaloneNoInnerStart(s, j, k, 4, 4, 4, 4);
    }
  }

  lemma YearErasedIsDated(s: string, t: seq<Option<Hit>>, k: nat)
    requires IsMatchTable(s, t) && YearShaped(s, t) && k < |s| && Erased(s, t, k)
    ensures InDatedYear(s, k)
  {
    var j :| 0 <= j <= k && ErasedBy(s, t, j, k);
    StandaloneAgrees(s, j, 4, 4);
    var e := Standalone(s, j, 4, 4).value;
    assert e == j + 4 && t[j].value.replacement == [] && s[j..e] != [];
    assert StandaloneDigits(s, j, 4) && DateContext(s, j) && InYearRange(s[j..j + 4]);
  }

  lemma DatedYearIsErased(s: string, t: seq<Option<Hit>>, k: nat)
    requires IsMatchTable(s, t) && YearShaped(s, t) && k < |s| && InDatedYear(s, k)
    ensures Erased(s, t, k)
  {
    var j :| 0 <= j <= k && k < j + 4 && StandaloneDigits(s, j, 4) && DateContext(s, j) && InYearRange(s[j..j + 4]);
    StandaloneAgrees(s, j, 4, 4);
    assert Standalone(s, j, 4, 4) == Some(j + 4);
    assert t[j] == Some(Hit(j + 4, []));
    assert ErasedBy(s, t, j, k);
  }

  lemma YearErasedIff(s: string, t: seq<Option<Hit>>, k: nat)
    requires IsMatchTable(s, t) && YearShaped(s, t) && k < |s|
    ensures Erased(s, t, k) <==> InDatedYear(s, k)
  {
    if Erased(s, t, k) {
      YearErasedIsDated(s, t, k);
    }
    if InDatedYear(s, k) {
      DatedYearIsErased(s, t, k);
    }
  }

  lemma {:induction false} YearSurvivors(s: string, t: seq<Option<Hit>>, i: nat)
    requires IsMatchTable(s, t) && YearShaped(s, t) && i <= |s|
    ensures Survivors(s, t, i) == WithoutDatedYears(s, i)
    decreases |s| - i
  {
    if i < |s| {
      YearErasedIff(s, t, i);
      YearSurvivors(s, t, i + 1);
    }
  }

  /**
   * The year pass removes a standalone 4-digit number exactly when '/' or '-'
   * touches it and its value is 1900..2099; every other character, including
   * every other 4-digit number, is kept in order.
   */
  lemma YearPassRemovesExactlyDatedYears(s: string)
    ensures Rewrite(Year, s) == WithoutDatedYears(s, 0)
  {
    var t := MatchTable(Year, s);
    YearTable(s);
    YearTableShape(s, t);
    ScanIsFilter(s, t);
    YearSurvivors(s, t, 0);
  }

  /** Position `k` lies inside a standalone run of 9 to 20 digits. */
  predicate InLongNumber(s: string, k: nat) {
    exists j, L | 0 <= j <= k && 9 <= L <= 20 && k < j + L :: StandaloneDigits(s, j, L)
  }

  /** The characters of `s` from `i` on that are not inside a long number. */
  function WithoutLongNumbers(s: string, i: nat): string
    requires i <= |s|
    decreases |s| - i
  {
    if i == |s| then [] else (if InLongNumber(s, i) then [] else [s[i]]) + WithoutLongNumbers(s, i + 1)
  }

  /** The long-number pass's table: each standalone run of 9 to 20 digits is matched and deleted. */
  predicate LongNumberShaped(s: string, t: seq<Option<Hit>>)
    requires IsMatchTable(s, t)
  {
    forall j | 0 <= j <= |s| :: t[j] == (
      match Standalone(s, j, 9, 20)
      case None => None
      case Some(e) => Some(Hit(e, [])))
  }

  lemma LongNumberTable(s: string)
    ensures LongNumberShaped(s, MatchTable(LongNumber, s))
  {
    var t := MatchTable(LongNumber, s);
    forall j | 0 <= j <= |s|
      ensures t[j] == (
        match Standalone(s, j, 9, 20)
        case None => None
        case Some(e) => Some(Hit(e, [])))
    {
      assert MatchAt(LongNumber, s, j) == Standalone(s, j, 9, 20);
    }
  }

  lemma LongNumberTableShape(s: string, t: seq<Option<Hit>>)
    requires IsMatchTable(s, t) && LongNumberShaped(s, t)
    ensures NonOverlapping(s, t) && ErasesOrKeeps(s, t)
  {
    forall j, k | 0 <= j < k <= |s| && t[j].Some? && k < t[j].value.end
      ensures t[k].None?
    {
      StandaloneNoInnerStart(s, j, k, 9, 20, 9, 20);
    }
  }

  lemma LongNumberErasedIsLong(s: string, t: seq<Option<Hit>>, k: nat)
    requires IsMatchTable(s, t) && LongNumberShaped(s, t) && k < |s| && Erased(s, t, k)
    ensures InLongNumber(s, k)
  {
    var j :| 0 <= j <= k && ErasedBy(s, t, j, k);
    var e := t[j].value.end;
    assert Standalone(s, j, 9, 20) == Some(e);
    StandaloneAgrees(s, j, 9, 20);
    assert 9 <= e - j <= 20 && k < j + (e - j) && StandaloneDigits(s, j, e - j);
  }

  lemma LongNumberIsErased(s: string, t: seq<Option<Hit>>, k: nat)
    requires IsMatchTable(s, t) && LongNumberShaped(s, t) && k < |s| && InLongNumber(s, k)
    ensures Erased(s, t, k)
  {
    var j, L :| 0 <= j <= k && 9 <= L <= 20 && k < j + L && StandaloneDigits(s, j, L);
    StandaloneAgrees(s, j, 9, 20);
    assert ErasedBy(s, t, j, k);
  }

  lemma LongNumberErasedIff(s: string, t: seq<Option<Hit>>, k: nat)
    requires IsMatchTable(s, t) && LongNumberShaped(s, t) && k < |s|
    ensures Erased(s, t, k) <==> InLongNumber(s, k)
  {
    if Erased(s, t, k) {
      LongNumberErasedIsLong(s, t, k);
    }
    if InLongNumber(s, k) {
      LongNumberIsErased(s, t, k);
    }
  }

  lemma {:induction false} LongNumberSurvivors(s: string, t: seq<Option<Hit>>, i: nat)
    requires IsMatchTable(s, t) && LongNumberShaped(s, t) && i <= |s|
    ensures Survivors(s, t, i) == WithoutLongNumbers(s, i)
    decreases |s| - i
  {
    if i < |s| {
      LongNumberErasedIff(s, t, i);
      LongNumberSurvivors(s, t, i + 1);
    }
  }

  /**
   * The long-number pass deletes exactly the standalone digit runs of length
   * 9 to 20 and keeps every other character in order.
   */
  lemma LongNumberPassRemovesExactlyLongRuns(s: string)
    ensures Rewrite(LongNumber, s) == WithoutLongNumbers(s, 0)
  {
    var t := MatchTable(LongNumber, s);
    LongNumberTable(s);
    LongNumberTableShape(s, t);
    ScanIsFilter(s, t);
    LongNumberSurvivors(s, t, 0);
  }
}
