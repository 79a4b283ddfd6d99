/**
 * The three regular-expression tiers that `extractOtp` (javascript/Child.js)
 * tries after the keyword matcher, each taking the leftmost match in the
 * cleaned message:
 *   Consecutive: a 1..8-digit number, whitespace, then a 4..8-digit number,
 *                whose second number is the answer;
 *   Eight:       a standalone 8-digit number;
 *   Generic:     a standalone 4..8-digit number or a `ddd-ddd` pair, dropped
 *                when "mrp" or "at" tags it as a price, else returned with
 *                its hyphen removed.
 */
module Tiers {
  import opened Text
  import opened Patterns

  /** Where the text a tier returns lies in the cleaned message. */
  datatype Span = Span(start: nat, end: nat)

  datatype Tier = Consecutive | Eight | Generic

  // ---------------------------------------------------------------------------
  // Consecutive numbers

  /**
   * Literal reading of "boundary, `L1` digits (1..8), `M` whitespace
   * characters (at least one), `L2` digits (4..8), boundary" at `i`.
   */
  predicate ConsecutiveLiteral(s: string, i: nat, L1: nat, M: nat, L2: nat) {
    1 <= L1 <= 8 && 1 <= M && 4 <= L2 <= 8 && i + L1 + M + L2 <= |s|
    && Boundary(s, i)
    && (forall k | i <= k < i + L1 :: IsDigit(s[k]))
    && (forall k | i + L1 <= k < i + L1 + M :: IsSpace(s[k]))
    && (forall k | i + L1 + M <= k < i + L1 + M + L2 :: IsDigit(s[k]))
    && Boundary(s, i + L1 + M + L2)
  }

  /** The consecutive-numbers pattern tried at `i`; the span is its capture group. */
  function ConsecutiveAt(s: string, i: nat): (r: Option<Span>)
    requires i <= |s|
    ensures r.Some? ==> i < r.value.start < r.value.end <= |s| && IsOtpDigits(s[r.value.start..r.value.end])
  {
    var n := Run(Digits, s, i);
    if !Boundary(s, i) || !(1 <= n <= 8) then None
    else
      var m := Run(Spaces, s, i + n);
      var q := i + n + m;
      var n2 := Run(Digits, s, q);
      if 1 <= m && 4 <= n2 <= 8 && Boundary(s, q + n2) then Some(Span(q, q + n2)) else None
  }

  /** Whatever the run-based matcher captures is the second number of a literal match. */
  lemma ConsecutiveSound(s: string, i: nat)
    requires i <= |s| && ConsecutiveAt(s, i).Some?
    ensures var n := Run(Digits, s, i); var sp := ConsecutiveAt(s, i).value;
      i + n <= sp.start && ConsecutiveLiteral(s, i, n, sp.start - i - n, sp.end - sp.start)
  {
  }

  /** Every literal match is found by the run-based matcher, with the same capture. */
  lemma ConsecutiveComplete(s: string, i: nat, L1: nat, M: nat, L2: nat)
    requires ConsecutiveLiteral(s, i, L1, M, L2)
    ensures ConsecutiveAt(s, i) == Some(Span(i + L1 + M, i + L1 + M + L2))
  {
    var a := i + L1;
    var b := a + M;
    var e := b + L2;
    assert IsSpace(s[a]) && IsDigit(s[b]) && IsDigit(s[e - 1]);
    RunIsExact(Digits, s, i, L1);
    RunIsExact(Spaces, s, a, M);
    assert e == |s| || !IsDigit(s[e]) by { assert WordAt(s, e - 1); }
    RunIsExact(Digits, s, b, L2);
    ConsecutiveFromRuns(s, i, L1, M, L2);
  }

  /** The matcher's result once the three runs at `i` are known. */
  lemma ConsecutiveFromRuns(s: string, i: nat, n: nat, m: nat, n2: nat)
    requires i + n + m + n2 <= |s| && 1 <= n <= 8 && 1 <= m && 4 <= n2 <= 8
    requires Run(Digits, s, i) == n && Run(Spaces, s, i + n) == m && Run(Digits, s, i + n + m) == n2
    requires Boundary(s, i) && Boundary(s, i + n + m + n2)
    ensures ConsecutiveAt(s, i) == Some(Span(i + n + m, i + n + m + n2))
  {
  }

  // ---------------------------------------------------------------------------
  // Generic fallback

  /** Literal reading of "boundary, 3 digits, '-', 3 digits, boundary" at `i`. */
  predicate HyphenTriple(s: string, i: nat) {
    i + 7 <= |s| && Boundary(s, i)
    && IsDigit(s[i]) && IsDigit(s[i + 1]) && IsDigit(s[i + 2]) && s[i + 3] == '-'
    && IsDigit(s[i + 4]) && IsDigit(s[i + 5]) && IsDigit(s[i + 6])
    && Boundary(s, i + 7)
  }

  /** The fallback pattern tried at `i`: the 4..8-digit alternative first, then the hyphenated one. */
  function GenericAt(s: string, i: nat): (r: Option<Span>)
    requires i <= |s|
    ensures r.Some? ==> r.value.start == i < r.value.end <= |s|
  {
    match Standalone(s, i, 4, 8)
    case Some(e) => Some(Span(i, e))
    case None => if HyphenTriple(s, i) then Some(Span(i, i + 7)) else None
  }

  /**
   * The fallback matcher finds exactly the standalone 4..8-digit numbers and
   * the standalone `ddd-ddd` pairs, both directions.
   */
  lemma GenericAgrees(s: string, i: nat)
    requires i <= |s|
    ensures GenericAt(s, i).Some? ==>
      (4 <= GenericAt(s, i).value.end - i <= 8 && StandaloneDigits(s, i, GenericAt(s, i).value.end - i))
      || (GenericAt(s, i).value.end == i + 7 && HyphenTriple(s, i))
    ensures forall L | 4 <= L <= 8 && StandaloneDigits(s, i, L) :: GenericAt(s, i) == Some(Span(i, i + L))
    ensures HyphenTriple(s, i) ==> GenericAt(s, i) == Some(Span(i, i + 7))
  {
    StandaloneAgrees(s, i, 4, 8);
    if HyphenTriple(s, i) {
      assert Run(Digits, s, i) == 3 by {
        assert InClass(s[i + 2], Digits) && !InClass(s[i + 3], Digits);
        RunIsExact(Digits, s, i, 3);
      }
    }
  }

  /** The characters of `n` other than '-', as `replace(/-/g, "")` leaves them. */
  function RemoveHyphens(n: string): (r: string)
    ensures |r| <= |n|
    ensures forall k | 0 <= k < |r| :: r[k] != '-'
  {
    if n == [] then [] else (if n[0] == '-' then [] else [n[0]]) + RemoveHyphens(n[1..])
  }

  lemma {:induction false} RemoveHyphensAppend(a: string, b: string)
    ensures RemoveHyphens(a + b) == RemoveHyphens(a) + RemoveHyphens(b)
    decreases |a|
  {
    if a == [] {
      assert a + b == b;
    } else {
      assert (a + b)[1..] == a[1..] + b;
      RemoveHyphensAppend(a[1..], b);
    }
  }

  /** Removing hyphens leaves a string of digits unchanged. */
  lemma {:induction false} RemoveHyphensKeepsDigits(n: string)
    requires AllDigits(n)
    ensures RemoveHyphens(n) == n
    decreases |n|
  {
    if n != [] {
      RemoveHyphensKeepsDigits(n[1..]);
    }
  }

  /** Removing the hyphen of a `ddd-ddd` pair joins its halves into six digits. */
  lemma RemoveHyphensJoinsPair(n: string)
    requires |n| == 7 && n[3] == '-' && AllDigits(n[..3]) && AllDigits(n[4..])
    ensures RemoveHyphens(n) == n[..3] + n[4..]
    ensures IsOtpDigits(RemoveHyphens(n))
  {
    assert n == n[..3] + [n[3]] + n[4..];
    RemoveHyphensAppend(n[..3] + [n[3]], n[4..]);
    RemoveHyphensAppend(n[..3], [n[3]]);
    RemoveHyphensKeepsDigits(n[..3]);
    RemoveHyphensKeepsDigits(n[4..]);
  }

  // ---------------------------------------------------------------------------
  // The price guard

  /**
   * The UTF-16 code units of `c`: two for a character outside the Basic
   * Multilingual Plane. A JavaScript regular expression without the `u`
   * flag counts repetitions in code units.
   */
  function Utf16Width(c: char): nat {
    if c as int >= 0x1_0000 then 2 else 1
  }

  function Utf16Length(s: string): (n: nat)
    ensures |s| <= n <= 2 * |s|
  {
    if s == [] then 0 else Utf16Width(s[0]) + Utf16Length(s[1..])
  }

  /**
   * The gap `s[p..q]` holds no digit and is at most three code units wide,
   * and `n` follows it with a boundary after: the `\D{0,3}` gap and the
   * number of the price pattern.
   */
  predicate NumberAfterGap(s: string, p: nat, q: nat, n: string) {
    p <= q <= |s| && Utf16Length(s[p..q]) <= 3 && (forall k | p <= k < q :: !IsDigit(s[k]))
    && HasAt(s, q, n) && Boundary(s, q + |n|)
  }

  /** `\D{0,3}` followed by `n` and a boundary. A gap of at most three code units spans at most three characters. */
  predicate NumberFollows(s: string, p: nat, n: string) {
    exists q | p <= q <= p + 3 :: NumberAfterGap(s, p, q, n)
  }

  /** The price pattern matches at `j`: a boundary, "mrp" or "at" in any case, then the gap and `n`. */
  predicate PriceAt(s: string, j: nat, n: string) {
    Boundary(s, j)
    && ((HasAtIgnoreCase(s, j, "mrp") && NumberFollows(s, j + 3, n))
        || (HasAtIgnoreCase(s, j, "at") && NumberFollows(s, j + 2, n)))
  }

  /** The price pattern built around `n` matches somewhere in `s`. */
  predicate PriceTagged(s: string, n: string) {
    exists j | 0 <= j <= |s| :: PriceAt(s, j, n)
  }

  /** Inside the Basic Multilingual Plane every character is one code unit. */
  lemma {:induction false} Utf16LengthBmp(s: string)
    requires forall k | 0 <= k < |s| :: s[k] as int < 0x1_0000
    ensures Utf16Length(s) == |s|
    decreases |s|
  {
    if s != [] {
      Utf16LengthBmp(s[1..]);
    }
  }

  /** A space before the number is a gap the price pattern spans. */
  lemma SpaceGapAllowsPrice(x: string, n: string, y: string)
    requires Boundary(x + [' '] + n + y, |x| + 1 + |n|)
    ensures NumberFollows(x + [' '] + n + y, |x|, n)
  {
    var s := x + [' '] + n + y;
    assert s[|x|..|x| + 1] == [' '];
    assert s[|x| + 1..|x| + 1 + |n|] == n;
    assert NumberAfterGap(s, |x|, |x| + 1, n);
  }

  /**
   * A space, a character outside the Basic Multilingual Plane and a space
   * are four code units, one more than `\D{0,3}` spans: no number that
   * starts with a digit follows such a gap.
   */
  lemma WideGapBlocksPrice(x: string, e: char, y: string, n: string)
    requires e as int >= 0x1_0000 && n != [] && IsDigit(n[0])
    ensures !NumberFollows(x + [' ', e, ' '] + y, |x|, n)
  {
    var s := x + [' ', e, ' '] + y;
    forall q | |x| <= q <= |x| + 3
      ensures !NumberAfterGap(s, |x|, q, n)
    {
      if q < |x| + 3 {
        assert q < |s| && !IsDigit(s[q]);
      } else {
        var g := [' ', e, ' '];
        assert s[|x|..q] == g;
        assert g[1..][1..][1..] == [];
        assert Utf16Length(g[1..][1..]) == 1;
        assert Utf16Length(g) == 4;
      }
    }
  }

  // ---------------------------------------------------------------------------
  // Leftmost search

  /** The pattern of tier `t` tried at `i`. */
  function TierAt(t: Tier, s: string, i: nat): (r: Option<Span>)
    requires i <= |s|
    ensures r.Some? ==> i <= r.value.start < r.value.end <= |s|
    ensures r.Some? && t != Generic ==> IsOtpDigits(s[r.value.start..r.value.end])
    ensures r.Some? && t == Eight ==> r.value.end - r.value.start == 8
  {
    match t
    case Consecutive => ConsecutiveAt(s, i)
    case Eight =>
      (match Standalone(s, i, 8, 8)
       case Some(e) => Some(Span(i, e))
       case None => None)
    case Generic => GenericAt(s, i)
  }

  /** A match and the start position it was found at. */
  datatype Located = Located(at: nat, span: Span)

  /** The pattern of tier `t` tried at every start position of `s`. */
  function TierTable(t: Tier, s: string): (tab: seq<Option<Span>>)
    ensures |tab| == |s| + 1
    ensures forall k | 0 <= k <= |s| :: tab[k] == TierAt(t, s, k)
  {
    seq(|s| + 1, k requires 0 <= k <= |s| => TierAt(t, s, k))
  }

  /** The first entry of `tab` from `i` on that holds a match, with its position. */
  function FirstSome(tab: seq<Option<Span>>, i: nat): (r: Option<Located>)
    requires i <= |tab|
    ensures r.Some? ==> i <= r.value.at < |tab| && tab[r.value.at] == Some(r.value.span)
    ensures r.Some? ==> forall k | i <= k < r.value.at :: tab[k].None?
    ensures r.None? <==> forall k | i <= k < |tab| :: tab[k].None?
    decreases |tab| - i
  {
    if i == |tab| then None
    else match tab[i]
      case Some(sp) => Some(Located(i, sp))
      case None => FirstSome(tab, i + 1)
  }

  /**
   * `s.match(pattern)` for tier `t`: the match at the first start position
   * where the pattern matches, or nothing when it matches nowhere.
   */
  function FirstMatch(t: Tier, s: string): (r: Option<Located>)
    ensures r.Some? ==> r.value.at <= |s| && TierAt(t, s, r.value.at) == Some(r.value.span)
    ensures r.Some? ==> forall k | 0 <= k < r.value.at :: TierAt(t, s, k).None?
    ensures r.None? <==> forall k | 0 <= k <= |s| :: TierAt(t, s, k).None?
  {
    var tab := TierTable(t, s);
    var r := FirstSome(tab, 0);
    assert r.None? <==> forall k | 0 <= k <= |s| :: TierAt(t, s, k).None? by {
      if r.None? {
        forall k | 0 <= k <= |s| ensures TierAt(t, s, k).None? { assert tab[k].None?; }
      } else {
        assert tab[r.value.at].Some?;
      }
    }
    r
  }

  /** The text of a located match. */
  function MatchText(s: string, l: Located): string
    requires l.span.start <= l.span.end <= |s|
  {
    s[l.span.start..l.span.end]
  }

  /** The digits of a fallback match: its text with the hyphen, if any, removed. */
  function FallbackDigits(s: string, l: Located): (r: string)
    requires l.at <= |s| && GenericAt(s, l.at) == Some(l.span)
    ensures IsOtpDigits(r)
    ensures r == RemoveHyphens(MatchText(s, l))
  {
    var n := MatchText(s, l);
    GenericAgrees(s, l.at);
    if HyphenTriple(s, l.at) && l.span.end == l.at + 7 then
      RemoveHyphensJoinsPair(n);
      RemoveHyphens(n)
    else
      RemoveHyphensKeepsDigits(n);
      RemoveHyphens(n)
  }

  /**
   * The answer of tier `t` on the cleaned message `s`. The consecutive and
   * eight-digit tiers return the leftmost match's text; the fallback returns
   * it without its hyphen unless the price pattern built from the matched
   * text matches, in which case the tier fails without trying later matches.
   * Every answer is 4 to 8 digits.
   */
  function TierAnswer(t: Tier, s: string): (r: Option<string>)
    ensures r.Some? ==> IsOtpDigits(r.value)
    ensures t == Eight && r.Some? ==> |r.value| == 8
    ensures r.Some? ==> FirstMatch(t, s).Some?
    ensures t != Generic ==> (r.Some? <==> FirstMatch(t, s).Some?)
    ensures t == Generic && FirstMatch(t, s).Some? ==>
      (r.Some? <==> !PriceTagged(s, MatchText(s, FirstMatch(t, s).value)))
    ensures r.Some? ==>
      r.value == (if t == Generic then RemoveHyphens(MatchText(s, FirstMatch(t, s).value)) else MatchText(s, FirstMatch(t, s).value))
  {
    match FirstMatch(t, s)
    case None => None
    case Some(l) =>
      var n := MatchText(s, l);
      if t != Generic then Some(n)
      else if PriceTagged(s, n) then None
      else Some(FallbackDigits(s, l))
  }
}
