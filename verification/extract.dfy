/**
 * `extractOtp` (javascript/Child.js): the input guard, the promotional
 * pre-filter, the buy/free suppression, and then the four extraction stages
 * on the cleaned message, the first one that produces a value winning.
 */
module Extract {
  import opened Text
  import opened Clean
  import opened Keywords
  import opened Tiers

  /** The argument of `extractOtp`: a string, or any other value (including `undefined` and `null`). */
  datatype Message = NotText | Str(text: string)

  /** The three kinds of result: no OTP ("nan"), a suppressed offer (""), or the digits found. */
  datatype Outcome = NoOtp | Suppressed | Otp(digits: string)

  /** The string `extractOtp` returns for an outcome. */
  function Render(o: Outcome): string {
    match o
    case NoOtp => "nan"
    case Suppressed => ""
    case Otp(d) => d
  }

  /** An outcome the extractor can produce: any digits it returns are 4 to 8 of them. */
  predicate WellFormed(o: Outcome) { o.Otp? ==> IsOtpDigits(o.digits) }

  /**
   * The three kinds of result stay apart once rendered: "nan" and "" are not
   * digit strings, so the returned string determines the outcome.
   */
  lemma RenderInjective(a: Outcome, b: Outcome)
    requires WellFormed(a) && WellFormed(b)
    ensures Render(a) == Render(b) <==> a == b
  {
    assert !IsOtpDigits("nan") by { assert !IsDigit("nan"[0]); }
  }

  /** The lower-cased message starts with "caution" or mentions a promotion; the message is not trimmed first. */
  predicate IsPromotional(m: string) {
    var lower := ToLower(m);
    HasAt(lower, 0, "caution")
    || Contains(lower, "pool") || Contains(lower, "entry fee")
    || Contains(lower, "click here") || Contains(lower, "shopping experience")
  }

  /** `/\bw\b/i.test(m)` for a lower-case word `w` that starts and ends with a letter. */
  predicate HasWholeWord(m: string, w: string) {
    exists i | 0 <= i <= |m| - |w| :: Boundary(m, i) && HasAtIgnoreCase(m, i, w) && Boundary(m, i + |w|)
  }

  /** The offer test: "buy" and "free" both occur as whole words, in any case. */
  predicate IsOffer(m: string) { HasWholeWord(m, "buy") && HasWholeWord(m, "free") }

  /** One extraction stage, run on the cleaned message. */
  datatype Stage = KeywordStage | TierStage(tier: Tier)

  /** The stages in the order they are tried. */
  const Stages: seq<Stage> := [KeywordStage, TierStage(Consecutive), TierStage(Eight), TierStage(Generic)]

  /** What one stage finds in the cleaned message `c`; every find is 4 to 8 digits. */
  function RunStage(st: Stage, c: string): (r: Option<string>)
    ensures r.Some? ==> IsOtpDigits(r.value)
  {
    match st
    case KeywordStage => ExtractUsingKeywords(Tokenize(c))
    case TierStage(t) => TierAnswer(t, c)
  }

  /** What each stage, in order, finds in the cleaned message `c`. */
  function StageResults(c: string): (rs: seq<Option<string>>)
    ensures |rs| == |Stages|
    ensures forall k | 0 <= k < |rs| :: rs[k].Some? ==> IsOtpDigits(rs[k].value)
  {
    seq(|Stages|, k requires 0 <= k < |Stages| => RunStage(Stages[k], c))
  }

  /** Entry `k` is the first of `rs` to hold a value. */
  predicate FirstToSucceed(rs: seq<Option<string>>, k: nat) {
    k < |rs| && rs[k].Some? && forall k' | 0 <= k' < k :: rs[k'].None?
  }

  /**
   * The stage results taken in order, the first value winning: the result
   * is that value, and nothing after it is consulted.
   */
  function FirstSuccess(rs: seq<Option<string>>): (r: Option<string>)
    ensures r.None? <==> forall k | 0 <= k < |rs| :: rs[k].None?
    ensures r.Some? ==> exists k | 0 <= k < |rs| :: FirstToSucceed(rs, k) && rs[k] == r
    decreases |rs|
  {
    if rs == [] then None
    else match rs[0]
      case Some(v) =>
        assert FirstToSucceed(rs, 0);
        Some(v)
      case None =>
        var r := FirstSuccess(rs[1..]);
        if r.Some? then
          var k :| 0 <= k < |rs| - 1 && FirstToSucceed(rs[1..], k) && rs[1..][k] == r;
          assert FirstToSucceed(rs, k + 1);
          r
        else r
  }

  /** The message passes the input guard: it is a non-empty string. */
  predicate IsNonEmptyText(m: Message) { m.Str? && m.text != [] }

  /**
   * `extractOtp`. A missing, non-string or empty message and a promotional
   * one give no OTP; otherwise an offer is suppressed; otherwise the first
   * stage to find something on the cleaned message supplies the digits, and
   * if none does there is no OTP.
   */
  function ExtractOtp(m: Message): (r: Outcome)
    ensures WellFormed(r)
    ensures !IsNonEmptyText(m) ==> r == NoOtp
    ensures IsNonEmptyText(m) && IsPromotional(m.text) ==> r == NoOtp
    ensures r == Suppressed <==> IsNonEmptyText(m) && !IsPromotional(m.text) && IsOffer(m.text)
  {
    if !IsNonEmptyText(m) then NoOtp
    else if IsPromotional(m.text) then NoOtp
    else if IsOffer(m.text) then Suppressed
    else
      var rs := StageResults(CleanMessage(m.text));
      match FirstSuccess(rs)
      case Some(v) => Otp(v)
      case None => NoOtp
  }

  /** Any digits returned were found by the first stage that found anything in the cleaned message. */
  lemma OtpComesFromFirstStage(m: Message)
    ensures ExtractOtp(m).Otp? ==> IsNonEmptyText(m) && exists k | 0 <= k < |Stages| ::
      FirstToSucceed(StageResults(CleanMessage(m.text)), k) && StageResults(CleanMessage(m.text))[k] == Some(ExtractOtp(m).digits)
  {
  }

  /** A message that passes the filters gives no OTP exactly when no stage finds anything in the cleaned message. */
  lemma NoOtpIffNoStageFinds(m: Message)
    requires IsNonEmptyText(m) && !IsPromotional(m.text) && !IsOffer(m.text)
    ensures ExtractOtp(m) == NoOtp <==> forall k | 0 <= k < |Stages| :: StageResults(CleanMessage(m.text))[k].None?
  {
  }

  /** What `extractOtp` returns: "nan", "" or 4 to 8 digits. */
  function ExtractOtpString(m: Message): (r: string)
    ensures r == "nan" || r == "" || IsOtpDigits(r)
    ensures r == "" <==> ExtractOtp(m) == Suppressed
  {
    var o := ExtractOtp(m);
    RenderInjective(o, Suppressed);
    Render(o)
  }

  /** The first entry to hold a value is what `FirstSuccess` returns. */
  lemma {:induction false} FirstSuccessIsFirst(rs: seq<Option<string>>, k: nat)
    requires FirstToSucceed(rs, k)
    ensures FirstSuccess(rs) == rs[k]
    decreases |rs|
  {
    if k > 0 {
      assert rs[0].None?;
      assert FirstToSucceed(rs[1..], k - 1);
      FirstSuccessIsFirst(rs[1..], k - 1);
    }
  }

  /**
   * The tokens the keyword stage sees, joined, are characters of the message
   * in their original order, lower-cased, with whitespace and redacted text
   * left out.
   */
  lemma TokensKeepOrder(m: string)
    ensures IsSubseq(Concat(Tokenize(CleanMessage(m))), ToLower(Squeeze(m)))
  {
    CleanKeepsOrder(m);
  }

  /**
   * Stage precedence: when stage `k` is the first to find something in the
   * cleaned message, its find is the result, whatever later stages find.
   */
  lemma StagePrecedence(m: Message, k: nat)
    ensures IsNonEmptyText(m) && !IsPromotional(m.text) && !IsOffer(m.text)
      && FirstToSucceed(StageResults(CleanMessage(m.text)), k)
      ==> ExtractOtp(m) == Otp(StageResults(CleanMessage(m.text))[k].value)
  {
    if IsNonEmptyText(m) && FirstToSucceed(StageResults(CleanMessage(m.text)), k) {
      FirstSuccessIsFirst(StageResults(CleanMessage(m.text)), k);
    }
  }
}
