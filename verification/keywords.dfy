/**
 * Tokenisation of the cleaned message and the keyword matcher
 * `extractUsingKeywords` (javascript/Child.js).
 */
module Keywords {
  import opened Text

  /** Trigger words. The multi-word entries can never equal a token, since tokens hold no whitespace. */
  const OtpKeywords: set<string> := {
    "otp", "one time password", "code", "password", "pin", "verification", "attemp",
    "passcode", "secret", "secure code", "authentication code",
    "use", "enter", "is", "one-time", "verification code", ":", "refuse", "valid", "delivery code"
  }

  /**
   * Tokens that never start a lookahead. The source's array literal has a
   * hole here, which adds only `undefined` to the set; no token is
   * `undefined`, so the hole is left out.
   */
  const Eliminators: set<string> := {
    "do", "not", "share", "it", "with", "anyone",
    "for", "minutes", "keep", "safe",
    "complete", "authentication", "verify", "account",
    "access", "transaction", "txn", "ending", "a/c"
  }

  /** Further tokens that start a lookahead like a trigger. */
  const Separators: set<string> := {"is", ":", "as", "enter", "your", "for", "number"}

  /** The entries of `OtpKeywords` that contain a space. */
  const MultiWordKeywords: set<string> :=
    {"one time password", "secure code", "authentication code", "verification code", "delivery code"}

  function LowerAll(ws: seq<string>): (r: seq<string>)
    ensures |r| == |ws|
    ensures forall k | 0 <= k < |ws| :: r[k] == ToLower(ws[k])
  {
    seq(|ws|, k requires 0 <= k < |ws| => ToLower(ws[k]))
  }

  lemma {:induction false} ConcatLowerAll(ws: seq<string>)
    ensures Concat(LowerAll(ws)) == ToLower(Concat(ws))
    decreases |ws|
  {
    if ws != [] {
      ConcatLowerAll(ws[1..]);
      assert LowerAll(ws)[1..] == LowerAll(ws[1..]);
      assert ToLower(ws[0] + Concat(ws[1..])) == ToLower(ws[0]) + ToLower(Concat(ws[1..]));
    }
  }

  /**
   * The tokens of the cleaned message: its whitespace-separated words,
   * lower-cased. Together they hold exactly the message's non-whitespace
   * characters, in order; none holds whitespace; and for a trimmed non-empty
   * message none is empty.
   */
  function Tokenize(c: string): (tokens: seq<string>)
    ensures |tokens| >= 1
    ensures forall k | 0 <= k < |tokens| :: NoSpace(tokens[k])
    ensures Concat(tokens) == ToLower(Squeeze(c))
    ensures Trimmed(c) && c != [] ==> forall k | 0 <= k < |tokens| :: tokens[k] != []
  {
    var words := SplitWords(c);
    ConcatLowerAll(words);
    forall k | 0 <= k < |words|
      ensures NoSpace(ToLower(words[k]))
    {
      var w := words[k];
      forall m | 0 <= m < |w|
        ensures !IsSpace(ToLower(w)[m])
      {
        assert !IsSpace(w[m]);
      }
    }
    LowerAll(words)
  }

  /**
   * The lower-cased message is its tokens written back with a non-empty
   * whitespace run between each pair: tokenising drops the whitespace and
   * nothing else.
   */
  lemma TokenizeInterleaves(c: string)
    ensures exists seps | |seps| == |Tokenize(c)| - 1 && WhitespaceSeparators(seps) :: ToLower(c) == Interleave(Tokenize(c), seps)
  {
    var seps := SplitWordsSeparators(c);
    LowerInterleave(SplitWords(c), seps);
    assert LowerAll(seps) == seps by {
      forall k | 0 <= k < |seps|
        ensures ToLower(seps[k]) == seps[k]
      {
        LowerKeepsSpaces(seps[k]);
      }
    }
    assert ToLower(c) == Interleave(Tokenize(c), seps);
  }

  /** Whitespace has no upper case. */
  lemma LowerKeepsSpaces(g: string)
    requires AllSpace(g)
    ensures ToLower(g) == g
  {
    forall m | 0 <= m < |g|
      ensures ToLower(g)[m] == g[m]
    {
      assert IsSpace(g[m]);
    }
  }

  /** Lower-casing an interleaving lower-cases its pieces and its separators. */
  lemma {:induction false} LowerInterleave(r: seq<string>, seps: seq<string>)
    requires |r| >= 1 && |seps| == |r| - 1
    ensures ToLower(Interleave(r, seps)) == Interleave(LowerAll(r), LowerAll(seps))
    decreases |r|
  {
    if |r| > 1 {
      LowerInterleave(r[1..], seps[1..]);
      assert LowerAll(r)[1..] == LowerAll(r[1..]);
      assert LowerAll(seps)[1..] == LowerAll(seps[1..]);
      LowerThree(r[0], seps[0], Interleave(r[1..], seps[1..]));
    }
  }

  lemma LowerThree(a: string, b: string, c: string)
    ensures ToLower(a + b + c) == ToLower(a) + ToLower(b) + ToLower(c)
  {
  }

  /**
   * The multi-word keywords are exactly the entries of `OtpKeywords` that
   * contain whitespace. No token can equal one of them, so for a token only
   * the single-word keywords and the separators can make it an anchor.
   */
  lemma MultiWordKeywordsNeverMatch(tok: string)
    requires NoSpace(tok)
    ensures MultiWordKeywords <= OtpKeywords
    ensures forall w | w in OtpKeywords && !NoSpace(w) :: w in MultiWordKeywords
    ensures tok !in MultiWordKeywords
    ensures IsAnchor(tok) == (tok !in Eliminators && (tok in OtpKeywords - MultiWordKeywords || tok in Separators))
  {
    SingleWordKeywordsHaveNoSpace();
    assert !NoSpace("one time password") by { assert "one time password"[3] == ' '; }
    assert !NoSpace("secure code") by { assert "secure code"[6] == ' '; }
    assert !NoSpace("authentication code") by { assert "authentication code"[14] == ' '; }
    assert !NoSpace("verification code") by { assert "verification code"[12] == ' '; }
    assert !NoSpace("delivery code") by { assert "delivery code"[8] == ' '; }
  }

  /** Every entry of `OtpKeywords` outside `MultiWordKeywords` is a single word. */
  lemma SingleWordKeywordsHaveNoSpace()
    ensures forall w | w in OtpKeywords - MultiWordKeywords :: NoSpace(w)
  {
    ShortKeywordsHaveNoSpace();
    LongKeywordsHaveNoSpace();
  }

  lemma ShortKeywordsHaveNoSpace()
    ensures NoSpace("otp") && NoSpace("code") && NoSpace("pin") && NoSpace("use") && NoSpace("enter")
    ensures NoSpace("is") && NoSpace(":") && NoSpace("valid")
  {
  }

  lemma LongKeywordsHaveNoSpace()
    ensures NoSpace("password") && NoSpace("verification") && NoSpace("attemp") && NoSpace("passcode")
    ensures NoSpace("secret") && NoSpace("one-time") && NoSpace("refuse")
  {
  }

  /** A token that opens a lookahead: a trigger or a separator, and not an eliminator. */
  predicate IsAnchor(tok: string) {
    tok !in Eliminators && (tok in OtpKeywords || tok in Separators)
  }

  /** Position `p`, one to three tokens after anchor `i`, holds the window's first 4..8-digit token. */
  predicate FirstInWindow(tokens: seq<string>, i: nat, p: nat) {
    i < p <= i + 3 && p < |tokens| && IsOtpDigits(tokens[p])
    && forall q | i < q < p :: !IsOtpDigits(tokens[q])
  }

  /** Some token among the next three after `i` (within the sequence) is 4..8 digits. */
  predicate WindowHasOtp(tokens: seq<string>, i: nat) {
    exists p | i < p <= i + 3 && p < |tokens| :: IsOtpDigits(tokens[p])
  }

  /** Token `i` is an anchor whose window holds a candidate. */
  predicate Fires(tokens: seq<string>, i: nat)
    requires i < |tokens|
  {
    IsAnchor(tokens[i]) && WindowHasOtp(tokens, i)
  }

  /** `v` is what the lookahead after anchor `i` returns: the first 4..8-digit token of its window. */
  predicate AnswerOf(tokens: seq<string>, i: nat, v: string) {
    exists p | i < p < |tokens| :: FirstInWindow(tokens, i, p) && v == tokens[p]
  }

  /** The inner loop from position `p`: positions `p` .. `i`+3, stopping at the end of the sequence. */
  function LookaheadFrom(tokens: seq<string>, i: nat, p: nat): (r: Option<string>)
    requires i < p
    ensures r.None? <==> forall q | p <= q <= i + 3 && q < |tokens| :: !IsOtpDigits(tokens[q])
    ensures r.Some? ==> exists q | p <= q <= i + 3 && q < |tokens| ::
      r.value == tokens[q] && IsOtpDigits(tokens[q]) && forall q' | p <= q' < q :: !IsOtpDigits(tokens[q'])
    decreases i + 4 - p
  {
    if p > i + 3 || p >= |tokens| then None
    else if IsOtpDigits(tokens[p]) then Some(tokens[p])
    else LookaheadFrom(tokens, i, p + 1)
  }

  /**
   * The lookahead after token `i`: the first of the next three tokens (cut
   * short by the end of the sequence) that is 4 to 8 digits, if any.
   */
  function Lookahead(tokens: seq<string>, i: nat): (r: Option<string>)
    ensures r.None? <==> !WindowHasOtp(tokens, i)
    ensures r.Some? ==> AnswerOf(tokens, i, r.value)
  {
    var r := LookaheadFrom(tokens, i, i + 1);
    if r.None? then r else LookaheadAnswer(tokens, i, r.value); r
  }

  lemma LookaheadAnswer(tokens: seq<string>, i: nat, v: string)
    requires LookaheadFrom(tokens, i, i + 1) == Some(v)
    ensures AnswerOf(tokens, i, v)
  {
    var p :| i + 1 <= p <= i + 3 && p < |tokens| && v == tokens[p] && IsOtpDigits(tokens[p])
      && forall q | i + 1 <= q < p :: !IsOtpDigits(tokens[q]);
    assert FirstInWindow(tokens, i, p);
  }

  /** Whether each token opens a lookahead. */
  function AnchorFlags(tokens: seq<string>): (flags: seq<bool>)
    ensures |flags| == |tokens|
  {
    seq(|tokens|, k requires 0 <= k < |tokens| => IsAnchor(tokens[k]))
  }

  /** Token `i` is flagged as an anchor and its window holds a candidate. */
  predicate FiresBy(tokens: seq<string>, flags: seq<bool>, i: nat)
    requires |flags| == |tokens| && i < |tokens|
  {
    flags[i] && WindowHasOtp(tokens, i)
  }

  /**
   * The outer loop from token `i`, with the anchor test of each token read
   * from `flags`. The result is the lookahead answer of the earliest anchor
   * whose window holds a candidate, or nothing when no anchor has one.
   */
  function AnchorScan(tokens: seq<string>, flags: seq<bool>, i: nat): (r: Option<string>)
    requires |flags| == |tokens| && i <= |tokens|
    ensures r.None? <==> forall k | i <= k < |tokens| :: !FiresBy(tokens, flags, k)
    ensures r.Some? ==> exists k | i <= k < |tokens| ::
      FiresBy(tokens, flags, k) && (forall k' | i <= k' < k :: !FiresBy(tokens, flags, k')) && AnswerOf(tokens, k, r.value)
    decreases |tokens| - i
  {
    if i == |tokens| then None
    else if flags[i] && Lookahead(tokens, i).Some? then
      assert FiresBy(tokens, flags, i);
      Lookahead(tokens, i)
    else
      assert !FiresBy(tokens, flags, i);
      var r := AnchorScan(tokens, flags, i + 1);
      if r.None? then r
      else
        var k :| i + 1 <= k < |tokens| && FiresBy(tokens, flags, k)
          && (forall k' | i + 1 <= k' < k :: !FiresBy(tokens, flags, k')) && AnswerOf(tokens, k, r.value);
        assert forall k' | i <= k' < k :: !FiresBy(tokens, flags, k');
        r
  }

  /**
   * `extractUsingKeywords`: the lookahead answer of the earliest token that
   * fires, or nothing when none does. Eliminators are checked before
   * anything else, so an eliminator never opens a lookahead even when it is
   * also a separator.
   */
  function ExtractUsingKeywords(tokens: seq<string>): (r: Option<string>)
    ensures r.Some? ==> IsOtpDigits(r.value)
    ensures r.None? <==> forall k | 0 <= k < |tokens| :: !Fires(tokens, k)
    ensures r.Some? ==> exists k | 0 <= k < |tokens| ::
      Fires(tokens, k) && (forall k' | 0 <= k' < k :: !Fires(tokens, k')) && AnswerOf(tokens, k, r.value)
  {
    var flags := AnchorFlags(tokens);
    assert forall k | 0 <= k < |tokens| :: FiresBy(tokens, flags, k) == Fires(tokens, k);
    AnchorScan(tokens, flags, 0)
  }
}
