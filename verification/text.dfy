/**
 * Character classes and string helpers shared by the OTP extractor and the
 * CSV utilities. JavaScript strings are modelled as `seq<char>`; `\d`, `\w`,
 * `\s`, `toLowerCase` and `trim` are modelled on ASCII only.
 */
module Text {

  datatype Option<+T> = None | Some(value: T)

  predicate IsDigit(c: char) { '0' <= c <= '9' }

  predicate IsUpper(c: char) { 'A' <= c <= 'Z' }

  /** A regular-expression word character `\w`: [A-Za-z0-9_]. */
  predicate IsWordChar(c: char) { IsDigit(c) || 'a' <= c <= 'z' || IsUpper(c) || c == '_' }

  /** `\s`, which is also what `trim` strips: space, TAB, LF, VT, FF and CR. */
  predicate IsSpace(c: char) { c == ' ' || '\t' <= c <= '\r' }

  predicate AllDigits(s: string) { forall k | 0 <= k < |s| :: IsDigit(s[k]) }

  predicate AllSpace(s: string) { forall k | 0 <= k < |s| :: IsSpace(s[k]) }

  predicate NoSpace(s: string) { forall k | 0 <= k < |s| :: !IsSpace(s[k]) }

  /** The shape of every OTP the extractor returns: 4 to 8 ASCII digits. */
  predicate IsOtpDigits(s: string) { 4 <= |s| <= 8 && AllDigits(s) }

  /** `toLowerCase` on one character (ASCII letters only). */
  function Lower(c: char): (r: char)
    ensures !IsUpper(r)
    ensures IsUpper(c) || r == c
    ensures IsDigit(r) <==> IsDigit(c)
  {
    if IsUpper(c) then (c as int + 32) as char else c
  }

  /** `toLowerCase` on a string. */
  function ToLower(s: string): (r: string)
    ensures |r| == |s|
    ensures forall k | 0 <= k < |s| :: r[k] == Lower(s[k])
  {
    seq(|s|, k requires 0 <= k < |s| => Lower(s[k]))
  }

  /** Position `p` holds a word character; positions outside the string do not. */
  predicate WordAt(s: string, p: int) { 0 <= p < |s| && IsWordChar(s[p]) }

  /** The assertion `\b` at position `p`, i.e. between `s[p-1]` and `s[p]`. */
  predicate Boundary(s: string, p: int) { WordAt(s, p - 1) != WordAt(s, p) }

  /** `w` occurs in `s` at offset `i`. */
  predicate HasAt(s: string, i: int, w: string) { 0 <= i && i + |w| <= |s| && s[i..i + |w|] == w }

  /** `w` (given in lower case) occurs at offset `i` when case is ignored, as with the `i` flag. */
  predicate HasAtIgnoreCase(s: string, i: int, w: string) {
    0 <= i && i + |w| <= |s| && ToLower(s[i..i + |w|]) == w
  }

  /** `s.includes(w)`. */
  predicate Contains(s: string, w: string) { exists i | 0 <= i <= |s| - |w| :: HasAt(s, i, w) }

  datatype CharClass = Digits | Spaces | NonSpaces | Stars

  predicate InClass(c: char, cls: CharClass) {
    match cls
    case Digits => IsDigit(c)
    case Spaces => IsSpace(c)
    case NonSpaces => !IsSpace(c)
    case Stars => c == '*'
  }

  /**
   * Length of the maximal run of `cls` characters starting at `i`: what a
   * greedy `\d+`, `\s*` or `\*+` consumes when nothing after it forces a
   * shorter match.
   */
  function Run(cls: CharClass, s: string, i: nat): (n: nat)
    requires i <= |s|
    ensures i + n <= |s|
    ensures forall k | i <= k < i + n :: InClass(s[k], cls)
    ensures i + n == |s| || !InClass(s[i + n], cls)
    decreases |s| - i
  {
    if i < |s| && InClass(s[i], cls) then 1 + Run(cls, s, i + 1) else 0
  }

  /** A run of exactly `L` class characters that the next character ends is what `Run` measures. */
  lemma {:induction false} RunIsExact(cls: CharClass, s: string, i: nat, L: nat)
    requires i + L <= |s|
    requires forall k | i <= k < i + L :: InClass(s[k], cls)
    requires i + L == |s| || !InClass(s[i + L], cls)
    ensures Run(cls, s, i) == L
    decreases L
  {
    if L > 0 {
      RunIsExact(cls, s, i + 1, L - 1);
    }
  }

  /** Number of whitespace characters immediately before position `j`. */
  function SpacesBefore(s: string, j: nat): (n: nat)
    requires j <= |s|
    ensures n <= j
    ensures forall k | j - n <= k < j :: IsSpace(s[k])
    ensures n == j || !IsSpace(s[j - n - 1])
  {
    if j > 0 && IsSpace(s[j - 1]) then 1 + SpacesBefore(s, j - 1) else 0
  }

  /** No whitespace at either end. */
  predicate Trimmed(s: string) { |s| == 0 || (!IsSpace(s[0]) && !IsSpace(s[|s| - 1])) }

  /** `String.prototype.trim`: whitespace removed from both ends. */
  function Trim(s: string): (r: string)
    ensures Trimmed(r) && |r| <= |s|
    ensures Trimmed(s) ==> r == s
    ensures r == [] <==> AllSpace(s)
  {
    var a := Run(Spaces, s, 0);
    if a == |s| then
      assert s[..a] == s;
      []
    else
      var b := SpacesBefore(s, |s|);
      assert b < |s| - a;
      assert !IsSpace(s[a]);
      s[a..|s| - b]
  }

  /** What `Trim` keeps is an infix of `s` with only whitespace around it. */
  lemma TrimIsInfix(s: string)
    ensures var r := Trim(s);
      exists a | 0 <= a <= |s| - |r| :: r == s[a..a + |r|] && AllSpace(s[..a]) && AllSpace(s[a + |r|..])
  {
    var a := Run(Spaces, s, 0);
    if a == |s| {
      assert s[..a] == s;
      assert AllSpace(s[..0]) && AllSpace(s[0..]);
    } else {
      var b := SpacesBefore(s, |s|);
      var r := Trim(s);
      assert r == s[a..|s| - b];
      assert a + |r| == |s| - b;
      assert AllSpace(s[..a]);
      assert AllSpace(s[a + |r|..]);
    }
  }

  /** `trim` removes only whitespace, so the non-whitespace characters are unchanged. */
  lemma TrimSqueeze(s: string)
    ensures Squeeze(Trim(s)) == Squeeze(s)
  {
    var a := Run(Spaces, s, 0);
    if a == |s| {
      assert AllSpace(s);
      SqueezeAllSpace(s);
    } else {
      var b := SpacesBefore(s, |s|);
      var x, r, y := s[..a], s[a..|s| - b], s[|s| - b..];
      assert Trim(s) == r;
      assert AllSpace(x);
      assert AllSpace(y);
      assert s == x + r + y;
      SqueezeAround(x, r, y);
    }
  }

  lemma SqueezeAround(x: string, r: string, y: string)
    requires AllSpace(x) && AllSpace(y)
    ensures Squeeze(x + r + y) == Squeeze(r)
  {
    SqueezeAppend(x + r, y);
    SqueezeAppend(x, r);
    SqueezeAllSpace(x);
    SqueezeAllSpace(y);
    assert [] + Squeeze(r) + [] == Squeeze(r);
  }

  /** The non-whitespace characters of `s`, in order. */
  function Squeeze(s: string): string
  {
    if s == [] then [] else (if IsSpace(s[0]) then [] else [s[0]]) + Squeeze(s[1..])
  }

  lemma {:induction false} SqueezeAppend(a: string, b: string)
    ensures Squeeze(a + b) == Squeeze(a) + Squeeze(b)
    decreases |a|
  {
    if a != [] {
      var h := if IsSpace(a[0]) then [] else [a[0]];
      assert (a + b)[0] == a[0];
      assert (a + b)[1..] == a[1..] + b;
      SqueezeAppend(a[1..], b);
      assert Squeeze(a + b) == h + Squeeze(a[1..] + b);
      assert Squeeze(a) == h + Squeeze(a[1..]);
    } else {
      assert a + b == b;
    }
  }

  lemma {:induction false} SqueezeAllSpace(s: string)
    requires AllSpace(s)
    ensures Squeeze(s) == []
    decreases |s|
  {
    if s != [] {
      SqueezeAllSpace(s[1..]);
    }
  }

  lemma {:induction false} SqueezeNoSpace(s: string)
    requires NoSpace(s)
    ensures Squeeze(s) == s
    decreases |s|
  {
    if s != [] {
      SqueezeNoSpace(s[1..]);
    }
  }

  function Concat(xs: seq<string>): string
  {
    if xs == [] then [] else xs[0] + Concat(xs[1..])
  }

  /**
   * `s.split(/\s+/)`: the pieces between maximal whitespace runs, keeping an
   * empty first or last piece when `s` starts or ends with whitespace
   * (`""` splits to `[""]`). Nothing but whitespace is dropped, and a trimmed
   * non-empty string splits into non-empty words.
   */
  function SplitWords(s: string): (r: seq<string>)
    ensures |r| >= 1
    ensures forall k | 0 <= k < |r| :: NoSpace(r[k])
    ensures Concat(r) == Squeeze(s)
    ensures Trimmed(s) && s != [] ==> forall k | 0 <= k < |r| :: r[k] != []
    ensures forall k | 0 < k < |r| - 1 :: r[k] != []
  {
    PiecesSqueeze(s);
    PiecesInside(s);
    Pieces(s)
  }

  /** The recursion behind `SplitWords`: cut off the leading non-space run, then skip the whitespace run after it. */
  function Pieces(s: string): seq<string>
    decreases |s|
  {
    var k := Run(NonSpaces, s, 0);
    if k == |s| then [s] else [s[..k]] + Pieces(s[k + Run(Spaces, s, k)..])
  }

  lemma {:induction false} PiecesSqueeze(s: string)
    ensures |Pieces(s)| >= 1
    ensures forall k | 0 <= k < |Pieces(s)| :: NoSpace(Pieces(s)[k])
    ensures Concat(Pieces(s)) == Squeeze(s)
    ensures Trimmed(s) && s != [] ==> forall k | 0 <= k < |Pieces(s)| :: Pieces(s)[k] != []
    decreases |s|
  {
    var k := Run(NonSpaces, s, 0);
    if k == |s| {
      SqueezeNoSpace(s);
      assert Pieces(s) == [s];
    } else {
      var e := k + Run(Spaces, s, k);
      var w, rest := s[..k], Pieces(s[e..]);
      assert NoSpace(w) by {
        forall m | 0 <= m < k
          ensures !IsSpace(w[m])
        {
          assert w[m] == s[m];
        }
      }
      SqueezeSplit(s, k, e);
      TrimmedRest(s, k, e);
      PiecesSqueeze(s[e..]);
      PiecesCons(w, rest);
      PiecesUnfold(s, k, e, s[e..]);
    }
  }

  /** Only the first and the last piece can be empty, and the first is not when `s` starts with a non-space. */
  lemma {:induction false} PiecesInside(s: string)
    ensures |Pieces(s)| >= 1
    ensures s != [] && !IsSpace(s[0]) ==> Pieces(s)[0] != []
    ensures forall k | 0 < k < |Pieces(s)| - 1 :: Pieces(s)[k] != []
    decreases |s|
  {
    var k := Run(NonSpaces, s, 0);
    if k < |s| {
      var e := k + Run(Spaces, s, k);
      PiecesUnfold(s, k, e, s[e..]);
      PiecesInside(s[e..]);
      assert s[e..] != [] ==> !IsSpace(s[e..][0]);
      PiecesInterior(s[..k], Pieces(s[e..]));
    }
  }

  /** Putting a piece in front of a split whose first piece is a word leaves no empty piece inside. */
  lemma PiecesInterior(w: string, rest: seq<string>)
    requires |rest| >= 1
    requires |rest| >= 2 ==> rest[0] != []
    requires forall k | 0 < k < |rest| - 1 :: rest[k] != []
    ensures forall k | 0 < k < |[w] + rest| - 1 :: ([w] + rest)[k] != []
  {
    forall k | 0 < k < |[w] + rest| - 1
      ensures ([w] + rest)[k] != []
    {
      assert ([w] + rest)[k] == rest[k - 1];
    }
  }

  /** A piece in front of a split: the facts `PiecesSqueeze` states carry over. */
  lemma PiecesCons(w: string, rest: seq<string>)
    requires |rest| >= 1 && NoSpace(w)
    requires forall k | 0 <= k < |rest| :: NoSpace(rest[k])
    ensures forall k | 0 <= k < |[w] + rest| :: NoSpace(([w] + rest)[k])
    ensures Concat([w] + rest) == w + Concat(rest)
  {
    assert ([w] + rest)[1..] == rest;
  }

  /** The pieces `r` with `seps[k]` written between `r[k]` and `r[k + 1]`. */
  function Interleave(r: seq<string>, seps: seq<string>): string
    requires |r| >= 1 && |seps| == |r| - 1
    decreases |r|
  {
    if |r| == 1 then r[0] else r[0] + seps[0] + Interleave(r[1..], seps[1..])
  }

  /** Every separator is a non-empty run of whitespace. */
  predicate WhitespaceSeparators(seps: seq<string>) {
    forall k | 0 <= k < |seps| :: seps[k] != [] && AllSpace(seps[k])
  }

  /**
   * The cuts of `split(/\s+/)` fall exactly at the maximal whitespace runs:
   * the text is its pieces with a non-empty whitespace run between each two.
   */
  lemma SplitWordsInterleaves(s: string)
    ensures exists seps | |seps| == |SplitWords(s)| - 1 && WhitespaceSeparators(seps) :: s == Interleave(SplitWords(s), seps)
  {
    var seps := SplitWordsSeparators(s);
  }

  /** The whitespace runs that `SplitWords` drops, one between each pair of pieces. */
  lemma {:induction false} SplitWordsSeparators(s: string) returns (seps: seq<string>)
    ensures |seps| == |SplitWords(s)| - 1 && WhitespaceSeparators(seps)
    ensures s == Interleave(SplitWords(s), seps)
    decreases |s|
  {
    var k := Run(NonSpaces, s, 0);
    if k == |s| {
      assert s[..k] == s;
      assert Pieces(s) == [s];
      seps := [];
    } else {
      var e := k + Run(Spaces, s, k);
      var rest := SplitWords(s[e..]);
      var seps' := SplitWordsSeparators(s[e..]);
      SplitWordsByRuns(s, k, e);
      SplitThree(s, k, e);
      seps := SeparatorsCons(s, s[..k], s[k..e], s[e..], rest, seps');
    }
  }

  /** The inductive step of `SplitWordsSeparators`, over abstract pieces. */
  lemma SeparatorsCons(s: string, w: string, g: string, tail: string, rest: seq<string>, seps': seq<string>)
    returns (seps: seq<string>)
    requires s == w + g + tail && g != [] && AllSpace(g)
    requires |rest| >= 1 && |seps'| == |rest| - 1 && WhitespaceSeparators(seps')
    requires tail == Interleave(rest, seps')
    ensures |seps| == |[w] + rest| - 1 && WhitespaceSeparators(seps)
    ensures s == Interleave([w] + rest, seps)
  {
    InterleaveCons(w, g, rest, seps');
    seps := [g] + seps';
  }

  /** Putting a piece and a separator in front of an interleaving. */
  lemma InterleaveCons(w: string, g: string, rest: seq<string>, seps: seq<string>)
    requires |rest| >= 1 && |seps| == |rest| - 1
    requires WhitespaceSeparators(seps) && g != [] && AllSpace(g)
    ensures WhitespaceSeparators([g] + seps)
    ensures Interleave([w] + rest, [g] + seps) == w + g + Interleave(rest, seps)
  {
    var seps2 := [g] + seps;
    forall j | 0 <= j < |seps2|
      ensures seps2[j] != [] && AllSpace(seps2[j])
    {
      if j > 0 {
        assert seps2[j] == seps[j - 1];
      }
    }
    assert ([w] + rest)[1..] == rest && seps2[1..] == seps;
  }

  lemma SplitThree<T>(s: seq<T>, k: nat, e: nat)
    requires k <= e <= |s|
    ensures s == s[..k] + s[k..e] + s[e..]
  {
  }

  /** A word, then a maximal whitespace run from `k` to `e`: the split's first piece is the word and the rest is split after the run. */
  lemma SplitWordsAt(x: string, k: nat, e: nat)
    requires k < e <= |x|
    requires NoSpace(x[..k]) && AllSpace(x[k..e])
    requires e == |x| || !IsSpace(x[e])
    ensures SplitWords(x) == [x[..k]] + SplitWords(x[e..])
  {
    SpaceRunIsExact(x, k, e);
    WordRunIsExact(x, k);
    SplitWordsByRuns(x, k, e);
  }

  lemma AppendAssoc<T>(a: seq<T>, b: seq<T>, c: seq<T>)
    ensures a + (b + c) == a + b + c
  {
  }

  lemma SliceThree<T>(s: seq<T>, i: nat, m: nat, e: nat)
    requires i <= m <= e <= |s|
    ensures s[i..] == s[i..m] + s[m..e] + s[e..]
  {
  }

  /** A word, some whitespace and then a non-space start: the split is the word followed by the split of the rest. */
  lemma SplitAfterWord(w: string, g: string, tail: string)
    requires NoSpace(w) && g != [] && AllSpace(g)
    requires tail == [] || !IsSpace(tail[0])
    ensures SplitWords(w + g + tail) == [w] + SplitWords(tail)
  {
    var x := w + g + tail;
    assert x[..|w|] == w;
    assert x[|w|..|w| + |g|] == g;
    assert x[|w| + |g|..] == tail;
    SplitWordsAt(x, |w|, |w| + |g|);
  }

  /** One unfolding of `SplitWords` once both runs are known. */
  lemma SplitWordsByRuns(x: string, k: nat, e: nat)
    requires k < e <= |x|
    requires Run(NonSpaces, x, 0) == k && Run(Spaces, x, k) == e - k
    ensures SplitWords(x) == [x[..k]] + SplitWords(x[e..])
  {
    PiecesByRuns(x, k, e);
  }

  lemma PiecesByRuns(x: string, k: nat, e: nat)
    requires k < e <= |x|
    requires Run(NonSpaces, x, 0) == k && Run(Spaces, x, k) == e - k
    ensures Pieces(x) == [x[..k]] + Pieces(x[e..])
  {
    PiecesUnfold(x, k, e, x[e..]);
  }

  /** One step of `Pieces`, with the rest of the text named so that its own pieces are not unfolded. */
  lemma PiecesUnfold(x: string, k: nat, e: nat, y: string)
    requires k == Run(NonSpaces, x, 0) < |x| && e == k + Run(Spaces, x, k) && y == x[e..]
    ensures Pieces(x) == [x[..k]] + Pieces(y)
  {
  }

  /** The word `x[..k]`, followed by whitespace, is the first non-space run of `x`. */
  lemma WordRunIsExact(x: string, k: nat)
    requires k < |x| && NoSpace(x[..k]) && IsSpace(x[k])
    ensures Run(NonSpaces, x, 0) == k
  {
    forall m | 0 <= m < k
      ensures InClass(x[m], NonSpaces)
    {
      assert x[..k][m] == x[m];
    }
    RunIsExact(NonSpaces, x, 0, k);
  }

  /** The whitespace `x[k..e]`, ended by a non-space or the end, is the space run at `k`. */
  lemma SpaceRunIsExact(x: string, k: nat, e: nat)
    requires k < e <= |x| && AllSpace(x[k..e])
    requires e == |x| || !IsSpace(x[e])
    ensures Run(Spaces, x, k) == e - k
    ensures IsSpace(x[k])
  {
    assert x[k..e][0] == x[k];
    forall m | k <= m < e
      ensures InClass(x[m], Spaces)
    {
      assert x[k..e][m - k] == x[m];
    }
    RunIsExact(Spaces, x, k, e - k);
  }

  lemma SqueezeSplit(s: string, k: nat, e: nat)
    requires k <= e <= |s|
    requires NoSpace(s[..k]) && AllSpace(s[k..e])
    ensures Squeeze(s) == s[..k] + Squeeze(s[e..])
  {
    assert s == s[..k] + s[k..e] + s[e..];
    SqueezeAppend(s[..k] + s[k..e], s[e..]);
    SqueezeAppend(s[..k], s[k..e]);
    SqueezeNoSpace(s[..k]);
    SqueezeAllSpace(s[k..e]);
  }

  lemma TrimmedRest(s: string, k: nat, e: nat)
    requires k < |s| && e == k + Run(Spaces, s, k)
    requires IsSpace(s[k])
    ensures Trimmed(s) ==> e < |s| && s[e..] != [] && Trimmed(s[e..])
  {
  }

  /** `a` is `b` with some elements left out and the rest kept in order. */
  ghost predicate IsSubseq<T>(a: seq<T>, b: seq<T>)
    decreases |b|
  {
    if b == [] then a == []
    else (a != [] && a[0] == b[0] && IsSubseq(a[1..], b[1..])) || IsSubseq(a, b[1..])
  }

  lemma {:induction false} SubseqOfEmpty<T>(b: seq<T>)
    ensures IsSubseq([], b)
    decreases |b|
  {
    if b != [] {
      SubseqOfEmpty(b[1..]);
    }
  }

  lemma {:induction false} SubseqOfSelf<T>(a: seq<T>)
    ensures IsSubseq(a, a)
    decreases |a|
  {
    if a != [] {
      SubseqOfSelf(a[1..]);
    }
  }

  /** Subsequences of the two halves make a subsequence of the whole. */
  lemma {:induction false} SubseqAppend<T>(a1: seq<T>, b1: seq<T>, a2: seq<T>, b2: seq<T>)
    requires IsSubseq(a1, b1) && IsSubseq(a2, b2)
    ensures IsSubseq(a1 + a2, b1 + b2)
    decreases |b1|
  {
    if b1 == [] {
      assert a1 + a2 == a2 && b1 + b2 == b2;
    } else {
      assert (b1 + b2)[0] == b1[0] && (b1 + b2)[1..] == b1[1..] + b2;
      if a1 != [] && a1[0] == b1[0] && IsSubseq(a1[1..], b1[1..]) {
        SubseqAppend(a1[1..], b1[1..], a2, b2);
        assert (a1 + a2)[0] == a1[0] && (a1 + a2)[1..] == a1[1..] + a2;
      } else {
        SubseqAppend(a1, b1[1..], a2, b2);
      }
    }
  }

  lemma {:induction false} SubseqTrans<T>(a: seq<T>, b: seq<T>, c: seq<T>)
    requires IsSubseq(a, b) && IsSubseq(b, c)
    ensures IsSubseq(a, c)
    decreases |c|
  {
    if c != [] {
      if b != [] && b[0] == c[0] && IsSubseq(b[1..], c[1..]) {
        if a != [] && a[0] == b[0] && IsSubseq(a[1..], b[1..]) {
          SubseqTrans(a[1..], b[1..], c[1..]);
        } else {
          SubseqTrans(a, b[1..], c[1..]);
        }
      } else {
        SubseqTrans(a, b, c[1..]);
      }
    }
  }

  lemma LowerAppend(a: string, b: string)
    ensures ToLower(a + b) == ToLower(a) + ToLower(b)
  {
  }

  /** Lower-casing keeps a subsequence a subsequence. */
  lemma {:induction false} SubseqLower(a: string, b: string)
    requires IsSubseq(a, b)
    ensures IsSubseq(ToLower(a), ToLower(b))
    decreases |b|
  {
    if b != [] {
      assert ToLower(b)[1..] == ToLower(b[1..]);
      if a != [] && a[0] == b[0] && IsSubseq(a[1..], b[1..]) {
        SubseqLower(a[1..], b[1..]);
        assert ToLower(a)[1..] == ToLower(a[1..]);
      } else {
        SubseqLower(a, b[1..]);
      }
    }
  }

  /** Lower-casing neither creates nor removes whitespace, so it commutes with `Squeeze`. */
  lemma {:induction false} LowerSqueeze(s: string)
    ensures ToLower(Squeeze(s)) == Squeeze(ToLower(s))
    decreases |s|
  {
    if s != [] {
      var t := ToLower(s);
      var h := if IsSpace(s[0]) then [] else [s[0]];
      assert t[1..] == ToLower(s[1..]);
      assert IsSpace(t[0]) <==> IsSpace(s[0]);
      LowerSqueeze(s[1..]);
      LowerAppend(h, Squeeze(s[1..]));
      assert ToLower(h) == (if IsSpace(t[0]) then [] else [t[0]]);
    }
  }

  /** Dropping whitespace keeps a subsequence a subsequence. */
  lemma {:induction false} SqueezeSubseq(a: string, b: string)
    requires IsSubseq(a, b)
    ensures IsSubseq(Squeeze(a), Squeeze(b))
    decreases |b|
  {
    if b != [] {
      var h := if IsSpace(b[0]) then [] else [b[0]];
      assert Squeeze(b) == h + Squeeze(b[1..]);
      if a != [] && a[0] == b[0] && IsSubseq(a[1..], b[1..]) {
        SqueezeSubseq(a[1..], b[1..]);
        assert Squeeze(a) == h + Squeeze(a[1..]);
        SubseqOfSelf(h);
        SubseqAppend(h, h, Squeeze(a[1..]), Squeeze(b[1..]));
      } else {
        SqueezeSubseq(a, b[1..]);
        SubseqOfEmpty(h);
        SubseqAppend([], h, Squeeze(a), Squeeze(b[1..]));
        assert [] + Squeeze(a) == Squeeze(a);
      }
    }
  }
}
