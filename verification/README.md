# OTP extraction and accuracy report, modelled in Dafny

The system reads SMS-style messages and pulls out the one-time password
(OTP) in each, if any. `extractOtp` returns one of three things:
- `"nan"`: no safe candidate was found;
- `""`: a buy/free offer, deliberately left blank;
- the OTP: 4 to 8 digits.

A message first passes a promotional filter and the buy/free check.
`cleanMessage` then normalises it: it collapses whitespace and trims, then
redacts IDs, amounts, dates, long digit runs, times, years in a date
context, masked numbers and `digits+`. The cleaned text is split into
lower-cased tokens. A keyword matcher looks up to three tokens ahead of each
trigger or separator word. If that finds nothing, three regular-expression
tiers are tried in order: two numbers in a row, a standalone 8-digit number,
and a 4..8-digit or `ddd-ddd` number that is dropped when a price tag
("mrp", "at") comes before it.

The second part covers `Utility.js`:
- `tryGetDataRow`, the CSV line parser, a two-state (in quotes / not in
  quotes) machine with `""` escapes, comma splitting and field trimming;
- the pure part of `writeFile`: `normalize`, quoting of the message column,
  and the row loop that builds the full report and the failure report and
  counts the scored and failed rows.

Every regular expression is written as an explicit scanner over
`seq<char>`:
- `\b` is `Text.Boundary`, with `IsWordChar` = `[A-Za-z0-9_]`.
- A variable-width `\d{lo,hi}` or `\d+` is read as a maximal digit run.
  Where the pattern requires a non-digit after the run (a `\b`, a
  separator, `+`), no shorter run can match, so the scanner finds the one
  literal match. This does not hold for every group. The clock's minutes
  `\d{2}` are fixed-width and may be followed by a digit; the `\b` after
  them then decides. The optional groups of the clock and amount patterns,
  and the greedy `\d+` after `\*+`, allow several literal matches at one
  start.
- One lemma per scanner ties it to the literal reading of its pattern,
  written as a predicate with explicit positions:
  - `Patterns.StandaloneAgrees` covers `\b\d{9,20}\b` and `\b\d{4}\b`.
  - `Literals.IdAgrees`, `Literals.DateAgrees` (all three date patterns)
    and `Literals.PlusAgrees` show that the scanner's match is a literal
    match, and that every literal match at that start is the scanner's.
  - `Literals.ClockAgrees`, `Literals.AmountAgrees` and
    `Literals.MaskedAgrees` show that the scanner's match is a literal
    match and no literal match at that start is longer. JavaScript's greedy
    matcher takes that longest match.
  - `Tiers.ConsecutiveSound` / `ConsecutiveComplete` and
    `Tiers.GenericAgrees` cover the fallback tiers.
- A global `replace` is a left-to-right scan over a table of the matches at
  every start position (`Patterns.ScanFrom`).

Modules, one file each:

| file | module | contents |
|---|---|---|
| text.dfy | Text | character classes, `toLowerCase`, `\b`, `trim`, `split(/\s+/)` |
| patterns.dfy | Patterns | the cleaner's passes, the match table, global replace, the filter theorem |
| clean.dfy | Clean | `cleanMessage`, the whitespace pass, the year and long-number passes |
| keywords.dfy | Keywords | tokenisation, the keyword sets, `extractUsingKeywords` |
| tiers.dfy | Tiers | the three fallback tiers, leftmost search, the price guard |
| extract.dfy | Extract | `extractOtp`: filters, stage order, the three outcomes |
| csv.dfy | Csv | `tryGetDataRow` |
| report.dfy | Report | `normalize`, quoting, the row loop of `writeFile` |
| literals.dfy | Literals | the literal readings of the cleaner's patterns, and the lemmas tying each scanner to its reading |

Two behaviours of the code that are easy to miss:
- The promotional filter lower-cases the message but does not trim it
  (javascript/Child.js:15), so a message starting with whitespace and then
  "caution" is not filtered by the `startsWith` test.
- Tokens keep attached punctuation, so in "Your OTP is 483920. Do not share
  it with anyone." the token after "is" is `483920.`. It is not 4 to 8
  digits, so the keyword matcher finds nothing. The answer "483920" comes
  from the fallback tier instead, which sees `\b` between the `0` and the
  `.`.

## Model

| member | source | states |
|---|---|---|
| Text.Trim | javascript/Child.js:62 | `trim` leaves no whitespace at either end and never lengthens the text. It changes nothing in text that is already trimmed, and it gives the empty string exactly when the text is all whitespace |
| Text.TrimIsInfix | javascript/Child.js:62 | what `trim` keeps is a contiguous piece of the text, with only whitespace before and after it |
| Text.SplitWords | javascript/Child.js:32 | `split(/\s+/)` gives at least one piece, and no piece holds whitespace. The pieces, concatenated, are exactly the non-whitespace characters of the text in order. Only the first and last piece can be empty, and a trimmed non-empty text gives no empty piece |
| Text.SplitWordsInterleaves | javascript/Child.js:32 | the text is exactly its pieces with a non-empty run of whitespace between each pair. With no whitespace in a piece and no empty piece inside, every cut falls on a whole whitespace run |
| Text.SubseqTrans | javascript/Child.js:64-85 | a subsequence of a subsequence is a subsequence. This chains the deleting passes |
| Text.SubseqLower | javascript/Child.js:64-85 | lower-casing keeps a subsequence a subsequence, so the deleting passes after the `ID` pass can be compared with it case-insensitively |
| Text.TrimSqueeze | javascript/Child.js:62 | `trim` removes only whitespace: the non-whitespace characters of the text are unchanged |
| Text.LowerSqueeze | javascript/Child.js:32 | lower-casing neither creates nor removes whitespace, so it commutes with dropping the whitespace |
| Text.SqueezeSubseq | javascript/Child.js:58-87 | dropping the whitespace from both sides keeps a subsequence a subsequence |
| Patterns.StandaloneAgrees | javascript/Child.js:68 | the run-based scanner for `\b\d{lo,hi}\b` matches at `i`, ending at `e`, exactly when the literal reading holds there with `e - i` digits. This covers both directions |
| Patterns.MatchAt | javascript/Child.js:61-85 | every pass's match ends after its start and inside the text. An `ID` match spans at least four characters. A year match is exactly four digits. What each scanner matches is stated by the `Literals` lemmas |
| Patterns.IdAt | javascript/Child.js:64 | a match of `\bID\s+(\d{1,20})\b` spans at least four characters: the label, a space and a digit |
| Patterns.AmountAt | javascript/Child.js:66 | an amount match is non-empty and inside the text |
| Patterns.DateAt | javascript/Child.js:67 | a date match (`\d{1,2}[-/]\d{1,2}[-/]\d{2,4}` here, and the patterns of lines 70 and 71 through its parameters) is non-empty and inside the text |
| Patterns.ClockAt | javascript/Child.js:72 | a clock match is non-empty and inside the text |
| Patterns.MaskedAt | javascript/Child.js:84 | a masked-number match is non-empty and inside the text |
| Patterns.PlusAt | javascript/Child.js:85 | a `digits+` match is non-empty and inside the text |
| Patterns.Replacement | javascript/Child.js:61-85 | no pass replaces a match with anything longer than the match. Every pass except the whitespace and `ID` passes deletes its match or keeps it verbatim; every one except those and the year pass deletes it |
| Patterns.Rewrite | javascript/Child.js:61-85 | a global `replace` of any pass never lengthens the text |
| Patterns.PassErasesOrKeeps | javascript/Child.js:66-85 | each pass other than the whitespace and `ID` passes replaces every match by nothing or by the match itself |
| Patterns.ScanSubseq | javascript/Child.js:66-85 | a global replace whose matches are each deleted or kept verbatim outputs a subsequence of its input, whether or not the matches overlap |
| Patterns.RewriteOnlyDeletes | javascript/Child.js:66-85 | each pass other than the whitespace and `ID` passes outputs a subsequence of its input: it never reorders or duplicates text |
| Patterns.IdRewriteLowerSubseq | javascript/Child.js:64 | the `ID` pass, after lower-casing, outputs a subsequence of its lower-cased input: "ID" replaces an "id" and the number after it |
| Literals.IdAgrees | javascript/Child.js:64 | the `ID` scanner matches at `i`, ending at `e`, exactly when `\bID\s+(\d{1,20})\b` literally matches there: "id" in any case after a boundary, whitespace, 1 to 20 digits, a boundary. Both directions |
| Literals.AmountAgrees | javascript/Child.js:66 | every amount match is a literal match of the pattern: a boundary, "Rs", "Rs." or "INR" in any case, optional whitespace, digits with an optional decimal part, a boundary; and no literal match at that start is longer |
| Literals.TailAgrees | javascript/Child.js:66 | the amount's tail after the marker, `\s*\d+(?:\.\d+)?\b`, is matched with its longest literal reading |
| Literals.DateAgrees | javascript/Child.js:67-71 | each date scanner matches at `i`, ending at `e`, exactly when its pattern (`\d{1,2}[-/]\d{1,2}[-/]\d{2,4}`, `\d{4}[-.]\d{1,2}[-.]\d{1,2}` or `\d{1,2}[-.]\d{1,2}[-.]\d{2,4}`, between boundaries) literally matches there. Both directions |
| Literals.ClockAgrees | javascript/Child.js:72 | every clock match is a literal match of `\b\d{1,2}:\d{2}(:\d{2})?\b`, and when the seconds can be read the scanner takes them, as the greedy optional group does |
| Literals.MaskedAgrees | javascript/Child.js:84 | every masked-number match is a literal match of `\*+\d+`, and no literal match at that start is longer |
| Literals.PlusAgrees | javascript/Child.js:85 | the `digits+` scanner matches at `i`, ending at `e`, exactly when `\b\d+\+\b` literally matches there. Both directions |
| Patterns.ScanIsFilter | javascript/Child.js:68-81 | a global replace whose matches never overlap, and are each deleted or kept verbatim, outputs exactly the characters that no deleted match covers, in their original order |
| Clean.CleanMessage | javascript/Child.js:58-87 | the cleaned message has no whitespace at either end and is never longer than the input |
| Clean.CleanKeepsOrder | javascript/Child.js:58-87 | the cleaner never reorders or duplicates the text it keeps. Ignoring whitespace and case, the cleaned message is a subsequence of the message |
| Clean.ApplyAll | javascript/Child.js:64-85 | the chain of redaction passes never lengthens the text |
| Clean.ApplyAllOnlyDeletes | javascript/Child.js:66-85 | a chain of passes without the whitespace and `ID` passes outputs a subsequence of its input |
| Clean.RedactionsOnlyDelete | javascript/Child.js:64-85 | the redaction chain is the `ID` pass followed by passes that only delete. Lower-cased, its output is a subsequence of its lower-cased input, so it never reorders or duplicates retained text |
| Clean.CollapseWhitespace | javascript/Child.js:61 | after `replace(/\s+/g, " ")`, every whitespace character is a plain space with no whitespace after it; a leading or trailing space stays until the `trim` of line 62. The non-whitespace characters are unchanged and in order, and `split(/\s+/)` gives the same pieces before and after, so each whitespace run became exactly one space |
| Clean.CollapseSplit | javascript/Child.js:61 | from any position, the collapsed suffix splits into the same pieces as the original suffix |
| Clean.YearErasedIff | javascript/Child.js:74-81 | a character is deleted by the year pass exactly when it lies in a standalone 4-digit number with `/` or `-` immediately before or after it and a value in 1900..2099 |
| Clean.YearPassRemovesExactlyDatedYears | javascript/Child.js:74-81 | the year pass outputs the input with exactly the dated years removed. Every other character, including every other 4-digit number, is kept in order |
| Clean.LongNumberErasedIff | javascript/Child.js:68 | a character is deleted by the long-number pass exactly when it lies in a standalone run of 9 to 20 digits |
| Clean.LongNumberPassRemovesExactlyLongRuns | javascript/Child.js:68 | the long-number pass outputs the input with exactly the standalone 9..20-digit runs removed, and the rest kept in order |
| Keywords.Tokenize | javascript/Child.js:32 | the tokens hold no whitespace. Concatenated, they are the lower-cased non-whitespace characters of the cleaned message. For a trimmed non-empty message, no token is empty |
| Keywords.TokenizeInterleaves | javascript/Child.js:32 | the lower-cased message is exactly its tokens with a non-empty whitespace run between each pair, so token positions are the word positions of the message |
| Keywords.MultiWordKeywordsNeverMatch | javascript/Child.js:92-96 | the multi-word keywords are exactly the entries of the keyword set that contain a space. No token can equal one, so a token is an anchor exactly when it is not an eliminator and is a single-word keyword or a separator |
| Keywords.LookaheadFrom | javascript/Child.js:113-116 | the inner loop returns the first 4..8-digit token from `p` up to three places after the anchor, stopping at the end of the tokens. It returns nothing exactly when there is none |
| Keywords.Lookahead | javascript/Child.js:113-116 | after anchor `i`, the lookahead returns nothing exactly when none of the next three tokens is 4 to 8 digits. Otherwise it returns the first such token |
| Keywords.AnchorScan | javascript/Child.js:107-131 | the outer loop from `i` returns nothing exactly when no anchor has a candidate in its window. Otherwise it returns the lookahead answer of the earliest anchor that has one |
| Keywords.ExtractUsingKeywords | javascript/Child.js:91-133 | the keyword matcher returns nothing exactly when no token fires. A token fires when it is not an eliminator, is a keyword or separator, and has a 4..8-digit token in its window. Otherwise the matcher returns the first candidate of the earliest firing token, and that candidate is 4 to 8 digits |
| Tiers.ConsecutiveAt | javascript/Child.js:39 | a capture of `\b\d{1,8}\s+(\d{4,8})\b` starting at `i` lies after `i`, inside the text, and is 4 to 8 digits. `Tiers.ConsecutiveSound` and `ConsecutiveComplete` tie it to the literal reading |
| Tiers.ConsecutiveSound | javascript/Child.js:39-40 | whatever the consecutive-numbers scanner captures is the second number of a literal match of `\b\d{1,8}\s+(\d{4,8})\b` at that position |
| Tiers.ConsecutiveComplete | javascript/Child.js:39-40 | every literal match of the consecutive-numbers pattern is found by the scanner, with the same capture |
| Tiers.GenericAgrees | javascript/Child.js:47 | every match of the fallback scanner is a standalone 4..8-digit number or a standalone `ddd-ddd` pair. Every standalone number of 4 to 8 digits and every standalone pair is matched, with its full length |
| Tiers.GenericAt | javascript/Child.js:47 | a fallback match starts at `i` and ends inside the text. `Tiers.GenericAgrees` states what it matches |
| Tiers.RemoveHyphensJoinsPair | javascript/Child.js:51 | removing the hyphen from a `ddd-ddd` match gives its two halves joined: six digits |
| Tiers.FallbackDigits | javascript/Child.js:49-51 | the fallback tier's answer is its match with hyphens removed, and it is always 4 to 8 digits |
| Tiers.Utf16Length | javascript/Child.js:50 | the width of a text in UTF-16 code units, which `\D{0,3}` counts, is at least its number of characters and at most twice it |
| Tiers.Utf16LengthBmp | javascript/Child.js:50 | for characters inside the Basic Multilingual Plane, the code-unit width is the number of characters, so the gap holds up to three of them |
| Tiers.SpaceGapAllowsPrice | javascript/Child.js:50 | "at" or "mrp", a space, then the number and a boundary: the space is a gap the price pattern spans |
| Tiers.WideGapBlocksPrice | javascript/Child.js:50 | a space, a character outside the Basic Multilingual Plane (an emoji) and a space are four code units, so no number follows that gap within `\D{0,3}` |
| Tiers.TierAt | javascript/Child.js:39-47 | a tier's match lies inside the text. The first two tiers match 4 to 8 digits, and the eight-digit tier matches exactly eight |
| Tiers.FirstMatch | javascript/Child.js:39-47 | `match` returns the match at the first position where the pattern matches, and no position before it matches. It returns nothing exactly when the pattern matches nowhere |
| Tiers.TierAnswer | javascript/Child.js:38-52 | every tier's answer is 4 to 8 digits, and exactly 8 for the eight-digit tier. The first two tiers answer exactly when they match, with the text of the first match (for the first tier, its second number). The fallback tier, given a match, answers exactly when the price pattern built from that match's text matches nowhere (`Tiers.PriceTagged`, line 50); it never tries a later match, and its answer is the match with hyphens removed |
| Extract.FirstSuccess | javascript/Child.js:35-51 | taking the stage results in order, the result is nothing exactly when every stage found nothing. Otherwise it is the value of the first stage that found something |
| Extract.FirstSuccessIsFirst | javascript/Child.js:35-51 | when entry `k` is the first to hold a value, that value is the result |
| Extract.ExtractOtp | javascript/Child.js:10-55 | a missing, non-string or empty message, and a promotional one (`Extract.IsPromotional`, lines 15-23), give no OTP. The result is suppressed exactly when the message passes the guard, is not promotional, and contains whole-word "buy" and "free" in any case (`Extract.IsOffer` and `HasWholeWord`, line 25). Any OTP is 4 to 8 digits |
| Extract.TokensKeepOrder | javascript/Child.js:29-32 | the tokens the keyword stage sees, joined, are characters of the message in their original order, lower-cased, with whitespace and redacted text left out |
| Extract.OtpComesFromFirstStage | javascript/Child.js:29-54 | any OTP returned is the find of the first stage that found anything in the cleaned message |
| Extract.NoOtpIffNoStageFinds | javascript/Child.js:35-54 | a message that passes both filters gives "nan" exactly when no stage finds anything in its cleaned form |
| Extract.StagePrecedence | javascript/Child.js:35-51 | when stage `k` is the first to find something, its find is the OTP, whatever later stages find |
| Extract.RenderInjective | javascript/Child.js:11-54 | "nan", "" and digit strings never coincide, so the returned string determines the kind of outcome |
| Extract.ExtractOtpString | javascript/Child.js:11-54 | `extractOtp` returns "nan", "" or 4 to 8 digits, and it returns "" exactly for a suppressed offer |
| Csv.Step | javascript/Utility.js:55-77 | every loop iteration moves forward and stays within the line, so the loop ends |
| Csv.ParseFrom | javascript/Utility.js:55-78 | the loop from any state yields more fields than the state had pushed: the open field is always pushed at the end |
| Csv.ParseComma | javascript/Utility.js:68-70 | outside quotes, a comma pushes the trimmed current field and starts an empty one |
| Csv.ParseOpeningQuote | javascript/Utility.js:71-72 | outside quotes, a quote at the start of a field switches to quoted mode and adds nothing |
| Csv.ParseLiteralQuote | javascript/Utility.js:71-75 | outside quotes, a quote in a non-empty field is an ordinary character |
| Csv.ParseEscapedQuote | javascript/Utility.js:59-61 | inside quotes, `""` adds one quote to the field and consumes both characters |
| Csv.ParseClosingQuote | javascript/Utility.js:62-63 | inside quotes, a quote not followed by another leaves quoted mode and adds nothing |
| Csv.ParseQuotedChar | javascript/Utility.js:64-65 | inside quotes, any other character, including a comma, is added to the field |
| Csv.ParseEnd | javascript/Utility.js:78 | at the end of the line, the open field is trimmed and pushed |
| Csv.ParseFromTrimmed | javascript/Utility.js:69-78 | every field the loop pushes is trimmed |
| Csv.Fields | javascript/Utility.js:51-78 | a line always yields at least one field, and every field is trimmed |
| Csv.PlainLine | javascript/Utility.js:55-78 | a line without quotes yields its comma-separated pieces, each trimmed. There is one more field than there are commas |
| Csv.QuotedBodyReads | javascript/Utility.js:58-66 | inside quotes, the text of a quoted field with its quotes doubled, followed by the closing quote, reads back as the original field and leaves quoted mode |
| Csv.DoubleQuotesSpells | javascript/Utility.js:133-135 | a message with its quotes doubled, then a closing quote, then anything not starting with a quote, is a well-formed quoted body that reads back as the message |
| Csv.PlainTextReads | javascript/Utility.js:73-75 | outside quotes, text without commas or quotes is appended to the current field unchanged |
| Csv.TryGetDataRow | javascript/Utility.js:48-89 | with `skipEmptyRows`, the row is rejected exactly when every field is empty. An accepted row's values are exactly the parsed fields, in order, and a rejected row leaves the values empty |
| Report.Normalize | javascript/Utility.js:104-108 | a missing or whitespace-only value becomes "nan", and anything else becomes its trimmed text. The result is never empty and never has whitespace at either end |
| Report.NormalizeIdempotent | javascript/Utility.js:104-108 | normalizing a normalized value changes nothing |
| Report.RowReadsBack | javascript/Utility.js:133-137 | a report line, read back through the line parser, gives the trimmed message, extracted value and expected value. The message column is written by `Report.SafeField` (lines 133-135). This holds whether or not the message needed quoting, provided the two values hold no comma or quote |
| Report.VerdictOfRow | javascript/Utility.js:115-130 | `Report.Judge` (lines 118-129) gives each row its verdict: a row is scored exactly when its normalized expected value is not "nan". A scored row fails exactly when the two normalized values differ once lower-cased |
| Report.FailedRowsAreScoredRows | javascript/Utility.js:127-139 | every failed row is a scored row and is one of the rows' lines, so there are never more failures than scored rows |
| Report.Tally | javascript/Utility.js:110-140 | the row loop appends every row's line to the full report and counts the scored rows. It appends exactly the failed rows' lines to the failure report, in order, and counts them. There are no more failures than scored rows, and every line of the failure report is in the full report |
| Report.WriteReport | javascript/Utility.js:98-140 | the full report is the header followed by one line per prediction, in order. The failure report is the header followed by the failed rows' lines, in order. `failCases <= validCases`, and every failure line is also in the full report |

## Left out

- File input and output. This covers `readFileData` (javascript/Utility.js:20-45), which reads the file and splits it into lines, the `fs.writeFileSync` calls, the console logging and the path building. They are environment plumbing; the model returns the report lines and counters instead of writing them.
- The accuracy percentage and its `toFixed` formatting (javascript/Utility.js:147-151). This is floating-point output only.
- javascript/Runner.js is not part of this model. It only maps `extractOtp` over the rows.
- The commented-out backward check (javascript/Child.js:119-129) and the unused `SlowBuffer` import (javascript/Child.js:3). Both are dead code.
- Unicode. `toLowerCase`, `\s` and `trim` are modelled on ASCII only: letters A-Z, and space plus TAB..CR as whitespace. The `₹` alternative of the amount pattern (javascript/Child.js:66) is left out with them. A Dafny string is a sequence of Unicode scalars, while a JavaScript pattern without the `u` flag works on UTF-16 code units. The one counted repetition that can tell the two apart is the price guard's `\D{0,3}` (javascript/Child.js:50), and it is modelled in code units (`Tiers.Utf16Length`). Everywhere else a character outside the Basic Multilingual Plane is a non-digit, non-letter, non-space whether it counts as one unit or two.
- Non-string values. `Extract.Message` has a single `NotText` case for every non-string argument, since all of them return "nan". In `writeFile`, `String(val)` of a value that is not a string is not modelled: extracted and expected values are strings or missing (`Option<string>`).
- The mutation of the caller's `columnValues` array. `Csv.TryGetDataRow` returns the values, which starts them from empty just as clearing the array does.
- Csv.PlainLine: the count "one field more than there are unquoted commas" is stated only for lines without quotes. Lines with quoted fields are covered step by step (`Csv.ParseComma`, `Csv.QuotedBodyReads` and the other step lemmas) and through `Report.RowReadsBack`, not by a closed-form count.
- Report.RowReadsBack: it requires the extracted and expected values to hold no comma or quote. `writeFile` does not quote those columns, so other values do not read back as written.
- Csv.Step: its contract states only that each iteration makes progress. What each iteration does is stated by the step lemmas `Csv.ParseComma` through `Csv.ParseEnd`.
