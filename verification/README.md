# Monetary-policy and statistics jobs: a Dafny model

This project models the deterministic core of a set of scheduled jobs:

- **Bank of Korea monetary-policy documents** (`bok/app_issue.py`, `bok/app_decision.py`):
  - the text pipeline that turns extracted PDF text into clean paragraphs:
    - glyph unification;
    - line filtering and character clean-up;
    - cutting the table of contents and the statistics appendix;
    - splitting at department bylines ("issue" documents) or keeping one flat text ("decision" documents);
    - sentence filtering.
  - the summary requests built for each paragraph;
  - the release calendar that decides which report month is due;
  - the choice of the PDF to download;
  - the decision job's duplicate guard.
- **Batch result processing** (`bok/app_batch.py`):
  - parsing the rows of a finished batch;
  - the period code;
  - the storage key;
  - the loop that gives every pending job exactly one outcome and one status update.
- **Statistics series**:
  - ECOS (`ecos/app.py`): the default query period, the request address, and the expansion of quarterly rows into monthly points.
  - KRX (`krx/app.py`): the previous month, the search for the last trading day, and the update of the stored series.
  - REB (`reb/app.py`): normalising month descriptions into keys.

Every job's I/O is replaced by a parameter:

- "now";
- the PDF links found on a page;
- a PDF's text;
- the token counter;
- JSON parsing;
- the batch store;
- the price lookup;
- the rows of an answer.

The floating-point values of the series are opaque.

Modules, one per file:

- `wrappers`: `Option` and `Result`.
- `text`: Python string primitives (`strip`, `split`, `join`, `in`, `replace`).
- `decimal`: `str(n)` and zero padding.
- `sorting`: a stable sort.
- `unify`, `normalize`, `segment`, `sentences`, `pipeline`: the document text pipeline.
- `requests`: the batch request records.
- `calendar`: dates, weekdays and the release calendar.
- `download`: PDF choice and the decision job.
- `results`: batch results and the processing job.
- `series`: the published monthly points.
- `ecos`, `krx`, `reb`: one module per statistics job.

Where the behaviour described for the system and the code differ, the model follows the code:

- The issue pipeline keeps paragraphs that become empty after sentence filtering (`bok/app_issue.py:151-153`). Only paragraphs that were blank before cleaning are dropped.
- An error row of a batch keeps the whole `error` value, whatever its shape, rather than a message string.
- The decision job's reported `paragraphs` figure is `len(paragraph)` of a single string, so it is a character count.
- `\s` is exactly `str.isspace`, and the line breaks of `str.splitlines` are written out in full.

## Model

| member | source | states |
|---|---|---|
| Unify.ReplaceAllPointwise | bok/app_issue.py:62-69 | one replacement loop rewrites exactly the characters in its variant list to the target and keeps every other character, at the same length |
| Unify.UnifyRomanAndSymbols | bok/app_issue.py:58-71 | the unified text has the input's length and each character is replaced by its canonical form (I, '-', '.') |
| Unify.UnifyLeavesNoVariant | bok/app_issue.py:58-71 | no variant glyph survives and every other character is unchanged |
| Unify.UnifyIdempotent | bok/app_decision.py:56-69 | unifying twice gives the same text as unifying once |
| Unify.CanonicalFacts | bok/app_issue.py:59-69 | no replacement target is itself a variant, and a non-variant is its own canonical form |
| Normalize.SplitLinesJoin | bok/app_issue.py:32 | `splitlines` recovers lines without line breaks that were joined with "\n" |
| Normalize.KeptLines | bok/app_issue.py:42-48 | every kept line is non-empty, stripped and matches none of the four removal patterns |
| Text.KeepStrippedSingle | bok/app_issue.py:42-48 | one raw line contributes its stripped form exactly when that form is non-blank and not a figure, footnote, source or page-number line, and nothing otherwise |
| Text.KeepStrippedAppend | bok/app_issue.py:42-50 | the line filter works line by line, so surviving lines keep their source order |
| Normalize.DropNoteCallsLeavesNone | bok/app_issue.py:51 | after removing note calls no digit is directly followed by ')' |
| Normalize.DropNoteCallsKeepsPlain | bok/app_issue.py:51 | removing note calls keeps every character that is not a digit, ')' or a space, in order |
| Normalize.MaskDisallowed | bok/app_issue.py:52 | the scan from the left replaces each character off the allow-list by one space and keeps every allowed character in its place, so the result has the input's length and only allowed characters |
| Normalize.CollapseSpacesSingleSpaced | bok/app_issue.py:53 | after collapsing, every whitespace character is a single ' ' between non-spaces |
| Normalize.CollapseSpacesKeepsText | bok/app_issue.py:53 | collapsing whitespace keeps every non-space character in order |
| Normalize.NormalizeTextShape | bok/app_issue.py:30-55 | the normalised text is stripped, single-spaced, all on the allow-list, and has no digit directly followed by ')' |
| Segment.RemoveTableOfContents | bok/app_issue.py:105-109 | the result is a suffix of the input |
| Segment.TocCutAt | bok/app_issue.py:105-109 | with a first `[ⅠI]\s*-\s*1` match at `a`, the result is the text from `a` on |
| Segment.TocCutNone | bok/app_decision.py:72-76 | without a match the text is returned unchanged |
| Segment.StatsCutAt | bok/app_issue.py:112-116 | with a first `주요\s*통계\s*및\s*참고` match at `a`, the result is the stripped text before `a` |
| Segment.StatsCutNone | bok/app_decision.py:79-83 | without a match the text is returned unchanged |
| Segment.BodySpan | bok/app_issue.py:148-149 | cutting the contents and then the appendix leaves the stripped span from the first contents mark to the first appendix heading after it |
| Segment.HeaderAt | bok/app_issue.py:74-83 | a byline found at a position is a parenthesised group naming a department |
| Segment.HeaderAtExact | bok/app_issue.py:83 | a byline ends at `e` exactly when the text from the position to `e` is '(', then no ')' but a department name, then ')' |
| Segment.SplitTokensConcat | bok/app_issue.py:88 | `re.split` with a capturing group loses no text: the tokens concatenate to the input |
| Segment.SplitTokensHeaders | bok/app_issue.py:87-88 | every odd-numbered token is a department byline |
| Segment.SplitTokensComplete | bok/app_issue.py:88 | `re.split` misses no byline: no byline starts anywhere inside an even-numbered token, the text between two matches |
| Segment.AssembleShape | bok/app_issue.py:90-100 | there is one paragraph per byline. Each paragraph after the first is `f"{header} {content}".strip()` of its byline and the token after it, and so starts with its byline. The first is the same for the first byline, with the non-empty stripped text before it put in front |
| Segment.SplitByAuthorShape | bok/app_issue.py:86-102 | one paragraph per byline match, in order. Each is its byline and the text up to the next byline, stripped and joined by a space, so each after the first starts with its byline. Pre-byline text leads the first |
| Segment.NoHeaderNoParagraph | bok/app_issue.py:86-102 | with no byline in the text the result is empty and the text is discarded |
| Segment.NonBlankKeepsAll | bok/app_issue.py:102 | the final blank filter keeps every paragraph that has visible text |
| Sentences.NextBoundary | bok/app_issue.py:120 | the split point is the leftmost whitespace run that follows '.', '!' or '?' |
| Sentences.SplitSentencesLosesOnlySpace | bok/app_issue.py:120 | splitting into sentences drops only whitespace |
| Sentences.SplitSentencesEndings | bok/app_issue.py:120 | every sentence except the last ends with '.', '!' or '?' |
| Sentences.SplitSentencesMaximal | bok/app_issue.py:120 | no sentence contains another split point |
| Sentences.SplitSentencesTiles | bok/app_issue.py:120 | each sentence is the text up to a split point, and the next one starts after the whole whitespace run there; the last runs to the end |
| Sentences.TilesUnique | bok/app_issue.py:120 | any cut of the text at split points that leaves no split point inside a piece is exactly the sentence split |
| Sentences.KeptSentences | bok/app_issue.py:123-140 | kept sentences are stripped, non-empty and pass every filter |
| Sentences.CleanIsJoinOfKept | bok/app_issue.py:119-142 | the cleaned paragraph is the kept sentences joined by single spaces, in order. None starts with a figure, footnote or source marker, and none has more than 60% numeric tokens |
| Sentences.SingleSentence | bok/app_decision.py:86-109 | a paragraph without split points is kept stripped when it passes the filters and dropped otherwise |
| Pipeline.BodyShape | bok/app_issue.py:146-149 | the text handed to segmentation is stripped, single-spaced, on the allow-list and free of note calls |
| Pipeline.TocKeepsShape | bok/app_issue.py:105-109 | cutting the contents keeps the normalised shape |
| Pipeline.CutKeepsShape | bok/app_issue.py:112-116 | cutting the appendix keeps the normalised shape |
| Pipeline.Segmented | bok/app_issue.py:151-153 | issue extraction yields one cleaned paragraph per byline match, empty ones included, each the kept sentences of its paragraph joined by single spaces; decision extraction (`bok/app_decision.py:121`) is the kept sentences of the whole body joined the same way |
| Requests.DecideMatchesThresholds | bok/app_issue.py:164-171 | the bucket rank is the number of thresholds 1000, 2000 and 3000 reached |
| Requests.DecideMonotone | bok/app_decision.py:131-138 | a larger token count never gives a shorter bucket |
| Requests.BucketOfLabelInverse | bok/app_issue.py:164-171 | each bucket's label reads back as that bucket |
| Requests.LabelInjective | bok/app_decision.py:131-138 | distinct buckets have distinct labels |
| Requests.EstimateTokens | bok/app_decision.py:127-128 | the estimate is the character count divided by 3, rounded down |
| Requests.DecisionBucketByLength | bok/app_decision.py:141-143 | the decision bucket depends only on length, with thresholds at 3000, 6000 and 9000 characters |
| Requests.PromptNamesBucket | bok/app_issue.py:174-181 | the system prompt names its bucket, which reads back from it |
| Requests.CustomIdRoundTrip | bok/app_issue.py:189 | `para-{i:04d}` reads back as `i` |
| Requests.CustomIdInjective | bok/app_issue.py:189 | distinct ordinals give distinct custom ids |
| Requests.IssueRequests | bok/app_issue.py:183-222 | one request per paragraph |
| Requests.IssueRequestsFacts | bok/app_issue.py:183-222 | request `k` has id ordinal `k + 1`, system then user message, the paragraph as user content, the paragraph's bucket in the prompt, temperature 0 and 500 tokens |
| Requests.IssueRequestIdsDistinct | bok/app_issue.py:185-189 | the requests' custom ids are pairwise distinct |
| Requests.DecisionRequests | bok/app_decision.py:151-191 | exactly one request |
| Requests.DecisionRequestFacts | bok/app_decision.py:151-191 | the request has id `para-0000` and the document as user content. Its summary schema is a list of strings, with temperature 0 and 800 tokens, and the prompt's bucket is decided by length / 3 |
| Calendar.AddDaysClosedForm | bok/app_issue.py:249 | adding up to 28 days moves to the same or the next month (or year) by the calendar |
| Calendar.AtOrAfterMidnight | bok/app_issue.py:256 | a moment is at or after a day's midnight exactly when its date is on or after that day |
| Calendar.ReleaseDaysSorted | bok/app_issue.py:245-252 | the release days are already in date order, so sorting them changes nothing |
| Calendar.ScanPrefix | bok/app_issue.py:254-260 | the scan stops at the first unavailable release and returns the month before it |
| Calendar.TargetIsLatestAvailable | bok/app_issue.py:240-260 | the target is the month of the latest release available on or before today |
| Calendar.TargetNoneBeforeFirst | bok/app_batch.py:105-118 | there is no target exactly when even the first release is not yet available |
| Calendar.TargetInReportMonths | bok/app_issue.py:228-260 | a target is always one of the eight report months |
| Calendar.IssueNothingBeforeJan23 | bok/app_issue.py:228-260 | with the 7-day offset there is no target exactly before 23 January |
| Calendar.DecisionNothingBeforeJan16 | bok/app_decision.py:194-221 | without the offset there is no target exactly before 16 January |
| Calendar.WeekdayNextDay | krx/app.py:50 | the weekday advances by one each day |
| Calendar.PeriodCodeRoundTrip | bok/app_batch.py:126 | `f"{year}-{month:02d}"` reads back as the year and month |
| Calendar.GetCodeFacts | bok/app_batch.py:121-126 | there is a code exactly when there is a target month, and the code reads back as this year and that month |
| Download.FirstNaming | bok/app_issue.py:292-296 | the chosen link is the first whose filename contains the needle, and no link has it when none is chosen |
| Download.IssueDownloadFacts | bok/app_issue.py:284-296 | with no target month nothing is downloaded. Otherwise the first PDF named `(YYYY.M월` is chosen, and nothing when no filename has it |
| Download.IssueNeedleDistinguishesMonths | bok/app_issue.py:293 | the needle of one month is never a prefix of another month's needle followed by any text, thanks to the '월' after the digits |
| Download.IssueNeedlesAtSamePlace | bok/app_issue.py:293 | at any one position of a file name, the needles of two different months cannot both occur (a name that mentions two months elsewhere still matches both) |
| Download.ShortCodeDigits | bok/app_decision.py:255 | the short code is four digits: the year modulo 100, then the month |
| Download.DecisionDownloadFacts | bok/app_decision.py:247-262 | the first PDF whose filename contains the short code is chosen and tagged with `YYYY-MM`. With no month or no match nothing is chosen |
| Download.DecisionRunGuards | bok/app_decision.py:306-337 | no PDF gives "no pdf today". A stored `code#bok-decision` gives "already processed" for that period code, and nothing is submitted. Otherwise one request for the flat text is submitted under that key |
| Results.EntryOf | bok/app_batch.py:37-56 | every object row yields an entry and non-objects none |
| Results.ParseBatchOnePerRow | bok/app_batch.py:34-58 | exactly one entry per row, in row order |
| Results.ErrorRowIgnoresResponse | bok/app_batch.py:42-47 | a row with a truthy error gives `{id, error}` whatever its response holds |
| Results.BadAnswerIsParseError | bok/app_batch.py:49-56 | a missing content path or unparsable content gives a parse-error entry instead of failing |
| Results.SuccessCarriesNoId | bok/app_batch.py:49-51 | a success entry does not depend on the row's custom id |
| Results.StorageKeyInjective | bok/app_batch.py:85 | `monetary-policy/{code}/{type}.json` determines code and type when the code has no '/' |
| Results.PendingJobs | bok/app_batch.py:64-69 | the pending jobs are exactly the stored jobs of the code with status "pending" |
| Results.ProcessPendingJobs | bok/app_batch.py:150-178 | each pending job yields one result and one status update, "completed" on success and "error" otherwise |
| Results.HandleJobSucceeds | bok/app_batch.py:24-31 | a job succeeds exactly when its batch completed, every row parses as an object, and the upload succeeded. Its key is the storage key |
| Results.Run | bok/app_batch.py:132-185 | the job reports no report month or no pending jobs exactly in those cases, and updates nothing then; the no-pending-jobs report carries the period code. Otherwise it processes every pending job once, each result being that job's handling with the matching status update, and `processed` is their number |
| Sorting.SortByPermutes | bok/app_issue.py:252 | sorting returns a permutation of its input |
| Sorting.SortBySorted | ecos/app.py:93 | sorting returns its input in key order |
| Sorting.SortByStable | krx/app.py:110 | elements with equal keys keep their relative order |
| Sorting.SortByKeepsSorted | bok/app_decision.py:213 | an input already in key order is returned unchanged |
| Series.SortByXFacts | reb/app.py:53 | sorting points by `x` keeps the same points, orders them by key and keeps the order of equal keys |
| Series.SameKeyIsSameX | ecos/app.py:93 | two points share a sort key exactly when their `x` strings are equal |
| Series.ParseYm | reb/app.py:47 | a parsed month has a year from 1 to 9999 and a month from 1 to 12 |
| Series.FormatYmWithRoundTrip | ecos/app.py:33 | `strftime("%Y" + sep + "%m")` of a date reads back with `strptime` of the same format |
| Series.FormatYmRoundTrip | ecos/app.py:85-88 | a published "YYYY-MM" key reads back as its year and month |
| Series.ParseFormatIdempotent | reb/app.py:47-49 | re-formatting a parsed month gives a key that parses to the same month |
| Ecos.QuarterOfMonth | ecos/app.py:35 | the quarter of a month lies in 1..4 and its three months contain the month |
| Ecos.DefaultDateOutcomes | ecos/app.py:25-38 | the start is "199601" for M and "1996Q1" otherwise. An unknown kind, or an end for a cycle other than M or Q, raises |
| Ecos.MonthlyEndIsThisMonth | ecos/app.py:32-33 | the monthly end reads back as the current year and month |
| Ecos.QuarterlyEndIsThisQuarter | ecos/app.py:34-36 | the quarterly end ends with the current quarter's digit |
| Ecos.BuildApiUrlIsJoin | ecos/app.py:42-49 | the address is the service address followed by the path segments joined with '/' |
| Ecos.UrlSegments | ecos/app.py:42-49 | every setting is its own segment, and `ITEM_CODE2` adds a segment exactly when it is non-empty |
| Ecos.CleanTimeKeeps | ecos/app.py:58-63 | the cleaned time is the chain of `replace` calls deleting spaces, then '년', then '월': it keeps every other character in order and holds none of the three |
| Ecos.QuarterPointsFacts | ecos/app.py:66-77 | a quarter gives its three months in order: two empty points, then the value when it converts |
| Ecos.QuarterPointKey | ecos/app.py:73-77 | the `k`-th point is keyed by the quarter's `k`-th month |
| Ecos.QuarterKeyParses | ecos/app.py:74 | `f"{year}-{m:02d}"` with a four-digit year reads back as that month |
| Ecos.QuarterlyRow | ecos/app.py:66-80 | a quarterly row gives its quarter's points carrying the row's value. A failed conversion keeps the two empty points |
| Ecos.MonthlyRow | ecos/app.py:83-91 | a monthly row gives one "YYYY-MM" point of the same month when its value converts |
| Ecos.MalformedRowSkipped | ecos/app.py:66-91 | a row with an unreadable quarter digit or month is skipped without error |
| Ecos.TransformFacts | ecos/app.py:53-94 | the series holds exactly the rows' points, at most three per row, in key order, with equal keys in row order |
| Ecos.RunFacts | ecos/app.py:109-130 | only cycles M and Q run. The request covers January 1996 to now, and the result is uploaded unless it is empty |
| Krx.MoveToPrevMonthFacts | krx/app.py:77-80 | the result is day 1 of the month just before, with January going to December of the previous year. Only year 1's January has none |
| Krx.LastTradingDay | krx/app.py:46-56 | the result is the latest weekday of the month with a price, as "YYYY-MM" and that price. None means no weekday has a price. Stepping back from 0001-01-01 raises |
| Krx.TradingMonthLabel | krx/app.py:53 | the month label reads back as the searched month |
| Krx.FirstWithX | krx/app.py:101-102 | the index found is the first point of the month, and none means no point has it |
| Krx.UpsertFacts | krx/app.py:100-108 | an existing month has only its first point replaced, at the same length, with `updated` true. Otherwise exactly one point is appended and `updated` is false |
| Krx.UpsertIdempotent | krx/app.py:100-108 | repeating the update with the same month and price changes nothing and reports a replacement |
| Krx.UploadedSeries | krx/app.py:100-110 | the uploaded series holds the new point and every point of other months, and is in key order |
| Krx.Run | krx/app.py:83-118 | the run fails exactly on stored data that is not a list, a previous month before year 1, or a January of year 1 without a trading day. It reports NO_DATA exactly when the previous month has no trading day. Otherwise it upserts the label and the price of the month's last trading day and sorts the series |
| Reb.RowPointFacts | reb/app.py:40-51 | a row yields a point exactly when its description parses as a month and its value converts, under that month's canonical key |
| Reb.CollectMembers | reb/app.py:39-51 | the collected points are exactly the points of the rows that yield one |
| Reb.CollectEmpty | reb/app.py:39-51 | nothing is collected exactly when no row yields a point |
| Reb.TransformFacts | reb/app.py:35-54 | fewer than two sections raises. Otherwise the series holds exactly the second section's points, at most one per row, in key order |
| Reb.TransformKeysCanonical | reb/app.py:49 | every emitted key is in canonical "YYYY-MM" form |
| Reb.NormalizeDescIsReplaceChain | reb/app.py:40-45 | for every description, the character-wise normalisation equals the source's chain: delete spaces, replace '년' by '-', delete '월' |
| Reb.RunFacts | reb/app.py:67-84 | the run fails exactly when the section is missing. Nothing is uploaded exactly when no row yields a point |

## Left out

- HTTP scraping and downloads (`extract_pdf_links`, `download_pdf`), PDF text extraction, OpenAI file and batch calls, DynamoDB and S3 calls: network and storage I/O. The links on a page, a PDF's text, the batch output, the job table, the upload outcome and the stored series are parameters.
- The tiktoken token count of the issue job: a foreign tokenizer, passed as a function.
- `round(float(...), 1)` in the statistics jobs: floating point. Values are opaque strings, and the conversion is a parameter that may fail.
- JSON text: `json.loads` of a batch answer is a parameter `parse`, and request and result records are datatypes rather than serialised lines.
- Slack notifications, `lambda_handler` wrappers, `datetime.today()` and `utcnow()`: "now" is passed in.
- The KRX price lookup with its retries and `time.sleep`: an abstract lookup from a date stamp to an optional price.
- Results.Run: an `update_status` call that itself fails is not modelled, because store failures are not part of the collaborators. The batch status check of `load_batch_output` is folded into the batch output parameter.
- Krx.Run: stored items are points, so an item without an `"x"` field (a KeyError in the source) is not represented.
- Ecos.Expand: `int()` of the quarter digit accepts only ASCII digits here, whereas Python also accepts other Unicode decimal digits.
- Ecos.Run: a `DATA_VALUE` or `TIME` that is present but not a string (JSON `null` or a number) is not represented. Rows carry text or nothing.
- Reb.Transform: the same restriction on `DTA_VAL` and `WRTTIME_DESC`; and a second section that is not an object (where `.get` would raise) is not represented.
- Text.IsDigit: Python's `\d` matches every Unicode decimal digit, here only '0' to '9'. So the fullwidth '３' is a digit to the source and not to the model: the source drops the line "표 ３" (`bok/app_issue.py:36`, and `:46` where the patterns are applied) while Normalize.KeptLines keeps it, and `re.sub(r"\d+\)", " ", ...)` at `bok/app_issue.py:51` removes "３)" while Normalize.DropNoteCalls keeps it.
- Text.IsWord: Python's `\w` is every Unicode letter or digit and '_'; here it is ASCII letters and digits, '_', Latin letters up to U+024F, Hangul, CJK ideographs and Roman numerals. Greek, Cyrillic, kana, circled digits and fullwidth Latin are word characters to the source and not to the model: `normalize_text("α")` is "α" in the source, while Normalize.NormalizeText masks 'α' and returns "" (likewise 'Ж', 'あ', '①', 'Ａ'). The full Unicode category tables are not written out.
- Series.FormatYmWith: `strftime("%Y")` is taken to pad the year to four digits, which is what the published keys need for years from 1000 on. Earlier years do not occur.
- The issue job's handler (`lambda_handler` in `bok/app_issue.py`) beyond the extraction and request building it calls: its body is download, submission and notification I/O.
