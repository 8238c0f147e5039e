# Car analysis backend: a Dafny model of its deterministic core

The backend (`backend/server.py`) offers two analyses of an uploaded photo.

- **White-pixel analysis.** It counts the pixels whose three channels are all above 240. It reports the count, the total and the percentage rounded to two decimals. It also classifies the percentage into one of four bands and stores a sentence naming the band.
- **Bonnet analysis.** It sends the photo to a vision language model. The model answers in a fixed six-line format (`COLOR:`, `CONDITION:`, `RECOMMENDATION:`, `ISSUES:`, `RECOMMENDATIONS:`, `DETAILED_REPORT:`), and `parse_gpt4_response` turns that reply into a record.

Both kinds of record go into one collection. That collection serves a history listing (newest first, at most 100 rows, one summary line per record) and a lookup by id that answers 404 for an unknown id.

The model is written as pure functions over immutable datatypes.

| file | module | what it holds |
|---|---|---|
| `results.dfy` | `Results` | `Option` and `Result` |
| `text.dfy` | `Text` | the Python string operations the parser uses: `split` on one character, `startswith`, `replace(label, '')` and `strip()`, with their algebra (split/join round trips, what `strip` keeps) |
| `decimal.dfy` | `Decimal` | `str(n)`, and the text Python prints for a percentage rounded to two decimals, with readers that invert them |
| `reply_parser.dfy` | `ReplyParser` | `parse_gpt4_response` as a fold over the reply's lines, with what a labelled line contributes |
| `reply_examples.dfy` | `ReplyExamples` | worked replies: the format's own six-line example and a repeated label |
| `pixels.dfy` | `PixelCounter` | the white-pixel rule, the count, the rounding to hundredths, and the bands |
| `records.dfy` | `Records` | the two record shapes, the history row, the summaries and the verdict sentence |
| `store.dfy` | `AnalysisStore` | the collection as a sequence, the history projection and the lookup by id |
| `endpoints.dfy` | `Service` | the four request handlers: the two analyses map the store to the new store and a response; the history and detail requests read the store and give a response |

Percentages are kept as whole hundredths (`1234` is 12.34 %). Timestamps are integers.

## Model

| member | source | states |
|---|---|---|
| Text.StripUnique | backend/server.py:172 | `strip()` of whitespace, then trimmed text, then whitespace gives exactly that trimmed text |
| Text.StripFrame | backend/server.py:172 | `strip()` only removes whitespace from the two ends: the input is whitespace + result + whitespace |
| Text.StripKeepsOut | backend/server.py:179 | `strip()` never introduces a character, so a piece without the pipe character still has none after stripping |
| Text.RemoveAllAbsent | backend/server.py:172 | `replace(label, '')` leaves a line without the label unchanged |
| Text.RemoveAllBeforePattern | backend/server.py:172 | `replace` keeps text free of the pattern up to the first occurrence, drops that occurrence and continues after it, for a pattern whose last character appears nowhere else in it |
| Text.RemoveAllEverywhere | backend/server.py:172 | for such a pattern, text made of pattern-free pieces with the pattern between them loses every occurrence and keeps every piece, in order |
| Text.JoinNoOccurrence | backend/server.py:177-182 | joining pieces free of a pattern with a separator the pattern lacks creates no occurrence of the pattern |
| Text.RemoveAllSkips | backend/server.py:172 | `replace` keeps text that cannot start the label and continues after it |
| Text.Split | backend/server.py:160 | `split` yields at least one piece and no piece holds the separator |
| Text.JoinSplit | backend/server.py:160 | joining the pieces of a split with the separator gives back the text |
| Text.SplitJoin | backend/server.py:160 | splitting a join of separator-free pieces gives back the pieces |
| Text.SplitLastPiece | backend/server.py:160 | a further separator and a separator-free line add exactly one piece at the end |
| Decimal.NatTextRoundTrip | backend/server.py:295 | the numeral of a natural number reads back as that number |
| Decimal.PercentTextRoundTrip | backend/server.py:295 | the printed percentage (`12.3`, `12.34`, `100.0`) reads back as its hundredths |
| Decimal.PercentTextInjective | backend/server.py:295 | two different percentages never print the same |
| ReplyParser.Get | backend/server.py:161-168 | a field holds a list exactly when it is `issues` or `recommendations` |
| ReplyParser.KeepNonBlank | backend/server.py:179 | the kept pieces are non-empty, trimmed and free of the pipe character, and there are no more of them than pieces |
| ReplyParser.SplitItems | backend/server.py:178-179 | every item of a list value is non-empty, trimmed and free of the pipe character |
| ReplyParser.LabelOf | backend/server.py:170-184 | the field found begins the line with its label, and no field is found only when no label begins the line |
| ReplyParser.LabelsPrefixFree | backend/server.py:171-183 | no line can begin with two different labels, so the `elif` order never matters (`RECOMMENDATION:` does not catch `RECOMMENDATIONS:`) |
| ReplyParser.LabelOfExact | backend/server.py:170-184 | a line is read as field `f` exactly when it begins with `f`'s label |
| ReplyParser.UnlabelledLines | backend/server.py:171-183 | a line beginning with whitespace or a lower-case letter carries no label |
| ReplyParser.Set | backend/server.py:172-184 | an assignment sets one field and leaves the other five alone |
| ReplyParser.Step | backend/server.py:170-184 | a labelled line overwrites its own field with its extracted value and nothing else; an unlabelled line changes nothing |
| ReplyParser.ReadLines | backend/server.py:170-184 | the line loop keeps the list fields well formed |
| ReplyParser.Parse | backend/server.py:157-186 | the parser is total and its `issues` and `recommendations` are lists of well-formed items |
| ReplyParser.StepKeeps | backend/server.py:170-184 | a line without `f`'s label leaves `f` as it was |
| ReplyParser.StepSets | backend/server.py:170-184 | a line with `f`'s label sets `f` to that line's value |
| ReplyParser.ReadLinesKeeps | backend/server.py:170-184 | if no line carries `f`'s label, `f` keeps its value from before the loop |
| ReplyParser.ReadLinesLastWins | backend/server.py:170-184 | a field takes its value from the last line carrying its label |
| ReplyParser.ParseUnlabelledField | backend/server.py:160-168 | a field whose label begins no line keeps its default: "Unknown", no items, or the whole reply for the report |
| ReplyParser.ParseLastLabelledLine | backend/server.py:170-184 | the parsed field is the value of the last reply line carrying its label |
| ReplyParser.NoLabelsGivesDefaults | backend/server.py:160-168 | a reply with no labelled line parses to three "Unknown"s, two empty lists and the whole reply as the report |
| ReplyParser.LabelledOnceRearranged | backend/server.py:170-184 | after the lines are rearranged, a label carried by one line is still carried by exactly one line, the same one |
| ReplyParser.LineOrderIrrelevant | backend/server.py:157-186 | when each of the six labels begins exactly one line, any reordering of the lines parses to the same report |
| ReplyParser.KeepNonBlankStripwise | backend/server.py:179 | pieces with equal stripped forms give the same items |
| ReplyParser.SplitItemsIgnoresStrip | backend/server.py:178-179 | stripping the list value before splitting it changes no item |
| ReplyParser.ItemsRoundTrip | backend/server.py:177-182 | items that are non-empty, trimmed and free of the pipe character, joined with spaced pipes, split back into the same items, in order |
| ReplyParser.ScalarLineReadsBack | backend/server.py:171-176 | `LABEL: text` reads back as `text` when the text is trimmed and does not contain the label |
| ReplyParser.LabelRemovedEverywhere | backend/server.py:171-176 | a line made of label-free pieces with the label between them reads back as the pieces run together, stripped: every occurrence of the label is dropped, not only the first |
| ReplyParser.RenderedItemsNoLabel | backend/server.py:177-182 | items that do not contain the list's label still do not contain it once joined with spaced pipes |
| ReplyParser.ItemsLineReadsBack | backend/server.py:177-182 | a list label followed by items joined with pipes reads back as those items, whenever each item is non-empty, trimmed, free of the pipe character and of line breaks, and does not contain the label |
| ReplyParser.RenderedLineReadsBack | backend/server.py:170-184 | a field written as its labelled line reads back as the same value, whenever the value has no line break and does not contain its own label, a text value is trimmed, and list items are non-empty, trimmed and free of the pipe character |
| ReplyParser.FieldFromItsLine | backend/server.py:170-184 | in a reply with one line per field, in format order, each field is read from its own line |
| ReplyParser.ParseOneLinePerField | backend/server.py:157-186 | in such a reply, every field is read from its own line |
| ReplyParser.ParseRenderedReply | backend/server.py:157-186 | a report written out in the six-line format parses back to the same report, whenever no value has a line break or contains its own label, every text value is trimmed, and every list item is non-empty, trimmed and free of the pipe character |
| ReplyExamples.RepeatedLabelIsRemovedEverywhere | backend/server.py:172 | `COLOR: red COLOR: blue` gives the colour `red  blue` |
| ReplyExamples.RepeatedLabelValue | backend/server.py:172 | `LABEL: x LABEL: y` gives `x  y` for non-empty, trimmed, colon-free `x` and `y`: both labels are removed |
| ReplyExamples.RepeatedLabelAfterCapital | backend/server.py:172 | `COLOR: Cyan COLOR: blue` gives the colour `Cyan  blue`, a value whose capital starts a label too |
| ReplyExamples.PlainValue | backend/server.py:172 | `LABEL: value` gives `value` when the value is trimmed and does not contain the label's first letter |
| ReplyExamples.TwoItems | backend/server.py:179 | two non-empty, trimmed, pipe-free items around a spaced pipe give the two items |
| ReplyExamples.FormatExample | backend/server.py:157-186 | the six-line example reply parses to Red, Good, Wash, ["scratch", "dent"], ["polish"], "fine" |
| PixelCounter.WhiteCount | backend/server.py:92 | the white count is at most the number of pixels |
| PixelCounter.AllCountedIffAllWhite | backend/server.py:92 | every pixel is counted exactly when every pixel is white |
| PixelCounter.NoneCountedIffNoneWhite | backend/server.py:92 | no pixel is counted exactly when no pixel is white |
| PixelCounter.WhiteCountIsPositions | backend/server.py:92 | the count is the number of positions holding a white pixel |
| PixelCounter.WhiteCountAppend | backend/server.py:92 | the count of two pieces of an image is the sum of their counts |
| PixelCounter.WhiteCountPermutation | backend/server.py:88-92 | the count does not depend on the order of the pixels |
| PixelCounter.CountWhitePixels | backend/server.py:92 | the counting loop returns the number of white positions |
| PixelCounter.ThresholdIsStrict | backend/server.py:92 | a pixel with any channel equal to 240 is not white |
| PixelCounter.RoundHalfEven | backend/server.py:99 | the rounded value is within half a unit of the exact quotient, and an exact half goes to the even neighbour |
| PixelCounter.RoundingUnique | backend/server.py:99 | the rounded value is the only number with that property |
| PixelCounter.RoundingMonotone | backend/server.py:99 | rounding never reverses the order of two quotients |
| PixelCounter.Percentage | backend/server.py:94-99 | the percentage lies between 0 and 100.00, is 100.00 for an all-white image and 0 for an image with no white |
| PixelCounter.PercentageMonotone | backend/server.py:94-99 | more white pixels never give a lower percentage |
| PixelCounter.Measure | backend/server.py:88-103 | an image with no pixels is an error; otherwise the total is the pixel count, the white count at most the total, the percentage at most 100.00 |
| PixelCounter.MeasureCountsWhite | backend/server.py:88-99 | the measured white count is the number of white positions, and the percentage is their share rounded to hundredths |
| PixelCounter.AllWhiteImage | backend/server.py:88-99 | an all-white image measures as all pixels white and 100.00 % |
| PixelCounter.NoWhiteImage | backend/server.py:88-99 | an image without white pixels measures as 0 white and 0.00 % |
| PixelCounter.WhiteSquare | backend/server.py:88-99 | a 50 × 50 image of (255, 255, 255) gives 2500 of 2500 and 100 %, in the High band |
| PixelCounter.GreyImage | backend/server.py:88-99 | a 200 × 150 image of (128, 128, 128) gives 0 of 30000 and 0 %, in the Minimal band |
| PixelCounter.ThresholdImage | backend/server.py:88-99 | of (240,240,240), (241,241,241), (255,240,255) and (241,255,241) only the two without a 240 count, giving 50.00 %, which falls in the Moderate band |
| PixelCounter.Classify | backend/server.py:217-225 | the band chosen is one whose floor the percentage exceeds, and the percentage exceeds the floor of no higher band |
| PixelCounter.BandsPartition | backend/server.py:217-225 | each percentage falls in exactly one band, the one whose open-closed range holds it |
| PixelCounter.ThresholdsAreStrict | backend/server.py:218-225 | exactly 50, 20 and 5 fall into the lower band, and one hundredth more into the higher one |
| PixelCounter.ClassifyMonotone | backend/server.py:217-225 | a higher percentage never gets a lower band |
| Records.AnalysisType | backend/server.py:44-69 | the `analysis_type` tag is `white_pixel` exactly for white-pixel records and `bonnet` exactly for bonnet records |
| Records.Summary | backend/server.py:294-297 | a white-pixel summary starts with `White Pixels: ` and ends with `%` |
| Records.SummaryRevealsType | backend/server.py:294-297 | a summary starts with `White Pixels: ` exactly when it describes a white-pixel record |
| Records.WhiteSummaryReadsBack | backend/server.py:295 | the stored percentage can be read back from a white-pixel summary |
| Records.BonnetSummaryFields | backend/server.py:297 | when the colour, condition and verdict contain no pipe character, a bonnet summary splits on the pipe character into exactly those three parts |
| Records.ResultText | backend/server.py:217-225 | the verdict sentence opens with the name of the band the percentage falls in |
| Records.SameSentenceSameBand | backend/server.py:217-225 | equal verdict sentences name the same band |
| Records.ResultTextInjective | backend/server.py:217-225 | different percentages never share a verdict sentence |
| AnalysisStore.InsertByTime | backend/server.py:286 | inserting into a newest-first sequence keeps it newest first, adds exactly the new record, and starts with either the new record or the old first record |
| AnalysisStore.InsertByTimePlacement | backend/server.py:286 | the new record goes in right after the records strictly newer than it, so ahead of every record with an equal or older timestamp, and the others keep their order |
| AnalysisStore.SortNewestFirst | backend/server.py:286 | the sorted records are newest first and are a permutation of the store |
| AnalysisStore.Shown | backend/server.py:286 | the history shows min(n, 100) records newest first, drawn from the store without repetition (a sub-multiset of the store) |
| AnalysisStore.ShownAreNewest | backend/server.py:286 | a stored record left out of the history is no newer than any record shown |
| AnalysisStore.History | backend/server.py:286-305 | min(n, 100) rows, timestamps never increasing, and row i is the row of the i-th shown record, so distinct stored records give the rows |
| AnalysisStore.HistoryRowsMatchTheirType | backend/server.py:294-297 | each row's summary has the `White Pixels:` form exactly when its tag is `white_pixel` |
| AnalysisStore.HistoryKeepsNewest | backend/server.py:286 | a stored record strictly newer than the last row shown is listed, and with at most 100 records every stored record is listed |
| AnalysisStore.NewestHeadsHistory | backend/server.py:286 | a record added to the store, strictly newer than every record already there, heads the history |
| AnalysisStore.FindById | backend/server.py:318 | the lookup fails exactly when no record has the id; otherwise it gives the first record stored with that id |
| AnalysisStore.FindAfterInsert | backend/server.py:318-321 | storing a record changes no earlier answer, and a fresh id finds the new record |
| Service.AnalyzeWhitePixels | backend/server.py:206-245 | an unreadable or empty image answers 500 and stores nothing; otherwise the one record appended and returned has the given id, name and time, the pixel total, the number of white positions, their share within half a hundredth, and the verdict sentence of that share, which opens with the name of its band |
| Service.AnalyzeBonnet | backend/server.py:248-278 | a failed model call answers 500 and stores nothing; otherwise the one record appended and returned has the given id, name and time and each of the six fields the parser read from the reply, with well-formed lists |
| Service.GetDetail | backend/server.py:314-321 | 404 exactly when no stored record has the id, otherwise a stored record with that id |
| Service.GetHistory | backend/server.py:281-307 | the history request always succeeds with at most 100 rows |
| Service.AnalysisCanBeFetched | backend/server.py:318-321 | a white-pixel analysis stored under a fresh id is what the detail request returns for that id |
| Service.BonnetCanBeFetched | backend/server.py:318-321 | a bonnet analysis stored under a fresh id can be fetched by it, and every other id answers as before |
| Service.LatestAnalysisListedFirst | backend/server.py:286 | a white-pixel analysis made after everything stored is the first history row |
| Service.LatestBonnetListedFirst | backend/server.py:286 | a bonnet analysis made after everything stored is the first history row |

## Left out

- Image decoding (`Image.open`, `convert('RGB')`, lines 85-86) is a foreign library. The model starts from decoded RGB pixels. A file that cannot be decoded is the `None` input of `Service.AnalyzeWhitePixels`.
- PixelCounter.Percentage: the percentage is rounded on the exact value `10000 * white / total`, with ties to even, and kept as whole hundredths. The source computes in IEEE doubles and rounds with `round(x, 2)`. The two can differ in the last digit when the double is not exact. Floating-point arithmetic is not modelled.
- Decimal.PercentTextRoundTrip: models the text Python prints for a double holding a value with at most two decimals between 0 and 100. Other doubles are not modelled.
- The vision-model call (`analyze_bonnet_with_gpt4`, lines 106-154) is a network service: its reply, or its failure, is a parameter of `Service.AnalyzeBonnet`.
- ReplyParser.Fallback: the record returned by the parser's exception handler (lines 188-197) is defined but never produced. On text input, `split`, `startswith`, `replace` and `strip` raise nothing, so `Parse` is total.
- MongoDB, FastAPI routing, CORS, logging and the error `detail` strings are left out. The store is an in-memory sequence, and a response is a body or an HTTP status.
- Record ids (`uuid4`) and creation times (`datetime.now`) are parameters of the handlers.
- Timestamps are integers. The source stores ISO-8601 strings and sorts them as text; that agrees with time order for timestamps in one time zone and one format, and that string order is not modelled.
- AnalysisStore.SortNewestFirst: records with equal timestamps keep their insertion order. The database leaves that order unspecified.
- AnalysisStore.FindById: gives the first stored record with the id. The database's `find_one` promises no particular record among several with one id; with `uuid4` ids that case does not arise.
- Service.GetHistory: its own contract states only the cap; the ordering and the row contents are stated on `AnalysisStore.History`. The 500 answer for a database failure is not modelled.
- The `GET /` greeting, the frontend and the endpoint test scripts are not part of this model.
