# Kayak review extraction, modelled in Dafny

The application shows kayak review cards whose data comes from a language
model's completion. The only real logic is a text-to-records pipeline,
written twice, plus a small URL parser. This project models it:

- **The server route** (`app/api/kayaks/route.ts`). The `GET` handler has two
  guards: static export and a missing API key. It strips code fences and
  repairs brackets, then parses the whole text. If that fails it falls back
  to recovering `{…"id":…"reviewDate":…}` fragments, keeping those of the
  first four that parse, and rebuilding an array. It checks that the result
  is an array, filters it with `isValidKayakReview` and cuts it to four
  records. Every failure is an `{error, details}` body with status 500.
  Modules: `KayakValidator`, `Fences`, `Recovery`, `KayaksRoute`.
- **The static route** (`app/api/bikes/route.ts`). It holds the three-record
  dataset its `GET` serves. Its second `isValidKayakReview` computes fifteen
  named checks and reports the failed ones. Module: `BikesRoute`.
- **The client grid** (`app/components/KayakGrid.tsx`, `fetchKayakReviews`).
  - It takes the candidate text of the generation response and runs the
    rewrite chain on it: fences, whitespace collapse, trailing commas,
    comma insertion, quotes, final comma.
  - It then applies a truthiness filter over the parsed entries and
    coerces their spec fields.
  - Each failure ends in its own error message and details.
  - Modules: `ClientCleanup`, `KayakGrid`.
- **The video card** (`app/components/BikeReviewCard.tsx`). This is
  `extractVideoId` and the embed address. Module: `VideoId`.

Shared modules:

- `Wrappers`: `Option` and `Result`.
- `Seqs`: the subsequence relation, `filter`, `slice(0, n)`, `join`, and
  all-or-nothing map.
- `Text`: JavaScript's `\s` set, `trim`, `includes`, and decimal numerals.
- `JsValues`: the JavaScript value space.
  - `typeof`, truthiness, property reads, `?.`, `||` and object spread are
    defined over it.
  - `Number()` is defined for every value except strings and objects.

Foreign functions are parameters. `JSON.parse` and `Number()` on strings and
objects are fields of a `Host` value, so every property holds for any parser.
The upstream answer and the environment are inputs.

Three of the core's regular expressions are written twice. One version is a
left-to-right scanner that follows the engine's search order. The other is a
declarative predicate that says what a match is. Lemmas connect the two:

- `Recovery.MatchAt` with `Recovery.FragmentAt`. The greedy choice of the
  last `"id":` is stated by `Recovery.LastAnchorReported`.
- `VideoId.FirstMatch` with `VideoId.AcceptedAt`. The greedy choice of the
  last `&v=` is stated by `VideoId.WatchFormMatches`.
- `ClientCleanup.ScanTrailingCommas` with `ClientCleanup.DropTrailingCommas`.

The other rewrites are single recursive definitions. Lemmas pin down what
each does to its input:

- `Fences.FenceRemoved` and `Fences.LoneBacktickKept` for the fence pattern;
- `ClientCleanup.CollapseRun` for the whitespace collapse;
- `ClientCleanup.InsertCommaAfterRun` and `ClientCleanup.InsertCommasAfterRun`
  for comma insertion. A comma goes exactly after each closer not already
  followed by a delimiter, and nowhere else.
- `ClientCleanup.StripQuotesOfQuoted` for the quote anchors;
- `ClientCleanup.DropFinalCommaMatches` and `ClientCleanup.DropFinalComma`
  for the final-comma pattern.

`ClientCleanup.Delimited` is the property comma insertion establishes. It is
not a description of a match.

Two findings are proved about the code as written:

- `Recovery.PromptedRecordNeverRecovered`: the recovery pattern can never
  match a record of the shape the route's own prompt asks for. The nested
  `specs` object puts a `}` between `"id":` and `"reviewDate":`, and the
  pattern forbids one there.
- `KayakGrid.AccessoriesDropped`: a record the server accepts has a string
  `accessories`. The client coercion replaces any non-array with `[]`, so the
  client always shows such a record with no accessories.

Two behaviours of the code are worth stating plainly:

- **No fallback data.** When extraction fails, the server route answers
  with a status-500 `{error, details}` body and nothing else. The client
  shows an error view. The static dataset is served only by the separate
  static route.
- **`NaN` is kept.** The client stores every `Number()` result as it is.
  A field that converts to `NaN` does not remove its record, because
  nothing checks the converted values afterwards.

## Model

| member | source | states |
|---|---|---|
| KayakValidator.IsValidKayakReview | app/api/kayaks/route.ts:29-58 | The kayak route's validator. Its meaning is stated by the two lemmas below |
| KayakValidator.ValidatorAcceptsExactlyRecords | app/api/kayaks/route.ts:29-58 | The validator returns true exactly for a plain object with a number `id`, string `title`, `summary` and `reviewDate`, and a plain-object `specs` whose `material`, `type` and `accessories` are strings and whose six measures are numbers or strings |
| KayakValidator.ValidatorRejectsNonRecords | app/api/kayaks/route.ts:30-39 | Anything that is not a plain object, or whose `specs` is missing or not a plain object, is rejected |
| KayaksRoute.RepairBrackets | app/api/kayaks/route.ts:105-111 | The repaired text always ends with `]` and extends the input by at most two characters. Text ending in `{` gains exactly `}]`; text ending in `]` is unchanged; any other text gains exactly `]` |
| KayaksRoute.CleanText | app/api/kayaks/route.ts:103-111 | The text handed to the whole-text parse always ends with `]` |
| KayaksRoute.ParseStage | app/api/kayaks/route.ts:113-153 | A whole-text parse wins when it succeeds. Otherwise: no fragment gives "No valid kayak entries found"; no parsing fragment among the first four gives "No valid entries found". When recovery rebuilds an array text, the outcome is that text's parse if it parses, and otherwise the error "Failed to parse API response" with the parser's message. The rebuilt text is `[`, the survivors joined by `,`, and `]`, where the survivors are the parsing fragments among the first four, a repeated fragment counted each time. All failures are status 500 |
| KayaksRoute.Select | app/api/kayaks/route.ts:166-169 | The selection has min(4, number of valid elements) records, each a review record, forming an order-preserving subsequence of the parsed array |
| KayaksRoute.SelectTakesLeadingRecords | app/api/kayaks/route.ts:166-169 | Once a prefix holds four valid records, whatever follows it has no effect on the selection |
| KayaksRoute.SelectSkipsInvalid | app/api/kayaks/route.ts:166-169 | A prefix with no valid record has no effect on the selection |
| KayaksRoute.SelectOfRecords | app/api/kayaks/route.ts:166-169 | An array made only of review records is cut to its first four |
| KayaksRoute.Extract | app/api/kayaks/route.ts:101-194 | A parse-stage failure is passed through unchanged. A non-array gives "Invalid response format". An array with no valid element gives "No valid kayak entries found". An array with at least one valid element is served as the selection from it, which holds 1 to 4 review records. Every error is status 500 |
| KayaksRoute.HandleGet | app/api/kayaks/route.ts:82-206 | Production gives the static-export error. Otherwise a missing or empty key gives the key error. Past both guards, a thrown upstream message becomes "OpenRouter API error" with that message, or "Unknown API error" for a non-Error throw, and a completion goes through extraction. Every error is status 500. Data comes only from a completion, holds 1 to 4 records, and each passes the validator |
| KayaksRoute.ValidRecordsServed | app/api/kayaks/route.ts:166-182 | Past both guards, a completion whose parse stage gives an array with at least one valid record is served as that array's selection, 1 to 4 records |
| KayaksRoute.GuardsPrecedeQuery | app/api/kayaks/route.ts:69-96 | In production or without a key the response is an error and does not depend on the upstream answer or the parser |
| KayaksRoute.FencedArrayServed | app/api/kayaks/route.ts:103-114 | A fenced completion whose payload parses to a non-empty array of records is served as that array's first four records |
| KayaksRoute.NoBraceNoEntries | app/api/kayaks/route.ts:115-152 | A completion containing no `{` whose cleaned text does not parse always ends in "No valid kayak entries found" |
| Recovery.TryAnchors | app/api/kayaks/route.ts:117 | Backtracking over the `"id":` candidates before the next `{` reports only real matches, and reports none only when no candidate can anchor one. A reported match is anchored at a `"id":` with no later candidate in range that can anchor one, so the greedy `[^{]*` settles on the last one |
| Recovery.MatchAt | app/api/kayaks/route.ts:117 | A match reported at a position is a match of the pattern there, anchored at the last `"id":` that can anchor one; no report means no match of any length starts there |
| Recovery.LastAnchorReported | app/api/kayaks/route.ts:117 | Conversely, a match anchored at a `"id":` with no later rival is exactly the match reported at that position, ending at the first `}` after the anchor |
| Recovery.MatchesFrom | app/api/kayaks/route.ts:117 | The global matches lie inside the text, are non-empty, and are non-overlapping in text order |
| Recovery.MatchesAreFragments | app/api/kayaks/route.ts:117 | Every reported span starts with `{`, ends with `}`, has `"id":` with no `{` before it, and a later `"reviewDate":` with no `}` between `"id":` and the last character |
| Recovery.MatchesCoverEveryFragment | app/api/kayaks/route.ts:117 | No match is missed: every position where the pattern matches lies inside some reported match |
| Recovery.Fragments | app/api/kayaks/route.ts:117 | There is one fragment per reported span, in text order. The j-th fragment is the text of the j-th span, and taken on its own it is a whole match of the pattern |
| Recovery.FragmentsNeedBrace | app/api/kayaks/route.ts:117 | Text without `{` has no fragments |
| Recovery.Recover | app/api/kayaks/route.ts:117-141 | No fragment gives the no-match outcome. The none-parsed outcome happens exactly when no fragment among the first four parses. Otherwise the survivors are the 1 to 4 parsing fragments among the first four, in order and with repeats kept, and the rebuilt text is `[` + survivors joined by `,` + `]` |
| Recovery.SurvivorsAreFiltered | app/api/kayaks/route.ts:121-128 | The survivors are exactly the filter of the first four fragments by "parses": no other subsequence keeps all parsing fragments, duplicates included |
| Recovery.NestedObjectNeverMatches | app/api/kayaks/route.ts:117 | A string with a `{…}` pair strictly inside its outer braces is never a match |
| Recovery.PromptedRecordNeverRecovered | app/api/kayaks/route.ts:5-22 | A record in the prompt's shape, with a nested `specs` object, is never a fragment, whatever its field values, so recovery can never return it |
| Recovery.FlatRecordMatches | app/api/kayaks/route.ts:117 | A flat record, with no `}` after `"id":` until its closing brace, is a match |
| Fences.RemoveFences | app/components/KayakGrid.tsx:83 | Fence removal only deletes characters, and text with no backtick is left unchanged. What it deletes and keeps is stated by the lemmas below |
| Fences.KeptCharacter | app/components/KayakGrid.tsx:83 | A character is kept whenever no fence starts at it, a lone backtick included |
| Fences.LoneBacktickKept | app/components/KayakGrid.tsx:83 | A single backtick in otherwise backtick-free text, not right after a newline, begins no fence: it survives along with all the text around it |
| Fences.FenceRemoved | app/components/KayakGrid.tsx:83 | A fence after backtick-free text is deleted whole and the text before it is kept as it is. The condition on the fence's neighbours is the one under which the pattern's alternatives match it and nothing earlier |
| Fences.PrefixKept | app/components/KayakGrid.tsx:83 | A leading run with no backtick passes through unchanged, unless it ends in a newline that begins a newline-and-backticks fence |
| Fences.ClosingFenceRemoved | app/components/KayakGrid.tsx:83 | A closing fence with its preceding newline is removed from backtick-free text |
| Fences.FencedPayloadRecovered | app/api/kayaks/route.ts:103 | A payload wrapped in a json fence comes back as the trimmed payload |
| Fences.StripFences | app/components/KayakGrid.tsx:83 | The fence removal followed by `trim()`; its behaviour is given by the fence lemmas above |
| Fences.FenceAfterNewlineLeavesTag | app/components/KayakGrid.tsx:83 | For any backtick-free payload, an opening fence after a newline loses only "\n```", so the result is `json`, a newline and the payload, with trailing whitespace trimmed |
| BikesRoute.Validations | app/api/bikes/route.ts:90-106 | There are fifteen entries, named in the declaration order of the `validations` object |
| BikesRoute.Passes | app/api/bikes/route.ts:90-106 | The fifteen check results, one per name, in declaration order |
| BikesRoute.FailedNames | app/api/bikes/route.ts:109-111 | A name is listed exactly when some entry with that name fails. The list is empty exactly when every check passes |
| BikesRoute.IsValidKayakReview | app/api/bikes/route.ts:87-119 | It throws exactly on `null` and `undefined`. Otherwise it is valid exactly when no check failed, logs exactly when invalid, and lists only names of failing checks, in declaration order |
| BikesRoute.FailedAreOrderedNames | app/api/bikes/route.ts:109-111 | The failed list is a subsequence of the check names, so declaration order is kept |
| BikesRoute.FailedListIsExact | app/api/bikes/route.ts:109-111 | A name is in the failed list exactly when its check is false |
| BikesRoute.ChecksMatchValidator | app/api/bikes/route.ts:90-106 | All fifteen checks pass exactly when the kayak route's validator accepts |
| BikesRoute.ChecksDescribeRecords | app/api/bikes/route.ts:90-118 | All fifteen checks pass exactly on review records |
| BikesRoute.ValidatorsAgree | app/api/bikes/route.ts:87-119 | On every input except `null` and `undefined` the two validators give the same answer |
| BikesRoute.RecordIsValid | app/api/bikes/route.ts:9-61 | Any record of the static data's shape passes both validators with an empty failed list and no logging |
| BikesRoute.StaticDataIds | app/api/bikes/route.ts:9-65 | `GET` serves status 200 with exactly three records, whose ids are 1, 2, 3 in that order |
| BikesRoute.HandleGet | app/api/bikes/route.ts:63-65 | `GET` returns the static dataset with status 200; its contents are stated by the surrounding lemmas |
| BikesRoute.StaticDataIsValid | app/api/bikes/route.ts:9-61 | Every served record passes both validators with no failed check |
| ClientCleanup.CollapseWhitespace | app/components/KayakGrid.tsx:89 | Afterwards whitespace appears only as single spaces, never two in a row. The result is empty exactly when the input is, and starts with whitespace exactly when the input does |
| ClientCleanup.CollapseRun | app/components/KayakGrid.tsx:89 | A whole run of whitespace between visible text and what follows becomes exactly one space, and the visible text before it is kept |
| ClientCleanup.CollapsedHasNoControl | app/components/KayakGrid.tsx:89 | No newline, carriage return or tab survives |
| ClientCleanup.CollapseKeepsVisible | app/components/KayakGrid.tsx:89 | Every non-whitespace character is kept, in order, and none is added |
| ClientCleanup.CollapseIdempotent | app/components/KayakGrid.tsx:89 | Collapsed text is left unchanged |
| ClientCleanup.CollapseTwice | app/components/KayakGrid.tsx:89 | Collapsing twice equals collapsing once |
| ClientCleanup.DropTrailingCommasDeletesCommas | app/components/KayakGrid.tsx:105 | The step only deletes characters, and only commas |
| ClientCleanup.DropTrailingCommas | app/components/KayakGrid.tsx:105 | The declarative reading of the trailing-comma pattern, related to the scan by `ScanDropsDanglingCommas` |
| ClientCleanup.ScanTrailingCommas | app/components/KayakGrid.tsx:105 | The engine's match-and-resume reading of the same pattern |
| ClientCleanup.ScanDropsDanglingCommas | app/components/KayakGrid.tsx:105 | The engine's match-and-resume scan deletes exactly the commas followed by optional whitespace and `]` or `}` |
| ClientCleanup.TrailingCommasNotIdempotent | app/components/KayakGrid.tsx:105 | `,]` becomes `]` but `,,]` becomes `,]`, so the step is not idempotent |
| ClientCleanup.InsertCommaAddsOnlyCommas | app/components/KayakGrid.tsx:107-108 | Comma insertion keeps every non-comma character in order and only adds commas |
| ClientCleanup.InsertComma | app/components/KayakGrid.tsx:107-108 | One comma-insertion pass for a given closer; its properties are the rows that follow |
| ClientCleanup.InsertCommaPrefix | app/components/KayakGrid.tsx:107-108 | A run without the closer passes through the pass unchanged |
| ClientCleanup.InsertCommaAfterRun | app/components/KayakGrid.tsx:107-108 | After a closer-free run, the first closer gets exactly one comma unless what follows it, after optional whitespace, is `,`, `]` or `}`; at the end of the text it gets one too. Then the pass continues on the rest |
| ClientCleanup.FirstVisibleKept | app/components/KayakGrid.tsx:107-108 | Comma insertion never changes the first non-whitespace character |
| ClientCleanup.InsertCommaDelimits | app/components/KayakGrid.tsx:107-108 | Afterwards every closer is followed, after optional whitespace, by `,`, `]` or `}` |
| ClientCleanup.InsertCommaKeepsDelimited | app/components/KayakGrid.tsx:107-108 | Text in which every closer is already delimited is unchanged |
| ClientCleanup.InsertCommaIdempotent | app/components/KayakGrid.tsx:107-108 | Each insertion pass is idempotent |
| ClientCleanup.BracketPassKeepsBraces | app/components/KayakGrid.tsx:107-108 | The `]` pass keeps every `}` delimited |
| ClientCleanup.InsertCommas | app/components/KayakGrid.tsx:107-108 | After both passes every `}` and every `]` is delimited, and no character other than a comma was added or lost |
| ClientCleanup.InsertCommasOfPlain | app/components/KayakGrid.tsx:107-108 | Text with no `}` and no `]` is unchanged by both passes |
| ClientCleanup.InsertCommasAfterRun | app/components/KayakGrid.tsx:107-108 | After both passes, the first `}` or `]` gets exactly one comma after it when it is not followed by a delimiter, and none otherwise, and the text before it is kept |
| ClientCleanup.StripQuotes | app/components/KayakGrid.tsx:110 | At most two characters go: a leading `"` and a trailing `"`, each removed independently. The text shrinks exactly when it starts or ends with a quote, and what remains is a contiguous slice of the input |
| ClientCleanup.StripQuotesOfQuoted | app/components/KayakGrid.tsx:110 | A quoted text loses exactly its enclosing quotes. A text with a quote at only one end loses just that quote. Text that neither starts nor ends with one is unchanged |
| ClientCleanup.DropFinalComma | app/components/KayakGrid.tsx:112 | The result is the input or its whitespace-trimmed end with a final comma removed, and always a prefix of the input. It differs from the input exactly when the trimmed text is at least two characters long, ends with a comma, and has no line terminator before that comma |
| ClientCleanup.DropFinalCommaNeedsOneLine | app/components/KayakGrid.tsx:112 | A lone `","` is unchanged, since `.+` needs a character, and so is a text whose final comma follows a newline, since `.` does not cross it |
| ClientCleanup.DropFinalCommaMatches | app/components/KayakGrid.tsx:112 | A non-empty single-line run, a comma and trailing whitespace give back the run |
| ClientCleanup.DropFinalCommaOnlyAtEnd | app/components/KayakGrid.tsx:112 | Text whose last visible character is not a comma is unchanged |
| ClientCleanup.CleanContent | app/components/KayakGrid.tsx:83-112 | The client's rewrite chain in source order: fences, whitespace collapse, the heuristic fixes, trailing commas, comma insertion, quotes, final comma |
| KayakGrid.KeptEntriesAreObjects | app/components/KayakGrid.tsx:119-124 | An entry that passes the filter is a plain object whose truthy `specs` is an own field |
| KayakGrid.KeepsEntry | app/components/KayakGrid.tsx:119-124 | The client's truthiness filter over `id`, `title`, `specs` and `summary` |
| KayakGrid.CandidateText | app/components/KayakGrid.tsx:81-82 | The optional-chained read of the first candidate's first part's text |
| KayakGrid.PriceDigits | app/components/KayakGrid.tsx:135 | Only digits, `.` and `-` remain, in their original order, and every such character of the input is kept |
| KayakGrid.PriceDigitsOfDollars | app/components/KayakGrid.tsx:134-136 | A dollar amount `"$" + a + "," + b` with digit runs `a` and `b`, such as `"$1,099"`, becomes exactly `a + b` |
| KayakGrid.NumberOr | app/components/KayakGrid.tsx:130-133 | A falsy field becomes the fallback number. A truthy number is kept. A truthy string becomes its string-to-number conversion, and `true` becomes 1. An object or array converts as the host converts it, and only such a value can make the conversion throw |
| KayakGrid.CoercePrice | app/components/KayakGrid.tsx:134-136 | A string price is stripped to its numeric characters before conversion; any other price converts with fallback 0 |
| KayakGrid.CoerceSpecs | app/components/KayakGrid.tsx:127-141 | Length, width, weight and capacity default to 0, and seats to 1. Accessories become `[]` unless they are an array. Every other specs field is copied unchanged and no other key appears. A failure means one of the converted fields was an object or array |
| KayakGrid.Coerce | app/components/KayakGrid.tsx:125-142 | Every top-level field other than `specs` is copied unchanged and no key is added. `specs` becomes the coerced specs object. Coercion fails exactly when the specs coercion does |
| KayakGrid.CoercionKeepsEntry | app/components/KayakGrid.tsx:119-142 | A successfully coerced entry would pass the entry filter again |
| KayakGrid.CoerceAll | app/components/KayakGrid.tsx:125-142 | The output is exactly as long as the filtered list, element by element the coercion of it, and fails exactly when one entry's coercion fails |
| KayakGrid.AccessoriesDropped | app/components/KayakGrid.tsx:137-139 | An entry the server validator accepts has a string `accessories`, which a successful coercion always turns into `[]` |
| KayakGrid.Entries | app/components/KayakGrid.tsx:115-152 | Every failure is "Failed to parse kayak data". Success means the parse gave an array, and the result is the coercion of exactly its filtered entries. Conversely, when the parse gives an array whose filtered entries all coerce and at least one is kept, the result is that coercion |
| KayakGrid.ParseBlock | app/components/KayakGrid.tsx:85-157 | The same, both directions, stated over the cleaned completion text |
| KayakGrid.EntriesKeepAll | app/components/KayakGrid.tsx:118-145 | Unlike the server route there is no cap: a parsed array of n entries that all pass the filter and coerce gives n reviews |
| KayakGrid.NoCapOnEntries | app/components/KayakGrid.tsx:115-145 | The same, stated over the cleaned completion text |
| KayakGrid.Details | app/components/KayakGrid.tsx:165-174 | The API-key hint is given exactly when the message contains "401"; otherwise the default details |
| KayakGrid.FetchKayakReviews | app/components/KayakGrid.tsx:81-180 | A thrown message is shown as is. A non-OK status shows "Failed to fetch kayak data: " + status + newline + body. A response whose candidate text is falsy shows "Invalid API response structure" with the default details. Truthy text that is not a string shows the TypeError message of `.replace`. String text shows the parse block's records when it succeeds, and "Failed to parse kayak data" when it fails. Every error's details follow the 401 rule |
| KayakGrid.BodyView | app/components/KayakGrid.tsx:81-180 | The same cases for a response that arrived: falsy text, non-string text, and string text decided by the parse block |
| KayakGrid.NoFourNoKeyHint | app/components/KayakGrid.tsx:171-173 | A message without the digit 4 never gets the API-key hint |
| KayakGrid.ParseFailuresGetDefaultDetails | app/components/KayakGrid.tsx:148-174 | The parse failure, the structure failure and the TypeError message all come with the default details |
| KayakGrid.UnauthorizedGetsKeyHint | app/components/KayakGrid.tsx:70-75 | A 401 status is reported with the API-key hint |
| VideoId.LastAmpV | app/components/BikeReviewCard.tsx:14 | The greedy `.+` settles on the last `&v=` in range that is followed by 11 id characters, and none is missed |
| VideoId.WatchMatchAt | app/components/BikeReviewCard.tsx:14 | The `/watch?…&v=` form, when found, is a real match, and its id follows the last `&v=` on the line that has an id after it. When not found, no `&v=` on the same line is followed by an id |
| VideoId.MatchAt | app/components/BikeReviewCard.tsx:14 | The id reported at a position follows an accepted prefix there. When none of the four fixed prefixes has an id there, the id is the one after the last reachable `&v=`. No report means no prefix and id start there |
| VideoId.WatchFormMatches | app/components/BikeReviewCard.tsx:14 | Conversely, when no `watch?v=` id starts at a position, the id after the last reachable `&v=` that has one is exactly the id reported there |
| VideoId.FirstMatch | app/components/BikeReviewCard.tsx:14-15 | A result is an id accepted at the first position, at or after the start, where any id is accepted; no result means there is no accepted id anywhere after the start |
| VideoId.ExtractVideoId | app/components/BikeReviewCard.tsx:13-16 | The result is null exactly when no accepted prefix anywhere is followed by 11 characters from `[A-Za-z0-9_-]`. Otherwise it is such an 11-character id, taken from the leftmost position where the pattern matches |
| VideoId.EmbedSrc | app/components/BikeReviewCard.tsx:26-28 | The iframe is built exactly when an id was found, and its address is `https://www.youtube.com/embed/` followed by the id `extractVideoId` returned |
| VideoId.PrefixedIdExtracted | app/components/BikeReviewCard.tsx:14 | After a text without `y`, `youtu.be/`, `youtube.com/embed/`, `/v/` or `/watch?v=` followed by an id yields that id, whatever follows it, since there is no end anchor |
| VideoId.FixedPrefixMatches | app/components/BikeReviewCard.tsx:14 | At a fixed prefix followed by an id, the scan yields the 11 characters after the prefix |
| VideoId.WatchIdExtracted | app/components/BikeReviewCard.tsx:13-16 | After a text without `y`, a `watch?` address whose query does not start with `v` yields the id after its last `&v=`, even when an earlier `&v=` in the query has an id too |

## Left out

- The network clients are not modelled: `app/utils/openrouter.ts` is not part of this model, and the `fetch` at app/components/KayakGrid.tsx:29-79 is not either. The server takes the completion or a thrown message as input. The client takes the thrown message, the HTTP status and body, or the parsed JSON body.
- `JSON.parse`, `Number()` on strings, and `Number()` on objects and arrays are foreign functions. They are fields of a `Host` value, and no property depends on what they do. `Number()` on the other kinds of value is modelled exactly.
- IEEE doubles are not modelled. Numbers are exact reals plus `NaN` and the two infinities.
- The quote, title, summary, type, price, measurement and seat rewrites at app/components/KayakGrid.tsx:91-103 are lookahead heuristics. They are one uninterpreted string step, `fixes`.
- Console logging is left out. The static route's failed-check list and its "logged" flag are returned values instead.
- React state, rendering and `finally { setLoading(false) }` are left out, as is every other component and page.
- Response headers and `generateStaticParams`, a constant, are left out.
- JavaScript objects are finite maps, so property order is not modelled. Strings are sequences of characters, not UTF-16 code units.
- The server's handling of non-string completion text is left out: a `.replace` on a non-string would throw a TypeError, which the route reports as a parse error.
- KayakGrid.FetchKayakReviews: when the candidate text is truthy but not a string, the TypeError message is taken to be V8's wording, "content.replace is not a function".
- The spread of a string or array into an object (`...x`) is modelled for the index keys only. Inherited properties are not modelled.
