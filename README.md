# event_db core in Dafny

event_db receives e-mail events over an HTTP API and stores them. It also shows them in a web interface. This project models the parts of that service that make decisions.

- **API side (`internal/api/handler.go`):**
  - the bearer-token check of `AuthMiddleware`;
  - the part of `HandleEventReceive` that turns an incoming message into the event to store. That covers the tags taken from the subject line, the choice of body, `extractSimpleContent`, and the fall-back to `utils.ExtractPlain`.
- **Helpers (`internal/utils/utils.go`):**
  - the URL, e-mail and role checks;
  - `cleanMessageContent`;
  - `ExtractPlain`, including its multipart part selection.
- **Web handlers (`internal/web/handlers.go`):**
  - the dashboard statistics;
  - the event list, with its query choice, source filter and pagination;
  - the event view, with its ID parsing, error statuses and related-events search;
  - the validation and tag parsing of the event forms;
  - the template functions `seq`, `contains` and `slice`;
  - the flash-message cookie.
- **The store (`internal/auth/auth.go`):** the in-memory user and session store, a class `AuthStore.Auth` whose two maps the methods update.

Go's string library and `strconv` are modelled in their own modules, `Text` and `Strconv`. They are ASCII-only and treat every `char` as one byte. Integers are unbounded, except where the model writes out 64-bit behaviour: `Strconv.Wrap64`, the clamping in `ParseInt`, and the as-written pagination.

Each module lives in its own file:

| File | Module |
|---|---|
| `results.dfy` | `Results` |
| `text.dfy` | `Text` |
| `strconv.dfy` | `Strconv` |
| `events.dfy` | `Events` |
| `utils.dfy` | `Utils` |
| `api.dfy` | `Api` |
| `paging.dfy` | `Paging` |
| `events_list.dfy` | `EventsList` |
| `related.dfy` | `RelatedEvents` |
| `dashboard.dfy` | `Dashboard` |
| `templates.dfy` | `TemplateFuncs` |
| `flash.dfy` | `Flash` |
| `forms.dfy` | `Forms` |
| `auth.dfy` | `AuthStore` |

Code that works in loops is modelled as methods with loops. These methods are proved equal to a specification function, and the properties are then proved as lemmas about those functions:

- `ExtractSimpleContent`
- `CleanMessageContent`
- `ExtractPlain`
- `FilterBySource`
- `FindRelated`
- `CountTags`
- the lowering loop `LowerEach`, which works in place on an array

These loop methods state their result directly in their postconditions instead:

- `TemplateFuncs.Seq` and `TemplateFuncs.Contains`
- `RelatedEvents.IsListed`
- `Dashboard.PopularTags`
- `AuthStore.Auth.GetUserByID`

The `Event` record comes from `internal/models/event.go`, which is not part of this model. `Events.Event` carries the fields the handlers read: ID, tags, data, source and creation time.

## Model

| member | source | states |
|---|---|---|
| Api.PresentedToken | internal/api/handler.go:63-65 | "Bearer " is stripped exactly when the header starts with it and is longer than it; otherwise the header is the token |
| Api.CheckAuthorization | internal/api/handler.go:52-77 | an empty header is refused as missing; a request is authorized iff the header is non-empty and the presented token equals the configured one |
| Api.BearerHeaderAccepted | internal/api/handler.go:63-72 | "Bearer <token>" is accepted for every non-empty configured token |
| Api.RawTokenAccepted | internal/api/handler.go:55-72 | the bare token is accepted iff it is non-empty and is not itself a longer "Bearer "-prefixed string |
| Api.EmptyConfiguredTokenRejectsAll | internal/api/handler.go:55-72 | with an empty configured token no header is authorized |
| Api.SubjectTags | internal/api/handler.go:127-134 | at least one tag; every tag is a lower-case whitespace-free non-empty field; a blank subject gives exactly ["untagged"] |
| Api.ExtractTags | internal/api/handler.go:127-134 | the field split, the "untagged" default and the in-place lowering loop produce SubjectTags(subject) |
| Api.SelectBody | internal/api/handler.go:140-147 | plain_body is used only when body is empty and plain_body is not; the result is empty iff both are |
| Api.ExtractSimpleContent | internal/api/handler.go:255-289 | the line loop with its inContent flag computes SimpleContent and returns a trimmed string |
| Api.CollectWithoutBlank | internal/api/handler.go:263-281 | without a blank line no line is collected |
| Api.CollectUpToBoundary | internal/api/handler.go:272-280 | inside the content, lines are collected up to but not including the first "--" line |
| Api.CollectSkipsHeaders | internal/api/handler.go:266-270 | the lines before the first blank line and that blank line are skipped |
| Api.SimpleContentWithoutBlankLine | internal/api/handler.go:255-289 | a body with no blank line yields "" |
| Api.CollectWindow | internal/api/handler.go:263-281 | the collected lines are exactly those strictly between the first blank line and the next boundary line |
| Api.SimpleContentWindow | internal/api/handler.go:255-289 | the result is the trimmed join of the lines strictly between the first blank line and the next boundary line |
| Api.CollectIsRun | internal/api/handler.go:263-281 | the collected lines always form one contiguous run of the input lines |
| Api.SimpleContentIsTrimmedSubstring | internal/api/handler.go:255-289 | the result has no surrounding white space and is a substring of the body |
| Api.ReceiveEvent | internal/api/handler.go:126-189 | the stored event has the subject's tags, the source, and the simple content, else ExtractPlain's text, else the raw body |
| Api.StoredDataPrefersSimpleContent | internal/api/handler.go:151-171 | when the simple extraction yields text, the multipart reader and HTML converter have no influence on what is stored |
| Api.StoredDataOfPlainBody | internal/api/handler.go:173-181 | a single-paragraph body that does not start with "--" is stored trimmed |
| Utils.ValidateEndpointURL | internal/utils/utils.go:71-73 | true iff the URL starts with "http://" or "https://" |
| Utils.SanitizeEmail | internal/utils/utils.go:76-78 | the result is trimmed and lower-case, and it is the lower-cased run of the input that has only white space before and after it |
| Utils.LoweredTrimIsMiddle | internal/utils/utils.go:76-78 | the lower-cased trim of an address is character by character the lower-cased middle of the address between two white-space margins |
| Utils.SanitizeEmailIdempotent | internal/utils/utils.go:76-78 | sanitizing twice is sanitizing once |
| Utils.IsValidRole | internal/utils/utils.go:81-83 | true iff the role is "admin" or "user" |
| Utils.DropSignatureLines | internal/utils/utils.go:102-108 | a line is kept iff it is an input line without "Sent from my iPhone" |
| Utils.DropSignatureLinesAppend | internal/utils/utils.go:102-108 | filtering distributes over concatenation, so the kept lines stay in input order |
| Utils.CleanMessageContent | internal/utils/utils.go:86-118 | the decode, filter, join and trim loop computes CleanedContent |
| Utils.CleanedHasNoSignature | internal/utils/utils.go:99-111 | the cleaned content contains no "Sent from my iPhone" at all |
| Utils.CleanedTrailer | internal/utils/utils.go:111-114 | the result is the joined kept lines minus a trailing run of "\r\n \t=" characters, and it does not end in one |
| Utils.QuotedPrintableOnlyOnSoftBreaks | internal/utils/utils.go:90-96 | decoding happens iff the content holds "=\r\n" or "=\n"; otherwise the decoder has no influence |
| Utils.LowerKeepsMarker | internal/utils/utils.go:90 | lower-casing neither creates nor destroys a soft line break |
| Utils.LastBodyOfIsLast | internal/utils/utils.go:156-163 | the body kept for a content type is the body of the last part of that type |
| Utils.LastBodyOfNone | internal/utils/utils.go:156-163 | no part of the type means no body kept |
| Utils.BoundaryRestoresFirstLine | internal/utils/utils.go:136-142 | "--" followed by the derived boundary gives back the trimmed first line |
| Utils.ExtractPlain | internal/utils/utils.go:126-178 | the part loop computes PlainOf |
| Utils.PlainOfNonMultipart | internal/utils/utils.go:127-139 | a body that does not start with "--", or has no newline, is returned trimmed |
| Utils.PlainOfPrefersLastPlainPart | internal/utils/utils.go:146-167 | with a non-empty last text/plain part, its trimmed body is the result |
| Utils.PlainOfWithoutPlainPart | internal/utils/utils.go:166-177 | without a plain part, the converted last HTML part is the result, or "" when neither part exists |
| Utils.PlainOfReaderFailure | internal/utils/utils.go:152-155 | a reader error falls back to the trimmed body |
| Utils.PlainOfErrors | internal/utils/utils.go:169-173 | the only error returned is the HTML converter's |
| Text.TrimSpace | internal/utils/utils.go:127 | the result has no white space at either end and is no longer than the input |
| Text.TrimSpaceIsSubstring | internal/utils/utils.go:127 | the trimmed string is a substring of the input |
| Text.TrimSpaceOfTrimmed | internal/utils/utils.go:77 | trimming a trimmed string changes nothing |
| Text.TrimSpaceKeepsHead | internal/utils/utils.go:140-142 | a non-space prefix survives trimming |
| Text.ToLowerProperties | internal/utils/utils.go:77 | lower-casing yields lower case, is idempotent and keeps white space where it was |
| Text.IndexOf | internal/utils/utils.go:136 | the result is -1 or the first position where the pattern occurs |
| Text.Contains | internal/utils/utils.go:104 | true iff the pattern is a substring |
| Text.TrimPrefix | internal/utils/utils.go:140-142 | prefix + result == input when the prefix is present; otherwise the input is returned |
| Text.Split | internal/utils/utils.go:99 | at least one part, and no part contains the separator |
| Text.JoinSplit | internal/utils/utils.go:99-111 | joining the split parts with the separator gives back the string |
| Text.SplitJoin | internal/web/handlers.go:625-647 | splitting a join at a one-character separator that no part contains gives back the parts |
| Text.JoinSliceIsSubstring | internal/api/handler.go:284-288 | the join of a run of parts is a substring of the join of all parts |
| Text.JoinAvoidsWord | internal/utils/utils.go:111 | joining parts that avoid a word, with a separator sharing no character with it, avoids the word |
| Text.TrimRightSet | internal/utils/utils.go:114 | the result is a prefix that does not end in the cut set, and everything removed is in it |
| Text.Fields | internal/api/handler.go:127 | every field is non-empty and free of white space; there are no fields iff the string is all white space |
| Text.FieldsSkipsSpace | internal/api/handler.go:127 | leading white space contributes no field |
| Text.FieldsTakesWord | internal/api/handler.go:127 | a word followed by white space or by the end is taken whole as the first field; with FieldsSkipsSpace and Fields("") == [] this determines Fields completely |
| Text.FieldsOfSpacedWord | internal/api/handler.go:127 | a field, a space and a rest split into that field followed by the fields of the rest |
| Text.FieldsOfJoin | internal/web/handlers.go:427 | splitting the single-space join of any list of fields gives back that list, in order |
| Text.FieldsKeepNonSpace | internal/web/handlers.go:427 | the fields, concatenated, are exactly the non-space characters of the input in their original order |
| Text.LowerEach | internal/api/handler.go:132-134 | the in-place loop lowers every element of the array |
| Text.LowerFields | internal/web/handlers.go:427-430 | the tags are the lowered fields, each a lower-case field; none iff the input is blank |
| Strconv.Wrap64 | internal/web/handlers.go:281-282 | the result is an int64 congruent to the input modulo 2^64, and the input itself when it fits |
| Strconv.ParseUint | internal/web/handlers.go:328 | the value is at most 2^64-1, and 0 on a syntax error |
| Strconv.ParseInt | internal/web/handlers.go:328-332 | the value is an int64; 0 on a syntax error; clamped to the int64 bound on a range error |
| Strconv.ScanDigits | internal/web/handlers.go:328 | scanning the decimal numeral of n gives n, or overflow above 2^64-1 |
| Strconv.ParseFormatInt | internal/web/handlers.go:328 | parsing the decimal numeral of an int64 gives it back without error |
| Strconv.ParseIntClampsLarge | internal/web/handlers.go:243 | a numeral above the int64 range parses to the largest int64 |
| Paging.ParsePage | internal/web/handlers.go:243-246 | the page is between 1 and the largest int64; malformed input gives 1; a parsed value below 1 gives 1; a positive parse is kept |
| Paging.ParsePageOfNumeral | internal/web/handlers.go:243-246 | the numeral of any valid page parses back to it |
| Paging.TotalPages | internal/web/handlers.go:279 | the smallest page count whose pages hold all items |
| Paging.Paginate | internal/web/handlers.go:278-291 | at most 20 events; non-empty iff the page is within TotalPages; the events shown start at (page-1)*20 |
| Paging.FirstPagesIsPrefix | internal/web/handlers.go:278-291 | the first k pages, concatenated, are a prefix of the list |
| Paging.PagesCoverEvents | internal/web/handlers.go:278-291 | pages 1..TotalPages, concatenated, are exactly the list |
| Paging.PaginateAsWritten | internal/web/handlers.go:278-291 | with int64 wrap-around, when the slice expression does not panic it yields at most 20 events |
| Paging.PaginateAsWrittenAgrees | internal/web/handlers.go:278-291 | while page*20 fits in int64, the code as written shows the same events as Paginate |
| Paging.PaginateAsWrittenPanics | internal/web/handlers.go:243-291 | ?page=9223372036854775807 parses to the largest int64, and slicing then panics for every list |
| Paging.LastPageStartWraps | internal/web/handlers.go:281-282 | for that page, start wraps to -40 and end to -20 |
| Paging.PaginateAsWrittenWrapsToFirstPage | internal/web/handlers.go:243-291 | ?page=4611686018427387905 (2^62+1) parses to itself; the code as written then shows the first min(20, n) events, where the corrected pagination shows none |
| Paging.StartWrappedToZero | internal/web/handlers.go:281-288 | a page whose int64 start index wraps to 0 shows the first min(20, n) events |
| Paging.PastLastPage | internal/web/handlers.go:278-291 | no list with at most 2^63-1 events has page 2^62+1, so the corrected pagination shows nothing there |
| Paging.FirstPageStartWraps | internal/web/handlers.go:281-282 | for page 2^62+1, start wraps to 0 and end is 20 |
| EventsList.ChooseQuery | internal/web/handlers.go:253-259 | fetch by date iff there is no tag and a date is given; otherwise fetch by tag, with the empty tag when neither is given (the handler means that as all events) |
| EventsList.FilterSourceMembers | internal/web/handlers.go:267-275 | an event survives iff its lower-cased source contains the lower-cased filter |
| EventsList.FilterSourceAppend | internal/web/handlers.go:267-275 | filtering distributes over concatenation, so order is kept |
| EventsList.FilterSourceEmpty | internal/web/handlers.go:267 | an empty filter keeps every event |
| EventsList.FilterSourceIdempotent | internal/web/handlers.go:267-275 | filtering twice is filtering once |
| EventsList.FilterBySource | internal/web/handlers.go:267-275 | the append loop computes FilterSource |
| EventsList.HandleEventsList | internal/web/handlers.go:234-319 | status 500 iff the fetch fails; a panic iff the int64 slicing of the filtered list panics; a listed page iff the fetch succeeds and the slicing does not panic, and then the page PaginateAsWritten computes, which equals Paginate whenever page*20 fits in int64, with the totals |
| RelatedEvents.AddRelatedAppend | internal/web/handlers.go:355-377 | adding two batches is adding their concatenation |
| RelatedEvents.AddRelatedBounded | internal/web/handlers.go:373-376 | never more than five related events |
| RelatedEvents.GatherIsOnePass | internal/web/handlers.go:347-383 | the per-tag loop with its breaks equals one pass over all fetched events, in order |
| RelatedEvents.AddRelatedProperties | internal/web/handlers.go:354-377 | the list grows by appending only, never holds the event itself or a repeated ID, holds only candidates, and while below five lists every candidate's ID |
| RelatedEvents.RelatedAtMostFive | internal/web/handlers.go:373-382 | at most five related events |
| RelatedEvents.RelatedProperties | internal/web/handlers.go:347-383 | no self, distinct IDs, only events fetched for the event's tags, and every fetched ID when fewer than five |
| RelatedEvents.RelatedIsFirstDiscovery | internal/web/handlers.go:347-383 | the related events are the first min(5, n) of the n first occurrences of IDs other than the viewed one, in the order the tag fetches return them |
| RelatedEvents.DiscoveriesMembers | internal/web/handlers.go:354-377 | an event is a first occurrence iff some position holds it, its ID is not the viewed one, and no earlier position has its ID |
| RelatedEvents.DiscoveriesIds | internal/web/handlers.go:354-377 | every ID other than the viewed one that the fetches return appears among the first occurrences, and no other ID does |
| RelatedEvents.OnePassTakesDiscoveries | internal/web/handlers.go:354-377 | the inner loop, started empty, lists exactly the first five (or fewer) first occurrences |
| RelatedEvents.StreamMembers | internal/web/handlers.go:348-352 | an event is a candidate iff some tag whose fetch succeeded returned it |
| RelatedEvents.IsListed | internal/web/handlers.go:360-367 | true iff an event with that ID is already listed |
| RelatedEvents.FindRelated | internal/web/handlers.go:347-383 | the nested loops compute Related(event, fetch) |
| RelatedEvents.HandleEventView | internal/web/handlers.go:322-391 | 400 on a bad ID, 500 on a fetch error, 404 on a missing event; otherwise the event and its related events |
| Dashboard.Recent | internal/web/handlers.go:197-200 | the first min(5, n) events |
| Dashboard.TagSet | internal/web/handlers.go:205 | a tag is in the set iff it is in the list |
| Dashboard.AllTagsMembers | internal/web/handlers.go:203-208 | a tag is counted iff some event carries it |
| Dashboard.AddTagsCounts | internal/web/handlers.go:205-207 | bumping a tag list adds each tag's multiplicity and no other key |
| Dashboard.TagCountsCorrect | internal/web/handlers.go:203-208 | the map's keys are the distinct tags, and each count is the tag's number of occurrences |
| Dashboard.TagCountsPositive | internal/web/handlers.go:203-208 | every count is at least 1 |
| Dashboard.AllTagsOccur | internal/web/handlers.go:203-208 | every distinct tag occurs at least once |
| Dashboard.CountTags | internal/web/handlers.go:203-208 | the nested loops compute TagCounts |
| Dashboard.PopularTags | internal/web/handlers.go:210-217 | min(10, number of keys) distinct tags, all of them keys of the map |
| Dashboard.HandleDashboard | internal/web/handlers.go:183-231 | 500 iff the fetch fails and success iff it succeeds; then the recent events, the distinct tag count, and up to ten distinct popular tags drawn from them |
| TemplateFuncs.Seq | internal/web/handlers.go:66-72 | the integers start..end in order; empty when start > end |
| TemplateFuncs.Contains | internal/web/handlers.go:73-80 | true iff the element is in the list |
| TemplateFuncs.Slice | internal/web/handlers.go:84-92 | no panic iff end >= 0, start <= end and start <= len(s) after clamping |
| TemplateFuncs.SliceInBounds | internal/web/handlers.go:84-92 | within bounds, slice is plain slicing |
| TemplateFuncs.SliceTruncates | internal/web/handlers.go:84-92 | slice s 0 n with n >= 0 never panics and yields the first min(n, len(s)) bytes |
| TemplateFuncs.SliceClampedLength | internal/web/handlers.go:84-92 | when it does not panic, the slice holds min(end, len(s)) - max(start, 0) bytes, those of s from the raised start on |
| TemplateFuncs.SliceIsFactor | internal/web/handlers.go:84-92 | the slice sits in s at the clamped start |
| Flash.QueryEscape | internal/web/handlers.go:625 | the escaped value holds only unreserved bytes, '+', '%' and hex digits |
| Flash.UnescapeEscape | internal/web/handlers.go:625-646 | unescaping undoes escaping for every byte string |
| Flash.GetFlashAsWrittenIsAlwaysBlank | internal/web/handlers.go:635-653 | as written, getFlash returns ("", "") for every request |
| Flash.GetFlashReadsSetFlash | internal/web/handlers.go:610-653 | the corrected reader gives back setFlash's message and type when neither contains a vertical bar; the code as written loses every non-empty message |
| Forms.ParseEventForm | internal/web/handlers.go:420-430 | "All fields are required" iff a field is empty; otherwise the lowered fields of the tags input, with the data and source |
| Forms.FormTagsAgreeWithApi | internal/web/handlers.go:427-430 | the form's tags equal the API's subject tags, except that a blank field gives no tag instead of "untagged" |
| AuthStore.Auth.constructor | internal/auth/auth.go:40-45 | both maps start empty |
| AuthStore.Auth.UserIdsAreOneToN | internal/auth/auth.go:64-72 | the user IDs in use are exactly 1..n, each used once |
| AuthStore.Auth.CreateUser | internal/auth/auth.go:48-74 | an existing name gives "user already exists" and no change; a hashing failure changes nothing; otherwise the user gets ID n+1 and is stored under its name |
| AuthStore.Auth.Authenticate | internal/auth/auth.go:77-92 | succeeds iff the name is stored and its hash accepts the password, returning that user; otherwise "invalid username or password" |
| AuthStore.Auth.CreateSession | internal/auth/auth.go:95-116 | a random-source failure changes nothing; otherwise the session is stored under its ID and expires 24 hours after creation |
| AuthStore.Auth.GetSession | internal/auth/auth.go:119-135 | not found, or expired (then evicted), or the stored session, unchanged |
| AuthStore.Auth.GetUserByID | internal/auth/auth.go:138-149 | found iff 1 <= id <= n, and the user returned carries that ID |
| AuthStore.Auth.DeleteSession | internal/auth/auth.go:152-157 | exactly that session key is removed |
| AuthStore.Auth.InitializeDefaultUsers | internal/auth/auth.go:189-198 | an existing "admin" is kept; otherwise admin/admin123 is created with role "admin" and passes the admin check |
| AuthStore.RequireAdmin | internal/auth/auth.go:241 | a user passes iff present and of role "admin" |

## Left out

- **I/O and frameworks:**
  - database access, HTTP routing (gin, mux), JSON binding, logging, cookies on the wire, redirects and template rendering are left out;
  - each database fetch is a function parameter whose `None` stands for an error.
- **Foreign libraries as parameters:**
  - bcrypt, the random session ID (crypto/rand and base64), `mime/multipart`, `quotedprintable` and `html2text` are function parameters;
  - their own behaviour is not modelled.
- **The clock:** each clock reading is an integer parameter in nanoseconds.
- **Text:** only ASCII white space and case mapping are modelled, with one `char` per byte. Unicode white space and case folding are left out.
- **Concurrency:** the `sync.RWMutex` of `auth.go` is left out; operations run one at a time. So is the `GetSession` race, where it deletes an expired session while holding only the read lock.
- **Not modelled:**
  - `RequireAuth` (auth.go:201-235), because it is cookie and context plumbing around `GetSession` and `GetUserByID`;
  - `HandleLogin*`, `HandleLogout`, `HandleEventNew` and `HandleEventEdit`, because they only render or redirect;
  - `HandleEventDelete`, because it deletes nothing;
  - the random-string generators in `utils.go`;
  - the `config` and `database` packages;
  - `cmd/`.
- **The update form:** `HandleEventUpdate` calls the database's `StoreEvent`, not its `UpdateEvent`, so an update stores a new event. The database calls are out of scope, as everywhere here. Only the handler's validation and tag parsing (handlers.go:508-518) are modelled, by `Forms.ParseEventForm`. Its ID check and existence check follow the same path as `HandleEventView`.
- **The empty-tag query:** with neither a tag nor a date, the events list and the dashboard run the query by the empty tag, which the handler means as "all events". The SQL of that query (`internal/database/database.go`) is not part of this model: as written it matches only rows whose tag JSON holds `""`, not every row. The model takes the query's result as a parameter.
- **The event record:** `internal/models/event.go` is not part of this model. `Events.Event` has the fields the handlers read.
- **The flash cookie:** `Flash.GetFlashReadsSetFlash` requires byte strings without '|' in the message and type. A '|' makes the split yield three parts, and the message is then dropped, as the code does.
- TemplateFuncs.Seq: does not model the int64 wrap-around at `end` = the largest int64, where the Go loop never ends.
- Paging.TotalPages: does not model int64 overflow of `totalItems + perPage - 1`, because a list cannot have that many elements.
- AuthStore.Auth.CreateSession: takes the two clock readings as two parameters. The expiry is stated against the second reading, as in the code.

## Findings

| source | as written | input that shows it | evidently intended | confidence | as-written member | corrected member |
|---|---|---|---|---|---|---|
| internal/web/handlers.go:243-291 | `page` from `strconv.Atoi` is only raised to at least 1. `(page-1)*perPage` and `start+perPage` then wrap around in int64 | `GET /events?page=9223372036854775807`: start wraps to -40 and end to -20. `start < totalItems` holds, so `events[-40:-20]` panics for every list. `GET /events?page=4611686018427387905`: start wraps to 0 and end is 20, so the first page is shown silently (Paging.PaginateAsWrittenWrapsToFirstPage) | a page past the last one shows an empty list | not executed | Paging.PaginateAsWrittenPanics | Paging.Paginate |
| internal/web/handlers.go:635-653 | `getFlash` sets `flashCookie.Value = ""` before `url.QueryUnescape(flashCookie.Value)`, so the split always sees "" | any request carrying a `flash` cookie written by `setFlash("Event created successfully", "success")` | read the cookie's value first, then clear the cookie, so the message and type come back | not executed | Flash.GetFlashAsWrittenIsAlwaysBlank | Flash.GetFlashReadsSetFlash |
