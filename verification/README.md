# Medical report backend — a Dafny model

This project models the Go backend of a medical-report analyser:

- A user signs up or logs in and receives a bearer token.
- The user uploads a lab report (PDF, TXT, DOC or DOCX). The file is validated, stored under a unique name and recorded as a `pending` report.
- A background run extracts the report's text, asks a language model for a structured analysis, repairs and normalises the reply, and stores the result as JSON with the status `completed` or `failed`.
- The user lists, reads, deletes and summarises their reports, and reads the health metrics (scores from 0 to 100) of a completed report.

The model has one module per source component:

| module | models |
|---|---|
| `Wrappers` | `Option` and `Result` |
| `Strings` | the parts of Go's `strings`, `strconv` and `path/filepath` the backend relies on: `TrimSpace`, `ToLower`, `Split`, `SplitN`, `ReplaceAll`, `IndexByte`, `LastIndexByte`, `Itoa`, `Atoi`, `Ext` |
| `Sql` | the SQLite query shapes used by the repositories: `WHERE`, `ORDER BY` (rows with equal keys kept in ascending id order, which is a modelling assumption), and `LIMIT`/`OFFSET` with SQLite's rules for negative values |
| `AppErrors` | `pkg/errors`: the typed errors and their `Error()` text |
| `ReportStore`, `ChatStore`, `UserStore` | the three repositories. Each table is a map from id to row plus an AUTOINCREMENT counter. |
| `AuthService` | sign-up, login, token validation and refresh. Hashing and JWT signing are parameters. |
| `Responses`, `AuthHandlers`, `AuthMiddleware`, `Cors` | the HTTP layer as pure functions from request facts to a response value |
| `Normalizer`, `AiService` | response repair (fence stripping, JSON location, fallback record), validation and enhancement, text extraction, prompt building and `AnalyzeReport`. The model call and JSON encoding are parameters. |
| `Upload`, `ReportHandlers`, `Pipeline` | upload validation and naming, the report handlers, and the background run as a list of status writes |

Collaborators the source calls but does not define are parameters of the model:

- the model client;
- `json.Marshal`/`json.Unmarshal`, as an encoder/decoder pair;
- bcrypt;
- JWT issue and verify;
- the file system and the PDF reader;
- the database's reachability;
- the clock, as `now` and `timestamp`.

## Model

| member | source | states |
|---|---|---|
| `Strings.TrimSpace` | backend/internal/services/ai_service.go:189-192 | Trimming gives an empty text exactly when the input is all white space; otherwise the result starts and ends with non-space characters. |
| `Strings.TrimSpaceChars` | backend/internal/services/auth.go:186-189 | Trimming adds no character, and it keeps every non-space character of the input. |
| `Strings.TrimSpaceStops` | backend/internal/services/auth.go:47 | A text with no white space at either end is its own trim. |
| `Strings.TrimSpaceIdempotent` | backend/internal/services/auth.go:47 | Trimming an already trimmed text changes nothing. |
| `Strings.TrimPrefix` | backend/internal/services/ai_service.go:309 | When the prefix is present, putting it back in front of the result restores the input; otherwise the input is unchanged. |
| `Strings.TrimSuffix` | backend/internal/handlers/report.go:339 | When the suffix is present, appending it to the result restores the input; otherwise the input is unchanged. |
| `Strings.IndexByte` | backend/internal/services/ai_service.go:314 | The result is -1 exactly when the character is absent; otherwise it is an occurrence with no earlier one. |
| `Strings.LastIndexByte` | backend/internal/services/ai_service.go:315 | The result is -1 exactly when the character is absent; otherwise it is an occurrence with no later one. |
| `Strings.ContainsChar` | backend/internal/services/ai_service.go:314-317 | Searching for a one-character text is the same as testing membership of that character. |
| `Strings.ToLower` | backend/internal/handlers/report.go:297 | The result has the input's length, and each character is the lower-case form of the input's character at the same position. |
| `Strings.ToLowerAppend` | backend/internal/handlers/report.go:297-305 | Lower-casing distributes over concatenation, so a lower-cased name ends in the lower-cased form of its own tail. |
| `Strings.SplitOn` | backend/internal/services/ai_service.go:412 | Joining the pieces with the separator rebuilds the input, and no piece contains the separator. |
| `Strings.SplitFirst` | backend/internal/handlers/auth.go:165 | One piece means the separator is absent. Two pieces are the text before the first separator and everything after it. |
| `Strings.SplitFirstOf` | backend/internal/handlers/auth.go:165-170 | Splitting at the first separator undoes gluing two pieces with it, when the first piece has none. |
| `Strings.SplitOnFirst` | backend/internal/middleware/auth.go:97 | The first piece of a full split ends at the first separator, and the remaining pieces rejoined are what follows it. |
| `Strings.ReplaceAllIsSplitJoin` | backend/internal/services/ai_service.go:302 | Replacing every occurrence equals splitting at the occurrences and joining with the replacement. |
| `Strings.ReplaceAllAbsent` | backend/internal/services/ai_service.go:302 | Text without the pattern is left unchanged. |
| `Strings.ReplaceAllInserts` | backend/internal/services/ai_service.go:302 | When the pattern occurs, the replacement appears in the result. |
| `Strings.Itoa` | backend/internal/middleware/cors.go:68 | The result is a run of decimal digits, with a leading minus sign exactly for negative numbers. |
| `Strings.Atoi` | backend/internal/handlers/report.go:193 | An accepted text starts with a digit or a sign, and its value lies in the int64 range. |
| `Strings.AtoiItoa` | backend/internal/handlers/report.go:369-387 | Every int64 printed in decimal parses back to itself. |
| `Strings.Ext` | backend/internal/handlers/report.go:338 | The extension is a suffix of the path. It is empty or a dot followed by no dot and no slash. It is empty only when every dot lies before the last slash. |
| `Strings.ExtOfSuffix` | backend/internal/services/ai_service.go:137 | A path ending in a dot-led, dot-free, slash-free tail has exactly that tail as its extension. |
| `Sql.Select` | backend/internal/models/report.go:86-94 | The WHERE clause: the result holds only table rows that satisfy the filter, and it holds every such row. |
| `Sql.Insert` | backend/internal/models/report.go:93 | Inserting into a sorted sequence keeps it sorted and adds exactly the one element. |
| `Sql.SortBy` | backend/internal/models/report.go:93 | ORDER BY: the result is sorted on the key and is a permutation of the input. |
| `Sql.SortBySorted` | backend/internal/models/report.go:93 | The model's sort is stable: an already ordered sequence is returned unchanged, so rows with equal keys stay in ascending id order (a modelling assumption). |
| `Sql.Page` | backend/internal/models/report.go:94 | LIMIT/OFFSET: the page starts `offset` rows in (a negative offset counts as 0) and holds at most `limit` rows (a negative limit means no limit). Each page row is the input row at its position. |
| `Sql.PagesTile` | backend/internal/models/report.go:86-121 | Two consecutive pages together are the page that spans both. |
| `Sql.Query` | backend/internal/models/report.go:86-121 | The query returns only matching table rows, in key order, no more than the limit. It is exactly the window, starting `offset` rows in, of the matching rows taken in id order and stably sorted on the key. Rows with equal keys stay in ascending id order, which is a modelling assumption. |
| `Sql.QueryWindow` | backend/internal/models/report.go:86-121 | A paged query is the window of the unpaged one: LIMIT and OFFSET only cut the ordered result. |
| `Sql.QueryPagesTile` | backend/internal/models/report.go:86-121 | Two consecutive query pages together are the page that spans both, so paging skips and repeats nothing, under the assumed order of rows with equal keys. |
| `Sql.PageOfSorted` | backend/internal/models/report.go:86-121 | A page of a sorted sequence is sorted and holds nothing from outside it. |
| `Sql.QueryComplete` | backend/internal/models/chat_message.go:178-186 | Without LIMIT or OFFSET the query misses no matching row. |
| `AppErrors.ErrorString` | backend/pkg/errors/errors.go:14-16 | The text is the category in brackets, then a space and the message; its length is the two lengths plus three. |
| `AppErrors.ParseErrorString` | backend/pkg/errors/errors.go:14-16 | A category read back from an error text never contains a closing bracket. |
| `AppErrors.ErrorStringParses` | backend/pkg/errors/errors.go:14-16 | Category and message can be read back from the error text whenever the category has no closing bracket. |
| `AppErrors.ErrorStringInjective` | backend/pkg/errors/errors.go:14-16 | Two errors with bracket-free categories share a text only when they agree on category and message. |
| `AppErrors.NewValidationError` | backend/pkg/errors/errors.go:103-109 | The result is a 400 `VALIDATION_ERROR` carrying the caller's message; with the stock message it is `ErrInvalidInput` itself. |
| `AppErrors.PredefinedErrors` | backend/pkg/errors/errors.go:19-123 | The predefined errors carry the stated status codes, and every one of them reads back from its `Error()` text. |
| `ReportStore.Create` | backend/internal/models/report.go:46-57 | A new row gets a fresh id that was never used and the caller's fields, with status "pending", no processing time and `now` as its upload time. The table stays well-formed and no other row changes. |
| `ReportStore.GetByID` | backend/internal/models/report.go:60-83 | A row is found exactly when its id is in the table; an unknown id is "no report", not an error. |
| `ReportStore.GetByUserID` | backend/internal/models/report.go:86-121 | Only the user's own stored reports are returned, newest upload first, no more than the limit, each under its own id. The result is the window, after skipping `offset`, of the user's reports sorted newest first. |
| `ReportStore.GetByUserIDComplete` | backend/internal/models/report.go:86-121 | An unpaged listing contains every report of the user. |
| `ReportStore.GetByUserIDPages` | backend/internal/models/report.go:86-121 | Every page of the user's reports is a window of the full listing, and consecutive pages join up with nothing skipped or repeated. |
| `ReportStore.Update` | backend/internal/models/report.go:124-149 | An unknown id matches nothing. Otherwise the editable columns take the caller's values and the owner, path and upload date are kept. Other rows are untouched. |
| `ReportStore.UpdateProcessingStatus` | backend/internal/models/report.go:153-177 | An unknown id matches nothing. Otherwise status and summary are set, and `processed_at` becomes `now` exactly for "completed" and is kept otherwise. Other rows are untouched. |
| `ReportStore.CompletedReportCanBeReset` | backend/internal/models/report.go:153-177 | No status order is enforced: a completed report can go back to "pending", and it keeps the time it was completed. |
| `ReportStore.Delete` | backend/internal/models/report.go:180-200 | Exactly the one row is removed; an unknown id is `ErrNoRows`. |
| `ReportStore.DeleteThenCreate` | backend/internal/models/report.go:180-200 | A deleted report is gone, and its id is not reused by the next report. |
| `ReportStore.GetPendingReports` | backend/internal/models/report.go:203-238 | Only pending stored reports are returned, oldest upload first, no more than the limit. The result is the first `limit` of the pending reports sorted oldest first. |
| `ReportStore.PendingBatchIsOldest` | backend/internal/models/report.go:203-238 | The pending batch is a prefix of the full pending queue, and that queue holds every pending report. |
| `ChatStore.Create` | backend/internal/models/chat_message.go:40-49 | A new message gets a fresh id, the caller's report and texts, and `now` as creation time. It is visible, and no other row changes. |
| `ChatStore.GetByID` | backend/internal/models/chat_message.go:52-72 | A message is found exactly when it exists and is not soft-deleted. |
| `ChatStore.GetByReportID` | backend/internal/models/chat_message.go:75-106 | Only the report's stored, non-deleted messages are returned, oldest first, no more than the limit. The result is the window, after skipping `offset`, of those messages sorted oldest first. |
| `ChatStore.GetByReportIDPages` | backend/internal/models/chat_message.go:75-106 | Every page of a conversation is a window of the whole chat history, and consecutive pages join up with nothing skipped or repeated. |
| `ChatStore.GetChatHistory` | backend/internal/models/chat_message.go:178-208 | The history is the unpaged listing, and it holds every visible message of the report. |
| `ChatStore.Update` | backend/internal/models/chat_message.go:109-131 | A missing or soft-deleted message matches nothing. Otherwise only its two texts change, and every other row is kept. |
| `ChatStore.SoftDelete` | backend/internal/models/chat_message.go:134-153 | The row is flagged and kept, and it is no longer visible. The match is on the id alone, so flagging twice succeeds. |
| `ChatStore.HardDelete` | backend/internal/models/chat_message.go:156-175 | Exactly the one row is removed; a missing row is `ErrNoRows`. |
| `ChatStore.DeletionsCompared` | backend/internal/models/chat_message.go:134-175 | After either deletion the message can be neither read nor updated; only a soft-deleted message can still be hard-deleted. |
| `UserStore.Create` | backend/internal/models/user.go:43-52 | An email held by any row, active or not, breaks the UNIQUE constraint. Otherwise the row gets a fresh id, the caller's fields and `now` as creation and update time. |
| `UserStore.GetByID` | backend/internal/models/user.go:55-75 | A user is found exactly when the id holds an active row. |
| `UserStore.GetByEmail` | backend/internal/models/user.go:78-97 | The user found is active and has that email; in a well-formed table a user is found exactly when some active row has the email. |
| `UserStore.GetByEmailFinds` | backend/internal/models/user.go:78-97 | Emails are unique, so the lookup by email returns exactly the row that holds it. |
| `UserStore.CreateThenGet` | backend/tests/database_test.go:93-123 | A created user is found again by id and by email exactly when it was stored active. |
| `UserStore.Update` | backend/internal/models/user.go:100-122 | A missing or deactivated user matches nothing, and an email held by another row breaks the UNIQUE constraint. Otherwise email, name and verification flag change, and the hash and active flag are kept. |
| `UserStore.Delete` | backend/internal/models/user.go:125-144 | The row is deactivated and kept, and every other row is untouched. Deleting an already deactivated user succeeds again. |
| `UserStore.DeleteHides` | backend/internal/models/user.go:125-144 | A deleted user can be neither read nor updated, yet its email still blocks a new account with that email. |
| `UserStore.List` | backend/internal/models/user.go:147-177 | Only active stored users are returned, newest first, no more than the limit. The result is the window, after skipping `offset`, of the active users sorted newest first. |
| `UserStore.ListComplete` | backend/internal/models/user.go:147-177 | The unpaged list contains every active user. |
| `UserStore.ListPages` | backend/internal/models/user.go:147-177 | Every page of users is a window of the full list, and consecutive pages join up with nothing skipped or repeated. |
| `AuthService.JwtRefresh` | backend/internal/services/jwt.go:88-97 | A token that does not verify is refused; a valid one is re-issued with the same user id and email. |
| `AuthService.IsValidEmail` | backend/internal/services/auth.go:186-189 | An email is accepted exactly when, once trimmed, it is non-empty and contains both '@' and '.'. |
| `AuthService.NormalizeEmailIdempotent` | backend/internal/services/auth.go:47 | Normalising an already normalised email changes nothing, so a stored email is found again under its own normal form. |
| `AuthService.SignUp` | backend/internal/services/auth.go:35-93 | Bad input is `InvalidInput` before anything else is consulted. After the input checks, an unreachable database is a database error and an email held by an active user is `UserAlreadyExists`. Sign-up succeeds exactly when the input is valid, the database answers, no row holds the normalised email, and both hashing and token issuing succeed; every other failure is a database error. On success the store gains exactly one active, unverified user with the normalised email and trimmed name, and the token is issued for that user. |
| `AuthService.SignUpChecksInputFirst` | backend/internal/services/auth.go:35-45 | The input checks depend on the request alone, not on the store or the collaborators. |
| `AuthService.SignUpAfterDeactivation` | backend/internal/services/auth.go:49-80 | Signing up again with the email of a deactivated account is reported as a database error, because the old row still holds the email. |
| `AuthService.Login` | backend/internal/services/auth.go:97-136 | An unknown email and a wrong password give the same `InvalidCredentials`. A successful login returns a stored active user with that email whose hash checks the password, plus a token issued for that user. An unreachable database, once the input is valid, is `DatabaseConnection`. Login succeeds exactly when the input is valid, the database is reachable, an active user has the normalised email, the password checks against that user's hash and a token can be issued. |
| `AuthService.SignUpThenLogin` | backend/tests/auth_test.go:225-280 | Right after sign-up, the same email and password log in to the account that was created. |
| `AuthService.GetUserFromToken` | backend/internal/services/auth.go:140-164 | A token that does not verify is `InvalidToken`, a missing or inactive user is `UserNotFound`, and a changed email is `InvalidToken`. An unreachable database after a valid token is `DatabaseConnection`. It succeeds exactly when the token verifies, the database is reachable, and the user the token names is active and still has the token's email; that user is returned. |
| `AuthService.SignUpTokenIdentifies` | backend/internal/services/auth.go:140-164 | The sign-up token identifies the new user. After the user is deleted it gives `UserNotFound`; after the email changes it gives `InvalidToken`. |
| `AuthService.RefreshToken` | backend/internal/services/auth.go:168-182 | Refreshing fails exactly as validating the token does; otherwise it returns the JWT service's re-issued token. |
| `AuthService.RefreshKeepsUser` | backend/internal/services/auth.go:168-182 | A refreshed token names the same user as the token it replaces. |
| `Responses.WriteErrorResponse` | backend/internal/handlers/auth.go:200-208 | An error answer carries the given status both as its HTTP code and in its body, together with the message. |
| `Responses.HandleServiceError` | backend/internal/handlers/auth.go:175-183 | A typed error is answered with its own code and message; any other error with 500 and a fixed message. |
| `Responses.PlainErrorsIndistinguishable` | backend/internal/handlers/auth.go:181-182 | Two untyped errors get the same answer whatever their text, so no internal detail leaks to the client. |
| `Responses.NotAllowed` | backend/internal/handlers/auth.go:30-33 | A request with the wrong method is answered 405. |
| `AuthHandlers.ExtractTokenFromHeader` | backend/internal/handlers/auth.go:158-171 | A non-empty token always comes from a header "<scheme> <token>" whose scheme is "bearer" in some letter case; an empty header gives no token. |
| `AuthHandlers.BearerHasNoSpace` | backend/internal/handlers/auth.go:165-166 | A scheme that lower-cases to "bearer" contains no space. |
| `AuthHandlers.ExtractTokenOfBearer` | backend/internal/handlers/auth.go:158-171 | Any spelling of "Bearer", a space and a token gives back that token exactly, spaces included. |
| `AuthHandlers.Signup` | backend/internal/handlers/auth.go:28-51 | Only POST is served and a body that does not decode is 400. For a decoded POST, a successful sign-up is 201 with that session, and a failed one is the service error's response with the store unchanged. The store changes only on 201. |
| `AuthHandlers.Login` | backend/internal/handlers/auth.go:55-78 | Only POST is served. 200 is answered exactly when the service logs the user in, and the answer carries that session. |
| `AuthHandlers.LoginHidesAccounts` | backend/tests/auth_test.go:260-280 | A client cannot tell from the answer whether an email is registered: an unknown email and a wrong password get the same 401. |
| `AuthHandlers.Logout` | backend/internal/handlers/auth.go:83-97 | Only POST is served, and a POST is always acknowledged with 200; nothing is revoked. |
| `AuthHandlers.Me` | backend/internal/handlers/auth.go:101-123 | Only GET is served, and a missing token is 401 before the service is asked. 200 is answered exactly when the token names a user, and the answer carries that user's profile. |
| `AuthHandlers.MeAfterSignup` | backend/tests/integration_test.go:257-317 | The token issued at sign-up, sent as a bearer token, returns the new user's profile. |
| `AuthHandlers.Refresh` | backend/internal/handlers/auth.go:127-154 | Only POST is served, and a missing token is 401 before the service is asked. 200 is answered exactly when the service refreshes the token, and the answer carries the new token. |
| `AuthMiddleware.ExtractBearerToken` | backend/internal/middleware/auth.go:90-103 | An empty header gives no token. |
| `AuthMiddleware.ExtractorsAgree` | backend/internal/middleware/auth.go:90-103 | The middleware and the handlers read the Authorization header identically. |
| `AuthMiddleware.Unauthorized` | backend/internal/middleware/auth.go:107-114 | The request stops with a 401 error response carrying the given message. |
| `AuthMiddleware.RequireAuth` | backend/internal/middleware/auth.go:35-61 | A missing token and a token the service refuses each get their own 401. The next handler runs exactly when the token names a user, and then with that active user. |
| `AuthMiddleware.DeactivatedNeverAnswered` | backend/internal/middleware/auth.go:52-55 | The "Account is deactivated" answer is never given: the service only returns active users. |
| `AuthMiddleware.OptionalAuth` | backend/internal/middleware/auth.go:65-79 | The next handler always runs, with a user exactly when the token names an active one. |
| `AuthMiddleware.OptionalMatchesRequired` | backend/internal/middleware/auth.go:35-79 | Where `RequireAuth` lets a request through, `OptionalAuth` attaches the same user; where it refuses, `OptionalAuth` attaches none. |
| `Cors.ProductionConfig` | backend/internal/middleware/cors.go:43-47 | The production configuration is the default one with the given origins. |
| `Cors.HasWildcard` | backend/internal/middleware/cors.go:102-109 | The scan reports true exactly when "*" is in the list. |
| `Cors.IsOriginAllowed` | backend/internal/middleware/cors.go:85-98 | An origin is allowed exactly when the list has the wildcard, or the origin is non-empty and listed. |
| `Cors.Headers` | backend/internal/middleware/cors.go:51-81 | The CORS headers are written exactly for allowed origins, with the joined methods and headers and the max age. The echoed origin is "*" under a wildcard and the request's origin otherwise. |
| `Cors.Cors` | backend/internal/middleware/cors.go:51-81 | An OPTIONS request stops with 200; every other method goes on to the next handler with the same headers. |
| `Cors.DefaultConfigAdmitsAll` | backend/tests/integration_test.go:319-351 | Under the default configuration every origin, even a missing one, gets "*" and the full method list, header list and max age 86400. |
| `Cors.DefaultMethodsJoined` | backend/internal/middleware/cors.go:20-39 | The default methods joined by ", " read "GET, POST, PUT, DELETE, PATCH, OPTIONS". |
| `Cors.DefaultHeadersJoined` | backend/internal/middleware/cors.go:20-39 | The default headers joined by ", " read "Accept, Authorization, Content-Type, X-Requested-With". |
| `Cors.DefaultMaxAgeText` | backend/internal/middleware/cors.go:36 | The default max age is written as "86400". |
| `Cors.ProductionEchoesListedOrigins` | backend/internal/middleware/cors.go:43-98 | Without a wildcard, only listed non-empty origins are admitted, and each is echoed back as itself. |
| `Normalizer.ClampScore` | backend/internal/services/ai_service.go:361-366 | The clamped score lies in [0, 100]: a score already in range is kept, and one outside goes to the nearer bound. |
| `Normalizer.ClampScoreNearest` | backend/internal/services/ai_service.go:361-366 | The clamped score is the point of [0, 100] nearest to the raw score. |
| `Normalizer.DerivedStatus` | backend/internal/services/ai_service.go:369-377 | The derived status is "normal" exactly from 80 up, "critical" exactly below 50, and "warning" otherwise. |
| `Normalizer.DerivedStatusMonotone` | backend/internal/services/ai_service.go:369-377 | A higher score never derives a worse status. |
| `Normalizer.NormalizeMetric` | backend/internal/services/ai_service.go:358-378 | After validation the score is in range and the status is non-empty. A status the metric already had is kept; a missing one is derived from the clamped score. The other fields are unchanged. |
| `Normalizer.ValidateAndEnhance` | backend/internal/services/ai_service.go:345-388 | Empty summaries and risk level get their defaults, and every metric is normalised in place. Empty recommendations get the three defaults; key findings are untouched. The result is enhanced. |
| `Normalizer.ValidateAndEnhanceFixpoint` | backend/internal/services/ai_service.go:345-388 | The pass leaves a record unchanged exactly when the record is already enhanced. |
| `Normalizer.ValidateAndEnhanceIdempotent` | backend/internal/services/ai_service.go:345-388 | Running the pass twice is the same as running it once. |
| `Normalizer.CleanResponse` | backend/internal/services/ai_service.go:308-311 | The cleaned reply has no white space at either end. |
| `Normalizer.CleanResponsePadded` | backend/internal/services/ai_service.go:308-311 | White space padded around a reply is trimmed away, with or without a ```json fence around it, when the reply's own ends are not white space and it carries no fence of its own. |
| `Strings.TrimSpacePadded` | backend/internal/services/ai_service.go:311 | Trimming removes exactly the white space padded around a text whose own ends are not white space. |
| `Normalizer.CleanResponseFenced` | backend/internal/services/ai_service.go:308-311 | Wrapping a reply in a ```json fence does not change what is cleaned out of it. |
| `Normalizer.CleanFencedTrimmed` | backend/internal/services/ai_service.go:308-311 | A trimmed reply with no fence of its own comes out of a ```json fence exactly as it was. |
| `Normalizer.LocateJson` | backend/internal/services/ai_service.go:313-319 | When some `{` precedes the last `}`, the text from the first `{` to the last `}` is cut out; otherwise the text is kept whole. |
| `Normalizer.NoBracePair` | backend/internal/services/ai_service.go:314-317 | When the index test of the source fails, no `{` comes before any `}`. |
| `Normalizer.LocateJsonEmbedded` | backend/internal/services/ai_service.go:313-319 | A JSON object surrounded by brace-free chatter is cut out exactly. |
| `Normalizer.FirstMeaningfulIndex` | backend/internal/services/ai_service.go:413-419 | The index found is that of the first line meaningful once trimmed, or the line count when no line is meaningful. |
| `Normalizer.ExtractSimpleSummary` | backend/internal/services/ai_service.go:410-421 | The summary is the first meaningful line, trimmed, or the fixed sentence. Either way it is a single line longer than 20 characters that does not start with a brace. |
| `Normalizer.ExtractHealthMetrics` | backend/internal/services/ai_service.go:424-428 | A reply that did not decode yields no metrics. |
| `Normalizer.FallbackAnalysis` | backend/internal/services/ai_service.go:328-335 | The degraded record has the fixed summary, "medium" risk, the fixed findings and recommendations, and it is enhanced. Its simple summary is "Analysis: " followed by the summary extracted from the located text, and its metrics are those extracted from that text, which are none. |
| `Normalizer.ParseAnalysisResponse` | backend/internal/services/ai_service.go:307-342 | Parsing never fails. A located text that decodes is validated; one that does not yields the fallback record. The result is always enhanced. |
| `Normalizer.ParseFencedObject` | backend/internal/services/ai_service.go:307-342 | A fenced reply holding one JSON object between brace-free chatter is decoded from exactly that object. |
| `Normalizer.GetHealthMetrics` | backend/internal/services/ai_service.go:391-399 | Metrics are returned exactly when the stored analysis decodes, and they are its metrics; otherwise the error starts "failed to parse analysis". |
| `AiService.PageFoldSnoc` | backend/internal/services/ai_service.go:172-187 | One more page adds its contribution at the end: its text and a newline, or nothing when it was skipped. |
| `AiService.PageFoldAppend` | backend/internal/services/ai_service.go:172-187 | The text of a document is the text of its first pages followed by that of the rest, so the fold is every page's contribution in page order. |
| `AiService.CollectPageText` | backend/internal/services/ai_service.go:168-189 | The page loop computes the page fold: each extracted page's text and a newline, in page order, with null and failing pages skipped. |
| `AiService.PageFoldBlank` | backend/internal/services/ai_service.go:189-192 | The folded text is blank exactly when every extracted page is blank. |
| `AiService.ExtractFromPdf` | backend/internal/services/ai_service.go:161-195 | A PDF that cannot be opened, or whose text is blank, is an error with the source's message; otherwise the result is the folded page text. |
| `AiService.ExtractorFor` | backend/internal/services/ai_service.go:137-148 | The extractor is chosen by the lower-cased extension alone: ".txt", ".pdf", ".docx" or ".doc", or unsupported with that extension. |
| `AiService.ExtractTextFromFile` | backend/internal/services/ai_service.go:136-202 | A text file is read whole, a PDF goes through the PDF extractor and DOC/DOCX yields the placeholder text. Any other extension is "unsupported file type". The declared type plays no part. |
| `AiService.ExtractorDependsOnExtensionOnly` | backend/internal/services/ai_service.go:136-149 | Two paths with the same extension up to case are extracted the same way, whatever file type the caller declared. |
| `AiService.LoadPromptTemplate` | backend/internal/services/ai_service.go:243-251 | The prompt file is used when it can be read, and the default template otherwise; loading never fails. |
| `AiService.BuildAnalysisPrompt` | backend/internal/services/ai_service.go:294-304 | A template without the placeholder is used as is; one with it yields a prompt that contains the report's text. |
| `AiService.DefaultTemplateCarriesContent` | backend/internal/services/ai_service.go:254-279 | The default template holds the placeholder, so the report's text always reaches a prompt built from it. |
| `AiService.GenerateAnalysis` | backend/internal/services/ai_service.go:205-240 | A model error and an empty reply are the two failures, each with its message; any reply is otherwise parsed, and the analysis is enhanced. |
| `AiService.AnalyzeReport` | backend/internal/services/ai_service.go:108-133 | Each failing step is wrapped with its own prefix: "failed to extract text from file: ", "failed to generate AI analysis: " or "failed to serialize analysis: ". When all three steps succeed, the result is the encoding of the analysis generated from the extracted text, which is enhanced. |
| `AiService.UnsupportedNeverReachesModel` | backend/internal/services/ai_service.go:108-149 | A file with an unhandled extension fails before the model is asked, whatever the model would answer. |
| `AiService.AnalyzeReportDecodes` | backend/internal/services/ai_service.go:108-133 | When the codec reads back what it writes, the stored JSON of a successful run decodes to an enhanced analysis. |
| `AiService.ContentTypeFromExtension` | backend/internal/services/ai_service.go:431-445 | PDF maps to "application/pdf", text to "text/plain", ".docx" to the Word OOXML type, ".doc" to "application/msword", and an unknown extension to "application/octet-stream". |
| `Upload.ContentTypeAgreesWithUpload` | backend/internal/services/ai_service.go:431-445 | A file the extractor can read gets a content type that the upload check accepts, and only such a file does. |
| `Upload.FileProblem` | backend/internal/handlers/report.go:290-334 | A file is refused exactly when it is too large, or its lower-cased name has no allowed extension, or its content type is not allowed. Every refusal is a 400 validation error. |
| `Upload.SizeCheckedFirst` | backend/internal/handlers/report.go:291-294 | An oversized file is refused for its size whatever its name and type. |
| `Upload.ValidateFile` | backend/internal/handlers/report.go:290-334 | The scanning loops with early exit refuse exactly the files the check ladder refuses, with the same error. |
| `Upload.Sanitize` | backend/internal/handlers/report.go:346-351 | Only safe characters remain, no longer than the input, and a name that is already safe is unchanged. A one-character text is kept when it is safe and dropped otherwise. |
| `Upload.SanitizeAppend` | backend/internal/handlers/report.go:345-351 | Sanitising a text in two pieces gives the same as sanitising it whole. With the one-character case, every safe character is kept in order and every other one is dropped. |
| `Upload.UniqueFilename` | backend/internal/handlers/report.go:337-354 | The name is the decimal time, an underscore, the stem with spaces turned into underscores and then sanitised, and the original extension; only safe characters lie between the underscore and the extension. |
| `Upload.ReplaceSpaces` | backend/internal/handlers/report.go:344 | Replacing every " " with "_" is the character-by-character map that turns each space into an underscore. |
| `Upload.SpacesBecomeUnderscores` | backend/internal/handlers/report.go:337-354 | A stem made of safe characters and spaces survives whole in the stored name, with each space turned into an underscore. |
| `Upload.TimestampRecoverable` | backend/internal/handlers/report.go:337-354 | The time can be read back from the name: the text before its first underscore parses to the time. |
| `Upload.NoDotNoExt` | backend/internal/handlers/report.go:338 | A name without a dot has no extension. |
| `Upload.ExtensionKept` | backend/internal/handlers/report.go:337-354 | The stored name has exactly the original's extension. |
| `Upload.SavedPath` | backend/internal/handlers/report.go:92 | The saved path has the original's extension. |
| `Upload.JoinedExt` | backend/internal/handlers/report.go:92 | Putting a directory in front of a name does not change its extension. |
| `Upload.NoExtAfterSlash` | backend/internal/handlers/report.go:92 | A name without an extension stays without one under a directory. |
| `Upload.AllowedTail` | backend/internal/handlers/report.go:297-305 | A name whose lower-cased form ends in an allowed extension ends, before lower-casing, in a dot followed by letters. |
| `Upload.AllowedExtensionOf` | backend/internal/handlers/report.go:297-305 | A name that passes the extension check has an allowed extension, up to case, as its extension. |
| `Upload.AcceptedUploadIsExtractable` | backend/internal/handlers/report.go:290-354 | A file that passes the extension check is saved under a path the extractor supports. |
| `ReportHandlers.ToView` | backend/internal/handlers/report.go:218-227 | The response view carries the row's id, owner, path, summary and processing time. |
| `ReportHandlers.ParsePaginationParams` | backend/internal/handlers/report.go:369-387 | The limit is always in [1, 100] and the offset is never negative. A limit that parses is taken when it lies in [1, 100] and gives 20 otherwise; an offset that parses is taken when it is not negative and gives 0 otherwise. A missing or unparsable value gives the default. |
| `ReportHandlers.PaginationRoundTrip` | backend/internal/handlers/report.go:369-387 | In-range values written in decimal are read back exactly. |
| `ReportHandlers.LimitOutOfRangeIsDefault` | backend/internal/handlers/report.go:375 | A limit out of range is not clamped: it falls back to 20. |
| `ReportHandlers.Lookup` | backend/internal/handlers/report.go:200 | The lookup fails exactly when the database is unreachable, and otherwise is the repository's `GetByID`. |
| `ReportHandlers.Guard` | backend/internal/handlers/report.go:474-502 | A database failure is 500, a missing report 404, another user's report 403, an unprocessed report 400 and a missing AI service 503. The handler proceeds exactly when the report is the caller's and every check for its kind passes. |
| `ReportHandlers.OthersReportsAllLookAlike` | backend/internal/handlers/report.go:486-490 | Someone else's report is refused the same way by every handler, so its processing state and the AI configuration cannot be probed. |
| `ReportHandlers.Preamble` | backend/internal/handlers/report.go:454-472 | The wrong method is 405 and a missing user is 401, both checked before the id. The handler proceeds exactly when method, user and id are all good. |
| `ReportHandlers.Refuse` | backend/internal/handlers/report.go:474-502 | A refusal is answered with its own status. |
| `ReportHandlers.GetReport` | backend/internal/handlers/report.go:179-230 | A report is answered exactly when the request passes the preamble and the guard, and then the answer is 200 with the view of the caller's own stored report. |
| `ReportHandlers.DeleteReport` | backend/internal/handlers/report.go:234-287 | The method, login and id checks come first, then the guard ladder, whose refusal is answered as is. When both pass, the answer is 200 and exactly that row is removed. Any refusal leaves the store unchanged. |
| `ReportHandlers.DeleteThenNotFound` | backend/internal/handlers/report.go:234-287 | Once its owner deletes a report, reading it again answers 404 "Report not found". |
| `ReportHandlers.DeleteKeepsOthersReports` | backend/internal/handlers/report.go:262-266 | No user can delete a report that belongs to someone else. |
| `ReportHandlers.GetReportSummary` | backend/internal/handlers/report.go:391-450 | The method, login and id checks come first, then the guard ladder with the readiness check, whose refusal is answered as is. A summary is served exactly when both pass: the caller's own completed report, with its stored summary. |
| `ReportHandlers.GetHealthMetrics` | backend/internal/handlers/report.go:454-518 | The method, login and id checks come first, then the guard ladder with the readiness and AI checks, whose refusal is answered as is. When both pass, metrics are served exactly when the stored analysis decodes, and they are that analysis's metrics; otherwise the answer is 500. |
| `ReportHandlers.GetReports` | backend/internal/handlers/report.go:132-175 | A page is answered exactly for a GET by a logged-in user while the database is reachable. It holds only the user's stored reports, newest first, at most 100 of them, and `total` counts the page. The page is the views of the user's reports in the window chosen by the parsed limit and offset. |
| `ReportHandlers.Listing` | backend/internal/handlers/report.go:150-166 | The listed views belong to the user, are newest first, number at most the limit, and each is the view of the stored row with its id. They are the views, in order, of the window of the user's reports sorted newest first. |
| `ReportHandlers.ListingPagesTile` | backend/internal/handlers/report.go:150-166 | Consecutive pages of the listing join up with nothing skipped or repeated. |
| `ReportHandlers.UploadReport` | backend/internal/handlers/report.go:50-128 | A non-POST is 405, and a POST without a user is 401. A file that fails validation gets that validation error's response. The answer is 201 exactly for a valid file from a logged-in POST whose directory, save and insert all succeed; then exactly one pending report is added. It carries the caller's id, the file's name, type and size, and the unique saved path. Every refusal leaves the store unchanged and queues nothing. |
| `ReportHandlers.QueuedReportIsExtractable` | backend/internal/handlers/report.go:50-128 | Every report the upload handler queues has an extension the extractor supports. |
| `Pipeline.ProcessReportAsync` | backend/internal/handlers/report.go:521-541 | A run writes "processing" first, then "failed" with the missing-key message when no AI service is configured, otherwise "completed" with the stored analysis or "failed" with "Processing failed: " and the error. |
| `Pipeline.ProcessOutcome` | backend/internal/handlers/report.go:521-541 | A run completes exactly when a service is configured and the analysis succeeds, and a failed run's summary says why. |
| `Pipeline.ApplyUpdates` | backend/internal/handlers/report.go:523-540 | The writes touch only the one report, keep the table well-formed and keep its owner, path and upload date. The row ends with the last write's status and summary. |
| `Pipeline.DeletedReportUntouched` | backend/internal/handlers/report.go:523-540 | A run on a report deleted meanwhile changes nothing. |
| `Pipeline.RunSettlesReport` | backend/internal/handlers/report.go:521-541 | After its run a report is "completed", with an analysis that decodes to an enhanced record, or "failed". |
| `Pipeline.UploadToMetrics` | backend/internal/handlers/report.go:50-541 | An accepted upload whose run completes is served back to its owner by the metrics handler, with every score in [0, 100]. |
| `Pipeline.FailedRunNotReady` | backend/internal/handlers/report.go:391-450 | After a failed run the owner's summary request is answered 400 "Report is not ready yet". |

## Left out

- JSON encoding and decoding, the Gemini client, the PDF library, bcrypt and JWT signing are not modelled. They are function-valued parameters, and lemmas that need a round trip state it as a precondition (`CodecRoundTrips`, `TokensRoundTrip`, `HashChecks`).
- The clock is not modelled: `now` and `timestamp` are parameters. One background run writes both of its status updates at the same `now`.
- The background goroutine and any concurrency are not modelled. A run is the sequence of its status writes, applied after the upload, and a write to a missing row is skipped as the source ignores its error.
- Routing, server start-up, configuration loading and `GetUserFromContext` are not modelled. The handlers receive the method, the authenticated user and the path's id text directly.
- The multipart parser and the file system are not modelled; the handler sees their outcomes as `Form` and `Disk`. `filepath.Join` is modelled as directory, "/" and name, without Go's path cleaning.
- A database failure is a single `reachable` flag, so "Failed to save report metadata" arises only when the database is unreachable; failures in the middle of a query are not modelled.
- Scanning a NULL `simplified_summary` into a Go string is not modelled. A row's summary is "" until a run writes one.
- Lengths count characters, not UTF-8 bytes, and `ToLower` folds ASCII letters only. The 20-character test in `extractSimpleSummary` and the password-length checks therefore count characters.
- `Strings.Atoi` accepts the decimal forms Go's `strconv.Atoi` accepts. Its value range is int64; the error texts of `strconv` are not modelled.
- The unrecognised `risk_level` values are kept as they are. The code only replaces an empty risk level with "medium", and the model follows the code.
- DOC and DOCX files succeed with a placeholder text, following the code. No extraction is attempted.
- The file-size message says "20MB" while the configured default limit is 10 MB (`config.go`). The model keeps the message text and takes the limit as a parameter.
- The "Account is deactivated" answer of `RequireAuth` cannot be produced (`AuthMiddleware.DeactivatedNeverAnswered`): the service already refuses inactive users.
- The `users.email` UNIQUE constraint is taken from the test schema, because the production schema is not part of this model.
- `GetValueAsString`, `Close`, `NewAIService` and the repository constructors hold no logic worth modelling.
- The chat endpoints' handlers are not part of this model; only the chat repository is.
- ReportStore.Delete: the deletion of a report's chat messages is not modelled. The source says they are removed by an ON DELETE CASCADE foreign key (`models/report.go:184`, with foreign keys turned on in `database/setup.go:24`), but the chat_messages table definition is not part of this model. The report and chat stores are therefore independent, and after a report is deleted its messages remain in `ChatStore`.
- Sql.Query: rows whose `ORDER BY` keys are equal are returned in ascending id order. This is a modelling assumption: SQLite leaves the order of such rows undefined, and the sort keys (`upload_date`, `created_at`) have one-second resolution, so rows written in the same second tie. `Sql.QueryPagesTile`, `ReportStore.GetByUserIDPages`, `ChatStore.GetByReportIDPages`, `UserStore.ListPages` and `ReportHandlers.ListingPagesTile` hold only under this assumption; with SQLite, a tied row can move between two paged queries.
