# Trivia board game back end: the session engine in Dafny

This project models the game-session engine of a trivia back end written in
TypeScript (Express routes over a Supabase store). A player is created, starts
a session of sixteen questions (four each from Sports, Science, Music and
Technology), and answers them one at a time. The session is won when the
player has answered every question and earned at least 80% of the total
possible score. Otherwise it is lost.

Every handler is modelled as a pure function. It takes an immutable `Store`
(users, questions, sessions and answers) and the request fields, and returns a
`Step`: a tagged reply together with the store it leaves behind. Request
fields are a small `Json` datatype, so a missing field, `null`, a number and a
string are told apart the way the handlers tell them apart.

Modules, in dependency order:

- `Wrappers`, `Seqs`: `Option` and `Result`, plus order-preserving
  `filter`/`find`/`slice` with the lemmas the routes need.
- `Text`: ECMAScript `trim` with its exact whitespace set, UTF-16 `length`,
  and `parseInt(s, 10)`.
- `UserHelpers`: the identifier pattern and the username rule.
- `Model`: the entities, the store and the primary-key lookups.
- `Shuffle`: the Fisher–Yates shuffle.
- `Scoring`: the score recomputation and the 80% rule.
- `Provider`: the store operations the service layer delegates to: the
  category-quota draw, `createSession` and `getSessionProgress`.
- `Database`: the service layer's own helpers (in-use and membership checks,
  duplicate-answer lookup, ordered question fetch, partial session update).
- `Sessions`: `POST /sessions`, `GET /sessions/:id`,
  `POST /sessions/:id/answer` and `GET /sessions`.
- `Users`: `POST /users` and `GET /users/:id`.

Store semantics follow the service layer in `src/data/database.ts`, which
delegates to `src/data/supabase-provider.ts`. That is the contract the routes
call and the tests mock. The session route file constructs a different
provider class, and all but one of its calls go to methods only the service
layer has. The exception is the question lookup in `POST /sessions/:id/answer`
(`src/routes/sessions.ts:299`), which calls `getQuestionById`, a name only the
providers define. It is modelled as the service's `getTriviaQuestionById`
(`src/data/database.ts:31-33`), which delegates to the provider's
`getQuestionById`; that is the method `src/__tests__/sessions.test.ts:149` and
`:205` mock. Both lookups return the row with the id or nothing, so the model
does not depend on which one is meant.

Randomness is a parameter: `rand(i)` stands for `Math.random()`, so the index
Fisher–Yates swaps with is any value in `[0, i]`. The comparator-sort shuffle
of a category block is modelled as the same "some permutation". Nothing is
claimed about uniformity.

Session creation draws twice. The reply lists the questions of one draw
(`shown`), and `createSession` makes its own draw (`stored`) for the session
row. The model keeps the two draws apart and proves only that both have the
quota's shape.

## Model

| member | source | states |
|---|---|---|
| Model.FindQuestion | src/data/supabase-provider.ts:114-129 | `getQuestionById`, reached from sessions.ts:299 and from `getTriviaQuestionById`: absent exactly when no row has the id; a found row has the id and is in the table |
| Model.FindSession | src/data/supabase-provider.ts:223-238 | `getSessionById`: absent exactly when no session has the id; a found session has the id and is in the table |
| Model.AnswersForSession | src/data/supabase-provider.ts:310-322 | the session's answers: every one belongs to the session, every answer of the session is included, and they keep the table's (`answered_at`) order |
| Model.AnswerFor | src/routes/sessions.ts:140 | `answers.find(a => a.question_id === id)`: absent exactly when no answer is for the question; otherwise the earliest answer for it |
| Model.Ids | src/data/supabase-provider.ts:196 | the drawn ids, one per question, in draw order |
| Shuffle.Swap | src/data/database.ts:43-44 | exchanging two entries keeps the length and the multiset |
| Shuffle.ShuffleDown | src/data/database.ts:42-45 | each step swaps position `i` with some index in `[0, i]`; the result keeps length and multiset |
| Shuffle.ShuffleArray | src/data/database.ts:40-47 | `shuffleArray` returns a permutation of its input: same length, same multiset |
| Shuffle.ShuffleKeepsElements | src/data/database.ts:40-47 | an element is in the shuffled array exactly when it is in the input |
| Shuffle.SwapSelf | src/data/database.ts:43-44 | swapping a position with itself changes nothing |
| Shuffle.ShuffleDownStay | src/data/database.ts:42-45 | a step whose random index is its own position leaves the array as it is |
| Shuffle.ShuffleDownIdentity | src/data/database.ts:42-45 | with every random index equal to its own position the shuffle returns the input unchanged |
| Scoring.EarnedIsScoreOfCorrect | src/routes/sessions.ts:359-367 | the recomputed score is the total score of exactly those session questions whose earliest answer is correct |
| Scoring.EarnedBounds | src/routes/sessions.ts:359-367 | with non-negative question scores, 0 ≤ earned ≤ total possible |
| Scoring.PercentageThreshold | src/routes/sessions.ts:374-381 | the real percentage is ≥ 80 exactly when the total is positive and 100·earned ≥ 80·total; a zero total never wins |
| Scoring.WinExamples | src/__tests__/comprehensive.test.ts:356-397 | with sixteen 10-point questions, 140 or 130 points win and 120 loses; a session with no possible score never wins |
| Provider.SessionQuotaShape | src/data/database.ts:35-38 | the session quota is Sports, Science, Music, Technology with 4 each, 16 in total |
| Provider.FetchCategory | src/data/supabase-provider.ts:167-171 | the category fetch returns exactly `count` rows, or every row of the category when there are fewer; they are the category's first rows in table order |
| Provider.GetRandomQuestionsByCategory | src/data/supabase-provider.ts:163-187 | fails exactly when some category has fewer rows than its count, naming the first such category with required and available counts; on success the length is the sum of the counts and the result is one block per category, in quota order |
| Provider.DrawFailsLater | src/data/supabase-provider.ts:163-178 | a shortfall in a later category, after a well-stocked first one, is the draw's first shortfall |
| Provider.DrawFitsLater | src/data/supabase-provider.ts:163-178 | no shortfall at the head or further on means no shortfall at all |
| Provider.ShuffleBlock | src/data/supabase-provider.ts:181-183 | a shuffled block is a permutation of the fetched rows and all of it has the requested category |
| Provider.BlocksFitLength | src/data/supabase-provider.ts:163-187 | a draw made of quota blocks has the total length of the quota |
| Provider.BlockCategory | src/data/supabase-provider.ts:166-186 | the i-th question of block k has block k's category |
| Provider.CreateSession | src/data/supabase-provider.ts:190-221 | a new session is `in_progress` with score 0 and no answers, selects the 16 drawn ids in draw order and is put in front of the listing; it succeeds exactly when the draw succeeds and the id is unused; a failure changes nothing |
| Provider.GetSessionProgress | src/data/supabase-provider.ts:340-380 | absent exactly for an unknown session; `questions_remaining` is the fetched questions minus the answered ones; the current question is absent exactly when none remain and the next one is present exactly when two or more remain; the current question is the first unanswered fetched question and the next one the second; the percentage is the session score over the total possible score |
| Database.GetRandomQuestionsForSession | src/data/database.ts:35-38 | a successful session draw is 16 questions in blocks of 4 Sports, Science, Music, Technology; it fails exactly when one of the four categories is short |
| Database.SessionDrawShape | src/data/database.ts:35-38 | any draw fitting the session quota has that 4×4 block shape |
| Database.IsQuestionInUse | src/data/database.ts:101-108 | true exactly when some `in_progress` session selects the question |
| Database.IsQuestionInSession | src/data/database.ts:130-133 | false for an unknown session; otherwise true exactly when the session found by that id selects the question |
| Database.GetUserAnswer | src/data/database.ts:135-138 | absent exactly when no answer has this session and question; otherwise the earliest such answer in the table |
| Seqs.FindFirstFiltered | src/data/database.ts:135-138 | searching the session's answers for a question finds the first answer with both the session and the question |
| Seqs.FilterHead | src/data/supabase-provider.ts:366-368 | the first element a filter keeps is the first element passing its test |
| Database.ResolveQuestions | src/data/database.ts:118-123 | the fetch loop returns, in selection order and once per selection entry, the stored question of every selected id that exists, and nothing else |
| Database.ResolveAllPresent | src/data/database.ts:118-123 | when every selected id exists, the fetch returns one question per id, in selection order |
| Database.ResolveFindsPresent | src/data/database.ts:118-123 | a selected id whose question exists is fetched |
| Database.GetSessionQuestions | src/data/database.ts:114-124 | `[]` for an unknown session; otherwise the stored questions of the selected ids that exist, in selection order and once per selection entry |
| Database.InSessionIsFetched | src/data/database.ts:114-133 | a question that exists and is in the session is among the session's fetched questions |
| Database.Patch | src/data/database.ts:140-149 | status changes only when given; `completed_at` changes only when a status and a time are both given; the counters change only when both are given; identity, owner, selection and timing never change |
| Database.UpdateRows | src/data/supabase-provider.ts:253-282 | the update touches exactly the rows with the id |
| Database.FindAfterUpdate | src/data/database.ts:140-149 | after an update the session is found patched and every other id finds what it found before |
| Database.UpdateKeepsOthers | src/data/supabase-provider.ts:253-282 | every id other than the updated one finds the same row as before |
| Database.UpdateGameSession | src/data/database.ts:140-149 | only the sessions table changes; each row with the id becomes its patch and every other row is untouched; the returned session is the patched one, present exactly when the session existed |
| Sessions.At | src/routes/sessions.ts:152-155 | `answers[i]` is defined exactly for an index in range |
| Sessions.Tally | src/routes/sessions.ts:171-186 | answered count, question count, the score of the correctly answered questions, the total possible score and `questions_remaining` = total − answered |
| Sessions.Publish | src/routes/sessions.ts:83-90 | the creation reply lists every drawn question without its correct answer |
| Sessions.CategorySummary | src/routes/sessions.ts:67-70 | a category is a key exactly when some question has it, and its value is the number of such questions |
| Sessions.SummaryFromCounts | src/routes/sessions.ts:67-70 | the summary is determined by the per-category counts |
| Sessions.BlockCount | src/routes/sessions.ts:67-70 | a block of one category counts wholly for it and not at all for any other |
| Sessions.SessionDrawSummary | src/routes/sessions.ts:67-82 | for a session draw the summary is exactly 4 each for the four categories |
| Sessions.StartSession | src/routes/sessions.ts:51-64 | the draw fails with 400 exactly when a category is short; a colliding new id fails with 500; on success the store gains exactly the new `in_progress` row and the reply shows the first draw's 16 questions |
| Sessions.OpenSession | src/routes/sessions.ts:63-90 | once the listed draw succeeded, creation fails only on a colliding id; otherwise the new row holds the stored draw's 16 ids and the reply lists the listed draw with 4 per category |
| Sessions.CreateSessionRoute | src/routes/sessions.ts:10-106 | checks in order: user id a non-blank string, UUID shape, user exists, `time_limit` absent or positive, draw succeeds; the first failure decides the error and changes nothing; on success the row is owned by the requested user, `in_progress`, with the second draw's ids |
| Sessions.CreateKeepsIdsUnique | src/data/supabase-provider.ts:190-210 | creating a session keeps session ids unique |
| Sessions.ViewQuestion | src/routes/sessions.ts:139-168 | a question's view carries an outcome exactly when it has an answer; the outcome holds that earliest answer's index and correctness and the question's correct index, with each answer text present exactly when its index is in range |
| Sessions.GetSessionRoute | src/routes/sessions.ts:109-227 | blank id 400, unknown session 404; otherwise the session's fields, the recomputed progress, and per question a correct index exactly for answered questions |
| Sessions.NewStatus | src/routes/sessions.ts:370-383 | with all questions answered the status is won exactly when 100·score ≥ 80·total with total > 0, otherwise lost; before that it stays `in_progress` |
| Sessions.PatchSettles | src/data/database.ts:140-149 | an update carrying a status and both counters yields exactly the settled row |
| Sessions.UpdateSettlesRows | src/data/supabase-provider.ts:253-282 | an update with a status settles exactly the rows of its session |
| Sessions.WriteBack | src/routes/sessions.ts:377-391 | the session row gets the recomputed counters and the new status, `completed_at` is set exactly on completion, and no other session changes |
| Sessions.Record | src/routes/sessions.ts:337-462 | an accepted answer is appended with `is_correct` ⇔ index = correct index; the count rises by one; the reply's progress equals the recomputation over the updated store; final results appear exactly on completion |
| Sessions.SubmitAnswer | src/routes/sessions.ts:230-467 | accepted exactly when every check passes; a rejection changes nothing; an acceptance appends exactly one answer, settles the session by the 80% rule when complete and leaves every other session alone |
| Sessions.ShapeRejection | src/routes/sessions.ts:236-269 | a malformed request is refused for the first of: blank session id, missing user id, missing question id, answer index not a non-negative integer; each exactly when the earlier ones pass and its own fails |
| Sessions.SessionRejection | src/routes/sessions.ts:271-296 | a well-formed request for a bad session is refused as unknown (404), someone else's (403) or no longer in progress (400), each exactly when the earlier ones pass |
| Sessions.QuestionRejection | src/routes/sessions.ts:298-335 | for a good session the refusal is, in order: unknown question (404), question not in the session, index past the answers, already answered (409), each exactly when the earlier ones pass |
| Sessions.SubmitCheckOrder | src/routes/sessions.ts:236-335 | a submission is accepted exactly when every check passes; otherwise the reply is the first failing layer's rejection (shape, then session, then question) and the store is unchanged |
| Sessions.ShapeErrorsIgnoreStore | src/routes/sessions.ts:236-269 | a malformed request gets the same rejection whatever the store holds |
| Sessions.TerminalSessionsAreFinal | src/routes/sessions.ts:290-296 | a won, lost or expired session is never changed by any submission |
| Sessions.StatusTransitions | src/routes/sessions.ts:377-391 | a submission either leaves a session as it was or moves an `in_progress` one to `in_progress`, won or lost, keeping owner and selection; a settled session carries its completion time |
| Sessions.SecondSubmissionRejected | src/routes/sessions.ts:328-335 | after an accepted answer, every submission for the same session and question is rejected and changes nothing |
| Sessions.AnsweredIsRefused | src/routes/sessions.ts:328-335 | a request for a question the session already answered is never accepted |
| Sessions.SubmitKeepsOneAnswerPerQuestion | src/routes/sessions.ts:328-346 | the answer table never holds two answers for one session and question |
| Sessions.SubmitScoreBounds | src/routes/sessions.ts:359-367 | with non-negative scores, 0 ≤ reported score ≤ total possible |
| Sessions.SubmitThenView | src/routes/sessions.ts:171-213 | viewing right after an accepted answer shows the same progress and status the submission reported |
| Sessions.SettledRowsKeepUse | src/data/database.ts:101-108 | settling one in-progress session's rows keeps ids unique and makes no other row in progress |
| Sessions.SubmitNeverAddsUse | src/data/database.ts:101-108 | with unique session ids, a submission never puts a question into use |
| Sessions.EffectiveLimit | src/routes/sessions.ts:488-493 | the limit applies exactly when it is a non-empty string that parses to a positive integer |
| Sessions.SelectSessions | src/routes/sessions.ts:479-493 | every listed session is in the store and passes the status and user filters |
| Sessions.ListingIsOneFilter | src/routes/sessions.ts:479-493 | the two filters are one order-preserving conjunction, cut to the limit when one applies |
| Sessions.ListingIsComplete | src/routes/sessions.ts:479-485 | without a limit every session passing both filters is listed |
| Sessions.DisplayName | src/routes/sessions.ts:504 | the stored non-empty username, otherwise "Unknown User" |
| Sessions.Summarize | src/routes/sessions.ts:550-555 | over all sessions: active, won and lost are the numbers of `in_progress`, `user_won` and `user_lost` sessions; completed = won + lost and active + completed ≤ total |
| Sessions.ListSessions | src/routes/sessions.ts:470-582 | the rows are the selected sessions in store order, each carrying the session's id, user id, display name, status, answered count, score, start and completion times, time limit and result label; at most the limit; and the summary is over every session |
| Sessions.GameResultDistinct | src/routes/sessions.ts:518-520 | each status has its own result label |
| Users.CreateUserRoute | src/routes/users.ts:12-48 | a present non-string username is 400 before the length check; an invalid one is 400; either rejection creates nothing; otherwise exactly one user is added, with the trimmed name or none |
| Users.GetUserRoute | src/routes/users.ts:54-95 | blank id 400, malformed id 400, unknown id 404, otherwise the stored user |
| Users.ValidUserIdNotBlank | src/routes/users.ts:58-72 | a well-formed identifier always gets past the blank check |
| Users.MalformedIdIgnoresStore | src/routes/users.ts:66-74 | a malformed identifier is refused whatever users exist |
| Users.CreateKeepsUsernamesWellFormed | src/routes/users.ts:26-35 | creating a user keeps every stored name valid and trimmed |
| Users.CreateUserExamples | src/__tests__/users.test.ts:56-85 | a numeric name is refused as not a string; an empty or whitespace-only name is refused as invalid; neither creates anything |
| Users.CreateUserRefusesLongName | src/__tests__/users.test.ts:87-97 | a 51-character name is refused as invalid and creates nothing |
| Users.CreateUserAcceptsExample | src/__tests__/users.test.ts:31-52 | with an unused identifier, "testplayer" is created and stored as given |
| Users.GetUserExamples | src/__tests__/users.test.ts:141-148 | "invalid-uuid-format" is refused with 400 whatever users exist |
| Users.CreateThenGet | src/routes/users.ts:35-91 | fetching a just-created user by its identifier returns exactly that user |
| UserHelpers.UserIdGroups | src/utils/userHelpers.ts:17-20 | the identifier pattern holds exactly for 36 characters in 8-4-4-4-12 hex groups, either case, with `4` opening the third group and 8, 9, a or b opening the fourth |
| UserHelpers.ValidUserIdIsTrimmed | src/routes/sessions.ts:64 | a well-formed identifier is unchanged by `trim`, so the session owner is the requested id |
| UserHelpers.UserIdExamples | src/__tests__/utils.test.ts:6-7 | "invalid-uuid" and the empty string are rejected |
| UserHelpers.UserIdAccepted | src/__tests__/utils.test.ts:5 | "123e4567-e89b-42d3-9456-426614174000" is accepted |
| UserHelpers.UsernameCharacterization | src/utils/userHelpers.ts:27-29 | a name is valid exactly when it is not blank and trims to at most 50 UTF-16 units (at most 50 characters in the Basic Multilingual Plane) |
| UserHelpers.PlainUsernameLength | src/utils/userHelpers.ts:27-29 | a name without surrounding whitespace in the Basic Multilingual Plane is its own trim and is valid exactly when it has at most 50 characters |
| UserHelpers.UsernameTrimInvariant | src/routes/users.ts:35 | the trimmed name the route stores is valid exactly when the original is |
| UserHelpers.UsernameExamples | src/__tests__/utils.test.ts:11-13 | "player123" is valid; "" and "   " are not |
| Text.Trim | src/utils/userHelpers.ts:28 | `trim` returns the part of its input between a whitespace prefix and a whitespace suffix; that part neither starts nor ends in whitespace and is empty exactly for a blank string |
| UserHelpers.TrimIsSlice | src/routes/users.ts:35 | every character of the trimmed name comes from the submitted name |
| Text.TrimUnpadded | src/utils/userHelpers.ts:28 | a string that neither starts nor ends with whitespace is its own trim |
| Text.TrimIdempotent | src/routes/users.ts:35 | trimming twice is trimming once |
| Text.Utf16Length | src/utils/userHelpers.ts:28 | the UTF-16 length lies between the character count and twice it |
| Text.ParseInt10 | src/routes/sessions.ts:489 | `parseInt(s, 10)` is NaN exactly when no digit follows the leading whitespace and sign |
| Text.ParseDecimal | src/routes/sessions.ts:489 | the decimal spelling of n parses back to n |
| Text.ParseSpelled | src/routes/sessions.ts:489 | after any leading whitespace and an optional sign, the decimal spelling of n reads as n (or −n after `-`), whatever non-digit text follows |
| Text.ParseDigits | src/routes/sessions.ts:489 | a run of digits after whitespace and a sign reads as its value, with the sign's polarity |
| Text.ParseTrailingExample | src/routes/sessions.ts:489-490 | "10abc" reads as 10, so such a limit applies |
| Text.ParsePaddedExample | src/routes/sessions.ts:489-490 | "  +5" reads as 5 |
| Text.ParseNegativeExample | src/routes/sessions.ts:489-490 | "-3" reads as −3, so such a limit is ignored |

## Left out

- SQL and Supabase plumbing are left out: connections, query building, and the thrown `error` results of each query. Each store operation is a total function on the abstract store.
- The postgresql provider duplicates the Supabase one and is not part of this model. So are the legacy service in `src/services/database.ts`, the compiled JavaScript copies and the question routes, which are stubs.
- Concurrency: handlers run one at a time. The duplicate-answer check is a read then a write, and concurrent submissions are not modelled.
- Timestamps are uninterpreted parameters (`now`). Only whether `completed_at` is set or kept is modelled.
- Floating point and `Math.round`: every percentage display field is left out, as are `win_rate`, `progress_percentage` and the fixed `/16` listing maths. Numbers in requests are exact reals with no NaN or Infinity.
- Reply messages, `explanation`, `session_rules`, `game_rules` and `filters_applied` are fixed or display-only text and are left out.
- Store errors: an exception from any store call is left out. The routes hand such exceptions to `handleDatabaseError` and `handleUserError`, imported at src/routes/sessions.ts:3 and src/routes/users.ts:3. Those helpers are not part of this model: src/utils/errorHandler.ts exports only the `errorHandler` middleware. The one exception kept is an insert that collides with an existing id. For users it becomes `CreateUserFailed` with status 500, which is what src/__tests__/users.test.ts:99-113 expects. For sessions it becomes `CreateFailed`, and its 500 is an assumption: nothing in the source fixes that status.
- Sessions.DisplayName: a user lookup that throws also yields "Unknown User" in the source; lookups never throw in the model.
- Provider.GetRandomQuestionsByCategory: the comparator sort `sort(() => Math.random() - 0.5)` is modelled as a Fisher–Yates permutation driven by `rand`. The model claims only that the block is some permutation of the fetched rows, not which permutations are reachable or how likely they are.
- Provider.FetchCategory: without an `order` clause, `limit(count)` fixes how many rows of the category come back but not which ones; the model takes the first ones in table order.
- Sessions.CreateSessionRoute: the reply's questions and the stored session's questions come from two independent draws. The model proves both have the quota's shape, and it does not claim the reply lists the questions the session will accept.
- Provider.GetSessionProgress: `score_percentage` is returned as the exact real quotient, not a floating-point value.
- Provider.GetSessionProgress: the `.in('id', selected_questions)` fetch has no `order` clause, so the source fixes no row order. The model takes table order, and so `current_question` and `next_question` are the first two unanswered questions in table order.
- Users.CreateUserRoute: `uuidv4()` is the parameter `freshId`; the model does not claim it is well formed or unused.
- Timestamps are compared only for presence. An empty timestamp string, which `toISOString` never produces, would be skipped by `if (completed_at)` in the source but is written in the model.
