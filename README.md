# ask-app forum core in Dafny

A verified model of the data rules behind the ask-app forum backend. Users post
questions and answers and like questions. The model covers the repositories, which
talk to the database through GORM, and the services above them.

## What is modelled

- **Store** (`store.dfy`). One `Database` object holds four tables and the
  auto-increment counters of the questions, answers and users tables.
  - Each table is a sequence of rows in storage order.
  - The tables are questions, question likes, answers and users.
  - `Valid()` is the invariant every mutating method keeps. Primary keys are unique
    and positive, and stay below their counter. User emails are unique, as the
    `uniqueIndex` tag of `entity/user.go` demands.
- **GORM's Save** (`SaveQuestion`, `SaveAnswer`, `SaveUserRow`).
  - A row with id 0 is appended under the next counter value.
  - A row with an id replaces the stored row with that id, or is inserted under it.
    The counter then moves past that id.
  - A user whose email another row already holds is refused, and nothing changes.
  - Once a counter is past the largest uint64, an insert stores nothing.
- **Reload after Save** (`ReloadQuestion`, `ReloadAnswer`). Insert and update of
  questions and answers reload the row with `Find` after saving it.
  - A row with a key reads back the stored row with that key.
  - A zero key, which is what remains when the Save stored nothing, adds no
    condition. The first stored row is then returned, which is someone else's row.
- **Lookups.** `Find` with an id returns the row, or the zero entity when no row has
  that id. The code reads every absent value as that zero entity.
- **Question likes** (`question_repository.dfy`).
  - The likes table is a multiset of `(question, user)` pairs. `Like` appends a pair.
  - `DeleteLike` removes every row of its pair.
  - `QuestionPage` derives three values:
    - the like count of the question;
    - whether the caller has a like row for it;
    - whether the caller owns it.
- **Listings.**
  - `AllQuestions` gives the 20 newest questions.
  - `GetNumberOfLikesForQuestion` gives the 5 questions with the largest stored
    `NumOfLikes`.
  - `UsersWithMostAnswers` gives every answer, ordered by user id, descending.
  - `GetAnswers` gives the per-user answer count, largest first.
- **Ownership** (`question_service.dfy`, `answer_service.dfy`, `decimal.dfy`).
  - `IsAllowedToEdit` compares the caller's id string with `fmt.Sprintf("%v", owner)`.
    `Decimal.Render` models that rendering.
  - The string test therefore accepts exactly the canonical numeral of the owner.
  - For a missing row, the owner reads as 0, so exactly the string `"0"` is allowed.
- **Controller gate** (`controllers.dfy`).
  - The update and delete handlers reach the service only when `IsAllowedToEdit`
    holds.
  - An allowed update is stamped with the caller's id, parsed back with
    `strconv.ParseUint`. So an update never moves a row to another owner.
- **Credentials** (`user_repository.dfy`, `auth_service.dfy`).
  - Passwords are hashed on save.
  - On update, an empty password keeps the stored hash.
  - Log-in needs a stored user with that email whose hash matches the password.
  - `IsDuplicateEmail` is true exactly when the email is still free, despite its name.
- **Pagination** (`pagination.dfy`).
  - The loop over the query map fills limit, page and sort, from defaults 20, 1 and
    `"created_at desc"`.
  - It uses the last value of each key.
  - Limit and page pass through `strconv.Atoi` with its error dropped.
  - Atoi follows Go's strconv. Strings of 1 to 18 bytes take a fast path; all
    others go through ParseInt, whose digit loop reads left to right.
  - The loop stops at the first non-digit with a syntax error, which reads as 0.
  - It also stops at the first digit that would carry the value past 64 bits,
    with a range error, which reads as the end of int64 on the side of the sign.
  - So `"99999999999999999999x"` reads as the largest int64, not as 0.

Bcrypt is the uninterpreted function `UserRepository.hash`, which takes the password
and a salt argument. Its comparison is the uninterpreted `AuthService.matches`. The
caller's identity is the claim string, given as an input.

## Model

| member | source | states |
|---|---|---|
| Decimal.Render | service/question-service.go:74 | `%v` of an unsigned number: a canonical numeral, with no sign and no leading zero, that denotes the number |
| Decimal.RenderValue | service/question-service.go:74-75 | every canonical numeral is the rendering of its own value, so rendering and reading are inverse |
| Decimal.RenderMatches | service/question-service.go:74-75 | a string equals the rendering of n exactly when it is canonical and denotes n |
| Decimal.ParseUint | controller/question-controller.go:140 | ParseUint(s, 10, 64) succeeds exactly on non-empty digit strings within 64 bits, with their value |
| Decimal.ScanFrom | utils/pagination.go:22-25 | ParseUint's digit loop, resumed after a digit prefix: overflow within the digits read so far is a range error, whatever follows; otherwise a non-digit is a syntax error and the end of the string gives its value |
| Decimal.ScanUintCases | utils/pagination.go:22-25 | how ParseUint ends, by the digits in front of the first non-digit: a range error once they leave 64 bits, a syntax error for the empty string or a non-digit reached within 64 bits, and the value of a digit string within 64 bits |
| Decimal.ParseRender | controller/question-controller.go:140-142 | parsing what `%v` wrote gives back the same uint64 |
| QuestionRepo.FindQuestion | repository/question-repository.go:47-51 | the stored row with that id, or the zero question when none has it |
| QuestionRepo.SaveQuestion | repository/question-repository.go:31-41 | Save keeps keys unique and below the counter; an id of 0 appends under the counter's id and advances the counter, or stores nothing once the counter is exhausted; any other id is stored as given: a lookup of that id then finds exactly the row, the table grows by one only if the id was new, and the counter moves past the id; every other id's lookup is unchanged |
| QuestionRepo.ReloadQuestion | repository/question-repository.go:33 | `Find` after Save: a key reads back the stored row with that key, or leaves the row as it was when no row has it; a zero key scans some stored row, or leaves the row as it was on an empty table |
| QuestionRepo.SaveAndReloadQuestion | repository/question-repository.go:31-41 | Save then reload: the table and counter of the Save; the returned row is the saved row unless a zero-id Save stored nothing, and then some stored row, or the argument on an empty table |
| QuestionRepo.ExhaustedInsertReturnsStoredRow | repository/question-repository.go:31-35 | once the counter is past uint64, inserting a row with id 0 leaves the table as it was and returns a stored row with a nonzero id, never the argument |
| QuestionRepo.Page | repository/question-repository.go:65-69 | a missing question gives the zero result; otherwise the id and body of the question, the number of like rows for it, liked iff the pair has a row, and editable iff the caller owns it |
| QuestionRepo.LikeAddsOneRow | repository/question-repository.go:71-76 | each Like adds exactly one row for the pair and one to the question's like count, whatever was stored before |
| QuestionRepo.LikeTwiceTwoRows | repository/question-repository.go:71-76 | two Likes of the same pair leave two more rows for it, so likes form a multiset |
| QuestionRepo.Unlike | repository/question-repository.go:78-85 | the intended DeleteLike: a row stays exactly when it belongs to another pair, and the pair is left with no rows |
| QuestionRepo.DeleteLikeAsWritten | repository/question-repository.go:83-84 | DeleteLike as written: every like row stays, and the pair keeps its row count |
| QuestionRepo.UnlikeRemovesPair | repository/question-repository.go:78-85 | DeleteLike leaves no row of its pair and keeps every other row with its multiplicity |
| QuestionRepo.UnlikeIdempotent | repository/question-repository.go:78-85 | DeleteLike of a pair without rows changes nothing, and repeating DeleteLike changes nothing more |
| QuestionRepo.LikeThenUnlike | repository/question-repository.go:71-85 | Like followed by DeleteLike of the same pair equals DeleteLike alone, and restores the table when the pair had no rows |
| QuestionRepo.UnlikeCount | repository/question-repository.go:65-85 | DeleteLike lowers the like count of its question by exactly the pair's row count, and leaves other questions' counts alone |
| QuestionRepo.PageAfterLike | repository/question-repository.go:65-76 | after Like, the page shows one more like and liked, and nothing else changes |
| QuestionRepo.PageAfterUnlike | repository/question-repository.go:65-85 | after DeleteLike, the page loses the pair's likes and shows not liked, and nothing else changes |
| QuestionRepo.LikeUnlikeWalkthrough | repository/question-repository.go:65-85 | on question 42 owned by user 1, user 2's Like shows liked; after DeleteLike the page is 42, its body, 0 likes, not liked, not editable |
| QuestionRepo.DeleteLikeAsWrittenKeepsLike | repository/question-repository.go:83-84 | with the statements as written, a liked pair stays liked after DeleteLike; the intended removal shows it not liked |
| QuestionRepo.QuestionRepository.InsertQuestion | repository/question-repository.go:31-35 | the store ends as SaveQuestion of the row and the returned row is ReloadQuestion of the saved one, as SaveAndReloadQuestion states; the store invariant is kept |
| QuestionRepo.QuestionRepository.UpdateQuestion | repository/question-repository.go:37-41 | the same Save and reload as InsertQuestion, as SaveAndReloadQuestion states; a row with an id is returned as given and is then what a lookup of that id finds; every other id's lookup is unchanged |
| QuestionRepo.QuestionRepository.DeleteQuestion | repository/question-repository.go:43-45 | removes the row with that id and no other: its lookup gives the zero question, all other lookups are unchanged |
| QuestionRepo.QuestionRepository.FindQuestionByID | repository/question-repository.go:47-51 | the stored row with that id, or the zero question |
| QuestionRepo.QuestionRepository.AllQuestions | repository/question-repository.go:53-57 | min(20, n) stored questions, newest first, and none left out is newer than one returned |
| QuestionRepo.QuestionRepository.GetNumberOfLikesForQuestion | repository/question-repository.go:59-63 | min(5, n) stored questions by stored NumOfLikes, descending, and none left out has more than one returned |
| QuestionRepo.QuestionRepository.QuestionPage | repository/question-repository.go:65-69 | the page of the current tables |
| QuestionRepo.QuestionRepository.Like | repository/question-repository.go:71-76 | appends one row for the pair; questions, and so stored NumOfLikes, are untouched |
| QuestionRepo.QuestionRepository.DeleteLike | repository/question-repository.go:78-85 | the likes become the old likes without the pair's rows; questions are untouched |
| AnswerRepo.FindAnswer | repository/answer-repository.go:44-48 | the stored answer with that id, or the zero answer |
| AnswerRepo.SaveAnswer | repository/answer-repository.go:28-38 | GORM Save on answers: the same rule as for questions; an id of 0 appends under the counter's id, any other id is stored as given and found by a lookup of that id, and every other id's lookup is unchanged |
| AnswerRepo.ReloadAnswer | repository/answer-repository.go:30 | `Find` after Save: a key reads back the stored row with that key, or leaves the row as it was when no row has it; a zero key scans some stored row, or leaves the row as it was on an empty table |
| AnswerRepo.SaveAndReloadAnswer | repository/answer-repository.go:28-38 | Save then reload: the table and counter of the Save; the returned row is the saved row unless a zero-id Save stored nothing, and then some stored row, or the argument on an empty table |
| AnswerRepo.ExhaustedInsertReturnsStoredRow | repository/answer-repository.go:28-32 | once the counter is past uint64, inserting a row with id 0 leaves the table as it was and returns a stored row with a nonzero id, never the argument |
| AnswerRepo.AnswerRepository.InsertAnswer | repository/answer-repository.go:28-32 | the store ends as SaveAnswer of the row and the returned row is ReloadAnswer of the saved one, as SaveAndReloadAnswer states; the store invariant is kept |
| AnswerRepo.AnswerRepository.UpdateAnswer | repository/answer-repository.go:34-38 | the same Save and reload as InsertAnswer, as SaveAndReloadAnswer states; a row with an id is returned as given and is then what a lookup of that id finds; every other id's lookup is unchanged |
| AnswerRepo.AnswerRepository.DeleteAnswer | repository/answer-repository.go:40-42 | removes the row with that id and no other |
| AnswerRepo.AnswerRepository.FindAnswerByID | repository/answer-repository.go:44-48 | the stored answer with that id, or the zero answer |
| AnswerRepo.AnswerRepository.AllAnswers | repository/answer-repository.go:50-54 | every stored answer, each as often as stored |
| AnswerRepo.AnswerRepository.UsersWithMostAnswers | repository/answer-repository.go:56-60 | every stored answer, ordered by user id, descending, with no count and no limit |
| UserRepo.FindUser | repository/user-repository.go:44-46 | the stored user with that id, or the zero user |
| UserRepo.FindUserByEmail | repository/user-repository.go:67-71 | the stored user with that email, or the zero user |
| UserRepo.UpsertKeepsEmailsUnique | repository/user-repository.go:35 | saving a row whose email no other row holds keeps emails unique |
| UserRepo.SaveUserRow | repository/user-repository.go:35 | Save on users: refused without change when another row holds the email; otherwise the questions' rule: an id of 0 appends under the counter's id, any other id is stored as given and found by a lookup of that id, growing the table only if the id was new; keys and emails stay unique and every other id's lookup is unchanged |
| UserRepo.UpdatedUser | repository/user-repository.go:40-47 | a non-empty password is replaced by its hash; an empty one by the password stored for that id, or the empty string when there is none; other fields kept |
| UserRepo.TallyLines | repository/user-repository.go:79-84 | the grouped join has a line for exactly the users with answers, each with that user's answer count |
| UserRepo.TallyUnique | repository/user-repository.go:79-84 | with unique user ids, the report has one line per user |
| UserRepo.MostAnswersReport | repository/user-repository.go:79-84 | lines ordered by count, descending; each from a user with at least one answer and giving that user's count; every such user present, once |
| UserRepo.UserRepository.SaveUser | repository/user-repository.go:33-38 | stores SaveUserRow of the user with its hashed password, and returns a user whose password is the hash, never the plain text |
| UserRepo.UserRepository.UpdateUser | repository/user-repository.go:40-51 | stores SaveUserRow of UpdatedUser: a new password hashed, an empty one keeping the stored hash; a user with an id and a free email is then what a lookup of that id finds; every other id's lookup is unchanged |
| UserRepo.UserRepository.VerifyCredentials | repository/user-repository.go:53-60 | some user exactly when one has that email, and then a stored user with that email; the password plays no part |
| UserRepo.UserRepository.IsDuplicateEmail | repository/user-repository.go:62-65 | the lookup succeeds exactly when some user has that email |
| UserRepo.UserRepository.FindByEmail | repository/user-repository.go:67-71 | the stored user with that email, or the zero user |
| UserRepo.UserRepository.GetAnswers | repository/user-repository.go:79-84 | the answer-count report of the current tables |
| QuestionSvc.FromCreate | service/question-service.go:40-45 | the new row carries the request's body, owner and like count, with id 0 |
| QuestionSvc.FromUpdate | service/question-service.go:50-55 | the row carries the request's id, body, owner and like count |
| QuestionSvc.QuestionService.Insert | service/question-service.go:40-48 | the store and the returned row are SaveAndReloadQuestion of the row mapped from the request |
| QuestionSvc.QuestionService.Update | service/question-service.go:50-58 | the store and the returned row are SaveAndReloadQuestion of the row mapped from the request |
| QuestionSvc.QuestionService.Delete | service/question-service.go:60-62 | the question table loses exactly the rows with that id |
| QuestionSvc.QuestionService.FindById | service/question-service.go:68-70 | the repository lookup: the row, or the zero question |
| QuestionSvc.QuestionService.IsAllowedToEdit | service/question-service.go:72-76 | for a stored question, true iff the string is the rendering of its owner; for a missing one, true iff the string is "0"; it changes no state |
| QuestionSvc.QuestionService.QuestionPage | service/question-service.go:78-80 | the repository's page for the same pair, unchanged |
| QuestionSvc.QuestionService.Like | service/question-service.go:82-84 | the likes end as the repository's Like of the same pair |
| QuestionSvc.QuestionService.DeleteLike | service/question-service.go:86-88 | the likes end as the repository's DeleteLike of the same pair |
| QuestionSvc.QuestionService.GetNumberOfLikesForQuestion | service/question-service.go:90-92 | the repository's top-5 listing, unchanged |
| QuestionSvc.AllowedIffCanonicalOwner | service/question-service.go:72-76 | allowed exactly when the string is a canonical numeral whose value is the looked-up owner |
| QuestionSvc.NonCanonicalNeverAllowed | service/question-service.go:74-75 | a non-canonical string, such as "07" or "+7", is never allowed |
| QuestionSvc.AbsentQuestionOnlyZero | service/question-service.go:72-76 | for a missing question, the rendering of u is allowed iff u is 0 |
| QuestionSvc.EditableAgreesWithAllowed | service/question-service.go:72-80 | for a stored question, the page's editable flag agrees with IsAllowedToEdit of the caller's rendering; for a missing one, "0" is allowed while the page says not editable |
| AnswerSvc.FromCreate | service/answer-service.go:36-41 | the new answer carries the request's body, question and owner, with id 0 |
| AnswerSvc.FromUpdate | service/answer-service.go:46-51 | the answer carries the request's id, body, question and owner |
| AnswerSvc.AnswerService.Insert | service/answer-service.go:36-44 | the store and the returned row are SaveAndReloadAnswer of the answer mapped from the request |
| AnswerSvc.AnswerService.Update | service/answer-service.go:46-54 | the store and the returned row are SaveAndReloadAnswer of the answer mapped from the request |
| AnswerSvc.AnswerService.Delete | service/answer-service.go:56-58 | removes only the answer with that id |
| AnswerSvc.AnswerService.All | service/answer-service.go:60-62 | every stored answer |
| AnswerSvc.AnswerService.UsersWithMostAnswers | service/answer-service.go:64-66 | every stored answer, ordered by user id, descending |
| AnswerSvc.AnswerService.FindById | service/answer-service.go:68-70 | the repository lookup: the stored answer with that id, or the zero answer |
| AnswerSvc.AnswerService.IsAllowedToEdit | service/answer-service.go:72-76 | for a stored answer, true iff the string is the rendering of its owner; for a missing one, true iff the string is "0" |
| AnswerSvc.AllowedIffCanonicalOwner | service/answer-service.go:72-76 | allowed exactly when the string is a canonical numeral whose value is the looked-up owner |
| AnswerSvc.AbsentAnswerOnlyZero | service/answer-service.go:72-76 | for a missing answer, the rendering of u is allowed iff u is 0 |
| AuthSvc.FromRegister | service/auth-service.go:47-51 | the new user carries the registration's names, email and plain password, with id 0 |
| AuthSvc.AuthService.ComparePassword | service/auth-service.go:65-73 | true iff the hash check accepts the plain password |
| AuthSvc.AuthService.VerifyCredentials | service/auth-service.go:33-43 | logged in iff a stored user has that email and the password matches that user's hash, with that user; so an unknown email and a wrong password are both rejected |
| AuthSvc.AuthService.CreateUser | service/auth-service.go:46-54 | stores SaveUserRow of the registration with its password hashed; with a free email and a working hash, logging in with the registered email and password then succeeds with the new user |
| AuthSvc.AuthService.FindByEmail | service/auth-service.go:56-58 | the stored user with that email, or the zero user |
| AuthSvc.AuthService.IsDuplicateEmail | service/auth-service.go:60-63 | true exactly when no stored user has that email |
| Paging.Clamp | utils/pagination.go:22 | a value outside int64 sticks at the nearer end, and one inside is kept |
| Paging.ParseIntCases | utils/pagination.go:22-25 | ParseInt(s, 10, 64) with its error dropped: a signed numeral's value clamped to int64; 0 for an empty string, a bare sign, and a non-digit met within 64 bits; the end of int64 on the sign's side once the digits in front of the first non-digit leave 64 bits |
| Paging.AtoiFastAgrees | utils/pagination.go:22-25 | Atoi's fast path for 1 to 18 bytes gives ParseInt's value |
| Paging.Atoi | utils/pagination.go:22-25 | always within int64, and on both of its paths the value ParseInt gives |
| Paging.OverflowBeforeJunk | utils/pagination.go:22-25 | digits beyond 64 bits decide the result before what follows is read: they read as the largest int64, or with a minus sign the smallest |
| Paging.AtoiItoa | utils/pagination.go:22-25 | Atoi reads back the decimal text of every int64, negatives included |
| Paging.AtoiSaturates | utils/pagination.go:22-25 | a numeral beyond int64 reads as the largest int64, and its negation as the smallest |
| Paging.GeneratePaginationFromRequest | utils/pagination.go:11-39 | in whatever order the keys are visited, the result takes limit and page as Atoi of their last values, sort as its last value, and the defaults for absent keys |
| Paging.Defaults | utils/pagination.go:14-16 | an empty query gives limit 20, page 1 and sort "created_at desc" |
| Paging.OtherKeysIgnored | utils/pagination.go:20-31 | adding or changing a key other than limit, page and sort changes nothing |
| Paging.LastValueWins | utils/pagination.go:19-29 | a key with several values counts only its last one, and sort is copied verbatim |
| Paging.NoRangeCheck | utils/pagination.go:21-26 | zero and negative numbers pass through, and a non-numeric value becomes 0 |
| Controllers.UpdateQuestion | controller/question-controller.go:137-150 | OK iff the caller was allowed; forbidden leaves the questions as they were; an allowed update saves the request stamped with the looked-up owner, so a stored question keeps its owner |
| Controllers.DeleteQuestion | controller/question-controller.go:168-176 | OK iff the caller was allowed; forbidden changes nothing; allowed removes exactly that id's rows |
| Controllers.UpdateAnswer | controller/answer-controller.go:108-120 | OK iff the caller was allowed; forbidden leaves the answers as they were; an allowed update keeps a stored answer's owner |
| Controllers.DeleteAnswer | controller/answer-controller.go:138-146 | OK iff the caller was allowed; forbidden changes nothing; allowed removes exactly that id's rows |

## Findings

| source | as written | input that shows it | evidently intended | confidence | as-written member | corrected member |
|---|---|---|---|---|---|---|
| repository/question-repository.go:83-84 | The raw `DELETE FROM QuestionLikes` names a table other than `question_likes`, where GORM keeps QuestionLikes rows and which QuestionPage's query reads. The following `Delete(&questionLikes)` has a zero primary key and no condition, and GORM refuses it. No like row is removed. | likes `[(42, 2)]`, then `DeleteLike(42, 2)`: the page for user 2 still says liked, with one like | remove every row of the pair | medium, not executed; it holds unless the database has a table literally named `QuestionLikes` | QuestionRepo.DeleteLikeAsWrittenKeepsLike | QuestionRepo.QuestionRepository.DeleteLike |

The rest of the model uses the corrected `DeleteLike`, which is the `Unlike` function.

## Consequences of the code

- **Likes.** Every `Like` inserts a row, and the likes table has no unique
  constraint. Likes are therefore a multiset: liking twice counts twice.
- **Missing resources.**
  - A lookup of a missing question or answer yields owner 0. So the caller string
    `"0"` is allowed to edit it.
  - `QuestionPage` of a missing question returns the zero result.
- **Ownership test.** Ownership compares the caller string with the `%v` text of the
  owner id. So only canonical numerals can match.

## Left out

- HTTP routing, request binding, JSON responses and CORS. Of the controllers, only
  the ownership gate of update and delete is modelled.
- JWT validation. The caller's id string is an input.
- Bcrypt. Hashing is the function `hash`, which takes the salt as an argument, and
  the comparison is the predicate `matches`.
  - Bcrypt's 72-byte limit and its panic on failure are not modelled.
- smapping field mapping and the validator's binding tags (`required`, `email`,
  `min=5`). Mapping is written out field by field.
- GORM `Preload` of associations, cascading foreign keys and the automatic
  `CreatedAt`/`UpdatedAt` stamps. Timestamps are integers carried as given.
- The SQL collation of emails. Emails compare as exact strings.
- The id column of like rows. Nothing reads it.
- The tie order of `ORDER BY ... DESC`. The model fixes one order among equals.
  - Top, AllQuestions and GetNumberOfLikesForQuestion state their contents only up
    to that order.
- The duplicate `NumOfLikes` alias in QuestionPage's query. The model uses the
  counted likes, as the query's intent states.
- Auto-increment gaps after failed inserts, and database errors other than an email
  conflict.
- Go's `int` width. `NumOfLikes` and timestamps are unbounded integers; ids are
  uint64.
- `All` and `GetUserQuestions` of the question service. They call repository methods
  that do not exist.
- `ProfileUser` of the user repository and the user service. Neither is part of this
  model.
- Concurrency. Operations are sequential.
- `ParseUint(id, 0, 0)` on path parameters. Ids reach the model as numbers.
- Bytes as opposed to characters. Go's 19-byte bound for Atoi's fast path counts
  bytes, the model counts characters; both paths give ParseInt's value, so results
  agree.
