# dam-project-server route handlers, modelled in Dafny

dam-project-server is an Express and Drizzle back end for a conference app.
Its users register and log in. Admins manage conferences, the tracks of a
conference and the articles of a track. Users put questions to the
organisers, either about a conference (a "request") or about an article.

This project models the route handlers as operations on six in-memory
tables: users, conferences, tracks, articles, conference questions and
article questions. The tables are the `seq` fields of the class
`Schema.Db`, and `Db.Valid()` is the invariant they keep:

- ids are unique in every table;
- emails are unique among users;
- a question has an answer exactly when its status is "answered".

Each handler becomes one of two things:

- A read-only handler (GET) is a function that `reads db` and returns a
  `Reply`. The exception is the track schedule: its handler loops over
  the articles, so `TrackRouter.GetSchedule` is a method that changes
  nothing.
- A handler that writes is a method. It may modify only the table it
  writes, and its `ensures` gives that table's new contents as a pure
  function of the old ones. The lemmas about those functions carry the
  properties.

`Reply` has four forms:

- `Ok(status, body)` for a JSON reply;
- `Refused(status, message)` for an error with a `{ message }` body;
- `Bare(status)` for a status with no body;
- `Silent` when the handler never sends a response.

The shared modules are:

- `Tables`: the parts of the query builder the handlers use. These are
  `where`, `findFirst`, `update … set`, a serial id, `orderBy(asc(id))` and
  `limit`/`offset`.
- `Text`: `split`, SQL `lower` and `ilike '%term%'`.
- `Utils`: `extractPaginationParameters`.

There is one module per router:

| module | source file |
|---|---|
| `RequestsRouter` | routers/requestsRouter.ts |
| `QuestionRouter` | routers/questionRouter.ts |
| `QuestionsLegacy` | questions.ts |
| `TrackRouter` | routers/trackRouter.ts |
| `ArticleRouter` | routers/articleRouter.ts |
| `ConferenceRouter` | routers/conferenceRouter.ts |
| `UserRouter` | routers/userRouter.ts |
| `UserLegacy` | user.ts |

Both question tables use the datatype `Question`. Its field `target` is
the conference id or the article id.

The schedule of a track is grouped by date with a loop, as the handler's
`reduce` does. The method `TrackRouter.GroupByDate` is proved against the
specification functions `DateKeys`, `OnDate` and `Groups`.

## Model

| member | source | states |
|---|---|---|
| Schema.FindUser | routers/requestsRouter.ts:19-21 | the user lookup every authenticated handler starts with finds a row exactly when some user has the token's id, and the row it finds has that id |
| Schema.IsAdminIff | routers/requestsRouter.ts:23-25 | with unique user ids, the admin gate lets the principal through exactly when a user with that id has role "admin" |
| Tables.FindFirst | routers/articleRouter.ts:81-84 | `findFirst` returns nothing exactly when no row matches; otherwise it returns the earliest matching row |
| Tables.FindByUniqueKey | routers/conferenceRouter.ts:188-193 | when keys are unique, looking a row up by its own key finds that row |
| Tables.Filter | routers/trackRouter.ts:25-28 | a `where` keeps exactly the rows that satisfy the condition |
| Tables.FilterSame | routers/articleRouter.ts:41-54 | two conditions that agree on every row select the same rows in the same order |
| Tables.FilterUnique | routers/articleRouter.ts:56-59 | selecting rows keeps their ids unique |
| Tables.UpdateWhere | routers/articleRouter.ts:115-127 | `update … set … where` rewrites exactly the matching rows, keeps the table's length, and leaves every other row as it was |
| Tables.UpdateUnique | routers/trackRouter.ts:128-145 | an update that does not touch the id keeps ids unique |
| Tables.FreshKey | routers/trackRouter.ts:58-70 | a serial id is positive and larger than every id in the table |
| Tables.AppendFresh | routers/conferenceRouter.ts:62-84 | inserting a row with a new id keeps ids unique |
| Tables.SortBy | routers/articleRouter.ts:58 | `orderBy(asc(id))` returns a sorted permutation of the rows |
| Tables.SortByKeepsRows | routers/conferenceRouter.ts:22 | sorting keeps the number of rows and the set of rows |
| Tables.SortByStrict | routers/conferenceRouter.ts:22 | with unique ids, sorting by id gives strictly ascending ids |
| Tables.InsertBy | routers/conferenceRouter.ts:22 | inserting a row into a sorted sequence keeps it sorted and adds exactly that row |
| Tables.InsertByStrict | routers/conferenceRouter.ts:22 | inserting a row with a new id into a strictly ascending sequence keeps it strictly ascending |
| Tables.InsertByPermutes | routers/conferenceRouter.ts:22 | insertion adds one copy of the row to the multiset of rows |
| Tables.Page | routers/conferenceRouter.ts:23-24 | `limit`/`offset` returns the rows from `offset` on, at most `limit` of them, and nothing past the end |
| Tables.PagesTile | routers/conferenceRouter.ts:23-24 | a page of n rows followed by the page of m rows that starts where it ends is the page of n+m rows |
| Tables.SortedPage | routers/articleRouter.ts:56-59 | a page of the sorted rows has at most `limit` rows, all from the table, and is empty past the end |
| Tables.SortedPageAscends | routers/articleRouter.ts:58 | with unique ids, every page is in strictly ascending id order |
| Tables.SortedPageCovers | routers/articleRouter.ts:56-59 | for any page size, every row is on the page that starts at some multiple of the page size |
| Tables.PageOf | utils.ts:31 | every position lies inside the page that starts at some multiple of the page size |
| Tables.SortedPagesTile | routers/conferenceRouter.ts:22-24 | two consecutive sorted pages together are the double-size page |
| Tables.SortedPageIsPage | routers/articleRouter.ts:58 | a sorted page is `limit`/`offset` applied to the rows in ascending key order |
| Tables.StrictlySortedDisjoint | routers/articleRouter.ts:58 | when two runs joined together are in strictly ascending key order, no row is in both |
| Text.Split | routers/trackRouter.ts:205 | `split(sep)` yields at least one field, and no field contains the separator |
| Text.JoinSplit | routers/trackRouter.ts:205 | joining the fields of a split with the separator gives back the string |
| Text.SplitJoin | routers/userRouter.ts:101 | splitting a join of separator-free fields gives back those fields |
| Text.SplitNoSeparator | routers/trackRouter.ts:205 | a string without the separator splits into itself alone |
| Text.SplitPrefix | routers/userRouter.ts:101 | a separator-free word followed by the separator is the first field, and the rest splits on its own |
| Text.FirstField | routers/trackRouter.ts:205 | `split(sep)[0]` is the longest separator-free prefix of the string |
| Text.SplitHead | routers/trackRouter.ts:205 | the first field of a split is a prefix, ended by the separator or by the end of the string |
| Text.SecondField | routers/userRouter.ts:101 | `split(sep)[1]` exists exactly when the string contains the separator, and it is the second field of the split |
| Text.ToLower | routers/articleRouter.ts:42-48 | lower-casing keeps the length, turns each letter A to Z into its lower-case partner, and keeps every other character |
| Text.SameIgnoringCaseIff | routers/articleRouter.ts:42-48 | two strings lower-case to the same string exactly when they differ only in the case of letters |
| Text.ToLowerIdempotent | routers/articleRouter.ts:43-48 | lower-casing twice is the same as lower-casing once |
| Text.ContainsIff | routers/articleRouter.ts:43-48 | `ilike '%term%'` on lower-cased text holds exactly when the term occurs at some position |
| Utils.ExtractPaginationParameters | utils.ts:21-33 | page defaults to 1, pageSize defaults to 1000, and offset is (page - 1) × pageSize |
| Utils.Defaults | utils.ts:27-31 | with no query parameters the request reads page 1 of 1000 rows from offset 0 |
| Utils.ConsecutivePagesTile | utils.ts:31 | from page 1 on the offset is never negative, and page n+1 starts exactly pageSize rows after page n |
| QuestionTable.Ask | routers/requestsRouter.ts:162-174 | a new question is pending, has no answer, carries the text, the asker and the target, and gets a fresh id |
| QuestionTable.AskKeepsInvariant | routers/questionRouter.ts:36-48 | appending a new question keeps ids unique and keeps "answered exactly when it has an answer" |
| QuestionTable.Find | routers/requestsRouter.ts:87-97 | the lookup by id finds a row exactly when one has that id |
| QuestionTable.FindUnique | routers/questionRouter.ts:72-80 | with unique ids, the lookup by a question's id finds that question |
| QuestionTable.WithAnswer | routers/requestsRouter.ts:98-103 | answering sets the answer and the status "answered" and keeps the id, text, asker and target |
| QuestionTable.Answer | routers/questionRouter.ts:140-156 | an answer rewrites exactly the question with that id and leaves every other row as it was |
| QuestionTable.AnswerKeepsInvariant | routers/requestsRouter.ts:98-103 | answering keeps ids unique and keeps "answered exactly when it has an answer" |
| QuestionTable.AnswerOverwrites | routers/questionRouter.ts:140-156 | answering twice leaves only the second answer |
| QuestionTable.AnswerMissing | routers/questionRouter.ts:140-156 | answering an unknown id changes nothing |
| QuestionTable.Remove | routers/requestsRouter.ts:127-135 | a delete keeps exactly the rows with another id |
| QuestionTable.RemoveMissing | routers/questionRouter.ts:179-193 | deleting an unknown id changes nothing |
| QuestionTable.RemoveExisting | routers/requestsRouter.ts:127-135 | with unique ids, deleting an existing question removes exactly one row |
| QuestionTable.RemoveCount | routers/requestsRouter.ts:127-135 | a delete removes as many rows as carry that id |
| QuestionTable.CountUnique | routers/requestsRouter.ts:127-135 | with unique ids, an existing id occurs exactly once |
| QuestionTable.NoIdCount | routers/questionRouter.ts:179-193 | an id that no row has occurs zero times |
| QuestionTable.RemoveKeepsInvariant | routers/questionRouter.ts:179-193 | a delete keeps ids unique and keeps "answered exactly when it has an answer" |
| QuestionTable.ForTarget | questions.ts:23-32 | the questions of a target are exactly the rows with that target |
| QuestionTable.OwnForTarget | questions.ts:46-56 | a user's questions on a target are exactly the rows with that target and that asker |
| QuestionTable.AnsweredForTarget | routers/questionRouter.ts:106-111 | the answered questions of an article are exactly the rows with that article and status "answered" |
| QuestionTable.OwnWithinAll | questions.ts:36-59 | a user's own listing is the admin listing restricted to that user |
| QuestionTable.AskThenAnswer | routers/questionRouter.ts:106-111 | after a question is asked and answered, it appears answered in its article's public listing, and no pending question does |
| RequestsRouter.ListRequests | routers/requestsRouter.ts:14-33 | a non-admin gets 401 "Access denied"; an admin gets every conference question |
| RequestsRouter.GetRequest | routers/requestsRouter.ts:36-63 | a non-admin gets 401; an admin gets 200 with the request that has that id, or an empty body when there is none |
| RequestsRouter.AnswerRequest | routers/requestsRouter.ts:66-107 | a non-admin gets 401; an unknown id gets 401 "Question not found"; otherwise the answer is stored, the request is marked answered, and the updated row is returned; only the conference-question table changes |
| RequestsRouter.DeleteRequest | routers/requestsRouter.ts:110-137 | a non-admin gets 401; an admin deletes the request and gets an empty 200, even for an unknown id |
| RequestsRouter.CreateRequest | routers/requestsRouter.ts:140-178 | an unknown principal gets 401 "User not found"; otherwise a pending request with a fresh id is appended and returned |
| RequestsRouter.ListOwnRequests | routers/requestsRouter.ts:181-212 | the principal's own requests about the conference, and nothing else |
| RequestsRouter.GetOwnRequest | routers/requestsRouter.ts:215-249 | the request with that id when the principal asked it; otherwise 404 "Request not found" |
| QuestionRouter.CreateQuestion | routers/questionRouter.ts:14-52 | an unknown principal gets 401; otherwise a pending question on the article, with a fresh id, is appended and returned |
| QuestionRouter.GetQuestion | routers/questionRouter.ts:55-82 | admins only; the question with that id, or an empty 200 |
| QuestionRouter.ListAnswered | routers/questionRouter.ts:85-115 | any known user gets exactly the answered questions of the article |
| QuestionRouter.AnswerQuestion | routers/questionRouter.ts:118-160 | admins only; an unknown id is refused; otherwise exactly that question gets the answer and the status "answered" |
| QuestionRouter.DeleteQuestion | routers/questionRouter.ts:162-197 | admins only; an unknown id is refused; otherwise exactly that question is deleted and no response is sent |
| QuestionsLegacy.AdminConferenceQuestions | questions.ts:13-34 | admins only; every question about the conference |
| QuestionsLegacy.UserConferenceQuestions | questions.ts:36-59 | a known user gets their own questions about the conference |
| QuestionsLegacy.AdminSeesWhatUsersSee | questions.ts:13-59 | everything a user sees about a conference is in the admin's listing |
| QuestionsLegacy.CreateConferenceQuestion | questions.ts:61-99 | a known user appends a pending question about the conference with a fresh id |
| QuestionsLegacy.AdminArticleQuestions | questions.ts:101-121 | admins only; every question about the article |
| QuestionsLegacy.UserArticleQuestions | questions.ts:123-145 | a known user gets exactly the answered questions of the article, from any asker (the same code as routers/questionRouter.ts:85-115) |
| QuestionsLegacy.CreateArticleQuestion | questions.ts:147-185 | a known user appends a pending question about the article with a fresh id |
| TrackRouter.ArticlesOfTrack | routers/trackRouter.ts:90-96 | the articles of a track are exactly the articles with that track id |
| TrackRouter.ListTracks | routers/trackRouter.ts:13-32 | exactly the tracks of the conference |
| TrackRouter.NewTrack | routers/trackRouter.ts:58-70 | the inserted track carries the given fields and a fresh id |
| TrackRouter.CreateTrack | routers/trackRouter.ts:34-74 | admins only; the new track is appended and returned; only the track table changes |
| TrackRouter.GetTrack | routers/trackRouter.ts:76-100 | a track is found exactly when one has that id in that conference, and it comes with its articles |
| TrackRouter.UpdateTrackRows | routers/trackRouter.ts:128-145 | exactly the matching track gets the new name, room and description, and ids and conferences never change |
| TrackRouter.UpdateTrack | routers/trackRouter.ts:102-149 | admins only; the track table becomes the updated rows |
| TrackRouter.RemoveTrack | routers/trackRouter.ts:169-175 | a delete keeps exactly the tracks with another id |
| TrackRouter.DeleteTrack | routers/trackRouter.ts:151-177 | admins only; the track is deleted, its articles stay, and no response is sent |
| TrackRouter.DateKey | routers/trackRouter.ts:205 | the group key is the part of the start date before its first space |
| TrackRouter.DateKeyOfTimestamp | routers/trackRouter.ts:205 | a start date of the form "date time" is grouped under "date" |
| TrackRouter.DateKeyWithoutSpace | routers/trackRouter.ts:205 | a start date without a space is grouped under the whole string |
| TrackRouter.DateKeys | routers/trackRouter.ts:204-211 | every article's date is among the schedule's dates |
| TrackRouter.OnDate | routers/trackRouter.ts:204-211 | the group of a date holds exactly the articles with that date |
| TrackRouter.GroupByDate | routers/trackRouter.ts:204-211 | the `reduce` produces one group per date, in order of first appearance, and each group holds that date's articles in table order |
| TrackRouter.GroupsKeys | routers/trackRouter.ts:204-211 | the groups are keyed by exactly the dates that occur |
| TrackRouter.GroupsOnDate | routers/trackRouter.ts:204-211 | each group holds exactly that date's articles, in table order |
| TrackRouter.DateKeysFromArticles | routers/trackRouter.ts:204-211 | every date in the schedule comes from some article |
| TrackRouter.DateKeysDistinct | routers/trackRouter.ts:206-208 | no date appears twice |
| TrackRouter.NoDateNoGroup | routers/trackRouter.ts:206-208 | a date with no article has no articles |
| TrackRouter.DateKeysSnoc | routers/trackRouter.ts:206-208 | one more article adds its date only when the date is new |
| TrackRouter.OnDateSnoc | routers/trackRouter.ts:209 | one more article is pushed onto its own date's group and onto no other |
| TrackRouter.ScheduleGroupsArticles | routers/trackRouter.ts:204-211 | every article is in its own date's group and in no other, and no group is empty |
| TrackRouter.SchedulePartitions | routers/trackRouter.ts:204-211 | the groups together hold exactly the track's articles, each once |
| TrackRouter.FlattenSnoc | routers/trackRouter.ts:209 | pushing an article adds exactly one copy of it to the groups of a date list that contains its date |
| TrackRouter.GetSchedule | routers/trackRouter.ts:180-215 | the schedule groups the articles of that conference and track by date |
| TrackRouter.ListTrackArticles | routers/trackRouter.ts:217-243 | exactly the articles of that conference and track |
| TrackRouter.NewArticle | routers/trackRouter.ts:274-289 | the inserted article carries the given fields and a fresh id |
| TrackRouter.CreateArticle | routers/trackRouter.ts:246-293 | admins only; the new article is appended and returned; only the article table changes |
| ArticleRouter.SearchIgnoresCase | routers/articleRouter.ts:41-54 | lower-casing the search term does not change which articles match |
| ArticleRouter.MatchIgnoresCase | routers/articleRouter.ts:42-48 | whether an article matches does not change when its title, its authors or the term differ only in letter case |
| ArticleRouter.EmptyTermMatchesAll | routers/articleRouter.ts:41-54 | the empty term matches every article |
| ArticleRouter.SelectedArticles | routers/articleRouter.ts:41-54 | exactly the articles of the conference that match the term, when there is one |
| ArticleRouter.ListArticles | routers/articleRouter.ts:14-65 | without paging, exactly the selected articles; with paging, at most pageSize of them and only selected ones (`PagedListingIsSlice` states which run) |
| ArticleRouter.PagedListingIsSlice | routers/articleRouter.ts:56-59 | a paged listing is the run of at most pageSize selected articles, in ascending id order, that starts at (page - 1) × pageSize |
| ArticleRouter.ConsecutivePagesTile | routers/articleRouter.ts:56-59 | page n followed by page n+1 is the run of 2 × pageSize selected articles that starts where page n starts |
| ArticleRouter.ConsecutivePagesDisjoint | routers/articleRouter.ts:56-59 | with unique ids, no article is on two consecutive pages |
| ArticleRouter.PagedListingAscends | routers/articleRouter.ts:56-59 | a paged listing is in strictly ascending id order |
| ArticleRouter.EveryArticleOnSomePage | routers/articleRouter.ts:56-59 | for every page size, each selected article is on some page |
| ArticleRouter.EmptyTermIsNoSearch | routers/articleRouter.ts:41-45 | an empty search term lists the same as no search term |
| ArticleRouter.GetArticle | routers/articleRouter.ts:68-88 | the article with that id is found exactly when it exists, with its track exactly when that track exists |
| ArticleRouter.UpdateArticleRows | routers/articleRouter.ts:115-127 | exactly the article with that id gets the new title, authors and abstract, and every other column and row is kept |
| ArticleRouter.UpdateArticle | routers/articleRouter.ts:91-131 | admins only; the article table becomes the updated rows, and the reply holds exactly the rows with that id |
| ArticleRouter.RemoveArticle | routers/articleRouter.ts:150-154 | a delete keeps exactly the articles with another id |
| ArticleRouter.DeleteArticle | routers/articleRouter.ts:134-156 | admins only; the article is deleted, its questions stay, and no response is sent |
| ConferenceRouter.TracksOf | routers/conferenceRouter.ts:19-25 | exactly the tracks of the conference |
| ConferenceRouter.WithTracks | routers/conferenceRouter.ts:19-25 | each listed conference, in order, with exactly its tracks |
| ConferenceRouter.ListConferences | routers/conferenceRouter.ts:17-28 | a negative offset gets no reply; a non-negative offset, as in the default request, always gets 200 with at most pageSize conferences, and none past the end |
| ConferenceRouter.ListingIsPage | routers/conferenceRouter.ts:17-28 | the listing is the page of conferences in id order, with their tracks |
| ConferenceRouter.ListedRows | routers/conferenceRouter.ts:19-25 | every listed conference is in the table and comes with exactly its tracks |
| ConferenceRouter.ListingAscends | routers/conferenceRouter.ts:22 | with unique ids, the listing is in strictly ascending id order |
| ConferenceRouter.ConsecutiveListingsTile | routers/conferenceRouter.ts:17-28 | page n and page n+1 together are the listing of size 2 × pageSize at page n's offset |
| ConferenceRouter.WithTracksConcat | routers/conferenceRouter.ts:19-25 | attaching tracks commutes with concatenating listings |
| ConferenceRouter.NewConference | routers/conferenceRouter.ts:62-84 | the inserted conference carries the given fields, the geocoded city and a fresh id |
| ConferenceRouter.CreateConference | routers/conferenceRouter.ts:31-88 | admins only; the new conference is appended and returned; only the conference table changes |
| ConferenceRouter.UpdateConferenceRows | routers/conferenceRouter.ts:126-142 | exactly the conference with that id gets the seven new columns and keeps its id and city |
| ConferenceRouter.UpdateUnknownConference | routers/conferenceRouter.ts:126-142 | updating an unknown id changes nothing |
| ConferenceRouter.UpdateConference | routers/conferenceRouter.ts:91-146 | admins only; the conference table becomes the updated rows |
| ConferenceRouter.RemoveConference | routers/conferenceRouter.ts:165-172 | a delete keeps exactly the conferences with another id |
| ConferenceRouter.DeleteConference | routers/conferenceRouter.ts:149-173 | admins only; only the conference row is deleted, and no response is sent |
| ConferenceRouter.TracksWithArticles | routers/conferenceRouter.ts:188-193 | each track, in order, with exactly its articles |
| ConferenceRouter.GetConference | routers/conferenceRouter.ts:176-197 | the conference is found exactly when its id exists, with its tracks and their articles |
| ConferenceRouter.GetLocation | routers/conferenceRouter.ts:200-222 | found exactly when the id exists; then the conference's latitude and longitude |
| UserRouter.FindByEmail | routers/userRouter.ts:29-31 | a user is found exactly when one has that email |
| UserRouter.NewUser | routers/userRouter.ts:41-47 | a registered user has role "user", the given name, email and hash, and a fresh id |
| UserRouter.NewUserKeepsInvariant | routers/userRouter.ts:29-53 | registering an unused email keeps ids and emails unique |
| UserRouter.Register | routers/userRouter.ts:16-55 | a used email gets 400 "User already exists" and nothing changes; otherwise the user is appended and the reply is a token for its id |
| UserRouter.Login | routers/userRouter.ts:57-89 | the reply is either a token for a user with that email whose hash the password matches, or 400 "Invalid email or password"; user.ts:55-87 is the same code |
| UserRouter.LoginSucceedsIff | routers/userRouter.ts:70-87 | with unique emails, login succeeds exactly when the user with that email has a hash the password matches |
| UserRouter.BearerToken | routers/userRouter.ts:100-103 | there is a token exactly when the header has a non-empty second space-separated word, and the token is that word |
| UserRouter.BearerTokenOfScheme | routers/userRouter.ts:101 | "Bearer <token>" yields the token, with or without more space-separated words after it |
| UserRouter.NoTokenWithoutWord | routers/userRouter.ts:101-103 | a header with no space, or with two spaces after the scheme, yields no token |
| UserRouter.AuthenticateToken | routers/userRouter.ts:95-110 | no token gives 401, a token that fails verification gives 403, and otherwise the handler runs for the token's principal; user.ts:93-108 is the same code |
| UserRouter.Public | routers/userRouter.ts:118-129 | the profile shows every column of the user except the password |
| UserRouter.Profile | routers/userRouter.ts:112-131 | a deleted principal gets 404; an existing principal always gets 200 with their row without its password |
| UserRouter.VerifyRoute | routers/userRouter.ts:133-135 | a rejected token gets its bare status, and an accepted one never gets a response |
| UserLegacy.Register | user.ts:16-53 | a used email gets 400 and nothing changes; otherwise the user is appended and returned with 201 |
| UserLegacy.Decimal | user.ts:114 | a natural number's text is digits with no leading zero that denote the number |
| UserLegacy.CanonicalZero | user.ts:114 | the only digit string without a leading zero that denotes zero is "0" |
| UserLegacy.DecimalUnique | user.ts:114 | each natural number has exactly one digit string without a leading zero, and it is the one `Decimal` gives |
| UserLegacy.IntText | user.ts:114 | an integer's text is an optional minus sign and digits without a leading zero, and it denotes the integer |
| UserLegacy.Profile | user.ts:110-116 | the greeting is "Welcome, User ", then a numeral that denotes the principal's id, then "!" |

## Left out

- Hashing, token signing and token verification are library calls (bcrypt and jsonwebtoken). A password hash arrives as an input. `matches`, `sign` and `verify` are function parameters. The secret and token expiry are not modelled.
- The database is modelled as in-memory tables. The model leaves out connections, transactions, failures, and the interleaving of concurrent requests, where each `await` can let another request run.
- Database and library failures are left out, such as a failed query or a failed geocoding `fetch`. No route handler catches them, so the handler's promise is rejected and no response is sent. The only `try`/`catch` is in the validation middleware.
- The request-validation middleware (zod) is left out. The models take the fields it checked as typed parameters. A request it refuses does not reach a handler.
- QuestionsLegacy: the four GET handlers in questions.ts run no validation, and they read the path id with `Number(req.params.id)`. A non-integer id such as "3.5" matches no row, and a non-numeric one becomes NaN, which the database rejects with no reply. The models take an integer id, so neither case is modelled.
- QuestionsLegacy and UserLegacy: questions.ts imports `AuthenticatedRequest` and `authenticateToken` from user.ts, which exports only its router. So the legacy files do not build as written. The model assumes that the import resolves to the middleware that `UserRouter.AuthenticateToken` models.
- `parseInt` of query strings is left out. `page` and `pageSize` arrive as `Option<nat>`. A negative or non-numeric value is not modelled. A page of 0 is modelled, which gives a negative offset.
- ConferenceRouter.ListConferences: a negative offset is a database error that the handler does not catch. It is modelled as `Silent`.
- The geocoding call that fills a new conference's city is a network call. `CreateConference` takes its result as a parameter: `Some(city)`, or `None` when the lookup found nothing.
- Coordinates are stored as floating point. They are modelled as `real`, and only copied.
- ArticleRouter.ListArticles: `ilike` wildcards inside the term (`%`, `_`) are not modelled. The term is matched literally.
- Text.ToLower: folds only the ASCII letters A to Z. JavaScript `toLowerCase` and Postgres `lower` also fold letters outside ASCII, so a term that differs from a title only in the case of such a letter matches in the server but not in the model.
- ArticleRouter.ListArticles: an unpaged listing is given in table order. The database gives no order guarantee without `orderBy`, so its contract states membership only.
- RequestsRouter.ListRequests: the joined asker and conference objects (`with: { user, conference }`) are not returned. The model returns the question rows.
- A query without `orderBy` has no guaranteed row order in the database. The model returns such rows in table order: ListTracks, ListTrackArticles, the schedule's groups and the order inside each group, every question listing, and the tracks and articles nested in GetConference. Only the membership of those results is what the server promises. The paged article and conference listings do use `orderBy(asc(id))`, and their order is proved.
- TrackRouter.GetSchedule: the reply's key order follows the first appearance of each date. A JavaScript object would list integer-like keys first, but a date key is never integer-like.
- The conference, track and article delete handlers change only their own table. The handlers delete one table's rows, and schema.ts declares relations but no `onDelete` cascade. So the model keeps the tracks, articles and questions of a deleted conference, although routers/conferenceRouter.ts:148 calls the delete a cascade. A cascade declared in database migrations is not part of this model.
- TrackRouter.GetSchedule: the database's rendering of a stored start date is not modelled. An article keeps its start date as the text it was created with. The create route accepts only ISO timestamps such as `2025-03-01T09:00:00Z`, which contain no space, so in the model each such article's group key is the whole timestamp (`DateKeyWithoutSpace`). The server splits the value the database sends back, and the comment at routers/trackRouter.ts:205 says the split extracts a `yyyy-mm-dd` date, so it expects a date, a space and a time. In that form the key is the date (`DateKeyOfTimestamp`). The article table in schema.ts has no start-date column, so this rendering cannot be pinned down from the code.
- Route mounting in index.ts is left out, and so is the server start-up. index.ts mounts none of the routers. Each model names its route as written in its router file. The track and article routers are created with `Router()` and no `{ mergeParams: true }`, yet their routes validate a parameter of the parent path: `conferenceId` in routers/trackRouter.ts:17-23, `id` in routers/articleRouter.ts:18-24 and `conferenceId` in routers/articleRouter.ts:72-73. Express does not pass a mount path's parameters to such a router, so under any mount their validation would refuse every request with 400. The models describe the handler bodies as if those parameters arrived.
- schema.ts is modelled only as the records and the `Db.Valid` invariant. schema.ts declares no column defaults, and the handlers set a question's status and a user's role themselves. The question tables are not declared in schema.ts, so their records follow the handlers' inserts and queries.
- The Java sources (ConferenceController.java and Conference.java) belong to a separate service and are not part of this model.
- Tables.FreshKey: a new id is one more than the largest id in the table. A serial column never hands out an id again, but after the row with the largest id is deleted the model can. Deletes do not cascade, so the deleted row's questions would then show up under the new row.
