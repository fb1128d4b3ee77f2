# Course recommender: session guard, course filter and request checks

This project is a Dafny model of the core of a course-recommendation web application. The
application has a React front end and a Flask back end.

- **Session guard** (`src/context/AuthContext.js`). The front end keeps the signed-in user in an
  `AuthProvider` and mirrors it into the `'auth'` entry of local storage. At mount, a saved session
  is restored only if its JWT has not expired. The expiry check `isTokenValid` fails closed: every
  parse failure means "invalid".
- **Course filter** (`src/pages/RecommendedCourses.js`). The recommended-courses page narrows the
  list with five independent tests: a text search, a level, a minimum rating, a duration bucket and
  a set of topics. The page also offers topics taken from the courses' keyword strings, toggles
  topics and duration buckets, resets everything, and shows up to three keyword chips per card.
- **Dashboard** (`src/pages/Dashboard.js`). A carousel steps through the recommendations with
  wrap-around index arithmetic. A feedback form never sends blank text.
- **Back end** (`app.py`). The `token_required` guard reads the bearer token, pads and decodes its
  payload and looks up its `sub` claim. The signature and the expiry are never checked. Also
  modelled: the register/login input check, the profile text used for recommendations, the
  profile-update query, and the course lookup.

Layout, one module per file:

- `wrappers.dfy`: `Option` and `Result`.
- `strings.dfy`: JavaScript `trim`, `toLowerCase`, `includes`, `startsWith` and `split`, and
  Python `split`/`join`.
- `seqs.dfy`: `Array.filter` and Python filtered comprehensions, `[...new Set(xs)]`, and
  `slice`.
- `course_filter.dfy`: the filter effect.
- `filter_panel.dfy`: topics, toggles, reset and chips.
- `auth_context.dfy`: the session guard.
- `dashboard.dfy`: the dashboard.
- `backend.dfy`: the Flask back end.

The parts that change state in place are modelled as classes:

- `AuthContext.AuthProvider` has fields `currentUser`, `loading` and the storage `slot`.
- `Dashboard.DashboardPage` has fields `courses`, `loading`, `currentIndex`, `feedback`,
  `submittingFeedback` and `feedbackSuccess`.

The filter effect and `token_required` change local variables step by step. They are methods proved
equal to a one-pass specification function. The properties are then proved about that function.
The filter effect calls one method per `if` block of the filter effect (`SearchStage` to `TopicStage`).
Each stage method is proved to turn the list after the earlier stages into the list after its own
stage (`CourseFilter.AfterStages`).

Conventions of the model:

- JavaScript's `%` truncates toward zero; it is `Dashboard.JsRem`.
- `parseFloat` results are `Option<real>`, with `None` standing for `NaN`.
- Python's `None` is `Backend.Null`.
- Base64/JSON decoding, the user query and the clock (`Date.now()`) are parameters.

## Model

| member | source | states |
|---|---|---|
| Strings.TrimStartCuts | src/pages/RecommendedCourses.js:76 | the leading cut is a blank prefix and the rest does not start with white space |
| Strings.TrimEndCuts | src/pages/RecommendedCourses.js:76 | the trailing cut is a blank suffix and the rest does not end with white space |
| Strings.TrimSpec | src/pages/RecommendedCourses.js:76 | the trim is a slice of the input with only white space cut from both ends and none left at either end; it is empty exactly when the input is blank |
| Strings.TrimIdempotent | src/pages/RecommendedCourses.js:123 | trimming twice is trimming once |
| Strings.LowerFolds | src/pages/RecommendedCourses.js:77 | same length; no upper-case ASCII letter is left; each upper-case letter becomes its lower-case partner and every other character is kept |
| Strings.LowerIdempotent | src/pages/RecommendedCourses.js:77 | lower-casing twice is lower-casing once |
| Strings.LowerMisses | src/pages/RecommendedCourses.js:77-81 | a needle whose first letter occurs in the text in neither case is not found in the lower-cased text |
| Strings.ContainsAt | src/pages/RecommendedCourses.js:79-81 | `includes` holds exactly when the needle sits at some offset |
| Strings.Split | src/pages/RecommendedCourses.js:123 | at least one piece, and no piece contains the separator |
| Strings.JoinSplit | src/pages/RecommendedCourses.js:123 | joining the pieces with the separator restores the string |
| Strings.SplitJoin | src/pages/RecommendedCourses.js:123 | splitting a join of separator-free pieces restores the pieces |
| Strings.SplitPieces | src/pages/RecommendedCourses.js:423 | a split has more than one piece exactly when the separator occurs |
| Strings.SecondPiece | src/context/AuthContext.js:18 | `split(sep)[1]` exists exactly when the separator occurs; it is the separator-free run right after the first separator |
| Seqs.Select | src/pages/RecommendedCourses.js:78-82 | the kept elements are from the input and pass the test; every element that passes is kept |
| Seqs.SelectSubsequence | src/pages/RecommendedCourses.js:78 | filtering keeps the original order |
| Seqs.SelectSelect | src/pages/RecommendedCourses.js:86-114 | filtering by one test and then another is filtering once by both |
| Seqs.Dedup | src/pages/RecommendedCourses.js:126 | no duplicates, and the same elements as the input |
| Seqs.DedupFirstSeenOrder | src/pages/RecommendedCourses.js:126 | elements are listed in the order of their first occurrence |
| Seqs.DedupSkipsNothing | src/pages/RecommendedCourses.js:126 | anything first occurring before a listed element is listed before it |
| Seqs.FirstDistinct | src/pages/RecommendedCourses.js:126 | at most `n` distinct elements of the input in first-seen order; fewer only when that is all of them |
| Seqs.FirstDistinctSkipsNothing | src/pages/RecommendedCourses.js:126 | the capped list is a prefix of the full first-seen order |
| CourseFilter.SearchStage | src/pages/RecommendedCourses.js:76-83 | a non-blank search narrows the list by the search test; a blank one leaves it |
| CourseFilter.LevelStage | src/pages/RecommendedCourses.js:86-88 | a set level narrows the list by the level test; an empty one leaves it |
| CourseFilter.RatingStage | src/pages/RecommendedCourses.js:91-93 | a positive minimum rating narrows the list by the rating test; otherwise it is left |
| CourseFilter.DurationStage | src/pages/RecommendedCourses.js:96-107 | a set duration narrows the list to its bucket; an empty one leaves it |
| CourseFilter.TopicStage | src/pages/RecommendedCourses.js:110-115 | selected topics narrow the list to courses whose keywords include one of them |
| CourseFilter.AllStages | src/pages/RecommendedCourses.js:72-118 | passing the five stages in turn is passing the one-pass conjunctive filter |
| CourseFilter.InBucket | src/pages/RecommendedCourses.js:96-106 | the duration test of one bucket; its partner `BucketsPartition` states the buckets' shape |
| CourseFilter.Accepts | src/pages/RecommendedCourses.js:72-118 | the conjunction of the active tests; `FilteredMembership` and `AllStages` tie it to the effect |
| CourseFilter.Filtered | src/pages/RecommendedCourses.js:72-118 | the one-pass specification of the effect; its properties are the lemmas below |
| CourseFilter.ApplyFilters | src/pages/RecommendedCourses.js:72-118 | the staged filtering equals the one-pass conjunctive filter `Filtered` |
| CourseFilter.FilteredMembership | src/pages/RecommendedCourses.js:72-118 | a course is shown iff it is in the list and passes every active test |
| CourseFilter.FilteredIsSubsequence | src/pages/RecommendedCourses.js:73-117 | the result only drops courses and keeps their order |
| CourseFilter.FilteredIdempotent | src/pages/RecommendedCourses.js:72-118 | filtering the result again changes nothing |
| CourseFilter.FilteredWithoutCriteria | src/pages/RecommendedCourses.js:76-110 | with a blank search and no active control every course is shown |
| CourseFilter.FilterOrderIrrelevant | src/pages/RecommendedCourses.js:75-115 | two rounds of filtering commute |
| CourseFilter.BucketsPartition | src/pages/RecommendedCourses.js:96-106 | the duration buckets are disjoint and cover every numeric duration; `NaN` is in none |
| CourseFilter.BucketBoundaries | src/pages/RecommendedCourses.js:97-105 | 10 is short only, 30 medium only, 30.01 long only |
| CourseFilter.LevelScenario | src/pages/RecommendedCourses.js:86-88 | the level "Beginner" keeps only the beginner course of two samples |
| CourseFilter.RatingScenario | src/pages/RecommendedCourses.js:91-93 | minimum rating 4 keeps the 4.5 course and drops the 3.0 one |
| CourseFilter.SearchScenario | src/pages/RecommendedCourses.js:76-83 | the search "ml" keeps only the course titled "Advanced ML" |
| FilterPanel.KeywordPieces | src/pages/RecommendedCourses.js:123 | at least one piece per course, each trimmed and comma-free |
| FilterPanel.AllTopics | src/pages/RecommendedCourses.js:122-124 | every topic is non-empty, trimmed and comma-free |
| FilterPanel.AllPiecesMembership | src/pages/RecommendedCourses.js:122-123 | a string is among the pieces exactly when it is a keyword piece of some course |
| FilterPanel.AllTopicsMembership | src/pages/RecommendedCourses.js:122-124 | the topics are exactly the non-empty keyword pieces of the courses |
| FilterPanel.UniqueTopics | src/pages/RecommendedCourses.js:121-127 | at most 15 topics, no duplicates, each a non-empty trimmed keyword piece of some course, listed in first-seen order; fewer than 15 only when every topic is listed |
| FilterPanel.ToggleTopic | src/pages/RecommendedCourses.js:139-147 | the topic's membership flips, other topics stay selected or unselected, a removal keeps the remaining order, the other fields are untouched, a new topic is appended |
| FilterPanel.ToggleTopicTwice | src/pages/RecommendedCourses.js:139-147 | toggling twice restores the selected topics, and the whole record when the topic was unselected |
| FilterPanel.ToggleDuration | src/pages/RecommendedCourses.js:305 | clicking the selected bucket clears it, another bucket selects it, nothing else changes |
| FilterPanel.ToggleDurationTwice | src/pages/RecommendedCourses.js:305 | two clicks on one bucket return to the start when no other bucket was selected |
| FilterPanel.ResetFilters | src/pages/RecommendedCourses.js:129-137 | all controls at "no constraint" and an empty search |
| FilterPanel.ResetShowsEverything | src/pages/RecommendedCourses.js:129-137 | after a reset the whole list is shown |
| FilterPanel.KeywordChips | src/pages/RecommendedCourses.js:415-427 | at most three trimmed chips, the first pieces in order; the badge counts the rest; nothing for a missing or empty keyword |
| AuthContext.IsTokenValid | src/context/AuthContext.js:13-27 | only a non-empty token with a dot can be valid |
| AuthContext.EmptyTokenInvalid | src/context/AuthContext.js:14 | a null or empty token is invalid |
| AuthContext.ValidIffNotExpired | src/context/AuthContext.js:18-22 | a decodable token is valid iff its expiry in milliseconds is strictly after now |
| AuthContext.MalformedTokenInvalid | src/context/AuthContext.js:16-26 | a token without a dot, or whose payload does not decode, is invalid |
| AuthContext.ExpiryIsFinal | src/context/AuthContext.js:22 | a token invalid now stays invalid later |
| AuthContext.NoDotsExample | src/context/AuthContext.js:18-25 | the token "abc" is invalid |
| AuthContext.AuthProvider.constructor | src/context/AuthContext.js:9-10 | anonymous and loading, over whatever storage holds |
| AuthContext.AuthProvider.Restore | src/context/AuthContext.js:29-50 | a saved user with a valid token is restored; any other non-empty entry is removed; loading ends, so the children render (line 107); session and storage agree |
| AuthContext.AuthProvider.Login | src/context/AuthContext.js:52-70 | on success the user from the reply becomes the session and is persisted; on failure nothing changes; whether the children render is unchanged |
| AuthContext.AuthProvider.Register | src/context/AuthContext.js:72-89 | as sign-in, with no name; whether the children render is unchanged |
| AuthContext.AuthProvider.Logout | src/context/AuthContext.js:91-94 | no user and no storage entry; whether the children render is unchanged |
| Dashboard.JsRem | src/pages/Dashboard.js:40 | the truncating remainder: below `n` in size, with the sign of the dividend, differing from the dividend by a multiple of `n`, equal to `%` for a non-negative dividend |
| Dashboard.Next | src/pages/Dashboard.js:39-41 | the index stays in range and moves one right, wrapping from the last card to the first |
| Dashboard.Prev | src/pages/Dashboard.js:43-45 | the index stays in range and moves one left, wrapping from the first card to the last |
| Dashboard.PrevAfterNext | src/pages/Dashboard.js:39-45 | back after forward returns to the same card |
| Dashboard.NextAfterPrev | src/pages/Dashboard.js:39-45 | forward after back returns to the same card |
| Dashboard.Advance | src/pages/Dashboard.js:39-41 | `k` presses of "next" keep the index in range |
| Dashboard.AdvanceMovesRound | src/pages/Dashboard.js:39-41 | `k` presses of "next" move to `(i + k) mod n` |
| Dashboard.FullCircle | src/pages/Dashboard.js:39-41 | `n` presses of "next" come back to the start |
| Dashboard.DashboardPage.constructor | src/pages/Dashboard.js:9-14 | no courses, index 0, loading, empty feedback |
| Dashboard.DashboardPage.ShowsCarousel | src/pages/Dashboard.js:73-103 | the render condition of the carousel: loading is over and there is at least one course; `HandleNext`, `HandlePrev` and `SelectDot` require it and keep the index on a course |
| Dashboard.DashboardPage.CurrentCourse | src/pages/Dashboard.js:105 | the card on display, `courses[currentIndex]` when the index is in range; `HandleNext` and `HandlePrev` ensure there is one, and `SelectDot` that it is the dot's course |
| Dashboard.DashboardPage.SubmitEnabled | src/pages/Dashboard.js:307 | the submit button is enabled only for non-blank text |
| Dashboard.DashboardPage.ReceiveRecommendations | src/pages/Dashboard.js:24-34 | fetched courses replace the list, an error keeps it, loading ends |
| Dashboard.DashboardPage.HandleNext | src/pages/Dashboard.js:39-41 | the index becomes `Next` of the old one and points at a course |
| Dashboard.DashboardPage.HandlePrev | src/pages/Dashboard.js:43-45 | the index becomes `Prev` of the old one and points at a course |
| Dashboard.DashboardPage.SelectDot | src/pages/Dashboard.js:243-246 | a dot shows its own course |
| Dashboard.DashboardPage.EditFeedback | src/pages/Dashboard.js:280 | the text box holds the typed text |
| Dashboard.DashboardPage.StartSubmit | src/pages/Dashboard.js:47-54 | blank text is neither sent nor changes anything; otherwise the current text is sent and the form is submitting, with the button disabled (line 307) |
| Dashboard.DashboardPage.FinishSubmit | src/pages/Dashboard.js:55-66 | on acceptance the box is cleared, whatever was typed meanwhile, and success shown; on failure text and message stay; submitting always ends |
| Dashboard.DashboardPage.HandleSubmitFeedback | src/pages/Dashboard.js:47-67 | with no typing in flight: blank text is neither sent nor changes anything; sent text is never blank; on acceptance the box is cleared and success shown; submitting always ends |
| Dashboard.DashboardPage.ClearSuccess | src/pages/Dashboard.js:59-61 | the success message is hidden and nothing else changes |
| Backend.ProcessingError | app.py:157-160 | status 401, and never one of the guard's other answers |
| Backend.BearerToken | app.py:112-116 | a token exists iff the header starts with "Bearer "; it is the space-free run right after the prefix |
| Backend.Pad | app.py:129 | one to four '=' are appended, four when the length is already a multiple of four, and the padded length is a multiple of four |
| Backend.Authorize | app.py:106-162 | every rejection is a 401 error reply |
| Backend.TokenRequired | app.py:106-162 | the step-by-step guard gives the verdict of `Authorize` |
| Backend.TokenMissingExactly | app.py:119-121 | "Token is missing" is answered exactly when there is no bearer token or it is empty |
| Backend.AuthorizedRequires | app.py:123-155 | a user gets through only with a dotted token whose payload decodes to a truthy `sub` naming an existing user |
| Backend.AuthorizedIf | app.py:123-155 | conversely, such a token gets its user through |
| Backend.InvalidTokenFormatExactly | app.py:141-144 | 401 "Invalid token format" is answered exactly when the payload decodes but its `sub` is missing or falsy |
| Backend.SignatureIgnored | app.py:124-126 | tokens with the same payload segment get the same verdict whatever their other segments hold |
| Backend.OnlySubMatters | app.py:141-144 | of the decoded claims only `sub` affects the verdict, so `exp` is never checked |
| Backend.CheckCredentials | app.py:254-255 | the only refusal is 400 "Email and password are required" |
| Backend.MissingCredentialsRefused | app.py:303-304 | a missing, null or empty email or password is refused |
| Backend.CredentialsAccepted | app.py:254-255 | a non-empty email with a non-empty password passes |
| Backend.SplitThree | app.py:187-191 | three space-free parts joined by single spaces split back into the same three parts |
| Backend.ProfileParts | app.py:187-191 | for space-free parts, splitting the profile at spaces gives career goals, interests and skills in order |
| Backend.UserProfile | app.py:187-191 | career goals, interests and skills joined by single spaces; `ProfileParts` splits it back |
| Backend.Truthy | app.py:143 | Python truthiness of a value; used by the guard and the credential check |
| Backend.Render | app.py:191 | `str` of a value as the f-string renders it; `NullProfile` shows NULL rendering as "None" |
| Backend.EmptyProfile | app.py:188-191 | a row without the three columns yields two spaces |
| Backend.NullProfile | app.py:188-191 | a row holding NULL in the three columns yields "None None None" |
| Backend.FieldsToUpdate | app.py:390 | exactly the profile columns the request names, each free of '%' |
| Backend.FieldsInColumnOrder | app.py:374-390 | the columns keep the order of the fixed column list |
| Backend.SetClause | app.py:396 | the `SET` clause; `SetClausePlaceholders` counts its placeholders |
| Backend.SetClausePlaceholders | app.py:396 | the `SET` clause holds one placeholder per column |
| Backend.UpdateQuery | app.py:397 | the query holds one placeholder per column plus one for the user id |
| Backend.BuildProfileUpdate | app.py:388-406 | 400 "No fields to update" iff no profile column is named; otherwise placeholders match values, the values follow the columns with the user id last, and regeneration is flagged iff goals, skills or interests are named |
| Backend.ApplyUpdate | app.py:390-402 | the row after the update; `UpdateLeaves` and `UpdateSets` state what it changes |
| Backend.UpdateLeaves | app.py:390-402 | a column the request does not name, or that is not a profile column (such as `user_id` or `email`), keeps its stored value |
| Backend.UpdateSets | app.py:390-402 | a profile column the request names takes the request's value |
| Backend.SameProfileParts | app.py:187-191 | the profile text depends only on the three profile columns |
| Backend.DifferentSkills | app.py:187-191 | with equal goals and interests, different skills give different profile texts |
| Backend.SkippedRegenerationKeepsProfile | app.py:406 | an update naming none of the three profile columns leaves the profile text unchanged |
| Backend.SkillsUpdateChangesProfile | app.py:406-417 | changing only the skills to a different text changes the profile text |
| Backend.HasId | app.py:481 | `c.get("id") == course_id`, with `True` and `False` comparing as 1 and 0 |
| Backend.FirstWithId | app.py:481 | the position of the first course with the id, or none when no course has it |
| Backend.CourseDetails | app.py:481-484 | a found course is from the list and carries the id; 404 "Course not found" iff no course carries it |
| Backend.EarliestCourseWins | app.py:481 | among several courses with the id the earliest is returned |

## Left out

- Rendering, animation, layout and styling in every page, and the redirect to the sign-in page
  when no user is signed in.
- The level select and the rating slider set a single field of the filter record. They are plain
  record updates and have no member.
- `src/service.js` is not part of this model. That includes the HTTP calls and the teardown on a
  401 reply.
- The fetch of recommendations is reduced to its outcome (`Option<seq<Course>>`).
- TF-IDF vectorisation and cosine ranking are not modelled: they are floating-point library
  numerics.
- Password hashing, token signing, Flask routing and the database are not modelled: they are
  foreign libraries and I/O. The user lookup and payload decoding are parameters.
- The five-second timer is the separate `ClearSuccess` method; its timing is not modelled.
- Flask looks headers up case-insensitively. The model takes the `Authorization` value already
  looked up.
- A request body that is not a JSON object is not modelled. JSON floats, lists and objects as
  values are not in `Backend.Value`.
- Exception texts other than the `IndexError` of a dot-less token are parameters.
- `Strings.Lower`: folds ASCII letters only; `toLowerCase` also folds non-ASCII letters.
- `AuthContext.IsTokenValid`: the token must have at least two dot-separated segments, which is
  what `split('.')[1]` demands; a three-segment structure is not required.
- `AuthContext.AuthProvider.Restore`: requires the mount state (loading, no user). The effect runs
  once, at mount, with empty dependencies.
- `Backend.ProfileParts`: stated only for space-free parts. Parts containing spaces can run
  together: the profiles of ("a", "b", "c d") and ("a b", "c", "d") are both "a b c d".
