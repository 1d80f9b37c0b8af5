# MyQuestion forum core in Dafny

This project models the core of MyQuestion, a Django question-and-answer forum. Users ask questions, tag them, answer them, and vote on questions and answers. The author of a question marks one answer as correct. The model covers:

- **Tables.** The forum's tables become in-memory sequences inside one store, the class `Models.Db`. Its `Valid()` predicate holds the uniqueness constraints the schema declares for the tables the model writes: the primary keys of profiles, tags, questions and answers, unique tag names, and one Like per (profile, content type, object id). The user table is only read, so its keys carry no constraint here.
- **Queries.** The `QuestionQuerySet` queries are sort, filter and count functions over those tables: `new`, `popular`, `tagged`, `with_answers` and `get_with_answers`.
- **Voting.** The vote ledger is modelled as an upsert over the Like table, plus the `Sum` aggregate that gives a rating. The `get_user_vote` template tag reads that ledger.
- **Request handlers.** `paginate`, `index`, `hot_questions`, `ask`, the live `question` view (both GET and POST), `vote`, `mark_correct` and `tag`. A request's authenticated account is an optional id. Each way a request can fail is one value of `Views.Error`.
- **Forms.** `clean_tags`, the password and e-mail checks, and `QuestionForm.save` with its get-or-create of tags.
- **Client side.** The cookie reader and the vote and checkbox callbacks of `static/js/ajax.js`.
- **Seeding.** The `fill_db` command's target sizes, its tag sample, and its duplicate-avoiding like loop.

The form follows the source. Pure code becomes functions and lemmas. Code that updates state becomes methods on `Db` with `modifies` frames: `vote`, `mark_correct`, posting an answer, asking, `QuestionForm.save` and the like loop. The client handlers become a `RateWidget` class and methods over a checkbox array. Each method is proved against a function that says what the new state is, and the properties the code promises are lemmas about those functions.

The bodies follow the code. Some of its behaviour is easy to misread; the model follows the code:

- **Paging.** A page number below 1 is clamped to the last page, as Django's `EmptyPage` handler does, not to the first. A non-numeric page fails at `int()` and is a server error.
- **Popularity.** `popular()` orders by the number of Like rows, so a dislike raises popularity. It does not order by the signed rating.
- **Answer order.** A question's answers are listed oldest first (`order_by('created_at')`).
- **Missing question.** A question id that does not exist raises `DoesNotExist` in `get_with_answers`. That is a server error, not a 404. This holds for both GET and POST.
- **Duplicate views.** `question` and `settings` are each defined twice in app/views.py. The later definitions are the live ones, and they are the ones modelled.
- **The vote value.** `Like` as declared has no `vote` field. As written, for a pair without a Like row `update_or_create(defaults={'vote': …})` raises FieldError when it creates the row. For a pair that already has one, the update only sets a plain attribute and saves, and then `aggregate(Sum('vote'))` raises FieldError. Either way the `except Exception` in `vote` answers 400. `like.vote` in `get_user_vote` raises AttributeError. The model gives each ledger row the value field that `vote`, the `Sum('vote')` rating and `get_user_vote` evidently intend, and `Valid()` keeps it at +1 or -1. `fill_db` creates likes without a value, so there each draw also chooses like or dislike.

## Model

| member | source | states |
|---|---|---|
| QuerySets.OrderBy | app/models.py:25-29 | `order_by`: the result is a permutation of the input (same multiset), sorted by the key |
| QuerySets.Filter | app/models.py:31-36 | `filter`: every kept row is in the input and satisfies the predicate; every input row that satisfies it is kept; the result is never longer than the input |
| QuerySets.FilterMembers | app/models.py:31-36 | a row is in the filtered query exactly when it is in the query and satisfies the predicate |
| QuerySets.FilterSubMultiset | app/models.py:31-36 | filtering never duplicates a row: each row occurs at most as often as in the query |
| QuerySets.First | app/models.py:47-48 | a lookup finds the first row that matches, with no match before it; it finds nothing exactly when no row matches |
| QuerySets.CountIsFilterLength | app/models.py:44-45 | `Count` equals the number of rows the filter keeps |
| QuerySets.FilterKeepsOrder | app/models.py:31-42 | filtering a sorted query keeps it sorted |
| QuerySets.FilterCongruent | app/models.py:31-36 | two filters that agree on every row give the same query |
| PyText.Strip | app/forms.py:82 | `str.strip()`: no leading or trailing whitespace is left, and a string without whitespace is kept as it is |
| PyText.StripPadded | app/forms.py:82 | `str.strip()` removes exactly the surrounding whitespace: whitespace, then a core with no whitespace at either end, then whitespace, strips to the core |
| PyText.Split | app/forms.py:82 | `str.split()`: every token is non-empty and contains no whitespace |
| PyText.SplitOfSpace | app/forms.py:82 | a string of whitespace alone, the empty string included, gives no tokens |
| PyText.SplitWordThenRest | app/forms.py:82 | after any run of whitespace, a whitespace-free word that ends at whitespace or at the end of the string is the next token, and the split continues after it |
| PyText.SplitTwoWords | app/forms.py:82 | two words separated by any run of whitespace, with any whitespace around them, split into exactly those two words |
| PyText.SplitJoinSpace | app/forms.py:82 | splitting words joined by single spaces gives the words back |
| PyText.StripOfSpace | app/forms.py:82 | a string of whitespace alone strips to the empty string |
| PyText.ParseInt | app/views.py:15 | `int()`: a string holding an information separator (U+001C to U+001F) is refused although `isspace()` holds of it; a parsed string ends in a digit once stripped, and a negative result comes from a leading minus |
| PyText.ParseIntRefusesLong | app/views.py:15 | `int()` refuses a run of more than 4300 digits, with or without a minus sign (`sys.int_info.default_max_str_digits`) |
| PyText.ParseIntOfPadded | app/views.py:15 | `int()` reads a rendered integer of at most 4300 digits back with any whitespace around it, as long as that whitespace holds no information separator |
| PyText.ParseIntRefusesSeparator | app/views.py:15 | a rendered integer after an information separator is a ValueError, although the separator counts as whitespace for `isspace()` |
| PyText.ParseIntRoundTrip | app/views.py:15 | `int(str(n)) == n` for every integer of at most 4300 digits, the ones `str()` renders |
| PyText.ParseIntOfDigits | app/views.py:15 | `int()` of a plain run of at most 4300 digits is its decimal value |
| PyText.ParseIntOfNegated | app/views.py:15 | `int()` of a minus sign and at most 4300 digits is the negated value |
| Models.FindQuestion | app/models.py:47-48 | `get(pk=…)`: the row found has that id; nothing is found exactly when no row has it |
| Models.FindAnswer | app/views.py:219 | `get_object_or_404(Answer, pk=…)`: the answer with that id, and nothing exactly when no answer has it |
| Models.FindTag | app/views.py:71 | the tag lookup by id that the `tag` view intends: the tag with that id, and nothing exactly when no tag has it |
| Models.FindTagByName | app/models.py:19 | the tag found has that name; nothing is found exactly when no tag has it |
| Models.ProfileOf | app/views.py:193 | `user.profile`: the profile found belongs to the account; nothing is found exactly when the account has none |
| Models.NextId | app/models.py:71-108 | a new primary key is larger than every existing one |
| Models.New | app/models.py:25-26 | `new()`: the same questions, newest first |
| Models.Popular | app/models.py:28-29 | `popular()`: the same questions, ordered by Like-row count descending, then newest first |
| Models.LikeCountCountsRows | app/models.py:29 | any Like row on a question, like or dislike, raises its popularity count by one |
| Models.Tagged | app/models.py:31-36 | `tagged(t)`: exactly the questions that carry `t`, none added |
| Models.TaggedObjectIsById | app/models.py:31-34 | tagging by a Tag object and tagging by its id select the same questions |
| Models.TaggedNameIsById | app/models.py:31-36 | with unique tag names, tagging by name selects the same questions as tagging by that tag's id |
| Models.TaggedNewIsNewestFirst | app/models.py:25-36 | `new().tagged(t)` lists the tagged questions newest first |
| Models.WithAnswers | app/models.py:38-42 | `with_answers`: exactly the question's answers, as a permutation, oldest first |
| Models.AnswersCount | app/models.py:44-45 | `answers_cnt` is the length of the question's answer list |
| Models.GetWithAnswers | app/models.py:47-48 | nothing is found exactly when no question has that id; otherwise the question, exactly its answers, and their count |
| Models.Db.constructor | app/models.py:11-128 | an empty store satisfies the schema constraints |
| Ledger.FindLike | app/views.py:198-203 | the row found has the key and is the first such row; nothing is found exactly when no row has it |
| Ledger.Upsert | app/views.py:198-203 | `update_or_create`: an existing row is updated in place and its pair now holds the new value; otherwise exactly one row is appended; rows of other pairs are untouched |
| Ledger.UpsertKeepsUnique | app/models.py:121-124 | the upsert keeps at most one Like per (profile, content type, object id) |
| Ledger.UpsertKeepsSigned | app/views.py:195-203 | casting +1 or -1 keeps every value in the ledger at +1 or -1 |
| Ledger.UniqueKeyCount | app/models.py:121-124 | under the constraint, a pair that has a row has exactly one |
| Ledger.NoKeyCount | app/models.py:121-124 | a pair with no row has a count of zero |
| Ledger.UpsertSingleEntry | app/views.py:198-203 | after a cast the pair has exactly one row, holding the new value |
| Ledger.UpsertIdempotent | app/views.py:198-203 | casting the same value twice leaves the ledger as one cast did |
| Ledger.UpsertLeavesOtherVotes | app/views.py:198-203 | a cast never changes another pair's value |
| Ledger.Rating | app/views.py:205 | `Sum('vote') or 0`: the sum of the target's values, and 0 when it has none |
| Ledger.AggregateSum | app/views.py:205 | `aggregate(Sum('vote'))`: NULL exactly when the target has no Like row, and otherwise the sum of its values |
| Ledger.NoVotesSumZero | app/views.py:205 | a target without rows sums to zero, which is what `or 0` substitutes for NULL |
| Ledger.RatingAfterUpsert | app/views.py:198-205 | after a cast the rating changes by the new value minus the voter's previous value |
| Ledger.RatingOfOtherTargets | app/views.py:192-205 | a cast changes no other target's rating, including a question and an answer with the same id |
| VoteTags.GetUserVote | app/templatetags/vote_tags.py:7-24 | 0 for an anonymous visitor, for an account without a profile, and without a Like; otherwise the Like's value; always 1, -1 or 0 for a signed ledger |
| VoteTags.GetUserVoteIsTheLike | app/templatetags/vote_tags.py:20-23 | under the constraint, `.first()` returns the profile's only Like on the target, whatever the table order |
| VoteTags.GetUserVoteAfterCast | app/templatetags/vote_tags.py:20-23 | after a cast the tag shows the value just cast |
| Views.NumPages | app/views.py:16 | `num_pages`: at least 1, and the least number of pages that holds the objects |
| Views.PageItems | app/views.py:18 | a page holds at most `per_page` objects, consecutive from the page's start; a non-empty list never gives an empty page |
| Views.Paginate | app/views.py:14-23 | a non-numeric page is a server error; otherwise the page number lies between 1 and `num_pages`; an in-range request gets that page and any other gets the last one; the items are that page's slice |
| Views.PagesUpToPrefix | app/views.py:14-23 | the first n pages, read in order, are the list's first n·per_page objects |
| Views.PagesCoverObjects | app/views.py:14-23 | read in order, the pages give back every object exactly once |
| Views.PaginateTwelve | app/views.py:14-23 | for 12 objects, page 2 is objects 6-10, and page 99 is clamped to page 3, objects 11-12 |
| Views.PaginateEmpty | app/views.py:14-23 | no objects give one empty page, whatever renderable page number is asked for |
| Views.IndexView | app/views.py:25-33 | `index`: exactly `paginate` of `new()`, that is the requested page of the questions newest first, clamped as `paginate` clamps; its items are questions of the store, newest first |
| Views.HotView | app/views.py:35-43 | `hot_questions`: exactly `paginate` of `popular()`, so the requested page of the questions by Like-row count and then newest first; its items are questions of the store in non-increasing Like-row count |
| Views.QuestionPage | app/views.py:132-162 | a missing question is a server error; otherwise the question, its full answer count, and the requested page of `WithAnswers`, the question's answers oldest first |
| Views.Ask | app/views.py:45-55 | anonymous means login; an invalid form changes nothing; otherwise the question is stored, owned by the actor, with a fresh id and exactly the tags the form names; the old tags stay as they were and every added tag is one the form names |
| Views.ParsePk | app/views.py:179-188 | a missing id finds nothing (404); a non-numeric id raises ValueError (500) |
| Views.QuestionFormValid | app/forms.py:70-76 | `QuestionForm`'s field checks: a valid form has a stripped title of 1 to 255 characters and a non-empty stripped text; a title or text of whitespace alone is refused, and so is a null character in the title, the text or the tags |
| Views.AnswerFormValid | app/forms.py:100-106 | `AnswerForm`'s field check: a valid form has a non-empty stripped text; a text of whitespace alone or holding a null character is refused |
| Views.FindTarget | app/views.py:183-188 | the target exists with that id in the table its kind names |
| Views.ResolveVote | app/views.py:178-195 | in source order: login, then object type (default "question"), then the existing target, then the voter's profile; the value is 1 exactly for "like" and -1 otherwise |
| Views.Vote | app/views.py:178-210 | every refusal leaves the ledger unchanged; a success is the upsert of the ballot, and the reply carries the recomputed rating and the value cast |
| Views.VoteRatingCountsOnce | app/views.py:198-210 | the rating in the reply counts the voter's value once, in place of their previous value |
| Views.ClearQuestion | app/views.py:231 | `answer_set.update(is_correct=False)`: every answer of the question is unflagged, all others are untouched |
| Views.ToggleCorrect | app/views.py:225-233 | a correct answer is unmarked and nothing else changes; otherwise it becomes the only correct answer of its question; other questions' answers and all other fields are untouched |
| Views.ToggleKeepsAtMostOne | app/views.py:225-233 | marking or unmarking never gives a question two correct answers |
| Views.MarkTwiceLastWins | app/views.py:229-233 | marking two answers of one question in turn leaves only the second correct |
| Views.ResolveMark | app/views.py:217-223 | login first, then the answer lookup (404 or 500 for a bad id), then the question's author check (403 exactly for anyone but the author) |
| Views.MarkCorrect | app/views.py:217-233 | a refused call changes no flag; a permitted one toggles as `ToggleCorrect` says and returns the new flag |
| Views.PostAnswer | app/views.py:132-162 | a missing question fails first; anonymous means login; an invalid answer form (blank text or a null character) falls through to `paginate`, so it is a server error for a non-numeric page and a re-rendered form otherwise; a missing profile fails; otherwise exactly one answer is appended: stripped, not correct, by the actor's profile, with a fresh id |
| Views.TagViewAsWritten | app/views.py:70-71 | every request fails with a server error |
| Views.TagView | app/views.py:70-84 | an unknown tag is a 404; otherwise exactly `paginate` of the questions tagged with that id, each of which carries the tag |
| Views.TagViewAlwaysFails | app/views.py:70-84 | for a stored tag on a question, the corrected view lists the question, and the view as written fails |
| Forms.CleanTags | app/forms.py:77-83 | an empty or missing field gives no tags; otherwise the whitespace-separated words, in input order, none empty and none containing whitespace |
| Forms.CleanTagsOfJoin | app/forms.py:82-83 | tag names typed separated by spaces come back as typed |
| Forms.RegisterClean | app/forms.py:47-55 | an error, "Passwords do not match", exactly when both passwords are non-empty and differ |
| Forms.RegisterCleanSymmetric | app/forms.py:52 | the mismatch check does not depend on which field holds which password |
| Forms.EmailTaken | app/forms.py:43 | `email__iexact`: the account found has the address in any case; nothing is found exactly when no account has it |
| Forms.RegisterCleanEmail | app/forms.py:41-45 | a non-empty address that any account has, compared case-insensitively, is refused; otherwise it is returned unchanged |
| Forms.SettingsCleanEmail | app/forms.py:124-130 | a non-empty address that any account other than the edited one has, compared case-insensitively, is refused |
| Forms.RegisterEmailIgnoresCase | app/forms.py:43 | two addresses that differ only in letter case are accepted or refused together |
| Forms.RegisterRefusesExisting | app/forms.py:43 | an address on file, written in lower case, is refused |
| Forms.SettingsIsRegisterOverOthers | app/forms.py:128 | the settings check is the registration check over every account but the edited one |
| Forms.SettingsAcceptsOwnEmail | app/forms.py:128 | a user may keep their own address when no other account has it |
| Forms.GetOrCreateTag | app/forms.py:95 | `get_or_create(name=…)`: returns the existing tag, or appends one with a fresh id; afterwards the name has a tag with the returned id |
| Forms.TagIdsNamedStep | app/forms.py:94-96 | one get-or-create followed by `tags.add` adds exactly the tag of that name |
| Forms.TagTableGrows | app/forms.py:94-96 | over the tag loop the tag table only grows, and only by tags the form names |
| Forms.TagsFound | app/forms.py:94-96 | over the tag loop every name handled so far has a tag |
| Forms.SaveQuestion | app/forms.py:85-98 | without commit nothing is written; without an author the insert fails and nothing changes; otherwise the question is stored with a fresh id and owner, and its tags are exactly those named (duplicates collapse); every name has a tag, names stay unique, and the only new tags are ones named |
| Ajax.Trim | static/js/ajax.js:6 | `trim()`: no leading or trailing JS whitespace is left |
| Ajax.TrimPadded | static/js/ajax.js:4-6 | whitespace around a pair is ignored: trimming a padded word gives the word back |
| Ajax.SplitOn | static/js/ajax.js:4 | `split(';')`: at least one piece, and no piece contains the separator |
| Ajax.JoinSplitOn | static/js/ajax.js:4 | joining the pieces with the separator restores the string |
| Ajax.SplitOnConcat | static/js/ajax.js:4 | a leading piece without the separator is split off whole |
| Ajax.TrimAll | static/js/ajax.js:4-6 | the pieces the loop reads: one per `;`-separated piece, each trimmed, in order |
| Ajax.Substring | static/js/ajax.js:7-8 | `substring` of an in-range window is that slice, and never longer than the string |
| Ajax.MatchesIsPrefix | static/js/ajax.js:7 | a pair matches exactly when `name=` stands at its start |
| Ajax.LongerNameNoMatch | static/js/ajax.js:7 | a cookie whose name only begins with the name (`csrftoken2=`) does not match |
| Ajax.FirstMatch | static/js/ajax.js:5-11 | the first trimmed pair that matches, with no match before it; none exactly when no pair matches |
| Ajax.FirstMatchAt | static/js/ajax.js:5-11 | a matching pair with no match before it is the first match |
| Ajax.CookieValue | static/js/ajax.js:1-14 | null for an absent or empty cookie string; otherwise the decoded value of the first matching pair, or null |
| Ajax.GetCookie | static/js/ajax.js:1-14 | the loop with its `break` returns `CookieValue` |
| Ajax.LaterPairsIgnored | static/js/ajax.js:5-10 | once a pair matches, later pairs are never read |
| Ajax.FirstMatchSkip | static/js/ajax.js:5-11 | a leading pair that does not match shifts the first match by one |
| Ajax.NonMatchingPairSkipped | static/js/ajax.js:5-11 | a pair that does not match is skipped and the search continues |
| Ajax.AfterVote | static/js/ajax.js:40-51 | without `new_rating` nothing changes; otherwise the rating is shown; a value of 1 disables like and enables dislike, -1 the reverse, and any other value leaves the buttons alone |
| Ajax.RateWidget.OnVoteSuccess | static/js/ajax.js:37-53 | the success callback leaves the widget as `AfterVote` says |
| Ajax.ServerVoteDisablesCastButton | static/js/ajax.js:43-51 | for any successful `vote` reply, exactly the button of the value cast ends disabled |
| Ajax.VoteErrorsNeverRedirect | static/js/ajax.js:54-60 | none of `vote`'s own failures has status 401 or 403, so the login redirect never fires for them |
| Ajax.StatusOf | app/views.py:176-233 | the status each failure of `vote` and `mark_correct` answers with: the login redirect and a re-rendered form are below 400, every other failure is an error status, and 403 is exactly the refused mark |
| Ajax.VoteErrorRedirects | static/js/ajax.js:54-60 | the vote error callback redirects to login only on a 4xx status, and always on 403 |
| Ajax.Click | static/js/ajax.js:63 | a click flips the clicked checkbox only |
| Ajax.AfterCorrectSuccess | static/js/ajax.js:75-83 | on an "ok" reply marking the answer correct, every other checkbox is unchecked; any other reply changes nothing |
| Ajax.AfterCorrectError | static/js/ajax.js:84-88 | the error callback flips the clicked checkbox back and leaves every other checkbox as it was |
| Ajax.ErrorUndoesClick | static/js/ajax.js:84-86 | a failed request restores the checkboxes to what they were before the click |
| Ajax.MarkLeavesOneChecked | static/js/ajax.js:76-79 | marking an unchecked answer and hearing back "correct" leaves exactly that checkbox checked |
| Ajax.UnmarkKeepsOthers | static/js/ajax.js:76-79 | unmarking and hearing back "not correct" leaves the other checkboxes alone |
| Ajax.OnCorrectSuccess | static/js/ajax.js:75-83 | the loop over the checkboxes leaves them as `AfterCorrectSuccess` says |
| Ajax.OnCorrectError | static/js/ajax.js:84-88 | leaves the checkboxes as `AfterCorrectError` says |
| FillDb.Targets | app/management/commands/fill_db.py:22-32 | a ratio of 0 or less creates nothing; otherwise ratio users and tags, 10·ratio questions, 100·ratio answers, 200·ratio likes |
| FillDb.MaxAttemptsIsMax | app/management/commands/fill_db.py:75 | the attempt bound is the larger of 1000 and 10·num_likes |
| FillDb.MaxAttemptsForRatio | app/management/commands/fill_db.py:22-75 | for every accepted ratio the bound is 2000·ratio, since the floor of 1000 never binds |
| FillDb.IdsAtSize | app/management/commands/fill_db.py:58 | a sample of distinct tags has as many ids as positions sampled |
| FillDb.IdsAtMembers | app/management/commands/fill_db.py:58 | every id of the sample is the id of a sampled tag |
| FillDb.SeedTagsBounds | app/management/commands/fill_db.py:57-58 | when tags exist, a seeded question gets between 1 and min(3, #tags) distinct existing tags |
| FillDb.Seed | app/management/commands/fill_db.py:77-88 | each attempt adds at most one row; the counters stay within their bounds; the loop stops only when one bound is reached; old rows are kept |
| FillDb.SeedStep | app/management/commands/fill_db.py:77-88 | one attempt skips a duplicate pair, or appends the drawn like |
| FillDb.AppendFreshKeepsLedger | app/management/commands/fill_db.py:83-87 | a row for a pair without a like keeps the constraint and the signed values |
| FillDb.SeedKeepsUnique | app/management/commands/fill_db.py:83-87 | the loop never inserts a second like for an existing pair |
| FillDb.SeedKeepsSigned | app/management/commands/fill_db.py:87 | every seeded value is +1 or -1 |
| FillDb.SeedAllDuplicates | app/management/commands/fill_db.py:77-88 | when every draw names an existing pair, the loop uses up all attempts and creates nothing |
| FillDb.SeedLoop | app/management/commands/fill_db.py:73-88 | the loop ends in the state `Seed` describes, and the table keeps one like per pair with signed values |
| FillDb.SeedLikes | app/management/commands/fill_db.py:72-95 | the store keeps its constraints and its Like table ends in the state `Seed` describes, old rows first, with attempts ≤ max_attempts and created ≤ num_likes; it stops at one of the two bounds; the warning is printed exactly when fewer likes were created than asked |

## Left out

- HTTP, templates, redirects, JSON encoding, `require_POST`, sessions and the login, logout and registration flows (`register`, `login`, `logout`, `RegisterForm.save`, `LoginForm`) are not modelled. The authenticated account is a parameter, and a failure is one value of `Views.Error`.
- The catch-all `except Exception` in `vote` (app/views.py:212-213) is not modelled. No step after the resolution can fail in the model.
- Transactions and concurrency are not modelled. `vote` and `mark_correct` run sequentially.
- The `settings` views (app/views.py:86, 164-174), `SettingsForm.save` and avatar storage are image and profile I/O. Only `SettingsForm.clean_email` is modelled.
- Field validation by Django form fields (e-mail syntax, most `max_length` limits, the `EmailField` normalisation) is not modelled, except the title and text checks of `QuestionForm`, the required text of `AnswerForm`, and the null-character check that every form `CharField` carries.
- `updated_at` is not modelled. `created_at` is a timestamp parameter `now`.
- The `like_count` and `answer_count` accessors of `Question` (app/models.py:87-91) are template helpers and are not modelled.
- The `fill_db` loops that create users, tags, questions and their random text, and answers (app/management/commands/fill_db.py:34-70), are not modelled beyond the tag sample. Every random choice is a parameter. The final summary line, which prints the target `num_likes` rather than the created count, is output only.
- populate_db.py, hello.py and static/js/upload_photo.js are not part of this model.
- The jQuery and DOM wiring of ajax.js is reduced to the widget state and a checkbox array. `decodeURIComponent` is a total function parameter, so its URIError is not modelled. `console.log`, `alert` and the redirect itself are output only.
- Strings are sequences of Unicode scalar values. JavaScript's UTF-16 code units are not modelled.
- `PyText.ParseInt`: accepts only ASCII digits, while Python's `int()` also accepts other Unicode decimal digits.
- `Views.ParsePk`: an id that parses but lies outside the database's integer column range is looked up like any other and finds nothing; the backend's overflow error is not modelled.
- `Forms.IEquals`: folds only ASCII letters for `iexact`. Whether the database folds other letters depends on the backend.
- `FillDb.SeedLikes`: the loop builds the new Like table as a value and stores it once at the end, rather than one `create` per iteration. Inside the loop nothing but its own duplicate check reads the table, and that check reads the rows created so far.
- `FillDb.MaxAttempts`: the function carries no contract of its own. Its properties are the lemmas `MaxAttemptsIsMax` and `MaxAttemptsForRatio`.

## Findings

| source | as written | input that shows it | evidently intended | confidence | as-written member | corrected member |
|---|---|---|---|---|---|---|
| app/views.py:71 | `Tag.objects.get_by_id(pk)` calls a method that Django's default manager does not have, so the view raises AttributeError | any request for a tag page, e.g. tag 1 carried by a stored question | look the tag up by id, answer 404 when there is none, and page through the tagged questions | high, not executed | Views.TagViewAsWritten, Views.TagViewAlwaysFails | Views.TagView |
