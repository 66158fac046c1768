# devconnector API core, modelled in Dafny

This project models the two Express routers at the centre of the devconnector
back end:

- the profile router (`routes/api/profile.js`): create or update a profile,
  look a profile up by user id, and add or remove experience and education
  entries;
- the post router (`routes/api/posts.js`): create, list, get and delete posts,
  like and unlike them, and add and delete comments.

Each handler is a pure function. It takes the stored collection, the
authenticated caller's id and the request payload. It answers a `Result`: either
`Ok(Reply(newStore, body))` or `Err(failure)`. A failure is one of three kinds:

- `Invalid(errors)`: the express-validator checks failed; the answer is 400 with
  every violation.
- `Refused(code, msg)`: the handler's own `res.status(code).json({ msg })`.
- `ServerError`: an exception reached the catch block (500). The model raises it
  in two cases: a property of a missing document is read, or POST /api/posts
  inserts a post whose id is taken. Other rejected writes are not modelled (see
  "## Left out").

The profile store is a map from user id to profile. The post collection is a
sequence in storage order. A form field the client left out is the empty
string. A field is "given" when its value is truthy, which for a string means
non-empty. Ids and timestamps that the database would assign are parameters.

JavaScript behaviour the code depends on is modelled explicitly in `JsArray` and
`Text`:

- `find` and `indexOf` look for the first match; `find` answers `undefined` and
  `indexOf` answers -1 when nothing matches, and both are modelled as a position
  with -1 for no match;
- `splice(start, 1)` counts a negative start back from the end;
- a block-bodied arrow function without `return` maps every element to
  `undefined`;
- `split(',')` keeps empty pieces;
- `trim()` removes the ECMAScript white-space and line-terminator characters.

Modules:

| file | module | contents |
|---|---|---|
| responses.dfy | `Responses` | failures, replies, validation rules |
| js_array.dfy | `JsArray` | `find` as a position, `indexOf`, `map` to `undefined`, `splice` |
| text.dfy | `Text` | `trim`, `split`, `join` |
| profiles.dfy | `Profiles` | profile data, POST /api/profile, GET /api/profile/user/:user_id |
| profile_entries.dfy | `ProfileEntries` | experience and education handlers |
| posts.dfy | `Posts` | post data, create, list, get, delete |
| reactions.dfy | `Reactions` | likes and comments |

The handlers are modelled as the code is written, including the places where it
does something other than what it evidently means (see "## Findings"). Beside
each of those, a corrected version is defined, and a lemma relates the two.

Where the code answers with a different status than a REST client would expect,
the model follows the code:

- A lookup by user id for a user without a profile answers 400, not 404.
- Liking a post that does not exist answers 500: the handler has no null check.
- Commenting on a post that does not exist answers 500, for the same reason.
- A non-author deleting a comment gets 404, not 401.

## Model

| member | source | states |
|---|---|---|
| Responses.Violations | routes/api/profile.js:43-46 | no errors exactly when every required field is non-empty; at most one error per rule |
| Responses.ViolationsReportEveryFailure | routes/api/profile.js:43-46 | every failed rule's error is in the 400 response, and every error in it comes from a failed rule |
| JsArray.FindIndex | routes/api/posts.js:230-232 | the answer is -1 exactly when no element matches; otherwise it is the first matching position |
| JsArray.IndexOf | routes/api/posts.js:164-166 | the first position holding the value, or -1 exactly when the value is absent |
| JsArray.MapToUndefined | routes/api/profile.js:253-256 | the mapped list has one element per entry, and every element is `undefined`, whatever the entry held |
| JsArray.UndefinedHoldsNoString | routes/api/profile.js:253-257 | looking any id up in that mapped list answers -1, whatever the list held |
| JsArray.Map | routes/api/posts.js:164-165 | `map` gives one result per element, in order, each the callback applied to that element; the likers at posts.js:165 and the comment authors at posts.js:240 are both this map |
| JsArray.Splice | routes/api/profile.js:258 | removes the element at a non-negative start; for -1 it removes the last element; past the end it changes nothing |
| Text.Trim | routes/api/profile.js:73 | the result has no white space at either end |
| Text.TrimIsSlice | routes/api/profile.js:73 | the trimmed string is a slice of the input with only white space before it and after it |
| Text.TrimIdempotent | routes/api/profile.js:73 | trimming twice is the same as trimming once |
| Text.Split | routes/api/profile.js:73 | one piece more than there are separators |
| Text.SplitPiecesHaveNoSeparator | routes/api/profile.js:73 | no piece of a split holds the separator |
| Text.JoinSplit | routes/api/profile.js:73 | joining the pieces of a split with the separator gives back the input |
| Text.SplitJoin | routes/api/profile.js:73 | splitting a join of separator-free pieces gives back the pieces |
| Profiles.Kept | routes/api/profile.js:66-71 | a field is set exactly when its submitted value is truthy, and then to that value |
| Profiles.ParseSkills | routes/api/profile.js:72-74 | one skill per comma-separated piece, each piece trimmed, none containing a comma |
| Profiles.ParseSkillsRoundTrip | routes/api/profile.js:72-74 | a list of trimmed, comma-free skills written comma-separated parses back to the same list |
| Profiles.BuildSocial | routes/api/profile.js:76-82 | the social object holds a platform exactly when its link was given, with that link |
| Profiles.BuildPatch | routes/api/profile.js:63-82 | the update document is owned by the caller and holds exactly the given fields, the parsed skills and the given links |
| Profiles.Create | routes/api/profile.js:88-89 | a new profile carries the document's fields and starts with empty experience and education |
| Profiles.ApplyPatch | routes/api/profile.js:97-100 | `$set` replaces every field in the document, keeps every other field, and keeps the entry lists |
| Profiles.ApplyPatchIdempotent | routes/api/profile.js:97-100 | applying the same `$set` twice is the same as applying it once |
| Profiles.Upsert | routes/api/profile.js:29-108 | fails with 400 exactly when status or skills is missing, naming each missing one; otherwise it files under the caller a profile that is created or updated from the request |
| Profiles.UpsertReportsEveryViolation | routes/api/profile.js:34-46 | the exact error list for each combination of missing status and skills |
| Profiles.UpsertTwice | routes/api/profile.js:84-107 | sending the same request twice leaves the store as one request does |
| Profiles.UpsertKeepsWellKeyed | routes/api/profile.js:85-99 | every profile stays filed under its own user |
| Profiles.UpsertThenGet | routes/api/profile.js:84-107 | reading back after an upsert shows every given field, the parsed skills, exactly the given links, and earlier values for everything left out |
| Profiles.GetByUser | routes/api/profile.js:140-148 | found exactly when the user has a profile; otherwise 400 |
| ProfileEntries.ExperienceViolations | routes/api/profile.js:191-206 | the 400 error list names each missing title, company and from date, in that order |
| ProfileEntries.EducationViolations | routes/api/profile.js:278-296 | the 400 error list names each missing school, degree, field of study and from date, in that order |
| ProfileEntries.Prepend | routes/api/profile.js:230-234 | 500 exactly when the caller has no profile; otherwise the entry goes first and the rest follow unchanged |
| ProfileEntries.AddExperience | routes/api/profile.js:186-240 | 400 exactly when a required field is missing, listing the missing ones in rule order; 500 without a profile; a complete request by a caller with a profile succeeds, the new entry first, followed by the old list, and nothing else changes |
| ProfileEntries.AddEducation | routes/api/profile.js:273-329 | 400 exactly when a required field is missing, listing the missing ones in rule order; 500 without a profile; a complete request by a caller with a profile succeeds, the new entry first, followed by the old list, and nothing else changes |
| ProfileEntries.AddTwiceNewestFirst | routes/api/profile.js:232 | two additions in a row leave the second entry before the first |
| ProfileEntries.RemoveAsWritten | routes/api/profile.js:253-258 | the computed position is always -1, so the last entry is removed, or nothing from an empty list |
| ProfileEntries.RemoveExperience | routes/api/profile.js:248-265 | whatever id is given, the last experience entry goes; 500 without a profile |
| ProfileEntries.RemoveEducation | routes/api/profile.js:337-354 | whatever id is given, the last education entry goes; 500 without a profile |
| ProfileEntries.RemoveIgnoresId | routes/api/profile.js:253-257 | the id in the request makes no difference to the removal |
| ProfileEntries.RemoveAsWrittenDropsLast | routes/api/profile.js:253-258 | on a non-empty list, the removal as written answers with the profile whose list has lost its last entry, filed under the caller |
| ProfileEntries.EntryIndex | routes/api/profile.js:253-257 | the position of the first entry with the id, or -1 exactly when there is none; with unique ids, no other entry has it |
| ProfileEntries.RemoveById | routes/api/profile.js:248-258 | removes exactly the entry with the given id; 404 exactly when there is none |
| ProfileEntries.RemoveAsWrittenMatchesOnlyLast | routes/api/profile.js:253-258 | with unique ids, the removal as written equals removal by id exactly when the id names the last entry |
| ProfileEntries.RemovalsAgreeOnlyAtLast | routes/api/profile.js:253-258 | with unique ids and the id at a given position, the two removals agree exactly when that position is the last |
| ProfileEntries.AddThenRemoveById | routes/api/profile.js:253-258 | adding an entry and removing it by its id restores the store, because the lookup finds the new entry first |
| ProfileEntries.AddThenRemoveAsWritten | routes/api/profile.js:253-258 | adding an entry and then removing it as written restores the store only when the list was empty |
| ProfileEntries.PrependKeepsUniqueIds | routes/api/profile.js:232 | adding an entry with a fresh id keeps entry ids unique |
| ProfileEntries.CutKeepsUniqueIds | routes/api/profile.js:258 | cutting one entry out keeps entry ids unique |
| ProfileEntries.RemoveByIdKeepsUniqueIds | routes/api/profile.js:258 | removal by id keeps entry ids unique |
| Posts.PostIndex | routes/api/posts.js:73 | the position of the first post with the id, or -1 exactly when there is none |
| Posts.CreatePost | routes/api/posts.js:13-46 | 400 exactly when the text is empty; 500 for an unknown user or a taken id; otherwise a post copying the author's name and avatar, with no likes or comments, is appended |
| Posts.CreateThenGet | routes/api/posts.js:71-77 | a post just created is found under its id |
| Posts.CreateThenDelete | routes/api/posts.js:94-106 | the author deleting a post just created restores the collection |
| Posts.CreateAndDeleteKeepUniqueIds | routes/api/posts.js:32-39 | creating and deleting keep post ids unique |
| Posts.GetPost | routes/api/posts.js:71-77 | found exactly when a post has the id; otherwise 404 "post not found" |
| Posts.DeletePost | routes/api/posts.js:94-106 | 404 when there is no such post; 401 exactly when the caller is not the author; otherwise that post is removed and the rest keep their order |
| Posts.DeleteThenGet | routes/api/posts.js:94-106 | after a deletion, looking the post up answers 404 |
| Posts.ConsNewestFirst | routes/api/posts.js:56 | a post at least as new as the head of a newest-first list can be put in front of it |
| Posts.InsertByDate | routes/api/posts.js:56 | inserting into a newest-first list keeps it newest first and adds exactly the one post |
| Posts.ListPosts | routes/api/posts.js:54-58 | every post, each as often as stored, newest first |
| Reactions.LikesBy | routes/api/posts.js:127-129 | zero exactly when the user has no like on the post |
| Reactions.AtMostOnceCountsOne | routes/api/posts.js:127-133 | when each user likes a post at most once, the filter finds at most one like |
| Reactions.LikePost | routes/api/posts.js:119-142 | 500 for a missing post; 400 exactly when the caller already likes it; otherwise the caller's like goes first and nothing else changes |
| Reactions.LikeTwiceRefused | routes/api/posts.js:127-131 | a second like by the same user is refused with 400 |
| Reactions.LikeKeepsValid | routes/api/posts.js:127-133 | liking keeps each user at most once among a post's likes |
| Reactions.UnlikePost | routes/api/posts.js:150-169 | 404 for a missing post; 400 exactly when the caller has no like on it; otherwise the caller's first like is removed; with at most one like per user, none of the caller's remain |
| Reactions.UnlikeKeepsValid | routes/api/posts.js:164-167 | unliking keeps each user at most once among a post's likes |
| Reactions.LikeThenUnlike | routes/api/posts.js:164-167 | liking and then unliking restores the collection |
| Reactions.AddComment | routes/api/posts.js:184-218 | 400 exactly when the text is empty; 500 for an unknown user or a missing post; otherwise the new comment goes first and nothing else changes |
| Reactions.AddThenDeleteComment | routes/api/posts.js:226-245 | deleting, as written, a comment one has just added restores the collection |
| Reactions.AddThenDeleteCommentById | routes/api/posts.js:226-245 | deleting by id a comment one has just added restores the collection |
| Reactions.CommentIndex | routes/api/posts.js:230-232 | the position of the first comment with the id, or -1 exactly when there is none |
| Reactions.FirstBy | routes/api/posts.js:239-241 | the position of the caller's first comment, or -1 exactly when there is none |
| Reactions.DeleteComment | routes/api/posts.js:226-245 | 404 when the named comment is missing or is not the caller's; otherwise it removes the caller's first comment |
| Reactions.DeleteCommentById | routes/api/posts.js:226-245 | 401 for a comment by someone else; otherwise it removes the named comment, and with unique ids no comment with that id remains |
| Reactions.NonAuthorStatus | routes/api/posts.js:236-238 | a comment by someone else is refused with 404 as written and with 401 by the deletion by id |
| Reactions.DeleteCommentMatchesOnlyFirst | routes/api/posts.js:230-242 | both deletions succeed on the same requests, and they agree exactly when the named comment is the caller's first |
| Reactions.DeleteSecondOwnCommentRemovesFirst | routes/api/posts.js:239-242 | with comments [first, second], both by the caller, deleting the second removes the first |
| Reactions.DeleteSecondOwnCommentById | routes/api/posts.js:230-242 | on the same input, the deletion by id removes the second comment |
| Reactions.FirstLikeBy | routes/api/posts.js:164-166 | the position of the caller's first like, or -1 exactly when there is none |

## Left out

- GET /api/profile/me (`routes/api/profile.js:8-21`): it answers nothing on success, and its only check is the absent profile that GetByUser already models.
- GET /api/profile (`routes/api/profile.js:124-132`): it only lists the collection and joins in the user, which is database behaviour.
- DELETE /api/profile (`routes/api/profile.js:164-178`): it removes documents from two collections with no logic of its own. It also relies on the user collection, which is not part of this model.
- `populate('user', ['name', 'avatar'])`: a database join, not handler logic.
- ObjectId cast errors (`e.kind == 'ObjectId'`): ids are opaque strings here, so a malformed id cannot be expressed.
- The double response when POST /api/profile creates a profile (`routes/api/profile.js:88-104`): the first `res.json` sends the new profile; the second throws because the headers were already sent, and the catch block's 500 fails the same way, so the client receives the first body. The model answers that body (Upsert states it equals the created profile) and files the profile after the `$set`, which is the same profile.
- The callback passed to `findOneAndUpdate` as well as awaited: the model assumes the update is applied once.
- The unawaited `profile.save()` and `post.remove()`: the model assumes they complete before the next request. Concurrency and races between requests are not modelled.
- Request fields that are not strings: every field is modelled as a string. A JSON array or number in `skills` passes `not().isEmpty()`, and then `skills.split` at `routes/api/profile.js:73` throws outside the `try` that starts at line 84, so such a request gets no response at all. Non-string payloads are out of scope.
- Every awaited `save()` is assumed to succeed (`routes/api/profile.js:91`, `:233`, `:322`; `routes/api/posts.js:135`, `:168`, `:211`, `:244`). Mongoose schema casting and validation are not modelled. The only rejected write the model has is the duplicate-id insert of POST /api/posts, which answers 500.
- The elements of a 400 `errors` array carry `value` and `location` as well as `param` and `msg` (`routes/api/profile.js:45`, `:205`, `:295`; `routes/api/posts.js:26`, `:197`). The model keeps only the field name and the message, which are what identify the violation.
- The authentication middleware: the caller's id is a parameter.
- Posts.ListPosts: the database leaves the order of posts with equal dates open, and the model keeps storage order among them. The contract states only newest-first order and the permutation, not the tie order.
- The Mongoose schemas (`models/Profile.js`, `models/Post.js`, `models/User.js`) are not part of this model; only the fields the handlers read or write are.
- The client application.

## Findings

| source | as written | input that shows it | evidently intended | confidence | as-written member | corrected member |
|---|---|---|---|---|---|---|
| routes/api/profile.js:253-258 | the position comes from `map(item => { item.id; })`, which yields only `undefined`, so `indexOf` answers -1 and `splice(-1, 1)` removes the last entry whatever id is given | experience list [A, B] and a request to remove A: B is removed | remove the entry whose id is given | high, not executed | ProfileEntries.RemoveAsWrittenMatchesOnlyLast | ProfileEntries.RemoveById |
| routes/api/profile.js:342-347 | the same expression in the education handler removes the last education entry | education list [A, B] and a request to remove A: B is removed | remove the entry whose id is given | high, not executed | ProfileEntries.AddThenRemoveAsWritten | ProfileEntries.AddThenRemoveById |
| routes/api/posts.js:239-242 | the position removed is that of the caller's first comment, not of the named comment | comments [first, second], both by the caller; deleting second removes first | remove the named comment | high, not executed | Reactions.DeleteSecondOwnCommentRemovesFirst | Reactions.DeleteSecondOwnCommentById |
| routes/api/posts.js:236-238 | a comment by someone else is refused with 404, while post deletion uses 401 for the same case | a comment by another user: 404 "User not authorized" | 401, as for posts | medium, not executed | Reactions.NonAuthorStatus | Reactions.DeleteCommentById |
