# Fitness challenges: a verified model of the page logic

This project models the client-side logic of a small fitness-challenge web
application with a React front end on a Supabase backend. It covers four
pages.

- **Challenges** lists the challenges. Each card shows a time-progress bar
  and a countdown label. The page has a create form and join and delete
  buttons.
- **Challenge details** lists a challenge's progress posts. A post may carry
  an image or a video. The page lets a user add a post (with an optional
  media upload), upvote a post once, and delete their own post. It also
  shows a leaderboard: each author's upvotes summed and sorted highest first.
- **Settings** has three forms: username, email and password. They share one
  busy flag.
- **Reset password** has one password form.

Every backend call (auth, table select/insert/update/delete, storage upload)
is replaced by its answer, passed in as a parameter: an `Option<string>`
error message, an `UploadOutcome`, a `nameFound` flag, an optional user id.
The page state each handler changes is a class with one field per React
state variable that a modelled handler reads or sets; the signed-in user is
a parameter. Each handler's `modifies` clause names exactly the fields it
may set (the upvote handler also names the vote store). Pure derivations are
functions with reference definitions and lemmas:

- the progress bar and its label;
- the leaderboard;
- the media-type decision;
- the name table;
- the form checks.

Modules:

- **`Wrappers`**: `Option`.
- **`Text`**:
  - `String.prototype.trim`, using the ECMAScript whitespace set;
  - `split`/`join` on one character;
  - ASCII lower-casing and `EndsWith`.
- **`ChallengeTimer`**: the percent and the label of a challenge card.
  Timestamps are integer milliseconds.
- **`Challenges`**: the challenge entities, the create/join/delete requests
  and `ChallengesPage`.
- **`Leaderboard`**:
  - posts, authors and points (reference definitions by recursion on the
    posts seen so far);
  - the score loop;
  - the stable sort by points;
  - the user-name table built from the profiles.
- **`ChallengeDetails`**:
  - media classification and file extension;
  - the inserted post row;
  - the upvote transition over the `post_upvotes` records and the posts'
    counts;
  - `VoteStore` and `ChallengeDetailsPage`.
- **`Validation`**: the checks of the settings and reset-password forms, with
  their messages.
- **`Settings`**: `SettingsPage`.
- **`ResetPassword`**: `ResetPasswordPage`.

Arithmetic choices:

- `Math.round(elapsed / total * 100)` is computed exactly, for `total > 0`,
  as `(200·elapsed + total) div (2·total)`. This is the nearest integer,
  with halves rounded up, as `Math.round` rounds them.
- The label's `Math.floor((ms / unit) % n)` on a positive gap equals integer
  division then remainder, so the countdown fields are `div`/`mod` of the
  millisecond gap.
- `elapsed / total` is NaN or infinite only when `total <= 0`. On that path
  `msLeft <= 0`, so the code overrides the percent with 100 anyway (and with
  0 before the start). The model therefore computes the percent only where
  it is shown.

## Model

| member | source | states |
|---|---|---|
| Text.TrimStart | src/pages/Challenges.tsx:43 | the result is a suffix of the input; everything dropped is whitespace; the result does not start with whitespace |
| Text.TrimEnd | src/pages/Challenges.tsx:43 | the result is a prefix of the input; everything dropped is whitespace; the result does not end with whitespace |
| Text.TrimEnds | src/pages/Challenges.tsx:43 | `s.trim()` is empty exactly when every character of `s` is whitespace; a non-empty result neither starts nor ends with whitespace |
| Text.TrimSlice | src/pages/Challenges.tsx:43 | `s.trim()` is the slice of `s` that starts right after its leading whitespace |
| Text.TrimSurround | src/pages/Challenges.tsx:43 | only whitespace precedes and follows that slice in `s` |
| Text.IsBlank | src/pages/Challenges.tsx:43 | `!s.trim()` holds exactly when every character of `s` is whitespace |
| Text.Split | src/pages/ChallengeDetails.tsx:85 | never empty; no part contains the separator; a string without the separator is one part; a string with it has more than one |
| Text.JoinSplit | src/pages/ChallengeDetails.tsx:85 | joining the parts of a split back with the separator gives the original string |
| Text.LastPartOfSplit | src/pages/ChallengeDetails.tsx:85 | the last part is a suffix of the string; it is the whole string when there is no separator; otherwise a separator directly precedes it |
| Text.LowerAscii | src/pages/ChallengeDetails.tsx:158 | same length; each character is lower-cased on its own (ASCII letters only) |
| ChallengeTimer.Breakdown | src/pages/Challenges.tsx:105-108 | for a positive gap: hours < 24, minutes < 60, and the countdown covers the gap to within one minute |
| ChallengeTimer.BreakdownUnique | src/pages/Challenges.tsx:116-118 | any days/hours/minutes with hours < 24 and minutes < 60 that cover the gap to within a minute are the ones computed |
| ChallengeTimer.RoundPercent | src/pages/Challenges.tsx:113 | the result is the integer nearest to 100·elapsed/total, with halves going up |
| ChallengeTimer.Clamp | src/pages/Challenges.tsx:113 | the result lies in 0..100 and equals the input when the input does |
| ChallengeTimer.TimeProgress | src/pages/Challenges.tsx:96-125 | the percent is always within 0..100 |
| ChallengeTimer.LabelByPhase | src/pages/Challenges.tsx:97-123 | each of the four labels is shown exactly in its own phase of (now, start, expiration); 'No expiration' and 'Starts in' go with 0%, 'Challenge expired' with 100% |
| ChallengeTimer.CountdownToStart | src/pages/Challenges.tsx:103-109 | before the start: 0% and a 'Starts in' countdown covering the gap to the start |
| ChallengeTimer.CountdownToExpiration | src/pages/Challenges.tsx:114-119 | while running: a 'Time left' countdown covering the gap to the expiration |
| ChallengeTimer.InvertedWindowPercent | src/pages/Challenges.tsx:111-123 | a window with expiration <= start shows 0% before the start and 100% from it on, never NaN |
| ChallengeTimer.PercentMonotone | src/pages/Challenges.tsx:111-113 | for a proper window the percent never decreases as time passes |
| ChallengeTimer.PercentEndpoints | src/pages/Challenges.tsx:103-123 | for a proper window: 0% before the start, 100% at and after the expiration, the rounded elapsed share in between |
| ChallengeTimer.RoundPercentBelowWhole | src/pages/Challenges.tsx:113 | less than the whole window never rounds above 100 |
| ChallengeTimer.OneHourBeforeStart | src/pages/Challenges.tsx:103-109 | one hour before a two-day challenge: 0% and 'Starts in: 0d 1h 0m' |
| Challenges.Participants | src/pages/Challenges.tsx:64 | the stored participant list, or none when the column is null; empty exactly when the column is null or empty |
| Challenges.JoinRequest | src/pages/Challenges.tsx:62-64 | a participant list is written exactly when there is a user who is not yet a participant |
| Challenges.JoinAppendsOnce | src/pages/Challenges.tsx:64 | joining keeps the old participants in order and adds the user once, at the end |
| Challenges.WithParticipants | src/pages/Challenges.tsx:68 | challenges with the joined id get the new list; every other challenge is unchanged; the length is kept |
| Challenges.WithoutChallenge | src/pages/Challenges.tsx:152 | exactly the challenges with another id remain |
| Challenges.WithoutChallengeDistributes | src/pages/Challenges.tsx:152 | the filter acts on each element where it stands (it distributes over concatenation), so survivors keep their order |
| Challenges.WithoutAbsentChallenge | src/pages/Challenges.tsx:152 | a list without the id is left as it is |
| Challenges.CreateRequest | src/pages/Challenges.tsx:43-51 | a row is inserted exactly when the title is not blank, a user is signed in and both dates are set; the row has that creator, the creator as only participant, and the form's title and dates |
| Challenges.WhitespaceTitleRejected | src/pages/Challenges.tsx:43 | an all-whitespace title is never inserted |
| Challenges.ChallengesPage.constructor | src/pages/Challenges.tsx:7-15 | empty list, closed form, empty fields, no error |
| Challenges.ChallengesPage.ReceiveChallenges | src/pages/Challenges.tsx:31-37 | a failed fetch sets the error and keeps the list; otherwise the fetched rows (or none) replace the list |
| Challenges.ChallengesPage.HandleCreate | src/pages/Challenges.tsx:41-59 | the insert is `CreateRequest` of the old form; a refused form changes nothing; a failed insert records its message and keeps the form; a successful one clears the error, closes the form and empties its fields |
| Challenges.ChallengesPage.HandleJoin | src/pages/Challenges.tsx:61-70 | the update is `JoinRequest`; no update, no change; a failed update records its message; a successful one applies `WithParticipants` to the list |
| Challenges.ChallengesPage.HandleDelete | src/pages/Challenges.tsx:149-153 | a delete is issued exactly for the creator; only a successful delete filters the challenge out |
| Leaderboard.Upvotes | src/pages/ChallengeDetails.tsx:69 | a stored count is used as it is; the result is 0 exactly when the count is null or 0 |
| Leaderboard.FirstIndex | src/pages/ChallengeDetails.tsx:67 | the index of the user's first post, `|posts|` exactly when the user has none |
| Leaderboard.AuthorsSpec | src/pages/ChallengeDetails.tsx:66-71 | the key order of `scores` lists every author once, nobody else, in the order authors first appear in the fetched list (newest first) |
| Leaderboard.NonAuthorHasNoPoints | src/pages/ChallengeDetails.tsx:68-69 | someone without posts has zero points |
| Leaderboard.AuthorsSnoc | src/pages/ChallengeDetails.tsx:68 | a post adds its author to the key order exactly when the author is not there yet |
| Leaderboard.ScoreMapSnoc | src/pages/ChallengeDetails.tsx:67-70 | a post adds its upvotes (a missing count as 0) to its author's score and changes nobody else's |
| Leaderboard.ComputeScores | src/pages/ChallengeDetails.tsx:66-70 | the loop's score table maps each author to the sum of their posts' upvotes; its key order is `Authors` |
| Leaderboard.DisplayName | src/pages/ChallengeDetails.tsx:72 | the mapped name when it is present and non-empty, else the id; so it is empty only for an empty id |
| Leaderboard.Tally | src/pages/ChallengeDetails.tsx:71-72 | one entry per key, in key order, with that key's points and display name |
| Leaderboard.InsertByPoints | src/pages/ChallengeDetails.tsx:73 | the result is the input with the entry added (as a multiset) |
| Leaderboard.SortByPoints | src/pages/ChallengeDetails.tsx:73 | the result is a permutation of the input |
| Leaderboard.InsertRanked | src/pages/ChallengeDetails.tsx:73 | inserting an entry whose author posted before every author in a ranked list keeps it ranked |
| Leaderboard.SortRanked | src/pages/ChallengeDetails.tsx:71-73 | sorting entries listed in order of first appearance gives descending points with ties in the order authors first appear in the fetched list (newest first), as a stable sort does |
| Leaderboard.SumPointsSort | src/pages/ChallengeDetails.tsx:73 | sorting keeps the sum of the points |
| Leaderboard.SumOverAuthors | src/pages/ChallengeDetails.tsx:66-70 | the authors' points add up to all upvotes of all posts |
| Leaderboard.BoardMembers | src/pages/ChallengeDetails.tsx:71-73 | the leaderboard holds exactly the tally rows of the authors |
| Leaderboard.BoardEntries | src/pages/ChallengeDetails.tsx:66-73 | each entry carries its user's summed upvotes and display name; the users shown are exactly the authors |
| Leaderboard.BoardOrder | src/pages/ChallengeDetails.tsx:71-73 | the leaderboard runs from most to fewest points, ties in the order authors first appear in the fetched list (newest first), no user twice |
| Leaderboard.BoardTotal | src/pages/ChallengeDetails.tsx:66-73 | the leaderboard's points add up to all upvotes of all posts |
| Leaderboard.BoardEmpty | src/pages/ChallengeDetails.tsx:66-73 | the leaderboard is empty exactly when there are no posts |
| Leaderboard.TwoAuthorsExample | src/pages/ChallengeDetails.tsx:65-75 | posts by a (3), b (5), a (1) give b with 5 above a with 4 |
| Leaderboard.ComputeLeaderboard | src/pages/ChallengeDetails.tsx:65-75 | the effect's sorted list is `Board` of the posts and the name table |
| Leaderboard.ProfileName | src/pages/ChallengeDetails.tsx:55 | username, then email, then id: a non-empty username wins; without one a non-empty email wins; without either the id is used; so it is empty only for an empty id |
| Leaderboard.BuildUserMap | src/pages/ChallengeDetails.tsx:53-56 | the `forEach` result is `UserMapOf` of the profiles |
| Leaderboard.UserMapKeys | src/pages/ChallengeDetails.tsx:53-56 | the name table has an entry exactly for the ids that have a profile |
| Leaderboard.UserMapLastWins | src/pages/ChallengeDetails.tsx:54-56 | each id maps to the fallback name (username, else email, else id) of its last profile |
| Leaderboard.DisplayNameFallback | src/pages/ChallengeDetails.tsx:72 | the name shown is the id when there is no profile, else the last profile's fallback name |
| ChallengeDetails.IsVideoUrl | src/pages/ChallengeDetails.tsx:158 | a URL gets a video player exactly when it has a '.' and its extension, lower-cased, is mp4, webm or ogg |
| ChallengeDetails.MediaKind | src/pages/ChallengeDetails.tsx:157-162 | no media exactly for a missing or empty URL; a video exactly for a non-empty video URL; an image exactly for any other non-empty URL |
| ChallengeDetails.ExtensionSpec | src/pages/ChallengeDetails.tsx:85 | the extension contains no '.'; it is a suffix of the name; it is the whole name without a '.', else a '.' directly precedes it |
| ChallengeDetails.ExtensionAfterLastDot | src/pages/ChallengeDetails.tsx:85 | the extension is exactly the text after the last '.' |
| ChallengeDetails.DotSuffix | src/pages/ChallengeDetails.tsx:158 | for a dot-free `e`: ending (without case) in "." + `e` is the same as having a '.' and an extension that lower-cases to `e` |
| ChallengeDetails.UpperCaseVideoUrl | src/pages/ChallengeDetails.tsx:158 | "run.MP4" is a video (the match ignores case) |
| ChallengeDetails.PngUrlIsImage | src/pages/ChallengeDetails.tsx:158 | any URL ending in ".png" is an image, even with ".mp4" earlier in it |
| ChallengeDetails.BareExtensionIsImage | src/pages/ChallengeDetails.tsx:158 | "mp4" without a dot is an image |
| ChallengeDetails.MediaUrlFor | src/pages/ChallengeDetails.tsx:82-91 | a media URL is stored exactly when a file was chosen and its upload succeeded, and it is the upload's public URL |
| ChallengeDetails.NewPostRow | src/pages/ChallengeDetails.tsx:80-100 | a row is inserted exactly when the content is not blank and a user is signed in; the row has 0 upvotes, that user, the content, the route's challenge and the media URL `MediaUrlFor` gives |
| ChallengeDetails.UpvoteStep | src/pages/ChallengeDetails.tsx:107-117 | the writes are issued exactly with a user when the lookup fails or finds no record; otherwise nothing changes; records only grow, by at most the voter's record; the set of counted posts and every other post's count are unchanged |
| ChallengeDetails.UpvoteOutcome | src/pages/ChallengeDetails.tsx:111-114 | once the writes are issued, a successful insert adds exactly the voter's record (one more record when it was new) and a failed one adds nothing; a successful update sets the post's count to the seen count plus one and a failed one changes no count |
| ChallengeDetails.SecondUpvoteIsIgnored | src/pages/ChallengeDetails.tsx:110-115 | when the first upvote's insert and the second's lookup succeed, the same voter's second upvote of the post changes nothing |
| ChallengeDetails.FailedLookupVotesAgain | src/pages/ChallengeDetails.tsx:111-114 | a failed lookup lets a voter who already has a record bump the count again |
| ChallengeDetails.UpvoteCountsMatchedIff | src/pages/ChallengeDetails.tsx:111-114 | from matched counts and a current page copy, counts stay matched exactly when the insert adds a new record just when the update bumps the count |
| ChallengeDetails.UpvoteKeepsCountsMatched | src/pages/ChallengeDetails.tsx:111-114 | when all three calls succeed and the page saw the current count, an upvote keeps every post's count equal to its number of distinct voters |
| ChallengeDetails.WithoutPost | src/pages/ChallengeDetails.tsx:181 | exactly the posts with another id remain |
| ChallengeDetails.WithoutPostDistributes | src/pages/ChallengeDetails.tsx:181 | the filter distributes over concatenation, so the other posts keep their order |
| ChallengeDetails.ChallengeDetailsPage.constructor | src/pages/ChallengeDetails.tsx:9-16 | empty posts, name table and leaderboard; empty form; nothing busy |
| ChallengeDetails.ChallengeDetailsPage.ReceivePosts | src/pages/ChallengeDetails.tsx:45-58 | a failed fetch changes nothing; otherwise the rows replace the posts, and the name table is rebuilt from the profiles only when there is some post |
| ChallengeDetails.ChallengeDetailsPage.RecomputeLeaderboard | src/pages/ChallengeDetails.tsx:65-75 | the leaderboard becomes `Board` of the current posts and name table |
| ChallengeDetails.ChallengeDetailsPage.HandleAddPost | src/pages/ChallengeDetails.tsx:78-104 | the insert is `NewPostRow` of the old form; a refused form changes nothing; otherwise the form is reset whatever the backend answered, and the chosen file's extension gives the upload path; the busy flags end false |
| ChallengeDetails.ChallengeDetailsPage.HandleUpvote | src/pages/ChallengeDetails.tsx:107-117 | for the backend's answers to the lookup, insert and update, the vote store's new state and the result are `UpvoteStep` of the old state; the busy marker ends cleared |
| ChallengeDetails.ChallengeDetailsPage.HandleDeletePost | src/pages/ChallengeDetails.tsx:176-182 | only the author can delete; the list is then filtered whatever the backend answered |
| Validation.EmailCheck | src/pages/Settings.tsx:38-47 | 'Email cannot be empty.' exactly for all-whitespace input; 'Email is unchanged.' exactly for a non-blank copy of the current email; otherwise it passes |
| Validation.UsernameCheck | src/pages/Settings.tsx:63-86 | 'Username cannot be empty.' exactly for an all-whitespace name; 'Username is already taken.' exactly for a non-blank name the lookup found that differs from the current name; 'User not found.' exactly for a name past those checks with nobody signed in or an empty (falsy) user id; otherwise it passes |
| Validation.OwnUsernamePasses | src/pages/Settings.tsx:74 | resubmitting one's own non-blank name passes when a user with a non-empty id is signed in |
| Validation.PasswordCheck | src/pages/Settings.tsx:105-114 | 'Please fill out both fields.' exactly when a field is empty; 'Passwords do not match.' exactly for two different non-empty entries; otherwise it passes |
| Settings.SettingsPage.constructor | src/pages/Settings.tsx:5-17 | all fields empty, no errors, no successes, not loading |
| Settings.SettingsPage.ReceiveUser | src/pages/Settings.tsx:20-29 | without a user nothing changes; otherwise the email and the username (or '') fill both the current and the new fields |
| Settings.SettingsPage.HandleEmailChange | src/pages/Settings.tsx:33-56 | the update is issued exactly when `EmailCheck` passes; a refusal shows its message; a failed update shows the backend's message; success sets the flag and the new current email; never left loading |
| Settings.SettingsPage.HandleUsernameChange | src/pages/Settings.tsx:58-98 | the update (user id, name) is issued exactly when `UsernameCheck` passes; a refusal shows its message; a failed update shows the backend's message; success sets the flag and the new current name; never left loading |
| Settings.SettingsPage.HandlePasswordChange | src/pages/Settings.tsx:100-124 | the update is issued exactly when `PasswordCheck` passes; a refusal shows its message; a failed update shows the backend's message; success sets the flag and clears both fields; never left loading |
| ResetPassword.ResetPasswordPage.constructor | src/pages/ResetPassword.tsx:5-9 | empty fields, no error, no success, not loading |
| ResetPassword.ResetPasswordPage.HandleSubmit | src/pages/ResetPassword.tsx:11-28 | the update is issued exactly when `PasswordCheck` passes; a refused form never touches `loading`; after the update exactly one of error and success is set, and `loading` is false |

## Left out

- Backend calls: auth, table queries, storage and public URLs are not modelled as code. Their answers are parameters of the handlers.
- Concurrency: each async handler is modelled as running to completion before the next. Two clients upvoting at once can both miss each other's record. The count written is the count the page last saw plus one, so a stale page can undo another voter's increment. `UpvoteKeepsCountsMatched` and `UpvoteCountsMatchedIff` therefore require the page's count to be the stored one.
- Upvote records: the `post_upvotes` table is a set of (post, voter) pairs, so duplicate rows are not represented. On the real table a second row for a pair would make `.single()` fail, and the handler then proceeds as after a failed lookup, which `FailedLookupVotesAgain` covers. Whether the table has a uniqueness constraint that rejects the second insert is backend configuration; in the model inserting an existing pair adds nothing.
- Dates: `new Date(...)` parsing of the date columns and the clock are not modelled. Dates are already-parsed integer milliseconds, `now` is a parameter, and an unparsable date (NaN) is not represented.
- Floating point: the percent is computed exactly on integers. It can differ from the double computation only when 100·elapsed/total lies within floating-point error of a half.
- Text output: the label strings, the progress-bar width and the upload path `progress-media/<user>/<Date.now()>.<ext>` are not built as text. The model keeps the label as data and returns the extension.
- Object key order: `Object.entries(scores)` is modelled as insertion order. Integer-like keys (which JavaScript lists first, ascending) are not modelled; user ids are UUIDs.
- Rendering and routing: the JSX, the navigation, the challenge fetch on the details page, the loading flag of the challenge list and the `historyOpen` toggle of the mock history panel are not modelled.
- Refetching: the effects that refetch after a state change are not modelled as triggers. Their results come in through `ReceiveChallenges`, `ReceivePosts` and `RecomputeLeaderboard`.
- Static data: the mock history list on the challenges page is not modelled.
- Other files: Navbar, App, Layout, Home, Stats, Auth and the build configuration are not part of this model.
- Date strings: the create form sends its dates as the form's strings; whether they parse is left to the backend.
- Profiles and email: the details page selects only `id,username`, so `email` is normally absent. The model keeps the `profile.email` fallback for the rows that do carry it.
