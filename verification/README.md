# coding_areana rules, modelled in Dafny

coding_areana is a competitive-programming companion. Its pages browse the judge's
(Codeforces) problem set, build private ("custom") contests and published contests from it,
list upcoming and running contests, and chart a user's solving history. An Express backend
registers participants and keeps friends and solved problems per user.

This project models the pure rules buried in those pages and routes, and proves properties
of them:

- **Catalogue shaping** (`Catalogue`): the problem-set and custom-contest pages keep the
  first 50 judge problems. Each entry gets its canonical URL and a tag list that defaults
  to empty. They also collect the distinct tags for the picker and filter by one tag.
- **Problem identity** (`Identity`, `Text`): the `contestId-index` key, the problem URL, and
  the URL matcher of the contest problem pages (`app/contests/[contestid]/problems/page.js`,
  lines 102-107): `split('/')`, then `parseInt` of the second-to-last piece.
  The model proves that key and URL are injective and that the matcher reads a URL back to
  exactly the problem it came from.
- **Custom contests** (`CustomContest`): a URL-keyed selection capped at seven problems, and
  the ordered checks made before a private contest is created.
- **Contest authoring** (`Admin`): an uncapped selection held as a set of keys, the tag filter
  on raw judge problems whose `tags` may be missing, the tag list, the contest document
  assembled from form and selection, and the reset after a successful submission.
- **Contest listing** (`Listing`): which contests are shown at an instant, and which carry
  "Live Now".
- **Solving analytics** (`Analytics`): the per-day count of newly solved problems behind the
  heatmap is a one-pass reduction over the submission history. The model proves it equal to
  an independent definition of "first accepted submission of each problem". It also covers
  the 1-based graph points, the solved total, and the colour classes.
- **Backend rules** (`Server`): private and public registration, add/remove friend,
  mark-solved, the friends list and the profile upsert, as transitions on an in-memory store.

`Seqs` holds the shared vocabulary: `Option`, `Result`, `filter`, `findIndex`/`findOne`,
`[...new Set(xs)]`, `flatMap`, `$addToSet`, `$pull` and sums. `Roster` holds the participant
records, and `Clock` the units of time.

Modelling conventions:

- Instants are integer seconds.
- A day is `seconds / 86400`, which is the UTC day `toISOString` would print.
- A missing request field is the empty string for the routes that test their fields for
  falsiness (`!name || !email`, `!userData.email`, ...), where an empty and a missing field are
  treated alike. A missing identifier is `None`. The public registration route tests nothing;
  it is modelled for a supplied email only (see "Left out").
- A missing judge `tags` field is `None`.
- A database lookup finds the first matching document in collection order.

## Model

| member | source | states |
|---|---|---|
| Seqs.Filter | app/problemset/page.js:49 | `filter` keeps exactly the elements that pass, and never grows the list |
| Seqs.FilterAppend | app/contests/page.js:19 | filtering distributes over concatenation, so the original relative order is kept |
| Seqs.FirstOccurrences | app/problemset/page.js:32 | `[...new Set(xs)]` has no duplicates, exactly the members of `xs`, and lists them in the order of their first occurrence in `xs` |
| Seqs.FirstOccurrencesOfDistinct | app/problemset/page.js:32 | a list that is already duplicate-free passes through `new Set` unchanged |
| Seqs.Flatten | app/problemset/page.js:32 | `flatMap` contains exactly the elements of the inner lists |
| Seqs.FlattenAppend | app/problemset/page.js:32 | `flatMap` over a concatenation is the concatenation of the two flattenings, so the flattened stream keeps the problems' order |
| Seqs.FindFirst | Backend/server.js:83 | `findOne` yields the first matching position, and none exactly when nothing matches |
| Seqs.AddToSet | Backend/server.js:162 | `$addToSet` puts the value in, changes nothing if it was present, grows by one otherwise, keeps the array duplicate-free |
| Seqs.Pull | Backend/server.js:429 | `$pull` removes every occurrence of the value and keeps every other value |
| Seqs.SumAppend | app/analytics/page.jsx:49 | the sum of a concatenation is the sum of the parts |
| Text.NatToString | app/analytics/page.jsx:101 | `${n}` is a non-empty run of digits denoting `n`, with no leading zero |
| Text.NatToStringInjective | app/analytics/page.jsx:101 | two different numbers never render alike |
| Text.Trim | app/CostumContests/page.js:78 | `trim()` is the slice of the text left after removing a blank prefix and a blank suffix; it is empty exactly when the text is all whitespace, and otherwise neither starts nor ends with whitespace |
| Identity.ProblemKey | app/adminpage/page.js:52 | a key is non-empty and starts with the first digit of the contest number |
| Identity.ProblemKeyInjective | app/adminpage/page.js:52 | two problems share a `contestId-index` key only if they are the same problem |
| Identity.ProblemUrl | app/problemset/page.js:26 | every problem URL lies under the judge's problem path |
| Identity.ProblemUrlInjective | app/CostumContests/page.js:35 | two problems share a URL only if they are the same problem, so the URL-keyed selection is keyed by identity |
| Identity.UrlNamesRoundTrip | app/CostumContests/page.js:35 | a URL built this way is read back by the scoring pages' matcher (second-to-last piece through `parseInt`, last piece verbatim) as exactly the problem it was built from, and as no other |
| Catalogue.Shape | app/problemset/page.js:21-27 | an entry keeps the judge's name, contest and index, defaults tags to `[]`, and carries the canonical URL |
| Catalogue.Catalogue | app/problemset/page.js:21-27 | the catalogue is the shaped prefix of the judge's list, of length `min(n, 50)` |
| Catalogue.CatalogueIdentifies | app/CostumContests/page.js:30-36 | each catalogue URL names exactly its own problem, and distinct judge problems give distinct URLs |
| Catalogue.AllTags | app/problemset/page.js:32 | the flattened tags are exactly the tags of some problem |
| Catalogue.UniqueTags | app/problemset/page.js:32 | the tag picker lists every tag of every problem, each once, nothing else, in order of first appearance |
| Catalogue.FilterByTag | app/problemset/page.js:45-51 | no tag keeps the whole catalogue; a tag keeps exactly the problems listing it |
| Catalogue.FilterByTagKeepsOrder | app/CostumContests/page.js:70-74 | tag filtering keeps catalogue order |
| CustomContest.Toggle | app/CostumContests/page.js:56-68 | a selected URL is removed entirely; an unselected problem is appended unless seven are chosen, when nothing changes; the cap and URL distinctness are preserved |
| CustomContest.DeselectKeepsOrder | app/CostumContests/page.js:59 | deselecting keeps the remaining picks in their order |
| CustomContest.ToggleTwice | app/CostumContests/page.js:56-68 | picking an unselected problem and clicking it again, below the cap, restores the selection |
| CustomContest.StartContest | app/CostumContests/page.js:77-104 | blank name, then no problems, then a missing date or time are rejected in that order; otherwise the contest has the typed fields, the picks and no participants |
| Admin.AdminCatalogue | app/adminpage/page.js:31-36 | the first 50 judge problems keep the modelled fields (contest, index, name, tags possibly missing) plus the canonical URL |
| Admin.ToggleKey | app/adminpage/page.js:49-60 | the problem's key flips membership, no other key changes, and the size moves by one either way |
| Admin.ToggleKeyTwice | app/adminpage/page.js:49-60 | clicking a problem twice restores the selection at any size |
| Admin.ToggleKeyIsPerProblem | app/adminpage/page.js:52 | toggling one problem never changes another problem's selection |
| Admin.AdminFilter | app/adminpage/page.js:62-64 | no tag keeps all problems; with a tag, the result fails exactly when some problem lacks `tags`, and otherwise is the order-keeping filter of the problems listing it |
| Admin.FilterTagged | app/adminpage/page.js:63 | the tagged filter fails exactly when some problem lacks `tags`; otherwise it keeps exactly the tagged problems |
| Admin.FilterTaggedIsFilter | app/adminpage/page.js:63 | when it does not fail, the tagged filter equals the order-keeping `filter`: each kept problem once, in catalogue order |
| Admin.AdminFilterKeepsOrder | app/adminpage/page.js:62-64 | filtering two lists joined is filtering each and joining the results |
| Admin.TagEntries | app/adminpage/page.js:66 | a problem contributes its tags, or `undefined` when it has none |
| Admin.AdminTags | app/adminpage/page.js:66 | the derived tags are duplicate-free, include every tag of every problem (and `undefined` for an untagged one), nothing else, in order of first appearance |
| Admin.FinalContest | app/adminpage/page.js:68-72 | the submitted problems are exactly the catalogue problems whose key is selected, the link is `/contest/{id}`, and every other field is the form's |
| Admin.FinalContestKeepsOrder | app/adminpage/page.js:70 | the submitted problems are in catalogue order |
| Admin.AfterSubmit | app/adminpage/page.js:84-88 | success clears the selection and resets the form under a fresh id; failure changes nothing |
| Admin.SubmitClearsNextContest | app/adminpage/page.js:84-87 | after a successful submission the next contest document has no problems |
| Listing.Classify | app/contests/page.js:19-24 | a contest is dropped exactly when it has started and `now >= end`; it is "Live Now" iff `start <= now < end` and "Upcoming" iff `now < start` |
| Listing.ListContests | app/contests/page.js:19-24 | the listed contests are exactly those with `now < start` or `now < end` |
| Listing.ListContestsKeepsOrder | app/contests/page.js:19 | listing keeps the fetched order |
| Listing.BadgesOfListed | app/contests/page.js:53 | on a listed contest the two badges are exclusive and match running and not-yet-started |
| Listing.EndedBeforeRenderShowsUpcoming | app/contests/page.js:17-53 | a contest listed while running but drawn after it ended is badged "Upcoming" |
| Listing.Scheduled | app/contests/page.js:20-21 | start and end lie on the same date, the end offset from the start by the difference of the times of day |
| Listing.EndNotAfterStartNeverLive | app/contests/page.js:20-23 | an end time not after the start time makes the contest never live: listed as upcoming until it starts, then dropped |
| Analytics.DayOf | app/analytics/page.jsx:105-107 | the day of a submission is the one whose 86400 seconds contain its creation instant |
| Analytics.TallyDescribes | app/analytics/page.jsx:96-115 | the one-pass reduction has as solved set the keys of accepted submissions, and per-day counters that equal the number of first solves on that day |
| Analytics.Heatmap | app/analytics/page.jsx:96-121 | heatmap days are pairwise distinct, counts are at least 1, each count is the number of first accepted submissions that day, every such day is present, and the counts add up to the problems solved |
| Analytics.HeatmapTotalIsSolvedProblems | app/analytics/page.jsx:96-115 | the counts add up to the number of distinct (contest, index) problems with an accepted submission |
| Analytics.AcceptedKeysMatchProblems | app/analytics/page.jsx:101-103 | there are as many distinct solved keys as distinct solved (contest, index) pairs |
| Analytics.AcceptedKeysMember | app/analytics/page.jsx:100-102 | a problem's key is among the solved keys exactly when some submission for it was accepted |
| Analytics.LaterSubmissionIgnored | app/analytics/page.jsx:102 | once a problem is solved, further submissions for it change nothing |
| Analytics.OnlyAcceptedCount | app/analytics/page.jsx:100 | dropping every non-`"OK"` submission leaves the reduction unchanged |
| Analytics.PlottedTotal | app/analytics/page.jsx:42-49 | the graph numbers its points from 1 and plots every value in order; the reported total is the sum of the plotted values |
| Analytics.ReduceIsSum | app/analytics/page.jsx:49 | the left fold with `+` from an accumulator adds the sum of the list to it |
| Analytics.ClassForValue | app/analytics/page.jsx:230-233 | no value gives `color-empty`; a value gives `color-scale-` and one digit, equal to the count up to 4 and 4 above it |
| Analytics.HeatmapShades | app/analytics/page.jsx:230-233 | every heatmap cell is coloured with a shade from 1 to 4 |
| Server.HandleFor | Backend/server.js:95-96 | the participant's handle is the first matching user's handle when present and non-empty, otherwise `null` |
| Server.PushContest | Backend/server.js:114-117 | the contest reference is appended to the first user with the email and to no one else |
| Server.Register | Backend/server.js:83-117 | 404 exactly when no contest has the key, 400 exactly when the email is already registered, both with the store unchanged; otherwise one participant and one history entry are appended and nothing else changes |
| Server.RegisterPrivate | Backend/server.js:70-119 | a missing name or email is a 400; otherwise 404 exactly when no private contest has the id, 400 exactly when the email is already a participant, and on 200 the participant and the `{FRONTEND_URL}/CostumContests/{id}` history entry are added and nothing else changes; every failure keeps the store |
| Server.RegisterPublic | Backend/server.js:282-345 | 404 exactly when no upcoming contest has the id, 400 exactly when the email is registered, 500 exactly when it is not but the contest has no organizer email or the mail fails; on 200 and on 500 the participant and the `{FRONTEND_URL}/contests/{id}` history entry are already stored |
| Server.RegisterKeepsParticipantsDistinct | Backend/server.js:90-102 | registration keeps participant emails pairwise distinct in every contest |
| Server.RegisterAgainRejected | Backend/server.js:295-297 | after registering, the same email is rejected by the same contest with 400 and nothing changes |
| Server.AddFriend | Backend/server.js:377-407 | missing ids give 400 and an unknown user 404, both unchanged; both ids and a known user give 200, and only that user's friends change, to the old friends plus the new one, duplicate-free if they were |
| Server.RemoveFriend | Backend/server.js:411-441 | same checks; both ids and a known user give 200, the friend is absent afterwards, and every other friend and user is untouched |
| Server.AddFriendIdempotent | Backend/server.js:393-396 | adding the same friend twice is the same as adding once |
| Server.RemoveAfterAdd | Backend/server.js:393-430 | remove after add leaves the friend absent and the other friends as before |
| Server.MarkSolved | Backend/server.js:143-174 | missing fields give 400 and an unknown email 404, both unchanged; both fields and a known email give 200, and the problem is in that user's solved list, added at most once |
| Server.MarkSolvedIdempotent | Backend/server.js:160-163 | marking the same problem twice is the same as marking once |
| Server.FriendsOf | Backend/server.js:443-480 | an unknown user gives 404; a user without friends gives an empty list; otherwise exactly the users whose id is among the friends |
| Server.NoFriendsShortcutAgrees | Backend/server.js:465-473 | the early empty answer agrees with what the general friend query would return |
| Server.Upsert | Backend/server.js:526-552 | 400 exactly without email; 200 writes every supplied field over the first user with the email and keeps its identifier and every other field; 201 appends, when no user has the email, a new user under the next id holding the supplied fields and nothing else |
| Server.UpsertThenFind | Backend/server.js:536-547 | after an upsert the email finds a user carrying every supplied field |
| Server.UpsertKeepsEmailsDistinct | Backend/server.js:536-547 | upsert never gives two users the same email |
| Server.UpsertIdempotent | Backend/server.js:538-547 | sending the same profile twice leaves the store as sending it once did |

## Left out

- Every fetch to the judge API and to the backend: their results are the inputs of the model.
  Failed fetches, `status !== "OK"` answers and loading flags are not modelled.
- React state, hooks, memoisation, toasts and alerts. The admin form's `handleChange` just
  writes a field; it is not modelled beyond the form datatype.
- The private-contest POST made by the custom-contest page after its checks, and the
  admin page's POST; a submission's outcome is the `succeeded` input of `Admin.AfterSubmit`.
- `uuidv4`: a fresh identifier is an input.
- `new Date(...)` parsing of date and time strings in the local time zone, and `toISOString`.
  Instants are integers and a day is `seconds / 86400`. An unparsable date (NaN) makes every
  comparison false in the source; the model has no such value.
- `parseInt` skipping leading whitespace and reading a sign: `Text.ParseLeadingInt` reads only
  a leading run of decimal digits. This is enough for the URLs the application builds.
- The scoring and standings code of the contest problem pages, beyond the URL matcher it uses.
- MongoDB details: ObjectId validity (`new ObjectId` throwing gives a 500), projections,
  `matchedCount`/`modifiedCount`. The private route's 500 on `modifiedCount === 0` cannot occur
  in the model, because the contest was just found. Which document `findOne` returns when
  several match is modelled as the first in collection order.
- Concurrency: check-then-push registration is not atomic in the source; each route is one
  atomic transition here.
- Nodemailer: whether the confirmation mail is sent is the `mailSent` input.
- Clerk and Liveblocks authentication, presentation-only pages and components, and the
  routes not named above (`/users/search`, `/users/update`, `update-contest-history`, contest
  creation and listing routes).
- The `link` the admin page stores is `/contest/{id}` (singular), while the pages live under
  `/contests/`. The backend's `GET /upcomingcontests` overwrites every `link` with
  `/contests/{id}` before the listing page uses it; that rewrite is not modelled.
- The contests page reads the clock once to filter and again to render. `Listing` models both
  readings as separate instants and shows the consequence in
  `Listing.EndedBeforeRenderShowsUpcoming`.
- The rating-history graph (`user.rating`) is shaped like the solved-problems graph. It is not
  modelled separately.
- The heatmap's dates are `YYYY-MM-DD` strings in the source; the model keeps the day number,
  from which the string is a fixed, injective rendering.
- Server.RegisterPublic: a request without an email is not modelled. The source then pushes a
  participant with an undefined email (stored as `null`) and compares `p.email === undefined`,
  so repeated email-less registrations all succeed; the model's emails are strings, and an
  empty one is registered at most once.
- Server.Upsert: a body field outside the modelled user document (the pages also send
  `avatar`, `contestId` and `problems`) is written by `$set` in the source but has no place in
  the model. A body carrying `_id` is not modelled either.
- Identity.UrlNamesRoundTrip: holds for problem indices without a `/` (the judge's indices
  are a letter, optionally followed by a digit); `Catalogue.CatalogueIdentifies` carries the
  same assumption for every listed problem.
- Admin.AdminCatalogue: `...problem` copies every field the judge returns; the model keeps
  contest, index, name and tags, the only fields the page reads.
- Analytics.Heatmap: the source's cells are ordered by `Object.keys`, which for these date
  keys is insertion order; the model states that order only through the one-pass definition
  and proves the count, distinctness and coverage facts, not an order property.
