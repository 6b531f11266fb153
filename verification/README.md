# Application Tracker — a Dafny model of its core

The Application Tracker shows scraped job postings in a React front end. Its
Express/PostgreSQL server lets a signed-in user mark a posting as "applied".
This project models the parts of the repository that hold real logic, as pure
Dafny functions over immutable data. It then proves what those parts promise.

- **Paging** (`Paging`, `AppliedView`, `ListView`): ten jobs per page and
  `Array.prototype.slice`, with its negative-index reading. It also covers
  `Math.ceil` for the page count, the previous/next flags and the window of
  numbered page buttons. The applied-jobs page takes its button budget from the
  window width (42 px per button). The job list has a fixed budget of ten.
- **Location filter and descriptions** (`ListView`, `Text`): the `ALL` /
  `Remote` / region filter as a case-sensitive substring test. Descriptions are
  shortened at 150 characters in the list, and above 350 in the applied list.
- **Detail page** (`Detail`): the regular expression `/POINT\((.+)\s(.+)\)/`
  with JavaScript's exact matching rules: leftmost match, greedy groups, `.`
  refusing line terminators and `\s` the ECMAScript white-space set. It also
  covers the map centre, the body posted to `/mark-applied` and the status shown
  on the button.
- **Profile form** (`Profile`): the initial state of `UserInfo.js`, its single
  change handler with three branches, and "Add Work Experience".
- **Server** (`Auth`, `Server`): the bearer-token check, `/login`, `/register`,
  `/mark-applied`, `/is-applied/:job_jk`, `/job-listings` and
  `/job-listings/:job_jk`, all over a value `Db` holding three tables: users,
  jobs and the applied-jobs ledger.
- **Client meets server** (`Interplay`): the detail page's post, answered by the
  server's handler. It proves what the user sees and what the ledger then holds.

Things outside the program are parameters:
- the token library's verification (`verify`) and signing (`sign`);
- bcrypt's `hash` and `compare`;
- the network round trip (`post`);
- a failing query (`fault`);
- the clock (`now`);
- new row ids (`newId`).

Database rows are records, and ids and keys are kept as text.

What the code does, which the model follows:
- `includes('Remote')` is case-sensitive (frontend/src/JobList.js:38).
- `/mark-applied` is one INSERT, with no duplicate check and no update of the
  job row (server/server.js:111-134). Marking twice stores two rows
  (`Server.MarkAppliedTwice`).
- `/job-listings` returns every row of the job table (server/server.js:145).
  Location filtering happens only in the browser.

## Model

| member | source | states |
|---|---|---|
| Text.Includes | frontend/src/JobList.js:38 | the substring test is true exactly when the text occurs at some index of the location |
| Text.Split | server/server.js:28 | splitting on a space yields at least one piece, two or more exactly when the header has a space, and no piece contains a space |
| Text.JoinSplit | server/server.js:28 | joining the pieces with the separator gives back the original header |
| Text.SplitJoin | server/server.js:28 | splitting a join of separator-free pieces gives back the pieces |
| Text.Shorten | frontend/src/JobList.js:118 | text within the limit is unchanged; longer text becomes its first `keep` characters followed by exactly `...` |
| Paging.TotalPages | frontend/src/JobList.js:53 | the page count is the least number of ten-job pages that holds all jobs |
| Paging.PageSlice | frontend/src/JobList.js:45-47 | page c shows at most ten jobs, namely jobs (c-1)*10 up to c*10 of the list; among pages c ≥ 0 it is non-empty exactly on pages 1..totalPage, and page 0 is empty |
| Paging.PagesCover | frontend/src/JobList.js:45-47 | pages 1..k laid end to end are exactly the first 10k jobs |
| Paging.PagesRoundTrip | frontend/src/JobList.js:45-47 | all pages together are the list itself: paging neither loses nor repeats a job |
| Paging.PageOfItem | frontend/src/JobList.js:45-47 | job j appears on page j/10+1, at position j%10, and that page exists |
| Paging.NextMeansMoreJobs | frontend/src/JobList.js:52 | "Next" is shown exactly when jobs remain beyond the current page, that is when the following page is non-empty |
| Paging.PrevMeansFullPageBefore | frontend/src/JobList.js:51 | on an existing page, "Previous" is shown exactly when the page before is a full page of ten |
| Paging.Labels | frontend/src/JobApplied.js:81-87 | the loop yields one label per page of the window, consecutive and starting at startPage |
| Paging.LabelsMembership | frontend/src/JobApplied.js:81-87 | a page number has a button exactly when it lies between startPage and endPage |
| Paging.SelectWindow | frontend/src/JobApplied.js:59-77 | the window shows min(budget, totalPage) pages inside 1..totalPage, all pages when they fit, and always includes the current page; with more pages than budget it starts at page 1 while c ≤ budget/2, ends at totalPage once c + budget/2 reaches it, and otherwise starts at c − budget/2 |
| Paging.CentredExample | frontend/src/JobApplied.js:73-77 | 250 jobs, a budget of ten and page 15 give the centred buttons 10 to 19 |
| AppliedView.ButtonsFor | frontend/src/JobApplied.js:79-87 | one button per page of the window, in order, each active exactly when it strictly equals the current page |
| AppliedView.OneActiveInWindow | frontend/src/JobApplied.js:83 | a window containing numeric page c marks exactly one button active |
| AppliedView.OneActiveOnNumericPage | frontend/src/JobApplied.js:55-87 | on a numeric page within 1..totalPage, with room for one button, exactly one button is active |
| AppliedView.NarrowWindowNoButtons | frontend/src/JobApplied.js:55-56 | a window narrower than one 42 px button shows no page buttons at all |
| AppliedView.ButtonBudget | frontend/src/JobApplied.js:55-77 | the number of buttons is the width budget capped by the page count; when all pages fit they are pages 1..totalPage |
| AppliedView.InitialReadsAsPageOne | frontend/src/JobApplied.js:11-52 | the initial `true` shows the same jobs, flags and button labels as page 1, with no "Previous" |
| AppliedView.InitialMarksNothing | frontend/src/JobApplied.js:11 | as written, the first render marks no button active |
| AppliedView.IntendedInitialMarksPageOne | frontend/src/JobApplied.js:83 | starting from the number 1, the first render marks exactly one button active when there is an application and room for a button |
| AppliedView.Render | frontend/src/JobApplied.js:43-87 | one render shows jobs (c-1)*10 up to c*10 for the current page c read as a number, "Previous" exactly past page 1, "Next" exactly when jobs lie beyond the page, and min(budget, totalPage) buttons for startPage, startPage+1, … in order within 1..totalPage, each active exactly when it strictly equals the current page |
| AppliedView.Press | frontend/src/JobApplied.js:118-120 | Previous and Next move one page from the current page read as a number, a page button goes to its page, and after any press the page is a number |
| AppliedView.ControlsStayInRange | frontend/src/JobApplied.js:118-120 | no on-screen control (Previous, Next, a page button) leads outside 1..totalPage |
| AppliedView.Description | frontend/src/JobApplied.js:109 | descriptions up to 350 characters are shown whole; longer ones as their first 150 characters and `...` |
| ListView.FilterJobs | frontend/src/JobList.js:37-39 | a job is kept exactly when its location contains the option or contains `Remote`; every admitted job is kept as many times as it occurs, every other job never |
| ListView.FilterIsOrderedSubsequence | frontend/src/JobList.js:37-39 | the kept jobs are an ordered sub-list of the fetched list |
| ListView.FilterIdempotent | frontend/src/JobList.js:37-39 | filtering the filtered list with the same option changes nothing |
| ListView.ApplyFilter | frontend/src/JobList.js:36-40 | `ALL` keeps the list as fetched; any other option keeps exactly the admitted jobs, each as often as it occurs |
| ListView.ApplyFilterShape | frontend/src/JobList.js:36-40 | every filter result is an ordered sub-list of the fetched list and a fixed point of the same filter |
| ListView.ApplyResetsAndRepeats | frontend/src/JobList.js:36-42 | applying the filter returns to page 1, keeps the full list and option, and applying again changes nothing |
| ListView.FilterForgetsHistory | frontend/src/JobList.js:36-42 | a filter's result does not depend on filters applied before it |
| ListView.ListWindow | frontend/src/JobList.js:55-73 | the window stays in 1..totalPage and holds the current page: all pages when they fit, 1..10 near the start, the last ten near the end, and c-5..c+5 (eleven buttons) in the middle case |
| ListView.ListWindowVersusBudget | frontend/src/JobList.js:69-72 | the list's window matches the ten-button window except that the middle case ends one page later |
| ListView.IntendedListWindow | frontend/src/JobList.js:57 | the corrected window shows exactly min(10, totalPage) buttons inside 1..totalPage including the current page |
| ListView.ElevenButtonsExample | frontend/src/JobList.js:69-72 | with 250 jobs on page 15 the list shows the eleven buttons 10 to 20, where the corrected window shows 10 to 19 |
| ListView.Render | frontend/src/JobList.js:44-82 | page c shows jobs (c-1)*10 up to c*10 of the list on show, "Previous" exactly past page 1, "Next" exactly when jobs lie beyond the page, and one button per window page, in order, each active exactly when it equals the current page |
| ListView.OneActiveButton | frontend/src/JobList.js:76-82 | on any page within 1..totalPage exactly one button is active |
| ListView.Loaded | frontend/src/JobList.js:24-25 | the fetched data replaces both the full list and the list on show; the option chosen meanwhile and the page are kept |
| ListView.LoadedIsValid | frontend/src/JobList.js:24-25 | a fetch landing on page 1, whatever option was chosen meanwhile, gives a valid state showing the full list |
| ListView.FirstFetch | frontend/src/JobList.js:7-25 | the first fetch from the initial state gives a valid state under `ALL` showing the whole list, its first ten jobs on page 1 and no "Previous" |
| ListView.LoadingKeepsPageOne | frontend/src/JobList.js:89-96 | the drop-down and Apply, on screen while loading, never leave page 1 |
| ListView.Step | frontend/src/JobList.js:36-129 | no action changes the fetched list; choosing an option changes nothing on show; Apply recomputes the filter from the full list and returns to page 1; Previous goes to c-1, Next to c+1 and a page button to its page, leaving the lists alone |
| ListView.StepKeepsValid | frontend/src/JobList.js:127-129 | every action on screen keeps the list on show an ordered sub-list of the fetched jobs and the page within 1..totalPage |
| ListView.Description | frontend/src/JobList.js:118 | descriptions up to 150 characters are shown whole; longer ones as their first 150 characters and `...` |
| ListView.DescriptionsCompared | frontend/src/JobList.js:118 | only descriptions of 151 to 350 characters are shown differently by the two lists: shortened here, whole in the applied list |
| Detail.FirstMatch | frontend/src/JobDetail.js:37 | the search finds the leftmost start of a match with the longest first group and then the longest second group, or reports that none exists |
| Detail.ParseLocation | frontend/src/JobDetail.js:35-43 | an absent, empty or non-matching location gives no point; otherwise the point is the two groups of the match JavaScript reports, longitude first |
| Detail.ParsePlainPoint | frontend/src/JobDetail.js:37-42 | `POINT(a b)` with whitespace-free tokens reads as longitude a and latitude b |
| Detail.LocationOf | frontend/src/JobDetail.js:45 | no job loaded gives no location; a loaded job gives a point exactly when its non-empty location holds a match, and the point is group 1 and group 2 of the JavaScript match |
| Detail.Center | frontend/src/JobDetail.js:48 | the map centres on the parsed point, or on the fixed default when there is none |
| Detail.CenterWithoutPoint | frontend/src/JobDetail.js:45-48 | with no job or no point in its location, the map centres on the default |
| Detail.CenterOnPlainPoint | frontend/src/JobDetail.js:45-48 | a location `POINT(a b)` centres the map on (a, b) |
| Detail.ApplicationFor | frontend/src/JobDetail.js:64-72 | the posted body copies link, company, location, type and description, sends the internal id, and never sends a falsy salary |
| Detail.MarkAsApplied | frontend/src/JobDetail.js:61-91 | with no job loaded nothing is sent; otherwise the status becomes "Applied" exactly when the reply reads success, and "Failed to mark as applied" otherwise |
| Detail.RepostsWhenApplied | frontend/src/JobDetail.js:61-72 | a job already shown as applied is posted again with the same body |
| Profile.InitialShape | frontend/src/UserInfo.js:6-15 | the form starts with one blank work entry, four blank titles and locations, blank URLs and no top-level linkedIn/github |
| Profile.SetField | frontend/src/UserInfo.js:20 | writing one field of a work entry changes that field and no other |
| Profile.EditWork | frontend/src/UserInfo.js:18-21 | a work-experience input changes only the named field of its own entry; everything else is unchanged |
| Profile.EditPref | frontend/src/UserInfo.js:22-25 | a preference input changes only its own position of its own list; everything else is unchanged |
| Profile.EditTop | frontend/src/UserInfo.js:26-28 | any other input changes only the top-level key it names |
| Profile.UrlInputsMissUrls | frontend/src/UserInfo.js:72-73 | the URL inputs write top-level linkedIn/github keys and leave the displayed `urls` record as it was |
| Profile.AddWorkExperience | frontend/src/UserInfo.js:31-36 | one blank entry is appended after the existing ones; nothing else changes |
| Profile.Step | frontend/src/UserInfo.js:17-36 | one event from a rendered input writes its value into the named slot (the work entry's field, the preference list's position, or the top-level key), keeps both preference lists' lengths and the `urls` record, and grows the work list by one exactly for Add |
| Profile.Run | frontend/src/UserInfo.js:17-36 | the empty session leaves the form as it is, a first event whose input is not rendered stops the session, and a session of top-level edits and Add presses always completes |
| Profile.RunStopsAtUnrendered | frontend/src/UserInfo.js:17-36 | an event at any position whose input is not rendered at that point stops the session, whatever follows |
| Profile.RunKeepsShape | frontend/src/UserInfo.js:17-36 | over any session the preference lists keep their length, `urls` never changes, and each Add press adds exactly one entry |
| Profile.SessionsFromInitial | frontend/src/UserInfo.js:6-36 | from the initial form, the preference lists always hold four entries and the URL record stays blank |
| Auth.TokenOf | server/server.js:27-28 | no header gives no token, an empty header is itself the token, and otherwise a token exists exactly when the header has a space and it contains none |
| Auth.TokenIsSecondPiece | server/server.js:28 | the token is the text between the header's first space and the next space or the end |
| Auth.SecondPieceIsToken | server/server.js:28 | conversely `scheme token rest` yields exactly `token` |
| Auth.Authenticate | server/server.js:26-37 | no token gives 401, an empty or refused token gives 403, and otherwise the handler runs with the token's claims |
| Auth.HeaderShapes | server/server.js:27-33 | a missing header or one without a space is 401; an empty header is 403 whatever the library says |
| Server.Denied | server/server.js:30-33 | a refused request gets 401 without a token and 403 for a refused token |
| Server.FindUser | server/server.js:41-46 | the lookup returns a user row of that name, and nothing exactly when no row has it |
| Server.Login | server/server.js:48-77 | a query fault is 500; a token is issued exactly for a known name whose hash matches the password, carrying that user's id and name for one hour; every other refusal is the same 401 |
| Server.LoginHidesWhichCheckFailed | server/server.js:54-62 | an unknown name and a wrong password receive identical replies |
| Server.Register | server/server.js:79-97 | a fault is 500 and changes nothing; otherwise the new row with the hashed password is appended and its id and name returned |
| Server.RegisterThenLogin | server/server.js:79-97 | a newly registered name logs in with its password and gets a token carrying the new id |
| Server.FirstRegistrationWins | server/server.js:41-46 | in this model, where the lookup takes the first row of that name in table order, a second row with a taken name never changes how that name logs in |
| Server.LedgerRow | server/server.js:111-134 | the inserted row carries the seven posted fields, with `jobId` in the key column, stamped with the server's time |
| Server.MarkApplied | server/server.js:99-141 | unauthenticated or failed requests change nothing; otherwise exactly one row is appended and returned; jobs, users and older rows never change |
| Server.MarkAppliedTwice | server/server.js:111-122 | marking the same job twice stores two rows with the same key |
| Server.LedgerHas | server/server.js:175-180 | true exactly when some ledger row carries the key |
| Server.IsApplied | server/server.js:171-187 | after authentication the answer is true exactly when some ledger row has that key; a fault is 500 |
| Server.IsAppliedAfterMark | server/server.js:171-187 | after a mark its key reads as applied, every other key reads as before, and applied keys stay applied |
| Server.Insert | server/server.js:145 | inserting into a newest-first list keeps it newest-first and adds exactly that row |
| Server.NewestFirstOrder | server/server.js:145 | the listing is a permutation of the job rows ordered by scrape time, newest first |
| Server.JobListings | server/server.js:143-152 | after authentication every job row is returned exactly once, newest first; a fault is 500 |
| Server.FindJob | server/server.js:158-161 | the lookup returns a job with that key, and nothing exactly when no job has it |
| Server.JobByKey | server/server.js:154-169 | after authentication the reply is a job with that key, or 404 exactly when no job has it |
| Interplay.Received | frontend/src/JobDetail.js:74-90 | a 200 reply is read for its success field; any other status reaches the page as an exception |
| Interplay.Post | frontend/src/JobDetail.js:75-90 | answered by the server's mark-applied handler, the page's post succeeds exactly when the token is accepted and the insert works, and every other outcome reaches the page as an exception |
| Interplay.Opened | frontend/src/JobDetail.js:19-32 | the page at `/jobs/<jk>` shows a stored job whose key is jk |
| Interplay.MarkFromDetailPage | frontend/src/JobDetail.js:61-91 | with a valid token, marking shows "Applied" and stores exactly one row keyed by the job's internal id, leaving jobs unchanged |
| Interplay.MarkFailsVisibly | frontend/src/JobDetail.js:82-90 | without a usable token or on a database fault the page shows 'Failed to mark as applied' and the database is unchanged |
| Interplay.MarkedJobStillNotApplied | frontend/src/JobDetail.js:65 | as written, a job whose id differs from its key still reads as not applied after being marked |
| Interplay.IntendedApplicationFor | frontend/src/JobDetail.js:64-72 | the corrected body is the page's body keyed by the public key instead of the id |
| Interplay.IntendedMark | frontend/src/JobDetail.js:61-91 | the corrected mark sends the corrected body, shows "Applied" exactly when the reply reads success, and shows the failure status exactly otherwise |
| Interplay.IntendedMarkIsVisible | server/server.js:171-187 | with the corrected body, a successful mark shows "Applied" and the server then reports the job as applied |

## Left out

- I/O and framework code: rendering and CSS, React hooks, `axios`, `localStorage`, the resize listener, Google Maps and `window.open`.
- The clock and randomness: timestamps are the parameter `now`.
- bcrypt and JSON Web Tokens: they are the parameters `hash`, `compare`, `sign` and `verify`. Expiry is the token library's concern.
- `saveUserInfo` in `UserInfo.js` posts to a placeholder address with no server route.
- `JobApplied.js` fetches `/applied-jobs`, which `server/server.js` does not define. The applied view is modelled over whatever list it receives.
- The root-level `server.js`, `JobCenter.js`, `Login.js`, `JobListProvider.js` and `my-app/src/JobList.js` are older or auxiliary variants and are not part of this model.
- Detail.ParseLocation: the tokens are returned as text. `parseFloat` is not modelled, because it is floating point.
- Detail.Center: the default centre is given as the text of its two numbers, matching `ParseLocation`'s textual tokens.
- Text.Shorten: lengths count characters, while JavaScript counts UTF-16 code units. The two differ only for characters outside the Basic Multilingual Plane.
- ListView.FilterJobs: a job whose location is `null` would make `includes` throw. The model's locations are always text.
- ListView.Description: a job whose description is `null` would make `.length` throw, in the list and in the applied list alike. The model's descriptions are always text.
- AppliedView.Description: the same `null` description crash is not modelled.
- Server.NewestFirstOrder: PostgreSQL does not fix the order of equal scrape times. The model keeps table order for ties. NULL scrape times are not modelled.
- Server.FindUser: the lookup's query has no ORDER BY, so PostgreSQL does not fix which of several rows with one name comes first. The model takes the first in table order. Server.FirstRegistrationWins holds only under that choice.
- Server.Register: the users table's uniqueness constraint is not in the source. A rejected insert is the `fault` case, and otherwise the row is appended.
- Profile.Step: JavaScript mutates the shallow-copied entry and array in place, so the previous state object changes too. Only the new state is modelled. That is what React renders.
- Profile.Run: an event naming an input that is not rendered gives `None`. In JavaScript, a work-experience index out of range throws and a preference index out of range grows the array; no control on the page can produce either.
- AppliedView.ControlsStayInRange: `paginate` itself does not clamp the page. The lemma only covers controls that are on screen.
- Concurrency between requests, and connection pooling.

## Findings

| source | as written | input that shows it | evidently intended | confidence | as-written member | corrected member |
|---|---|---|---|---|---|---|
| frontend/src/JobApplied.js:11 | the current page starts as the boolean `true`, which strict equality never matches with a page number | any non-empty list on first render: no page button is marked active | start at the number 1 so that page 1 is marked active | high, not executed | AppliedView.InitialMarksNothing | AppliedView.IntendedInitialMarksPageOne |
| frontend/src/JobList.js:69-72 | the middle case spans halfMax pages on both sides of the current page, that is eleven buttons | 250 jobs (25 pages), page 15: buttons 10 to 20 | exactly maxPageButtons (ten) buttons, like the other cases and like `JobApplied.js` | high, not executed | ListView.ElevenButtonsExample | ListView.IntendedListWindow |
| frontend/src/JobDetail.js:65 | the page posts the job's internal `id` as `jobId`, which the server stores in the `job_jk` column that `/is-applied/:job_jk` searches by public key | a job with id "7" and key "abc": after marking, `/is-applied/abc` answers false | post the job's public key, so an applied job reads as applied | medium, not executed | Interplay.MarkedJobStillNotApplied | Interplay.IntendedMarkIsVisible |
