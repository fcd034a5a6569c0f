# job-flow in Dafny

A model of the logic of job-flow, a job-application tracker: the signed-in
user records job applications, uploads résumé PDFs, and asks a text service to
review a résumé or to compare it with a job description.

The model has three parts.

- **Splitting the service's reply and paging through it.** The reply is split
  on numbered markers (`digits "." whitespace`), empty pieces are dropped and
  the rest trimmed (`Segmentation`). Two dialogs page through the pieces with
  clamped cursors (`AnalysisModal`, `MatchModal`).
- **The job list.** Status and search filters, badge colour and badge
  label (`JobsPage`).
- **The HTTP route handlers, as operations on the stores.** `Stores.Db` is a
  class with one map per table (users, jobs, résumés), a map from object
  path to bytes, and a log of writes. Each handler that writes is a method
  with `modifies db`. Its contract says:
  - which status it answers under which condition;
  - what each map holds afterwards;
  - which writes happened, and in what order.

  The three read-only handlers, `ResumeListRoute.Get`,
  `ResumeAnalyzeRoute.Analyze` and `JobMatchRoute.Match`, have no
  `modifies` clause, so Dafny itself guarantees they leave the stores
  unchanged. The two that call the text service are each a
  pure specification function (`ResumeAnalyzeRoute.Analysis`,
  `JobMatchRoute.Matching`) plus a method that runs the guard chain and the
  PDF-text loop. The method is proved equal to the function, and the lemmas
  are about the function.

Outside collaborators are parameters, with no model of their own:

| collaborator | parameter |
|---|---|
| identity provider's current user | `Option<ClerkUser>` |
| session provider's user | `Option<SessionUser>` |
| PDF reader | `parse: Bytes -> PdfStream` |
| text service | `ai: string -> Option<string>`; `None` means the request failed |
| signed-link service | `sign: (path, seconds) -> Option<url>` |
| password hashing | `hash: (password, cost) -> string` |
| clock | `now` |
| ids the store assigns | fresh-id parameters |
| store failures the code handles | flags such as `uploadFails`, `removeFails` and `downloadFails` |

A handler's answer is a `Records.Response`:
- `Success(status, body)`;
- `Failure(status, error)`, where the error is either a fixed text or
  `Relayed`, the message of a caught exception;
- `Crash`, an exception nothing in the handler catches; the framework
  answers it with a bare 500.

Three behaviours of the code are easy to miss, and the model keeps them as
written:
- The analyze, match and delete routes check only that someone is signed
  in. They never compare the résumé's or the job's owner with the caller.
  `ResumeAnalyzeRoute.OwnerIsIgnored` and `JobMatchRoute.OwnersAreIgnored`
  state this, and the delete contract succeeds whoever owns the row.
- `POST /api/jobs` stores whatever status it is sent. `Records.JobStatus`
  lists only the three statuses the front end declares.
- The email column is unique, so `ensureDBUser` creating a row whose email
  is taken throws. It runs outside the handlers' `try`, so those handlers
  crash. `UserProvisioning.SecondEmaillessIdentityFails` shows one way this
  happens: two identities with no email address both default to `""`.

## Model

| member | source | states |
|---|---|---|
| Segmentation.SplitIsWellSplit | src/components/AnalysisModal/AnalysisModal.tsx:25 | `split(/\d+\.\s+/)` cuts the text into pieces around whole markers, leftmost first. No piece contains a marker, and pieces and separators glue back into the input. |
| Segmentation.SegmentsAreTrimmedPieces | src/components/AnalysisModal/AnalysisModal.tsx:24-27 | A suggestion is exactly the trim of a non-empty piece of the split. |
| Segmentation.WhitespacePieceBecomesEmpty | src/components/AnalysisModal/AnalysisModal.tsx:26-27 | Empty pieces are dropped before trimming, so a whitespace-only piece survives as `""` (`" 1. x"` gives `["", "x"]`). |
| Segmentation.SegmentsAreClean | src/components/AnalysisModal/AnalysisModal.tsx:25-27 | Every suggestion is trimmed and contains no `digits "." whitespace` marker. |
| Segmentation.SegmentsOfEmpty | src/components/AnalysisModal/AnalysisModal.tsx:24-27 | Empty content gives no suggestions. |
| Segmentation.SegmentsWithoutMarker | src/components/AnalysisModal/AnalysisModal.tsx:24-27 | Non-empty content without a marker gives exactly one suggestion, the trimmed content. |
| AnalysisModal.RunInRange | src/components/AnalysisModal/AnalysisModal.tsx:31-39 | Any sequence of Previous/Next clicks keeps an in-range cursor in range. |
| AnalysisModal.ClicksFromStart | src/components/AnalysisModal/AnalysisModal.tsx:29-39 | From the initial 0, the cursor stays within `0..len-1` when there are suggestions, and stays at 0 when there are none. |
| AnalysisModal.DisabledIffNoMove | src/components/AnalysisModal/AnalysisModal.tsx:31-67 | Previous is disabled exactly at 0 and Next exactly at `len-1`. A disabled button's handler would not move the cursor; an enabled one moves it by exactly one. |
| AnalysisModal.NoSuggestionsNextEnabled | src/components/AnalysisModal/AnalysisModal.tsx:67 | With no suggestions, Next stays enabled and clicking it does nothing. |
| AnalysisModal.Modal.HandlePrev | src/components/AnalysisModal/AnalysisModal.tsx:31-33 | `prev > 0 ? prev - 1 : prev`; the dialog's invariant is kept. |
| AnalysisModal.Modal.HandleNext | src/components/AnalysisModal/AnalysisModal.tsx:35-39 | `prev < len - 1 ? prev + 1 : prev`; the dialog's invariant is kept. |
| AnalysisModal.Modal.Shown | src/components/AnalysisModal/AnalysisModal.tsx:49 | A suggestion is on screen exactly when there are suggestions, and it is one of them. |
| MatchModal.Modal.HandleMatch | src/app/jobs/MatchModal.tsx:42-56 | Without a selected résumé: no request and no change. Otherwise the request carries the selection and the dialog's job id, `loading` is set while the request is in flight, and the answer's feedback is segmented as in the analysis dialog, with `loading` cleared afterwards. An answer without feedback throws and leaves `loading` set. The cursor is never reset. |
| MatchModal.PagerStaysInRange | src/app/jobs/MatchModal.tsx:94-105 | `max(i-1, 0)` and `min(i+1, len-1)` keep an in-range cursor in range: Previous stops at 0 and Next at the last segment. |
| MatchModal.NextRepairsStaleIndex | src/app/jobs/MatchModal.tsx:105 | A cursor at or past `len` is pulled back to `len-1` by one Next. |
| MatchModal.PrevKeepsStaleIndex | src/app/jobs/MatchModal.tsx:94 | Previous does not bring a cursor that is more than one past the end back into range. |
| MatchModal.StaleCursorShowsNothing | src/app/jobs/MatchModal.tsx:86-107 | Because the cursor survives a new, shorter feedback, nothing is shown until Next brings back the last segment. |
| MatchModal.Modal.SelectResume | src/app/jobs/MatchModal.tsx:65 | The chosen résumé id becomes the selection; nothing else changes. |
| MatchModal.RunEnabledIff | src/app/jobs/MatchModal.tsx:78-84 | Run Match is enabled exactly with a non-empty selected id and no request in flight; `HandleMatch` sends a request whenever it is enabled. |
| MatchModal.PagerControls | src/app/jobs/MatchModal.tsx:86-111 | With the cursor on a segment, that segment is shown, Previous is disabled only on the first and Next only on the last. |
| MatchModal.StaleCursorControls | src/app/jobs/MatchModal.tsx:86-111 | With the cursor past the end of a shorter feedback, the pager is shown with no segment and both buttons are enabled. |
| MatchModal.Modal.FetchResumes | src/app/jobs/MatchModal.tsx:36-40 | The listing's `resumes`, or `[]` when the answer has none. |
| MatchModal.Modal.Prev | src/app/jobs/MatchModal.tsx:94 | Previous, available only while the pager is shown (feedback non-empty). |
| MatchModal.Modal.Next | src/app/jobs/MatchModal.tsx:104-106 | Next, available only while the pager is shown (feedback non-empty). |
| JobsPage.StatusColors | src/app/jobs/page.tsx:61-72 | The three declared statuses get three different colours, and exactly the other status texts get the grey fallback. |
| JobsPage.Capitalize | src/app/jobs/page.tsx:169 | Same length, first character upper-cased, the rest unchanged. |
| JobsPage.StatusLabels | src/app/jobs/page.tsx:169 | The badges of the declared statuses read "Applied", "Interviewing" and "Rejected". |
| JobsPage.VisibleIff | src/app/jobs/page.tsx:34-48 | A job is listed exactly when it was fetched, passes the status filter (`"all"` or equal status) and, when the term is not blank, its lowered company or position contains the lowered, untrimmed term. |
| JobsPage.VisibleKeepsOrder | src/app/jobs/page.tsx:34-48 | The list is a subsequence of the fetched jobs. |
| JobsPage.NoFilterShowsAll | src/app/jobs/page.tsx:36-40 | Status `"all"` with a blank or whitespace-only term lists every fetched job. |
| JobsPage.StatusFilterHolds | src/app/jobs/page.tsx:36-38 | With a declared status as the filter, every listed job has that status. |
| JobsPage.Page.ApplyFilters | src/app/jobs/page.tsx:33-49 | The two filter passes in sequence equal the single filter by the conjunction that `Visible` specifies. |
| JobsPage.Page.SetStatusFilter | src/app/jobs/page.tsx:133 | The status filter takes the selected value and the list is refiltered by it. |
| JobsPage.Page.SetSearchTerm | src/app/jobs/page.tsx:129 | The search term takes the typed value and the list is refiltered by it. |
| JobsPage.Page.FetchJobs | src/app/jobs/page.tsx:51-59 | An array answer replaces the jobs, any other answer empties them, and a failure keeps them. The list is refiltered. |
| UserProvisioning.EnsureDbUser | src/lib/ensureDbUser.ts:5-28 | The outcome is `Provisioning` of the old table. Only a creation writes, and it writes exactly one row; all other tables are unchanged. |
| UserProvisioning.ProvisionedUserIsTheClerkUser | src/lib/ensureDbUser.ts:7-27 | No identity gives null. A found row comes from the table unchanged (profile fields are not refreshed). A created row is new. Either carries the identity's id. |
| UserProvisioning.ProvisioningIsIdempotent | src/lib/ensureDbUser.ts:11-25 | After a creation, a second call finds the created row and creates nothing. |
| UserProvisioning.NewUserFallbacks | src/lib/ensureDbUser.ts:17-23 | Email is the first address, or `""` when there is none. Name is `firstName ?? fullName ?? ""`, so an empty first name is kept. Image is `imageUrl ?? ""`. The row carries the identity's id and no password. |
| UserProvisioning.CreateFailsOnEmailClash | src/lib/ensureDbUser.ts:16-24 | Provisioning fails exactly for a new identity whose email is already in use. |
| UserProvisioning.SecondEmaillessIdentityFails | src/lib/ensureDbUser.ts:20 | A second identity without an email address can never be provisioned. |
| RegisterRoute.Post | src/app/api/register/route.ts:4-17 | A taken email gives 400 and no write. Otherwise exactly one user is inserted, with the password stored as `hash(password, 10)`, and the answer is 201. An unreadable body crashes. |
| RegisterRoute.RegisterTwice | src/app/api/register/route.ts:7-14 | A second registration with the same email is refused; emails stay unique. |
| JobsRoute.Post | src/app/api/jobs/route.ts:7-37 | Provisioning failure crashes; no user gives 401. An unreadable body or a missing field gives 500. Otherwise one job is inserted: owned by the caller, fields copied, status not validated. The answer is 201 with that job. The user table gains only the provisioned row, and the write log is the provisioning insert (if any) followed by the job insert (on success). |
| JobsRoute.Get | src/app/api/jobs/route.ts:40-60 | Exactly the caller's jobs, each once, newest first. The only write is the provisioning insert, if any. |
| Stores.SortNewestFirst | src/app/api/jobs/route.ts:47-50 | `orderBy: { createdAt: "desc" }`: the given rows, each once, with `createdAt` never increasing. |
| ResumeListRoute.Get | src/app/api/resume/route.ts:18-49 | No user id gives 401. Otherwise one entry per résumé of the caller (each once, newest first), keeping `id` and `createdAt`. No writes. |
| ResumeListRoute.Entry | src/app/api/resume/route.ts:31-40 | `url` is the link signed for 3600 s, or `""` when signing fails. |
| StoragePaths.ResumePathInjective | src/app/api/resume/upload/route.ts:39 | Two paths coincide only for the same user in the same millisecond. |
| ResumeUploadRoute.Post | src/app/api/resume/upload/route.ts:18-81 | 401, 500 (form) and 400 (no file) come before any write. A failed or overwriting upload gives 500 with no write. After the upload, a failed signing or an unknown user gives 500 with the object left behind and no row. Otherwise it stores the object, then inserts one row owned by the caller with `fileUrl` set to the path, and answers with the link. |
| ResumeUpdateRoute.Put | src/app/api/resume/update/route.ts:17-81 | Crash, 401, 500 for a missing form or id, 404 and 403 leave the résumé table and the objects unchanged. The owner's update follows `UpdateEffect`: remove the old object (its failure ignored), upload to a new path, update `fileUrl`, and rename only to a non-empty name. The user table gains only the provisioned row, and the write log is the provisioning insert (if any), then the owner's writes in the route's order: removal, upload, row update. |
| ResumeUpdateRoute.ApplyUpdate | src/app/api/resume/update/route.ts:42-76 | The owner's update: the stores end as `UpdateEffect` says, and the writes are the old object's removal (unless it failed), then the new object's upload and the row's update, stopping after the removal when the upload fails. |
| ResumeUpdateRoute.Updated | src/app/api/resume/update/route.ts:68-73 | Only `fileUrl` and `name` can change, and `name` only to a non-empty value. |
| ResumeUpdateRoute.FailedReplaceLeavesDanglingRow | src/app/api/resume/update/route.ts:45-64 | If removal succeeded and the upload failed, the answer is 500 and the unchanged row points at an object that is gone. |
| ResumeDeleteRoute.Post | src/app/api/resume/delete/route.ts:16-45 | No email gives 401. Any other non-success (500 for the body, 404, or 500 from a failed removal) changes nothing. On success the object is removed and then exactly that row is deleted, whoever owns it, and the answer is `{ success: true }`. |
| PdfText.Parse | src/app/api/resume/analyze/route.ts:47-55 | The callback loop computes `ExtractedText`: the non-empty item texts joined by single spaces on a clean end, and `None` on a reader error. |
| PdfText.ChunksIff | src/app/api/resume/analyze/route.ts:53 | A string is collected exactly when some item carries it as a non-empty text. |
| PdfText.ExtractedTextContainsItems | src/app/api/resume/analyze/route.ts:52-53 | The text of every item with a non-empty text appears in the extracted text. |
| PdfText.ExtractedTextLength | src/app/api/resume/analyze/route.ts:52 | The length is the pieces' lengths plus one space per gap; no text items give `""`. |
| ResumeAnalyzeRoute.Analyze | src/app/api/resume/analyze/route.ts:13-79 | The route's answer and outbound prompt are exactly those of `Analysis`; it makes no writes. |
| ResumeAnalyzeRoute.GuardOrder | src/app/api/resume/analyze/route.ts:15-42 | 401 exactly without a user id, then 400 for a missing id, 404 for an unknown résumé, and 500 for a failed download, in that order. |
| ResumeAnalyzeRoute.PromptSentIff | src/app/api/resume/analyze/route.ts:57-68 | The service is asked exactly when every guard passed and the trimmed text is at least 100 UTF-16 code units long (`length`). |
| ResumeAnalyzeRoute.ShortTextRefused | src/app/api/resume/analyze/route.ts:57-62 | A trimmed text shorter than 100 UTF-16 code units gives 400 and no prompt. |
| ResumeAnalyzeRoute.AstralTextReachesService | src/app/api/resume/analyze/route.ts:57 | `length` counts code units, so 50 characters outside the Basic Multilingual Plane are enough to pass the check. |
| ResumeAnalyzeRoute.PromptCarriesText | src/app/api/resume/analyze/route.ts:64-66 | The prompt is the fixed instruction followed by the untrimmed text, verbatim. |
| ResumeAnalyzeRoute.SuccessIsTheReply | src/app/api/resume/analyze/route.ts:68-73 | The answer succeeds exactly when the service replied, and `analysis` is the reply unchanged. |
| ResumeAnalyzeRoute.OwnerIsIgnored | src/app/api/resume/analyze/route.ts:25-35 | The outcome depends neither on the résumé's owner nor on which signed-in user asks. |
| JobMatchRoute.Match | src/app/api/jobs/match/route.ts:13-91 | The route's answer and outbound prompt are exactly those of `Matching`; it makes no writes. |
| JobMatchRoute.GuardOrder | src/app/api/jobs/match/route.ts:15-55 | 401 exactly without an email, then 400 exactly for a missing id, then 404 "User not found" for an email without a user row, then 404 "Resume or Job not found" for an unknown résumé or job, then 500 "Failed to download resume", in that order. |
| JobMatchRoute.PromptOnlyWhenAdmitted | src/app/api/jobs/match/route.ts:15-55 | A prompt is sent only for a signed-in email with a user row, an existing résumé and job, and a readable file. |
| JobMatchRoute.AdmittedRequestReachesService | src/app/api/jobs/match/route.ts:60-85 | Such a request reaches the service with no length check, the prompt holds the text and the job description verbatim, and `matchFeedback` is the reply unchanged. |
| JobMatchRoute.MatchPromptCarriesBoth | src/app/api/jobs/match/route.ts:70-78 | The prompt contains the résumé text and the job description. |
| JobMatchRoute.OwnersAreIgnored | src/app/api/jobs/match/route.ts:28-44 | The outcome does not depend on who owns the résumé or the job; the looked-up user only has to exist. |
| Strings.TrimEmptyIff | src/app/jobs/page.tsx:40 | `trim()` gives `""` exactly for whitespace-only text. |
| Strings.TrimIdempotent | src/components/AnalysisModal/AnalysisModal.tsx:27 | Trimming twice is trimming once. |
| Strings.DecimalRoundTrip | src/app/api/resume/upload/route.ts:39 | The decimal rendering of the timestamp reads back as the same number. |

## Left out

- Whitespace and case are ASCII. Unicode-aware `\s`, `trim()` and `toLowerCase()` are not modelled: whitespace is space, tab, line feed, vertical tab, form feed and carriage return, and case is the A–Z/a–z map.
- Prompts are modelled before `encodeURIComponent`. On text made of Unicode scalar values the encoding is one-to-one, so the text service receives the same content.
- Unpaired UTF-16 surrogates are not modelled. The PDF text extractor can yield text holding one, and a stored job description can hold one. `encodeURIComponent` then throws a `URIError`, and the routes' `catch` answers 500 with the error's message. A Dafny `string` holds only scalar values, so the model cannot represent such text, and the analyze and match models have no such 500 path.
- The parsing done by the PDF reader, the text service, the signed-link service, bcrypt, the identity and session providers, and the stores' internals are parameters (see above). URL expiry is not modelled.
- The record store's own failures, such as a lost connection in `create`, `findMany` or `update`, are not modelled. Failures that follow from the store's state are: a taken email in `create`, a missing user in `connect`. So `JobsRoute.Get` and `ResumeListRoute.Get` never answer 500.
- The messages of relayed errors are not tracked (`Relayed`).
- `ResumeDeleteRoute.Post`: the delete route's storage client uses the public anonymous key, unlike the other routes' service key. Whether a removal that reports no error actually deletes the object then depends on the bucket's access policy, which is not modelled: `Stores.Db.RemoveObject` always deletes.
- Request bodies are one value each. `None` means the body could not be read. Which columns the schema requires is not part of this model: the job route treats all four fields as required, and registration assumes all three are present.
- `createdAt` of new rows is the `now` parameter; the store's default timestamp is not modelled.
- React scheduling is not modelled. A setter and the effect it triggers are one method. `MatchModal.Modal.HandleMatch` returns the in-flight value of `loading` as a ghost result. A failed `fetchResumes` request, which rejects without changing state, is not modelled.
- `Promise.all` in the résumé listing is a sequential loop. Only its order preservation matters, and the loop keeps it.
- Concurrency between requests is not modelled: each handler is one sequential run.
- The select option label `resume.name \|\| "Untitled Resume"` is not modelled. Listing entries carry no name, so every option reads "Untitled Resume".
- Presentational components, form pages, the session provider configuration and the type declarations are not part of this model. `Records.JobStatus` is taken from `src/types/job.ts:5`.
