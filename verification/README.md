# Space events: a verified model of the domain consistency engine

This project models the part of the space-events web application that keeps
its MongoDB data consistent. The model has these pieces:

- **Collections.** The users, events and RSVPs collections are maps from
  document id to document (`Store.Db`). The `Store.Store` object holds the
  same three maps and is updated in place.
- **Schemas.** The schemas of models/*.js: the event categories, the trimmed
  text, the date validators that seed events skip, the `isSeed` default, the
  RSVP status enum and its unique (user, event) index, and the normalized,
  unique user email. The password hook hashes only a modified password.
- **Request gates** of middlewares.js (`isAuthenticated`, `isGuest`, `isHost`,
  `isNotHost`). They are pure decisions over the session and the events
  collection.
- **Event handlers** of controllers/eventController.js:
  - form validation and the image choice;
  - create, update (host only) and the cascading delete;
  - the RSVP upsert, with its self-RSVP ban and its maintenance of
    `user.rsvps`.
- **Routes.** The composition of the gates with these handlers, as
  routes/eventRoutes.js wires them.
- **Daily reset** of api/cron/reset.js:
  - the full reset and the refresh of the seed events, from a catalog;
  - the handler's secret, mode and `HOST_USER_ID` checks.
- **Accounts.** Signup and login in controllers/userController.js.
- **Export.** The export script scripts/exportSeed.js:
  - the options, the seed-only filter and the order by start;
  - the portable record each event becomes;
  - the choice of the output file.

Each state-changing handler is written twice:

- A function `...Effect(db, ...)` maps the database it finds to the reply and
  the database it leaves. The properties are stated on this function.
- A method makes the same store calls in the source's order on a `Store`. It
  is proved to leave exactly the database the function describes.

Lemmas show that every intermediate state of the multi-step deletions keeps
the invariant (`Store.Invariant`): unique pairs, unique emails, id lists
without duplicates, and no RSVP without its event. Other lemmas show that the
opposite order would orphan RSVPs.

These inputs are parameters: the clock (`now`, or `stamp` for the export), the
ids of new documents, the seed catalog, and the library calls
(`ObjectId.isValid`, `isEmail`, `normalizeEmail`, `escape`, bcrypt). Each new
id must be unused (`Store.Unused`, `Store.FreshIds`).

Two gaps of the code are reproduced as written and exhibited by lemmas:

- `deleteEvent` leaves the event's id in the host's `events` list
  (`EventController.DeleteLeavesHostReference`).
- The refresh leaves deleted RSVP ids in users' `rsvps` lists
  (`CronReset.RefreshLeavesRsvpReferences`).

Some behaviours of the code are easy to misread; the model follows the code:

- Creating an event is guarded by `isAuthenticated` only, not by `isHost`.
- `handleRSVP` answers 500, not 400, for an event id that does not cast,
  because the CastError reaches its catch block.
- It refuses the host's own RSVP only while the host's user document exists
  (`event.host &&` after `populate`). Behind `isNotHost` this makes no
  difference (`EventRoutes.GateCoversHostlessEvents`).
- A failed save answers 400 on create and 500 on update.

## Model

| member | source | states |
|---|---|---|
| Text.TrimSpec | models/eventModel.js:5 | `trim` removes exactly the leading and trailing whitespace and leaves a string with no whitespace at either end |
| Text.Trim | models/eventModel.js:5 | trimming never lengthens a string; `TrimSpec` gives its exact result |
| Text.TrimIdempotent | models/user.js:7-8 | trimming an already trimmed value changes nothing, so the schema's second trim is harmless |
| Text.TrimLowerCommute | controllers/userController.js:59 | lower-casing and trimming can be done in either order |
| Text.Lower | controllers/userController.js:59 | lower-casing keeps the length and maps each character on its own, by `LowerChar` |
| Text.NormalizedEmail | controllers/userController.js:27 | the normalized email is trimmed, lower-case and no longer than the input |
| Text.NormalizedEmailIdempotent | models/user.js:14-15 | the schema's trim and lowercase leave an email the controller normalized unchanged |
| Lists.AddToSet | controllers/eventController.js:251 | `$addToSet` adds the id exactly when it is absent; afterwards it occurs once, and a list without duplicates keeps none |
| Lists.AddToSetIdempotent | controllers/eventController.js:251 | adding the same id twice is the same as adding it once |
| Lists.PullMembers | api/cron/reset.js:56 | `$pull` removes exactly the listed ids and keeps every other entry with its multiplicity |
| Lists.Pull | api/cron/reset.js:56 | `$pull` never lengthens a list, and whatever it keeps was in the list and outside the pulled ids |
| Lists.PullCount | api/cron/reset.js:56 | after `$pull` a listed id occurs zero times and any other id as often as before |
| Lists.PullNoDuplicates | api/cron/reset.js:56 | `$pull` keeps a duplicate-free list duplicate-free |
| Lists.PullAbsent | api/cron/reset.js:56 | pulling ids the list does not hold leaves it unchanged |
| Lists.PullPull | api/cron/reset.js:56 | two pulls equal one pull of the union |
| EventModel.ParseCategory | models/eventModel.js:6 | a category is accepted iff it is one of the five enum names, spelled exactly |
| EventModel.CategoryRoundTrip | models/eventModel.js:6 | every category's name parses back to that category |
| EventModel.Validate | models/eventModel.js:4-35 | a saved event has trimmed non-empty title, location and details, a known category, both dates, a host, and dates that pass the validators; valid fields are accepted iff the event is a seed or starts after now and ends after it starts |
| EventModel.ValidateAccepts | models/eventModel.js:11-27 | a draft with valid fields that is a seed, or has its dates in order, is stored exactly as cast |
| EventModel.SeedDatesExempt | models/eventModel.js:11-27 | whether a seed validates depends neither on its dates nor on the clock |
| EventModel.IsSeedDefaultsToFalse | models/eventModel.js:34 | leaving `isSeed` out is the same as giving `false` |
| RsvpModel.ParseStatus | models/rsvp.js:7 | a status is accepted iff it is YES, NO or MAYBE |
| RsvpModel.Validate | models/rsvp.js:4-8 | an RSVP validates iff both references are present and the status is in the enum |
| RsvpModel.IndexAdmits | models/rsvp.js:10 | the unique index admits an insert iff no stored RSVP has the same (user, event) pair |
| RsvpModel.InsertKeepsUnique | models/rsvp.js:10 | an admitted insert keeps the pairs unique |
| RsvpModel.FindPair | controllers/eventController.js:409-413 | the upsert's lookup finds the RSVP of the pair, or reports that there is none |
| RsvpModel.YesCount | controllers/eventController.js:423 | the count is zero exactly when no RSVP of the event says YES, and never exceeds the number of RSVPs |
| UserModel.FindByEmail | controllers/userController.js:29 | `findOne({ email })` returns the user with that email, and returns none exactly when no user has it |
| UserModel.Validate | models/user.js:6-26 | a new user validates iff the trimmed names and the normalized email are non-empty, the email passes `isEmail` and the password has 8 to 64 characters; its email is trimmed and lower-case and its lists are empty |
| UserModel.UserDocument.Create | controllers/userController.js:34-39 | a new document counts its password as modified |
| UserModel.UserDocument.Load | controllers/eventController.js:416 | a loaded document has nothing modified |
| UserModel.UserDocument.Save | models/user.js:29-38 | saving hashes the password iff it was modified, leaves an unmodified hash as it is, and clears the flag |
| UserModel.UserDocument.PushRsvp | controllers/eventController.js:418 | pushing an id appends it to `rsvps` and leaves the password flag alone |
| Store.SeedIds | api/cron/reset.js:51 | the seed ids are exactly the events with `isSeed` set |
| Store.RsvpsNotOf | api/cron/reset.js:54 | `deleteMany({ event: { $in } })` keeps exactly the RSVPs of other events, unchanged |
| Store.PullEvents | api/cron/reset.js:56 | every user keeps all fields except `events`, which loses the listed ids |
| Store.ClearLists | api/cron/reset.js:38 | every user keeps all fields except the two lists, which become empty |
| Store.AddEventToUser | controllers/eventController.js:251 | only the named user changes, by set-adding the id to `events`; a missing user means no change |
| Store.InsertAllContents | api/cron/reset.js:46 | `insertMany` under distinct new ids adds exactly those documents and keeps every other one |
| Store.InsertAll | api/cron/reset.js:46 | `insertMany` leaves exactly the old keys and the new ids in the collection |
| Store.Store.DeleteAllRsvps | api/cron/reset.js:36 | the RSVPs collection becomes empty and nothing else changes |
| Store.Store.DeleteRsvpsOf | controllers/eventController.js:367 | only the RSVPs of the given events are removed |
| Store.Store.DeleteAllEvents | api/cron/reset.js:37 | the events collection becomes empty and nothing else changes |
| Store.Store.DeleteEvents | controllers/eventController.js:368 | only the given events are removed |
| Store.Store.PullEventsFromUsers | api/cron/reset.js:56 | only users' `events` lists change, as `PullEvents` says |
| Store.Store.ClearUserLists | api/cron/reset.js:38 | only users' lists change, as `ClearLists` says |
| Store.Store.InsertEvents | api/cron/reset.js:46 | only the events collection changes, by the inserted documents |
| Store.Store.SaveEvent | controllers/eventController.js:248 | only the saved event changes |
| Store.Store.AddToUserEvents | controllers/eventController.js:251 | only the host's `events` changes, as `AddEventToUser` says |
| Store.Store.SaveRsvp | controllers/eventController.js:409-413 | only the saved RSVP changes |
| Store.Store.SaveUser | controllers/eventController.js:419 | only the saved user changes |
| Middlewares.IsAuthenticated | middlewares.js:9-15 | passes iff the session has a user id; otherwise redirects to the login page |
| Middlewares.IsGuest | middlewares.js:21-27 | passes iff the session has no user id; otherwise redirects to the profile |
| Middlewares.IsHost | middlewares.js:37-81 | 400 for a malformed id, 500 when the lookup fails, 404 for a missing event, 401 when the session user is not the host, and otherwise passes; each outcome is stated as an iff |
| Middlewares.IsNotHost | middlewares.js:88-133 | the same 400, 500 and 404 checks, then 401 exactly when the session user is the host; otherwise passes |
| Middlewares.AuthenticatedXorGuest | middlewares.js:9-27 | every session passes exactly one of the two session gates |
| Middlewares.HostGatesComplementary | middlewares.js:37-133 | for a well-formed id of an event that was read, exactly one host gate passes; otherwise both stop the request alike |
| Middlewares.HostGatesReadOnlyTheHost | middlewares.js:49-71 | a gate's verdict depends on the event only through its host |
| EventController.FormErrors | controllers/eventController.js:182-206 | a field is reported iff its validator chain fails |
| EventController.AcceptedForm | controllers/eventController.js:189-206 | a form with no errors has non-empty texts, a known category, both dates, a start after now and an end after the start |
| EventController.IsAfterToday | controllers/eventController.js:77-81 | the form check on a start date agrees with the schema's start-date validator for a non-seed event read at the same instant |
| EventController.IsEndDateAfterStartDate | controllers/eventController.js:71-75 | an unparsable start date fails the check; otherwise the check agrees with the schema's end-date validator for a non-seed event |
| EventController.ValidFormPassesSchema | controllers/eventController.js:237-248 | a form that passed the validators also passes the schema iff the host id is valid, and is stored with the trimmed values |
| EventController.CreateImage | controllers/eventController.js:222-235 | on create, "No Image" gives the placeholder even with an upload, else the upload, else no image, which rejects |
| EventController.UpdatedImage | controllers/eventController.js:334 | on update, "No Image" gives the placeholder, else the upload, else the previous image |
| EventController.CreateEventEffect | controllers/eventController.js:180-263 | 401 without a session, 400 for form errors or a missing image, and 400 when the save fails because the session user id does not cast, each leaving the store unchanged; the event is stored iff none of these applies; on success the new event is a non-seed hosted by the session user, with the trimmed texts, the submitted category and dates, and the chosen image, and its id occurs exactly once in the host's `events`; the invariant is kept |
| EventController.AddEventKeepsInvariant | controllers/eventController.js:248-251 | storing the event and set-adding its id to the host keeps the invariant |
| EventController.CreateEvent | controllers/eventController.js:208-255 | the save and the `$addToSet`, in this order, leave what `CreateEventEffect` describes |
| EventController.UpdateEventEffect | controllers/eventController.js:268-345 | form errors, 400, 404 and 401, in this order, leave the store unchanged; for the host the reply is success or, when the save fails (a host id that does not cast), 500 with no change; a successful update gives that event the trimmed texts, the submitted category and dates and the updated image, never changes its host or seed flag, and changes nothing else; the invariant is kept |
| EventController.Assigned | controllers/eventController.js:320-336 | an assigned event that saves keeps its host and seed flag and takes the form's title, category, dates and the updated image |
| EventController.UpdateEvent | controllers/eventController.js:297-345 | the field assignments and the save leave what `UpdateEventEffect` describes |
| EventController.DeleteEventEffect | controllers/eventController.js:350-374 | 400, 404 and 401, in this order, change nothing; a delete by the host removes the event and exactly its RSVPs and touches no user; the invariant is kept |
| EventController.DeleteEvent | controllers/eventController.js:350-374 | the RSVP deletion and then the event deletion leave what `DeleteEventEffect` describes |
| EventController.DeleteEventIntermediateState | controllers/eventController.js:367-368 | the state between the two deletions keeps the invariant |
| EventController.EventFirstOrphansRsvps | controllers/eventController.js:367-368 | deleting the event before its RSVPs would orphan an RSVP |
| EventController.DeleteLeavesHostReference | controllers/eventController.js:363-368 | after a delete the host's `events` still names the deleted event |
| EventController.Upsert | controllers/eventController.js:409-413 | afterwards exactly one RSVP holds the pair, with the submitted status; an existing one keeps its id; others are unchanged; pairs stay unique |
| EventController.YesCountAfterWrite | controllers/eventController.js:423 | writing one RSVP changes an event's YES count by what the old and the new document contribute |
| EventController.UpsertYesCount | controllers/eventController.js:409-423 | an answer raises the event's YES count by one when it is YES, lowers it by one when it replaces a YES, and leaves other events' counts unchanged |
| EventController.KeepRsvpReference | controllers/eventController.js:416-420 | only the answering user changes, by set-adding the RSVP id, so it occurs exactly once; a missing user means no change |
| EventController.RecordRsvp | controllers/eventController.js:409-423 | after recording, one RSVP for the pair with the status, the user's `rsvps` lists it exactly once, the YES count is reported, nothing else changes and the invariant holds |
| EventController.HandleRsvpEffect | controllers/eventController.js:379-435 | a bad status (400), an id that does not cast (500), a missing event (404), the existing host (401) and a session user id that does not cast (500) are refused in this order without change; the request is recorded iff none of these applies |
| EventController.UpsertRsvp | controllers/eventController.js:409-413 | the upsert on the store performs `Upsert` |
| EventController.MaintainUserRsvps | controllers/eventController.js:416-420 | loading, pushing and saving the user performs `KeepRsvpReference` and leaves the password alone |
| EventController.HandleRsvp | controllers/eventController.js:381-426 | the checks and store calls leave what `HandleRsvpEffect` describes |
| EventController.ResubmitOverwrites | controllers/eventController.js:409-420 | a second answer to the same event overwrites the status of the same RSVP and does not grow `user.rsvps` |
| EventRoutes.CreateRoute | routes/eventRoutes.js:11 | a request without a session is redirected to login unchanged; otherwise createEvent decides; only the session user's own event is added |
| EventRoutes.UpdateRoute | routes/eventRoutes.js:12 | the request reaches updateEvent iff signed in and `isHost` passes; only the host can change the store |
| EventRoutes.RsvpRoute | routes/eventRoutes.js:13 | the request reaches handleRSVP iff signed in and `isNotHost` passes; a recorded RSVP is never the host's own |
| EventRoutes.DeleteRoute | routes/eventRoutes.js:14 | the request reaches deleteEvent iff signed in and `isHost` passes; only the host can delete |
| EventRoutes.GateCoversHostlessEvents | controllers/eventController.js:402 | handleRSVP alone would record the host's answer to an event whose host document is gone; the route refuses it |
| EventRoutes.RoutesSplitByHost | routes/eventRoutes.js:12-14 | for an existing event, edit and delete reach the handler iff the user is the host, and RSVP iff not |
| CronReset.ValidateAll | api/cron/reset.js:40-46 | the batch validates iff every entry does; each result is its entry validated, a seed hosted by the host |
| CronReset.CatalogIgnoresClock | models/eventModel.js:11-27 | the catalog's validation does not depend on the clock |
| CronReset.Tag | api/cron/reset.js:40-44 | every catalog entry becomes a seed hosted by the configured host |
| CronReset.InsertDefaults | api/cron/reset.js:59-65 | the insert phase succeeds iff there is a catalog that is empty or fully valid; then exactly the new ids are added, each holding its validated entry, and nothing else changes |
| CronReset.FullResetEffect | api/cron/reset.js:35-48 | afterwards there are no RSVPs and all user lists are empty; on success the events are exactly the catalog entries, seeds of the host, and the report counts the catalog; on failure no event is left; the invariant is kept |
| CronReset.FullResetToDefaults | api/cron/reset.js:35-48 | the three deletions and the insert, in this order, leave what `FullResetEffect` describes |
| CronReset.LoadAndInsert | api/cron/reset.js:40-46 | the insert step changes only the events, as `InsertDefaults` says, and nothing on failure |
| CronReset.FullResetIdempotent | api/cron/reset.js:35-48 | a second full reset leaves what one leaves |
| CronReset.FullResetStepsKeepInvariant | api/cron/reset.js:36-38 | every intermediate state of the full reset keeps the invariant |
| CronReset.Prune | api/cron/reset.js:51-57 | the deletion phase removes exactly the seed events and their RSVPs and pulls only their ids from users' `events` |
| CronReset.PruneKeepsInvariant | api/cron/reset.js:53-57 | the deletion phase keeps the invariant |
| CronReset.RefreshEffect | api/cron/reset.js:50-67 | non-seed events, their RSVPs and users' `rsvps` are unchanged; no old seed, RSVP of one, or reference to one remains; on success the seeds are exactly the catalog under the new ids; the report gives the removed and inserted counts; the invariant is kept |
| CronReset.RefreshSeededDefaults | api/cron/reset.js:50-67 | the guarded deletions and the insert, in this order, leave what `RefreshEffect` describes |
| CronReset.RefreshStepsKeepInvariant | api/cron/reset.js:54-56 | every intermediate state of the refresh keeps the invariant |
| CronReset.RefreshEventsFirstOrphans | api/cron/reset.js:54-55 | deleting the seed events before their RSVPs would orphan an RSVP |
| CronReset.RefreshLeavesRsvpReferences | api/cron/reset.js:54-56 | a user who answered a seed keeps the deleted RSVP's id in `rsvps` |
| CronReset.SeedsAfterRefresh | api/cron/reset.js:51-65 | after a refresh the seeds are exactly the inserted ids, or none if the insert failed |
| CronReset.PruneUndoesRefresh | api/cron/reset.js:51-57 | the next refresh's deletion phase removes exactly what the previous refresh inserted |
| CronReset.RefreshIdempotent | api/cron/reset.js:50-67 | refreshing twice leaves the same database as refreshing once with the second run's ids |
| CronReset.Provided | api/cron/reset.js:71 | the query secret is used when non-empty, otherwise the header |
| CronReset.Authorized | api/cron/reset.js:71-77 | a call not from the scheduler needs a non-empty `CRON_SECRET`; a non-empty but wrong query secret gets through only from the scheduler |
| CronReset.SelectedMode | api/cron/reset.js:82 | the full reset is chosen iff `RESET_MODE` lower-cases to `full` |
| CronReset.Respond | api/cron/reset.js:94-97 | a report gives 200 with the time, and a thrown error gives 500 with that error |
| CronReset.ResetEffect | api/cron/reset.js:69-99 | 401 iff neither the scheduler header nor the right non-empty secret is present; an empty `HOST_USER_ID` fails; both change nothing; otherwise the selected reset runs and the invariant is kept |
| CronReset.HandleReset | api/cron/reset.js:69-99 | the handler on the store leaves what `ResetEffect` describes |
| CronReset.UnsetSecretLocksOut | api/cron/reset.js:72-77 | with `CRON_SECRET` unset or empty, only the scheduler's calls get through |
| CronReset.QuerySecretTakesPrecedence | api/cron/reset.js:71-77 | a wrong query secret is refused even when the header holds the right one |
| CronReset.ModeSelection | api/cron/reset.js:82-92 | an unset or empty mode refreshes, and `FULL` and `Full` select the full reset |
| UserController.SignupMessages | controllers/userController.js:13-22 | a check is reported iff its validator fails, each at most once |
| UserController.SignupKey | controllers/userController.js:27 | the lookup key is trimmed and lower-case |
| UserController.SignUpEffect | controllers/userController.js:12-49 | validation errors give 400; an existing user with the normalized email gives "Email is already in use"; both change nothing; otherwise exactly one user is added, with the normalized email, the hashed password and empty lists; emails stay unique |
| UserController.AddUserKeepsInvariant | models/user.js:12 | adding a user with a new email under an unused id keeps emails unique and the invariant |
| UserController.SignUp | controllers/userController.js:17-48 | the lookup, the new document and its save leave what `SignUpEffect` describes |
| UserController.LoginKey | controllers/userController.js:59 | the login key is trimmed and lower-case, and empty when no email is posted |
| UserController.LoginEffect | controllers/userController.js:57-94 | an unknown email or a wrong password give the same refusal, and like a missing password leave the session as it was; a match sets the session's user id to that user |
| UserController.SecondSignupRefused | controllers/userController.js:27-32 | after a signup, any email that normalizes to the same key is refused |
| UserController.LoginAfterSignup | controllers/userController.js:57-81 | a user who has just signed up can log in with an equivalent email and an accepted password |
| ExportSeed.IndexOf | scripts/exportSeed.js:14 | the first position of the option, or -1 when it is absent |
| ExportSeed.ParseArgs | scripts/exportSeed.js:12-16 | the seed-only and force flags are set iff present; the output file follows the first `--out`, and defaults to `seed/defaultEvents.json` |
| ExportSeed.ParseArgsExamples | scripts/exportSeed.js:12-16 | the documented usages parse as intended, and a trailing `--out` has no file |
| ExportSeed.MatchingPositions | scripts/exportSeed.js:27 | the positions are ascending, each is a document the query matches, and every matching position is there |
| ExportSeed.Selected | scripts/exportSeed.js:27-31 | the selection is the document at each matching position, in the order the collection returns them, one entry per position |
| ExportSeed.SelectedExactly | scripts/exportSeed.js:27-31 | with `--seed-only` only seeds are chosen, and every event that matches is chosen |
| ExportSeed.InsertByStart | scripts/exportSeed.js:32 | inserting into a start-ordered list keeps it ordered and adds exactly that event |
| ExportSeed.SortByStart | scripts/exportSeed.js:32 | the result is ordered by ascending start and is a permutation of the input |
| ExportSeed.PortableImage | scripts/exportSeed.js:43 | the image is null iff it is missing or empty |
| ExportSeed.ToRecord | scripts/exportSeed.js:36-47 | title, location and details are copied; the category is its name; the dates are never null; the image is the portable one; `hostEmail` is present iff the host exists and has an email; `hostName` is present iff the host exists, and is the trimmed first and last name |
| ExportSeed.Records | scripts/exportSeed.js:36 | one record per document, in the same order |
| ExportSeed.ExportData | scripts/exportSeed.js:27-47 | one record per selected event, in start order |
| ExportSeed.MatchedOnce | scripts/exportSeed.js:27-31 | when the collection lists each document once, the ids at the matching positions (`MatchedIds`) hold every matching event and no id twice, so each matching event is exported exactly once |
| ExportSeed.ExportedInOrder | scripts/exportSeed.js:27-47 | the records are ordered by start, there is one for each matching position, the documents behind them are the selection rearranged, and every matching event is among them |
| ExportSeed.Import | api/cron/reset.js:40-44 | every schema field of a record is carried over unchanged |
| ExportSeed.ImportIgnoresHostFields | api/cron/reset.js:40-44 | the host fields of a record make no difference to what the reset reads back |
| ExportSeed.ExportImportRoundTrip | scripts/exportSeed.js:36-47 | an exported event, read back by the reset, validates again as a seed with the same fields |
| ExportSeed.ResolveOut | scripts/exportSeed.js:49 | an absolute output path is used as given, and a relative one is put under the working directory |
| ExportSeed.DigitChar | scripts/exportSeed.js:53 | each digit is the character for its value |
| ExportSeed.DecimalText | scripts/exportSeed.js:53 | the time stamp is a non-empty string of decimal digits, without leading zeros, that denotes the clock's value |
| ExportSeed.StampedAsWritten | scripts/exportSeed.js:53 | the replacement puts the time stamp before a trailing `.json`, and leaves a path without one unchanged |
| ExportSeed.WriteTargetAsWritten | scripts/exportSeed.js:52-58 | as written, the path itself is the target unless the file exists without `--force`; then a `.json` path gets a new name, and any other path is still the target |
| ExportSeed.AsWrittenOverwritesExisting | scripts/exportSeed.js:52-54 | as written, any existing output file not named `*.json` is overwritten without `--force`, whereas the corrected target never is |
| ExportSeed.OverwriteExample | scripts/exportSeed.js:52-54 | `/app/seed/events.txt` is such a path |
| ExportSeed.StampedPath | scripts/exportSeed.js:53 | the stamped name always differs from the path, and agrees with the code for `.json` paths |
| ExportSeed.WriteTarget | scripts/exportSeed.js:52-58 | an existing file is never the target without `--force`; otherwise the path itself is |
| ExportSeed.RunExport | scripts/exportSeed.js:12-58 | the script fails iff `--out` has no value; otherwise it writes the ordered records; an existing file is kept without `--force` only when its name ends in `.json` |
| ExportSeed.RunExportCorrected | scripts/exportSeed.js:12-58 | with the corrected target, the same outcome and records, never over an existing file without `--force`, and the same run as the script on `.json` paths |

## Left out

- Rendering, flash messages, redirects' page contents and the exact error
  texts. Replies are abstract outcome kinds.
- `getAllEvents`, `getEventById`, `newEventForm`, `editEventForm`,
  `getProfile` and `logout`. They only read and render, or only drop the
  session.
- The Cloudinary and multer upload setup. An upload is an optional path.
- Date parsing and ISO formatting. A date is an instant, or missing when the
  text is empty or not ISO 8601.
- The database connection, its cached handle, the environment loading of the
  export script, and store failures inside handlers other than the gates'
  lookup.
- Session regeneration and saving in `postLogin`, whose failures only
  redirect back.
- Reading the seed file. The catalog is an input, missing when the file is
  missing or unreadable.
- Writing the export file. The result is the target path and the records.
- Concurrency: simultaneous upserts or signups, and overlapping reset runs.
  The unique indexes appear as preconditions on the database the
  operations start from.
- `ObjectId.isValid`, `validator.isEmail`, `normalizeEmail`, `escape` and
  bcrypt. These are opaque functions.
- Text.Lower: lower-cases ASCII letters only, whereas `toLowerCase` maps all
  of Unicode.
- UserModel.Validate: the password length counts characters, whereas
  mongoose counts UTF-16 code units, so lengths differ for characters
  outside the Basic Multilingual Plane.
- ExportSeed.ResolveOut: does not normalize the joined path the way
  `path.join` does, and treats only a leading `/` as absolute.
- ValidFormPassesSchema: the form check (`new Date()` in isAfterToday) and
  the schema's start-date validator (`Date.now()` at save) are given one
  clock reading. In the application a start date that falls between the two
  readings passes the form and fails the save.
- CreateEventEffect: uses one clock reading for the form and the save, so it
  does not give the 400 that the schema's late rejection of such a start date
  produces.
- UpdateEventEffect: uses one clock reading for the form and the save, so it
  does not give the 500 that the schema's late rejection of such a start date
  produces after the awaited lookup.
- EventController.IsEndDateAfterStartDate: compares against the start date
  only when it is ISO 8601, whereas `new Date(startDate)` also reads other
  date text. For startDate "October 12, 2030" and endDate "2030-10-13" the
  application reports only the start date; `FormErrors` also reports the
  end date.
- ExportSeed.SortByStart: does not fix the order of events with equal start
  times, which the database leaves unspecified.
- The model does not state whether the stamped file name itself exists.

## Findings

| source | as written | input that shows it | evidently intended | confidence | as-written member | corrected member |
|---|---|---|---|---|---|---|
| scripts/exportSeed.js:53 | The stamped name is made by replacing a trailing `.json`. When the output path has another extension, nothing is replaced and the existing file is overwritten. | `--out seed/events.txt` while `seed/events.txt` exists, without `--force` | An existing file is never overwritten without `--force`; a time-stamped name is written instead. | not executed | ExportSeed.AsWrittenOverwritesExisting | ExportSeed.WriteTarget |
