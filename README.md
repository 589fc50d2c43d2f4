# grooster roster pipeline, modelled in Dafny

The grooster backend lets the members of an organ (a committee) plan shifts.
The flow is as follows:

- A roster is created for a date, with named shifts.
- Optionally, a template carries each member's standing preferences over as first answers.
- Members answer per shift with one of the roster's values.
- Saving the roster finalises it: every shift gets a *saved shift* to which members are assigned.
- For each saved shift, the backend proposes a candidate list. It ranks the organ's members by the last date on which they held a shift of the same name, with those who never held one first.

The repository has two generations of this code, and both are modelled:

- the current services under `internal/` (roster, user, organ);
- the legacy services under `cmd/src/pkg/services/`.

From the legacy authentication service, only two pure pieces are modelled: the numeric id in the `preferred_username` claim, and the organs derived from the token's client roles.

The database is a value of type `Store.Tables` (current) or `LegacyStore.LegacyTables` (legacy). Each table is a map from id to row, and each table has the last id its auto-increment sequence handed out. Ids start at 1.

Each service operation is a method on the `Db`/`LegacyDb` object that holds these tables. It computes the new tables, assigns them once, and states them in its postcondition as a function of the old tables. The consistency of the tables is the `Valid` predicate, and every method keeps it. It covers:

- fresh ids;
- the unique indexes: one answer per (user, roster, shift), the GEWIS id, organ names, shift groups;
- the foreign keys between the roster and template tables: shifts, answers, saved shifts, template shifts and preferences refer to rows that exist.

The foreign keys into the user and organ tables are not part of `Valid`. They are checked where a row is inserted or deleted: a roster's organ, a preference's user, and the `user_organs` rows of a user being deleted.

Loops of the source are `for` loops with invariants, tied to a function of the prefix processed so far.

The clock is a parameter:

- `now` is an instant in seconds since the Unix epoch, for both generations;
- a current roster date is a `Time`: an instant and the UTC offset of the location it carries. Its calendar day is taken in that location. The fairness query compares instants.

The fairness query's failure, which the code only logs, is the parameter `failing`: the saved-shift ids whose query errs.

## Model

| member | source | states |
|---|---|---|
| Models.InsertAnswerKeepsUnique | internal/models/roster.go:50-56 | a new answer keeps the `user_answer_idx` index unique exactly when no stored answer has its (user, roster, shift) |
| Models.CascadeKeepsAnswersUnique | internal/models/roster.go:54-58 | dropping the answers of deleted rosters or shifts keeps the answer index unique |
| Models.AnswersCascaded | internal/models/roster.go:54-58 | the reference definition of the answer cascade; Models.CascadeKeepsAnswersUnique proves it keeps the unique index, and RosterCrud.WithoutRosterValid and RosterCrud.WithoutShiftValid that it leaves no answer referring to a deleted row |
| Models.SavedCascaded | internal/models/roster.go:68-70 | the reference definition of the saved-shift cascade; RosterCrud.WithoutRosterValid and RosterCrud.WithoutShiftValid prove it leaves no saved shift referring to a deleted shift |
| Models.PreferencesCascaded | internal/models/roster.go:110-114 | the reference definition of the preference cascade; RosterTemplates.WithoutTemplateValid and UserService.WithoutUserValid prove it leaves no preference referring to a deleted template shift or user |
| Models.ShiftsOfRoster | internal/models/roster.go:38 | the shifts the roster cascade removes; RosterCrud.WithoutRosterValid proves none is left referring to the deleted roster |
| Store.RosterAdded | internal/models/roster.go:9-29 | a roster under a fresh id keeps the roster tables consistent |
| Store.ShiftAdded | internal/models/roster.go:36-38 | a shift of an existing roster under a fresh id keeps the roster tables consistent |
| Store.AnswerAdded | internal/models/roster.go:50-58 | an answer to an existing roster and shift keeps the tables consistent exactly when its key is free |
| Store.RowsDropped | internal/models/roster.go:38-72 | dropping rows keeps the tables consistent when nothing left refers to a dropped row |
| Store.MembersOf | internal/roster/service.go:54-56 | exactly the existing users with a `user_organs` row for the organ, ascending |
| Store.ShiftIdsOf | internal/roster/service.go:307 | exactly the shifts of the roster, ascending |
| Store.SavedIdsOf | internal/roster/service.go:335 | exactly the saved shifts of the roster, ascending |
| RosterService.Members | internal/roster/service.go:54-56 | the organ's members as the join returns them, ascending, each once |
| RosterService.TemplatePreferenceIds | internal/roster/service.go:104-108 | exactly the preferences of members on shifts of the chosen template, ascending |
| RosterService.Carried | internal/roster/service.go:113-126 | every carried answer names one of the new shift names |
| RosterService.CarriedExactly | internal/roster/service.go:113-126 | a preference is carried over exactly when its template-shift name is one of the new shift names, with its user and value |
| RosterService.CarriedPrefix | internal/roster/service.go:113-126 | carrying a prefix of the preferences yields a prefix of the carried answers (the loop's order) |
| RosterService.ConflictFreeAppend | internal/models/roster.go:50-56 | an appended answer keeps the list free of clashes exactly when no earlier one has its member and shift name |
| RosterService.CarryOver | internal/roster/service.go:98-127 | the answers carried over name only shifts of the request |
| RosterService.LastIndexOf | internal/roster/service.go:94 | a position holding the name |
| RosterService.LastIndexOfIsLast | internal/roster/service.go:94 | no later position holds the name: the name map keeps the last shift created with a name |
| RosterService.NameIndexContents | internal/roster/service.go:80-95 | the name-to-shift map holds exactly the shift names, each mapped to the id of the last shift with that name |
| RosterService.NameIndexShifts | internal/roster/service.go:80-95 | every name in the map points at a new shift of that name |
| RosterService.WithShiftsContents | internal/roster/service.go:83-95 | the new shifts take consecutive ids, the k-th named `shifts[k]` with order k, and existing shifts are untouched |
| RosterService.WithAnswersContents | internal/roster/service.go:113-126 | the carried answers take consecutive ids in order, and existing answers are untouched |
| RosterService.NextIds | internal/roster/service.go:83-95 | the n ids consecutive inserts take |
| RosterService.IsTodayOrLater | internal/roster/service.go:559-566 | a date at or after `now` passes, and a date that passes lies less than a day before `now` |
| RosterService.TodayOrLaterIffFromMidnight | internal/roster/service.go:559-566 | a date passes exactly when it is at or after the midnight that starts today in the date's own location; `now` itself and every later instant pass |
| RosterService.NewRoster | internal/roster/service.go:52-74 | the roster row has the fixed values J, X, L, N, is not saved, records no template, and has the request's name, date and organ |
| RosterService.CreateRoster | internal/roster/service.go:50-134 | a date before today fails first, then an empty name, then an organ that does not exist (the foreign key on `organ_id`), each leaving the tables unchanged; a clash among carried answers fails with `Conflict`, leaving the roster, its shifts and exactly the carried answers before the first clash stored; otherwise the roster, its shifts in order and the carried answers are stored |
| RosterService.InsertRoster | internal/roster/service.go:69-127 | the inserting part succeeds exactly when the carried answers do not clash, leaves consistent tables, and stores exactly the carried answers before the first clash |
| RosterService.InsertedValid | internal/roster/service.go:69-127 | the tables after inserting the roster, its shifts and its answers are consistent, and the answers stored are the carried ones before the first clash |
| RosterService.InsertAnswers | internal/roster/service.go:113-126 | the answers table gains exactly the carried answers before the first clash, and ok holds exactly when nothing clashes |
| RosterService.RosterInserted | internal/roster/service.go:76-78 | the new roster keeps the tables consistent and has no answers yet |
| RosterService.InsertShifts | internal/roster/service.go:83-96 | the shift loop stores one shift per name under consecutive ids and fills the name map |
| RosterService.StoppedIffConflict | internal/roster/service.go:122-124 | stopping where the first clash is keeps a clash-free prefix, and the carry-over stops early exactly when the carried answers clash |
| RosterService.CarryInto | internal/roster/service.go:113-126 | the carry-over loop inserts the carried answers in order and stops at the first one whose key the unique index already holds: exactly the answers before that one are stored |
| RosterService.CarryOne | internal/roster/service.go:113-124 | one pass of the carry-over loop either inserts the next carried answer under the next id, or reports a clash after which exactly the answers carried so far are stored |
| RosterService.CarryEnds | internal/roster/service.go:113-126 | when the loop ends, the stored answers are those before the first clash, and it finished exactly when nothing clashes |
| RosterService.FirstClashIff | internal/models/roster.go:50-56 | the first clash is at position n exactly when the first n carried answers are free of clashes and the next one shares its member and shift name with one of them |
| RosterService.StoppedAtClash | internal/roster/service.go:122-124 | after a clash-free prefix, the carry-over stops exactly when the next answer shares its member and shift name with an earlier one |
| RosterService.SlotTaken | internal/models/roster.go:50-56 | an answer's member and shift name are taken by the first n answers exactly when one of them has the same |
| RosterService.CarryAdded | internal/roster/service.go:115-124 | a carried answer with a free key extends the stored prefix by one row under the next id |
| RosterService.CarryClashes | internal/roster/service.go:122-124 | a taken key means the carried answers clash |
| RosterService.CarriedStep | internal/roster/service.go:113-114 | one more preference adds its answer exactly when its shift name is a new shift name |
| RosterService.ClashStops | internal/roster/service.go:122-124 | a clash stops the carry-over after the answers carried so far |
| RosterService.WithAnswersAppend | internal/roster/service.go:115-124 | appending one carried answer adds its row under the next id |
| RosterService.WithAnswersConsistent | internal/roster/service.go:113-126 | answers without clashes, for a new roster, keep the tables consistent |
| RosterService.WithAnswersUnique | internal/models/roster.go:50-56 | answers without clashes, for a new roster, keep the `user_answer_idx` index unique |
| RosterService.CarriedKeysDiffer | internal/models/roster.go:50-56 | two different answers without a clash have different index keys |
| RosterService.CarriedKeyTaken | internal/models/roster.go:50-56 | a carried answer's key is taken exactly when an earlier carried answer has its member and shift name |
| RosterCrud.GetRosters | internal/roster/service.go:136-162 | exactly the rosters that match every given filter, in id order, each once |
| RosterCrud.NoFilterListsAll | internal/roster/service.go:136-162 | without filters every roster is listed |
| RosterCrud.Updated | internal/roster/service.go:175-183 | the given fields are overwritten; values, organ and template stay |
| RosterCrud.UpdatedIdempotent | internal/roster/service.go:175-183 | an empty request changes nothing; applying a request twice equals applying it once |
| RosterCrud.RosterReplaced | internal/roster/service.go:185 | replacing an existing roster's row keeps the tables consistent |
| RosterCrud.UpdateRoster | internal/roster/service.go:164-190 | a missing roster is not found; then a date before today is refused; otherwise the updated row is stored and returned |
| RosterCrud.WithoutRoster | internal/roster/service.go:192-199 | the roster, its shifts, their answers and saved shifts are removed, and nothing else |
| RosterCrud.WithoutRosterValid | internal/models/roster.go:38-70 | after the cascade, nothing refers to a deleted row |
| RosterCrud.DeleteRoster | internal/roster/service.go:192-199 | deletes with the cascade; a missing roster is no error |
| RosterCrud.NextOrder | internal/roster/service.go:207-220 | the new order is one more than the largest order among the roster's shifts |
| RosterCrud.FirstOrderIsZero | internal/roster/service.go:210 | a roster without shifts starts at order 0 |
| RosterCrud.CreateRosterShift | internal/roster/service.go:201-228 | a missing roster is not found; otherwise the shift is stored after all others in order |
| RosterCrud.UpdateRosterShift | internal/roster/service.go:230-248 | a missing shift is not found; a given order is set and nothing else changes |
| RosterCrud.WithoutShift | internal/roster/service.go:250-258 | the shift, its answers and its saved shift are removed, and nothing else |
| RosterCrud.WithoutShiftValid | internal/models/roster.go:58-70 | deleting a shift leaves consistent tables |
| RosterCrud.DeleteRosterShift | internal/roster/service.go:250-258 | deletes with the cascade; a missing shift is no error |
| Models.AnswerRefusal | internal/roster/service.go:260-282 | the checks in order, the same in both generations: roster, shift, value in the roster's values, unique key; an answer passes exactly when all four pass |
| RosterCrud.CreateRosterAnswer | internal/roster/service.go:260-287 | stores the answer exactly when nothing is refused, under the next id |
| RosterCrud.AnswerUpdated | internal/roster/service.go:296 | the value is set unless it is empty (a struct update skips zero values); the key stays |
| RosterCrud.AnswerReplaced | internal/roster/service.go:296 | replacing an answer with one of the same key keeps the tables consistent |
| RosterCrud.UpdateRosterAnswer | internal/roster/service.go:289-303 | a missing answer is not found; otherwise the updated row is stored and read back |
| SavedRoster.AddMissingKeeps | internal/roster/service.go:311-323 | existing saved shifts are kept as they were; new ones are empty, for shifts of the roster |
| SavedRoster.AddMissingCovers | internal/roster/service.go:311-323 | afterwards every shift of the roster has a saved shift |
| SavedRoster.HasSavedShiftKept | internal/roster/service.go:313 | a new row does not take a saved shift away |
| SavedRoster.AddMissingNothing | internal/roster/service.go:311-323 | when every shift already has a saved shift, nothing is added |
| SavedRoster.AddMissingConsistent | internal/roster/service.go:311-323 | each shift has at most one saved shift after the loop |
| SavedRoster.SavedShiftAdded | internal/roster/service.go:507-518 | an empty saved shift for a shift without one keeps the tables consistent |
| SavedRoster.SavedRowsValid | internal/roster/service.go:305-331 | saving keeps the tables consistent, marks the roster saved, covers every shift and keeps earlier saved shifts |
| SavedRoster.SaveIdempotent | internal/roster/service.go:311-323 | saving twice is saving once |
| SavedRoster.SaveRoster | internal/roster/service.go:305-331 | a missing roster is not found; otherwise the new tables are the saved rows |
| SavedRoster.KnownUsers | internal/roster/service.go:356 | the reference definition of `Find(… IN ids)`; SavedRoster.UpdateSavedShift and LegacySavedRoster.UpdateSavedShift tie the new users of a saved shift to it |
| SavedRoster.UpdateSavedShift | internal/roster/service.go:348-371 | a missing saved shift is not found; a given list replaces the users by the known ones; without a list nothing changes |
| SavedRoster.JoinableSaved | internal/roster/service.go:537-540 | exactly the saved shifts whose shift row exists, ascending (either schema) |
| SavedRoster.PastOf | internal/roster/service.go:537-540 | a saved shift as the join sees it: shift name, roster date if the roster exists, users |
| SavedRoster.HistoryOf | internal/roster/service.go:534-544 | one entry per joinable saved shift, in id order, each as the join sees it; the legacy query (cmd/src/pkg/services/roster_service.go:394-404) is the same join over the legacy tables |
| SavedRoster.LastAssignedIsLatestSaved | internal/roster/service.go:535-543 | a member's sort key is the latest date of a saved shift of that name the member holds, and none exactly when there is none |
| SavedRoster.OrderingOf | internal/roster/service.go:526-553 | the entry carries the saved shift's shift name, and no users when its fairness query fails (the error is only logged) |
| SavedRoster.OrderingRanked | internal/roster/service.go:526-553 | otherwise the entry lists the members of the roster's organ (organ 0 when the roster is missing), as often as the join returns them, ranked by the fairness key |
| SavedRoster.RankedOnce | internal/roster/service.go:534-544 | each member of the organ is listed exactly once (grouped by user id) |
| SavedRoster.OrderingEntry | internal/roster/service.go:523-551 | the entry built for one saved shift is its `OrderingOf` entry |
| SavedRoster.GetSavedShiftOrdering | internal/roster/service.go:520-557 | one entry per saved shift, in the given order, each its `OrderingOf` |
| SavedRoster.GetSavedRoster | internal/roster/service.go:333-346 | the roster's saved shifts in id order, each with its ordering entry |
| Fairness.LastAssigned | internal/roster/service.go:535-540 | the maximum date among the member's saved shifts of that name; none exactly when there is none |
| Fairness.InsertBy | internal/roster/service.go:543 | insertion keeps the list sorted and adds exactly the element |
| Fairness.SortBy | internal/roster/service.go:543 | the result is sorted by the key and a permutation of the input |
| Fairness.Rank | internal/roster/service.go:534-544 | every member, as often as given, ascending by last date with none first |
| Fairness.NeverAssignedFirst | internal/roster/service.go:543 | a member never assigned comes before every member assigned before |
| Fairness.LongerAgoFirst | internal/roster/service.go:543 | a member assigned longer ago comes first |
| RosterTemplates.WithTemplateShiftsContents | internal/roster/service.go:384-389 | the template shifts take consecutive ids, one per name in order, and existing rows are untouched |
| RosterTemplates.TemplateCreatedValid | internal/roster/service.go:391-399 | creating a template keeps the template tables consistent |
| RosterTemplates.TemplateCreatedShifts | internal/roster/service.go:384-399 | the new template owns exactly its new shifts, named in order, and other templates keep theirs |
| RosterTemplates.CreateRosterTemplate | internal/roster/service.go:373-402 | a missing organ is not found; then an empty shift list is refused; otherwise the template and its shifts are stored |
| RosterTemplates.GetRosterTemplate | internal/roster/service.go:404-411 | the template with exactly its shifts in id order, or not found |
| RosterTemplates.GetRosterTemplates | internal/roster/service.go:413-428 | exactly the templates of the given organ (all without one), in id order |
| RosterTemplates.WithoutTemplate | internal/roster/service.go:448-457 | the template, its shifts and the preferences on them are removed, and nothing else |
| RosterTemplates.WithoutTemplateValid | internal/models/roster.go:88-114 | deleting a template, with its cascades, keeps the template tables consistent |
| RosterTemplates.DeleteRosterTemplate | internal/roster/service.go:448-457 | deleting no row is not found; otherwise the cascade is applied |
| RosterTemplates.CreateRosterTemplateShiftPreference | internal/roster/service.go:459-471 | a missing template shift or user is refused by the foreign keys; otherwise the preference is stored under the next id |
| RosterTemplates.GetRosterTemplateShiftPreferences | internal/roster/service.go:473-488 | exactly the user's preferences on shifts of the template, in id order |
| RosterTemplates.UpdateRosterTemplateShiftPreference | internal/roster/service.go:490-505 | a missing preference is not found; otherwise its value is set, the empty string included |
| UserService.JoinedContents | internal/user/service.go:29-40 | the new user's join rows are exactly one per listed organ, with an empty username; others stay |
| UserService.UserCreatedValid | internal/models/user.go:10 | a user with a free GEWIS id keeps the people tables consistent |
| UserService.UserCreatedMembers | internal/user/service.go:29-44 | each organ's members afterwards are those before, plus the new user exactly for the listed organs |
| UserService.JoinOrgans | internal/user/service.go:29-34 | the organ loop yields the join rows exactly when every listed organ exists |
| UserService.Create | internal/user/service.go:24-47 | an empty name is refused; a taken GEWIS id conflicts; otherwise the user is stored with the next id |
| UserService.Get | internal/user/service.go:49-71 | exactly the users matching every given filter, in id order |
| UserService.WithoutUser | internal/user/service.go:73-85 | the user goes, leaves every saved shift (`user_shift_saved` cascades), and their preferences go (cascade) |
| UserService.WithoutUserValid | internal/models/user.go:14 | deleting a user keeps the tables consistent |
| UserService.Delete | internal/user/service.go:73-85 | deleting no row is not found; a user who still has `user_organs` rows is refused by that join table's foreign key and nothing changes; otherwise the user is deleted for good, with the cascades |
| OrganService.GetMemberSettings | internal/organ/service.go:22-34 | the (user, organ) row, or not found |
| OrganService.UpdateMemberSettings | internal/organ/service.go:36-71 | without a username only reads; with one sets it on that row only; the result is the row read back; a missing row is not found either way |
| LegacyRosterService.IsAfterToday | cmd/src/pkg/services/roster_service.go:419-424 | a date after today is later than `now`, and a date a whole day or more after `now` is after today |
| LegacyRosterService.AfterTodayIffTomorrow | cmd/src/pkg/services/roster_service.go:419-424 | a date passes exactly when it is at or after the first instant of tomorrow (UTC); any instant of today fails |
| LegacyRosterService.WithLegacyShiftsContents | cmd/src/pkg/services/roster_service.go:73-84 | the new shifts take consecutive ids, one per name in order |
| LegacyRosterService.LegacyRosterCreatedValid | cmd/src/pkg/services/roster_service.go:62-84 | creating a roster keeps the legacy tables consistent |
| LegacyRosterService.LegacyRosterCreatedContents | cmd/src/pkg/services/roster_service.go:62-84 | the new roster holds the request and the fixed values Ja, X, L, Nee, with exactly its shifts in order |
| LegacyRosterService.CreateRoster | cmd/src/pkg/services/roster_service.go:45-91 | a date not after today fails first, then an empty name, then an organ that does not exist (the foreign key on `organ_id`; `Find` itself never fails); on error nothing changes; otherwise the roster and its shifts are stored |
| LegacyRosterService.GetRosters | cmd/src/pkg/services/roster_service.go:93-119 | exactly the rosters matching every given filter, in id order |
| LegacyRosterService.LegacyUpdated | cmd/src/pkg/services/roster_service.go:121-144 | the given name and date are set; the rest stays |
| LegacyRosterService.UpdateRoster | cmd/src/pkg/services/roster_service.go:121-144 | a missing roster is not found; then a date not after today is refused; otherwise the row is updated |
| LegacyRosterService.DeleteRoster | cmd/src/pkg/services/roster_service.go:146-153 | only the roster row goes; no error |
| LegacyRosterService.CreateRosterShift | cmd/src/pkg/services/roster_service.go:155-171 | a missing roster is not found; otherwise the shift is stored |
| LegacyRosterService.DeleteRosterShift | cmd/src/pkg/services/roster_service.go:173-181 | only the shift row goes; no error |
| LegacyRosterService.CreateRosterAnswer | cmd/src/pkg/services/roster_service.go:183-210 | stores the answer exactly when nothing is refused |
| LegacyRosterService.UpdateRosterAnswer | cmd/src/pkg/services/roster_service.go:212-226 | a missing answer is not found; otherwise the value is set unless empty and the row is read back |
| LegacyRosterService.CreateRosterTemplate | cmd/src/pkg/services/roster_service.go:288-310 | a missing organ is not found; then an empty shift list is refused; otherwise stored |
| LegacyRosterService.GetRosterTemplate | cmd/src/pkg/services/roster_service.go:312-319 | the template or not found |
| LegacyRosterService.GetRosterTemplates | cmd/src/pkg/services/roster_service.go:321-336 | exactly the templates of the given organ, in id order |
| LegacyRosterService.UpdateRosterTemplate | cmd/src/pkg/services/roster_service.go:338-354 | a missing template is not found; otherwise name and shifts are overwritten, empty values included |
| LegacyRosterService.DeleteRosterTemplate | cmd/src/pkg/services/roster_service.go:356-365 | deleting no row is not found; otherwise only the template row goes |
| LegacySavedRoster.AddEveryContents | cmd/src/pkg/services/roster_service.go:234-238 | one new empty saved shift per shift, under consecutive ids, existing ones untouched |
| LegacySavedRoster.LegacySavedValid | cmd/src/pkg/services/roster_service.go:228-246 | saving keeps the legacy tables consistent |
| LegacySavedRoster.AddEveryTwice | cmd/src/pkg/services/roster_service.go:234-238 | running the loop twice gives each shift two saved shifts |
| LegacySavedRoster.LegacySavedParts | cmd/src/pkg/services/roster_service.go:228-246 | saving changes only the roster's flag, the saved shifts and their counter |
| LegacySavedRoster.SaveTwiceDuplicates | cmd/src/pkg/services/roster_service.go:234-238 | saving a roster twice leaves two identical saved shifts for each of its shifts |
| LegacySavedRoster.SaveRoster | cmd/src/pkg/services/roster_service.go:228-246 | a missing roster is not found; otherwise every shift gets a new saved shift, whether it had one or not |
| LegacySavedRoster.UpdateSavedShift | cmd/src/pkg/services/roster_service.go:263-286 | a missing saved shift is not found; a given list replaces the users by the known ones |
| LegacySavedRoster.LegacyOrderingOf | cmd/src/pkg/services/roster_service.go:384-413 | the shift name and the organ's members ranked by the fairness key, or an empty list when the query fails |
| LegacySavedRoster.LegacyGetSavedShiftOrdering | cmd/src/pkg/services/roster_service.go:380-417 | fails exactly when a saved shift lost its shift; otherwise one entry per saved shift in order |
| LegacySavedRoster.GetSavedRoster | cmd/src/pkg/services/roster_service.go:248-261 | the roster's saved shifts in id order with their entries, or the failure of a lost shift |
| LegacyPeopleService.LegacyUserCreatedValid | cmd/src/pkg/services/user_service.go:28-36 | a user with a free GEWIS id keeps the tables consistent and joins exactly the listed organs |
| LegacyPeopleService.Create | cmd/src/pkg/services/user_service.go:23-39 | an empty name is refused; a taken GEWIS id conflicts; otherwise the user is stored with the next id |
| LegacyPeopleService.UsersMatching | cmd/src/pkg/services/user_service.go:41-63 | exactly the users matching every given filter, ascending |
| LegacyPeopleService.GetUsers | cmd/src/pkg/services/user_service.go:41-63 | those users with their rows, in id order |
| LegacyPeopleService.CreatedUserFound | cmd/src/pkg/services/user_service.go:23-63 | a created user is the one match of a lookup by its id |
| LegacyPeopleService.Delete | cmd/src/pkg/services/user_service.go:65-78 | deleting no row is not found; otherwise only the user row goes |
| LegacyPeopleService.DeletedUserNotFound | cmd/src/pkg/services/user_service.go:65-78 | after a delete, a lookup by that id finds nothing |
| LegacyPeopleService.Membership | cmd/src/pkg/services/organ_service.go:28-35 | the (user, organ) row, or not found |
| LegacyPeopleService.UpdateMemberSettings | cmd/src/pkg/services/organ_service.go:20-55 | without a username only reads; with one sets it, empty included, on that row only; the result is the row read back |
| Auth.IndexOf | cmd/src/pkg/services/auth_service.go:113 | the first occurrence of a character, none exactly when absent |
| Auth.SecondField | cmd/src/pkg/services/auth_service.go:113-119 | none exactly when there is no 'm'; the field holds no 'm' |
| Auth.SecondFieldOf | cmd/src/pkg/services/auth_service.go:113-119 | the text between the first and second 'm' is the field taken |
| Auth.Atoi | cmd/src/pkg/services/auth_service.go:120 | results lie in the 64-bit range; malformed text and out-of-range text both give the one error `NotANumber` |
| Auth.DecimalStringValue | cmd/src/pkg/services/auth_service.go:120 | decimal digits read back to the number they were written from |
| Auth.AtoiDecimal | cmd/src/pkg/services/auth_service.go:120-124 | a number's decimal text parses to it, with either sign, exactly within the 64-bit range |
| Auth.ParseUserId | cmd/src/pkg/services/auth_service.go:112-127 | "invalid username format" exactly when there is no 'm'; any id lies below 2^64 |
| Auth.ParseUserIdRoundTrip | cmd/src/pkg/services/auth_service.go:112-127 | a username with `m<n>` after an m-free prefix yields n |
| Auth.ParseUserIdWraps | cmd/src/pkg/services/auth_service.go:127 | a negative number wraps to 2^64 minus its size |
| Auth.RolesOf | cmd/src/pkg/services/auth_service.go:195-212 | the three error claims, and a missing or non-object `resource_access` is exactly the first |
| Auth.FindFrom | cmd/src/pkg/services/auth_service.go:219-221 | the first occurrence of the separator, none exactly when it does not occur |
| Auth.OrganNameOf | cmd/src/pkg/services/auth_service.go:216-226 | a named organ is non-empty, comes from a string role, and is what follows a separator at the end of the role |
| Auth.OrganNameOfFirst | cmd/src/pkg/services/auth_service.go:216-224 | a string role whose first `<env> ` occurrence is at k names the text after that occurrence, later separators included, and nothing when that text is empty (`SplitN` with limit 2) |
| Auth.OrganNameAfterFirstSeparator | cmd/src/pkg/services/auth_service.go:219-224 | for environment `test`, the role `test a test b` names organ `a test b`: the split happens at the first separator only |
| Auth.OrganNameOfRole | cmd/src/pkg/services/auth_service.go:219-226 | the role `<env> <name>` names organ name |
| Auth.NoSeparatorNoOrgan | cmd/src/pkg/services/auth_service.go:218-219 | a role without the separator, or a role that is not a string, names nothing |
| Auth.OrganNamesContents | cmd/src/pkg/services/auth_service.go:216-232 | a name is listed exactly when some role names it |
| Auth.FirstOrCreate | cmd/src/pkg/services/auth_service.go:228 | the organ of that name is found, or created under the next id exactly when none exists; tables stay consistent |
| Auth.FirstOrCreateIdempotent | cmd/src/pkg/services/auth_service.go:228 | finding or creating the same name again returns the same organ and changes nothing |
| Auth.EnsureOrgans | cmd/src/pkg/services/auth_service.go:216-232 | one organ id per name, each naming an organ of that name; existing organs are kept |
| Auth.GetOrgans | cmd/src/pkg/services/auth_service.go:195-235 | claim errors change nothing; otherwise one organ per qualifying role in role order, found or created by name |

## Left out

- Handlers, middleware, the export service, bootstrapping and seeders are not part of this model.
- The rest of the authentication service is not part of this model: cookies, JWT signing and decoding, base64 and JSON decoding, the user lookup after the id parse.
- The environment variable `RESOURCE_ENV_TYPE` is the parameter `env`.
- Auth.ParseUserId: a missing or non-string `preferred_username` claim makes the type assertion panic; the model takes the claim as a string.
- Database errors other than not-found, unique and foreign-key violations are not modelled: connection failures, timeouts, and errors from `Preload` or `Save`.
- Concurrency and transactions are not modelled. Every operation runs alone, and a failing insert loop keeps the rows inserted before the failure, as the code does.
- The clock is not modelled: `now` is given by the caller.
- RosterService.IsTodayOrLater: a location is reduced to one fixed UTC offset. A daylight-saving change between `now` and the date, which Go would apply when it computes today's midnight in that location, is not modelled.
- Rows come back in id order wherever the SQL has no ORDER BY.
- The internal `UpdateRosterTemplate` is left out. It writes columns the current template model does not have.
- Preloads are not modelled: organ, shifts and users attached to returned rows.
- Soft deletes and unscoped queries:
  - A soft-deleted row is modelled as gone from every table. In the legacy schema, a soft-deleted user's GEWIS id, or a deleted organ's name, still occupies the unique index.
  - The raw fairness joins can see soft-deleted rows, which the model does not.
- Fairness.Rank: the order among members with the same last date is whatever the database returns. The model sorts stably by member id but promises only the order by date.
- SavedRoster.OrderingOf: the fairness history is not restricted to the roster's organ or to the saved shift's roster. The code joins every saved shift whose roster shift has the same name, so the model follows the code here.
- RosterService.CreateRoster: the template id is not stored on the roster, because the code does not store it.
- RosterCrud.UpdateRosterAnswer: the new value is not checked against the roster's values, because the code does not check it.
- RosterCrud.UpdateRosterShift: takes the new order as a natural number. The request's order is a signed `*int`, written as given into the unsigned `order` column. A negative order is refused or clamped depending on the database, so it is outside the model. RosterCrud.NextOrder likewise assumes that every stored order is non-negative.
- RosterCrud.UpdateRosterShift: the shift group in the request is ignored, as in the code.
- RosterCrud.GetRosters and LegacyRosterService.GetRosters: the date filter `date = ?` is modelled as equality of instants. How a given database compares a timestamp that carries a zone is not modelled.
- UserService.Create and LegacyPeopleService.Create: an organ id that names no organ is refused. GORM would instead upsert an empty organ row under that id or fail on the foreign key, depending on the database.
- UserService.Create and LegacyPeopleService.Create: the legacy request carries whole organ records; the model reduces them to their ids.
- LegacySavedRoster.GetSavedRoster: a saved shift whose roster shift was soft-deleted makes the code dereference a nil pointer. The model returns the error `NilShift` instead of crashing.
- RosterCrud.DeleteRoster, RosterCrud.DeleteRosterShift and RosterTemplates.DeleteRosterTemplate remove rows for good, with the delete cascades the current models declare. The current `BaseModel` is not part of this model.
  - If it carries a `DeletedAt` column as the legacy one does, these deletes only mark the row, and the cascades never fire. The `Unscoped` delete at internal/user/service.go:74 suggests that it does.
  - The shifts, answers, saved shifts and preferences below a deleted row would then stay, and the fairness join would still see them.
- UserService.Delete, RosterService.CreateRoster, LegacyRosterService.CreateRoster and RosterTemplates.CreateRosterTemplateShiftPreference assume that the foreign keys GORM declares are enforced. These are the one on `user_organs`, the one from `rosters.organ_id` to organs, and the ones from a preference to its template shift and its user. An SQLite database without `PRAGMA foreign_keys = ON` accepts the delete and the inserts, and stores rows that refer to nothing.
- Auth.GetOrgans: errors of `FirstOrCreate` are ignored in the code. The model has none, because organs are never deleted in it.

## Findings

| source | as written | input that shows it | evidently intended | confidence | as-written member | corrected member |
|---|---|---|---|---|---|---|
| cmd/src/pkg/services/roster_service.go:234-238 | `SaveRoster` creates a new saved shift for every shift on every call | saving a roster with one shift twice leaves two saved shifts for that shift, and the fairness history counts it twice | a shift has at most one saved shift, so saving again adds nothing, as the current `SaveRoster` ensures with its lookup before insert | not executed | LegacySavedRoster.SaveTwiceDuplicates | SavedRoster.SaveIdempotent |
