# Magic Bus student portal: a verified model of its decision logic

The Magic Bus portal is a React front end over a hosted Supabase backend. Students
sign up, fill in a multi-part registration (personal details, education history,
activities, achievements, a screening quiz, certificates and an identity document),
and move through a five-stage programme ladder. This project models the portal's
deterministic logic in Dafny and proves properties of it:

- the progress gating of the dashboard sidebar and the status ladder;
- the form validators and list editors;
- the small UI state machines: the quiz cursor, the chatbot and the page router;
- the find-or-create and update-or-insert writes on the backend tables.

The backend is modelled as in-memory tables. Each table is a `Tables.Table<T>` object
holding a sequence of rows `Row(id, studentId, data)`. `studentId` stands for the
column the code filters on: `student_id` for most tables, `user_id` for
`student_profiles` and `admin_users`. A `Tables.Bucket` stands for a storage bucket,
held as its list of object paths. The supabase filters used by the code are functions:

- `ForStudent` is `.eq('student_id', …)`;
- `MaybeSingle` is `.maybeSingle()` with its error ignored, so it yields the row only
  when exactly one row matches;
- `Lookup` is that call together with whether the backend answered: a failed call
  yields no row, just as two matching rows do, since the code reads only `data`;
- `WithoutId` and `WithoutStudent` are the deletes;
- `UpdateForStudent` and `UpdateWithId` are the updates.

Some inputs come from outside the code: whether each backend call went through (an
insert, an update, a lookup or a query), the signed-in user, the clock, the current
year and the user's `confirm` choice. Each is a parameter of the method that uses it.
The rows a successful query returns are not a parameter: they are computed from the
in-memory tables.

Each React component with state is a `class`. Its `useState` variables are fields,
and each handler is a method whose `modifies` clause names the fields and tables it
changes. Pure derivations (the sidebar entries, the status ladder, the chatbot's
responder, the validators) are functions, and lemmas relate them.

Helper modules:

- `Text` holds the JavaScript string and number primitives the code relies on: `trim`,
  `toLowerCase`, `includes`, `parseInt`, `parseFloat` and the `${n}` rendering of a
  whole number.
- `Tables` holds the backend model.

Where the code and its design notes differ, the model follows the code. Points worth
knowing:

- **Registration tab vs academic form tables.** `RegistrationTab` rings the academic
  sub-tab from `student_academic_details.school_name`/`grade`. The academic form writes
  `student_education_history` instead. The model keeps both tables, as written, so
  nothing saved by the academic form can raise that flag.
- **Progress rows keyed by two different ids.** Progress rows are created with the
  *auth user id* as `student_id` (`StudentLogin.tsx:38-40`, `69-71`). The dashboard reads
  them by the *profile id* (`StudentLandingPage.tsx:69-73`). The model takes both
  lookups' answers as inputs and does not join them.
- **`maybeSingle` with two or more rows.** When two or more rows match, `maybeSingle`
  reports no data. The check-then-insert saves (personal details, screening quiz,
  sign-in) then insert yet another row. A lookup that fails has the same effect, even
  when the student has exactly one row (`Tables.InsertBesideSingle`). The contracts
  state this: the student's row count grows by one unless it was exactly one and the
  lookup went through. "At most one row per student" is therefore kept only from zero
  rows, or from one row found by a lookup that went through; it is never restored from
  two or more. A second row then hides the student's details from every later load
  (`PersonalDetails.FailedLookupHidesDetails`) and their dashboard from the router
  (`App.DuplicateProfileLocksOutStudent`).
- **Replace-all save is not atomic.** The academic replace-all save is a delete followed
  by an insert, each of which can fail on its own (`Tables.FailedInsertLosesShare`,
  `Tables.FailedDeleteDuplicates`).
- **Sign-in inserts are unchecked.** Sign-in looks at neither insert's answer. A failed
  profile insert next to a successful progress insert leaves a progress row without a
  profile (`StudentLogin.UnpairedProgress`).
- **Sidebar vs ladder gating.** The sidebar gates onboarding on registration; the status
  ladder gates it on identification (`StudentLandingPage.SidebarAndLadderDisagree`).
- **Negative marks.** The marks check accepts negative numbers although its message
  says 0-100 (`AcademicDetails.NegativeMarksAccepted`).

## Model

| member | source | states |
|---|---|---|
| Tables.ForStudent | src/components/StudentTabs/RegistrationForms/ExtracurricularForm.tsx:32-35 | the student's rows: every row returned is in the table and belongs to the student, and every row of the student is returned |
| Tables.MaybeSingle | src/components/StudentTabs/RegistrationForms/PersonalDetailsForm.tsx:61-65 | a row is found iff exactly one row carries the key, and then it is that student's row from the table |
| Tables.Lookup | src/components/StudentTabs/RegistrationForms/PersonalDetailsForm.tsx:61-65 | a row is found iff the call went through and exactly one row carries the key; a found row is that student's row from the table |
| Tables.InsertBesideSingle | src/components/StudentTabs/RegistrationForms/PersonalDetailsForm.tsx:61-77 | with exactly one row, a failed lookup finds nothing, the insert that follows gives the student two rows, and from then on even a lookup that goes through finds nothing |
| Tables.WithoutId | src/components/StudentTabs/RegistrationForms/ExtracurricularForm.tsx:70 | deleting by id keeps exactly the rows with another id |
| Tables.WithoutStudent | src/components/StudentTabs/RegistrationForms/AcademicDetailsForm.tsx:140-143 | deleting by student keeps exactly the rows of other students |
| Tables.UpdateForStudent | src/components/StudentTabs/RegistrationForms/PersonalDetailsForm.tsx:68-71 | every row of the student gets the new payload, every other row is unchanged, positions kept |
| Tables.UpdateWithId | src/components/StudentTabs/RegistrationForms/ScreeningTestForm.tsx:126-133 | the row(s) with the id get the new payload, every other row is unchanged |
| Tables.ForStudentAppend | src/components/StudentTabs/RegistrationForms/ExtracurricularForm.tsx:32-35 | selecting a student's rows distributes over concatenation of tables |
| Tables.InsertCount | src/components/StudentTabs/RegistrationForms/PersonalDetailsForm.tsx:73-76 | an insert adds one row to its own student's count and none to anyone else's |
| Tables.UpdateForStudentCount | src/components/StudentTabs/RegistrationForms/PersonalDetailsForm.tsx:68-71 | updating a student's rows changes no student's row count |
| Tables.UpdateWithIdCount | src/components/StudentTabs/RegistrationForms/ScreeningTestForm.tsx:126-133 | updating by id changes no student's row count |
| Tables.WithoutIdForStudent | src/components/StudentTabs/RegistrationForms/ExtracurricularForm.tsx:70-71 | after a delete by id, each student's list is their old list without that id, order kept |
| Tables.WithoutStudentForStudent | src/components/StudentTabs/RegistrationForms/AcademicDetailsForm.tsx:140-143 | deleting a student's rows empties that student's share and leaves every other share as it was |
| Tables.ReplacedShare | src/components/StudentTabs/RegistrationForms/AcademicDetailsForm.tsx:140-161 | when delete and insert both go through, the student has exactly one row per record of the batch, in order, and other students are untouched |
| Tables.FailedInsertLosesShare | src/components/StudentTabs/RegistrationForms/AcademicDetailsForm.tsx:140-161 | a delete that goes through followed by an insert that fails leaves the student with no rows |
| Tables.FailedDeleteDuplicates | src/components/StudentTabs/RegistrationForms/AcademicDetailsForm.tsx:140-161 | a failed delete followed by an insert that goes through keeps the old rows and adds the whole batch |
| Tables.WithoutIdKeepsKeys | src/components/StudentTabs/RegistrationForms/ExtracurricularForm.tsx:70 | a delete by id keeps row ids unique and issued |
| Tables.WithoutStudentKeepsKeys | src/components/StudentTabs/RegistrationForms/AcademicDetailsForm.tsx:140-143 | a delete by student keeps row ids unique and issued |
| Tables.UpdateWithIdOthers | src/components/StudentTabs/RegistrationForms/ScreeningTestForm.tsx:126-133 | an update by an id owned by the student leaves every other student's rows unchanged |
| Tables.SingleRowOwnsId | src/components/StudentTabs/RegistrationForms/ScreeningTestForm.tsx:119-133 | with unique ids, the id of the row `maybeSingle` found belongs to that student only |
| Tables.UpdateForStudentOthers | src/components/StudentTabs/RegistrationForms/PersonalDetailsForm.tsx:68-71 | an update by student id leaves every other student's rows unchanged |
| Tables.UpdateSingleRowById | src/components/StudentTabs/RegistrationForms/ScreeningTestForm.tsx:125-133 | updating the student's single row by its id keeps it single and gives it the new payload |
| Tables.InsertOwnRow | src/components/StudentTabs/RegistrationForms/ScreeningTestForm.tsx:134-139 | an insert under the student adds exactly one row for them, is what `maybeSingle` finds when they had none, and leaves other students alone |
| Tables.UpdateSingleStudentRow | src/components/StudentTabs/RegistrationForms/PersonalDetailsForm.tsx:67-71 | updating the rows of a student who has a single row keeps it single and gives it the new payload |
| Tables.Table.constructor | src/components/StudentTabs/RegistrationForms/PersonalDetailsForm.tsx:35-39 | a table built from rows with unique ids holds those rows and is valid |
| Tables.Table.Insert | src/components/StudentTabs/RegistrationForms/ExtracurricularForm.tsx:51-54 | one row appended under a fresh id, all earlier rows kept, ids stay unique |
| Tables.Table.InsertAll | src/components/StudentTabs/RegistrationForms/AcademicDetailsForm.tsx:157-161 | a batch insert appends one row per batch element, in order, under the student, earlier rows kept |
| Tables.Table.ReplaceForStudent | src/components/StudentTabs/RegistrationForms/AcademicDetailsForm.tsx:140-161 | delete-then-insert, each step applied only when it goes through |
| Tables.Table.DeleteWithId | src/components/StudentTabs/RegistrationForms/ExtracurricularForm.tsx:70 | the table becomes `WithoutId` of the old rows and stays valid |
| Tables.Table.DeleteForStudent | src/components/StudentTabs/RegistrationForms/AcademicDetailsForm.tsx:140-143 | the table becomes `WithoutStudent` of the old rows and stays valid |
| Tables.Table.UpdateStudentRows | src/components/StudentTabs/RegistrationForms/PersonalDetailsForm.tsx:68-71 | the table becomes `UpdateForStudent` of the old rows and stays valid |
| Tables.Table.UpdateRow | src/components/StudentTabs/RegistrationForms/ScreeningTestForm.tsx:126-133 | the table becomes `UpdateWithId` of the old rows and stays valid |
| Tables.Bucket.constructor | src/components/StudentTabs/RegistrationForms/DocumentUploadForm.tsx:75-79 | the bucket holds the given paths |
| Tables.Bucket.Upload | src/components/StudentTabs/RegistrationForms/IdentityDocumentUpload.tsx:102-104 | an upload without upsert appends its path |
| Tables.Bucket.Upsert | src/components/StudentTabs/RegistrationForms/DocumentUploadForm.tsx:75-79 | an upsert lists its path exactly once whether or not it was there |
| Tables.Bucket.Remove | src/components/StudentTabs/RegistrationForms/IdentityDocumentUpload.tsx:147-149 | removal keeps exactly the other paths |
| Tables.Without | src/components/StudentTabs/RegistrationForms/IdentityDocumentUpload.tsx:147-149 | the removed path is gone and every other path stays |
| Text.TrimStart | src/components/StudentTabs/RegistrationForms/AcademicDetailsForm.tsx:86-91 | drops exactly a blank prefix and leaves text that does not start with white space |
| Text.TrimEnd | src/components/StudentTabs/RegistrationForms/AcademicDetailsForm.tsx:86-91 | drops exactly a blank suffix and leaves text that does not end with white space |
| Text.TrimEmptyIffBlank | src/components/StudentTabs/RegistrationForms/AcademicDetailsForm.tsx:86-91 | `trim()` yields the empty string iff the text is only white space |
| Text.ToLower | src/components/StudentChatbot.tsx:59 | same length, each character lower-cased on its own |
| Text.ToLowerAppend | src/components/StudentChatbot.tsx:59 | lower-casing distributes over concatenation |
| Text.ContainsInContext | src/components/StudentTabs/RegistrationForms/IdentityDocumentUpload.tsx:113 | a substring found in a text is found in any text around it |
| Text.NatToString | src/components/StudentTabs/RegistrationForms/IdentityDocumentUpload.tsx:99 | the rendering of a whole number is a non-empty run of decimal digits |
| Text.NatToStringValue | src/components/StudentTabs/RegistrationForms/IdentityDocumentUpload.tsx:99 | reading the digits back gives the number |
| Text.NatToStringInjective | src/components/StudentTabs/RegistrationForms/IdentityDocumentUpload.tsx:99 | different numbers have different renderings |
| Text.ParseIntOfNatToString | src/components/StudentTabs/RegistrationForms/AcademicDetailsForm.tsx:95-96 | `parseInt` reads back a rendered whole number exactly |
| Text.ParseIntOfDigits | src/components/StudentTabs/RegistrationForms/AcademicDetailsForm.tsx:95-96 | `parseInt` reads a run of decimal digits as its decimal value |
| Text.ParseFloatOfDigits | src/components/StudentTabs/RegistrationForms/AcademicDetailsForm.tsx:99-101 | `parseFloat` reads a run of digits, optionally after `-`, as that (negated) value |
| PersonalDetails.HandleChange | src/components/StudentTabs/RegistrationForms/PersonalDetailsForm.tsx:46-53 | the named input takes `checked` for the checkbox and `value` otherwise; no other input and not the BPL answer changes |
| PersonalDetails.SameInputsSameForm | src/components/StudentTabs/RegistrationForms/PersonalDetailsForm.tsx:11-25 | the inputs and the BPL answer together determine the whole form |
| PersonalDetails.RetypeUnchanged | src/components/StudentTabs/RegistrationForms/PersonalDetailsForm.tsx:46-53 | retyping an input's current value leaves the form as it was |
| PersonalDetails.BplOption | src/components/StudentTabs/RegistrationForms/PersonalDetailsForm.tsx:234 | the select shows "yes" or "no" |
| PersonalDetails.BplRoundTrip | src/components/StudentTabs/RegistrationForms/PersonalDetailsForm.tsx:234-236 | choosing the shown option keeps the answer; for "yes"/"no", showing the chosen answer gives back the option |
| PersonalDetails.HandleBplChange | src/components/StudentTabs/RegistrationForms/PersonalDetailsForm.tsx:235-236 | only "yes" sets the BPL answer, and no input changes |
| PersonalDetails.LoadedForm | src/components/StudentTabs/RegistrationForms/PersonalDetailsForm.tsx:33-44 | the student's single row replaces the form when the lookup went through; without a student id, a single row or an answer the form is kept |
| PersonalDetails.FailedLookupHidesDetails | src/components/StudentTabs/RegistrationForms/PersonalDetailsForm.tsx:33-77 | a save whose lookup failed beside the student's one row leaves two rows, and the load then keeps the form it had |
| PersonalDetails.PersonalDetailsForm.constructor | src/components/StudentTabs/RegistrationForms/PersonalDetailsForm.tsx:11-28 | the form starts empty with no message |
| PersonalDetails.PersonalDetailsForm.LoadPersonalDetails | src/components/StudentTabs/RegistrationForms/PersonalDetailsForm.tsx:33-44 | the form becomes `LoadedForm` of the table |
| PersonalDetails.PersonalDetailsForm.Change | src/components/StudentTabs/RegistrationForms/PersonalDetailsForm.tsx:46-53 | the form becomes `HandleChange` of the old form |
| PersonalDetails.PersonalDetailsForm.ChangeBpl | src/components/StudentTabs/RegistrationForms/PersonalDetailsForm.tsx:234-236 | the form becomes `HandleBplChange` of the old form |
| PersonalDetails.PersonalDetailsForm.HandleSubmit | src/components/StudentTabs/RegistrationForms/PersonalDetailsForm.tsx:55-88 | the success message shows and the parent is told whatever the write answered; when the write went through, from zero rows, or from one row found by a lookup that went through, the student ends with one row holding the form, which loads back as the form; other students untouched |
| PersonalDetails.PersonalDetailsForm.SaveDetails | src/components/StudentTabs/RegistrationForms/PersonalDetailsForm.tsx:61-77 | update when the lookup went through and found exactly one row, insert otherwise: the count grows by one on a successful write unless it was one and the lookup went through; other students untouched |
| RegistrationTab.PersonalCompleteIffRequiredFilled | src/components/StudentTabs/RegistrationTab.tsx:32-34 | the personal test holds iff a row was found whose four required inputs are all non-empty |
| RegistrationTab.RegistrationTab.constructor | src/components/StudentTabs/RegistrationTab.tsx:16-18 | the personal sub-tab is active and both flags start false |
| RegistrationTab.RegistrationTab.CheckCompletion | src/components/StudentTabs/RegistrationTab.tsx:24-45 | each flag becomes its old value or its test on the student's single row, when that lookup went through: raised, never lowered |
| RegistrationTab.RegistrationTab.OnFormUpdate | src/components/StudentTabs/RegistrationTab.tsx:83-86 | a form's update re-checks both flags, each under its own lookup's answer, and calls the parent once |
| RegistrationTab.RegistrationTab.SelectSubTab | src/components/StudentTabs/RegistrationTab.tsx:63 | the clicked sub-tab becomes active |
| RegistrationTab.RegistrationTab.SubTabs | src/components/StudentTabs/RegistrationTab.tsx:47-53 | five distinct sub-tabs; only personal and academic can be ringed, each by its own flag |
| RegistrationTab.SavedDetailsRing | src/components/StudentTabs/RegistrationTab.tsx:32-34 | a saved single row with the four required fields filled rings the personal sub-tab |
| AcademicDetails.With | src/components/StudentTabs/RegistrationForms/AcademicDetailsForm.tsx:69-77 | the edited field takes the value and every other field is unchanged |
| AcademicDetails.RemoveAt | src/components/StudentTabs/RegistrationForms/AcademicDetailsForm.tsx:125-127 | removing index i drops exactly record i and keeps the others in order; an index past the end changes nothing |
| AcademicDetails.CollectErrors | src/components/StudentTabs/RegistrationForms/AcademicDetailsForm.tsx:79-103 | the loop's messages equal `Errors`, section by section |
| AcademicDetails.ErrorsOfLonger | src/components/StudentTabs/RegistrationForms/AcademicDetailsForm.tsx:82-102 | one more section adds its own messages after those before it |
| AcademicDetails.PushRecordErrors | src/components/StudentTabs/RegistrationForms/AcademicDetailsForm.tsx:83-101 | the per-section checks push their messages in the source's order |
| AcademicDetails.RecordErrorsEmptyIffValid | src/components/StudentTabs/RegistrationForms/AcademicDetailsForm.tsx:83-101 | a section adds no message iff it is valid |
| AcademicDetails.RecordErrorsEmptyIffChecksPass | src/components/StudentTabs/RegistrationForms/AcademicDetailsForm.tsx:83-101 | a section adds no message iff each of its six checks passes |
| AcademicDetails.YearCheck | src/components/StudentTabs/RegistrationForms/AcademicDetailsForm.tsx:92-98 | the year checks reject exactly the years outside the accepted range; an empty year is rejected |
| AcademicDetails.MarksCheck | src/components/StudentTabs/RegistrationForms/AcademicDetailsForm.tsx:99-101 | the marks check rejects exactly the marks not accepted |
| AcademicDetails.ErrorsEmptyIffAllValid | src/components/StudentTabs/RegistrationForms/AcademicDetailsForm.tsx:79-106 | the form validates iff every section is valid |
| AcademicDetails.ErrorsEmptyIffAll | src/components/StudentTabs/RegistrationForms/AcademicDetailsForm.tsx:79-106 | the induction over sections behind the previous row |
| AcademicDetails.ErrorsInSectionOrder | src/components/StudentTabs/RegistrationForms/AcademicDetailsForm.tsx:79-106 | every message names a section that exists, and the messages come in section order |
| AcademicDetails.SectionMessagesAppended | src/components/StudentTabs/RegistrationForms/AcademicDetailsForm.tsx:82-101 | one section's checks only append to the messages so far, and every message they append names that section |
| AcademicDetails.AllSplit | src/components/StudentTabs/RegistrationForms/AcademicDetailsForm.tsx:82 | all sections pass iff all before the last do and the last does |
| AcademicDetails.EmptyYearReportedTwice | src/components/StudentTabs/RegistrationForms/AcademicDetailsForm.tsx:92-98 | an empty year yields both the "required" and the "valid year" message |
| AcademicDetails.YearBounds | src/components/StudentTabs/RegistrationForms/AcademicDetailsForm.tsx:95-98 | a digit-written year is accepted iff it lies in [1990, current year], both ends included |
| AcademicDetails.NegativeMarksAccepted | src/components/StudentTabs/RegistrationForms/AcademicDetailsForm.tsx:99-101 | empty marks and negative numbers pass the marks check |
| AcademicDetails.MarksAboveHundredRejected | src/components/StudentTabs/RegistrationForms/AcademicDetailsForm.tsx:99-101 | a number above 100 is rejected |
| AcademicDetails.NonNumericMarksRejected | src/components/StudentTabs/RegistrationForms/AcademicDetailsForm.tsx:99-101 | text with no leading number is rejected |
| AcademicDetails.LevelLabels | src/components/StudentTabs/RegistrationForms/AcademicDetailsForm.tsx:174-183 | the fallback label is given iff the key is not one of the five known ones, whose labels are pairwise distinct |
| AcademicDetails.ToRows | src/components/StudentTabs/RegistrationForms/AcademicDetailsForm.tsx:145-155 | one row per section |
| AcademicDetails.ToRowsAt | src/components/StudentTabs/RegistrationForms/AcademicDetailsForm.tsx:145-155 | the k-th row is the k-th section's mapping |
| AcademicDetails.RecordsOfRows | src/components/StudentTabs/RegistrationForms/AcademicDetailsForm.tsx:52-63 | one loaded section per stored row, each its row's mapping |
| AcademicDetails.YearRoundTrip | src/components/StudentTabs/RegistrationForms/AcademicDetailsForm.tsx:52-63 | an accepted year is stored as a number whose text reads back to it and is accepted again |
| AcademicDetails.MarksRoundTrip | src/components/StudentTabs/RegistrationForms/AcademicDetailsForm.tsx:52-63 | accepted marks, rendered and parsed again, store the same value and are accepted again |
| AcademicDetails.OptionalTextRoundTrip | src/components/StudentTabs/RegistrationForms/AcademicDetailsForm.tsx:52-63 | `|| null` then `|| ''` gives the text back |
| AcademicDetails.ReloadThenSaveStoresSameRow | src/components/StudentTabs/RegistrationForms/AcademicDetailsForm.tsx:44-67 | a valid section, saved, loaded back and saved again, stores the same row and is valid again |
| AcademicDetails.AcademicDetailsForm.constructor | src/components/StudentTabs/RegistrationForms/AcademicDetailsForm.tsx:23-42 | the form starts with exactly one empty section |
| AcademicDetails.AcademicDetailsForm.LoadEducationHistory | src/components/StudentTabs/RegistrationForms/AcademicDetailsForm.tsx:44-67 | when the query went through and the student has stored rows, all with a year, they replace the sections in order and the prompt closes; otherwise the sections stay |
| AcademicDetails.AcademicDetailsForm.HandleRecordChange | src/components/StudentTabs/RegistrationForms/AcademicDetailsForm.tsx:69-77 | only field f of section i changes; length and other sections kept |
| AcademicDetails.AcademicDetailsForm.HandleAddEducation | src/components/StudentTabs/RegistrationForms/AcademicDetailsForm.tsx:108-123 | one empty section appended at the end and the prompt closes |
| AcademicDetails.AcademicDetailsForm.HandleRemoveEducation | src/components/StudentTabs/RegistrationForms/AcademicDetailsForm.tsx:125-127 | the sections become `RemoveAt` of the old ones |
| AcademicDetails.AcademicDetailsForm.ValidateForm | src/components/StudentTabs/RegistrationForms/AcademicDetailsForm.tsx:79-106 | records every message; reports valid iff there were none |
| AcademicDetails.AcademicDetailsForm.SaveRecords | src/components/StudentTabs/RegistrationForms/AcademicDetailsForm.tsx:137-171 | replace-all of the student's rows with one row per section, each step applied only when it goes through; message and parent call depend on the insert |
| AcademicDetails.AcademicDetailsForm.HandleSubmit | src/components/StudentTabs/RegistrationForms/AcademicDetailsForm.tsx:129-172 | an invalid form writes nothing; a valid one does the replace-all save |
| Extracurricular.With | src/components/StudentTabs/RegistrationForms/ExtracurricularForm.tsx:113-137 | the typed input changes and the other two are kept |
| Extracurricular.AddableIffRequiredFilled | src/components/StudentTabs/RegistrationForms/ExtracurricularForm.tsx:44-47 | adding is allowed iff name and description are non-empty; duration is optional |
| Extracurricular.ExtracurricularForm.constructor | src/components/StudentTabs/RegistrationForms/ExtracurricularForm.tsx:18-22 | an empty list and an empty draft |
| Extracurricular.ExtracurricularForm.Load | src/components/StudentTabs/RegistrationForms/ExtracurricularForm.tsx:30-40 | the list becomes exactly the student's rows when the query answers |
| Extracurricular.ExtracurricularForm.ChangeDraft | src/components/StudentTabs/RegistrationForms/ExtracurricularForm.tsx:113-137 | the draft becomes `With` of the old draft |
| Extracurricular.ExtracurricularForm.Add | src/components/StudentTabs/RegistrationForms/ExtracurricularForm.tsx:42-66 | a refused add changes nothing but the message; otherwise one row with the draft is appended when the insert goes through, the draft resets either way, and a reload lists the student's old rows plus the new one |
| Extracurricular.ExtracurricularForm.Delete | src/components/StudentTabs/RegistrationForms/ExtracurricularForm.tsx:68-75 | only the row with that id is deleted; a reload lists the student's old rows without it |
| Achievements.With | src/components/StudentTabs/RegistrationForms/AchievementsForm.tsx:119-142 | the typed input changes and the other two are kept |
| Achievements.AddableIffRequiredFilled | src/components/StudentTabs/RegistrationForms/AchievementsForm.tsx:44-47 | adding is allowed iff the title is non-empty; certificate path and date are optional |
| Achievements.AchievementsForm.constructor | src/components/StudentTabs/RegistrationForms/AchievementsForm.tsx:18-22 | an empty list and an empty draft |
| Achievements.AchievementsForm.Load | src/components/StudentTabs/RegistrationForms/AchievementsForm.tsx:30-40 | the list becomes exactly the student's rows when the query answers |
| Achievements.AchievementsForm.ChangeDraft | src/components/StudentTabs/RegistrationForms/AchievementsForm.tsx:119-142 | the draft becomes `With` of the old draft |
| Achievements.AchievementsForm.Add | src/components/StudentTabs/RegistrationForms/AchievementsForm.tsx:42-66 | a refused add changes nothing but the message; otherwise one row with the draft is appended when the insert goes through, the draft resets either way, and a reload lists the student's old rows plus the new one |
| Achievements.AchievementsForm.Delete | src/components/StudentTabs/RegistrationForms/AchievementsForm.tsx:68-75 | only the row with that id is deleted; a reload lists the student's old rows without it |
| DocumentUpload.FindLabel | src/components/StudentTabs/RegistrationForms/DocumentUploadForm.tsx:205 | no label iff no entry has the value; a found label belongs to an entry with that value |
| DocumentUpload.FindListed | src/components/StudentTabs/RegistrationForms/DocumentUploadForm.tsx:205 | with distinct values every listed value finds its own entry's label |
| DocumentUpload.DocumentTypeValuesDistinct | src/components/StudentTabs/RegistrationForms/DocumentUploadForm.tsx:18-28 | the nine type values are pairwise distinct |
| DocumentUpload.DistinctByLengthOrEighth | src/components/StudentTabs/RegistrationForms/DocumentUploadForm.tsx:18-28 | strings of different lengths, or differing at index 7, differ |
| DocumentUpload.TypeLabels | src/components/StudentTabs/RegistrationForms/DocumentUploadForm.tsx:18-28 | each stored type value shows its own label |
| DocumentUpload.ExtensionIsLastPart | src/components/StudentTabs/RegistrationForms/DocumentUploadForm.tsx:72 | a dot-free suffix of the name, preceded by a dot unless it is the whole name |
| DocumentUpload.ExtensionAfterDot | src/components/StudentTabs/RegistrationForms/DocumentUploadForm.tsx:72 | the text after the last dot is the extension whatever precedes it |
| DocumentUpload.ExtensionWithoutDot | src/components/StudentTabs/RegistrationForms/DocumentUploadForm.tsx:72 | a name without a dot is its own extension |
| DocumentUpload.PathShape | src/components/StudentTabs/RegistrationForms/DocumentUploadForm.tsx:73 | the object path starts with the student's folder and keeps the file's extension |
| DocumentUpload.InsertByTime | src/components/StudentTabs/RegistrationForms/DocumentUploadForm.tsx:43-47 | inserting into a newest-first list keeps it newest first and adds exactly the one document |
| DocumentUpload.Prepend | src/components/StudentTabs/RegistrationForms/DocumentUploadForm.tsx:43-47 | a document no older than the rest may head a newest-first list |
| DocumentUpload.ByNewest | src/components/StudentTabs/RegistrationForms/DocumentUploadForm.tsx:43-47 | the same documents (a permutation), newest first |
| DocumentUpload.DocumentUploadForm.constructor | src/components/StudentTabs/RegistrationForms/DocumentUploadForm.tsx:31-35 | nothing selected, no documents, no message |
| DocumentUpload.DocumentUploadForm.LoadDocuments | src/components/StudentTabs/RegistrationForms/DocumentUploadForm.tsx:41-52 | the list becomes the student's documents newest first when the query answers |
| DocumentUpload.DocumentUploadForm.HandleFileSelect | src/components/StudentTabs/RegistrationForms/DocumentUploadForm.tsx:54-59 | the first chosen file, if any, becomes the selection |
| DocumentUpload.DocumentUploadForm.SelectType | src/components/StudentTabs/RegistrationForms/DocumentUploadForm.tsx:18-28 | the chosen type becomes the selection |
| DocumentUpload.DocumentUploadForm.HandleUpload | src/components/StudentTabs/RegistrationForms/DocumentUploadForm.tsx:61-106 | without file, type or student only the message changes; a storage error inserts no row; success appends the row, resets the selection and tells the parent; every recorded document keeps its object |
| DocumentUpload.DocumentUploadForm.Submit | src/components/StudentTabs/RegistrationForms/DocumentUploadForm.tsx:70-105 | the object is stored under the document's path when the upload goes through; the row is recorded and the form reset only when the insert goes through too; any failure leaves the table, the form and the list alone and shows the failure message |
| DocumentUpload.DocumentUploadForm.Record | src/components/StudentTabs/RegistrationForms/DocumentUploadForm.tsx:81-98 | the row is appended after its object is stored, and the form resets |
| DocumentUpload.DocumentUploadForm.HandleDelete | src/components/StudentTabs/RegistrationForms/DocumentUploadForm.tsx:108-127 | nothing happens unless confirmed; then only the row with that id is deleted and the stored object stays |
| IdentityDocumentUpload.ValidateFile | src/components/StudentTabs/RegistrationForms/IdentityDocumentUpload.tsx:32-40 | valid iff a PDF of at most 5 MiB; the type error wins whenever the type is wrong |
| IdentityDocumentUpload.SizeBoundary | src/components/StudentTabs/RegistrationForms/IdentityDocumentUpload.tsx:36-39 | 5242880 bytes pass, 5242881 fail on size, and a wrong type fails on type first |
| IdentityDocumentUpload.DocumentType | src/components/StudentTabs/RegistrationForms/IdentityDocumentUpload.tsx:113 | 'aadhar' iff the lower-cased name contains "aadhar", else 'pan' |
| IdentityDocumentUpload.AadharInAnyCase | src/components/StudentTabs/RegistrationForms/IdentityDocumentUpload.tsx:113 | "aadhar" in any mix of ASCII cases anywhere in the name is classed aadhar |
| IdentityDocumentUpload.StoragePath | src/components/StudentTabs/RegistrationForms/IdentityDocumentUpload.tsx:99-100 | the folder, student id, timestamp and name joined by '-' |
| IdentityDocumentUpload.DistinctTimestamps | src/components/StudentTabs/RegistrationForms/IdentityDocumentUpload.tsx:99-100 | the same file uploaded at two different times gets two different paths |
| IdentityDocumentUpload.StoreThenRecord | src/components/StudentTabs/RegistrationForms/IdentityDocumentUpload.tsx:102-123 | storing the object before recording its row keeps every row's file in the bucket |
| IdentityDocumentUpload.RemoveWithoutDelete | src/components/StudentTabs/RegistrationForms/IdentityDocumentUpload.tsx:145-154 | removing an object whose row then stays leaves a row without its file |
| IdentityDocumentUpload.IdentityDocumentUpload.constructor | src/components/StudentTabs/RegistrationForms/IdentityDocumentUpload.tsx:10-14 | nothing selected, no documents, no message |
| IdentityDocumentUpload.IdentityDocumentUpload.LoadUploadedDocuments | src/components/StudentTabs/RegistrationForms/IdentityDocumentUpload.tsx:20-30 | the list becomes the student's rows when the query answers |
| IdentityDocumentUpload.IdentityDocumentUpload.HandleFileSelect | src/components/StudentTabs/RegistrationForms/IdentityDocumentUpload.tsx:67-81 | a valid file becomes the selection with no message; an invalid one only sets its error message |
| IdentityDocumentUpload.IdentityDocumentUpload.HandleUpload | src/components/StudentTabs/RegistrationForms/IdentityDocumentUpload.tsx:83-143 | no-op without selection or student; a missing input file, a storage error or an insert error stops at that step with its message; full success records the row and clears the selection |
| IdentityDocumentUpload.IdentityDocumentUpload.StoreAndRecord | src/components/StudentTabs/RegistrationForms/IdentityDocumentUpload.tsx:99-135 | upload, then insert only after a successful upload, each failure with its own message |
| IdentityDocumentUpload.IdentityDocumentUpload.Record | src/components/StudentTabs/RegistrationForms/IdentityDocumentUpload.tsx:115-135 | the row for the stored object is appended and the selection cleared |
| IdentityDocumentUpload.IdentityDocumentUpload.HandleRemoveDocument | src/components/StudentTabs/RegistrationForms/IdentityDocumentUpload.tsx:145-163 | the object is removed and then the row, each only when it goes through; the success message shows either way |
| ScreeningTest.QuestionShape | src/components/StudentTabs/RegistrationForms/ScreeningTestForm.tsx:15-66 | ten questions numbered 1 to 10, four options each |
| ScreeningTest.Indices | src/components/StudentTabs/RegistrationForms/ScreeningTestForm.tsx:117 | the set of question indices 0..n-1 has n elements |
| ScreeningTest.TenKeysIffAllAnswered | src/components/StudentTabs/RegistrationForms/ScreeningTestForm.tsx:117 | with answers filed under question indices, ten keys iff every question is answered |
| ScreeningTest.KeyCountIffAll | src/components/StudentTabs/RegistrationForms/ScreeningTestForm.tsx:117 | the general form of the previous row for n questions |
| ScreeningTest.SubsetOfSameSize | src/components/StudentTabs/RegistrationForms/ScreeningTestForm.tsx:117 | a subset of the same size is the whole set |
| ScreeningTest.ScreeningTestForm.constructor | src/components/StudentTabs/RegistrationForms/ScreeningTestForm.tsx:69-71 | the cursor starts at 0, no answers, not completed |
| ScreeningTest.ScreeningTestForm.LoadTestData | src/components/StudentTabs/RegistrationForms/ScreeningTestForm.tsx:78-95 | a row found by a lookup that went through contributes its answers when not null and its completed flag when set; otherwise nothing changes |
| ScreeningTest.ScreeningTestForm.HandleAnswerChange | src/components/StudentTabs/RegistrationForms/ScreeningTestForm.tsx:97-102 | only the current question's answer changes, to the chosen option's text |
| ScreeningTest.ScreeningTestForm.HandleNext | src/components/StudentTabs/RegistrationForms/ScreeningTestForm.tsx:104-108 | the cursor moves up below 9 and stays in [0, 9] |
| ScreeningTest.ScreeningTestForm.HandlePrevious | src/components/StudentTabs/RegistrationForms/ScreeningTestForm.tsx:110-114 | the cursor moves down above 0 and stays in [0, 9] |
| ScreeningTest.ScreeningTestForm.JumpTo | src/components/StudentTabs/RegistrationForms/ScreeningTestForm.tsx:243 | a numbered button puts the cursor on its question |
| ScreeningTest.ScreeningTestForm.HandleSubmit | src/components/StudentTabs/RegistrationForms/ScreeningTestForm.tsx:116-147 | nothing happens unless all ten are answered; then completed is set and the student's row count grows by one on a successful write unless it was one and the lookup went through; after a successful write from zero rows, or from one row the lookup found, the student's single row holds the answers and the completed flag; other students untouched |
| ScreeningTest.ScreeningTestForm.SaveAnswers | src/components/StudentTabs/RegistrationForms/ScreeningTestForm.tsx:119-140 | update by the found row's id, insert otherwise: the count grows by one on a successful write unless it was one and the lookup went through; other students untouched |
| StudentChatbot.FirstMatch | src/components/StudentChatbot.tsx:61-78 | the first rule from i on with a keyword in the text: no earlier rule matches |
| StudentChatbot.TopicIsFirstMatch | src/components/StudentChatbot.tsx:58-81 | the reply is the topic of the first matching rule in table order, the fallback when none matches |
| StudentChatbot.OneKeyword | src/components/StudentChatbot.tsx:61 | a one-keyword rule matches iff the text contains it |
| StudentChatbot.TwoKeywords | src/components/StudentChatbot.tsx:64 | a two-keyword rule matches iff the text contains either |
| StudentChatbot.CaseInsensitive | src/components/StudentChatbot.tsx:59 | a text and its lower-cased form get the same reply |
| StudentChatbot.CountFrom | src/components/StudentChatbot.tsx:98-113 | the number of entries from one sender is at most the log's length |
| StudentChatbot.StudentChatbot.constructor | src/components/StudentChatbot.tsx:17-25 | the log is exactly the greeting and the input is empty |
| StudentChatbot.StudentChatbot.OfferedSuggestions | src/components/StudentChatbot.tsx:116-120 | the first two suggestions are offered iff the log holds only the greeting |
| StudentChatbot.StudentChatbot.HandleInputChange | src/components/StudentChatbot.tsx:25 | the input takes the typed text |
| StudentChatbot.StudentChatbot.IsBlankAfterTrim | src/components/StudentChatbot.tsx:35 | the trimmed text is empty iff the text is only white space |
| StudentChatbot.StudentChatbot.HandleSendMessage | src/components/StudentChatbot.tsx:34-56 | blank text changes nothing; otherwise the untrimmed text is logged once, the input is cleared and a reply is scheduled |
| StudentChatbot.StudentChatbot.DeliverBotResponse | src/components/StudentChatbot.tsx:47-55 | the earliest scheduled reply is logged with `getBotResponse` of its text |
| StudentChatbot.RepliesBalance | src/components/StudentChatbot.tsx:34-56 | once every reply has arrived the log holds one more bot entry than user entries |
| StudentLandingPage.NavItems | src/components/StudentLandingPage.tsx:86-122 | five entries |
| StudentLandingPage.Gating | src/components/StudentLandingPage.tsx:86-122 | registration and status are always reachable; onboarding iff registration complete, training iff onboarding complete, placement iff training complete; nothing else |
| StudentLandingPage.CompletedMarks | src/components/StudentLandingPage.tsx:86-122 | each entry's mark is its own stage's flag; the status entry is never marked |
| StudentLandingPage.IdentificationIgnored | src/components/StudentLandingPage.tsx:86-122 | the identification flag affects no entry |
| StudentLandingPage.InitiallyLocked | src/components/StudentLandingPage.tsx:31-37 | with the initial progress, onboarding, training and placement are locked |
| StudentLandingPage.SidebarAndLadderDisagree | src/components/StudentLandingPage.tsx:101-107 | with only registration complete the sidebar opens onboarding while the ladder shows it Locked |
| StudentLandingPage.SingleHighlight | src/components/StudentLandingPage.tsx:144-148 | exactly one entry is highlighted when the active section is one of the five |
| StudentLandingPage.StudentLandingPage.constructor | src/components/StudentLandingPage.tsx:29-39 | registration active, the default name, no progress, loading |
| StudentLandingPage.StudentLandingPage.LoadStudentData | src/components/StudentLandingPage.tsx:45-84 | without user or profile only loading ends; otherwise the name is replaced only by a non-empty first name, the e-mail always (or ''), the progress only by a found row |
| StudentLandingPage.StudentLandingPage.ClickNavItem | src/components/StudentLandingPage.tsx:144-148 | the click applies `AfterClick`; a change of section lands on a reachable one |
| SidebarNav.OnClick | src/components/DesktopLayout/SidebarNav.tsx:24 | a section is requested iff the entry is enabled, and it is that entry's id |
| SidebarNav.Render | src/components/DesktopLayout/SidebarNav.tsx:21-39 | one button per entry, each drawn from its entry |
| SidebarNav.ClickGuard | src/components/DesktopLayout/SidebarNav.tsx:24-25 | a disabled entry leaves the section; an enabled one makes its id active |
| SidebarNav.ClicksReachOnlyEnabled | src/components/DesktopLayout/SidebarNav.tsx:24 | after any clicks the section is the starting one or an enabled entry's id |
| SidebarNav.Markers | src/components/DesktopLayout/SidebarNav.tsx:27-37 | lock iff disabled, check iff completed, highlight iff the id is active |
| SidebarNav.AtMostOneHighlighted | src/components/DesktopLayout/SidebarNav.tsx:27 | with distinct ids, exactly one button is highlighted if the active id is an entry, none otherwise |
| ApplicationStatus.FlagCount | src/components/StudentSections/ApplicationStatusSection.tsx:49-51 | at most five flags are set |
| ApplicationStatus.Stages | src/components/StudentSections/ApplicationStatusSection.tsx:16-47 | five stages, each completed by its own flag and numbered 1 to 5 |
| ApplicationStatus.CompletedCount | src/components/StudentSections/ApplicationStatusSection.tsx:50 | at most the number of stages |
| ApplicationStatus.StageOrder | src/components/StudentSections/ApplicationStatusSection.tsx:16-47 | Registration, Identification, Onboarding, Training, Placement in that order |
| ApplicationStatus.CompletedCountIsFlagCount | src/components/StudentSections/ApplicationStatusSection.tsx:49-51 | the completed stages are counted by the set flags |
| ApplicationStatus.PercentageIsTwentyPerStage | src/components/StudentSections/ApplicationStatusSection.tsx:49-51 | the percentage is 20 per set flag, in [0, 100] |
| ApplicationStatus.StatusByFlags | src/components/StudentSections/ApplicationStatusSection.tsx:101-113 | Completed iff the flag; In Progress iff not it and first or predecessor complete; Locked otherwise |
| ApplicationStatus.FirstStageNeverLocked | src/components/StudentSections/ApplicationStatusSection.tsx:103-107 | the first stage is never Locked |
| ApplicationStatus.OnboardingFollowsIdentification | src/components/StudentSections/ApplicationStatusSection.tsx:23-34 | onboarding's label ignores the registration flag and is Locked while identification and onboarding are not complete |
| ApplicationStatus.SingleStageInProgress | src/components/StudentSections/ApplicationStatusSection.tsx:101-113 | with flags set in ladder order, exactly one stage is In Progress until all are complete, then none |
| App.Role | src/App.tsx:68-101 | student dashboard iff the profile lookup went through and found exactly one profile; admin dashboard iff not that and the admin lookup went through and found exactly one admin row; none otherwise or without a user |
| App.FailedProfileLookupOpensAdmin | src/App.tsx:72-93 | a user with one profile and one admin row reaches the student dashboard, but the admin dashboard when the profile lookup fails |
| App.DuplicateProfileLocksOutStudent | src/App.tsx:72-82 | a second profile row for a user who had one takes the student dashboard away |
| App.StudentPrecedence | src/App.tsx:78-82 | a user with one profile, found by a lookup that went through, goes to the student dashboard whatever the admin table holds or answers |
| App.App.constructor | src/App.tsx:12-14 | the home page, loading, the first image |
| App.App.Rendered | src/App.tsx:25-54 | the configuration page iff a setting is missing; otherwise loading screen while loading, else the current page |
| App.App.CheckAuthState | src/App.tsx:68-101 | loading ends on every path; the page becomes the user's dashboard when there is one and no lookup threw, and stays otherwise |
| App.App.HandleLogout | src/App.tsx:103-106 | the page returns home |
| App.App.OpenLogin | src/App.tsx:187-195 | a login card opens its own login page |
| App.App.GoBack | src/App.tsx:130-139 | going back returns home |
| App.App.LoginSuccess | src/App.tsx:131-140 | each login page's success opens its own dashboard |
| App.App.Tick | src/App.tsx:60-66 | the index advances by one modulo 3 and stays below 3 |
| App.ImageAfter | src/App.tsx:60-66 | the index after k ticks is below 3 |
| App.ImageAfterIsModulo | src/App.tsx:62 | the index after k ticks is k mod 3 |
| StudentLogin.ErrorText | src/components/StudentLogin.tsx:78 | an empty error message is replaced by the fixed text, any other is kept |
| StudentLogin.PairedAfterBoth | src/components/StudentLogin.tsx:31-42 | adding a profile row, then possibly a progress row for the same user, keeps every progress row paired with a profile |
| StudentLogin.UnpairedProgress | src/components/StudentLogin.tsx:64-71 | a progress row added for a user without a profile breaks the pairing |
| StudentLogin.StudentLoginForm.constructor | src/components/StudentLogin.tsx:11-15 | empty credentials, no message, sign-in mode |
| StudentLogin.StudentLoginForm.HandleSubmit | src/components/StudentLogin.tsx:17-82 | loading ends; the sign-up or sign-in outcome holds; pairing is kept unless a sign-in profile insert fails while its progress insert succeeds |
| StudentLogin.StudentLoginForm.SignUp | src/components/StudentLogin.tsx:23-48 | auth error, profile error, progress error each stop with that message and no later insert; success inserts profile then progress and clears the credentials |
| StudentLogin.StudentLoginForm.SignIn | src/components/StudentLogin.tsx:49-76 | an auth error sets its message and nothing else; a user with exactly one profile, found by a lookup that went through, is let through with no insert; otherwise, including when the lookup fails, profile and progress inserts are attempted and the user is let through |
| StudentLogin.StudentLoginForm.ToggleMode | src/components/StudentLogin.tsx:15 | the sign-up flag flips |

## Left out

- Backend calls. Supabase auth, queries, inserts, updates, deletes and storage calls are
  not executed. Whether each call went through is a method parameter. The rows a
  successful query returns are computed from the tables, which are in-memory sequences.
- Concurrency. The check-then-write saves are not atomic. Concurrent sessions, network
  latency and interleaved handlers are not modelled.
- Rendering. CSS classes, icons, JSX layout and the drag-and-drop events are left out;
  the drop handler feeds the same file selection as the input.
- Effect scheduling. `useEffect` runs are modelled as explicit method calls.
- Timers. The message auto-clear timers, the two-second return to sign-in after sign-up,
  the carousel interval (modelled as `App.App.Tick`) and the chatbot's 500 ms reply delay
  (modelled as a queue of pending replies delivered by
  `StudentChatbot.StudentChatbot.DeliverBotResponse`) run when the model calls them.
- DOM access. The file input and `confirm` become boolean parameters.
- The clock. `Date.now()` and the current year are parameters. The chatbot's message
  timestamps are not modelled.
- Number formatting. `formatFileSize` (`DocumentUploadForm.tsx:129-135`) is left out, as
  it uses floating-point logarithms.
- Floating point. `parseFloat` is modelled over exact reals, with no IEEE double
  rounding. The engine's rendering of a stored number is a parameter assumed to read
  back exactly.
- Lower-casing covers the ASCII letters only.
- Google OAuth sign-in, `AdminLogin`, `AdminDashboard`, `RegistrationSection` and the
  static sections and tabs are left out.
- Stored rows carry only the columns the forms use. Ids, `created_at`/`updated_at`
  stamps, backend column defaults and the extra columns a `select('*')` returns are
  dropped.
- The academic load orders rows by insertion, standing for `created_at`. Documents
  sharing an `uploaded_at` keep table order.
- PersonalDetails.PersonalDetailsForm.HandleSubmit: the "Error saving details" branch is
  not modelled. It runs only when a call throws, and supabase reports write errors in
  its answer instead.
- AcademicDetails.LevelLabels: `labels[level] || 'Education'` on a key such as
  `toString` or `constructor` would return a member the object inherits. The model
  gives the fallback label for every key outside the five. The levels come from the
  select's fixed options, so such a key does not reach this code.
- StudentLogin.StudentLoginForm.SignUp: the two-second timer that switches back to sign-in
  mode is not modelled, so `isSignUp` stays set after a sign-up.
- App.App.Rendered: in the source, the configuration page is returned before the effect
  hooks are registered, so with a missing setting the auth check and the carousel never
  start. The model states only what is rendered.
