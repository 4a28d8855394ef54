# Clinic booking core, modelled in Dafny

This project models the service layer of a Spring clinic backend. The backend has three roles: admin, doctor and patient.

- **Tokens.** Login issues an HS256 JSON Web Token whose subject is the login identifier. `TokenService` also checks a token for a role: the identifier must name exactly one row of that role's table.
- **Doctors.** `DoctorService` computes a doctor's free slots on a date. Free slots are the template entries (`availableTimes`) minus the times of day already booked that date. It also runs the doctor searches (name, specialty, AM/PM) and saves, updates and deletes doctors, cascading the delete to their appointments.
- **Appointments.** `AppointmentService` validates a booking: references present and resolvable, a time not in the past, and no appointment of the same doctor on the same date starting less than an hour away. It books, updates and cancels appointments; only the booked patient may cancel. It also lists a doctor's day.
- **Patients.** `PatientService` lists a patient's own appointments, filtered by condition (past or future) and doctor name.
- **Service.** `Service` holds the cross-cutting checks: token replies, admin and patient login, the registration check, the search dispatch, and the template check of a requested time.
- **Booking endpoint.** The endpoint `POST /appointments/{token}` of `AppointmentController` chains the token check, the template check and the validator.

## How the model is built

- **Store.** The database is a value `Repository.Db`: tables as sequences in insertion order, plus one id counter. The repositories are a mutable class `Repository.Store` whose methods replace the state with the value a state-update function computes. `save` is an upsert: a present, stored id is overwritten; anything else is inserted under a fresh id. A single-result finder that sees two rows is `Ambiguous`, standing for Spring's `IncorrectResultSizeDataAccessException`. Thrown exceptions that Spring turns into a 500 are the reply `Threw`.
- **Time.** Appointment times are whole minutes since an epoch. A date is a whole number of days. `LocalTime.toString()` is `"HH:mm"` (`Clock.TimeString`). The current instant is a parameter `now` (whole minutes). The token clock is a separate parameter `Env.nowMs` (milliseconds).
- **Tokens.** Signatures are symbolic: a token verifies under a key exactly when its signature is the MAC of its own claims under that key. A JWT NumericDate is whole seconds.
- **Strings.** Text follows `java.lang.String`. `trim()` removes characters up to U+0020. `isBlank()` tests Java whitespace. Upper and lower case are ASCII only.
- **Style.** Operations with loops in the source are methods with loop invariants, proved equal to a specification function, and the lemmas are stated about that function. This covers the availability computation, the `removeIf` on an array, the AM/PM filter and the validator's overlap scan. Straight-line decisions are functions.

- **Controller service.** `AppointmentController` holds its checks in a field `clinicService` of type `ClinicService` (`AppointmentController.java:6`, `:19`, `:55`, `:61`). `ClinicService` is not part of this model. The model takes its `validateToken` and `validateAppointment` to be those of `Service` (`Service.ValidateTokenReply`, `Service.SlotCheck`).

### Behaviour of the code worth knowing

- **Availability removes only exact matches.** The `removeIf` compares only the trimmed entry with the booked `"HH:mm"` strings, although the variable holding it is named `normalized` (`DoctorService.java:51-54`). The template check, by contrast, passes each entry through `normalizeSlot` before comparing (`Service.java:161`). So an entry written `"9:00"`, `"09:00 AM"` or `"09:00 PM"` is never removed by a booking, yet a request for that booked time still matches it (`Service.NonCanonicalEntryIgnoresBookings`). The validator's overlap scan still refuses such a double booking (`Schedule.BookingKeepsScheduleFree`). With a template written entirely as `"HH:mm"`, the template check alone already refuses it (`Service.CanonicalTemplateNoDoubleBooking`).
- **No 12-hour conversion.** Normalisation drops the AM/PM suffix without converting to 24-hour time, so `"02:00 PM"` stands for 02:00 (`Service.AfternoonNotShifted`).
- **Same-date overlap scan only.** It compares appointments on the same calendar date only, so 23:30 and 00:10 the next day never conflict (`AppointmentService.AcrossMidnightAccepted`).
- **Unreadable token on cancel.** An unreadable token makes the extracted identifier null instead of raising, so it answers 403 rather than 401 (`AppointmentService.BadTokenIsForbidden`).

## Model

| member | source | states |
|---|---|---|
| TokenService.GenerateToken | app/src/main/java/com/project/back_end/services/TokenService.java:37-47 | the token carries the identifier as subject, the issue second of the clock, and an expiry seven days later |
| TokenService.ExtractIdentifier | app/src/main/java/com/project/back_end/services/TokenService.java:50-61 | a non-null identifier comes only from a well-formed token and is that token's subject |
| TokenService.ValidateToken | app/src/main/java/com/project/back_end/services/TokenService.java:69-83 | definition: false without an identifier or a role; otherwise, by the lower-cased role, whether exactly one admin (username), doctor or patient (email) row has the identifier; false for any other role. Its lemmas follow |
| TokenService.ExtractEmail | app/src/main/java/com/project/back_end/services/TokenService.java:64-66 | definition: the same answer as `extractIdentifier`. Its meaning is `RoundTrip` and `ExtractIdentifier` |
| TokenService.TokenLifetime | app/src/main/java/com/project/back_end/services/TokenService.java:37-47 | expiry minus issue time is exactly 604800 seconds, whatever the clock's millisecond part |
| TokenService.RoundTrip | app/src/main/java/com/project/back_end/services/TokenService.java:37-61 | extracting from a generated token gives back the identifier up to the expiry second and null after it |
| TokenService.TokenWindow | app/src/main/java/com/project/back_end/services/TokenService.java:37-61 | a token is honoured for at least seven days less one second and never beyond seven days |
| TokenService.ForeignKeyRejected | app/src/main/java/com/project/back_end/services/TokenService.java:50-61 | a token signed with another secret yields null; this restates the assumption built into the symbolic signature, not a property of the service |
| TokenService.TamperedRejected | app/src/main/java/com/project/back_end/services/TokenService.java:50-61 | changing any claim of a signed token makes it yield null; like the previous row, an assumption about the signature, not a property of the service |
| TokenService.DoctorTokenNamesOneDoctor | app/src/main/java/com/project/back_end/services/TokenService.java:69-83 | a token valid for "doctor" names the email of a stored doctor |
| TokenService.DuplicateDoctorRefused | app/src/main/java/com/project/back_end/services/TokenService.java:69-83 | two doctors sharing the subject email make the token invalid for "doctor" |
| TokenService.RoleIgnoresCase | app/src/main/java/com/project/back_end/services/TokenService.java:69-83 | role names that agree ignoring case give the same verdict |
| TokenService.PatientTokenOnlyForPatients | app/src/main/java/com/project/back_end/services/TokenService.java:69-83 | a subject that is no doctor's email and no admin's username is refused for both of those roles |
| TokenService.UnknownRoleRefused | app/src/main/java/com/project/back_end/services/TokenService.java:69-83 | any role other than admin, doctor or patient is refused |
| TokenService.NoIdentifierRefused | app/src/main/java/com/project/back_end/services/TokenService.java:69-83 | without a role or without a readable identifier the answer is false |
| JavaText.IsBlank | app/src/main/java/com/project/back_end/services/Service.java:248-250 | definition of the shared `isBlank` (also DoctorService.java:230-232): null, empty after trim, or "null" in any letter case after trim |
| JavaText.IsBlankCharacterised | app/src/main/java/com/project/back_end/services/DoctorService.java:230-232 | `isBlank` holds exactly for null, for text made only of characters up to U+0020, and for text that trims to "null" in any letter case |
| Clock.TimeStringInjective | app/src/main/java/com/project/back_end/services/DoctorService.java:44-49 | distinct times of day give distinct booked-slot strings |
| Repository.ToDto | app/src/main/java/com/project/back_end/services/AppointmentService.java:224-240 | the DTO keeps id, time and status; doctor id and name are those of the resolved doctor, patient id, name, email, phone and address those of the resolved patient, and all of them are null where that reference does not resolve |
| Repository.ToDtos | app/src/main/java/com/project/back_end/services/AppointmentService.java:165-167 | the DTO list has one entry per row, in row order |
| Repository.PatientByEmail | app/src/main/java/com/project/back_end/services/PatientService.java:145-153 | a unique result is a stored patient with that email; absent exactly when no patient has it |
| Repository.PatientByEmailOrPhone | app/src/main/java/com/project/back_end/services/Service.java:167-176 | absent exactly when no patient shares the email or the phone |
| Repository.AppointmentSavedValid | app/src/main/java/com/project/back_end/services/AppointmentService.java:33-44 | saving an appointment keeps ids distinct and below the id counter |
| Repository.AppointmentSavedFindable | app/src/main/java/com/project/back_end/services/AppointmentService.java:33-44 | a saved appointment is found again under its own id, or under the fresh id it received |
| Repository.AppointmentSavedKeepsOthers | app/src/main/java/com/project/back_end/services/AppointmentService.java:66-69 | saving leaves every row with another id in place |
| Repository.AppointmentDeletedValid | app/src/main/java/com/project/back_end/services/AppointmentService.java:109-112 | deleting keeps the id invariant |
| Repository.AppointmentDeletedExactly | app/src/main/java/com/project/back_end/services/AppointmentService.java:109-112 | deleting by id removes exactly the rows with that id |
| Repository.DoctorSavedValid | app/src/main/java/com/project/back_end/services/DoctorService.java:60-86 | saving a doctor keeps the id invariant |
| Repository.PatientSavedValid | app/src/main/java/com/project/back_end/services/PatientService.java:28-35 | saving a patient keeps the id invariant |
| Repository.DoctorRemovedValid | app/src/main/java/com/project/back_end/services/DoctorService.java:92-104 | the delete cascade keeps the id invariant |
| Repository.Store.SaveAppointment | app/src/main/java/com/project/back_end/services/AppointmentService.java:39 | the new store is the old one with the appointment saved |
| Repository.Store.DeleteAppointment | app/src/main/java/com/project/back_end/services/AppointmentService.java:110 | the new store is the old one with that appointment deleted |
| Repository.Store.DeleteAllByDoctorId | app/src/main/java/com/project/back_end/services/DoctorService.java:92-104 | the new store has the doctor's appointments deleted |
| Repository.Store.SaveDoctor | app/src/main/java/com/project/back_end/services/DoctorService.java:60-86 | the new store is the old one with the doctor saved |
| Repository.Store.DeleteDoctorById | app/src/main/java/com/project/back_end/services/DoctorService.java:92-104 | the new store has the doctor deleted |
| Repository.Store.SavePatient | app/src/main/java/com/project/back_end/services/PatientService.java:28-35 | the new store is the old one with the patient saved |
| AppointmentService.ValidationError | app/src/main/java/com/project/back_end/services/AppointmentService.java:175-222 | definition: the first failing check message in source order, or null. `ValidateAppointment` computes it; `ValidationMessages` and `ValidationPasses` state its meaning |
| AppointmentService.ValidateAppointment | app/src/main/java/com/project/back_end/services/AppointmentService.java:175-222 | the checks in order plus the overlap loop give exactly the specification `ValidationError` |
| AppointmentService.ValidationMessages | app/src/main/java/com/project/back_end/services/AppointmentService.java:175-222 | the validator answers null or one of its eight messages |
| AppointmentService.NowIsNotPast | app/src/main/java/com/project/back_end/services/AppointmentService.java:187-189 | a time equal to now is not reported as past |
| AppointmentService.NoDoctorReported | app/src/main/java/com/project/back_end/services/AppointmentService.java:176-180 | a request without a doctor id is refused with "Doctor is required" |
| AppointmentService.PastTimeReportedBeforeLookups | app/src/main/java/com/project/back_end/services/AppointmentService.java:181-195 | a past time is reported before the doctor and patient lookups |
| AppointmentService.OverlapsWithinHour | app/src/main/java/com/project/back_end/services/AppointmentService.java:197-215 | two one-hour slots overlap exactly when their starts are less than an hour apart, symmetrically |
| AppointmentService.ValidationPasses | app/src/main/java/com/project/back_end/services/AppointmentService.java:175-222 | a request passes exactly when references are present and resolve, the time is not past, and no compared same-doctor same-date appointment starts within an hour |
| AppointmentService.OtherDateNeverBlocks | app/src/main/java/com/project/back_end/services/AppointmentService.java:201-205 | an appointment on another date is never compared |
| AppointmentService.AcrossMidnightAccepted | app/src/main/java/com/project/back_end/services/AppointmentService.java:198-219 | a booking at 00:10 passes beside one at 23:30 the previous day although their hours overlap |
| AppointmentService.UpdateIsInsertWithoutOwnRecord | app/src/main/java/com/project/back_end/services/AppointmentService.java:207-210 | validating an update equals validating an insert into the store without the updated record |
| AppointmentService.BookAppointment | app/src/main/java/com/project/back_end/services/AppointmentService.java:33-44 | answers 1 and saves exactly when the validator passes; otherwise 0 and the store is unchanged |
| AppointmentService.UpdateReply | app/src/main/java/com/project/back_end/services/AppointmentService.java:46-74 | definition of the answer of `updateAppointment`: 400 without an id, 404 for an unknown id, 400 with the validator message, else 200. Its meaning is `UpdateOutcomes` |
| AppointmentService.UpdateAppointment | app/src/main/java/com/project/back_end/services/AppointmentService.java:46-74 | answers `UpdateReply` and overwrites the record exactly when that answer is 200 |
| AppointmentService.UpdateOutcomes | app/src/main/java/com/project/back_end/services/AppointmentService.java:46-74 | 200 exactly for a stored id whose request validates with its own record skipped; only 200, 400 or 404; no id is consumed |
| AppointmentService.CancelReply | app/src/main/java/com/project/back_end/services/AppointmentService.java:76-117 | definition of the answer of `cancelAppointment`: 401 without a token, 404 for an unknown id, 400 without patient email, 403 when the email differs ignoring case, else 200. Its meaning is `CancelOnlyByOwner` and `BadTokenIsForbidden` |
| AppointmentService.CancelAppointment | app/src/main/java/com/project/back_end/services/AppointmentService.java:76-117 | answers `CancelReply` and deletes exactly when that answer is 200 |
| AppointmentService.BadTokenIsForbidden | app/src/main/java/com/project/back_end/services/AppointmentService.java:93-103 | a present but unreadable token on an appointment with a patient email gets 403 |
| AppointmentService.CancelOnlyByOwner | app/src/main/java/com/project/back_end/services/AppointmentService.java:92-103 | a 200 cancel means the token's subject equals the booked patient's email ignoring case |
| AppointmentService.CancelOwnerIff | app/src/main/java/com/project/back_end/services/AppointmentService.java:92-104 | for a present token and an existing appointment with a patient email, the cancel answers 200 exactly when the token subject equals that email ignoring case, and 403 in every other case |
| AppointmentService.CancelDeletesOne | app/src/main/java/com/project/back_end/services/AppointmentService.java:109-112 | a successful cancel removes that appointment and keeps every other |
| AppointmentService.GetAppointment | app/src/main/java/com/project/back_end/services/AppointmentService.java:119-171 | definition of `getAppointment`: an empty list with a message for a missing token or date or an unresolved doctor, else the DTOs of that doctor that day, filtered by patient name when one is given. Its meaning is `ListingIsDoctorsDay`, `UnfilteredListingIsComplete` and `FilteredListingMembers` |
| AppointmentService.ListingErrorsAreEmpty | app/src/main/java/com/project/back_end/services/AppointmentService.java:119-147 | every error answer carries an empty list |
| AppointmentService.ListingIsDoctorsDay | app/src/main/java/com/project/back_end/services/AppointmentService.java:119-171 | a listing holds only appointments of the token's doctor on the requested date |
| AppointmentService.UnfilteredListingIsComplete | app/src/main/java/com/project/back_end/services/AppointmentService.java:149-169 | without a patient filter every such appointment is listed |
| AppointmentService.FilteredListingMembers | app/src/main/java/com/project/back_end/services/AppointmentService.java:153-165 | with a patient filter, the listing is the DTOs of exactly the appointments of the token doctor on that date whose resolved patient name contains the filter ignoring case |
| AppointmentService.NullWordMeansNoFilter | app/src/main/java/com/project/back_end/services/AppointmentService.java:153 | a blank name or "null" in any case lists the same as no name |
| DoctorService.BookedTimesMembers | app/src/main/java/com/project/back_end/services/DoctorService.java:44-49 | a string is booked exactly when some appointment's time of day is that string |
| DoctorService.CollectBookedSlots | app/src/main/java/com/project/back_end/services/DoctorService.java:44-49 | the loop collects exactly the booked times of day |
| DoctorService.RemoveTaken | app/src/main/java/com/project/back_end/services/DoctorService.java:51-55 | the in-place removal leaves, in order, exactly the non-null entries whose trimmed text is not booked |
| DoctorService.Availability | app/src/main/java/com/project/back_end/services/DoctorService.java:28-58 | definition: empty for a null or unknown doctor or a null date, else the template entries that are free of that day bookings. `GetDoctorAvailability` computes it; `AvailabilityMembers` states its meaning |
| DoctorService.GetDoctorAvailability | app/src/main/java/com/project/back_end/services/DoctorService.java:28-58 | the method's answer is the specification `Availability` |
| DoctorService.AvailabilityMembers | app/src/main/java/com/project/back_end/services/DoctorService.java:28-58 | an entry is offered exactly when it is a non-null template entry whose trimmed text is no appointment's time of day on that date |
| DoctorService.AvailabilityEmptyCases | app/src/main/java/com/project/back_end/services/DoctorService.java:29-32 | no slots for a missing id or date or an unknown doctor |
| DoctorService.FreeDayOffersTemplate | app/src/main/java/com/project/back_end/services/DoctorService.java:34-57 | on a day without appointments the whole non-null template is offered in order |
| DoctorService.AnyEntryEndsWith | app/src/main/java/com/project/back_end/services/DoctorService.java:218-225 | true exactly when some non-null entry, trimmed and upper-cased, ends with the target |
| DoctorService.ByTime | app/src/main/java/com/project/back_end/services/DoctorService.java:208-228 | definition: an empty list for null, the list itself for a blank or unrecognised AM/PM, else the doctors with an entry ending in it. `FilterDoctorByTime` computes it; `ByTimeMeaning` states its meaning |
| DoctorService.FilterDoctorByTime | app/src/main/java/com/project/back_end/services/DoctorService.java:208-228 | the loop's answer is the specification `ByTime` |
| DoctorService.ByTimeMeaning | app/src/main/java/com/project/back_end/services/DoctorService.java:208-228 | for AM or PM exactly the doctors with a matching entry are kept; a blank or other word keeps the list; a null list gives none |
| DoctorService.ByTimeKeepsOrder | app/src/main/java/com/project/back_end/services/DoctorService.java:208-228 | the filter distributes over concatenation, so order is kept |
| DoctorService.GetDoctors | app/src/main/java/com/project/back_end/services/DoctorService.java:88-90 | definition: every stored doctor, in table order. `DoctorSearchMeaning` shows that the search with no filter returns exactly this |
| DoctorService.FindDoctorByName | app/src/main/java/com/project/back_end/services/DoctorService.java:131-137 | definition: the LIKE query with the name, or "" for null. Its meaning is `FindDoctorByNameMeaning` |
| DoctorService.FindDoctorByNameMeaning | app/src/main/java/com/project/back_end/services/DoctorService.java:131-137 | without wildcards the name search is exact name equality |
| DoctorService.FilterDoctorsByNameSpecialtyAndTime | app/src/main/java/com/project/back_end/services/DoctorService.java:139-151 | the answer is the AM/PM filter applied to the name-and-specialty search |
| DoctorService.FilterDoctorByNameAndTime | app/src/main/java/com/project/back_end/services/DoctorService.java:153-163 | the answer is the AM/PM filter applied to the name search |
| DoctorService.FilterDoctorByTimeAndSpecialty | app/src/main/java/com/project/back_end/services/DoctorService.java:176-186 | the answer is the AM/PM filter applied to the specialty search |
| DoctorService.FilterDoctorByNameAndSpecialty | app/src/main/java/com/project/back_end/services/DoctorService.java:165-174 | definition: the name-containing, specialty-equal query, both ignoring case, with blank filters taken as "". Its meaning is `NameAndSpecialtyMembers` |
| DoctorService.NameAndSpecialtyMembers | app/src/main/java/com/project/back_end/services/DoctorService.java:165-174 | the name-and-specialty search lists exactly the stored doctors whose name contains the name ignoring case and whose specialty equals the specialty ignoring case, with a blank filter taken as "" |
| DoctorService.FilterDoctorBySpecialty | app/src/main/java/com/project/back_end/services/DoctorService.java:188-196 | definition: the specialty-equal query ignoring case, with a blank filter taken as "". Its meaning is `SpecialtyMembers` |
| DoctorService.SpecialtyMembers | app/src/main/java/com/project/back_end/services/DoctorService.java:188-196 | the specialty search lists exactly the stored doctors whose specialty equals the specialty ignoring case, with a blank filter taken as "" |
| DoctorService.FilterDoctorsByTime | app/src/main/java/com/project/back_end/services/DoctorService.java:198-206 | the answer is the AM/PM filter applied to all doctors |
| DoctorService.SearchesReturnStoredDoctors | app/src/main/java/com/project/back_end/services/DoctorService.java:139-206 | every combined search returns stored doctors only |
| DoctorService.SaveDoctorResult | app/src/main/java/com/project/back_end/services/DoctorService.java:60-72 | definition: 0 for a null doctor or email, -1 when one doctor has the email, 0 when two do (the finder throws and is caught), else 1. Its meaning is `SaveDoctorMeaning` |
| DoctorService.SaveDoctor | app/src/main/java/com/project/back_end/services/DoctorService.java:60-72 | answers `SaveDoctorResult` and writes exactly when it is 1 |
| DoctorService.SaveDoctorMeaning | app/src/main/java/com/project/back_end/services/DoctorService.java:60-72 | 1 exactly when the email is present and unused; -1 only when some doctor has it |
| DoctorService.UpdateDoctorResult | app/src/main/java/com/project/back_end/services/DoctorService.java:74-86 | definition: 0 for a null doctor or id, -1 for an id no doctor has, else 1. Its meaning is `UpdateDoctorOverwrites` |
| DoctorService.UpdateDoctor | app/src/main/java/com/project/back_end/services/DoctorService.java:74-86 | answers `UpdateDoctorResult` and writes exactly when it is 1 |
| DoctorService.UpdateDoctorOverwrites | app/src/main/java/com/project/back_end/services/DoctorService.java:74-86 | an update of a stored id replaces that row with the given doctor, keeps every doctor with another id, and leaves appointments, patients and admins unchanged |
| DoctorService.DeleteDoctorResult | app/src/main/java/com/project/back_end/services/DoctorService.java:92-104 | definition: -1 for an id no doctor has, else 1. `DeleteDoctor` answers it |
| DoctorService.WithDoctorRemoved | app/src/main/java/com/project/back_end/services/DoctorService.java:98-99 | definition: the doctor appointments deleted first, then the doctor. Its meaning is `DeleteDoctorCascade` and `DoctorRemovedValid` |
| DoctorService.DeleteDoctor | app/src/main/java/com/project/back_end/services/DoctorService.java:92-104 | answers -1 for an unknown id, else deletes the appointments and then the doctor |
| DoctorService.DeleteDoctorCascade | app/src/main/java/com/project/back_end/services/DoctorService.java:92-104 | after the cascade no row refers to the doctor and every other doctor and appointment is kept |
| DoctorService.ValidateDoctor | app/src/main/java/com/project/back_end/services/DoctorService.java:106-129 | definition: the branches of `validateDoctor` in source order, with an ambiguous finder or a stored doctor without a password answering as thrown. Its meaning is `DoctorLoginMeaning` |
| DoctorService.DoctorLoginMeaning | app/src/main/java/com/project/back_end/services/DoctorService.java:106-129 | a token is issued only for a stored doctor whose email and password are the ones given, with that email as subject; a missing field is 400, an unknown email or a different stored password 401; login succeeds exactly when one doctor has the email and its password is the one given |
| PatientService.ConditionToStatus | app/src/main/java/com/project/back_end/services/PatientService.java:155-163 | the status is 1, 0 or `Integer.MIN_VALUE` |
| PatientService.ConditionMeaning | app/src/main/java/com/project/back_end/services/PatientService.java:155-163 | "past" is 1 and "future" is 0 after trim and lower-casing; everything else is the sentinel |
| PatientService.PatientFromToken | app/src/main/java/com/project/back_end/services/PatientService.java:145-153 | a patient found is the unique stored patient whose email is the token subject; an unreadable token or a blank subject gives null |
| PatientService.GetPatientAppointment | app/src/main/java/com/project/back_end/services/PatientService.java:38-62 | definition: 400 without an id or token, 401 for an unresolved patient or a different id, else the DTOs of that patient. Its meaning is `OwnAppointmentsOnly` and `OtherPatientRefused` |
| PatientService.OwnAppointmentsOnly | app/src/main/java/com/project/back_end/services/PatientService.java:38-62 | a 200 listing belongs to the stored patient named by the token and holds all and only that patient's appointments |
| PatientService.OtherPatientRefused | app/src/main/java/com/project/back_end/services/PatientService.java:50-55 | a token of a patient with another id is refused with 401 |
| PatientService.UnknownSubjectHasNoPatient | app/src/main/java/com/project/back_end/services/PatientService.java:145-153 | a subject that is no patient's email resolves to no patient |
| PatientService.FilterByCondition | app/src/main/java/com/project/back_end/services/PatientService.java:65-85 | definition: 400 without an id or for an unknown condition, else the DTOs of the patient with that status. Its meaning is `ConditionListing` |
| PatientService.ConditionListing | app/src/main/java/com/project/back_end/services/PatientService.java:65-85 | a valid condition lists exactly the patient's appointments with that status, sorted by time |
| PatientService.ListingTimesAscend | app/src/main/java/com/project/back_end/services/PatientService.java:76-80 | the DTO list keeps the ascending time order |
| PatientService.InvalidConditionFirst | app/src/main/java/com/project/back_end/services/PatientService.java:105-122 | an invalid condition is refused whatever the name |
| PatientService.FilterByDoctor | app/src/main/java/com/project/back_end/services/PatientService.java:88-102 | definition: 400 without an id, else the DTOs of the patient whose doctor name contains the trimmed fragment. Its meaning is `DoctorFilterMeaning` |
| PatientService.DoctorFilterMeaning | app/src/main/java/com/project/back_end/services/PatientService.java:88-102 | lists exactly the patient's appointments whose doctor's name contains the trimmed fragment ignoring case |
| PatientService.FilterByDoctorAndCondition | app/src/main/java/com/project/back_end/services/PatientService.java:105-122 | definition: 400 for an unknown condition, else the DTOs of the patient matching the doctor fragment and the status. Its meaning is `DoctorAndConditionMeaning` |
| PatientService.DoctorAndConditionMeaning | app/src/main/java/com/project/back_end/services/PatientService.java:105-122 | lists exactly the rows of the doctor-name filter that have the status of the condition, in both directions |
| PatientService.GetPatientDetails | app/src/main/java/com/project/back_end/services/PatientService.java:125-141 | definition: 400 without a token, 401 when the token patient is not found, else 200 with that patient. Its meaning is `DetailsAreTokenPatient` |
| PatientService.DetailsAreTokenPatient | app/src/main/java/com/project/back_end/services/PatientService.java:125-141 | 200 exactly when a token resolves to a patient, and the details are that stored patient |
| PatientService.CreatePatientResult | app/src/main/java/com/project/back_end/services/PatientService.java:28-35 | definition: 0 for a null patient, whose save throws and is caught, else 1. Its meaning is `CreatePatient` and `CreatePatientAdds` |
| PatientService.CreatePatient | app/src/main/java/com/project/back_end/services/PatientService.java:28-35 | answers 1 and saves for a patient, 0 and nothing written for null |
| PatientService.CreatePatientAdds | app/src/main/java/com/project/back_end/services/PatientService.java:28-35 | registering adds exactly one row under a fresh id |
| Service.PadTime | app/src/main/java/com/project/back_end/services/Service.java:270-284 | definition: with at least two colon-separated fields, the first two trimmed, left-padded to two characters and joined by a colon; otherwise the text itself. Proved by the PadTime lemmas below |
| Service.NormalizeSlot | app/src/main/java/com/project/back_end/services/Service.java:253-268 | definition: null is ""; otherwise trim, upper-case, drop AM and PM when the text ends with one, then pad. Proved by the Normalize and Strip lemmas below |
| Service.PadTimeTwoFields | app/src/main/java/com/project/back_end/services/Service.java:270-284 | two fields are each trimmed and zero-padded |
| Service.PadTimeThreeFields | app/src/main/java/com/project/back_end/services/Service.java:270-284 | with a third field only the first two are kept, trimmed and padded |
| Service.PadTimeWithoutColon | app/src/main/java/com/project/back_end/services/Service.java:270-284 | text without a colon is kept as it is |
| Service.NormalizePlain | app/src/main/java/com/project/back_end/services/Service.java:253-268 | a slot without AM/PM is only padded |
| Service.StripAm | app/src/main/java/com/project/back_end/services/Service.java:253-268 | a " AM" suffix is removed |
| Service.StripPm | app/src/main/java/com/project/back_end/services/Service.java:253-268 | a " PM" suffix is removed |
| Service.NormalizeMeridiem | app/src/main/java/com/project/back_end/services/Service.java:253-268 | a slot with AM or PM normalises to its padded core |
| Service.PadCanonical | app/src/main/java/com/project/back_end/services/Service.java:270-284 | "HH:mm" is a fixed point of padding |
| Service.CanonicalSlotIsFixed | app/src/main/java/com/project/back_end/services/Service.java:253-284 | "HH:mm" normalises to itself |
| Service.TwelveHourSuffixDropped | app/src/main/java/com/project/back_end/services/Service.java:253-268 | "HH:mm AM" and "HH:mm PM" both normalise to "HH:mm" |
| Service.AfternoonNotShifted | app/src/main/java/com/project/back_end/services/Service.java:253-268 | a PM time normalises to its 12-hour text, not to the 24-hour time |
| Service.ShortTimePads | app/src/main/java/com/project/back_end/services/Service.java:270-284 | "H:mm" is padded to "0H:mm" |
| Service.ShortHourPadded | app/src/main/java/com/project/back_end/services/Service.java:253-284 | "H:mm", "H:mm AM" and "H:mm PM" all normalise to "0H:mm" |
| Service.SecondsDropped | app/src/main/java/com/project/back_end/services/Service.java:253-284 | "HH:mm:ss" normalises to "HH:mm" |
| Service.SlotOfferedMembers | app/src/main/java/com/project/back_end/services/Service.java:158-161 | the `anyMatch` is true exactly when some non-null slot, trimmed and normalised, is the time of day |
| Service.SlotCheck | app/src/main/java/com/project/back_end/services/Service.java:140-164 | the answer is -1, 0 or 1; -1 exactly when the doctor reference is missing or unknown; 0 for a known doctor and a null time. Its meaning for 1 is `SlotCheckAccepts` |
| Service.SlotCheckAccepts | app/src/main/java/com/project/back_end/services/Service.java:150-163 | 1 exactly when some free template entry normalises to the requested time of day |
| Service.CanonicalTemplateNoDoubleBooking | app/src/main/java/com/project/back_end/services/Service.java:140-164 | with an "HH:mm" template an accepted time is no appointment's time of the same doctor |
| Service.NonCanonicalEntryIgnoresBookings | app/src/main/java/com/project/back_end/services/Service.java:150-163 | an entry that is not five characters but matches a booked time stays offered and the check accepts |
| Service.MeridiemEntryNormalizes | app/src/main/java/com/project/back_end/services/Service.java:253-268 | "HH:mm AM/PM" is such an entry for "HH:mm" |
| Service.ShortEntryNormalizes | app/src/main/java/com/project/back_end/services/Service.java:253-284 | "H:mm" is such an entry for "0H:mm" |
| Service.ValidateTokenReply | app/src/main/java/com/project/back_end/services/Service.java:47-64 | definition: 401 "Missing token" for a missing token, 401 "Invalid or expired token" when `validateToken` is false, else 200 with an empty body. Its meaning is `TokenReplyMeaning` |
| Service.TokenReplyMeaning | app/src/main/java/com/project/back_end/services/Service.java:47-64 | 200 with an empty body exactly when the token is present and valid for the role, else 401 |
| Service.ValidateAdmin | app/src/main/java/com/project/back_end/services/Service.java:67-94 | definition: the branches of `validateAdmin` in source order, with a finder that sees two admins, or a stored admin without a password, answering as thrown. Its meaning is `AdminLoginMeaning` |
| Service.AdminLoginMeaning | app/src/main/java/com/project/back_end/services/Service.java:67-94 | a token is issued only to a stored admin with that username and password, with the username as subject; a null field is 400, an unknown username or a different stored password 401; login succeeds exactly when one admin has the username and its password is the one given |
| Service.ValidatePatient | app/src/main/java/com/project/back_end/services/Service.java:167-176 | true exactly when no stored patient shares the email or the phone |
| Service.ValidatePatientLogin | app/src/main/java/com/project/back_end/services/Service.java:179-203 | definition: the branches of `validatePatientLogin` in source order, testing both fields with `isBlank`. Its meaning is in the patient-login lemmas |
| Service.PatientLoginMeaning | app/src/main/java/com/project/back_end/services/Service.java:179-203 | a token is issued only to a stored patient whose email and password are the ones given, and its subject is that email |
| Service.PatientLoginSucceedsExactly | app/src/main/java/com/project/back_end/services/Service.java:179-203 | login succeeds exactly when neither field is blank, one patient has the email, and its password is the one given |
| Service.PatientNullPasswordMissing | app/src/main/java/com/project/back_end/services/Service.java:182-185 | a password that trims to "null" in any letter case is answered as missing credentials (400) |
| Service.PatientLoginRefusals | app/src/main/java/com/project/back_end/services/Service.java:182-196 | a blank identifier or password is 400; an email no patient has, or a different stored password, is 401 |
| Service.DoctorSearch | app/src/main/java/com/project/back_end/services/Service.java:97-137 | definition: the doctor query chosen by which of name, specialty and time are not blank, with all doctors when none is. `FilterDoctor` computes it and `DoctorSearchMeaning` states its meaning |
| Service.FilterDoctor | app/src/main/java/com/project/back_end/services/Service.java:97-137 | the dispatch answers the specification `DoctorSearch` |
| Service.DoctorSearchMeaning | app/src/main/java/com/project/back_end/services/Service.java:97-137 | every search answers stored doctors, and with no filter all of them in order |
| Service.TimeOnlySearch | app/src/main/java/com/project/back_end/services/Service.java:97-137 | with only AM or PM given, exactly the doctors with such an entry |
| Service.NameOnlySearchIsExact | app/src/main/java/com/project/back_end/services/Service.java:97-137 | with only a name given, exact name equality |
| Service.FilterPatient | app/src/main/java/com/project/back_end/services/Service.java:206-244 | definition: resolve the token patient (401 when missing, unknown or ambiguous), then dispatch on which of condition and name are not blank. Its meaning is `FilterPatientOwnRowsOnly` |
| Service.FilterPatientOwnRowsOnly | app/src/main/java/com/project/back_end/services/Service.java:206-244 | any listing answered holds only appointments of the one patient the token names |
| Schedule.PassedRequestClashesWithNone | app/src/main/java/com/project/back_end/services/AppointmentService.java:197-221 | after a pass, the request clashes with no stored row it was compared with |
| Schedule.BookingKeepsScheduleFree | app/src/main/java/com/project/back_end/services/AppointmentService.java:33-44 | booking after a pass keeps the store free of same-doctor, same-date bookings less than an hour apart |
| Schedule.UpdateKeepsScheduleFree | app/src/main/java/com/project/back_end/services/AppointmentService.java:46-74 | an update after a pass keeps the store double-booking free |
| Schedule.CancelKeepsScheduleFree | app/src/main/java/com/project/back_end/services/AppointmentService.java:76-117 | cancelling keeps the store double-booking free |
| AppointmentController.BookingReply | app/src/main/java/com/project/back_end/controllers/AppointmentController.java:49-83 | definition: the token check reply when it has a body, then 404 for a slot check of -1, 409 for 0, then 201 when the validator passes and 500 otherwise. Its meaning is `BookedOnlyWhenAllChecksPass` and `SlotRefusals` |
| AppointmentController.BookAppointment | app/src/main/java/com/project/back_end/controllers/AppointmentController.java:49-83 | answers `BookingReply` and saves exactly when that answer is 201 |
| AppointmentController.BookedOnlyWhenAllChecksPass | app/src/main/java/com/project/back_end/controllers/AppointmentController.java:49-83 | 201 exactly when the token names one patient, the template check gives 1 and the validator passes |
| AppointmentController.BadTokenAnsweredFirst | app/src/main/java/com/project/back_end/controllers/AppointmentController.java:54-58 | a refused token is answered with the token check's own 401 |
| AppointmentController.SlotRefusals | app/src/main/java/com/project/back_end/controllers/AppointmentController.java:61-71 | an unknown doctor gets 404 and a time not offered gets 409 |
| AppointmentController.EndpointKeepsScheduleFree | app/src/main/java/com/project/back_end/controllers/AppointmentController.java:73-78 | a 201 answer leaves the store valid and double-booking free |

## Left out

- Persistence is an in-memory model. Database exceptions other than a finder seeing two rows are not modelled: connection failures, constraint violations, and the exception Hibernate 6.6 raises when saving a detached entity with an unknown id. Neither are bean validation (`@Valid`, `@NotNull`, `@Size`), nor the transaction scope of the delete cascade.
- Database collation is not modelled: text equality in finders is exact, and `IgnoreCase` and `Containing` use ASCII case mapping.
- The doctor-name queries of the appointment repository are custom queries, and the repository source is not part of this model. They are modelled as a case-insensitive substring of the doctor's name plus the patient id (and the status).
- JJWT internals are not modelled. The signature is a symbolic MAC, with no base64url or JSON encoding, and no weak-key exception for a short secret. The parser's clock skew is zero.
- Sub-minute times are not modelled: appointment times are whole minutes. `LocalTime.toString()` is therefore always `"HH:mm"`, and `LocalDateTime.now()` is a rounded parameter.
- Concurrency is not modelled. Two simultaneous bookings can both pass the read-then-write validator; every proof here is about one request at a time.
- The order of rows with equal times after sorting is not modelled. `PatientService.ConditionListing` states sortedness and contents, not stability.
- The controllers other than the booking endpoint, the MVC dashboard, the prescription service and the JavaScript front end are not modelled.
- Text follows `java.lang.String` for ASCII letters only: `toUpperCase` and `toLowerCase` are not locale-aware.
- Service.ValidatePatient: characterises when the answer is `true`; it does not separate a `false` answer from the `Thrown` outcome of two matching patients.
- Service.FilterPatient: a patient without an id, filtered by condition and name, makes the source throw on unboxing. The model answers `Threw`, and `Service.FilterPatientOwnRowsOnly` says nothing about that path.
