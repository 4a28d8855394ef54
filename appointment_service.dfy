/** AppointmentService: the booking validator with its same-day, one-hour
    overlap scan, and booking, updating, cancelling and listing appointments.
    `now` is the current `LocalDateTime` rounded up to a whole minute: for a
    whole-minute appointment time `t`, `t` is before the exact instant
    exactly when `t` is less than that rounded value. */
module AppointmentService {
  import opened Common
  import opened JavaText
  import opened Clock
  import opened Tables
  import opened Entities
  import opened Repository
  import opened TokenService
  import opened Responses

  // ---------------------------------------------------------------- the validator

  /** The hour starting at `s` and the hour starting at `e` intersect. */
  predicate Overlaps(s: int, e: int) {
    IsBefore(s, PlusHour(e)) && IsBefore(e, PlusHour(s))
  }

  /** The doctor's appointments between 00:00 of `t`'s date and the last
      instant before the next midnight. */
  function SameDay(S: Db, doctor: int, t: int): seq<Appointment> {
    AppointmentsBetween(S, Some(doctor), DayStart(DateOf(t)), DayEnd(DateOf(t)))
  }

  /** On an update the stored record with the request's own id is not compared. */
  predicate Skipped(r: Appointment, x: Appointment, isUpdate: bool) {
    isUpdate && x.id.Some? && r.id == x.id
  }

  /** Row `r` stands in the way of a booking starting at `t`. */
  predicate Blocks(r: Appointment, x: Appointment, t: int, isUpdate: bool) {
    !Skipped(r, x, isUpdate) && r.time.Some? && Overlaps(t, r.time.value)
  }

  predicate Conflict(rows: seq<Appointment>, x: Appointment, t: int, isUpdate: bool) {
    exists r :: r in rows && Blocks(r, x, t, isUpdate)
  }

  /** `validateAppointment(appointment, isUpdate)`: the first failing check's
      message, or null when every check passes. */
  function ValidationError(S: Db, appt: Option<Appointment>, isUpdate: bool, now: int): Option<string> {
    if appt.None? then Some("Appointment data is required")
    else
      var a := appt.value;
      if DoctorIdOf(a).None? then Some("Doctor is required")
      else if PatientIdOf(a).None? then Some("Patient is required")
      else if a.time.None? then Some("Appointment time is required")
      else if IsBefore(a.time.value, now) then Some("Appointment time must be in the future")
      else if !DoctorExists(S, DoctorIdOf(a).value) then Some("Invalid doctor ID")
      else if !PatientExists(S, PatientIdOf(a).value) then Some("Invalid patient ID")
      else if Conflict(SameDay(S, DoctorIdOf(a).value, a.time.value), a, a.time.value, isUpdate) then
        Some("Appointment slot already booked")
      else None
  }

  /** The validator as the source runs it: the checks in order, then a scan
      of the same-day appointments that returns at the first overlap. */
  method ValidateAppointment(db: Store, appt: Option<Appointment>, isUpdate: bool, now: int)
    returns (err: Option<string>)
    ensures err == ValidationError(db.State(), appt, isUpdate, now)
  {
    if appt.None? { return Some("Appointment data is required"); }
    var a := appt.value;
    if a.doctor.None? || a.doctor.value.id.None? { return Some("Doctor is required"); }
    if a.patient.None? || a.patient.value.id.None? { return Some("Patient is required"); }
    if a.time.None? { return Some("Appointment time is required"); }
    var start := a.time.value;
    if IsBefore(start, now) { return Some("Appointment time must be in the future"); }
    var S := db.State();
    var doctor := DoctorById(S, a.doctor.value.id.value);
    if doctor.None? { return Some("Invalid doctor ID"); }
    var patient := Get(S.patients, PatientKey, a.patient.value.id.value);
    if patient.None? { return Some("Invalid patient ID"); }
    // the found doctor's id is the requested one
    var sameDay := AppointmentsBetween(S, doctor.value.id, DayStart(DateOf(start)), DayEnd(DateOf(start)));
    for i := 0 to |sameDay|
      invariant !Conflict(sameDay[..i], a, start, isUpdate)
    {
      var r := sameDay[i];
      assert sameDay[..i + 1] == sameDay[..i] + [r];
      if isUpdate && a.id.Some? && r.id == a.id {
        continue;
      }
      var existingStart := r.time.value;
      if IsBefore(start, PlusHour(existingStart)) && IsBefore(existingStart, PlusHour(start)) {
        assert Blocks(r, a, start, isUpdate);
        return Some("Appointment slot already booked");
      }
    }
    assert sameDay[..|sameDay|] == sameDay;
    return None;
  }

  // ---------------------------------------------------------------- properties of the validator

  /** Every message the validator can give, and nothing else. */
  lemma ValidationMessages(S: Db, appt: Option<Appointment>, isUpdate: bool, now: int)
    ensures ValidationError(S, appt, isUpdate, now) in {
      None, Some("Appointment data is required"), Some("Doctor is required"),
      Some("Patient is required"), Some("Appointment time is required"),
      Some("Appointment time must be in the future"), Some("Invalid doctor ID"),
      Some("Invalid patient ID"), Some("Appointment slot already booked")}
  {
  }

  /** A time equal to the current instant is not in the past. */
  lemma NowIsNotPast(S: Db, a: Appointment, isUpdate: bool, now: int)
    requires DoctorIdOf(a).Some? && PatientIdOf(a).Some? && a.time == Some(now)
    ensures ValidationError(S, Some(a), isUpdate, now) != Some("Appointment time must be in the future")
  {
  }

  /** Reference checks come before the time checks, and the existence of the
      doctor and patient is tested only for a present, non-past time. */
  lemma NoDoctorReported(S: Db, a: Appointment, isUpdate: bool, now: int)
    requires DoctorIdOf(a).None?
    ensures ValidationError(S, Some(a), isUpdate, now) == Some("Doctor is required")
  {
  }

  lemma PastTimeReportedBeforeLookups(S: Db, a: Appointment, isUpdate: bool, now: int)
    requires DoctorIdOf(a).Some? && PatientIdOf(a).Some? && a.time.Some? && a.time.value < now
    ensures ValidationError(S, Some(a), isUpdate, now) == Some("Appointment time must be in the future")
  {
  }

  /** Two one-hour slots overlap exactly when their starts are less than an
      hour apart; so the relation is symmetric. */
  lemma OverlapsWithinHour(s: int, e: int)
    ensures Overlaps(s, e) <==> -60 < s - e < 60
    ensures Overlaps(s, e) <==> Overlaps(e, s)
  {
  }

  /** A request passes the validator exactly when its references and time are
      present, the time is not past, both references resolve and no compared
      appointment of that doctor on that date starts less than an hour away. */
  lemma ValidationPasses(S: Db, a: Appointment, isUpdate: bool, now: int)
    ensures ValidationError(S, Some(a), isUpdate, now).None? <==>
      && DoctorIdOf(a).Some? && PatientIdOf(a).Some? && a.time.Some? && now <= a.time.value
      && DoctorExists(S, DoctorIdOf(a).value) && PatientExists(S, PatientIdOf(a).value)
      && forall r :: r in S.appointments && DoctorIdOf(r) == DoctorIdOf(a) && r.time.Some?
           && DateOf(r.time.value) == DateOf(a.time.value) && !Skipped(r, a, isUpdate)
           ==> !(-60 < r.time.value - a.time.value < 60)
  {
    if DoctorIdOf(a).Some? && a.time.Some? {
      var k, t := DoctorIdOf(a).value, a.time.value;
      var w := Window(Some(k), DayStart(DateOf(t)), DayEnd(DateOf(t)));
      FilterMembers(S.appointments, InWindow, w);
      forall r | r in S.appointments && r.time.Some?
        ensures InWindow(r, w) <==> DoctorIdOf(r) == Some(k) && DateOf(r.time.value) == DateOf(t)
      {
        BetweenIsSameDate(r.time.value, DateOf(t));
      }
    }
  }

  /** Only appointments on the same date are compared: one on another date
      never blocks a booking, even when the two hours overlap across midnight. */
  lemma OtherDateNeverBlocks(S: Db, a: Appointment, r: Appointment, isUpdate: bool)
    requires DoctorIdOf(a).Some? && a.time.Some? && r.time.Some?
    requires DateOf(r.time.value) != DateOf(a.time.value)
    ensures r !in SameDay(S, DoctorIdOf(a).value, a.time.value)
  {
    var t := a.time.value;
    if r in SameDay(S, DoctorIdOf(a).value, t) {
      BetweenIsSameDate(r.time.value, DateOf(t));
    }
  }

  /** 23:30 on one day and 00:10 on the next start forty minutes apart, yet a
      booking at the later time is accepted next to the earlier one. */
  lemma AcrossMidnightAccepted(day: nat)
    ensures var existing := Appointment(Some(3), Some(Ref(Some(1))), Some(Ref(Some(2))), Some(day * 1440 + 23 * 60 + 30), 0);
      var request := Appointment(None, Some(Ref(Some(1))), Some(Ref(Some(2))), Some((day + 1) * 1440 + 10), 0);
      var S := Db([], [Doctor(Some(1), None, None, None, None, None)],
                  [Patient(Some(2), None, None, None, None, None)], [existing], 4);
      Overlaps(request.time.value, existing.time.value)
      && ValidationError(S, Some(request), false, 0).None?
  {
    var existing := Appointment(Some(3), Some(Ref(Some(1))), Some(Ref(Some(2))), Some(day * 1440 + 23 * 60 + 30), 0);
    var request := Appointment(None, Some(Ref(Some(1))), Some(Ref(Some(2))), Some((day + 1) * 1440 + 10), 0);
    var S := Db([], [Doctor(Some(1), None, None, None, None, None)],
                [Patient(Some(2), None, None, None, None, None)], [existing], 4);
    assert DateOf(existing.time.value) == day;
    assert DateOf(request.time.value) == day + 1;
    assert DoctorExists(S, 1) by { assert DoctorKey(S.doctors[0]) == Some(1); }
    assert PatientExists(S, 2) by { assert PatientKey(S.patients[0]) == Some(2); }
    ValidationPasses(S, request, false, 0);
  }

  /** Validating an update is validating an insert into the store without
      the record being updated. */
  lemma UpdateIsInsertWithoutOwnRecord(S: Db, a: Appointment, now: int)
    requires a.id.Some?
    ensures ValidationError(S, Some(a), true, now) == ValidationError(WithAppointmentDeleted(S, a.id.value), Some(a), false, now)
  {
    var S' := WithAppointmentDeleted(S, a.id.value);
    AppointmentDeletedExactly(S, a.id.value);
    ValidationPasses(S, a, true, now);
    ValidationPasses(S', a, false, now);
    if DoctorIdOf(a).Some? && a.time.Some? {
      var k, t := DoctorIdOf(a).value, a.time.value;
      if Conflict(SameDay(S, k, t), a, t, true) != Conflict(SameDay(S', k, t), a, t, false) {
        var w := Window(Some(k), DayStart(DateOf(t)), DayEnd(DateOf(t)));
        FilterMembers(S.appointments, InWindow, w);
        FilterMembers(S'.appointments, InWindow, w);
        assert false;
      }
    }
  }

  // ---------------------------------------------------------------- booking and updating

  /** `bookAppointment`: 1 and the appointment saved when it validates,
      otherwise 0 and nothing written. */
  method BookAppointment(db: Store, appt: Option<Appointment>, now: int) returns (r: int)
    modifies db
    ensures r == 1 <==> ValidationError(old(db.State()), appt, false, now).None?
    ensures r == 1 ==> db.State() == WithAppointmentSaved(old(db.State()), appt.value)
    ensures r != 1 ==> r == 0 && db.State() == old(db.State())
  {
    var validationError := ValidateAppointment(db, appt, false, now);
    if validationError.Some? {
      return 0;
    }
    db.SaveAppointment(appt.value);
    return 1;
  }

  /** The answer of `updateAppointment`; it writes only when the answer is 200. */
  function UpdateReply(S: Db, appt: Option<Appointment>, now: int): Reply {
    if appt.None? || appt.value.id.None? then Message(BadRequest, "Appointment ID is required")
    else if !AppointmentExists(S, appt.value.id.value) then Message(NotFound, "Appointment not found")
    else
      var err := ValidationError(S, appt, true, now);
      if err.Some? then Message(BadRequest, err.value)
      else Message(Ok, "Appointment updated successfully")
  }

  method UpdateAppointment(db: Store, appt: Option<Appointment>, now: int) returns (r: Reply)
    modifies db
    ensures r == UpdateReply(old(db.State()), appt, now)
    ensures db.State() == if r.Reply? && r.status == Ok then WithAppointmentSaved(old(db.State()), appt.value) else old(db.State())
  {
    if appt.None? || appt.value.id.None? {
      return Message(BadRequest, "Appointment ID is required");
    }
    var existing := AppointmentById(db.State(), appt.value.id.value);
    if existing.None? {
      return Message(NotFound, "Appointment not found");
    }
    var validationError := ValidateAppointment(db, appt, true, now);
    if validationError.Some? {
      return Message(BadRequest, validationError.value);
    }
    db.SaveAppointment(appt.value);
    return Message(Ok, "Appointment updated successfully");
  }

  /** An update answers 200 only for a stored id and a request that
      validates with its own record skipped; it then overwrites that record. */
  lemma UpdateOutcomes(S: Db, appt: Option<Appointment>, now: int)
    ensures var r := UpdateReply(S, appt, now);
      r.Reply? && r.status in {Ok, BadRequest, NotFound}
      && (r.status == Ok <==>
           appt.Some? && appt.value.id.Some? && AppointmentExists(S, appt.value.id.value)
           && ValidationError(S, appt, true, now).None?)
      && (r.status == Ok ==> WithAppointmentSaved(S, appt.value).nextId == S.nextId)
  {
  }

  // ---------------------------------------------------------------- cancelling

  /** The answer of `cancelAppointment(id, token)`; it deletes only when the
      answer is 200. An unreadable token makes the identifier null rather than
      raising, so the ownership test answers 403. */
  function CancelReply(S: Db, env: Env, id: int, token: Option<Token>): Reply {
    if MissingToken(token) then Message(Unauthorized, "Missing token")
    else if !AppointmentExists(S, id) then Message(NotFound, "Appointment not found")
    else
      var a := AppointmentById(S, id).value;
      var email := ExtractEmail(env, token);
      var p := ResolvePatient(S, a);
      if p.None? || p.value.email.None? then Message(BadRequest, "Appointment has no patient information")
      else if !EqualsIgnoreCaseOpt(p.value.email.value, email) then
        Message(Forbidden, "Unauthorized: you can only cancel your own appointment")
      else Message(Ok, "Appointment cancelled successfully")
  }

  method CancelAppointment(db: Store, env: Env, id: int, token: Option<Token>) returns (r: Reply)
    modifies db
    ensures r == CancelReply(old(db.State()), env, id, token)
    ensures db.State() == if r.Reply? && r.status == Ok then WithAppointmentDeleted(old(db.State()), id) else old(db.State())
  {
    if MissingToken(token) {
      return Message(Unauthorized, "Missing token");
    }
    var opt := AppointmentById(db.State(), id);
    if opt.None? {
      return Message(NotFound, "Appointment not found");
    }
    var appointment := opt.value;
    var patientEmailFromToken := ExtractEmail(env, token);
    var patient := ResolvePatient(db.State(), appointment);
    if patient.None? || patient.value.email.None? {
      return Message(BadRequest, "Appointment has no patient information");
    }
    if !EqualsIgnoreCaseOpt(patient.value.email.value, patientEmailFromToken) {
      return Message(Forbidden, "Unauthorized: you can only cancel your own appointment");
    }
    db.DeleteAppointment(id);
    return Message(Ok, "Appointment cancelled successfully");
  }

  /** A present but unreadable (malformed, foreign, tampered or expired)
      token on an existing appointment with a patient email gets 403. */
  lemma BadTokenIsForbidden(S: Db, env: Env, id: int, token: Option<Token>)
    requires !MissingToken(token) && ExtractEmail(env, token).None?
    requires AppointmentExists(S, id)
    requires var p := ResolvePatient(S, AppointmentById(S, id).value); p.Some? && p.value.email.Some?
    ensures CancelReply(S, env, id, token).status == Forbidden
  {
  }

  /** Only the booked patient, identified by a token whose subject equals the
      patient's email ignoring case, can cancel. */
  lemma CancelOnlyByOwner(S: Db, env: Env, id: int, token: Option<Token>)
    requires CancelReply(S, env, id, token).status == Ok
    ensures AppointmentExists(S, id)
    ensures var p := ResolvePatient(S, AppointmentById(S, id).value);
      p.Some? && p.value.email.Some? && ExtractEmail(env, token).Some?
      && ToLower(p.value.email.value) == ToLower(ExtractEmail(env, token).value)
  {
  }

  /** For an existing appointment with a patient email, the cancel succeeds
      exactly when the token's subject equals that email ignoring case, and
      is refused with 403 otherwise. */
  lemma CancelOwnerIff(S: Db, env: Env, id: int, token: Option<Token>)
    requires !MissingToken(token) && AppointmentExists(S, id)
    requires var p := ResolvePatient(S, AppointmentById(S, id).value); p.Some? && p.value.email.Some?
    ensures var p := ResolvePatient(S, AppointmentById(S, id).value);
      var r := CancelReply(S, env, id, token);
      && (r.status == Ok <==> EqualsIgnoreCaseOpt(p.value.email.value, ExtractEmail(env, token)))
      && (r.status != Ok ==> r.status == Forbidden)
  {
  }

  /** A successful cancel deletes that appointment and keeps all others. */
  lemma CancelDeletesOne(S: Db, env: Env, id: int, token: Option<Token>)
    requires CancelReply(S, env, id, token).status == Ok
    ensures forall a :: a in WithAppointmentDeleted(S, id).appointments <==> a in S.appointments && a.id != Some(id)
    ensures exists a :: a in S.appointments && a.id == Some(id)
  {
    AppointmentDeletedExactly(S, id);
    var a := AppointmentById(S, id).value;
    assert a in S.appointments && a.id == Some(id);
  }

  // ---------------------------------------------------------------- listing

  /** The patient-name filter is used only for a non-null, non-blank name
      that is not the text "null" in some letter case. */
  predicate HasPatientFilter(pname: Option<string>) {
    pname.Some? && !JavaIsBlank(pname.value) && !EqualsIgnoreCase("null", pname.value)
  }

  function EmptyListing(text: string): Body {
    EmptyBody.(appointments := Some([]), message := Some(text))
  }

  /** `getAppointment(pname, date, token)`: the appointments of the doctor
      whose email is the token's subject on `date`, as DTOs. */
  function GetAppointment(S: Db, env: Env, pname: Option<string>, date: Option<int>, token: Option<Token>): Body {
    if MissingToken(token) then EmptyListing("Missing token")
    else if date.None? then EmptyListing("Date is required")
    else
      var doctor := DoctorByEmail(S, ExtractEmail(env, token));
      if doctor.Absent? then EmptyListing("Doctor not found")
      else if doctor.Ambiguous? then EmptyListing("Invalid token")
      else
        var start, end := DayStart(date.value), DayEnd(date.value);
        var rows := if HasPatientFilter(pname)
          then AppointmentsBetweenWithPatientName(S, doctor.value.id, pname.value, start, end)
          else AppointmentsBetween(S, doctor.value.id, start, end);
        EmptyBody.(appointments := Some(ToDtos(S, rows)))
  }

  /** Every error answer is an empty list with a message. */
  lemma ListingErrorsAreEmpty(S: Db, env: Env, pname: Option<string>, date: Option<int>, token: Option<Token>)
    ensures var b := GetAppointment(S, env, pname, date, token);
      b.appointments.Some? && (b.message.Some? ==> b.appointments.value == [])
  {
  }

  /** A listing holds only appointments of the token's doctor on that date. */
  lemma ListingIsDoctorsDay(S: Db, env: Env, pname: Option<string>, date: Option<int>, token: Option<Token>)
    requires GetAppointment(S, env, pname, date, token).message.None?
    ensures date.Some? && DoctorByEmail(S, ExtractEmail(env, token)).Unique?
    ensures var d := DoctorByEmail(S, ExtractEmail(env, token)).value;
      var dtos := GetAppointment(S, env, pname, date, token).appointments.value;
      forall i :: 0 <= i < |dtos| ==>
        dtos[i].doctorId == d.id && dtos[i].time.Some? && DateOf(dtos[i].time.value) == date.value
  {
    var d := DoctorByEmail(S, ExtractEmail(env, token)).value;
    var w := Window(d.id, DayStart(date.value), DayEnd(date.value));
    if HasPatientFilter(pname) {
      DtosOfWindow(S, AppointmentsBetweenWithPatientName(S, d.id, pname.value, w.start, w.end), d, w);
    } else {
      DtosOfWindow(S, AppointmentsBetween(S, d.id, w.start, w.end), d, w);
    }
    forall t: int | w.start <= t <= w.end ensures DateOf(t) == date.value {
      BetweenIsSameDate(t, date.value);
    }
  }

  lemma DtosOfWindow(S: Db, rows: seq<Appointment>, d: Doctor, w: Window)
    requires d in S.doctors && w.doctor == d.id
    requires forall i :: 0 <= i < |rows| ==> InWindow(rows[i], w)
    ensures var dtos := ToDtos(S, rows);
      forall i :: 0 <= i < |dtos| ==>
        dtos[i].doctorId == d.id && dtos[i].time.Some? && w.start <= dtos[i].time.value <= w.end
  {
    forall i | 0 <= i < |rows|
      ensures ToDto(S, rows[i]).doctorId == d.id
    {
      if DoctorIdOf(rows[i]).Some? {
        var k := DoctorIdOf(rows[i]).value;
        var j :| 0 <= j < |S.doctors| && S.doctors[j] == d;
        assert DoctorKey(S.doctors[j]) == Some(k);
      }
    }
  }

  /** Without a patient filter every appointment of that doctor on that date is listed. */
  lemma UnfilteredListingIsComplete(S: Db, env: Env, pname: Option<string>, date: Option<int>, token: Option<Token>, a: Appointment)
    requires GetAppointment(S, env, pname, date, token).message.None? && !HasPatientFilter(pname)
    requires a in S.appointments && a.time.Some? && DateOf(a.time.value) == date.value
    requires DoctorIdOf(a) == DoctorByEmail(S, ExtractEmail(env, token)).value.id
    ensures ToDto(S, a) in GetAppointment(S, env, pname, date, token).appointments.value
  {
    var d := DoctorByEmail(S, ExtractEmail(env, token)).value;
    var w := Window(d.id, DayStart(date.value), DayEnd(date.value));
    BetweenIsSameDate(a.time.value, date.value);
    FilterMembers(S.appointments, InWindow, w);
    var rows := AppointmentsBetween(S, d.id, DayStart(date.value), DayEnd(date.value));
    var i :| 0 <= i < |rows| && rows[i] == a;
    assert ToDtos(S, rows)[i] == ToDto(S, a);
  }

  /** With a patient filter the listing holds the DTOs of exactly the
      appointments of the token's doctor on that date whose resolved patient's
      name contains the filter ignoring case. */
  lemma FilteredListingMembers(S: Db, env: Env, pname: Option<string>, date: Option<int>, token: Option<Token>)
    requires GetAppointment(S, env, pname, date, token).message.None? && HasPatientFilter(pname)
    ensures date.Some? && DoctorByEmail(S, ExtractEmail(env, token)).Unique?
    ensures var d := DoctorByEmail(S, ExtractEmail(env, token)).value;
      var rows := AppointmentsBetweenWithPatientName(S, d.id, pname.value, DayStart(date.value), DayEnd(date.value));
      && GetAppointment(S, env, pname, date, token).appointments == Some(ToDtos(S, rows))
      && forall a :: a in rows <==>
           && a in S.appointments && DoctorIdOf(a) == d.id
           && a.time.Some? && DateOf(a.time.value) == date.value
           && ResolvePatient(S, a).Some? && ResolvePatient(S, a).value.name.Some?
           && ContainsIgnoreCase(ResolvePatient(S, a).value.name.value, pname.value)
  {
    var d := DoctorByEmail(S, ExtractEmail(env, token)).value;
    var w := Window(d.id, DayStart(date.value), DayEnd(date.value));
    FilterMembers(S.appointments, InWindowWithPatientName, NameWindow(S.patients, w, pname.value));
    forall a: Appointment | a.time.Some?
      ensures DayStart(date.value) <= a.time.value <= DayEnd(date.value) <==> DateOf(a.time.value) == date.value
    {
      BetweenIsSameDate(a.time.value, date.value);
    }
  }

  /** A blank name or the text "null" lists the same as no name at all. */
  lemma NullWordMeansNoFilter(S: Db, env: Env, s: string, date: Option<int>, token: Option<Token>)
    requires JavaIsBlank(s) || ToLower(s) == "null"
    ensures GetAppointment(S, env, Some(s), date, token) == GetAppointment(S, env, None, date, token)
  {
    assert ToLower("null") == "null";
  }
}
