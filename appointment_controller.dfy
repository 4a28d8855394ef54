/** AppointmentController's booking endpoint: the patient's token is
    checked, then the requested time against the doctor's offered slots,
    then the appointment validator, and only then is the row saved. */
module AppointmentController {
  import opened Common
  import opened Entities
  import opened Repository
  import opened TokenService
  import opened Responses
  import opened AppointmentService
  import opened Service
  import opened Schedule

  /** The answer, given the store before the call. */
  function BookingReply(S: Db, env: Env, t: Option<Token>, appt: Option<Appointment>, now: int): Reply {
    var validation := ValidateTokenReply(S, env, t, Some("patient"));
    if validation.Reply? && validation.body != EmptyBody then validation
    else
      var valid := SlotCheck(S, appt);
      if valid == -1 then Message(NotFound, "Doctor not found")
      else if valid == 0 then Message(Responses.Conflict, "Selected time is not available")
      else if ValidationError(S, appt, false, now).None? then Message(Created, "Appointment booked successfully")
      else Message(InternalServerError, "Failed to book appointment")
  }

  /** `bookAppointment(token, appointment)`: answers `BookingReply` and writes
      the row exactly when that answer is 201. */
  method BookAppointment(db: Store, env: Env, t: Option<Token>, appt: Option<Appointment>, now: int)
    returns (r: Reply)
    modifies db
    ensures r == BookingReply(old(db.State()), env, t, appt, now)
    ensures db.State() == if r.Reply? && r.status == Created then WithAppointmentSaved(old(db.State()), appt.value)
                          else old(db.State())
  {
    var validation := ValidateTokenReply(db.State(), env, t, Some("patient"));
    if validation.Reply? && validation.body != EmptyBody {
      return validation;
    }
    var valid := SlotCheck(db.State(), appt);
    if valid == -1 {
      return Message(NotFound, "Doctor not found");
    }
    if valid == 0 {
      return Message(Responses.Conflict, "Selected time is not available");
    }
    var booked := AppointmentService.BookAppointment(db, appt, now);
    if booked == 1 {
      return Message(Created, "Appointment booked successfully");
    }
    return Message(InternalServerError, "Failed to book appointment");
  }

  // ---------------------------------------------------------------- lemmas

  /** 201 exactly when the token names one patient, the doctor exists, the
      time of day is offered, and the validator passes. */
  lemma BookedOnlyWhenAllChecksPass(S: Db, env: Env, t: Option<Token>, appt: Option<Appointment>, now: int)
    ensures var r := BookingReply(S, env, t, appt, now);
      r.Reply? && r.status == Created <==>
        && !MissingToken(t) && ValidateToken(S, env, t, Some("patient"))
        && SlotCheck(S, appt) == 1
        && ValidationError(S, appt, false, now).None?
  {
  }

  /** A refused token is answered with the token check's own reply: 401. */
  lemma BadTokenAnsweredFirst(S: Db, env: Env, t: Option<Token>, appt: Option<Appointment>, now: int)
    requires MissingToken(t) || !ValidateToken(S, env, t, Some("patient"))
    ensures BookingReply(S, env, t, appt, now) == ValidateTokenReply(S, env, t, Some("patient"))
    ensures BookingReply(S, env, t, appt, now).status == Unauthorized
  {
  }

  /** With a patient's token, a missing or unknown doctor is 404 and a time
      of day the availability does not offer is 409. */
  lemma SlotRefusals(S: Db, env: Env, t: Option<Token>, appt: Option<Appointment>, now: int)
    requires !MissingToken(t) && ValidateToken(S, env, t, Some("patient"))
    ensures SlotCheck(S, appt) == -1 ==> BookingReply(S, env, t, appt, now) == Message(NotFound, "Doctor not found")
    ensures SlotCheck(S, appt) == 0 ==> BookingReply(S, env, t, appt, now) == Message(Responses.Conflict, "Selected time is not available")
  {
  }

  /** Every answer the endpoint gives keeps the store double-booking free. */
  lemma EndpointKeepsScheduleFree(S: Db, env: Env, t: Option<Token>, appt: Option<Appointment>, now: int)
    requires Valid(S) && DoubleBookingFree(S.appointments)
    ensures var r := BookingReply(S, env, t, appt, now);
      r.Reply? && r.status == Created ==>
        appt.Some? && Valid(WithAppointmentSaved(S, appt.value))
        && DoubleBookingFree(WithAppointmentSaved(S, appt.value).appointments)
  {
    var r := BookingReply(S, env, t, appt, now);
    if r.Reply? && r.status == Created {
      assert appt.Some?;
      AppointmentSavedValid(S, appt.value);
      BookingKeepsScheduleFree(S, appt.value, now);
    }
  }
}
