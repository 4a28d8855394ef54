/** PatientService: a patient's own appointments, filtered by condition
    (past or future) and by doctor name, the patient's details, and
    registration. */
module PatientService {
  import opened Common
  import opened JavaText
  import opened Tables
  import opened Entities
  import opened Repository
  import opened TokenService
  import opened Responses

  /** `Integer.MIN_VALUE`, the "no such condition" sentinel. */
  const IntMin: int := -0x8000_0000

  /** `conditionToStatus(condition)`: "past" is status 1 (completed),
      "future" status 0 (scheduled), after trim and lower-casing. */
  function ConditionToStatus(condition: Option<string>): (r: int)
    ensures r in {1, 0, IntMin}
  {
    if condition.None? then IntMin
    else
      var c := ToLower(Trim(condition.value));
      if c == "past" then 1
      else if c == "future" then 0
      else IntMin
  }

  /** `getPatientFromToken(token)`: the one patient whose email is the
      token's subject; null for a null or blank subject, for no match, and
      for two matches (the finder's exception is caught). */
  function PatientFromToken(S: Db, env: Env, t: Option<Token>): (r: Option<Patient>)
    ensures r.Some? ==> r.value in S.patients && r.value.email.Some? && ExtractEmail(env, t) == r.value.email
    ensures ExtractEmail(env, t).None? || JavaIsBlank(ExtractEmail(env, t).value) ==> r.None?
  {
    var email := ExtractEmail(env, t);
    if email.None? || JavaIsBlank(email.value) then None
    else
      var p := PatientByEmail(S, email);
      if p.Unique? then Some(p.value) else None
  }

  /** `getPatientAppointment(id, token)`. A stored patient without an id
      makes the comparison throw. */
  function GetPatientAppointment(S: Db, env: Env, id: Option<int>, t: Option<Token>): Reply {
    if id.None? || MissingToken(t) then Message(BadRequest, "Missing patientId or token")
    else
      var p := PatientFromToken(S, env, t);
      if p.None? then Message(Unauthorized, "Invalid token")
      else if p.value.id.None? then Threw
      else if p.value.id != id then Message(Unauthorized, "Unauthorized: patientId does not match token")
      else Listed(ToDtos(S, AppointmentsOfPatient(S, id.value)))
  }

  /** `filterByCondition(condition, id)`. */
  function FilterByCondition(S: Db, condition: Option<string>, id: Option<int>): Reply {
    if id.None? then Message(BadRequest, "Missing patientId")
    else
      var status := ConditionToStatus(condition);
      if status == IntMin then Message(BadRequest, "Invalid condition. Use 'past' or 'future'")
      else Listed(ToDtos(S, AppointmentsOfPatientWithStatus(S, id.value, status)))
  }

  /** The doctor-name fragment: "" for null, otherwise trimmed. */
  function DoctorNameFragment(name: Option<string>): string {
    if name.None? then "" else Trim(name.value)
  }

  /** `filterByDoctor(name, patientId)`. */
  function FilterByDoctor(S: Db, name: Option<string>, patientId: Option<int>): Reply {
    if patientId.None? then Message(BadRequest, "Missing patientId")
    else Listed(ToDtos(S, AppointmentsByDoctorName(S, DoctorNameFragment(name), patientId.value)))
  }

  /** `filterByDoctorAndCondition(condition, name, patientId)`; the id is a
      primitive `long`, so it is never null here. */
  function FilterByDoctorAndCondition(S: Db, condition: Option<string>, name: Option<string>, patientId: int): Reply {
    var status := ConditionToStatus(condition);
    if status == IntMin then Message(BadRequest, "Invalid condition. Use 'past' or 'future'")
    else Listed(ToDtos(S, AppointmentsByDoctorNameAndStatus(S, DoctorNameFragment(name), patientId, status)))
  }

  /** `getPatientDetails(token)`. */
  function GetPatientDetails(S: Db, env: Env, t: Option<Token>): Reply {
    if MissingToken(t) then Message(BadRequest, "Missing token")
    else
      var p := PatientFromToken(S, env, t);
      if p.None? then Message(Unauthorized, "Invalid token or patient not found")
      else Reply(Ok, EmptyBody.(patient := p))
  }

  /** `createPatient(patient)`: saving null throws and is caught as 0. */
  function CreatePatientResult(patient: Option<Patient>): int {
    if patient.None? then 0 else 1
  }

  method CreatePatient(db: Store, patient: Option<Patient>) returns (r: int)
    modifies db
    ensures r == CreatePatientResult(patient)
    ensures db.State() == if r == 1 then WithPatientSaved(old(db.State()), patient.value) else old(db.State())
  {
    if patient.None? { return 0; }
    db.SavePatient(patient.value);
    return 1;
  }

  // ---------------------------------------------------------------- lemmas

  /** Exactly "past" and "future" (after trim, in any letter case) are
      conditions; everything else, null included, is the sentinel. */
  lemma ConditionMeaning(condition: Option<string>)
    ensures ConditionToStatus(condition) == 1 <==> condition.Some? && ToLower(Trim(condition.value)) == "past"
    ensures ConditionToStatus(condition) == 0 <==> condition.Some? && ToLower(Trim(condition.value)) == "future"
    ensures ConditionToStatus(condition) == IntMin <==>
      condition.None? || (ToLower(Trim(condition.value)) != "past" && ToLower(Trim(condition.value)) != "future")
  {
  }

  /** A patient lists only their own appointments: on 200 the token's
      subject is the email of the stored patient with the requested id, and
      the listing is every appointment of that patient, in table order. */
  lemma OwnAppointmentsOnly(S: Db, env: Env, id: Option<int>, t: Option<Token>)
    ensures var r := GetPatientAppointment(S, env, id, t);
      r.Reply? && r.status == Ok ==>
        && id.Some?
        && (exists p :: p in S.patients && p.id == id && p.email.Some? && ExtractEmail(env, t) == p.email)
        && r.body.appointments == Some(ToDtos(S, AppointmentsOfPatient(S, id.value)))
        && forall a :: a in AppointmentsOfPatient(S, id.value) <==> a in S.appointments && PatientIdOf(a) == id
  {
    var r := GetPatientAppointment(S, env, id, t);
    if r.Reply? && r.status == Ok {
      var p := PatientFromToken(S, env, t).value;
      assert p in S.patients && p.id == id;
      FilterMembers(S.appointments, OfPatient, id.value);
    }
  }

  /** A token naming a patient with another id cannot list `id`'s appointments. */
  lemma OtherPatientRefused(S: Db, env: Env, id: int, t: Option<Token>)
    requires !MissingToken(t)
    requires PatientFromToken(S, env, t).Some? && PatientFromToken(S, env, t).value.id.Some?
    requires PatientFromToken(S, env, t).value.id != Some(id)
    ensures GetPatientAppointment(S, env, Some(id), t) == Message(Unauthorized, "Unauthorized: patientId does not match token")
  {
  }

  /** The resolver yields null for a token whose subject no patient has. */
  lemma UnknownSubjectHasNoPatient(S: Db, env: Env, t: Option<Token>)
    requires forall i :: 0 <= i < |S.patients| ==> S.patients[i].email != ExtractEmail(env, t)
    ensures PatientFromToken(S, env, t).None?
  {
  }

  /** On a valid condition the answer lists, sorted by time (null first),
      exactly that patient's appointments with the status it maps to. */
  lemma ConditionListing(S: Db, condition: Option<string>, id: int)
    requires ConditionToStatus(condition) != IntMin
    ensures var status := ConditionToStatus(condition);
      var rows := AppointmentsOfPatientWithStatus(S, id, status);
      && FilterByCondition(S, condition, Some(id)) == Listed(ToDtos(S, rows))
      && SortedByTime(rows)
      && (forall a :: a in rows <==> a in S.appointments && PatientIdOf(a) == Some(id) && a.status == status)
      && (status == 1 <==> ToLower(Trim(condition.value)) == "past")
  {
  }

  /** The DTO list keeps the order of the rows: its times ascend too. */
  lemma ListingTimesAscend(S: Db, rows: seq<Appointment>)
    requires SortedByTime(rows)
    ensures var dtos := ToDtos(S, rows);
      forall i, j :: 0 <= i < j < |dtos| ==> dtos[i].time.None? || (dtos[j].time.Some? && dtos[i].time.value <= dtos[j].time.value)
  {
    var dtos := ToDtos(S, rows);
    forall i, j | 0 <= i < j < |dtos|
      ensures dtos[i].time.None? || (dtos[j].time.Some? && dtos[i].time.value <= dtos[j].time.value)
    {
      assert TimeNotAfter(rows[i], rows[j]);
    }
  }

  /** An invalid condition is refused before any query, whatever the name. */
  lemma InvalidConditionFirst(S: Db, condition: Option<string>, name: Option<string>, patientId: int)
    requires ConditionToStatus(condition) == IntMin
    ensures FilterByDoctorAndCondition(S, condition, name, patientId) == Message(BadRequest, "Invalid condition. Use 'past' or 'future'")
  {
  }

  /** The doctor filter lists only the patient's appointments with a
      resolvable doctor whose name contains the trimmed fragment, ignoring
      case; a null name behaves as "". */
  lemma DoctorFilterMeaning(S: Db, name: Option<string>, patientId: int)
    ensures DoctorNameFragment(None) == ""
    ensures var rows := AppointmentsByDoctorName(S, DoctorNameFragment(name), patientId);
      && FilterByDoctor(S, name, Some(patientId)) == Listed(ToDtos(S, rows))
      && forall a :: a in rows <==>
        && a in S.appointments && PatientIdOf(a) == Some(patientId) && DoctorIdOf(a).Some?
        && var d := Get(S.doctors, DoctorKey, DoctorIdOf(a).value);
        && d.Some? && d.value.name.Some? && ContainsIgnoreCase(d.value.name.value, DoctorNameFragment(name))
  {
    FilterMembers(S.appointments, DoctorNameMatches, DoctorNameQuery(S.doctors, DoctorNameFragment(name), patientId, None));
  }

  /** With a valid condition the combined filter lists exactly the rows of
      the doctor filter that have the condition's status. */
  lemma DoctorAndConditionMeaning(S: Db, condition: Option<string>, name: Option<string>, patientId: int)
    requires ConditionToStatus(condition) != IntMin
    ensures var status := ConditionToStatus(condition);
      var rows := AppointmentsByDoctorNameAndStatus(S, DoctorNameFragment(name), patientId, status);
      && FilterByDoctorAndCondition(S, condition, name, patientId) == Listed(ToDtos(S, rows))
      && forall a :: a in rows <==> a in AppointmentsByDoctorName(S, DoctorNameFragment(name), patientId) && a.status == status
  {
    var status := ConditionToStatus(condition);
    var f := DoctorNameFragment(name);
    FilterMembers(S.appointments, DoctorNameMatches, DoctorNameQuery(S.doctors, f, patientId, Some(status)));
    FilterMembers(S.appointments, DoctorNameMatches, DoctorNameQuery(S.doctors, f, patientId, None));
  }

  /** The details returned are the stored record of the token's patient. */
  lemma DetailsAreTokenPatient(S: Db, env: Env, t: Option<Token>)
    ensures var r := GetPatientDetails(S, env, t);
      && r.Reply?
      && (r.status == Ok <==> !MissingToken(t) && PatientFromToken(S, env, t).Some?)
      && (r.status == Ok ==>
            r.body.patient.Some? && r.body.patient.value in S.patients
            && r.body.patient.value.email.Some? && ExtractEmail(env, t) == r.body.patient.value.email)
  {
  }

  /** Registering a patient adds exactly one row, with a fresh id, when the
      id is not already stored. */
  lemma CreatePatientAdds(S: Db, p: Patient)
    requires Valid(S)
    requires p.id.None? || !PatientExists(S, p.id.value)
    ensures var S' := WithPatientSaved(S, p);
      Valid(S') && S'.patients == S.patients + [p.(id := Some(S.nextId))] && S'.nextId == S.nextId + 1
  {
    PatientSavedValid(S, p);
  }
}
