/** DoctorService: a doctor's free slots on a date, the AM/PM filter, the
    doctor searches, saving, updating and deleting doctors, and doctor login. */
module DoctorService {
  import opened Common
  import opened JavaText
  import opened Clock
  import opened Tables
  import opened Entities
  import opened Repository
  import opened TokenService
  import opened Responses

  // ---------------------------------------------------------------- availability

  /** The time-of-day strings of the appointments (the `bookedSlots` set). */
  function BookedTimes(rows: seq<Appointment>): (r: set<string>)
    decreases |rows|
  {
    if rows == [] then {}
    else
      var last := rows[|rows| - 1];
      BookedTimes(rows[..|rows| - 1]) + (if last.time.Some? then {TimeOfDayString(last.time.value)} else {})
  }

  lemma {:induction false} BookedTimesMembers(rows: seq<Appointment>, s: string)
    ensures s in BookedTimes(rows) <==>
      exists i :: 0 <= i < |rows| && rows[i].time.Some? && TimeOfDayString(rows[i].time.value) == s
    decreases |rows|
  {
    if rows != [] {
      var init := rows[..|rows| - 1];
      BookedTimesMembers(init, s);
      if s in BookedTimes(init) {
        var i :| 0 <= i < |init| && init[i].time.Some? && TimeOfDayString(init[i].time.value) == s;
        assert rows[i] == init[i];
      }
      if exists i :: 0 <= i < |rows| && rows[i].time.Some? && TimeOfDayString(rows[i].time.value) == s {
        var i :| 0 <= i < |rows| && rows[i].time.Some? && TimeOfDayString(rows[i].time.value) == s;
        if i < |init| {
          assert init[i] == rows[i];
        }
      }
    }
  }

  /** The `removeIf` test, negated: a template entry stays when it is not
      null and its trimmed text is not a booked time. */
  function SlotIsFree(slot: Option<string>, booked: set<string>): bool {
    slot.Some? && Trim(slot.value) !in booked
  }

  /** The doctor's template, a null template being an empty list. */
  function Template(d: Doctor): seq<Option<string>> {
    if d.availableTimes.None? then [] else d.availableTimes.value
  }

  /** The doctor's appointments on `date`. */
  function AppointmentsOn(S: Db, doctor: int, date: int): seq<Appointment> {
    AppointmentsBetween(S, Some(doctor), DayStart(date), DayEnd(date))
  }

  /** `getDoctorAvailability(doctorId, date)`. */
  function Availability(S: Db, doctorId: Option<int>, date: Option<int>): seq<Option<string>> {
    if doctorId.None? || date.None? then []
    else
      var doctor := DoctorById(S, doctorId.value);
      if doctor.None? then []
      else Filter(Template(doctor.value), SlotIsFree, BookedTimes(AppointmentsOn(S, doctorId.value, date.value)))
  }

  /** The loop that fills `bookedSlots`. */
  method CollectBookedSlots(appts: seq<Appointment>) returns (bookedSlots: set<string>)
    ensures bookedSlots == BookedTimes(appts)
  {
    bookedSlots := {};
    for i := 0 to |appts|
      invariant bookedSlots == BookedTimes(appts[..i])
    {
      assert appts[..i + 1][..i] == appts[..i];
      if appts[i].time.Some? {
        bookedSlots := bookedSlots + {TimeOfDayString(appts[i].time.value)};
      }
    }
    assert appts[..|appts|] == appts;
  }

  /** `removeIf` on an array-backed list: the entries kept are moved to the
      front, in order, and `k` is the new size. */
  method RemoveTaken(a: array<Option<string>>, bookedSlots: set<string>) returns (k: int)
    modifies a
    ensures 0 <= k <= a.Length
    ensures a[..k] == Filter(old(a[..]), SlotIsFree, bookedSlots)
  {
    ghost var src := a[..];
    k := 0;
    for i := 0 to a.Length
      invariant 0 <= k <= i
      invariant a[..k] == Filter(src[..i], SlotIsFree, bookedSlots)
      invariant a[i..] == src[i..]
    {
      ghost var kept := a[..k];
      assert src[..i + 1] == src[..i] + [src[i]];
      FilterSnoc(src[..i], src[i], SlotIsFree, bookedSlots);
      var slot := a[i];
      assert slot == src[i];
      if SlotIsFree(slot, bookedSlots) {
        a[k] := slot;
        assert a[..k + 1] == kept + [slot];
        k := k + 1;
      }
      assert a[i + 1..] == src[i + 1..];
    }
    assert src[..a.Length] == src;
  }

  /** Copies the template, collects the booked times and removes the entries
      that are null or booked. */
  method GetDoctorAvailability(db: Store, doctorId: Option<int>, date: Option<int>)
    returns (available: seq<Option<string>>)
    ensures available == Availability(db.State(), doctorId, date)
  {
    if doctorId.None? || date.None? { return []; }
    var doctor := DoctorById(db.State(), doctorId.value);
    if doctor.None? { return []; }
    var template := Template(doctor.value);
    var copy := new Option<string>[|template|](i requires 0 <= i < |template| => template[i]);
    assert copy[..] == template;
    var bookedSlots := CollectBookedSlots(AppointmentsOn(db.State(), doctorId.value, date.value));
    var k := RemoveTaken(copy, bookedSlots);
    available := copy[..k];
  }

  /** An entry is offered exactly when it is in the template, not null, and
      its trimmed text is no appointment's time of day on that date. */
  lemma AvailabilityMembers(S: Db, doctor: int, date: int, slot: Option<string>)
    requires DoctorById(S, doctor).Some?
    ensures var appts := AppointmentsOn(S, doctor, date);
      slot in Availability(S, Some(doctor), Some(date)) <==>
        && slot in Template(DoctorById(S, doctor).value) && slot.Some?
        && forall i :: 0 <= i < |appts| && appts[i].time.Some? ==> TimeOfDayString(appts[i].time.value) != Trim(slot.value)
  {
    var appts := AppointmentsOn(S, doctor, date);
    var booked := BookedTimes(appts);
    FilterMembers(Template(DoctorById(S, doctor).value), SlotIsFree, booked);
    if slot.Some? {
      BookedTimesMembers(appts, Trim(slot.value));
    }
  }

  /** No slots for a missing doctor id, a missing date or an unknown doctor. */
  lemma AvailabilityEmptyCases(S: Db, doctorId: Option<int>, date: Option<int>)
    requires doctorId.None? || date.None? || !DoctorExists(S, doctorId.value)
    ensures Availability(S, doctorId, date) == []
  {
  }

  /** On a day without appointments every non-null entry is offered, in
      template order. */
  lemma FreeDayOffersTemplate(S: Db, doctor: int, date: int)
    requires DoctorById(S, doctor).Some? && AppointmentsOn(S, doctor, date) == []
    requires forall i :: 0 <= i < |Template(DoctorById(S, doctor).value)| ==> Template(DoctorById(S, doctor).value)[i].Some?
    ensures Availability(S, Some(doctor), Some(date)) == Template(DoctorById(S, doctor).value)
  {
    assert BookedTimes(AppointmentsOn(S, doctor, date)) == {};
    FilterKeepsAll(Template(DoctorById(S, doctor).value), SlotIsFree, {});
  }

  // ---------------------------------------------------------------- the AM/PM filter

  /** Some non-null entry, trimmed and upper-cased, ends with `target`. */
  function HasShiftEnding(d: Doctor, target: string): bool {
    d.availableTimes.Some?
    && exists i :: 0 <= i < |d.availableTimes.value| && EntryEndsWith(d.availableTimes.value[i], target)
  }

  predicate EntryEndsWith(entry: Option<string>, target: string) {
    entry.Some? && EndsWith(ToUpper(Trim(entry.value)), target)
  }

  /** `filterDoctorByTime(doctors, amOrPm)`. */
  function ByTime(doctors: Option<seq<Doctor>>, amOrPm: Option<string>): seq<Doctor> {
    if doctors.None? then []
    else if IsBlank(amOrPm) then doctors.value
    else
      var target := ToUpper(Trim(amOrPm.value));
      if target != "AM" && target != "PM" then doctors.value
      else Filter(doctors.value, HasShiftEnding, target)
  }

  /** The `anyMatch` over one doctor's entries. */
  method AnyEntryEndsWith(times: seq<Option<string>>, target: string) returns (found: bool)
    ensures found <==> exists i :: 0 <= i < |times| && EntryEndsWith(times[i], target)
  {
    found := false;
    for i := 0 to |times|
      invariant found <==> exists j :: 0 <= j < i && EntryEndsWith(times[j], target)
    {
      if times[i].Some? {
        var t := Trim(times[i].value);
        if EndsWith(ToUpper(t), target) {
          found := true;
        }
      }
    }
  }

  method FilterDoctorByTime(doctors: Option<seq<Doctor>>, amOrPm: Option<string>) returns (r: seq<Doctor>)
    ensures r == ByTime(doctors, amOrPm)
  {
    if doctors.None? { return []; }
    if IsBlank(amOrPm) { return doctors.value; }
    var target := ToUpper(Trim(amOrPm.value));
    if target != "AM" && target != "PM" { return doctors.value; }
    var ds := doctors.value;
    var filtered := [];
    for i := 0 to |ds|
      invariant filtered == Filter(ds[..i], HasShiftEnding, target)
    {
      assert ds[..i + 1][..i] == ds[..i];
      var d := ds[i];
      if d.availableTimes.None? {
        continue;
      }
      var found := AnyEntryEndsWith(d.availableTimes.value, target);
      if found {
        filtered := filtered + [d];
      }
    }
    assert ds[..|ds|] == ds;
    return filtered;
  }

  /** For "AM" or "PM" (in any case, with blanks around) the filter keeps
      exactly the doctors having a matching entry, in order; for a blank or
      any other word it keeps the list; a null list becomes empty. */
  lemma ByTimeMeaning(doctors: Option<seq<Doctor>>, amOrPm: Option<string>)
    ensures doctors.None? ==> ByTime(doctors, amOrPm) == []
    ensures doctors.Some? && (IsBlank(amOrPm) || (ToUpper(Trim(amOrPm.value)) != "AM" && ToUpper(Trim(amOrPm.value)) != "PM"))
      ==> ByTime(doctors, amOrPm) == doctors.value
    ensures doctors.Some? && !IsBlank(amOrPm) && ToUpper(Trim(amOrPm.value)) in {"AM", "PM"} ==>
      forall d :: d in ByTime(doctors, amOrPm) <==> d in doctors.value && HasShiftEnding(d, ToUpper(Trim(amOrPm.value)))
  {
    if doctors.Some? && !IsBlank(amOrPm) {
      FilterMembers(doctors.value, HasShiftEnding, ToUpper(Trim(amOrPm.value)));
    }
  }

  /** Filtering the concatenation of two lists filters each in turn, so the
      doctors kept stay in the order given. */
  lemma ByTimeKeepsOrder(a: seq<Doctor>, b: seq<Doctor>, amOrPm: Option<string>)
    ensures ByTime(Some(a + b), amOrPm) == ByTime(Some(a), amOrPm) + ByTime(Some(b), amOrPm)
  {
    if !IsBlank(amOrPm) {
      FilterAppend(a, b, HasShiftEnding, ToUpper(Trim(amOrPm.value)));
    }
  }

  // ---------------------------------------------------------------- searches

  /** `if (isBlank(x)) x = "";`. */
  function OrEmpty(s: Option<string>): string {
    if IsBlank(s) then "" else s.value
  }

  /** `findDoctorByName`: a null name becomes "" and is used as the LIKE pattern. */
  function FindDoctorByName(S: Db, name: Option<string>): seq<Doctor> {
    DoctorsByNameLike(S, if name.None? then "" else name.value)
  }

  /** With no wildcard in the name the search is exact-name equality; a null
      name finds only doctors with an empty name. */
  lemma FindDoctorByNameMeaning(S: Db, name: Option<string>)
    requires name.Some? ==> '%' !in name.value && '_' !in name.value
    ensures forall d :: d in FindDoctorByName(S, name) <==>
      d in S.doctors && d.name == Some(if name.None? then "" else name.value)
  {
    var p := if name.None? then "" else name.value;
    FilterMembers(S.doctors, NameLike, p);
    forall d | d in S.doctors && d.name.Some? ensures Like(d.name.value, p) <==> d.name.value == p {
      LikeLiteral(d.name.value, p);
    }
  }

  function GetDoctors(S: Db): seq<Doctor> {
    S.doctors
  }

  method FilterDoctorsByNameSpecialtyAndTime(db: Store, name: Option<string>, specialty: Option<string>, amOrPm: Option<string>)
    returns (doctors: seq<Doctor>)
    ensures doctors == ByTime(Some(DoctorsByNameAndSpecialty(db.State(), OrEmpty(name), OrEmpty(specialty))), amOrPm)
  {
    var ds := DoctorsByNameAndSpecialty(db.State(), OrEmpty(name), OrEmpty(specialty));
    doctors := FilterDoctorByTime(Some(ds), amOrPm);
  }

  method FilterDoctorByNameAndTime(db: Store, name: Option<string>, amOrPm: Option<string>)
    returns (doctors: seq<Doctor>)
    ensures doctors == ByTime(Some(DoctorsByNameLike(db.State(), OrEmpty(name))), amOrPm)
  {
    var ds := DoctorsByNameLike(db.State(), OrEmpty(name));
    doctors := FilterDoctorByTime(Some(ds), amOrPm);
  }

  function FilterDoctorByNameAndSpecialty(S: Db, name: Option<string>, specialty: Option<string>): seq<Doctor> {
    DoctorsByNameAndSpecialty(S, OrEmpty(name), OrEmpty(specialty))
  }

  /** The name-and-specialty search lists exactly the stored doctors whose
      name contains the name ignoring case and whose specialty equals the
      specialty ignoring case (a blank filter becomes ""). */
  lemma NameAndSpecialtyMembers(S: Db, name: Option<string>, specialty: Option<string>)
    ensures forall d :: d in FilterDoctorByNameAndSpecialty(S, name, specialty) <==>
      && d in S.doctors
      && d.name.Some? && ContainsIgnoreCase(d.name.value, OrEmpty(name))
      && d.specialty.Some? && EqualsIgnoreCase(d.specialty.value, OrEmpty(specialty))
  {
    FilterMembers(S.doctors, NameContainsSpecialtyIs, NameAndSpecialty(OrEmpty(name), OrEmpty(specialty)));
  }

  method FilterDoctorByTimeAndSpecialty(db: Store, specialty: Option<string>, amOrPm: Option<string>)
    returns (doctors: seq<Doctor>)
    ensures doctors == ByTime(Some(DoctorsBySpecialty(db.State(), OrEmpty(specialty))), amOrPm)
  {
    var ds := DoctorsBySpecialty(db.State(), OrEmpty(specialty));
    doctors := FilterDoctorByTime(Some(ds), amOrPm);
  }

  function FilterDoctorBySpecialty(S: Db, specialty: Option<string>): seq<Doctor> {
    DoctorsBySpecialty(S, OrEmpty(specialty))
  }

  /** The specialty search lists exactly the stored doctors whose specialty
      equals the specialty ignoring case (a blank filter becomes ""). */
  lemma SpecialtyMembers(S: Db, specialty: Option<string>)
    ensures forall d :: d in FilterDoctorBySpecialty(S, specialty) <==>
      d in S.doctors && d.specialty.Some? && EqualsIgnoreCase(d.specialty.value, OrEmpty(specialty))
  {
    FilterMembers(S.doctors, SpecialtyIs, OrEmpty(specialty));
  }

  method FilterDoctorsByTime(db: Store, amOrPm: Option<string>) returns (doctors: seq<Doctor>)
    ensures doctors == ByTime(Some(db.State().doctors), amOrPm)
  {
    doctors := FilterDoctorByTime(Some(db.State().doctors), amOrPm);
  }

  /** Every search returns stored doctors only. */
  lemma SearchesReturnStoredDoctors(S: Db, name: Option<string>, specialty: Option<string>, amOrPm: Option<string>)
    ensures forall d :: d in ByTime(Some(DoctorsByNameAndSpecialty(S, OrEmpty(name), OrEmpty(specialty))), amOrPm) ==> d in S.doctors
    ensures forall d :: d in ByTime(Some(DoctorsBySpecialty(S, OrEmpty(specialty))), amOrPm) ==> d in S.doctors
    ensures forall d :: d in ByTime(Some(DoctorsByNameLike(S, OrEmpty(name))), amOrPm) ==> d in S.doctors
  {
    var a := DoctorsByNameAndSpecialty(S, OrEmpty(name), OrEmpty(specialty));
    var b := DoctorsBySpecialty(S, OrEmpty(specialty));
    var c := DoctorsByNameLike(S, OrEmpty(name));
    ByTimeMeaning(Some(a), amOrPm);
    ByTimeMeaning(Some(b), amOrPm);
    ByTimeMeaning(Some(c), amOrPm);
    FilterMembers(S.doctors, NameContainsSpecialtyIs, NameAndSpecialty(OrEmpty(name), OrEmpty(specialty)));
    FilterMembers(S.doctors, SpecialtyIs, OrEmpty(specialty));
    FilterMembers(S.doctors, NameLike, OrEmpty(name));
  }

  // ---------------------------------------------------------------- writes

  /** The result code of `saveDoctor`; it writes only when the code is 1. A
      finder that sees two doctors with the email throws, and the exception
      is caught as 0. */
  function SaveDoctorResult(S: Db, doctor: Option<Doctor>): int {
    if doctor.None? || doctor.value.email.None? then 0
    else
      var existing := DoctorByEmail(S, doctor.value.email);
      if existing.Unique? then -1
      else if existing.Ambiguous? then 0
      else 1
  }

  method SaveDoctor(db: Store, doctor: Option<Doctor>) returns (r: int)
    modifies db
    ensures r == SaveDoctorResult(old(db.State()), doctor)
    ensures db.State() == if r == 1 then WithDoctorSaved(old(db.State()), doctor.value) else old(db.State())
  {
    if doctor.None? || doctor.value.email.None? { return 0; }
    var existing := DoctorByEmail(db.State(), doctor.value.email);
    if existing.Unique? { return -1; }
    if existing.Ambiguous? { return 0; }
    db.SaveDoctor(doctor.value);
    return 1;
  }

  /** A doctor is added only when the email is present and no stored doctor has it. */
  lemma SaveDoctorMeaning(S: Db, doctor: Option<Doctor>)
    ensures SaveDoctorResult(S, doctor) in {-1, 0, 1}
    ensures SaveDoctorResult(S, doctor) == 1 <==>
      doctor.Some? && doctor.value.email.Some?
      && forall i :: 0 <= i < |S.doctors| ==> S.doctors[i].email != doctor.value.email
    ensures SaveDoctorResult(S, doctor) == -1 ==>
      exists i :: 0 <= i < |S.doctors| && S.doctors[i].email == doctor.value.email
  {
    if doctor.Some? && doctor.value.email.Some? && DoctorByEmail(S, doctor.value.email).Unique? {
      var d := DoctorByEmail(S, doctor.value.email).value;
      var i :| 0 <= i < |S.doctors| && S.doctors[i] == d;
    }
  }

  function UpdateDoctorResult(S: Db, doctor: Option<Doctor>): int {
    if doctor.None? || doctor.value.id.None? then 0
    else if !DoctorExists(S, doctor.value.id.value) then -1
    else 1
  }

  method UpdateDoctor(db: Store, doctor: Option<Doctor>) returns (r: int)
    modifies db
    ensures r == UpdateDoctorResult(old(db.State()), doctor)
    ensures db.State() == if r == 1 then WithDoctorSaved(old(db.State()), doctor.value) else old(db.State())
  {
    if doctor.None? || doctor.value.id.None? { return 0; }
    var known := DoctorExists(db.State(), doctor.value.id.value);
    if !known { return -1; }
    db.SaveDoctor(doctor.value);
    return 1;
  }

  /** An update overwrites the stored doctor with that id and adds no row;
      every other doctor and every other table stays as it was. */
  lemma UpdateDoctorOverwrites(S: Db, doctor: Option<Doctor>)
    requires Valid(S) && UpdateDoctorResult(S, doctor) == 1
    ensures var S' := WithDoctorSaved(S, doctor.value);
      |S'.doctors| == |S.doctors| && S'.nextId == S.nextId
      && DoctorById(S', doctor.value.id.value) == doctor
    ensures var S' := WithDoctorSaved(S, doctor.value);
      forall d :: d in S.doctors && d.id != doctor.value.id ==> d in S'.doctors
    ensures var S' := WithDoctorSaved(S, doctor.value);
      S'.appointments == S.appointments && S'.patients == S.patients && S'.admins == S.admins
  {
    forall e | e in S.doctors && e.id != doctor.value.id
      ensures e in WithDoctorSaved(S, doctor.value).doctors
    {
      var j :| 0 <= j < |S.doctors| && S.doctors[j] == e;
      assert WithDoctorSaved(S, doctor.value).doctors[j] == e;
    }
    var d := doctor.value;
    var k := d.id.value;
    var i :| 0 <= i < |S.doctors| && DoctorKey(S.doctors[i]) == Some(k);
    var S' := WithDoctorSaved(S, d);
    DoctorSavedValid(S, d);
    assert S'.doctors[i] == d;
    GetUnique(S'.doctors, DoctorKey, S'.nextId, k, i);
  }

  function DeleteDoctorResult(S: Db, id: int): int {
    if !DoctorExists(S, id) then -1 else 1
  }

  /** The doctor's appointments are deleted first, then the doctor. */
  function WithDoctorRemoved(S: Db, id: int): Db {
    WithDoctorDeleted(WithDoctorAppointmentsDeleted(S, id), id)
  }

  method DeleteDoctor(db: Store, id: int) returns (r: int)
    modifies db
    ensures r == DeleteDoctorResult(old(db.State()), id)
    ensures db.State() == if r == 1 then WithDoctorRemoved(old(db.State()), id) else old(db.State())
  {
    if !DoctorExists(db.State(), id) { return -1; }
    db.DeleteAllByDoctorId(id);
    db.DeleteDoctorById(id);
    return 1;
  }

  /** After the cascade no appointment and no doctor has that id; every other
      doctor and every appointment of another doctor is kept. */
  lemma DeleteDoctorCascade(S: Db, id: int)
    ensures var S' := WithDoctorRemoved(S, id);
      && !DoctorExists(S', id)
      && (forall a :: a in S'.appointments <==> a in S.appointments && DoctorIdOf(a) != Some(id))
      && (forall d :: d in S'.doctors <==> d in S.doctors && d.id != Some(id))
      && S'.patients == S.patients && S'.admins == S.admins
  {
    var S1 := WithDoctorAppointmentsDeleted(S, id);
    FilterMembers(S.appointments, NotOfDoctor, id);
    DeleteMembers(S1.doctors, DoctorKey, id);
    DeleteHasKey(S1.doctors, DoctorKey, id, id);
  }

  // ---------------------------------------------------------------- login

  /** `validateDoctor(login)`. A stored doctor without a password makes the
      comparison throw. */
  function ValidateDoctor(S: Db, env: Env, login: Option<Login>): Reply {
    if login.None? || login.value.identifier.None? || login.value.password.None? then
      Message(BadRequest, "Missing credentials")
    else
      var doctor := DoctorByEmail(S, login.value.identifier);
      if doctor.Absent? then Message(Unauthorized, "Invalid credentials")
      else if doctor.Ambiguous? || doctor.value.password.None? then Threw
      else if doctor.value.password != login.value.password then Message(Unauthorized, "Invalid credentials")
      else Reply(Ok, Body(Some("Login successful"), Some(GenerateToken(env, doctor.value.email)), None, None))
  }

  /** A token is issued only for a stored doctor whose email is the identifier
      and whose password equals the one given; its subject is that email.
      Missing fields are 400, an unknown email or a wrong password 401. */
  lemma DoctorLoginMeaning(S: Db, env: Env, login: Option<Login>)
    ensures var r := ValidateDoctor(S, env, login);
      r.Reply? && r.status == Ok ==>
        exists i :: 0 <= i < |S.doctors| && S.doctors[i].email == login.value.identifier
          && S.doctors[i].password == login.value.password
          && r.body.token == Some(GenerateToken(env, login.value.identifier))
    ensures var r := ValidateDoctor(S, env, login);
      login.Some? && login.value.identifier.Some? && login.value.password.Some?
      && (forall i :: 0 <= i < |S.doctors| ==> S.doctors[i].email != login.value.identifier)
      ==> r == Message(Unauthorized, "Invalid credentials")
    ensures login.None? || login.value.identifier.None? || login.value.password.None? ==>
      ValidateDoctor(S, env, login) == Message(BadRequest, "Missing credentials")
    ensures login.Some? && login.value.identifier.Some? && login.value.password.Some? ==>
      var doctor := DoctorByEmail(S, login.value.identifier);
      doctor.Unique? && doctor.value.password.Some? && doctor.value.password != login.value.password ==>
        ValidateDoctor(S, env, login) == Message(Unauthorized, "Invalid credentials")
    ensures var r := ValidateDoctor(S, env, login);
      r.Reply? && r.status == Ok <==>
        && login.Some? && login.value.identifier.Some? && login.value.password.Some?
        && DoctorByEmail(S, login.value.identifier).Unique?
        && DoctorByEmail(S, login.value.identifier).value.password == login.value.password
  {
    var r := ValidateDoctor(S, env, login);
    if r.Reply? && r.status == Ok {
      var d := DoctorByEmail(S, login.value.identifier).value;
      var i :| 0 <= i < |S.doctors| && S.doctors[i] == d;
    }
  }
}
