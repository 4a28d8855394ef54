/** The four Spring Data repositories over one in-memory database value `Db`,
    and the `Store` object the services mutate through `save` and `delete`.
    Tables keep rows in insertion order, which is the order a derived query
    without ORDER BY returns them in. A null query parameter means IS NULL,
    so parameters and fields compare as `Option` values. */
module Repository {
  import opened Common
  import opened JavaText
  import opened Tables
  import opened Entities

  /** The database: one table per entity and the id generator. */
  datatype Db = Db(
    admins: seq<Admin>,
    doctors: seq<Doctor>,
    patients: seq<Patient>,
    appointments: seq<Appointment>,
    nextId: int)

  /** Generated ids: every stored row has a distinct id below `nextId`. */
  predicate Valid(S: Db) {
    && KeysOk(S.admins, AdminKey, S.nextId)
    && KeysOk(S.doctors, DoctorKey, S.nextId)
    && KeysOk(S.patients, PatientKey, S.nextId)
    && KeysOk(S.appointments, AppointmentKey, S.nextId)
  }

  // ---------------------------------------------------------------- admins

  function UsernameIs(a: Admin, username: Option<string>): bool {
    a.username == username
  }

  /** `AdminRepository.findByUsername`. */
  function AdminByUsername(S: Db, username: Option<string>): (r: Lookup<Admin>)
    ensures r.Unique? ==> r.value in S.admins && r.value.username == username
    ensures r == Absent <==> forall i :: 0 <= i < |S.admins| ==> S.admins[i].username != username
  {
    FilterEmpty(S.admins, UsernameIs, username);
    Single(Filter(S.admins, UsernameIs, username))
  }

  // ---------------------------------------------------------------- doctors

  predicate DoctorExists(S: Db, k: int) {
    HasKey(S.doctors, DoctorKey, k)
  }

  /** `DoctorRepository.findById`. */
  function DoctorById(S: Db, k: int): Option<Doctor> {
    Get(S.doctors, DoctorKey, k)
  }

  function DoctorEmailIs(d: Doctor, email: Option<string>): bool {
    d.email == email
  }

  /** `DoctorRepository.findByEmail`. */
  function DoctorByEmail(S: Db, email: Option<string>): (r: Lookup<Doctor>)
    ensures r.Unique? ==> r.value in S.doctors && r.value.email == email
    ensures r == Absent <==> forall i :: 0 <= i < |S.doctors| ==> S.doctors[i].email != email
  {
    FilterEmpty(S.doctors, DoctorEmailIs, email);
    Single(Filter(S.doctors, DoctorEmailIs, email))
  }

  /** SQL `s LIKE p` without an escape character: `%` matches any run of
      chars, `_` exactly one char, anything else itself. */
  predicate Like(s: string, p: string)
    decreases |s| + |p|
  {
    if p == [] then s == []
    else if p[0] == '%' then Like(s, p[1..]) || (s != [] && Like(s[1..], p))
    else s != [] && (p[0] == '_' || p[0] == s[0]) && Like(s[1..], p[1..])
  }

  /** A pattern without wildcards matches exactly the string it spells. */
  lemma {:induction false} LikeLiteral(s: string, p: string)
    requires '%' !in p && '_' !in p
    ensures Like(s, p) <==> s == p
    decreases |p|
  {
    if p != [] {
      assert p[0] != '%' && p[0] != '_';
      assert '%' !in p[1..] && '_' !in p[1..];
      if s != [] {
        LikeLiteral(s[1..], p[1..]);
        if s == p {
          assert s[1..] == p[1..];
        }
        if s[0] == p[0] && s[1..] == p[1..] {
          assert s == [s[0]] + s[1..];
          assert p == [p[0]] + p[1..];
        }
      }
    }
  }

  /** A pattern of one `%` matches every string. */
  lemma {:induction false} LikeAnything(s: string)
    ensures Like(s, "%")
    decreases |s|
  {
    assert "%"[1..] == [];
    if s != [] {
      LikeAnything(s[1..]);
    }
  }

  function NameLike(d: Doctor, pattern: string): bool {
    d.name.Some? && Like(d.name.value, pattern)
  }

  /** `DoctorRepository.findByNameLike`: the argument is the LIKE pattern itself. */
  function DoctorsByNameLike(S: Db, pattern: string): seq<Doctor> {
    Filter(S.doctors, NameLike, pattern)
  }

  /** `s` contains `fragment` when both are upper-cased. */
  predicate ContainsIgnoreCase(s: string, fragment: string) {
    Contains(ToUpper(s), ToUpper(fragment))
  }

  datatype NameAndSpecialty = NameAndSpecialty(name: string, specialty: string)

  function NameContainsSpecialtyIs(d: Doctor, q: NameAndSpecialty): bool {
    && d.name.Some? && ContainsIgnoreCase(d.name.value, q.name)
    && d.specialty.Some? && EqualsIgnoreCase(d.specialty.value, q.specialty)
  }

  /** `findByNameContainingIgnoreCaseAndSpecialtyIgnoreCase`. */
  function DoctorsByNameAndSpecialty(S: Db, name: string, specialty: string): seq<Doctor> {
    Filter(S.doctors, NameContainsSpecialtyIs, NameAndSpecialty(name, specialty))
  }

  function SpecialtyIs(d: Doctor, specialty: string): bool {
    d.specialty.Some? && EqualsIgnoreCase(d.specialty.value, specialty)
  }

  /** `findBySpecialtyIgnoreCase`. */
  function DoctorsBySpecialty(S: Db, specialty: string): seq<Doctor> {
    Filter(S.doctors, SpecialtyIs, specialty)
  }

  // ---------------------------------------------------------------- patients

  predicate PatientExists(S: Db, k: int) {
    HasKey(S.patients, PatientKey, k)
  }

  function PatientEmailIs(p: Patient, email: Option<string>): bool {
    p.email == email
  }

  /** `PatientRepository.findByEmail`. */
  function PatientByEmail(S: Db, email: Option<string>): (r: Lookup<Patient>)
    ensures r.Unique? ==> r.value in S.patients && r.value.email == email
    ensures r == Absent <==> forall i :: 0 <= i < |S.patients| ==> S.patients[i].email != email
  {
    FilterEmpty(S.patients, PatientEmailIs, email);
    Single(Filter(S.patients, PatientEmailIs, email))
  }

  datatype Contact = Contact(email: Option<string>, phone: Option<string>)

  function EmailOrPhoneIs(p: Patient, c: Contact): bool {
    p.email == c.email || p.phone == c.phone
  }

  /** `PatientRepository.findByEmailOrPhone`. */
  function PatientByEmailOrPhone(S: Db, email: Option<string>, phone: Option<string>): (r: Lookup<Patient>)
    ensures r == Absent <==>
      forall i :: 0 <= i < |S.patients| ==> S.patients[i].email != email && S.patients[i].phone != phone
  {
    FilterEmpty(S.patients, EmailOrPhoneIs, Contact(email, phone));
    Single(Filter(S.patients, EmailOrPhoneIs, Contact(email, phone)))
  }

  // ---------------------------------------------------------------- joins

  /** The doctor an appointment row refers to, if the reference resolves. */
  function ResolveDoctor(S: Db, a: Appointment): Option<Doctor> {
    if DoctorIdOf(a).Some? then Get(S.doctors, DoctorKey, DoctorIdOf(a).value) else None
  }

  function ResolvePatient(S: Db, a: Appointment): Option<Patient> {
    if PatientIdOf(a).Some? then Get(S.patients, PatientKey, PatientIdOf(a).value) else None
  }

  /** `toDTO` of AppointmentService and of PatientService (they are the same
      projection): the doctor's and patient's fields are null when the
      reference is missing. */
  function ToDto(S: Db, a: Appointment): (r: AppointmentDto)
    ensures r.id == a.id && r.time == a.time && r.status == a.status
    ensures ResolveDoctor(S, a).None? ==> r.doctorId.None? && r.doctorName.None?
    ensures ResolvePatient(S, a).None? ==>
      r.patientId.None? && r.patientName.None? && r.patientEmail.None?
      && r.patientPhone.None? && r.patientAddress.None?
    ensures ResolveDoctor(S, a).Some? ==>
      r.doctorId == ResolveDoctor(S, a).value.id && r.doctorName == ResolveDoctor(S, a).value.name
    ensures ResolvePatient(S, a).Some? ==>
      var p := ResolvePatient(S, a).value;
      r.patientId == p.id && r.patientName == p.name && r.patientEmail == p.email
      && r.patientPhone == p.phone && r.patientAddress == p.address
  {
    var d := ResolveDoctor(S, a);
    var p := ResolvePatient(S, a);
    AppointmentDto(
      a.id,
      if d.Some? then d.value.id else None,
      if d.Some? then d.value.name else None,
      if p.Some? then p.value.id else None,
      if p.Some? then p.value.name else None,
      if p.Some? then p.value.email else None,
      if p.Some? then p.value.phone else None,
      if p.Some? then p.value.address else None,
      a.time,
      a.status)
  }

  function ToDtos(S: Db, rows: seq<Appointment>): (r: seq<AppointmentDto>)
    ensures |r| == |rows| && forall i :: 0 <= i < |rows| ==> r[i] == ToDto(S, rows[i])
  {
    seq(|rows|, i requires 0 <= i < |rows| => ToDto(S, rows[i]))
  }

  // ---------------------------------------------------------------- appointments

  function AppointmentById(S: Db, k: int): Option<Appointment> {
    Get(S.appointments, AppointmentKey, k)
  }

  predicate AppointmentExists(S: Db, k: int) {
    HasKey(S.appointments, AppointmentKey, k)
  }

  /** A doctor id and an inclusive time range. */
  datatype Window = Window(doctor: Option<int>, start: int, end: int)

  function InWindow(a: Appointment, w: Window): bool {
    DoctorIdOf(a) == w.doctor && a.time.Some? && w.start <= a.time.value <= w.end
  }

  /** `findByDoctorIdAndAppointmentTimeBetween`. */
  function AppointmentsBetween(S: Db, doctor: Option<int>, start: int, end: int): (r: seq<Appointment>)
    ensures forall i :: 0 <= i < |r| ==> r[i] in S.appointments && InWindow(r[i], Window(doctor, start, end))
  {
    Filter(S.appointments, InWindow, Window(doctor, start, end))
  }

  datatype NameWindow = NameWindow(patients: seq<Patient>, window: Window, fragment: string)

  function InWindowWithPatientName(a: Appointment, q: NameWindow): bool {
    && InWindow(a, q.window)
    && PatientIdOf(a).Some?
    && var p := Get(q.patients, PatientKey, PatientIdOf(a).value);
    && p.Some? && p.value.name.Some? && ContainsIgnoreCase(p.value.name.value, q.fragment)
  }

  /** `findByDoctorIdAndPatient_NameContainingIgnoreCaseAndAppointmentTimeBetween`. */
  function AppointmentsBetweenWithPatientName(S: Db, doctor: Option<int>, fragment: string, start: int, end: int): seq<Appointment> {
    Filter(S.appointments, InWindowWithPatientName, NameWindow(S.patients, Window(doctor, start, end), fragment))
  }

  function OfPatient(a: Appointment, patient: int): bool {
    PatientIdOf(a) == Some(patient)
  }

  /** `findByPatientId`. */
  function AppointmentsOfPatient(S: Db, patient: int): seq<Appointment> {
    Filter(S.appointments, OfPatient, patient)
  }

  datatype PatientStatus = PatientStatus(patient: int, status: int)

  function OfPatientWithStatus(a: Appointment, q: PatientStatus): bool {
    PatientIdOf(a) == Some(q.patient) && a.status == q.status
  }

  /** ORDER BY appointmentTime ASC, with a null time first. */
  predicate TimeNotAfter(a: Appointment, b: Appointment) {
    a.time.None? || (b.time.Some? && a.time.value <= b.time.value)
  }

  predicate SortedByTime(rows: seq<Appointment>) {
    forall i, j :: 0 <= i < j < |rows| ==> TimeNotAfter(rows[i], rows[j])
  }

  /** Insert `x` before the first row that is strictly later. */
  function InsertByTime(x: Appointment, rows: seq<Appointment>): (r: seq<Appointment>)
    requires SortedByTime(rows)
    ensures SortedByTime(r) && multiset(r) == multiset(rows) + multiset{x}
    decreases |rows|
  {
    if rows == [] then [x]
    else if TimeNotAfter(x, rows[0]) then
      assert forall i :: 0 <= i < |rows| ==> TimeNotAfter(rows[0], rows[i]);
      [x] + rows
    else
      var t := InsertByTime(x, rows[1..]);
      assert rows == [rows[0]] + rows[1..];
      assert forall i :: 0 <= i < |t| ==> t[i] in multiset(rows[1..]) + multiset{x};
      assert forall i :: 0 <= i < |t| ==> TimeNotAfter(rows[0], t[i]) by {
        forall i | 0 <= i < |t| ensures TimeNotAfter(rows[0], t[i]) {
          assert t[i] in multiset(rows[1..]) + multiset{x};
          if t[i] != x {
            assert t[i] in rows[1..];
          }
        }
      }
      [rows[0]] + t
  }

  /** A stable sort by appointment time: the rows of the query, reordered. */
  function SortByTime(rows: seq<Appointment>): (r: seq<Appointment>)
    ensures SortedByTime(r) && multiset(r) == multiset(rows)
    decreases |rows|
  {
    if rows == [] then []
    else
      assert rows == [rows[0]] + rows[1..];
      InsertByTime(rows[0], SortByTime(rows[1..]))
  }

  /** `findByPatient_IdAndStatusOrderByAppointmentTimeAsc`. */
  function AppointmentsOfPatientWithStatus(S: Db, patient: int, status: int): (r: seq<Appointment>)
    ensures SortedByTime(r)
    ensures forall a :: a in r <==> a in S.appointments && PatientIdOf(a) == Some(patient) && a.status == status
  {
    var hits := Filter(S.appointments, OfPatientWithStatus, PatientStatus(patient, status));
    FilterMembers(S.appointments, OfPatientWithStatus, PatientStatus(patient, status));
    var r := SortByTime(hits);
    assert forall a :: a in r <==> a in multiset(r);
    assert forall a :: a in hits <==> a in multiset(hits);
    r
  }

  datatype DoctorNameQuery = DoctorNameQuery(doctors: seq<Doctor>, fragment: string, patient: int, status: Option<int>)

  /** The doctor's name contains the fragment ignoring case, the patient is
      the given one and, when a status is given, the status is that one. */
  function DoctorNameMatches(a: Appointment, q: DoctorNameQuery): bool {
    && PatientIdOf(a) == Some(q.patient)
    && (q.status.None? || a.status == q.status.value)
    && DoctorIdOf(a).Some?
    && var d := Get(q.doctors, DoctorKey, DoctorIdOf(a).value);
    && d.Some? && d.value.name.Some? && ContainsIgnoreCase(d.value.name.value, q.fragment)
  }

  /** `filterByDoctorNameAndPatientId`. */
  function AppointmentsByDoctorName(S: Db, fragment: string, patient: int): seq<Appointment> {
    Filter(S.appointments, DoctorNameMatches, DoctorNameQuery(S.doctors, fragment, patient, None))
  }

  /** `filterByDoctorNameAndPatientIdAndStatus`. */
  function AppointmentsByDoctorNameAndStatus(S: Db, fragment: string, patient: int, status: int): seq<Appointment> {
    Filter(S.appointments, DoctorNameMatches, DoctorNameQuery(S.doctors, fragment, patient, Some(status)))
  }

  function NotOfDoctor(a: Appointment, doctor: int): bool {
    DoctorIdOf(a) != Some(doctor)
  }

  // ---------------------------------------------------------------- writes

  /** `appointmentRepository.save(a)`. */
  function WithAppointmentSaved(S: Db, a: Appointment): (r: Db)
    ensures r.admins == S.admins && r.doctors == S.doctors && r.patients == S.patients
  {
    if a.id.Some? && AppointmentExists(S, a.id.value) then
      S.(appointments := Overwrite(S.appointments, AppointmentKey, a.id.value, a))
    else
      S.(appointments := S.appointments + [a.(id := Some(S.nextId))], nextId := S.nextId + 1)
  }

  /** `appointmentRepository.delete(a)` for a stored row with id `k`. */
  function WithAppointmentDeleted(S: Db, k: int): (r: Db)
    ensures r.admins == S.admins && r.doctors == S.doctors && r.patients == S.patients
  {
    S.(appointments := Delete(S.appointments, AppointmentKey, k))
  }

  /** `appointmentRepository.deleteAllByDoctorId(k)`. */
  function WithDoctorAppointmentsDeleted(S: Db, k: int): (r: Db)
    ensures r.admins == S.admins && r.doctors == S.doctors && r.patients == S.patients
  {
    S.(appointments := Filter(S.appointments, NotOfDoctor, k))
  }

  /** `doctorRepository.save(d)`. */
  function WithDoctorSaved(S: Db, d: Doctor): (r: Db)
    ensures r.admins == S.admins && r.patients == S.patients && r.appointments == S.appointments
  {
    if d.id.Some? && DoctorExists(S, d.id.value) then
      S.(doctors := Overwrite(S.doctors, DoctorKey, d.id.value, d))
    else
      S.(doctors := S.doctors + [d.(id := Some(S.nextId))], nextId := S.nextId + 1)
  }

  /** `doctorRepository.deleteById(k)`. */
  function WithDoctorDeleted(S: Db, k: int): (r: Db)
    ensures r.admins == S.admins && r.patients == S.patients && r.appointments == S.appointments
  {
    S.(doctors := Delete(S.doctors, DoctorKey, k))
  }

  /** `patientRepository.save(p)`. */
  function WithPatientSaved(S: Db, p: Patient): (r: Db)
    ensures r.admins == S.admins && r.doctors == S.doctors && r.appointments == S.appointments
  {
    if p.id.Some? && PatientExists(S, p.id.value) then
      S.(patients := Overwrite(S.patients, PatientKey, p.id.value, p))
    else
      S.(patients := S.patients + [p.(id := Some(S.nextId))], nextId := S.nextId + 1)
  }

  // ---------------------------------------------------------------- write lemmas

  /** Saving keeps the ids distinct and generated. */
  lemma AppointmentSavedValid(S: Db, a: Appointment)
    requires Valid(S)
    ensures Valid(WithAppointmentSaved(S, a))
  {
    if a.id.Some? && AppointmentExists(S, a.id.value) {
      var i :| 0 <= i < |S.appointments| && S.appointments[i].id == a.id;
      OverwriteKeysOk(S.appointments, AppointmentKey, S.nextId, a.id.value, a);
    } else {
      AppendKeysOk(S.appointments, AppointmentKey, S.nextId, a.(id := Some(S.nextId)));
      var r := WithAppointmentSaved(S, a);
      KeysOkRaise(S.admins, AdminKey, S.nextId, r.nextId);
      KeysOkRaise(S.doctors, DoctorKey, S.nextId, r.nextId);
      KeysOkRaise(S.patients, PatientKey, S.nextId, r.nextId);
    }
  }

  /** A saved appointment can be found again under the id it was saved with. */
  lemma AppointmentSavedFindable(S: Db, a: Appointment)
    requires Valid(S)
    ensures var k := if a.id.Some? && AppointmentExists(S, a.id.value) then a.id.value else S.nextId;
      AppointmentById(WithAppointmentSaved(S, a), k) == Some(a.(id := Some(k)))
  {
    var r := WithAppointmentSaved(S, a);
    AppointmentSavedValid(S, a);
    if a.id.Some? && AppointmentExists(S, a.id.value) {
      var k := a.id.value;
      var i :| 0 <= i < |S.appointments| && S.appointments[i].id == Some(k);
      assert r.appointments[i] == a;
      assert a.(id := Some(k)) == a;
      GetUnique(r.appointments, AppointmentKey, r.nextId, k, i);
    } else {
      var i := |S.appointments|;
      assert r.appointments[i] == a.(id := Some(S.nextId));
      GetUnique(r.appointments, AppointmentKey, r.nextId, S.nextId, i);
    }
  }

  /** Saving an appointment leaves every row with another id as it was. */
  lemma AppointmentSavedKeepsOthers(S: Db, a: Appointment, b: Appointment)
    requires Valid(S) && b in S.appointments && b.id != a.id
    ensures b in WithAppointmentSaved(S, a).appointments
  {
    var i :| 0 <= i < |S.appointments| && S.appointments[i] == b;
    var r := WithAppointmentSaved(S, a);
    assert r.appointments[i] == b;
  }

  lemma AppointmentDeletedValid(S: Db, k: int)
    requires Valid(S)
    ensures Valid(WithAppointmentDeleted(S, k))
  {
    DeleteKeysOk(S.appointments, AppointmentKey, S.nextId, k);
  }

  /** Deleting by id removes that appointment and keeps every other one. */
  lemma AppointmentDeletedExactly(S: Db, k: int)
    ensures forall a :: a in WithAppointmentDeleted(S, k).appointments <==> a in S.appointments && a.id != Some(k)
  {
    DeleteMembers(S.appointments, AppointmentKey, k);
  }

  lemma DoctorSavedValid(S: Db, d: Doctor)
    requires Valid(S)
    ensures Valid(WithDoctorSaved(S, d))
  {
    if d.id.Some? && DoctorExists(S, d.id.value) {
      OverwriteKeysOk(S.doctors, DoctorKey, S.nextId, d.id.value, d);
    } else {
      AppendKeysOk(S.doctors, DoctorKey, S.nextId, d.(id := Some(S.nextId)));
      var r := WithDoctorSaved(S, d);
      KeysOkRaise(S.admins, AdminKey, S.nextId, r.nextId);
      KeysOkRaise(S.patients, PatientKey, S.nextId, r.nextId);
      KeysOkRaise(S.appointments, AppointmentKey, S.nextId, r.nextId);
    }
  }

  lemma PatientSavedValid(S: Db, p: Patient)
    requires Valid(S)
    ensures Valid(WithPatientSaved(S, p))
  {
    if p.id.Some? && PatientExists(S, p.id.value) {
      OverwriteKeysOk(S.patients, PatientKey, S.nextId, p.id.value, p);
    } else {
      AppendKeysOk(S.patients, PatientKey, S.nextId, p.(id := Some(S.nextId)));
      var r := WithPatientSaved(S, p);
      KeysOkRaise(S.admins, AdminKey, S.nextId, r.nextId);
      KeysOkRaise(S.doctors, DoctorKey, S.nextId, r.nextId);
      KeysOkRaise(S.appointments, AppointmentKey, S.nextId, r.nextId);
    }
  }

  lemma DoctorRemovedValid(S: Db, k: int)
    requires Valid(S)
    ensures Valid(WithDoctorDeleted(WithDoctorAppointmentsDeleted(S, k), k))
  {
    FilterKeysOk(S.appointments, AppointmentKey, S.nextId, NotOfDoctor, k);
    DeleteKeysOk(S.doctors, DoctorKey, S.nextId, k);
  }

  // ---------------------------------------------------------------- the store

  /** The repositories as one mutable object: each write replaces the
      affected table by the value the state-update function computes. */
  class Store {
    var admins: seq<Admin>
    var doctors: seq<Doctor>
    var patients: seq<Patient>
    var appointments: seq<Appointment>
    var nextId: int

    function State(): Db
      reads this
    {
      Db(admins, doctors, patients, appointments, nextId)
    }

    constructor (S: Db)
      ensures State() == S
    {
      admins, doctors, patients, appointments, nextId := S.admins, S.doctors, S.patients, S.appointments, S.nextId;
    }

    method Load(S: Db)
      modifies this
      ensures State() == S
    {
      admins, doctors, patients, appointments, nextId := S.admins, S.doctors, S.patients, S.appointments, S.nextId;
    }

    method SaveAppointment(a: Appointment)
      modifies this
      ensures State() == WithAppointmentSaved(old(State()), a)
    {
      Load(WithAppointmentSaved(State(), a));
    }

    method DeleteAppointment(k: int)
      modifies this
      ensures State() == WithAppointmentDeleted(old(State()), k)
    {
      Load(WithAppointmentDeleted(State(), k));
    }

    method DeleteAllByDoctorId(k: int)
      modifies this
      ensures State() == WithDoctorAppointmentsDeleted(old(State()), k)
    {
      Load(WithDoctorAppointmentsDeleted(State(), k));
    }

    method SaveDoctor(d: Doctor)
      modifies this
      ensures State() == WithDoctorSaved(old(State()), d)
    {
      Load(WithDoctorSaved(State(), d));
    }

    method DeleteDoctorById(k: int)
      modifies this
      ensures State() == WithDoctorDeleted(old(State()), k)
    {
      Load(WithDoctorDeleted(State(), k));
    }

    method SavePatient(p: Patient)
      modifies this
      ensures State() == WithPatientSaved(old(State()), p)
    {
      Load(WithPatientSaved(State(), p));
    }
  }
}
