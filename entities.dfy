/** The persistent records of the clinic and the request/response records the
    services exchange. Every field the services test for null is an `Option`. */
module Entities {
  import opened Common

  /** An administrator account; the username is the login identifier. */
  datatype Admin = Admin(id: Option<int>, username: Option<string>, password: Option<string>)

  /** A doctor. `availableTimes` is the weekly template of slot strings such
      as "09:00" or "9:00 AM"; the list and each entry may be null. */
  datatype Doctor = Doctor(
    id: Option<int>,
    name: Option<string>,
    specialty: Option<string>,
    email: Option<string>,
    password: Option<string>,
    availableTimes: Option<seq<Option<string>>>)

  datatype Patient = Patient(
    id: Option<int>,
    name: Option<string>,
    email: Option<string>,
    phone: Option<string>,
    address: Option<string>,
    password: Option<string>)

  /** The doctor or patient an appointment points to. A request body carries
      only the id; a stored row carries the foreign key. */
  datatype Ref = Ref(id: Option<int>)

  /** `time` is a `LocalDateTime` as whole minutes since the local epoch;
      `status` is 0 (scheduled) or 1 (completed). */
  datatype Appointment = Appointment(
    id: Option<int>,
    doctor: Option<Ref>,
    patient: Option<Ref>,
    time: Option<int>,
    status: int)

  /** The login request of doctors and patients. */
  datatype Login = Login(identifier: Option<string>, password: Option<string>)

  /** The flat record returned for an appointment: its own fields plus the
      doctor's and the patient's contact fields. */
  datatype AppointmentDto = AppointmentDto(
    id: Option<int>,
    doctorId: Option<int>,
    doctorName: Option<string>,
    patientId: Option<int>,
    patientName: Option<string>,
    patientEmail: Option<string>,
    patientPhone: Option<string>,
    patientAddress: Option<string>,
    time: Option<int>,
    status: int)

  function AdminKey(a: Admin): Option<int> { a.id }
  function DoctorKey(d: Doctor): Option<int> { d.id }
  function PatientKey(p: Patient): Option<int> { p.id }
  function AppointmentKey(a: Appointment): Option<int> { a.id }

  /** `a.getDoctor().getId()`, null when the reference is missing. */
  function DoctorIdOf(a: Appointment): Option<int> {
    if a.doctor.Some? then a.doctor.value.id else None
  }

  function PatientIdOf(a: Appointment): Option<int> {
    if a.patient.Some? then a.patient.value.id else None
  }
}
