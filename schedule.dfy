/** Schedule: the guarantee the appointment validator exists for. A store
    is double-booking free when no two of its appointments have the same
    doctor, fall on the same date and start less than an hour apart; every
    write the appointment service makes after a passing validation keeps
    the store that way. */
module Schedule {
  import opened Common
  import opened Clock
  import opened Tables
  import opened Entities
  import opened Repository
  import opened AppointmentService

  /** Two appointments that the validator would not let stand together. */
  predicate Clash(x: Appointment, y: Appointment) {
    && DoctorIdOf(x).Some? && DoctorIdOf(x) == DoctorIdOf(y)
    && x.time.Some? && y.time.Some?
    && DateOf(x.time.value) == DateOf(y.time.value)
    && Overlaps(x.time.value, y.time.value)
  }

  /** No two distinct rows clash. (With `Valid` ids the rows are distinct.) */
  predicate DoubleBookingFree(rows: seq<Appointment>) {
    forall x, y :: x in rows && y in rows && x != y ==> !Clash(x, y)
  }

  /** A row with the request's doctor and time clashes with no stored row the
      validator compared it with. */
  lemma PassedRequestClashesWithNone(S: Db, a: Appointment, isUpdate: bool, now: int, b: Appointment)
    requires ValidationError(S, Some(a), isUpdate, now).None?
    requires b.doctor == a.doctor && b.time == a.time
    ensures forall r :: r in S.appointments && !Skipped(r, a, isUpdate) ==> !Clash(b, r) && !Clash(r, b)
  {
    ValidationPasses(S, a, isUpdate, now);
    forall r | r in S.appointments && !Skipped(r, a, isUpdate)
      ensures !Clash(b, r) && !Clash(r, b)
    {
      if r.time.Some? {
        OverlapsWithinHour(a.time.value, r.time.value);
      }
    }
  }

  /** Booking after a passing validation keeps the store double-booking free. */
  lemma BookingKeepsScheduleFree(S: Db, a: Appointment, now: int)
    requires Valid(S) && DoubleBookingFree(S.appointments)
    requires ValidationError(S, Some(a), false, now).None?
    ensures DoubleBookingFree(WithAppointmentSaved(S, a).appointments)
  {
    var rows := WithAppointmentSaved(S, a).appointments;
    if a.id.Some? && AppointmentExists(S, a.id.value) {
      PassedRequestClashesWithNone(S, a, false, now, a);
      forall x, y | x in rows && y in rows && x != y ensures !Clash(x, y) {
        OverwrittenRow(S.appointments, a, x);
        OverwrittenRow(S.appointments, a, y);
      }
    } else {
      var b := a.(id := Some(S.nextId));
      PassedRequestClashesWithNone(S, a, false, now, b);
      assert rows == S.appointments + [b];
    }
  }

  /** Every row after an overwrite by id is the new row or an old one. */
  lemma OverwrittenRow(rows: seq<Appointment>, a: Appointment, x: Appointment)
    requires a.id.Some?
    requires x in Overwrite(rows, AppointmentKey, a.id.value, a)
    ensures x == a || x in rows
  {
  }

  /** An update after a passing validation keeps the store double-booking
      free: the record it replaces is the only one it was not compared with. */
  lemma UpdateKeepsScheduleFree(S: Db, a: Appointment, now: int)
    requires Valid(S) && DoubleBookingFree(S.appointments)
    requires a.id.Some? && AppointmentExists(S, a.id.value)
    requires ValidationError(S, Some(a), true, now).None?
    ensures DoubleBookingFree(WithAppointmentSaved(S, a).appointments)
  {
    var k := a.id.value;
    var rows := WithAppointmentSaved(S, a).appointments;
    assert rows == Overwrite(S.appointments, AppointmentKey, k, a);
    PassedRequestClashesWithNone(S, a, true, now, a);
    forall x, y | x in rows && y in rows && x != y ensures !Clash(x, y) {
      OverwrittenRow(S.appointments, a, x);
      OverwrittenRow(S.appointments, a, y);
      if x == a {
        KeptRowHasOtherId(S.appointments, k, a, y);
      } else if y == a {
        KeptRowHasOtherId(S.appointments, k, a, x);
      }
    }
  }

  /** A row that survives the overwrite of the row with id `k` has another id. */
  lemma KeptRowHasOtherId(rows: seq<Appointment>, k: int, a: Appointment, x: Appointment)
    requires a.id == Some(k)
    requires x in Overwrite(rows, AppointmentKey, k, a) && x != a
    ensures x in rows && x.id != Some(k)
  {
  }

  /** Cancelling only removes rows, so it keeps the store double-booking free. */
  lemma CancelKeepsScheduleFree(S: Db, k: int)
    requires DoubleBookingFree(S.appointments)
    ensures DoubleBookingFree(WithAppointmentDeleted(S, k).appointments)
  {
    AppointmentDeletedExactly(S, k);
  }
}
