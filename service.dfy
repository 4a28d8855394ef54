/** Service: the cross-cutting checks the controllers call — token
    validation replies, admin and patient login, patient registration
    check, the doctor-filter dispatch, the patient-filter dispatch, and the
    template-membership check of a requested appointment time. */
module Service {
  import opened Common
  import opened JavaText
  import opened Clock
  import opened Tables
  import opened Entities
  import opened Repository
  import opened TokenService
  import opened Responses
  import opened DoctorService
  import opened PatientService

  // ---------------------------------------------------------------- slot strings

  /** Left-pads a one-character field with "0". */
  function Pad(x: string): string {
    if |x| == 1 then "0" + x else x
  }

  /** `padTime(t)`: with at least two ':'-separated fields (after `split`
      drops trailing empty ones) the first two, trimmed and padded, joined
      by ':'; otherwise `t` itself. */
  function PadTime(t: string): string {
    var parts := Split(t, ':');
    if |parts| >= 2 then Pad(Trim(parts[0])) + ":" + Pad(Trim(parts[1])) else t
  }

  /** The upper-cased slot ends with "AM" or "PM". */
  predicate HasMeridiem(s: string) {
    EndsWith(s, "AM") || EndsWith(s, "PM")
  }

  /** Every "AM" deleted, then every "PM", then trimmed. */
  function StripMeridiem(s: string): string {
    Trim(Replace(Replace(s, "AM", ""), "PM", ""))
  }

  /** `normalizeSlot(slot)`: trim, upper-case, drop the AM/PM marker when the
      text ends with one, then pad. */
  function NormalizeSlot(slot: Option<string>): string {
    if slot.None? then ""
    else
      var s := ToUpper(Trim(slot.value));
      if HasMeridiem(s) then PadTime(StripMeridiem(s)) else PadTime(s)
  }

  /** Starts and ends with a char that `trim` keeps. */
  predicate Visible(s: string) {
    |s| > 0 && !Trimmable(s[0]) && !Trimmable(s[|s| - 1])
  }

  predicate NoLowerCase(s: string) {
    forall i :: 0 <= i < |s| ==> !('a' <= s[i] <= 'z')
  }

  /** Two fields: each is trimmed and padded. */
  lemma PadTimeTwoFields(a: string, b: string)
    requires ':' !in a && ':' !in b && b != ""
    ensures PadTime(a + ":" + b) == Pad(Trim(a)) + ":" + Pad(Trim(b))
  {
    var t := a + ":" + b;
    assert t[|a|] == ':';
    FieldsCons(a, ':', b);
    assert Fields(t, ':') == [a, b];
  }

  /** Three or more fields: only the first two are kept, so seconds are dropped. */
  lemma PadTimeThreeFields(a: string, b: string, c: string)
    requires ':' !in a && ':' !in b && b != ""
    ensures PadTime(a + ":" + b + ":" + c) == Pad(Trim(a)) + ":" + Pad(Trim(b))
  {
    SplitThreeFields(a, b, c);
  }

  lemma SplitThreeFields(a: string, b: string, c: string)
    requires ':' !in a && ':' !in b && b != ""
    ensures var parts := Split(a + ":" + b + ":" + c, ':');
      |parts| >= 2 && parts[0] == a && parts[1] == b
  {
    var t := a + ":" + b + ":" + c;
    assert t[|a|] == ':';
    var parts := Fields(t, ':');
    FieldsOfThree(a, b, c);
    DropKeepsNonEmpty(parts, 1);
  }

  lemma FieldsOfThree(a: string, b: string, c: string)
    requires ':' !in a && ':' !in b
    ensures Fields(a + ":" + b + ":" + c, ':') == [a, b] + Fields(c, ':')
  {
    assert a + ":" + b + ":" + c == a + [':'] + (b + ":" + c);
    FieldsCons(a, ':', b + ":" + c);
    FieldsCons(b, ':', c);
  }

  /** Without a ':' the text is returned unchanged. */
  lemma PadTimeWithoutColon(t: string)
    requires ':' !in t
    ensures PadTime(t) == t
  {
  }

  /** A visible, upper-case slot without a final 'M' is only padded. */
  lemma NormalizePlain(core: string)
    requires Visible(core) && NoLowerCase(core) && core[|core| - 1] != 'M'
    ensures NormalizeSlot(Some(core)) == PadTime(core)
  {
    TrimNoop(core);
    UpperNoop(core);
    assert ToUpper(Trim(core)) == core;
    assert !HasMeridiem(core);
  }

  lemma StripAm(core: string)
    requires Visible(core) && 'A' !in core && 'P' !in core
    ensures StripMeridiem(core + " AM") == core
  {
    var p := core + " ";
    assert core + " AM" == p + "AM";
    ReplaceSkipsPrefix(p, "AM", "AM", "");
    assert Replace("AM", "AM", "") == "";
    assert p + "" == p;
    ReplaceAbsent(p, "PM", "");
    TrimTrailingSpace(core);
  }

  lemma StripPm(core: string)
    requires Visible(core) && 'A' !in core && 'P' !in core
    ensures StripMeridiem(core + " PM") == core
  {
    var p := core + " ";
    assert core + " PM" == p + "PM";
    ReplaceAbsent(core + " PM", "AM", "");
    ReplaceSkipsPrefix(p, "PM", "PM", "");
    assert Replace("PM", "PM", "") == "";
    assert p + "" == p;
    TrimTrailingSpace(core);
  }

  /** A visible, upper-case core followed by " AM" or " PM" loses the suffix
      and is padded. */
  lemma NormalizeMeridiem(core: string)
    requires Visible(core) && NoLowerCase(core) && 'A' !in core && 'P' !in core
    ensures NormalizeSlot(Some(core + " AM")) == PadTime(core)
    ensures NormalizeSlot(Some(core + " PM")) == PadTime(core)
  {
    MeridiemSlot(core, core + " AM");
    StripAm(core);
    MeridiemSlot(core, core + " PM");
    StripPm(core);
  }

  lemma MeridiemSlot(core: string, s: string)
    requires Visible(core) && NoLowerCase(core) && 'A' !in core && 'P' !in core
    requires s == core + " AM" || s == core + " PM"
    ensures NormalizeSlot(Some(s)) == PadTime(StripMeridiem(s))
  {
    MeridiemShape(core, s);
    TrimNoop(s);
    UpperNoop(s);
  }

  lemma MeridiemShape(core: string, s: string)
    requires Visible(core) && NoLowerCase(core)
    requires s == core + " AM" || s == core + " PM"
    ensures Visible(s) && NoLowerCase(s) && HasMeridiem(s)
  {
    assert s[|s| - 1] == 'M';
    assert s[|s| - 2..] == [s[|s| - 2], s[|s| - 1]];
  }

  lemma TimeStringShape(m: int)
    requires 0 <= m < MinutesPerDay
    ensures var s := TimeString(m);
      Visible(s) && NoLowerCase(s) && 'A' !in s && 'P' !in s && s[4] != 'M'
      && s == TwoDigits(m / MinutesPerHour) + ":" + TwoDigits(m % MinutesPerHour)
      && ':' !in TwoDigits(m / MinutesPerHour) && ':' !in TwoDigits(m % MinutesPerHour)
  {
  }

  /** "HH:mm" is a fixed point of `padTime`. */
  lemma PadCanonical(m: int)
    requires 0 <= m < MinutesPerDay
    ensures PadTime(TimeString(m)) == TimeString(m)
  {
    TimeStringShape(m);
    var a, b := TwoDigits(m / MinutesPerHour), TwoDigits(m % MinutesPerHour);
    PadTimeTwoFields(a, b);
    TrimNoop(a);
    TrimNoop(b);
  }

  /** The format `LocalTime.toString()` produces is normalised to itself. */
  lemma CanonicalSlotIsFixed(m: int)
    requires 0 <= m < MinutesPerDay
    ensures NormalizeSlot(Some(TimeString(m))) == TimeString(m)
  {
    TimeStringShape(m);
    NormalizePlain(TimeString(m));
    PadCanonical(m);
  }

  /** "HH:mm AM" and "HH:mm PM" both normalise to "HH:mm": there is no
      conversion from the 12-hour clock. */
  lemma TwelveHourSuffixDropped(m: int)
    requires 0 <= m < MinutesPerDay
    ensures NormalizeSlot(Some(TimeString(m) + " AM")) == TimeString(m)
    ensures NormalizeSlot(Some(TimeString(m) + " PM")) == TimeString(m)
  {
    TimeStringShape(m);
    PadCanonical(m);
    NormalizeMeridiem(TimeString(m));
  }

  /** So an afternoon entry such as "02:00 PM" stands for 02:00, never 14:00. */
  lemma AfternoonNotShifted(m: int)
    requires 60 <= m < 720
    ensures NormalizeSlot(Some(TimeString(m) + " PM")) == TimeString(m) != TimeString(m + 720)
  {
    TwelveHourSuffixDropped(m);
    TimeStringInjective(m, m + 720);
  }

  /** "H:mm", a time with a one-digit hour. */
  function ShortTime(h: int, mm: int): string
    requires 0 <= h < 10 && 0 <= mm < 60
  {
    [Digit(h)] + ":" + TwoDigits(mm)
  }

  lemma ShortTimeShape(h: int, mm: int)
    requires 0 <= h < 10 && 0 <= mm < 60
    ensures var s := ShortTime(h, mm);
      |s| == 4 && Visible(s) && NoLowerCase(s) && 'A' !in s && 'P' !in s && s[3] != 'M'
  {
    var s := ShortTime(h, mm);
    assert s == [Digit(h), ':', Digit(mm / 10), Digit(mm % 10)];
  }

  lemma ShortTimePads(h: int, mm: int, m: int)
    requires 0 <= h < 10 && 0 <= mm < 60 && m == h * 60 + mm
    ensures PadTime(ShortTime(h, mm)) == TimeString(m)
  {
    var a, b := [Digit(h)], TwoDigits(mm);
    DigitFieldsNoColon(h, mm);
    PadTimeTwoFields(a, b);
    PadOneDigit(h);
    PadTwoDigits(mm);
    TimeStringOfParts(h, mm, m);
  }

  lemma DigitFieldsNoColon(h: int, mm: int)
    requires 0 <= h < 10 && 0 <= mm < 60
    ensures ':' !in [Digit(h)] && ':' !in TwoDigits(mm) && TwoDigits(mm) != ""
  {
  }

  /** A one-digit field gains its leading zero. */
  lemma PadOneDigit(h: int)
    requires 0 <= h < 10
    ensures Pad(Trim([Digit(h)])) == TwoDigits(h)
  {
    TrimNoop([Digit(h)]);
    assert h / 10 == 0 && h % 10 == h;
  }

  /** A two-digit field is kept as it is. */
  lemma PadTwoDigits(n: int)
    requires 0 <= n < 100
    ensures Pad(Trim(TwoDigits(n))) == TwoDigits(n)
  {
    TrimNoop(TwoDigits(n));
  }

  lemma TimeStringOfParts(h: int, mm: int, m: int)
    requires 0 <= h < 24 && 0 <= mm < 60 && m == h * 60 + mm
    ensures TimeString(m) == TwoDigits(h) + ":" + TwoDigits(mm)
  {
    assert m / 60 == h && m % 60 == mm;
  }

  /** A one-digit hour is padded: "H:mm", "H:mm AM" and "H:mm PM" all
      normalise to "0H:mm". */
  lemma ShortHourPadded(h: int, mm: int, m: int)
    requires 0 <= h < 10 && 0 <= mm < 60 && m == h * 60 + mm
    ensures NormalizeSlot(Some(ShortTime(h, mm))) == TimeString(m)
    ensures NormalizeSlot(Some(ShortTime(h, mm) + " AM")) == TimeString(m)
    ensures NormalizeSlot(Some(ShortTime(h, mm) + " PM")) == TimeString(m)
  {
    var core := ShortTime(h, mm);
    ShortTimeShape(h, mm);
    ShortTimePads(h, mm, m);
    NormalizePlain(core);
    NormalizeMeridiem(core);
  }

  /** "HH:mm:ss" loses its seconds. */
  lemma SecondsDropped(m: int, sec: int)
    requires 0 <= m < MinutesPerDay && 0 <= sec < 60
    ensures PadTime(TimeString(m) + ":" + TwoDigits(sec)) == TimeString(m)
    ensures NormalizeSlot(Some(TimeString(m) + ":" + TwoDigits(sec))) == TimeString(m)
  {
    SecondsPadded(m, sec);
    SecondsShape(m, sec);
    NormalizePlain(TimeString(m) + ":" + TwoDigits(sec));
  }

  lemma SecondsPadded(m: int, sec: int)
    requires 0 <= m < MinutesPerDay && 0 <= sec < 60
    ensures PadTime(TimeString(m) + ":" + TwoDigits(sec)) == TimeString(m)
  {
    var a, b := TwoDigits(m / MinutesPerHour), TwoDigits(m % MinutesPerHour);
    var c := TwoDigits(sec);
    TimeStringShape(m);
    assert TimeString(m) + ":" + c == a + ":" + b + ":" + c;
    PadTimeThreeFields(a, b, c);
    PadTwoDigits(m / MinutesPerHour);
    PadTwoDigits(m % MinutesPerHour);
  }

  lemma SecondsShape(m: int, sec: int)
    requires 0 <= m < MinutesPerDay && 0 <= sec < 60
    ensures var s := TimeString(m) + ":" + TwoDigits(sec);
      Visible(s) && NoLowerCase(s) && s[|s| - 1] != 'M'
  {
    var c := TwoDigits(sec);
    var s := TimeString(m) + ":" + c;
    assert s[|s| - 1] == c[1];
    forall i | 0 <= i < |s| ensures !('a' <= s[i] <= 'z') {
      if i < 5 {
        assert s[i] == TimeString(m)[i];
      } else if i > 5 {
        assert s[i] == c[i - 6];
      }
    }
  }

  // ---------------------------------------------------------------- validateAppointment

  /** A non-null slot that, trimmed and normalised, is the time of day. */
  predicate SlotMatches(slot: Option<string>, apptTime: string) {
    slot.Some? && NormalizeSlot(Some(Trim(slot.value))) == apptTime
  }

  /** The `anyMatch` over the offered slots. */
  predicate SlotOffered(slots: seq<Option<string>>, apptTime: string)
    decreases |slots|
  {
    |slots| > 0 && (SlotMatches(slots[0], apptTime) || SlotOffered(slots[1..], apptTime))
  }

  lemma {:induction false} SlotOfferedMembers(slots: seq<Option<string>>, apptTime: string)
    ensures SlotOffered(slots, apptTime) <==> exists e :: e in slots && SlotMatches(e, apptTime)
    decreases |slots|
  {
    if |slots| > 0 {
      SlotOfferedMembers(slots[1..], apptTime);
      assert forall e :: e in slots <==> e == slots[0] || e in slots[1..];
    }
  }

  /** `validateAppointment(appointment)`: -1 for a missing or unknown doctor,
      0 for a missing time or a time of day no offered slot matches, 1 otherwise. */
  function SlotCheck(S: Db, appt: Option<Appointment>): (r: int)
    ensures r in {-1, 0, 1}
    ensures r == -1 <==> appt.None? || DoctorIdOf(appt.value).None? || !DoctorExists(S, DoctorIdOf(appt.value).value)
    ensures (appt.Some? && DoctorIdOf(appt.value).Some? && DoctorExists(S, DoctorIdOf(appt.value).value)
             && appt.value.time.None?) ==> r == 0
  {
    if appt.None? || appt.value.doctor.None? || appt.value.doctor.value.id.None? then -1
    else
      var doctorId := appt.value.doctor.value.id.value;
      if DoctorById(S, doctorId).None? then -1
      else if appt.value.time.None? then 0
      else
        var t := appt.value.time.value;
        var slots := Availability(S, Some(doctorId), Some(DateOf(t)));
        if SlotOffered(slots, TimeOfDayString(t)) then 1 else 0
  }

  /** The time-of-day strings booked with the appointment's doctor on its date. */
  function BookedThatDay(S: Db, a: Appointment): set<string>
    requires DoctorIdOf(a).Some? && a.time.Some?
  {
    BookedTimes(AppointmentsOn(S, DoctorIdOf(a).value, DateOf(a.time.value)))
  }

  /** Every booked time-of-day string has the five chars of "HH:mm". */
  lemma BookedTimesHaveFiveChars(rows: seq<Appointment>, s: string)
    requires s in BookedTimes(rows)
    ensures |s| == 5
  {
    BookedTimesMembers(rows, s);
  }

  /** 1 exactly when the doctor exists, the time is given, and some template
      entry is free (not null, its trimmed text booked with no appointment of
      that doctor on that date) and matches the requested time of day. */
  lemma SlotCheckAccepts(S: Db, a: Appointment)
    requires DoctorIdOf(a).Some? && DoctorExists(S, DoctorIdOf(a).value) && a.time.Some?
    ensures SlotCheck(S, Some(a)) == 1 <==>
      exists e :: e in Template(DoctorById(S, DoctorIdOf(a).value).value)
        && SlotIsFree(e, BookedThatDay(S, a)) && SlotMatches(e, TimeOfDayString(a.time.value))
  {
    var t := a.time.value;
    var template := Template(DoctorById(S, DoctorIdOf(a).value).value);
    var booked := BookedThatDay(S, a);
    var slots := CheckedSlots(S, a);
    SlotOfferedMembers(slots, TimeOfDayString(t));
    FilterMembers(template, SlotIsFree, booked);
    if exists e :: e in slots && SlotMatches(e, TimeOfDayString(t)) {
      var e :| e in slots && SlotMatches(e, TimeOfDayString(t));
      assert e in template && SlotIsFree(e, booked);
    }
    if exists e :: e in template && SlotIsFree(e, booked) && SlotMatches(e, TimeOfDayString(t)) {
      var e :| e in template && SlotIsFree(e, booked) && SlotMatches(e, TimeOfDayString(t));
      assert e in slots;
    }
  }

  /** The slots the check searches: the availability of the appointment's
      doctor on its date, that is the free entries of the template. */
  function CheckedSlots(S: Db, a: Appointment): (slots: seq<Option<string>>)
    requires DoctorIdOf(a).Some? && DoctorExists(S, DoctorIdOf(a).value) && a.time.Some?
    ensures slots == Filter(Template(DoctorById(S, DoctorIdOf(a).value).value), SlotIsFree, BookedThatDay(S, a))
    ensures SlotCheck(S, Some(a)) == if SlotOffered(slots, TimeOfDayString(a.time.value)) then 1 else 0
  {
    Availability(S, DoctorIdOf(a), Some(DateOf(a.time.value)))
  }

  /** With a template written in the "HH:mm" form, a time accepted by the
      check is not already taken: no appointment of that doctor is at that
      instant. */
  lemma CanonicalTemplateNoDoubleBooking(S: Db, a: Appointment)
    requires DoctorIdOf(a).Some? && DoctorExists(S, DoctorIdOf(a).value) && a.time.Some?
    requires forall e :: e in Template(DoctorById(S, DoctorIdOf(a).value).value) && e.Some? ==>
      exists m :: 0 <= m < MinutesPerDay && e.value == TimeString(m)
    requires SlotCheck(S, Some(a)) == 1
    ensures forall b :: b in S.appointments && DoctorIdOf(b) == DoctorIdOf(a) ==> b.time != a.time
  {
    AcceptedTimeIsFree(S, a);
    forall b | b in S.appointments && DoctorIdOf(b) == DoctorIdOf(a)
      ensures b.time != a.time
    {
      if b.time == a.time {
        SameInstantIsBooked(S, a, b);
        assert false;
      }
    }
  }

  /** Under the same conditions the requested time of day is not booked. */
  lemma AcceptedTimeIsFree(S: Db, a: Appointment)
    requires DoctorIdOf(a).Some? && DoctorExists(S, DoctorIdOf(a).value) && a.time.Some?
    requires forall e :: e in Template(DoctorById(S, DoctorIdOf(a).value).value) && e.Some? ==>
      exists m :: 0 <= m < MinutesPerDay && e.value == TimeString(m)
    requires SlotCheck(S, Some(a)) == 1
    ensures TimeOfDayString(a.time.value) !in BookedThatDay(S, a)
  {
    var t := a.time.value;
    SlotCheckAccepts(S, a);
    var e :| e in Template(DoctorById(S, DoctorIdOf(a).value).value)
      && SlotIsFree(e, BookedThatDay(S, a)) && SlotMatches(e, TimeOfDayString(t));
    var m :| 0 <= m < MinutesPerDay && e.value == TimeString(m);
    FreeCanonicalEntry(m, e, BookedThatDay(S, a), TimeOfDayString(t));
  }

  /** A free "HH:mm" entry that matches a time of day shows that time is free. */
  lemma FreeCanonicalEntry(m: int, e: Option<string>, booked: set<string>, apptTime: string)
    requires 0 <= m < MinutesPerDay && e == Some(TimeString(m))
    requires SlotIsFree(e, booked) && SlotMatches(e, apptTime)
    ensures apptTime !in booked
  {
    CanonicalEntryIsItsTime(m, e.value);
  }

  /** An "HH:mm" entry is free for a time exactly when that time's own string is. */
  lemma CanonicalEntryIsItsTime(m: int, e: string)
    requires 0 <= m < MinutesPerDay && e == TimeString(m)
    ensures Trim(e) == e && NormalizeSlot(Some(Trim(e))) == e
  {
    TimeStringShape(m);
    TrimNoop(e);
    CanonicalSlotIsFixed(m);
  }

  /** An appointment of the same doctor at the same instant books that time of day. */
  lemma SameInstantIsBooked(S: Db, a: Appointment, b: Appointment)
    requires DoctorIdOf(a).Some? && a.time.Some?
    requires b in S.appointments && DoctorIdOf(b) == DoctorIdOf(a) && b.time == a.time
    ensures TimeOfDayString(a.time.value) in BookedThatDay(S, a)
  {
    var t := a.time.value;
    var appts := AppointmentsOn(S, DoctorIdOf(a).value, DateOf(t));
    BetweenIsSameDate(t, DateOf(t));
    FilterMembers(S.appointments, InWindow, Window(DoctorIdOf(a), DayStart(DateOf(t)), DayEnd(DateOf(t))));
    assert b in appts;
    var j :| 0 <= j < |appts| && appts[j] == b;
    BookedTimesMembers(appts, TimeOfDayString(t));
  }

  /** The two normalisations disagree: a template entry that trims to itself
      and is not five chars long is never removed from the availability by
      a booking, because only "HH:mm" strings are booked; if it normalises to
      the requested time of day the check accepts that time whatever the
      store holds. */
  lemma NonCanonicalEntryIgnoresBookings(S: Db, a: Appointment, e: string)
    requires DoctorIdOf(a).Some? && DoctorExists(S, DoctorIdOf(a).value) && a.time.Some?
    requires Some(e) in Template(DoctorById(S, DoctorIdOf(a).value).value)
    requires Trim(e) == e && |e| != 5 && SlotMatches(Some(e), TimeOfDayString(a.time.value))
    ensures Some(e) in Availability(S, DoctorIdOf(a), Some(DateOf(a.time.value)))
    ensures SlotCheck(S, Some(a)) == 1
  {
    var t := a.time.value;
    if e in BookedThatDay(S, a) {
      BookedTimesHaveFiveChars(AppointmentsOn(S, DoctorIdOf(a).value, DateOf(t)), e);
    }
    AvailabilityMembers(S, DoctorIdOf(a).value, DateOf(t), Some(e));
    SlotCheckAccepts(S, a);
  }

  /** An entry written "HH:mm AM" or "HH:mm PM" is such an entry for the
      time of day "HH:mm". */
  lemma MeridiemEntryNormalizes(m: int, e: string)
    requires 0 <= m < MinutesPerDay
    requires e == TimeString(m) + " AM" || e == TimeString(m) + " PM"
    ensures Trim(e) == e && |e| == 8 && NormalizeSlot(Some(Trim(e))) == TimeString(m)
  {
    TimeStringShape(m);
    MeridiemShape(TimeString(m), e);
    TrimNoop(e);
    TwelveHourSuffixDropped(m);
  }

  /** And so is an entry written "H:mm" for the time "0H:mm". */
  lemma ShortEntryNormalizes(h: int, mm: int, m: int)
    requires 0 <= h < 10 && 0 <= mm < 60 && m == h * 60 + mm
    ensures TimeString(m) == NormalizeSlot(Some(Trim(ShortTime(h, mm))))
    ensures Trim(ShortTime(h, mm)) == ShortTime(h, mm) && |ShortTime(h, mm)| == 4
  {
    ShortTimeShape(h, mm);
    TrimNoop(ShortTime(h, mm));
    ShortHourPadded(h, mm, m);
  }

  // ---------------------------------------------------------------- token and logins

  /** `validateToken(token, user)`: an empty 200 body means valid. */
  function ValidateTokenReply(S: Db, env: Env, t: Option<Token>, user: Option<string>): Reply {
    if MissingToken(t) then Message(Unauthorized, "Missing token")
    else if !ValidateToken(S, env, t, user) then Message(Unauthorized, "Invalid or expired token")
    else Reply(Ok, EmptyBody)
  }

  /** The reply is 200 with an empty body exactly when the token is present
      and valid for the role; otherwise 401 with a message. */
  lemma TokenReplyMeaning(S: Db, env: Env, t: Option<Token>, user: Option<string>)
    ensures var r := ValidateTokenReply(S, env, t, user);
      && r.Reply?
      && (r.status == Ok <==> !MissingToken(t) && ValidateToken(S, env, t, user))
      && (r.status == Ok <==> r.body == EmptyBody)
      && (r.status != Ok ==> r.status == Unauthorized)
  {
  }

  /** `validateAdmin(receivedAdmin)`. Two admins with the username make the
      finder throw, and so does a stored admin without a password. */
  function ValidateAdmin(S: Db, env: Env, received: Option<Admin>): Reply {
    if received.None? || received.value.username.None? || received.value.password.None? then
      Message(BadRequest, "Missing credentials")
    else
      var admin := AdminByUsername(S, received.value.username);
      if admin.Absent? then Message(Unauthorized, "Invalid credentials")
      else if admin.Ambiguous? || admin.value.password.None? then Threw
      else if admin.value.password != received.value.password then Message(Unauthorized, "Invalid credentials")
      else Reply(Ok, Body(Some("Login successful"), Some(GenerateToken(env, admin.value.username)), None, None))
  }

  /** A token is issued only to a stored admin with exactly that username and
      password, and its subject is the username; missing fields are 400, and
      an unknown username or a wrong password 401. Login succeeds exactly
      when one admin has the username and its password is the one given. */
  lemma AdminLoginMeaning(S: Db, env: Env, received: Option<Admin>)
    ensures var r := ValidateAdmin(S, env, received);
      r.Reply? && r.status == Ok ==>
        && (exists i :: 0 <= i < |S.admins| && S.admins[i].username == received.value.username
              && S.admins[i].password == received.value.password)
        && r.body.token.Some? && r.body.token.value.claims.subject == received.value.username
    ensures var r := ValidateAdmin(S, env, received);
      received.Some? && received.value.username.Some? && received.value.password.Some?
      && (forall i :: 0 <= i < |S.admins| ==> S.admins[i].username != received.value.username)
      ==> r == Message(Unauthorized, "Invalid credentials")
    ensures received.None? || received.value.username.None? || received.value.password.None? ==>
      ValidateAdmin(S, env, received) == Message(BadRequest, "Missing credentials")
    ensures received.Some? && received.value.username.Some? && received.value.password.Some? ==>
      var admin := AdminByUsername(S, received.value.username);
      admin.Unique? && admin.value.password.Some? && admin.value.password != received.value.password ==>
        ValidateAdmin(S, env, received) == Message(Unauthorized, "Invalid credentials")
    ensures var r := ValidateAdmin(S, env, received);
      r.Reply? && r.status == Ok <==>
        && received.Some? && received.value.username.Some? && received.value.password.Some?
        && AdminByUsername(S, received.value.username).Unique?
        && AdminByUsername(S, received.value.username).value.password == received.value.password
  {
    var r := ValidateAdmin(S, env, received);
    if r.Reply? && r.status == Ok {
      var a := AdminByUsername(S, received.value.username).value;
      var i :| 0 <= i < |S.admins| && S.admins[i] == a;
    }
  }

  /** `validatePatient(patient)`: true when no patient has that email or that
      phone; two matches make the finder throw. */
  function ValidatePatient(S: Db, patient: Option<Patient>): (r: Outcome<bool>)
    ensures r == Value(true) <==>
      patient.Some? &&
      forall i :: 0 <= i < |S.patients| ==> S.patients[i].email != patient.value.email && S.patients[i].phone != patient.value.phone
  {
    if patient.None? then Value(false)
    else
      var existing := PatientByEmailOrPhone(S, patient.value.email, patient.value.phone);
      if existing.Absent? then Value(true)
      else if existing.Unique? then Value(false)
      else Thrown
  }

  /** `validatePatientLogin(login)`: the fields are tested with `isBlank`, so
      "null" counts as missing. */
  function ValidatePatientLogin(S: Db, env: Env, login: Option<Login>): Reply {
    if login.None? || IsBlank(login.value.identifier) || IsBlank(login.value.password) then
      Message(BadRequest, "Missing credentials")
    else
      var patient := PatientByEmail(S, login.value.identifier);
      if patient.Absent? then Message(Unauthorized, "Invalid credentials")
      else if patient.Ambiguous? || patient.value.password.None? then Threw
      else if patient.value.password != login.value.password then Message(Unauthorized, "Invalid credentials")
      else Reply(Ok, Body(Some("Login successful"), Some(GenerateToken(env, patient.value.email)), None, None))
  }

  /** A token is issued only to the stored patient whose email is the
      identifier and whose password is exactly the one given; its subject is
      that email. */
  lemma PatientLoginMeaning(S: Db, env: Env, login: Option<Login>)
    ensures var r := ValidatePatientLogin(S, env, login);
      r.Reply? && r.status == Ok ==>
        && (exists i :: 0 <= i < |S.patients| && S.patients[i].email == login.value.identifier
              && S.patients[i].password == login.value.password)
        && r.body.token == Some(GenerateToken(env, login.value.identifier))
  {
    var r := ValidatePatientLogin(S, env, login);
    if r.Reply? && r.status == Ok {
      var p := PatientByEmail(S, login.value.identifier).value;
      var i :| 0 <= i < |S.patients| && S.patients[i] == p;
    }
  }

  /** Login succeeds exactly when both fields are present, one patient has the
      email, and its password is the one given. */
  lemma PatientLoginSucceedsExactly(S: Db, env: Env, login: Option<Login>)
    ensures var r := ValidatePatientLogin(S, env, login);
      r.Reply? && r.status == Ok <==>
        && login.Some? && !IsBlank(login.value.identifier) && !IsBlank(login.value.password)
        && PatientByEmail(S, login.value.identifier).Unique?
        && PatientByEmail(S, login.value.identifier).value.password == login.value.password
  {
  }

  /** A password that trims to "null" in any case counts as missing. */
  lemma PatientNullPasswordMissing(S: Db, env: Env, login: Option<Login>)
    ensures login.Some? && login.value.password.Some? && IsNullWord(Trim(login.value.password.value)) ==>
      ValidatePatientLogin(S, env, login) == Message(BadRequest, "Missing credentials")
  {
    if login.Some? {
      IsBlankCharacterised(login.value.password);
    }
  }

  /** The refusals of the patient login: a blank identifier or password is
      400; an unknown email or a wrong stored password is 401. */
  lemma PatientLoginRefusals(S: Db, env: Env, login: Option<Login>)
    ensures login.None? || IsBlank(login.value.identifier) || IsBlank(login.value.password) ==>
      ValidatePatientLogin(S, env, login) == Message(BadRequest, "Missing credentials")
    ensures (login.Some? && !IsBlank(login.value.identifier) && !IsBlank(login.value.password)
             && forall i :: 0 <= i < |S.patients| ==> S.patients[i].email != login.value.identifier) ==>
      ValidatePatientLogin(S, env, login) == Message(Unauthorized, "Invalid credentials")
    ensures login.Some? && !IsBlank(login.value.identifier) && !IsBlank(login.value.password) ==>
      var patient := PatientByEmail(S, login.value.identifier);
      patient.Unique? && patient.value.password.Some? && patient.value.password != login.value.password ==>
        ValidatePatientLogin(S, env, login) == Message(Unauthorized, "Invalid credentials")
  {
  }

  // ---------------------------------------------------------------- filterDoctor

  /** `filterDoctor(name, specialty, time)`: one DoctorService query per
      combination of present filters, all doctors when none is present. */
  function DoctorSearch(S: Db, name: Option<string>, specialty: Option<string>, time: Option<string>): seq<Doctor> {
    var hasName := !IsBlank(name);
    var hasSpec := !IsBlank(specialty);
    var hasTime := !IsBlank(time);
    if hasName && hasSpec && hasTime then ByTime(Some(DoctorsByNameAndSpecialty(S, OrEmpty(name), OrEmpty(specialty))), time)
    else if hasName && hasTime && !hasSpec then ByTime(Some(DoctorsByNameLike(S, OrEmpty(name))), time)
    else if hasName && hasSpec && !hasTime then FilterDoctorByNameAndSpecialty(S, name, specialty)
    else if hasSpec && hasTime && !hasName then ByTime(Some(DoctorsBySpecialty(S, OrEmpty(specialty))), time)
    else if hasSpec && !hasName && !hasTime then FilterDoctorBySpecialty(S, specialty)
    else if hasTime && !hasName && !hasSpec then ByTime(Some(S.doctors), time)
    else if hasName && !hasSpec && !hasTime then FindDoctorByName(S, name)
    else GetDoctors(S)
  }

  method FilterDoctor(db: Store, name: Option<string>, specialty: Option<string>, time: Option<string>)
    returns (doctors: seq<Doctor>)
    ensures doctors == DoctorSearch(db.State(), name, specialty, time)
  {
    var hasName := !IsBlank(name);
    var hasSpec := !IsBlank(specialty);
    var hasTime := !IsBlank(time);
    if hasName && hasSpec && hasTime {
      doctors := FilterDoctorsByNameSpecialtyAndTime(db, name, specialty, time);
    } else if hasName && hasTime && !hasSpec {
      doctors := FilterDoctorByNameAndTime(db, name, time);
    } else if hasName && hasSpec && !hasTime {
      doctors := FilterDoctorByNameAndSpecialty(db.State(), name, specialty);
    } else if hasSpec && hasTime && !hasName {
      doctors := FilterDoctorByTimeAndSpecialty(db, specialty, time);
    } else if hasSpec && !hasName && !hasTime {
      doctors := FilterDoctorBySpecialty(db.State(), specialty);
    } else if hasTime && !hasName && !hasSpec {
      doctors := FilterDoctorsByTime(db, time);
    } else if hasName && !hasSpec && !hasTime {
      doctors := FindDoctorByName(db.State(), name);
    } else {
      doctors := GetDoctors(db.State());
    }
  }

  /** Every search answers stored doctors only; with no filter present (null,
      blank or "null") it answers all of them, in table order. */
  lemma DoctorSearchMeaning(S: Db, name: Option<string>, specialty: Option<string>, time: Option<string>)
    ensures forall d :: d in DoctorSearch(S, name, specialty, time) ==> d in S.doctors
    ensures IsBlank(name) && IsBlank(specialty) && IsBlank(time) ==> DoctorSearch(S, name, specialty, time) == S.doctors
  {
    SearchesReturnStoredDoctors(S, name, specialty, time);
    ByTimeMeaning(Some(S.doctors), time);
    FilterMembers(S.doctors, NameContainsSpecialtyIs, NameAndSpecialty(OrEmpty(name), OrEmpty(specialty)));
    FilterMembers(S.doctors, SpecialtyIs, OrEmpty(specialty));
    FilterMembers(S.doctors, NameLike, if name.None? then "" else name.value);
  }

  /** With only AM or PM given, the answer is exactly the doctors having an
      entry ending with it. */
  lemma TimeOnlySearch(S: Db, name: Option<string>, specialty: Option<string>, time: Option<string>)
    requires IsBlank(name) && IsBlank(specialty) && !IsBlank(time)
    requires ToUpper(Trim(time.value)) == "AM" || ToUpper(Trim(time.value)) == "PM"
    ensures forall d :: d in DoctorSearch(S, name, specialty, time) <==>
      d in S.doctors && HasShiftEnding(d, ToUpper(Trim(time.value)))
  {
    ByTimeMeaning(Some(S.doctors), time);
  }

  /** With only a name given (and no LIKE wildcard in it), the search is exact
      name equality, unlike the other name searches, which match a
      case-insensitive substring. */
  lemma NameOnlySearchIsExact(S: Db, name: Option<string>, specialty: Option<string>, time: Option<string>)
    requires !IsBlank(name) && IsBlank(specialty) && IsBlank(time)
    requires '%' !in name.value && '_' !in name.value
    ensures forall d :: d in DoctorSearch(S, name, specialty, time) <==> d in S.doctors && d.name == name
  {
    FindDoctorByNameMeaning(S, name);
  }

  // ---------------------------------------------------------------- filterPatient

  /** `filterPatient(condition, name, token)`: resolve the patient of the
      token, then dispatch on which filters are present. The condition and
      name filter takes a primitive id, so a patient without an id throws there. */
  function FilterPatient(S: Db, env: Env, condition: Option<string>, name: Option<string>, t: Option<Token>): Reply {
    if MissingToken(t) then Message(Unauthorized, "Missing token")
    else
      var patient := PatientByEmail(S, ExtractEmail(env, t));
      if patient.Absent? then Message(Unauthorized, "Invalid token or patient not found")
      else if patient.Ambiguous? then Message(Unauthorized, "Invalid token")
      else
        var p := patient.value;
        var hasCondition := !IsBlank(condition);
        var hasDoctorName := !IsBlank(name);
        if hasCondition && hasDoctorName then
          (if p.id.None? then Threw else FilterByDoctorAndCondition(S, condition, name, p.id.value))
        else if hasCondition then FilterByCondition(S, condition, p.id)
        else if hasDoctorName then FilterByDoctor(S, name, p.id)
        else GetPatientAppointment(S, env, p.id, t)
  }

  /** Whatever the filters, a listing answered holds only appointments of the
      one patient whose email is the token's subject. */
  lemma FilterPatientOwnRowsOnly(S: Db, env: Env, condition: Option<string>, name: Option<string>, t: Option<Token>)
    ensures var r := FilterPatient(S, env, condition, name, t);
      r.Reply? && r.body.appointments.Some? ==>
        && PatientByEmail(S, ExtractEmail(env, t)).Unique?
        && var p := PatientByEmail(S, ExtractEmail(env, t)).value;
        && p.id.Some?
        && exists rows :: r.body.appointments == Some(ToDtos(S, rows))
             && forall a :: a in rows ==> a in S.appointments && PatientIdOf(a) == p.id
  {
    var r := FilterPatient(S, env, condition, name, t);
    if r.Reply? && r.body.appointments.Some? {
      var p := PatientByEmail(S, ExtractEmail(env, t)).value;
      var hasCondition := !IsBlank(condition);
      var hasDoctorName := !IsBlank(name);
      var id := p.id.value;
      if hasCondition && hasDoctorName {
        DoctorAndConditionMeaning(S, condition, name, id);
        DoctorFilterMeaning(S, name, id);
        var rows := AppointmentsByDoctorNameAndStatus(S, DoctorNameFragment(name), id, ConditionToStatus(condition));
        assert r.body.appointments == Some(ToDtos(S, rows));
      } else if hasCondition {
        var rows := AppointmentsOfPatientWithStatus(S, id, ConditionToStatus(condition));
        assert r.body.appointments == Some(ToDtos(S, rows));
      } else if hasDoctorName {
        DoctorFilterMeaning(S, name, id);
        var rows := AppointmentsByDoctorName(S, DoctorNameFragment(name), id);
        assert r.body.appointments == Some(ToDtos(S, rows));
      } else {
        OwnAppointmentsOnly(S, env, p.id, t);
        var rows := AppointmentsOfPatient(S, id);
        assert r.body.appointments == Some(ToDtos(S, rows));
      }
    }
  }
}
