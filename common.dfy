/** Small value types shared by every service: a nullable reference and the
    outcome of a single-result repository finder. */
module Common {

  /** A Java reference that may be null. */
  datatype Option<+T> = None | Some(value: T)

  /** What a Spring Data finder declared to return ONE entity yields: nothing,
      the entity, or (when several rows match) the
      IncorrectResultSizeDataAccessException it throws. */
  datatype Lookup<+T> = Absent | Unique(value: T) | Ambiguous

  /** The finder's answer for the rows that match its criterion. */
  function Single<T>(hits: seq<T>): (r: Lookup<T>)
    ensures r == Absent <==> |hits| == 0
    ensures r.Unique? <==> |hits| == 1
    ensures r.Unique? ==> r.value == hits[0]
    ensures r == Ambiguous <==> |hits| > 1
  {
    if |hits| == 0 then Absent
    else if |hits| == 1 then Unique(hits[0])
    else Ambiguous
  }

  /** A value a method returns, or an exception it lets propagate. */
  datatype Outcome<+T> = Value(value: T) | Thrown
}
