/**
 * The persisted records of the duration-tracking service and the small
 * vocabulary shared by every other module: optional values, the errors the
 * controllers raise, the state of the two tables and the `.first()` query.
 */
module Records {

  datatype Option<+T> = None | Some(value: T)

  /** A civil day in the service's fixed time zone, as a day number. */
  type Date = int

  /** A civil timestamp in the service's fixed time zone, in whole seconds. */
  type Timestamp = int

  /** A value of the SQL `Time` column `total_duration`, read back as hour, minute, second. */
  datatype Hms = Hms(hour: nat, minute: nat, second: nat)

  /** A time-of-day value whose minute and second fields are in range. */
  predicate Canonical(t: Hms)
  {
    t.minute < 60 && t.second < 60
  }

  /** One row of `person_durations`: a person's cumulative presence on one day. */
  datatype PersonDuration = PersonDuration(
    id: nat,
    name: string,
    totalDuration: Option<Hms>,
    createdAt: Date)

  /** One row of `detail_person_durations`: one open/close detection interval. */
  datatype DetailPersonDuration = DetailPersonDuration(
    id: nat,
    personDurationId: nat,
    labeledImage: Option<string>,
    nim: string,
    name: string,
    nameTrackId: string,
    startTime: Timestamp,
    endTime: Option<Timestamp>)

  /** The two `HTTPException`s the controllers raise. */
  datatype Error = NotFound(detail: string) | BadRequest(detail: string)

  function StatusCode(e: Error): (code: nat)
    ensures code == 404 <==> e.NotFound?
    ensures code == 400 <==> e.BadRequest?
  {
    match e
    case NotFound(_) => 404
    case BadRequest(_) => 400
  }

  datatype Result<+T> = Ok(value: T) | Err(error: Error)

  /**
   * Both tables in insertion order, with the next identifier each table's
   * auto-increment key hands out.
   */
  datatype Db = Db(
    personDurations: seq<PersonDuration>,
    details: seq<DetailPersonDuration>,
    nextPersonDurationId: nat,
    nextDetailId: nat)

  /** The state of a controller call: the tables afterwards and the response. */
  datatype Step<+T> = Step(db: Db, response: T)

  /** Identifiers are handed out in increasing order and are below the counters. */
  ghost predicate WellFormed(db: Db)
  {
    (forall i :: 0 <= i < |db.personDurations| ==> db.personDurations[i].id < db.nextPersonDurationId) &&
    (forall i, j :: 0 <= i < j < |db.personDurations| ==> db.personDurations[i].id < db.personDurations[j].id) &&
    (forall i :: 0 <= i < |db.details| ==> db.details[i].id < db.nextDetailId) &&
    (forall i, j :: 0 <= i < j < |db.details| ==> db.details[i].id < db.details[j].id)
  }

  /** Some stored aggregate has the id the session refers to. */
  ghost predicate HasOwner(entries: seq<PersonDuration>, d: DetailPersonDuration)
  {
    exists j :: 0 <= j < |entries| && entries[j].id == d.personDurationId
  }

  /** Every session refers to a stored aggregate (the foreign key). */
  ghost predicate OwnersExist(db: Db)
  {
    forall i :: 0 <= i < |db.details| ==> HasOwner(db.personDurations, db.details[i])
  }

  /** An owner is still found once aggregates are appended or changed in anything but their ids. */
  lemma HasOwnerKept(entries: seq<PersonDuration>, entries': seq<PersonDuration>, d: DetailPersonDuration, d': DetailPersonDuration)
    requires HasOwner(entries, d) && d'.personDurationId == d.personDurationId
    requires |entries| <= |entries'| && forall j :: 0 <= j < |entries| ==> entries'[j].id == entries[j].id
    ensures HasOwner(entries', d')
  {
    var j :| 0 <= j < |entries| && entries[j].id == d.personDurationId;
    assert entries'[j].id == d'.personDurationId;
  }

  /** A query's `.first()`, read as the lowest insertion index whose row satisfies `p`, if any. */
  function First<T>(s: seq<T>, p: T -> bool): (r: Option<nat>)
    ensures r.Some? ==> r.value < |s| && p(s[r.value])
    ensures r.Some? ==> forall j :: 0 <= j < r.value ==> !p(s[j])
    ensures r.None? ==> forall j :: 0 <= j < |s| ==> !p(s[j])
  {
    if s == [] then None
    else if p(s[0]) then Some(0)
    else
      match First(s[1..], p)
      case None => None
      case Some(i) => Some(i + 1)
  }

  /** The contract of `First` pins its result down: the least matching index. */
  lemma FirstIsLeast<T>(s: seq<T>, p: T -> bool, i: nat)
    requires i < |s| && p(s[i])
    requires forall j :: 0 <= j < i ==> !p(s[j])
    ensures First(s, p) == Some(i)
  {
  }

  /** Replacing a row by one that the query sees the same way does not move `.first()`. */
  lemma FirstAfterUpdate<T>(s: seq<T>, p: T -> bool, k: nat, v: T)
    requires k < |s| && p(v) == p(s[k])
    ensures First(s[k := v], p) == First(s, p)
  {
    var s' := s[k := v];
    match First(s, p)
    case None =>
      assert forall j :: 0 <= j < |s'| ==> !p(s'[j]) by {
        forall j | 0 <= j < |s'| ensures !p(s'[j]) {
          assert j != k ==> s'[j] == s[j];
        }
      }
    case Some(i) =>
      assert p(s'[i]) by { assert i != k ==> s'[i] == s[i]; }
      forall j | 0 <= j < i ensures !p(s'[j]) {
        assert j != k ==> s'[j] == s[j];
      }
      FirstIsLeast(s', p, i);
  }

  /** Appending a row never changes an earlier `.first()` hit. */
  lemma FirstAfterAppend<T>(s: seq<T>, p: T -> bool, v: T)
    ensures First(s, p).Some? ==> First(s + [v], p) == First(s, p)
    ensures First(s, p).None? ==> First(s + [v], p) == (if p(v) then Some(|s|) else None)
  {
    var s' := s + [v];
    match First(s, p)
    case None =>
      if p(v) {
        FirstIsLeast(s', p, |s|);
      } else {
        assert forall j :: 0 <= j < |s'| ==> !p(s'[j]) by {
          forall j | 0 <= j < |s'| ensures !p(s'[j]) {
            if j < |s| { assert s'[j] == s[j]; }
          }
        }
      }
    case Some(i) =>
      assert s'[i] == s[i];
      forall j | 0 <= j < i ensures !p(s'[j]) {
        assert s'[j] == s[j];
      }
      FirstIsLeast(s', p, i);
  }
}
