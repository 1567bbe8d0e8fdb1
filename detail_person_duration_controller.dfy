/**
 * The session controller: opening a session against today's aggregate for a
 * detected name, and closing a session by its track identifier, which folds
 * the elapsed seconds into the owning aggregate's HH:MM:SS total. Each
 * operation is a function from the tables before the call to the tables
 * after it and the response; an error leaves the tables as they were.
 */
module DetailPersonDurationController {
  import opened Records
  import opened NameNormalizer
  import opened DurationCodec

  const MatchingNotFound: string := "Matching person_duration entry not found"
  const DetailNotFound: string := "Person duration entry not found"
  const EndTimeAlreadySet: string := "End time already set, cannot update"
  const OwnerNotFound: string := "PersonDuration entry not found"

  /** The open query's filter: `lower(replace(name, ' ', '')) == key` and `date(created_at) == today`. */
  predicate MatchesKeyOnDay(e: PersonDuration, key: string, day: Date)
  {
    StoredNameKey(e.name) == key && e.createdAt == day
  }

  function FirstMatchingOnDay(entries: seq<PersonDuration>, key: string, day: Date): (r: Option<nat>)
    ensures r.Some? ==> r.value < |entries| && MatchesKeyOnDay(entries[r.value], key, day)
    ensures r.Some? ==> forall j :: 0 <= j < r.value ==> !MatchesKeyOnDay(entries[j], key, day)
    ensures r.None? <==> forall i :: 0 <= i < |entries| ==> !MatchesKeyOnDay(entries[i], key, day)
  {
    First(entries, (e: PersonDuration) => MatchesKeyOnDay(e, key, day))
  }

  predicate HasTrack(d: DetailPersonDuration, trackId: string)
  {
    d.nameTrackId == trackId
  }

  /** The close query: `name_track_id == track_name_id`, `.first()`, open or closed alike. */
  function FirstByTrack(details: seq<DetailPersonDuration>, trackId: string): (r: Option<nat>)
    ensures r.Some? ==> r.value < |details| && HasTrack(details[r.value], trackId)
    ensures r.Some? ==> forall j :: 0 <= j < r.value ==> !HasTrack(details[j], trackId)
    ensures r.None? <==> forall i :: 0 <= i < |details| ==> !HasTrack(details[i], trackId)
  {
    First(details, (d: DetailPersonDuration) => HasTrack(d, trackId))
  }

  predicate HasId(e: PersonDuration, id: nat)
  {
    e.id == id
  }

  /** The owner query: `id == person_duration_id`, `.first()`. */
  function FirstById(entries: seq<PersonDuration>, id: nat): (r: Option<nat>)
    ensures r.Some? ==> r.value < |entries| && HasId(entries[r.value], id)
    ensures r.None? <==> forall i :: 0 <= i < |entries| ==> !HasId(entries[i], id)
  {
    First(entries, (e: PersonDuration) => HasId(e, id))
  }

  /**
   * `create_detail_person_duration`: find the first aggregate of today whose
   * space-free lower-cased name equals the comparison key of `name`; fail if
   * there is none, otherwise add an open session for it. `image` is the name
   * the image store gave the upload, if one was sent; `today` and `now` are
   * the clock's date and time in the service's zone.
   */
  function CreateDetailPersonDuration(
    db: Db, nim: string, name: string, trackId: string, image: Option<string>,
    today: Date, now: Timestamp): (r: Step<Result<DetailPersonDuration>>)
    ensures r.response.Err? <==>
      forall i :: 0 <= i < |db.personDurations| ==> !MatchesKeyOnDay(db.personDurations[i], ComparisonKey(name), today)
    ensures r.response.Err? ==>
      r.response.error == NotFound(MatchingNotFound) && StatusCode(r.response.error) == 404 && r.db == db
    ensures r.response.Ok? ==>
      var d := r.response.value;
      r.db == db.(details := db.details + [d], nextDetailId := db.nextDetailId + 1) &&
      d.id == db.nextDetailId && d.nim == nim && d.name == name && d.nameTrackId == trackId &&
      d.labeledImage == image && d.startTime == now && d.endTime == None
  {
    var key := ComparisonKey(name);
    match FirstMatchingOnDay(db.personDurations, key, today)
    case None => Step(db, Err(NotFound(MatchingNotFound)))
    case Some(i) =>
      var d := DetailPersonDuration(db.nextDetailId, db.personDurations[i].id, image, nim, name, trackId, now, None);
      Step(db.(details := db.details + [d], nextDetailId := db.nextDetailId + 1), Ok(d))
  }

  /** The session an open adds belongs to the first of today's aggregates that match the name. */
  lemma OpenOwnerIsFirstMatch(
    db: Db, nim: string, name: string, trackId: string, image: Option<string>, today: Date, now: Timestamp)
    ensures var r := CreateDetailPersonDuration(db, nim, name, trackId, image, today, now);
      r.response.Ok? ==>
        exists i :: 0 <= i < |db.personDurations| &&
          MatchesKeyOnDay(db.personDurations[i], ComparisonKey(name), today) &&
          db.personDurations[i].id == r.response.value.personDurationId &&
          forall j :: 0 <= j < i ==> !MatchesKeyOnDay(db.personDurations[j], ComparisonKey(name), today)
  {
    var m := FirstMatchingOnDay(db.personDurations, ComparisonKey(name), today);
    if m.Some? {
      var i := m.value;
      assert 0 <= i < |db.personDurations| && MatchesKeyOnDay(db.personDurations[i], ComparisonKey(name), today);
    }
  }

  /**
   * Folding `elapsed` seconds into a stored total: with a stored total, decode
   * it, add and re-encode; with none, encode `elapsed` alone. (The store
   * writes the encoding as `HH:MM:SS` text, which the column reads back as
   * this value: `Store.StoredTotal`.)
   */
  function Accumulate(total: Option<Hms>, elapsed: nat): (r: Option<Hms>)
    ensures r.Some? && Canonical(r.value)
    ensures TotalSeconds(r) == TotalSeconds(total) + elapsed
  {
    match total
    case Some(t) => Some(EncodeSeconds(DecodeSeconds(t) + elapsed))
    case None => Some(EncodeSeconds(elapsed))
  }

  /**
   * The proviso under which a close is modelled: if the session a close
   * would act on is still open, the end time is not before its start.
   */
  predicate EndNotBeforeStart(db: Db, trackId: string, end: Timestamp)
  {
    match FirstByTrack(db.details, trackId)
    case None => true
    case Some(k) => db.details[k].endTime.None? ==> db.details[k].startTime <= end
  }

  /**
   * `update_end_time_by_track_name_id`: take the first session with the
   * track identifier; fail if there is none or if it is already closed;
   * otherwise set its end time and fold the elapsed seconds into its owner's
   * total, failing without committing anything if the owner is gone.
   */
  function UpdateEndTimeByTrackNameId(db: Db, trackId: string, end: Timestamp): (r: Step<Result<DetailPersonDuration>>)
    requires EndNotBeforeStart(db, trackId, end)
    ensures r.response.Err? ==> r.db == db
    ensures r.response.Err? ==>
      (StatusCode(r.response.error) == 400 <==>
        FirstByTrack(db.details, trackId).Some? && db.details[FirstByTrack(db.details, trackId).value].endTime.Some?)
    ensures r.response == Err(NotFound(DetailNotFound)) <==>
      forall i :: 0 <= i < |db.details| ==> !HasTrack(db.details[i], trackId)
    ensures r.response.Ok? ==> r.response.value.endTime == Some(end) && HasTrack(r.response.value, trackId)
    ensures r.db.nextPersonDurationId == db.nextPersonDurationId && r.db.nextDetailId == db.nextDetailId
    ensures |r.db.details| == |db.details| && |r.db.personDurations| == |db.personDurations|
    ensures forall i :: 0 <= i < |db.details| ==>
      r.db.details[i] == db.details[i] ||
      (db.details[i].endTime.None? && HasTrack(db.details[i], trackId) && r.db.details[i] == db.details[i].(endTime := Some(end)))
    ensures forall i :: 0 <= i < |db.personDurations| ==>
      r.db.personDurations[i].(totalDuration := db.personDurations[i].totalDuration) == db.personDurations[i]
  {
    match FirstByTrack(db.details, trackId)
    case None => Step(db, Err(NotFound(DetailNotFound)))
    case Some(k) =>
      var matching := db.details[k];
      if matching.endTime.Some? then Step(db, Err(BadRequest(EndTimeAlreadySet)))
      else
        match FirstById(db.personDurations, matching.personDurationId)
        case None => Step(db, Err(NotFound(OwnerNotFound)))
        case Some(j) => Step(CloseAt(db, k, j, end), Ok(matching.(endTime := Some(end))))
  }

  /**
   * The tables after session `k` is closed at `end` and its elapsed seconds
   * are folded into aggregate `j`.
   */
  function CloseAt(db: Db, k: nat, j: nat, end: Timestamp): Db
    requires k < |db.details| && j < |db.personDurations| && db.details[k].startTime <= end
  {
    db.(details := db.details[k := db.details[k].(endTime := Some(end))],
        personDurations := AddToTotal(db.personDurations, j, end - db.details[k].startTime))
  }

  /** `k` is the session a close with `trackId` acts on. */
  predicate IsFirstWithTrack(details: seq<DetailPersonDuration>, k: nat, trackId: string)
  {
    k < |details| && HasTrack(details[k], trackId) &&
    forall j :: 0 <= j < k ==> !HasTrack(details[j], trackId)
  }

  /** The two ways of storing a total agree on a given elapsed time exactly when the old total is zero. */
  lemma BranchesAgreeIffZero(t: Hms, elapsed: nat)
    ensures Accumulate(Some(t), elapsed) == Accumulate(None, elapsed) <==> DecodeSeconds(t) == 0
  {
  }

  /** Folding two elapsed times in either order gives the same total. */
  lemma AccumulateCommutes(total: Option<Hms>, a: nat, b: nat)
    ensures Accumulate(Accumulate(total, a), b) == Accumulate(Accumulate(total, b), a)
  {
    var x, y := Accumulate(Accumulate(total, a), b), Accumulate(Accumulate(total, b), a);
    DecodeInjective(x.value, y.value);
  }

  /** Closing a session that is already closed fails and changes nothing. */
  lemma CloseAlreadyClosed(db: Db, trackId: string, end: Timestamp, k: nat)
    requires IsFirstWithTrack(db.details, k, trackId) && db.details[k].endTime.Some?
    ensures EndNotBeforeStart(db, trackId, end)
    ensures UpdateEndTimeByTrackNameId(db, trackId, end) == Step(db, Err(BadRequest(EndTimeAlreadySet)))
  {
    FirstIsLeast(db.details, (d: DetailPersonDuration) => HasTrack(d, trackId), k);
  }

  /** Closing a session whose owner is gone fails and commits nothing. */
  lemma CloseOwnerMissing(db: Db, trackId: string, end: Timestamp, k: nat)
    requires IsFirstWithTrack(db.details, k, trackId) && db.details[k].endTime.None?
    requires db.details[k].startTime <= end
    requires forall i :: 0 <= i < |db.personDurations| ==> db.personDurations[i].id != db.details[k].personDurationId
    ensures EndNotBeforeStart(db, trackId, end)
    ensures UpdateEndTimeByTrackNameId(db, trackId, end) == Step(db, Err(NotFound(OwnerNotFound)))
  {
    FirstIsLeast(db.details, (d: DetailPersonDuration) => HasTrack(d, trackId), k);
  }

  /**
   * A successful close sets the end time of exactly the first session with
   * the track identifier, and adds its whole elapsed seconds to its owner's
   * total; no other session and no other aggregate changes.
   */
  lemma CloseAccumulates(db: Db, trackId: string, end: Timestamp, k: nat, j: nat)
    requires IsFirstWithTrack(db.details, k, trackId) && db.details[k].endTime.None?
    requires db.details[k].startTime <= end
    requires j < |db.personDurations| && db.personDurations[j].id == db.details[k].personDurationId
    requires forall i :: 0 <= i < j ==> db.personDurations[i].id != db.details[k].personDurationId
    ensures EndNotBeforeStart(db, trackId, end)
    ensures var r := UpdateEndTimeByTrackNameId(db, trackId, end);
      r.response == Ok(db.details[k].(endTime := Some(end))) &&
      r.db.details == db.details[k := db.details[k].(endTime := Some(end))] &&
      (forall i :: 0 <= i < |db.personDurations| && i != j ==> r.db.personDurations[i] == db.personDurations[i]) &&
      TotalSeconds(r.db.personDurations[j].totalDuration) ==
        TotalSeconds(db.personDurations[j].totalDuration) + (end - db.details[k].startTime)
  {
    FirstIsLeast(db.details, (d: DetailPersonDuration) => HasTrack(d, trackId), k);
    FirstIsLeast(db.personDurations, (e: PersonDuration) => HasId(e, db.details[k].personDurationId), j);
  }

  /** A session once closed is never changed by a close. */
  lemma CloseKeepsClosedSessions(db: Db, trackId: string, end: Timestamp)
    requires EndNotBeforeStart(db, trackId, end)
    ensures var r := UpdateEndTimeByTrackNameId(db, trackId, end);
      forall i :: 0 <= i < |db.details| && db.details[i].endTime.Some? ==> r.db.details[i] == db.details[i]
  {
  }

  /**
   * Closing the same track twice: the second close fails with "already set",
   * whatever its end time, and the tables, totals included, stay as the
   * first close left them; the total holds one accumulation.
   */
  lemma CloseTwice(db: Db, trackId: string, end1: Timestamp, end2: Timestamp)
    requires EndNotBeforeStart(db, trackId, end1)
    requires UpdateEndTimeByTrackNameId(db, trackId, end1).response.Ok?
    ensures var db1 := UpdateEndTimeByTrackNameId(db, trackId, end1).db;
      EndNotBeforeStart(db1, trackId, end2) &&
      UpdateEndTimeByTrackNameId(db1, trackId, end2) == Step(db1, Err(BadRequest(EndTimeAlreadySet)))
  {
    var k := FirstByTrack(db.details, trackId).value;
    var db1 := UpdateEndTimeByTrackNameId(db, trackId, end1).db;
    var closed := db.details[k].(endTime := Some(end1));
    assert db1.details == db.details[k := closed];
    FirstAfterUpdate(db.details, (d: DetailPersonDuration) => HasTrack(d, trackId), k, closed);
    CloseAlreadyClosed(db1, trackId, end2, k);
  }

  /**
   * Reusing a track identifier: once the first session with that identifier
   * is closed, a new session opened with it can never be closed, because
   * `.first()`, read as the lowest insertion index, always finds the older
   * session.
   */
  lemma ReusedTrackCannotClose(
    db: Db, nim: string, name: string, trackId: string, image: Option<string>,
    today: Date, now: Timestamp, end: Timestamp, k: nat)
    requires IsFirstWithTrack(db.details, k, trackId) && db.details[k].endTime.Some?
    ensures var db1 := CreateDetailPersonDuration(db, nim, name, trackId, image, today, now).db;
      EndNotBeforeStart(db1, trackId, end) &&
      UpdateEndTimeByTrackNameId(db1, trackId, end) == Step(db1, Err(BadRequest(EndTimeAlreadySet)))
  {
    var r := CreateDetailPersonDuration(db, nim, name, trackId, image, today, now);
    if r.response.Ok? {
      var d := r.response.value;
      assert r.db.details == db.details + [d];
      assert r.db.details[k] == db.details[k];
      forall j | 0 <= j < k ensures !HasTrack(r.db.details[j], trackId) {
        assert r.db.details[j] == db.details[j];
      }
    }
    CloseAlreadyClosed(r.db, trackId, end, k);
  }

  /** A close on another track leaves this track's target session and owner lookup as they were. */
  lemma CloseOtherTrack(db: Db, tA: string, eA: Timestamp, tB: string)
    requires tA != tB && EndNotBeforeStart(db, tA, eA)
    ensures var db1 := UpdateEndTimeByTrackNameId(db, tA, eA).db;
      FirstByTrack(db1.details, tB) == FirstByTrack(db.details, tB) &&
      (FirstByTrack(db.details, tB).Some? ==>
        db1.details[FirstByTrack(db.details, tB).value] == db.details[FirstByTrack(db.details, tB).value]) &&
      forall id :: FirstById(db1.personDurations, id) == FirstById(db.personDurations, id)
  {
    var r := UpdateEndTimeByTrackNameId(db, tA, eA);
    if r.response.Ok? {
      var k := FirstByTrack(db.details, tA).value;
      var j := FirstById(db.personDurations, db.details[k].personDurationId).value;
      FirstAfterUpdate(db.details, (d: DetailPersonDuration) => HasTrack(d, tB), k, r.db.details[k]);
      assert r.db.details == db.details[k := r.db.details[k]];
      assert r.db.personDurations == db.personDurations[j := r.db.personDurations[j]];
      forall id ensures FirstById(r.db.personDurations, id) == FirstById(db.personDurations, id) {
        FirstAfterUpdate(db.personDurations, (e: PersonDuration) => HasId(e, id), j, r.db.personDurations[j]);
      }
    }
  }

  /** A close whose target session and owner are known is `CloseAt` those two. */
  lemma CloseIsCloseAt(db: Db, trackId: string, end: Timestamp, k: nat, j: nat)
    requires FirstByTrack(db.details, trackId) == Some(k) && db.details[k].endTime.None?
    requires db.details[k].startTime <= end
    requires FirstById(db.personDurations, db.details[k].personDurationId) == Some(j)
    ensures EndNotBeforeStart(db, trackId, end)
    ensures UpdateEndTimeByTrackNameId(db, trackId, end) == Step(CloseAt(db, k, j, end), Ok(db.details[k].(endTime := Some(end))))
  {
  }

  /** Closing two different sessions in either order gives the same tables. */
  lemma CloseAtCommutes(db: Db, kA: nat, jA: nat, eA: Timestamp, kB: nat, jB: nat, eB: Timestamp)
    requires kA != kB && kA < |db.details| && kB < |db.details|
    requires jA < |db.personDurations| && jB < |db.personDurations|
    requires db.details[kA].startTime <= eA && db.details[kB].startTime <= eB
    ensures CloseAt(db, kA, jA, eA).details[kB] == db.details[kB]
    ensures CloseAt(db, kB, jB, eB).details[kA] == db.details[kA]
    ensures CloseAt(CloseAt(db, kA, jA, eA), kB, jB, eB) == CloseAt(CloseAt(db, kB, jB, eB), kA, jA, eA)
  {
    var ds := db.details;
    CloseAtThenCloseAt(db, kA, jA, eA, kB, jB, eB);
    CloseAtThenCloseAt(db, kB, jB, eB, kA, jA, eA);
    TotalsAfterTwoCommute(db.personDurations, jA, eA - ds[kA].startTime, jB, eB - ds[kB].startTime);
    UpdatesCommute(ds, kA, ds[kA].(endTime := Some(eA)), kB, ds[kB].(endTime := Some(eB)));
  }

  /** Two updates of a sequence at different indices commute. */
  lemma UpdatesCommute<T>(s: seq<T>, i: nat, x: T, j: nat, y: T)
    requires i != j && i < |s| && j < |s|
    ensures s[i := x][j := y] == s[j := y][i := x]
  {
  }

  /** Two closes of different sessions, one after the other, as one update of both tables. */
  lemma CloseAtThenCloseAt(db: Db, kA: nat, jA: nat, eA: Timestamp, kB: nat, jB: nat, eB: Timestamp)
    requires kA != kB && kA < |db.details| && kB < |db.details|
    requires jA < |db.personDurations| && jB < |db.personDurations|
    requires db.details[kA].startTime <= eA && db.details[kB].startTime <= eB
    ensures CloseAt(db, kA, jA, eA).details[kB] == db.details[kB]
    ensures CloseAt(CloseAt(db, kA, jA, eA), kB, jB, eB) == Db(
      TotalsAfterTwo(db.personDurations, jA, eA - db.details[kA].startTime, jB, eB - db.details[kB].startTime),
      db.details[kA := db.details[kA].(endTime := Some(eA))][kB := db.details[kB].(endTime := Some(eB))],
      db.nextPersonDurationId, db.nextDetailId)
  {
    var dbA := CloseAt(db, kA, jA, eA);
    CloseAtShape(db, kA, jA, eA);
    CloseAtShape(dbA, kB, jB, eB);
  }

  lemma CloseAtShape(db: Db, k: nat, j: nat, end: Timestamp)
    requires k < |db.details| && j < |db.personDurations| && db.details[k].startTime <= end
    ensures CloseAt(db, k, j, end) == Db(
      AddToTotal(db.personDurations, j, end - db.details[k].startTime),
      db.details[k := db.details[k].(endTime := Some(end))],
      db.nextPersonDurationId, db.nextDetailId)
    ensures forall i :: 0 <= i < |db.details| && i != k ==> CloseAt(db, k, j, end).details[i] == db.details[i]
  {
  }

  /** Folding `elapsed` seconds into aggregate `j`. */
  function AddToTotal(pds: seq<PersonDuration>, j: nat, elapsed: nat): (r: seq<PersonDuration>)
    requires j < |pds|
    ensures |r| == |pds|
  {
    pds[j := pds[j].(totalDuration := Accumulate(pds[j].totalDuration, elapsed))]
  }

  /**
   * Folding seconds into aggregate `j` changes only its total, to a
   * well-formed one that is larger by exactly `elapsed` seconds.
   */
  lemma AddToTotalChanges(pds: seq<PersonDuration>, j: nat, elapsed: nat)
    requires j < |pds|
    ensures var r := AddToTotal(pds, j, elapsed);
      (forall i :: 0 <= i < |pds| && i != j ==> r[i] == pds[i]) &&
      r[j].(totalDuration := pds[j].totalDuration) == pds[j] &&
      r[j].totalDuration.Some? && Canonical(r[j].totalDuration.value) &&
      TotalSeconds(r[j].totalDuration) == TotalSeconds(pds[j].totalDuration) + elapsed
  {
  }

  /**
   * Closing session `k` into aggregate `j` sets the end time of that session
   * alone and adds its elapsed seconds to that aggregate's total alone.
   */
  lemma CloseAtChanges(db: Db, k: nat, j: nat, end: Timestamp)
    requires k < |db.details| && j < |db.personDurations| && db.details[k].startTime <= end
    ensures var r := CloseAt(db, k, j, end);
      |r.details| == |db.details| && r.details[k] == db.details[k].(endTime := Some(end)) &&
      (forall i :: 0 <= i < |db.details| && i != k ==> r.details[i] == db.details[i]) &&
      |r.personDurations| == |db.personDurations| &&
      (forall i :: 0 <= i < |db.personDurations| && i != j ==> r.personDurations[i] == db.personDurations[i]) &&
      r.personDurations[j].(totalDuration := db.personDurations[j].totalDuration) == db.personDurations[j] &&
      TotalSeconds(r.personDurations[j].totalDuration) ==
        TotalSeconds(db.personDurations[j].totalDuration) + (end - db.details[k].startTime) &&
      r.nextPersonDurationId == db.nextPersonDurationId && r.nextDetailId == db.nextDetailId
  {
    AddToTotalChanges(db.personDurations, j, end - db.details[k].startTime);
  }

  function TotalsAfterTwo(pds: seq<PersonDuration>, jA: nat, elA: nat, jB: nat, elB: nat): seq<PersonDuration>
    requires jA < |pds| && jB < |pds|
  {
    AddToTotal(AddToTotal(pds, jA, elA), jB, elB)
  }

  lemma TotalsAfterTwoCommute(pds: seq<PersonDuration>, jA: nat, elA: nat, jB: nat, elB: nat)
    requires jA < |pds| && jB < |pds|
    ensures TotalsAfterTwo(pds, jA, elA, jB, elB) == TotalsAfterTwo(pds, jB, elB, jA, elA)
  {
    if jA == jB {
      AccumulateCommutes(pds[jA].totalDuration, elA, elB);
    } else {
      assert AddToTotal(pds, jA, elA)[jB] == pds[jB];
      assert AddToTotal(pds, jB, elB)[jA] == pds[jA];
    }
  }

  /**
   * A close that finds the same session, with the same start, end state
   * and owner lookup, in two tables succeeds in both or fails in both.
   */
  lemma CloseOutcomeStable(db: Db, db1: Db, trackId: string, end: Timestamp)
    requires FirstByTrack(db1.details, trackId) == FirstByTrack(db.details, trackId)
    requires FirstByTrack(db.details, trackId).Some? ==>
      db1.details[FirstByTrack(db.details, trackId).value] == db.details[FirstByTrack(db.details, trackId).value]
    requires forall id :: FirstById(db1.personDurations, id) == FirstById(db.personDurations, id)
    requires EndNotBeforeStart(db, trackId, end)
    ensures EndNotBeforeStart(db1, trackId, end)
    ensures UpdateEndTimeByTrackNameId(db1, trackId, end).response.Ok?
        == UpdateEndTimeByTrackNameId(db, trackId, end).response.Ok?
  {
  }

  /**
   * Closes of two different track identifiers commute: either order leaves
   * the same tables, totals included.
   */
  lemma ClosesCommute(db: Db, tA: string, eA: Timestamp, tB: string, eB: Timestamp)
    requires tA != tB
    requires EndNotBeforeStart(db, tA, eA) && EndNotBeforeStart(db, tB, eB)
    ensures EndNotBeforeStart(UpdateEndTimeByTrackNameId(db, tA, eA).db, tB, eB)
    ensures EndNotBeforeStart(UpdateEndTimeByTrackNameId(db, tB, eB).db, tA, eA)
    ensures UpdateEndTimeByTrackNameId(UpdateEndTimeByTrackNameId(db, tA, eA).db, tB, eB).db ==
            UpdateEndTimeByTrackNameId(UpdateEndTimeByTrackNameId(db, tB, eB).db, tA, eA).db
  {
    var rA := UpdateEndTimeByTrackNameId(db, tA, eA);
    var rB := UpdateEndTimeByTrackNameId(db, tB, eB);
    CloseOtherTrack(db, tA, eA, tB);
    CloseOtherTrack(db, tB, eB, tA);
    CloseOutcomeStable(db, rA.db, tB, eB);
    CloseOutcomeStable(db, rB.db, tA, eA);
    if rA.response.Ok? && rB.response.Ok? {
      var kA := FirstByTrack(db.details, tA).value;
      var kB := FirstByTrack(db.details, tB).value;
      var jA := FirstById(db.personDurations, db.details[kA].personDurationId).value;
      var jB := FirstById(db.personDurations, db.details[kB].personDurationId).value;
      CloseIsCloseAt(db, tA, eA, kA, jA);
      CloseIsCloseAt(db, tB, eB, kB, jB);
      CloseAtCommutes(db, kA, jA, eA, kB, jB, eB);
      CloseIsCloseAt(rA.db, tB, eB, kB, jB);
      CloseIsCloseAt(rB.db, tA, eA, kA, jA);
    }
  }

  /**
   * Opening keeps the identifiers increasing and every session owned, and
   * leaves the aggregates as they were.
   */
  lemma OpenPreservesInvariants(
    db: Db, nim: string, name: string, trackId: string, image: Option<string>, today: Date, now: Timestamp)
    requires WellFormed(db)
    ensures var db1 := CreateDetailPersonDuration(db, nim, name, trackId, image, today, now).db;
      WellFormed(db1) && (OwnersExist(db) ==> OwnersExist(db1)) && db1.personDurations == db.personDurations
  {
    var r := CreateDetailPersonDuration(db, nim, name, trackId, image, today, now);
    if r.response.Ok? {
      var owner := FirstMatchingOnDay(db.personDurations, ComparisonKey(name), today).value;
      AppendSessionKeepsInvariants(db, r.response.value, owner);
    }
  }

  /** Appending a session with the next identifier and an existing owner keeps the invariants. */
  lemma AppendSessionKeepsInvariants(db: Db, d: DetailPersonDuration, owner: nat)
    requires WellFormed(db) && d.id == db.nextDetailId
    requires owner < |db.personDurations| && db.personDurations[owner].id == d.personDurationId
    ensures var db1 := db.(details := db.details + [d], nextDetailId := db.nextDetailId + 1);
      WellFormed(db1) && (OwnersExist(db) ==> OwnersExist(db1))
  {
    var db1 := db.(details := db.details + [d], nextDetailId := db.nextDetailId + 1);
    if OwnersExist(db) {
      forall i | 0 <= i < |db1.details| ensures HasOwner(db1.personDurations, db1.details[i]) {
        if i < |db.details| {
          assert db1.details[i] == db.details[i];
        } else {
          assert db1.personDurations[owner].id == db1.details[i].personDurationId;
        }
      }
    }
  }

  /** Closing keeps the identifiers increasing and every session owned. */
  lemma ClosePreservesInvariants(db: Db, trackId: string, end: Timestamp)
    requires WellFormed(db) && EndNotBeforeStart(db, trackId, end)
    ensures var db1 := UpdateEndTimeByTrackNameId(db, trackId, end).db;
      WellFormed(db1) && (OwnersExist(db) ==> OwnersExist(db1))
  {
    var r := UpdateEndTimeByTrackNameId(db, trackId, end);
    if r.response.Ok? {
      var k := FirstByTrack(db.details, trackId).value;
      var j := FirstById(db.personDurations, db.details[k].personDurationId).value;
      CloseIsCloseAt(db, trackId, end, k, j);
      CloseAtKeepsInvariants(db, k, j, end);
    }
  }

  /** Updating an end time and a total changes no identifier and no owner reference. */
  lemma CloseAtKeepsInvariants(db: Db, k: nat, j: nat, end: Timestamp)
    requires k < |db.details| && j < |db.personDurations| && db.details[k].startTime <= end
    requires WellFormed(db)
    ensures WellFormed(CloseAt(db, k, j, end))
    ensures OwnersExist(db) ==> OwnersExist(CloseAt(db, k, j, end))
  {
    var db1 := CloseAt(db, k, j, end);
    CloseAtShape(db, k, j, end);
    assert forall i :: 0 <= i < |db.personDurations| ==> db1.personDurations[i].id == db.personDurations[i].id;
    assert forall i :: 0 <= i < |db.details| ==>
      db1.details[i].id == db.details[i].id && db1.details[i].personDurationId == db.details[i].personDurationId;
    if OwnersExist(db) {
      forall i | 0 <= i < |db1.details| ensures HasOwner(db1.personDurations, db1.details[i]) {
        HasOwnerKept(db.personDurations, db1.personDurations, db.details[i], db1.details[i]);
      }
    }
  }
}
