/**
 * The database session the controllers work on: the aggregate and session
 * tables as sequences in insertion order, updated in place. Each method is
 * one controller call and is proved to leave exactly the tables, and give
 * exactly the response, that the controller's step function describes.
 */
module Store {
  import opened Records
  import opened NameNormalizer
  import opened DurationCodec
  import PDC = PersonDurationController
  import DPDC = DetailPersonDurationController

  /**
   * `f"{h:02}:{m:02}:{s:02}"` of whole seconds split by 3600 and 60, as
   * the `Time` column reads the text back.
   */
  method WriteSeconds(totalSeconds: nat) returns (stored: Option<Hms>)
    ensures stored == Some(EncodeSeconds(totalSeconds))
  {
    var hours, minutes, seconds := totalSeconds / 3600, (totalSeconds % 3600) / 60, totalSeconds % 60;
    var text := FormatHms(Hms(hours, minutes, seconds));
    ParseFormat(EncodeSeconds(totalSeconds));
    stored := ParseHms(text);
  }

  /**
   * The total a close writes into the aggregate: the elapsed seconds, or
   * the old total plus them, written as text and read back. It is the
   * total `Accumulate` describes.
   */
  method StoredTotal(previous: Option<Hms>, totalSeconds: nat) returns (stored: Option<Hms>)
    ensures stored == DPDC.Accumulate(previous, totalSeconds)
  {
    if previous.Some? {
      var oldTotal := previous.value;
      var oldTotalSeconds := oldTotal.hour * 3600 + oldTotal.minute * 60 + oldTotal.second;
      stored := WriteSeconds(oldTotalSeconds + totalSeconds);
    } else {
      stored := WriteSeconds(totalSeconds);
    }
  }

  /** Changing one aggregate's total keeps every (name, day) pair unique. */
  lemma TotalUpdateKeepsOnePerNameAndDay(entries: seq<PersonDuration>, j: nat, total: Option<Hms>)
    requires j < |entries| && PDC.OnePerNameAndDay(entries)
    ensures PDC.OnePerNameAndDay(entries[j := entries[j].(totalDuration := total)])
  {
    var entries' := entries[j := entries[j].(totalDuration := total)];
    assert forall i :: 0 <= i < |entries| ==>
      entries'[i].name == entries[i].name && entries'[i].createdAt == entries[i].createdAt;
  }

  class DurationStore {
    var personDurations: seq<PersonDuration>
    var details: seq<DetailPersonDuration>
    var nextPersonDurationId: nat
    var nextDetailId: nat

    function State(): Db
      reads this
    {
      Db(personDurations, details, nextPersonDurationId, nextDetailId)
    }

    /** Identifiers increase, and no two aggregates share a name and a day. */
    ghost predicate Valid()
      reads this
    {
      WellFormed(State()) && PDC.OnePerNameAndDay(personDurations)
    }

    constructor ()
      ensures Valid() && OwnersExist(State())
      ensures personDurations == [] && details == []
    {
      personDurations := [];
      details := [];
      nextPersonDurationId := 1;
      nextDetailId := 1;
    }

    /** `create_person_duration`, with `today` read from the clock by the caller. */
    method CreatePersonDuration(name: string, today: Date) returns (r: PDC.CreateResponse)
      requires Valid()
      modifies this
      ensures Valid()
      ensures OwnersExist(old(State())) ==> OwnersExist(State())
      ensures Step(State(), r) == PDC.CreatePersonDuration(old(State()), name, today)
    {
      ghost var before := State();
      var cleaned := CleanedName(name);
      var existing := PDC.FirstByNameAndDay(personDurations, cleaned, today);
      if existing.Some? {
        r := PDC.AlreadyExists(PDC.AlreadyExistsMessage);
        return;
      }
      var entry := PersonDuration(nextPersonDurationId, cleaned, Some(PDC.ZeroTotal), today);
      personDurations := personDurations + [entry];
      nextPersonDurationId := nextPersonDurationId + 1;
      r := PDC.Created(entry);
      PDC.CreatePreservesWellFormed(before, name, today);
      PDC.CreatePreservesOnePerNameAndDay(before, name, today);
    }

    /**
     * `create_detail_person_duration`; `image` is the name the image store
     * gave the upload, if any, and `today`, `now` come from the clock.
     */
    method CreateDetailPersonDuration(
      nim: string, name: string, trackId: string, image: Option<string>,
      today: Date, now: Timestamp) returns (r: Result<DetailPersonDuration>)
      requires Valid()
      modifies this
      ensures Valid()
      ensures OwnersExist(old(State())) ==> OwnersExist(State())
      ensures Step(State(), r) == DPDC.CreateDetailPersonDuration(old(State()), nim, name, trackId, image, today, now)
    {
      ghost var before := State();
      var key := ComparisonKey(name);
      var matching := DPDC.FirstMatchingOnDay(personDurations, key, today);
      if matching.None? {
        r := Err(NotFound(DPDC.MatchingNotFound));
        return;
      }
      var detail := DetailPersonDuration(
        nextDetailId, personDurations[matching.value].id, image, nim, name, trackId, now, None);
      details := details + [detail];
      nextDetailId := nextDetailId + 1;
      r := Ok(detail);
      assert personDurations == before.personDurations;
      DPDC.AppendSessionKeepsInvariants(before, detail, matching.value);
    }

    /**
     * `update_end_time_by_track_name_id`. The end time is set on the session
     * first; if the owning aggregate then cannot be found the change is
     * rolled back, as the uncommitted database session is.
     */
    method UpdateEndTimeByTrackNameId(trackId: string, end: Timestamp) returns (r: Result<DetailPersonDuration>)
      requires Valid() && DPDC.EndNotBeforeStart(State(), trackId, end)
      modifies this
      ensures Valid()
      ensures OwnersExist(old(State())) ==> OwnersExist(State())
      ensures Step(State(), r) == DPDC.UpdateEndTimeByTrackNameId(old(State()), trackId, end)
    {
      ghost var before := State();
      var found := DPDC.FirstByTrack(details, trackId);
      if found.None? {
        r := Err(NotFound(DPDC.DetailNotFound));
        return;
      }
      var k := found.value;
      var matching := details[k];
      if matching.endTime.Some? {
        r := Err(BadRequest(DPDC.EndTimeAlreadySet));
        return;
      }
      var uncommitted := details;
      var closed := matching.(endTime := Some(end));
      details := details[k := closed];

      var totalSeconds: nat := end - matching.startTime;

      var owner := DPDC.FirstById(personDurations, matching.personDurationId);
      if owner.None? {
        details := uncommitted;
        r := Err(NotFound(DPDC.OwnerNotFound));
        return;
      }
      var j := owner.value;
      var entry := personDurations[j];
      var stored := StoredTotal(entry.totalDuration, totalSeconds);
      personDurations := personDurations[j := entry.(totalDuration := stored)];
      r := Ok(closed);
      DPDC.CloseIsCloseAt(before, trackId, end, k, j);
      assert State() == DPDC.CloseAt(before, k, j, end);
      DPDC.CloseAtKeepsInvariants(before, k, j, end);
      TotalUpdateKeepsOnePerNameAndDay(before.personDurations, j, stored);
    }

    /** `get_all_person_durations_with_details`. */
    method GetAllPersonDurationsWithDetails() returns (r: seq<PDC.PersonDurationWithDetails>)
      ensures r == PDC.GetAllPersonDurationsWithDetails(State())
      ensures PDC.NewestFirst(PDC.Entries(r))
      ensures multiset(PDC.Entries(r)) == multiset(personDurations)
      ensures forall i :: 0 <= i < |r| ==>
        forall d :: d in r[i].details <==> d in details && d.personDurationId == r[i].entry.id
    {
      r := PDC.GetAllPersonDurationsWithDetails(State());
    }
  }
}
