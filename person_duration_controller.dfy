/**
 * The daily aggregate controller: idempotent creation of a person's
 * aggregate for today, and the listing of all aggregates newest day first
 * with their sessions. Each operation is a function from the tables before
 * the call to the tables after it and the response.
 */
module PersonDurationController {
  import opened Records
  import opened NameNormalizer

  /** The soft "already exists" answer ("data already exists for today"). */
  const AlreadyExistsMessage: string := "Data sudah ada untuk hari ini"

  datatype CreateResponse = AlreadyExists(message: string) | Created(entry: PersonDuration)

  predicate SameNameAndDay(e: PersonDuration, name: string, day: Date)
  {
    e.name == name && e.createdAt == day
  }

  /** The existence query: `name == cleaned_name` and `created_at == today`, `.first()`. */
  function FirstByNameAndDay(entries: seq<PersonDuration>, name: string, day: Date): (r: Option<nat>)
    ensures r.Some? ==> r.value < |entries| && SameNameAndDay(entries[r.value], name, day)
    ensures r.None? <==> forall i :: 0 <= i < |entries| ==> !SameNameAndDay(entries[i], name, day)
  {
    First(entries, (e: PersonDuration) => SameNameAndDay(e, name, day))
  }

  /** The zero total `time(0, 0, 0)` every new aggregate starts with. */
  const ZeroTotal: Hms := Hms(0, 0, 0)

  /**
   * `create_person_duration`: clean the name; if an aggregate with exactly
   * that name exists for today answer "already exists" and change nothing,
   * otherwise add one aggregate with a zero total created today.
   */
  function CreatePersonDuration(db: Db, name: string, today: Date): (r: Step<CreateResponse>)
    ensures r.response.AlreadyExists? <==>
      exists i :: 0 <= i < |db.personDurations| && SameNameAndDay(db.personDurations[i], CleanedName(name), today)
    ensures r.response.AlreadyExists? ==> r.response.message == AlreadyExistsMessage && r.db == db
    ensures r.response.Created? ==>
      r.response.entry == PersonDuration(db.nextPersonDurationId, CleanedName(name), Some(ZeroTotal), today) &&
      r.db == db.(personDurations := db.personDurations + [r.response.entry],
                  nextPersonDurationId := db.nextPersonDurationId + 1)
  {
    var cleaned := CleanedName(name);
    match FirstByNameAndDay(db.personDurations, cleaned, today)
    case Some(_) => Step(db, AlreadyExists(AlreadyExistsMessage))
    case None =>
      var entry := PersonDuration(db.nextPersonDurationId, cleaned, Some(ZeroTotal), today);
      Step(db.(personDurations := db.personDurations + [entry],
               nextPersonDurationId := db.nextPersonDurationId + 1),
           Created(entry))
  }

  /** How many aggregates carry this name on this day. */
  function CountNameAndDay(entries: seq<PersonDuration>, name: string, day: Date): nat
  {
    if entries == [] then 0
    else CountNameAndDay(entries[..|entries| - 1], name, day)
         + (if SameNameAndDay(entries[|entries| - 1], name, day) then 1 else 0)
  }

  lemma {:induction false} CountZeroIffAbsent(entries: seq<PersonDuration>, name: string, day: Date)
    ensures CountNameAndDay(entries, name, day) == 0
        <==> forall i :: 0 <= i < |entries| ==> !SameNameAndDay(entries[i], name, day)
  {
    if entries != [] {
      var init := entries[..|entries| - 1];
      CountZeroIffAbsent(init, name, day);
      assert forall i :: 0 <= i < |init| ==> init[i] == entries[i];
    }
  }

  /** At most one aggregate per (name, day) pair. */
  ghost predicate OnePerNameAndDay(entries: seq<PersonDuration>)
  {
    forall i, j :: 0 <= i < j < |entries| && entries[i].createdAt == entries[j].createdAt ==>
      entries[i].name != entries[j].name
  }

  /** The invariant the store keeps bounds every (name, day) count by one. */
  lemma {:induction false} OnePerImpliesCountAtMostOne(entries: seq<PersonDuration>, name: string, day: Date)
    requires OnePerNameAndDay(entries)
    ensures CountNameAndDay(entries, name, day) <= 1
  {
    if entries != [] {
      var init := entries[..|entries| - 1];
      var last := |entries| - 1;
      assert forall i :: 0 <= i < |init| ==> init[i] == entries[i];
      if SameNameAndDay(entries[last], name, day) {
        assert forall i :: 0 <= i < |init| ==> !SameNameAndDay(init[i], name, day) by {
          forall i | 0 <= i < |init| ensures !SameNameAndDay(init[i], name, day) {
            assert entries[i].createdAt == entries[last].createdAt ==> entries[i].name != entries[last].name;
          }
        }
        CountZeroIffAbsent(init, name, day);
      } else {
        OnePerImpliesCountAtMostOne(init, name, day);
      }
    }
  }

  /** Creation keeps the identifiers increasing and leaves the sessions and their owners alone. */
  lemma CreatePreservesWellFormed(db: Db, name: string, today: Date)
    requires WellFormed(db)
    ensures WellFormed(CreatePersonDuration(db, name, today).db)
    ensures OwnersExist(db) ==> OwnersExist(CreatePersonDuration(db, name, today).db)
  {
    var r := CreatePersonDuration(db, name, today);
    if r.response.Created? {
      AppendAggregateKeepsInvariants(db, r.response.entry);
    }
  }

  /** Appending an aggregate with the next identifier keeps the invariants. */
  lemma AppendAggregateKeepsInvariants(db: Db, e: PersonDuration)
    requires WellFormed(db) && e.id == db.nextPersonDurationId
    ensures var db1 := db.(personDurations := db.personDurations + [e], nextPersonDurationId := db.nextPersonDurationId + 1);
      WellFormed(db1) && (OwnersExist(db) ==> OwnersExist(db1))
  {
    var db1 := db.(personDurations := db.personDurations + [e], nextPersonDurationId := db.nextPersonDurationId + 1);
    if OwnersExist(db) {
      forall i | 0 <= i < |db1.details| ensures HasOwner(db1.personDurations, db1.details[i]) {
        HasOwnerKept(db.personDurations, db1.personDurations, db.details[i], db1.details[i]);
      }
    }
  }

  /** Lookup before create never adds a second aggregate for a (name, day) pair. */
  lemma CreatePreservesOnePerNameAndDay(db: Db, name: string, today: Date)
    requires OnePerNameAndDay(db.personDurations)
    ensures OnePerNameAndDay(CreatePersonDuration(db, name, today).db.personDurations)
  {
    var s' := CreatePersonDuration(db, name, today).db.personDurations;
    forall i, j | 0 <= i < j < |s'| && s'[i].createdAt == s'[j].createdAt
      ensures s'[i].name != s'[j].name
    {
      if j == |db.personDurations| {
        assert !SameNameAndDay(db.personDurations[i], CleanedName(name), today);
      }
    }
  }

  /** After a create there is exactly one aggregate for the cleaned name today, if there was at most one before. */
  lemma CreateLeavesExactlyOne(db: Db, name: string, today: Date)
    requires CountNameAndDay(db.personDurations, CleanedName(name), today) <= 1
    ensures CountNameAndDay(CreatePersonDuration(db, name, today).db.personDurations, CleanedName(name), today) == 1
  {
    var cleaned := CleanedName(name);
    CountZeroIffAbsent(db.personDurations, cleaned, today);
    var s' := CreatePersonDuration(db, name, today).db.personDurations;
    if s' != db.personDurations {
      assert s'[..|s'| - 1] == db.personDurations;
    }
  }

  /**
   * Creating twice with the same name on the same day: the second call
   * answers "already exists", changes nothing, and exactly one aggregate
   * for that (cleaned name, day) pair remains.
   */
  lemma CreateTwice(db: Db, name: string, today: Date)
    requires CountNameAndDay(db.personDurations, CleanedName(name), today) <= 1
    ensures var first := CreatePersonDuration(db, name, today);
            var second := CreatePersonDuration(first.db, name, today);
            second == Step(first.db, AlreadyExists(AlreadyExistsMessage)) &&
            CountNameAndDay(second.db.personDurations, CleanedName(name), today) == 1
  {
    var first := CreatePersonDuration(db, name, today);
    CreateLeavesExactlyOne(db, name, today);
    CountZeroIffAbsent(first.db.personDurations, CleanedName(name), today);
  }

  /** An aggregate with the sessions that belong to it, as the listing returns them. */
  datatype PersonDurationWithDetails = PersonDurationWithDetails(
    entry: PersonDuration,
    details: seq<DetailPersonDuration>)

  ghost predicate NewestFirst(s: seq<PersonDuration>)
  {
    forall i, j :: 0 <= i < j < |s| ==> s[i].createdAt >= s[j].createdAt
  }

  /** Insertion into a list kept newest day first: before the first aggregate that is not newer. */
  function InsertNewestFirst(x: PersonDuration, s: seq<PersonDuration>): (r: seq<PersonDuration>)
    ensures multiset(r) == multiset(s) + multiset{x}
    ensures |r| == |s| + 1 && (r[0] == x || (s != [] && r[0] == s[0]))
  {
    if s == [] || x.createdAt >= s[0].createdAt then [x] + s
    else
      assert s == [s[0]] + s[1..];
      [s[0]] + InsertNewestFirst(x, s[1..])
  }

  lemma {:induction false} InsertKeepsNewestFirst(x: PersonDuration, s: seq<PersonDuration>)
    requires NewestFirst(s)
    ensures NewestFirst(InsertNewestFirst(x, s))
  {
    if s != [] && x.createdAt < s[0].createdAt {
      var rest := InsertNewestFirst(x, s[1..]);
      InsertKeepsNewestFirst(x, s[1..]);
      assert s[1..] != [] ==> s[1..][0].createdAt <= s[0].createdAt;
      assert rest[0].createdAt <= s[0].createdAt;
      forall j | 0 <= j < |rest| ensures rest[j].createdAt <= s[0].createdAt {
        if j > 0 { assert rest[0].createdAt >= rest[j].createdAt; }
      }
      assert InsertNewestFirst(x, s) == [s[0]] + rest;
    }
  }

  /** `order_by(created_at.desc())`: the same aggregates, newest day first. */
  function SortNewestFirst(s: seq<PersonDuration>): (r: seq<PersonDuration>)
    ensures NewestFirst(r)
    ensures multiset(r) == multiset(s)
  {
    if s == [] then []
    else
      assert s == [s[0]] + s[1..];
      var sorted := SortNewestFirst(s[1..]);
      InsertKeepsNewestFirst(s[0], sorted);
      InsertNewestFirst(s[0], sorted)
  }

  /** The sessions that belong to aggregate `id`, in the order they were stored. */
  function DetailsOf(details: seq<DetailPersonDuration>, id: nat): (r: seq<DetailPersonDuration>)
    ensures forall d :: d in r <==> d in details && d.personDurationId == id
  {
    if details == [] then []
    else (if details[0].personDurationId == id then [details[0]] else []) + DetailsOf(details[1..], id)
  }

  function AttachDetails(entries: seq<PersonDuration>, details: seq<DetailPersonDuration>): (r: seq<PersonDurationWithDetails>)
    ensures |r| == |entries|
    ensures forall i :: 0 <= i < |r| ==> r[i].entry == entries[i] && r[i].details == DetailsOf(details, entries[i].id)
  {
    if entries == [] then []
    else [PersonDurationWithDetails(entries[0], DetailsOf(details, entries[0].id))] + AttachDetails(entries[1..], details)
  }

  /** The aggregates a listing shows, in the order it shows them. */
  function Entries(listing: seq<PersonDurationWithDetails>): (r: seq<PersonDuration>)
    ensures |r| == |listing| && forall i :: 0 <= i < |r| ==> r[i] == listing[i].entry
  {
    if listing == [] then [] else [listing[0].entry] + Entries(listing[1..])
  }

  /**
   * `get_all_person_durations_with_details`: every aggregate exactly once,
   * newest day first, each with exactly the sessions that belong to it.
   */
  function GetAllPersonDurationsWithDetails(db: Db): (r: seq<PersonDurationWithDetails>)
    ensures NewestFirst(Entries(r))
    ensures multiset(Entries(r)) == multiset(db.personDurations)
    ensures forall i :: 0 <= i < |r| ==>
      forall d :: d in r[i].details <==> d in db.details && d.personDurationId == r[i].entry.id
  {
    var sorted := SortNewestFirst(db.personDurations);
    var r := AttachDetails(sorted, db.details);
    assert Entries(r) == sorted;
    r
  }
}
