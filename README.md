# Indoor duration bookkeeping, modelled in Dafny

This project models the duration bookkeeping of the v2 indoor-duration API. Each person has one
*aggregate* per day (`PersonDuration`: id, name, optional `total_duration`, `created_at` date).
Each detection of that person is a *session* (`DetailPersonDuration`). A session is opened with a
track identifier and closed later. Closing folds the session's elapsed whole seconds into its
aggregate's `HH:MM:SS` total.

Modules:

- `Records`: the two records, the tables as a `Db` value, errors with their HTTP status, and
  `First`, which reads SQL `.first()` on a query without `ORDER BY` as the row with the lowest
  insertion index (see "Left out").
- `Ascii`: character classes.
- `NameNormalizer`: the two name policies.
  - Policy A is the comparison key of open: letters only, spaces removed, lower case.
  - The SQL side of the open query is `lower(replace(name, ' ', ''))`.
  - Policy B is the stored name of create: `re.sub(r'\d+', '', name)`.
- `DurationCodec`: seconds to hours/minutes/seconds and back. It also covers the
  `f"{h:02}:{m:02}:{s:02}"` text and how the `Time` column reads that text. `TotalSeconds` is a
  helper that reads an absent total as 0 seconds.
- `PersonDurationController` and `DetailPersonDurationController`: every controller operation that
  writes is a function from the tables before the call to the tables after it plus the response
  (`Step`). The listing only reads, so it is a function from the tables to the listed sequence.
  The properties are lemmas over these functions.
- `Store`: the class `DurationStore`. It holds the two tables as sequences that its methods update
  in place: append on create and open, field updates on close. Each writing method is proved to
  produce exactly the tables and the response of the matching step function, and to keep the class
  invariant. The listing method is proved to return exactly the listing function's result on the
  current tables. The invariant is: increasing identifiers, and at most one aggregate per (name, day).

Inputs that come from outside are parameters:

- The date and time in the Asia/Jakarta zone are `today` and `now`.
- The close end time is `end`.
- The stored image name is `image`. It is absent exactly when no image was sent.

Timestamps are whole seconds.

## Model

| member | source | states |
|---|---|---|
| Records.First | app/controllers/detail_person_duration_controller.py:76-78 | `.first()` over rows in insertion order: the result is the lowest index whose row satisfies the filter, and there is none exactly when no row does |
| Records.FirstAfterUpdate | app/controllers/detail_person_duration_controller.py:76-78 | replacing one row by a row the filter judges the same way leaves the first match unchanged |
| Records.FirstAfterAppend | app/controllers/detail_person_duration_controller.py:69-70 | appending a row never changes an existing first match; it can only become the first match when there was none |
| NameNormalizer.KeepLetters | app/controllers/detail_person_duration_controller.py:35 | shape only: the result holds only letters and is never longer than the name. Which letters it keeps is stated by `KeepLettersAppend` and `KeepLettersSingleton` |
| NameNormalizer.KeepLettersAppend | app/controllers/detail_person_duration_controller.py:35 | `filter(str.isalpha, …)` of a concatenation is the filter of each part, in order |
| NameNormalizer.KeepLettersSingleton | app/controllers/detail_person_duration_controller.py:35 | a letter stays as it is and any other character goes |
| NameNormalizer.RemoveSpaces | app/controllers/detail_person_duration_controller.py:36 | shape only: the result has no space, and each of its characters comes from the input. Which characters it keeps is stated by `RemoveSpacesAppend` and `RemoveSpacesSingleton` |
| NameNormalizer.RemoveSpacesAppend | app/controllers/detail_person_duration_controller.py:36 | `replace(" ", "")` of a concatenation is the replacement in each part, in order |
| NameNormalizer.RemoveSpacesSingleton | app/controllers/detail_person_duration_controller.py:36 | a space goes and any other character stays as it is |
| NameNormalizer.Lower | app/controllers/detail_person_duration_controller.py:36 | the result has the same length, with each character lowered in place |
| NameNormalizer.ComparisonKey | app/controllers/detail_person_duration_controller.py:35-36 | shape only: the policy-A key holds only lower-case letters, so no space and no digit, and is no longer than the name. Its contents are stated by `ComparisonKeyAppend` and `ComparisonKeySingleton` |
| NameNormalizer.ComparisonKeyAppend | app/controllers/detail_person_duration_controller.py:35-36 | the policy-A key of a concatenation is the keys of its parts, in order |
| NameNormalizer.ComparisonKeySingleton | app/controllers/detail_person_duration_controller.py:35-36 | a letter contributes its lower-case form to the key and any other character contributes nothing; with `ComparisonKeyAppend` the key is the name's letters, lowered, in their order |
| NameNormalizer.ComparisonKeyIdempotent | app/controllers/detail_person_duration_controller.py:35-36 | applying policy A to a key gives back the same key |
| NameNormalizer.StoredNameKey | app/controllers/detail_person_duration_controller.py:40-41 | shape only: `lower(replace(name, ' ', ''))` holds no space and no upper-case letter. Its contents are stated by `StoredNameKeyAppend` and `StoredNameKeySingleton` |
| NameNormalizer.StoredNameKeyAppend | app/controllers/detail_person_duration_controller.py:40-41 | the stored-name key of a concatenation is the keys of its parts, in order |
| NameNormalizer.StoredNameKeySingleton | app/controllers/detail_person_duration_controller.py:40-41 | a space contributes nothing to the stored-name key and any other character its lower-case form; with `StoredNameKeyAppend` the key is the name's non-space characters, lowered, in their order |
| NameNormalizer.CleanedName | app/controllers/person_duration_controller.py:17 | `re.sub(r'\d+', '', name)` never lengthens the name. What it deletes and keeps is stated by `CleanedNameIsWithoutDigits`, `CleanedNameAppend` and `CleanedNameSingleton` |
| NameNormalizer.DropDigitRun | app/controllers/person_duration_controller.py:17 | one match of `\d+` removes the maximal leading run of digits: what it removes is all digits and what is left does not start with one |
| NameNormalizer.WithoutDigits | app/controllers/person_duration_controller.py:17 | reference definition, one character at a time: no digit remains, and every remaining character comes from the name |
| NameNormalizer.CleanedNameIsWithoutDigits | app/controllers/person_duration_controller.py:17 | deleting maximal digit runs gives the same name as deleting each digit separately |
| NameNormalizer.CleanedNameHasNoDigits | app/controllers/person_duration_controller.py:17 | a policy-B name contains no digit |
| NameNormalizer.CleanedNameAppend | app/controllers/person_duration_controller.py:17 | policy B cleans a concatenation part by part, in order |
| NameNormalizer.CleanedNameSingleton | app/controllers/person_duration_controller.py:17 | policy B deletes a digit and keeps any other character as it is, letters of either case, spaces and punctuation included |
| NameNormalizer.CleanedNameIdempotent | app/controllers/person_duration_controller.py:17 | cleaning a cleaned name changes nothing |
| NameNormalizer.ComparisonKeyOfCleanedName | app/controllers/detail_person_duration_controller.py:35-36 | the digits that policy B deletes never reach the policy-A key: both give the same key |
| NameNormalizer.CreatedNameMatchesIff | app/controllers/detail_person_duration_controller.py:35-43 | for an aggregate created from a raw name, its stored-name key equals the comparison key of an open with that same raw name exactly when the name holds only letters, spaces and digits. The open then finds the first matching aggregate of the day, which need not be this one |
| DurationCodec.EncodeSeconds | app/controllers/detail_person_duration_controller.py:98-100 | `// 3600`, `% 3600 // 60`, `% 60` give minutes and seconds below 60, and `h*3600 + m*60 + s` equals the total |
| DurationCodec.SplitHour | app/controllers/detail_person_duration_controller.py:98-100 | the minutes and seconds left after whole hours add back up to the remainder |
| DurationCodec.DecodeSeconds | app/controllers/detail_person_duration_controller.py:114 | for a well-formed total, `hours * 3600 + minutes * 60 + seconds` divided by 3600 gives back the hours, with `minutes * 60 + seconds` as the remainder |
| DurationCodec.EncodeDecode | app/controllers/detail_person_duration_controller.py:110-122 | decoding a stored total to seconds (line 114) and encoding it again (lines 118-120) gives back the same hours, minutes and seconds |
| DurationCodec.DecodeInjective | app/controllers/detail_person_duration_controller.py:114 | two well-formed totals stand for the same seconds exactly when they are equal |
| DurationCodec.Decimal | app/controllers/detail_person_duration_controller.py:102 | `str(n)` is a non-empty digit string with no leading zero, one character long exactly when `n < 10` |
| DurationCodec.Pad2 | app/controllers/detail_person_duration_controller.py:102 | `f"{n:02}"` is a digit string of at least two characters, and of exactly two when `n < 100` |
| DurationCodec.FormatHms | app/controllers/detail_person_duration_controller.py:102 | for a well-formed total under 100 hours the text is 8 characters with colons at positions 2 and 5 |
| DurationCodec.ParseDecimalOfDecimal | app/controllers/detail_person_duration_controller.py:124-126 | the column reads the numeral `str(n)` back as `n` |
| DurationCodec.ParseDecimalLeadingZero | app/controllers/detail_person_duration_controller.py:124-126 | a leading zero does not change the number the column reads |
| DurationCodec.ParseDecimalOfPad2 | app/controllers/detail_person_duration_controller.py:102 | reading a zero-padded numeral gives back the number |
| DurationCodec.ParseHms | app/controllers/detail_person_duration_controller.py:124-126 | text the `Time` column accepts reads as a total with minutes and seconds below 60 |
| DurationCodec.ParseFormat | app/controllers/detail_person_duration_controller.py:102-126 | writing a well-formed total as `HH:MM:SS` text and reading it back via the column gives the same total |
| PersonDurationController.CreatePersonDuration | app/controllers/person_duration_controller.py:12-43 | the response is "already exists" exactly when an aggregate has the cleaned name and today's date. In that case the message is `Data sudah ada untuk hari ini` and nothing changes. Otherwise exactly one aggregate is appended and returned: next id, cleaned name, total `00:00:00`, created today |
| PersonDurationController.FirstByNameAndDay | app/controllers/person_duration_controller.py:21-24 | the existence query finds an aggregate with exactly that name and date, and finds none exactly when none exists |
| PersonDurationController.CountZeroIffAbsent | app/controllers/person_duration_controller.py:21-26 | no aggregate counts for a (name, day) pair exactly when the query can find none |
| PersonDurationController.CreatePreservesWellFormed | app/controllers/person_duration_controller.py:29-36 | create keeps identifiers increasing and below the counter, and keeps every session's owner present |
| PersonDurationController.AppendAggregateKeepsInvariants | app/controllers/person_duration_controller.py:34-35 | adding an aggregate with the next identifier keeps identifiers increasing and every owner present |
| PersonDurationController.CreatePreservesOnePerNameAndDay | app/controllers/person_duration_controller.py:21-36 | because it looks up before it inserts, create never makes a second aggregate for a (name, day) pair |
| PersonDurationController.OnePerImpliesCountAtMostOne | app/controllers/person_duration_controller.py:21-36 | in tables that hold at most one aggregate per (name, day), every (name, day) count is at most one, so `CreateLeavesExactlyOne` and `CreateTwice` apply to every valid store |
| PersonDurationController.CreateLeavesExactlyOne | app/controllers/person_duration_controller.py:21-36 | after a create, exactly one aggregate exists for the cleaned name today |
| PersonDurationController.CreateTwice | app/controllers/person_duration_controller.py:21-36 | a second create with the same name on the same day answers "already exists", changes nothing, and leaves exactly one aggregate for the pair |
| PersonDurationController.InsertNewestFirst | app/controllers/person_duration_controller.py:70 | insertion adds exactly that one aggregate, and the head of the result is the new aggregate or the old head |
| PersonDurationController.InsertKeepsNewestFirst | app/controllers/person_duration_controller.py:70 | inserting into a newest-first list keeps it newest-first |
| PersonDurationController.SortNewestFirst | app/controllers/person_duration_controller.py:68-72 | `order_by(created_at.desc())` gives a permutation of the aggregates with dates non-increasing |
| PersonDurationController.DetailsOf | app/models/person_duration.py:18 | an aggregate's `details` are exactly the sessions whose `person_duration_id` is its id |
| PersonDurationController.AttachDetails | app/models/person_duration.py:18 | each listed aggregate carries its own sessions, in the list's order |
| PersonDurationController.GetAllPersonDurationsWithDetails | app/controllers/person_duration_controller.py:67-73 | the listing holds every aggregate exactly once (a permutation of the table), newest day first, each with exactly its own sessions |
| DetailPersonDurationController.FirstMatchingOnDay | app/controllers/detail_person_duration_controller.py:40-43 | the open query finds the first of today's aggregates whose space-free lower-cased name equals the key, and finds none exactly when no aggregate matches |
| DetailPersonDurationController.FirstByTrack | app/controllers/detail_person_duration_controller.py:76-78 | the close query finds the first session with the track identifier, open or closed, and finds none exactly when no session has it |
| DetailPersonDurationController.FirstById | app/controllers/detail_person_duration_controller.py:104-106 | the owner query finds an aggregate with that id, and finds none exactly when none has it |
| DetailPersonDurationController.CreateDetailPersonDuration | app/controllers/detail_person_duration_controller.py:26-73 | open fails with 404 `Matching person_duration entry not found`, changing nothing, exactly when no aggregate of today matches the key. Otherwise it appends exactly one session with the next id, the raw name, nim, track, image name and start `now`, and no end time. Aggregates are unchanged |
| DetailPersonDurationController.OpenOwnerIsFirstMatch | app/controllers/detail_person_duration_controller.py:40-60 | the session an open adds belongs to the first of today's aggregates whose stored name matches the key |
| DetailPersonDurationController.Accumulate | app/controllers/detail_person_duration_controller.py:109-126 | the new total is present and well-formed, and in seconds it is the old total (none counts as 0) plus the elapsed seconds |
| DetailPersonDurationController.UpdateEndTimeByTrackNameId | app/controllers/detail_person_duration_controller.py:75-138 | errors change nothing. 404 `Person duration entry not found` occurs exactly when no session has the track. An error has status 400 exactly when the first session with the track is already closed, and 404 otherwise. On success only an open session with that track gains end time `end`, aggregates change only in their totals, and the counters and table sizes stay the same |
| DetailPersonDurationController.BranchesAgreeIffZero | app/controllers/detail_person_duration_controller.py:109-126 | the add-to-existing branch and the store-elapsed branch give the same total exactly when the old total is zero seconds |
| DetailPersonDurationController.AccumulateCommutes | app/controllers/detail_person_duration_controller.py:114-124 | folding two elapsed times into a total in either order gives the same total |
| DetailPersonDurationController.CloseAlreadyClosed | app/controllers/detail_person_duration_controller.py:85-88 | closing when the first session with the track is already closed fails with 400 `End time already set, cannot update`, and every session and total stays as it was |
| DetailPersonDurationController.CloseOwnerMissing | app/controllers/detail_person_duration_controller.py:104-133 | closing an open session whose owner is gone fails with 404 `PersonDuration entry not found`, and nothing is committed, including the end time set at line 92 |
| DetailPersonDurationController.CloseAccumulates | app/controllers/detail_person_duration_controller.py:92-126 | a successful close sets the end time of exactly the first session with the track, changes no other aggregate, and adds exactly `end - start` seconds to the owner's total |
| DetailPersonDurationController.CloseKeepsClosedSessions | app/controllers/detail_person_duration_controller.py:85-92 | a close never alters a session that is already closed |
| DetailPersonDurationController.CloseTwice | app/controllers/detail_person_duration_controller.py:85-88 | after a successful close, a second close of the same track, with any end time, fails with 400 and changes nothing, so a session is accumulated at most once |
| DetailPersonDurationController.ReusedTrackCannotClose | app/controllers/detail_person_duration_controller.py:76-88 | once the first session with a track is closed, a session opened later with the same track can never be closed, because under the lowest-index reading of `.first()` the close always finds the older session |
| DetailPersonDurationController.CloseOtherTrack | app/controllers/detail_person_duration_controller.py:76-106 | closing one track leaves another track's target session and every owner lookup unchanged |
| DetailPersonDurationController.CloseIsCloseAt | app/controllers/detail_person_duration_controller.py:92-126 | a close whose target session and owner are found is the update of exactly those two rows |
| DetailPersonDurationController.CloseAtChanges | app/controllers/detail_person_duration_controller.py:92-126 | the two-row update of a close sets the end time of session k alone, changes aggregate j in its total alone, adds exactly `end - start` seconds to that total, and keeps the counters and table sizes |
| DetailPersonDurationController.AddToTotalChanges | app/controllers/detail_person_duration_controller.py:109-126 | folding elapsed seconds into aggregate j changes only its total, to a well-formed one larger by exactly the elapsed seconds |
| DetailPersonDurationController.CloseAtCommutes | app/controllers/detail_person_duration_controller.py:92-126 | closing two different sessions in either order gives the same tables |
| DetailPersonDurationController.TotalsAfterTwoCommute | app/controllers/detail_person_duration_controller.py:114-124 | adding two elapsed times to totals, of the same aggregate or of two different ones, commutes |
| DetailPersonDurationController.CloseOutcomeStable | app/controllers/detail_person_duration_controller.py:76-106 | two tables that agree on the target session and on every owner lookup either both let a close succeed or both make it fail |
| DetailPersonDurationController.ClosesCommute | app/controllers/detail_person_duration_controller.py:75-138 | closes of two different track identifiers leave the same tables, totals included, in either order |
| DetailPersonDurationController.OpenPreservesInvariants | app/controllers/detail_person_duration_controller.py:59-71 | open keeps identifiers increasing, keeps every session owned, and leaves the aggregates unchanged |
| DetailPersonDurationController.AppendSessionKeepsInvariants | app/controllers/detail_person_duration_controller.py:59-70 | adding a session with the next identifier and an existing owner keeps identifiers increasing and every session owned |
| DetailPersonDurationController.ClosePreservesInvariants | app/controllers/detail_person_duration_controller.py:92-128 | close keeps identifiers increasing and every session owned |
| DetailPersonDurationController.CloseAtKeepsInvariants | app/controllers/detail_person_duration_controller.py:92-126 | setting an end time and a total changes no identifier and no owner reference |
| Records.HasOwnerKept | app/models/detail_person_duration.py:9 | a session's owner is still found after aggregates are appended or change in anything but their ids |
| Store.WriteSeconds | app/controllers/detail_person_duration_controller.py:98-102 | splitting whole seconds, writing `f"{h:02}:{m:02}:{s:02}"` and reading the text back through the `Time` column gives the encoded total |
| Store.StoredTotal | app/controllers/detail_person_duration_controller.py:109-126 | both branches, the decoded old total plus the elapsed seconds written as text at line 124 and the elapsed text stored at line 126, store exactly the total `Accumulate` describes |
| Store.TotalUpdateKeepsOnePerNameAndDay | app/controllers/detail_person_duration_controller.py:124-126 | writing an aggregate's total keeps every (name, day) pair unique |
| Store.DurationStore.CreatePersonDuration | app/controllers/person_duration_controller.py:12-43 | the in-place create leaves exactly the tables and gives exactly the response of the create step function, and keeps one aggregate per (name, day) |
| Store.DurationStore.CreateDetailPersonDuration | app/controllers/detail_person_duration_controller.py:26-73 | the in-place open (`db.add`) leaves exactly the tables and gives exactly the response of the open step function |
| Store.DurationStore.UpdateEndTimeByTrackNameId | app/controllers/detail_person_duration_controller.py:75-138 | the in-place close sets the end time (line 92), rolls it back when the owner is missing, and writes the text total (lines 124/126). It leaves exactly the tables and gives exactly the response of the close step function, and keeps the invariant |
| Store.DurationStore.GetAllPersonDurationsWithDetails | app/controllers/person_duration_controller.py:67-73 | the method returns exactly the listing function's result on the current tables: newest day first, a permutation of the aggregates, each aggregate with exactly its own sessions |

## Left out

- `save_image` and `get_image`: PIL conversion, uuid file names and the file system are outside the model. The stored image name is an opaque optional parameter.
- API keys, authorisation middleware, routes, schemas and configuration: web and ORM wiring only.
- The legacy v1 API in `main.py` and `models.py` is not part of this model. Its update has no close-once rule.
- The Asia/Jakarta clock: `today` and `now` are parameters. The `strftime` of the start time (line 57) is not modelled, because timestamps are whole seconds.
- Time zones of the close end time: `end` is modelled as a naive Asia/Jakarta wall-clock timestamp, like the stored `start_time`. A zone-aware `end_time` from the request makes `end_time - start_time_indonesia` (line 95) raise `TypeError`, and then nothing is committed. That error path is not modelled.
- Float `total_seconds()`: timestamps are whole seconds. The `int(...)` truncations at lines 98-100 and 116 therefore coincide with floor division.
- DetailPersonDurationController.UpdateEndTimeByTrackNameId: requires that the end time is not before the start of the session it acts on. The source does not reject negative durations, and for them `//` (line 98) and `int()` (line 116) round differently.
- Store.DurationStore.UpdateEndTimeByTrackNameId: carries the same requirement on the end time.
- The limit of the SQL `Time` column to less than 24 hours: totals are unbounded hours. A real database would reject or wrap a total of 24 hours or more.
- The checks `if matching_person_duration.end_time and start_time_indonesia` (line 94) always hold once the end time is set and the start is non-null, so that test has no branch in the model. Likewise, Python's `time(0, 0, 0)` is truthy, so only an absent total takes the else branch at line 126.
- `.first()` on a query without `ORDER BY` (`detail_person_duration_controller.py` lines 40-43, 76-78 and 104-106): SQL returns whichever matching row the scan meets first. In PostgreSQL an `UPDATE` such as the close at line 92 writes a new row version that can come after rows inserted later. The model reads every such `.first()` as the matching row with the lowest insertion index. `CloseTwice` and `ReusedTrackCannotClose` hold only under that reading. `OpenOwnerIsFirstMatch` and `CloseAccumulates` also name the lowest-index row.
- Transactions and concurrent requests: every operation runs alone and in sequence. The owner-missing failure is modelled as "nothing committed".
- Row identifiers are database sequences, modelled as counters that only increase.
- Only ASCII letters, ASCII case and ASCII digits are modelled for `str.isalpha`, `lower()` and `\d`. Unicode letters and digits are not.
- The order of rows that tie on `created_at` in the listing is not fixed by SQL. The model chooses one stable order and states only the newest-first order and the permutation. The order of an aggregate's `details` relationship is likewise unspecified. The model keeps insertion order and states only membership.
- That every session's owner exists (`OwnersExist`) is proved to be preserved by every operation, but it is not part of `DurationStore.Valid`. The owner-missing path at lines 130-133 therefore stays a reachable case of the model.
