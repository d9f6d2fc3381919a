# Hackerspace visit tracker: a verified model of the visit store

This project models the core of a chat bot that tracks who plans to visit a shared
space, who is there and who has left. The model covers three parts.

- **The visit store** (`visits.dfy`, module `Visits`). This is a table of `Visit` records
  keyed by (person, day). It offers a range query, an insert-or-update that reports whether
  the *status* changed, a delete, a bulk "check everybody out" and a 30-day retention sweep.
  The SQLite table becomes a `map<Key, Row>` field of the class `VisitStore`, and each
  method updates that map in place. Each method is proved equal to a pure function of the
  old table: `Upserted`, `Deleted`, `CheckedOutOn` or `Cleaned`. Each of those functions
  states its meaning in its own contract. Statuses are stored as the integer codes 0/1/2, as
  in the SQLite column, and are decoded when read. Every operation keeps the
  stored codes among those three when they start so. Because the table is a map, there is never more than
  one record per key.
- **Person identifiers** (`uids.dfy`, module `Uids`). A `Uid` is an unsigned 64-bit user id.
  The store keeps it in a signed 64-bit column. Both conversions are `as` casts that wrap, and
  they are proved to be inverse bijections.
- **The coordinator** (`backend.dfy`, module `Backend`). The class `Coordinator` owns the store
  and a log of the announcements the chat platform accepted. `check_in`, `check_out`,
  `plan_visit`, `unplan_visit` and `check_out_everybody` write through the store. Each one
  announces only when the store reports a change, and stops at the first error.
- **Chat front-end helpers** (`bot.dfy`, module `Bot`, and `sorting.dfy`, module `Sorting`).
  These cover `strip_command`, `parse_day_purpose` and `parse_visit`, along with Rust's `trim`
  and `split_once` as they are used there. They also cover the ordering steps of the visit
  listing. Visits are stably sorted by day and cut into single-day groups. Within a day,
  residents' entries come first, each part keeping its order. Rust's `sort_by_key` is modelled
  as a stable insertion sort, and its stability is proved.

The environment is passed in as parameters or flags:
- "today" (the day number of the local date after the 5 a.m. rollover) is a parameter;
- chrono's `%Y-%m-%d` prefix parser is a function parameter `parseDate`;
- whether the database connection can serve queries is the store's `online` flag;
- whether the chat platform accepts an announcement is the coordinator's `botOnline` flag.

Days are `num_days_from_ce` day numbers, so ranges, "tomorrow" and the retention cutoff are
integer arithmetic.

Behaviour a reader might not expect:
- `check_out` never announces anything, even when the store reports a change
  (src/backend.rs:91-102).
- The retention rule removes days `< today - 30`, so a record exactly 30 days old is kept.
- `plan_visit` runs `maybe_panic` only after the write and the possible announcement.

## Model

| member | source | states |
|---|---|---|
| `Uids.UidFromI64` | src/backend.rs:25-29 | the result has the same 64 bits as the input: congruent modulo 2^64, equal for non-negative inputs, at least 2^63 for negative ones |
| `Uids.UidToI64` | src/backend.rs:31-35 | the result has the same 64 bits as the id: congruent modulo 2^64, equal below 2^63, negative from 2^63 up |
| `Uids.I64RoundTrip` | src/backend.rs:25-35 | every signed person number converted to a `Uid` and back is unchanged |
| `Uids.UidRoundTrip` | src/backend.rs:25-35 | every `Uid` converted to the stored number and back is unchanged |
| `Uids.UidToI64Injective` | src/backend.rs:31-35 | distinct users are stored under distinct numbers |
| `Visits.StatusToCode` | src/visits.rs:177-185 | every status encodes to a code in 0..2 that decodes back to the same status |
| `Visits.StatusFromCode` | src/visits.rs:187-195 | i32 code 1 is exactly CheckedIn, code 2 is exactly CheckedOut, and every other i32 decodes to Planned |
| `Visits.CodeRoundTrip` | src/visits.rs:177-195 | a code survives decode-then-encode exactly when it is 0, 1 or 2 |
| `Visits.TruncateToI32` | src/visits.rs:84 | the `as i32` cast of the 64-bit status column: an i32 congruent to the column modulo 2^32, equal to it when it already fits |
| `Visits.StatusOfColumn` | src/visits.rs:84 | a stored column reads as CheckedIn exactly when its low 32 bits are 1, as CheckedOut exactly when they are 2, and as Planned otherwise |
| `Visits.ColumnHighBitsIgnored` | src/visits.rs:105 | columns that agree modulo 2^32 read as the same status; 0x1_0000_0001 reads as CheckedIn |
| `Visits.ToVisit` | src/visits.rs:78-86 | a decoded row carries the row's purpose and the status its column reads as, and its (person, day) maps back to the row's key |
| `Visits.ListedDaysAreDates` | src/visits.rs:70-79 | when the bounds are dates, every listed record's day is a date chrono represents, so the decode's `unwrap` cannot fail |
| `Visits.Upserted` | src/visits.rs:91-136 | adds the update's key and changes no other record; the record gets the update's status; its purpose is the given purpose, otherwise the stored one, otherwise ""; changed holds exactly when the key was absent or its status differed; valid codes stay valid |
| `Visits.Deleted` | src/visits.rs:151-163 | removes exactly the given key and leaves every other record as it was |
| `Visits.CheckedOutOn` | src/visits.rs:138-149 | keeps every key; records on the day become CheckedOut with their purpose kept; records on other days are untouched |
| `Visits.Cleaned` | src/visits.rs:165-174 | keeps exactly the records whose day is at least today - 30, unchanged |
| `Visits.UpsertTwiceReportsNoChange` | src/visits.rs:102-119 | applying the same update a second time reports no change and leaves the table as the first call left it |
| `Visits.PurposeOnlyEditIsSilent` | src/visits.rs:104-119 | on an existing record with the same status, a given purpose is stored while the call reports no change |
| `Visits.DeleteUndoesInsert` | src/visits.rs:120-132 | deleting a freshly inserted key gives back the table as it was before the insert |
| `Visits.DeleteIsIdempotent` | src/visits.rs:151-163 | after a delete the key is absent, and a second delete changes nothing |
| `Visits.DeletedNotListed` | src/visits.rs:151-163 | no range listing taken after a delete shows the deleted record |
| `Visits.EmptyRangeListsNothing` | src/visits.rs:70-89 | a range holding no record is listed as the empty sequence, not as an error |
| `Visits.RangeSplits` | src/visits.rs:73-77 | the inclusive range [from, to] is the union of [from, mid] and [mid + 1, to], and [d, d] is exactly day d |
| `Visits.CheckOutEverybodyIsIdempotent` | src/visits.rs:138-149 | closing the space twice on one day is the same as closing it once |
| `Visits.CleanupBoundary` | src/visits.rs:165-174 | with the current day D, a record on day D - 30 is kept and one on D - 31 is removed |
| `Visits.CleanupIsIdempotent` | src/visits.rs:165-174 | a second sweep on the same day removes nothing more |
| `Visits.PlanThenCheckInScenario` | src/visits.rs:91-136 | planning "robotics" on an absent key reports a change and lists one Planned record; checking in without a purpose reports a change and keeps "robotics" |
| `Visits.VisitStore.constructor` | src/visits.rs:41-43 | a new store holds exactly the rows the database already has |
| `Visits.VisitStore.GetVisits` | src/visits.rs:70-89 | fails when offline; otherwise lists every record with from <= day <= to, each exactly once, decoded, and nothing else; when every stored code is 0..2, each listed status re-encodes to exactly the stored code |
| `Visits.VisitStore.UpsertVisit` | src/visits.rs:91-136 | fails with the table unchanged when offline; otherwise the new table and the result are those of `Upserted`; keeps stored codes within 0..2 |
| `Visits.VisitStore.CheckOutEverybody` | src/visits.rs:138-149 | fails with the table unchanged when offline; otherwise the new table is `CheckedOutOn` of the old one |
| `Visits.VisitStore.DeleteVisit` | src/visits.rs:151-163 | fails with the table unchanged when offline; otherwise reports whether the key was present and removes exactly that key |
| `Visits.VisitStore.Cleanup` | src/visits.rs:165-174 | fails with the table unchanged when offline; otherwise the new table is `Cleaned` of the old one for the given day |
| `Backend.MaybePanic` | src/backend.rs:61-67 | "panic" gives the panic failure, "error" gives the injected error, and every other text succeeds |
| `Backend.Coordinator.constructor` | src/backend.rs:157-162 | a coordinator starts with the given store and an empty announcement log |
| `Backend.Coordinator.Announce` | src/backend.rs:84-86 | an accepted announcement is appended to the log; a refused one fails and logs nothing |
| `Backend.Coordinator.CheckIn` | src/backend.rs:74-89 | a store failure aborts with no write and no announcement; otherwise today's record is upserted as CheckedIn with the given purpose, and a check-in is announced exactly when the upsert reported a change |
| `Backend.Coordinator.CheckOut` | src/backend.rs:91-102 | today's record is upserted as CheckedOut with no purpose, so an existing purpose is kept; nothing is ever announced |
| `Backend.Coordinator.PlanVisit` | src/backend.rs:104-121 | upserts a Planned record and announces the plan exactly when the upsert reported a change; the "error"/"panic" purpose fails only after that write and announcement, which stay in place |
| `Backend.Coordinator.UnplanVisit` | src/backend.rs:123-131 | deletes the key and announces the unplan exactly when a record was removed; a store failure aborts before any announcement |
| `Backend.Coordinator.CheckOutEverybody` | src/backend.rs:133-136 | applies the bulk check-out to exactly the supplied day |
| `Backend.Coordinator.GetVisits` | src/backend.rs:138-140 | the store's range query, with the same guarantee |
| `Sorting.SortByKey` | src/bot.rs:282 | the result is ordered by key and is a permutation of the input |
| `Sorting.SortByKeyIsStable` | src/bot.rs:277 | for every key, the elements carrying it keep their input order |
| `Bot.IsWhitespace` | src/bot.rs:74 | the characters `trim` removes: among ASCII exactly space and U+0009..U+000D, and none above U+3000 |
| `Bot.TrimStart` | src/bot.rs:74 | the result is a suffix, everything dropped is whitespace, and the result does not start with whitespace |
| `Bot.TrimEnd` | src/bot.rs:74 | the result is a prefix, everything dropped is whitespace, and the result does not end with whitespace |
| `Bot.Trim` | src/bot.rs:78 | the result is a contiguous slice with no whitespace at either end, and only whitespace lies outside it |
| `Bot.TrimFixesTrimmed` | src/bot.rs:81 | an already trimmed text is unchanged by trimming, and trimming is idempotent |
| `Bot.FindSpace` | src/bot.rs:66 | finds the first space, or reports that there is none |
| `Bot.StripCommand` | src/bot.rs:64-70 | text not starting with '/' is unchanged; otherwise the result is everything after the first space, or "" when there is none |
| `Bot.StripCommandLine` | src/bot.rs:64-70 | "/cmd arg" with a space-free cmd is stripped to exactly arg |
| `Bot.Succ` | src/bot.rs:74 | the next day exists exactly below chrono's last date, and it is day + 1 |
| `Bot.ParseDayPurpose` | src/bot.rs:72-82 | a leading "завтра" gives the next day (today at the end of the calendar) and the trimmed rest; a parsed date prefix gives that date and the trimmed remainder; otherwise today and the whole text trimmed; the purpose is always trimmed |
| `Bot.ParseVisit` | src/bot.rs:84-92 | a Planned visit by the author, with exactly the day and purpose from `ParseDayPurpose` |
| `Bot.ChunkByDay` | src/bot.rs:283 | the groups concatenate to the input, each is non-empty and single-day, neighbouring groups differ in day, and on day-sorted input the days strictly increase |
| `Bot.FormatVisits` | src/bot.rs:281-300 | the "no plans" text is chosen exactly when there are no visits; otherwise the groups are single-day, in strictly increasing day order, and concatenate to the day-sorted input |
| `Bot.ResidentsFirst` | src/bot.rs:277-278 | residents' entries come first and then the others, each part in its input order, as a permutation of the input |

## Left out

- SQLite and sqlx mechanics are not modelled: the pool, transactions, migrations and `connect_db`. The table is an in-memory map, and a failing query is modelled as the whole operation failing with nothing written. The transactional atomicity of `upsert_visit` against concurrent callers is a storage-engine property and is not modelled; every operation here is sequential.
- `Visits::run` and `cleanup_loop` are not modelled. They are a tokio timer, a ctrl-c signal and a cancellation loop; only the `cleanup` step they run is modelled.
- `BackendImpl::new`/`run` are not modelled: configuration loading, the cyclic `Arc` wiring and the concurrent join of tasks.
- No live-status synchroniser (a loop that republishes an occupancy announcement) is modelled: none exists in the modelled source files.
- The Telegram side of src/bot.rs is not modelled: `run`, the `handle_*` methods, `is_resident`, `format_user`, `format_visit` and `handle_post_live`. These are network calls and HTML formatting. `FormatVisits` therefore returns the day groups, not the rendered message text.
- chrono internals are not modelled. Days are day numbers, `parse_and_remainder` is the parameter `parseDate`, and `succ_opt` is `Succ` with chrono's last date as its bound.
- src/utils.rs `today()` is not modelled: it reads the wall clock and the local time zone. "Today" is a parameter. Each call to `today()` inside `parse_day_purpose` could see a different day around the 5 a.m. rollover; that is not modelled either.
- Bot.Succ: assumes chrono 0.4.35 or later, whose `NaiveDate::MAX` is +262142-12-31 (day 95745399); older chrono ends a year later.
- Day widths are not modelled: a day is an unbounded integer, where the source has an i32 day number in an i64 column. Every day the source writes or queries is a date's day number, so the `current_day - 30` subtraction cannot overflow, and a listing only returns rows between two dates, whose `r.day as i32` is exact (`ListedDaysAreDates`). A row whose day is not a date, which the source never writes, is kept and swept like any other.
- The status column is modelled at its full 64-bit width and read through its low 32 bits, as `r.status as i32` does (`StatusOfColumn`). Every operation keeps the stored codes within 0..2 when they start so (`Valid`).
- A panic in `maybe_panic` unwinds to the command handler. Here it is modelled as an error result (`InjectedPanic`).
- `Sorting.SortByKey`: the in-place update of the vector by `sort_by_key` is modelled as a function returning the sorted sequence. Ordering and stability are what the callers depend on, and both are proved.
- The HTTP endpoint in src/rest_api.rs, src/config.rs, src/main.rs, src/lib.rs and old/main.py are not part of this model. They are configuration, process entry points and I/O.
