/**
 * The visit store (src/visits.rs). The SQLite table `visit(person, day, purpose, status)`
 * with primary key (person, day) becomes a map from `Key` to `Row`; the class `VisitStore`
 * holds that map and updates it in place, as the source's queries update the table.
 * Days are day numbers (`num_days_from_ce`), so ranges and cutoffs are integer comparisons.
 */
module Visits {
  import opened Wrappers
  import opened Uids

  datatype VisitStatus = Planned | CheckedIn | CheckedOut

  /** The read model: one person's current record for one day. */
  datatype Visit = Visit(person: Uid, day: int, purpose: string, status: VisitStatus)

  /** The write model: `purpose == None` keeps the stored purpose, or means "" on insert. */
  datatype VisitUpdate = VisitUpdate(person: Uid, day: int, purpose: Option<string>, status: VisitStatus)

  /** Records older than this many days before the current day are swept away. */
  const VisitHistoryDays: int := 30

  /** The day numbers (`num_days_from_ce`) of chrono's first and last dates, -262143-01-01 and +262142-12-31. */
  const MinDay: int := -95746129
  const MaxDay: int := 95745399

  // ---------------------------------------------------------------------------
  // The integer codes of the `status` column

  const TwoTo32: int := 0x1_0000_0000

  type I32 = x: int | -0x8000_0000 <= x < 0x8000_0000

  /** `impl From<VisitStatus> for i32`. */
  function StatusToCode(status: VisitStatus): (code: int)
    ensures 0 <= code <= 2
    ensures StatusFromCode(code) == status
    ensures StatusOfColumn(code) == status
  {
    match status
    case Planned => 0
    case CheckedIn => 1
    case CheckedOut => 2
  }

  /** `impl From<i32> for VisitStatus`: an unknown code decodes to `Planned`. */
  function StatusFromCode(code: I32): (status: VisitStatus)
    ensures status == CheckedIn <==> code == 1
    ensures status == CheckedOut <==> code == 2
    ensures code != 1 && code != 2 ==> status == Planned
  {
    if code == 1 then CheckedIn
    else if code == 2 then CheckedOut
    else Planned
  }

  /** The three codes the store writes are exactly the ones that decode back to themselves. */
  lemma CodeRoundTrip(code: I32)
    ensures StatusToCode(StatusFromCode(code)) == code <==> 0 <= code <= 2
  {
  }

  /** `x as i32` on an `i64`: the low 32 bits, read as a signed number. */
  function TruncateToI32(x: I64): (r: I32)
    ensures (x - r) % TwoTo32 == 0
    ensures -0x8000_0000 <= x < 0x8000_0000 ==> r == x
  {
    var low := x % TwoTo32;
    if low < 0x8000_0000 then low else low - TwoTo32
  }

  /**
   * The status of a stored row, as `get_visits` and `upsert_visit` read it:
   * `VisitStatus::from(r.status as i32)` on the 64-bit column.
   */
  function StatusOfColumn(column: I64): (status: VisitStatus)
    ensures status == CheckedIn <==> column % TwoTo32 == 1
    ensures status == CheckedOut <==> column % TwoTo32 == 2
    ensures column % TwoTo32 != 1 && column % TwoTo32 != 2 ==> status == Planned
  {
    StatusFromCode(TruncateToI32(column))
  }

  /** Columns that agree in their low 32 bits read as the same status: 0x1_0000_0001 reads as CheckedIn. */
  lemma ColumnHighBitsIgnored(a: I64, b: I64)
    requires (a - b) % TwoTo32 == 0
    ensures StatusOfColumn(a) == StatusOfColumn(b)
    ensures StatusOfColumn(0x1_0000_0001) == CheckedIn
  {
    assert a % TwoTo32 == b % TwoTo32 by {
      var q := (a - b) / TwoTo32;
      assert a == b + q * TwoTo32;
    }
  }

  // ---------------------------------------------------------------------------
  // The table

  datatype Key = Key(person: I64, day: int)
  /** A row's non-key columns; `status` is the 64-bit integer SQLite hands back. */
  datatype Row = Row(purpose: string, status: I64)
  type Table = map<Key, Row>

  /** The primary key a person's record for a day is stored under. */
  function KeyOf(person: Uid, day: int): Key {
    Key(UidToI64(person), day)
  }

  function VisitKey(v: Visit): Key {
    KeyOf(v.person, v.day)
  }

  /** Decoding one row of the `SELECT` in `get_visits`. */
  function ToVisit(k: Key, row: Row): (v: Visit)
    ensures VisitKey(v) == k
    ensures v.purpose == row.purpose && v.status == StatusOfColumn(row.status)
  {
    I64RoundTrip(k.person);
    Visit(UidFromI64(k.person), k.day, row.purpose, StatusOfColumn(row.status))
  }

  /** Every status the store holds is one of the three codes it writes. */
  ghost predicate CodesValid(t: Table) {
    forall k :: k in t ==> 0 <= t[k].status <= 2
  }

  ghost function KeysBetween(t: Table, from: int, to: int): set<Key> {
    set k | k in t && from <= k.day <= to
  }

  /** `vs` is a listing of exactly the rows of `t` whose day lies in `[from, to]`, each once. */
  ghost predicate ListsRange(t: Table, from: int, to: int, vs: seq<Visit>) {
    && (forall i :: 0 <= i < |vs| ==>
          VisitKey(vs[i]) in KeysBetween(t, from, to) && vs[i] == ToVisit(VisitKey(vs[i]), t[VisitKey(vs[i])]))
    && (forall k :: k in KeysBetween(t, from, to) ==> ToVisit(k, t[k]) in vs)
    && (forall i, j :: 0 <= i < j < |vs| ==> VisitKey(vs[i]) != VisitKey(vs[j]))
  }

  // ---------------------------------------------------------------------------
  // What each statement does to the table

  /**
   * `upsert_visit`: the new table and the "status changed" flag. An absent key is
   * inserted and reported as changed; a present key is rewritten when the purpose is
   * given or the status differs, but reported as changed only when the status differs.
   */
  function Upserted(t: Table, u: VisitUpdate): (r: (Table, bool))
    ensures var k := KeyOf(u.person, u.day);
      && r.0.Keys == t.Keys + {k}
      && (forall k' :: k' in t && k' != k ==> r.0[k'] == t[k'])
      && StatusOfColumn(r.0[k].status) == u.status
      && r.0[k].purpose == (if u.purpose.Some? then u.purpose.value else if k in t then t[k].purpose else "")
      && r.1 == (k !in t || StatusOfColumn(t[k].status) != u.status)
      && (CodesValid(t) ==> CodesValid(r.0))
  {
    var k := KeyOf(u.person, u.day);
    if k in t then
      var row := t[k];
      var shouldUpdatePurpose := u.purpose.Some?;
      var shouldUpdateStatus := u.status != StatusOfColumn(row.status);
      if shouldUpdatePurpose || shouldUpdateStatus then
        (t[k := Row(u.purpose.GetOr(row.purpose), StatusToCode(u.status))], shouldUpdateStatus)
      else
        (t, shouldUpdateStatus)
    else
      (t[k := Row(u.purpose.GetOr(""), StatusToCode(u.status))], true)
  }

  /** `delete_visit`: the table without the record at `k`. */
  function Deleted(t: Table, k: Key): (r: Table)
    ensures r.Keys == t.Keys - {k}
    ensures forall k' :: k' in r ==> r[k'] == t[k']
  {
    t - {k}
  }

  /** `check_out_everybody`: every record on `day` becomes checked out, keeping its purpose. */
  function CheckedOutOn(t: Table, day: int): (r: Table)
    ensures r.Keys == t.Keys
    ensures forall k :: k in t && k.day == day ==>
      r[k].purpose == t[k].purpose && StatusOfColumn(r[k].status) == CheckedOut
    ensures forall k :: k in t && k.day != day ==> r[k] == t[k]
    ensures CodesValid(t) ==> CodesValid(r)
  {
    map k | k in t :: if k.day == day then Row(t[k].purpose, StatusToCode(CheckedOut)) else t[k]
  }

  /** `cleanup`: only records at most `VisitHistoryDays` days before `today` survive. */
  function Cleaned(t: Table, today: int): (r: Table)
    ensures forall k :: k in r <==> k in t && k.day >= today - VisitHistoryDays
    ensures forall k :: k in r ==> r[k] == t[k]
  {
    var cutoff := today - VisitHistoryDays;
    map k | k in t && !(k.day < cutoff) :: t[k]
  }

  // ---------------------------------------------------------------------------
  // Properties relating the operations

  /** Repeating an update reports no change and writes nothing new. */
  lemma UpsertTwiceReportsNoChange(t: Table, u: VisitUpdate)
    ensures Upserted(Upserted(t, u).0, u) == (Upserted(t, u).0, false)
  {
    var k := KeyOf(u.person, u.day);
    var t1 := Upserted(t, u).0;
    if u.purpose.Some? {
      // the first call wrote the row, so the second writes the very same row again
      assert t1[k] == Row(u.purpose.value, StatusToCode(u.status));
      assert t1[k := t1[k]] == t1;
    }
  }

  /** A purpose-only edit is stored but is not reported as a change. */
  lemma PurposeOnlyEditIsSilent(t: Table, u: VisitUpdate, p: string)
    requires KeyOf(u.person, u.day) in t
    requires StatusOfColumn(t[KeyOf(u.person, u.day)].status) == u.status
    requires u.purpose == Some(p)
    ensures !Upserted(t, u).1
    ensures Upserted(t, u).0[KeyOf(u.person, u.day)].purpose == p
  {
  }

  /** Deleting a freshly inserted record gives back the table as it was before the insert. */
  lemma DeleteUndoesInsert(t: Table, u: VisitUpdate)
    requires KeyOf(u.person, u.day) !in t
    ensures Deleted(Upserted(t, u).0, KeyOf(u.person, u.day)) == t
  {
    var k := KeyOf(u.person, u.day);
    var r := Deleted(Upserted(t, u).0, k);
    assert r.Keys == t.Keys;
  }

  /** A second delete of the same key removes nothing and changes nothing. */
  lemma DeleteIsIdempotent(t: Table, k: Key)
    ensures k !in Deleted(t, k)
    ensures Deleted(Deleted(t, k), k) == Deleted(t, k)
  {
  }

  /** After a delete, no listing of any range shows the deleted record. */
  lemma DeletedNotListed(t: Table, k: Key, from: int, to: int, vs: seq<Visit>)
    requires ListsRange(Deleted(t, k), from, to, vs)
    ensures forall v :: v in vs ==> VisitKey(v) != k
  {
  }

  /** A range holding no record is listed as the empty sequence. */
  lemma EmptyRangeListsNothing(t: Table, from: int, to: int, vs: seq<Visit>)
    requires ListsRange(t, from, to, vs)
    ensures (forall k :: k in t ==> !(from <= k.day <= to)) ==> vs == []
  {
    if vs != [] {
      assert VisitKey(vs[0]) in KeysBetween(t, from, to);
    }
  }

  /**
   * `get_visits` takes its bounds as dates, so every record it lists has a day chrono can
   * represent: the `r.day as i32` and `from_num_days_from_ce_opt(..).unwrap()` of its decode
   * cannot fail, whatever days other rows hold.
   */
  lemma ListedDaysAreDates(t: Table, from: int, to: int, vs: seq<Visit>)
    requires MinDay <= from && to <= MaxDay
    requires ListsRange(t, from, to, vs)
    ensures forall i :: 0 <= i < |vs| ==> MinDay <= vs[i].day <= MaxDay
  {
    forall i | 0 <= i < |vs|
      ensures MinDay <= vs[i].day <= MaxDay
    {
      assert VisitKey(vs[i]) in KeysBetween(t, from, to);
    }
  }

  /** The inclusive range `[from, to]` is the union of `[from, mid]` and `[mid + 1, to]`. */
  lemma RangeSplits(t: Table, from: int, mid: int, to: int)
    ensures KeysBetween(t, from, to) == KeysBetween(t, from, mid) + KeysBetween(t, mid + 1, to)
      <== from <= mid < to
    ensures KeysBetween(t, from, from) == set k | k in t && k.day == from
  {
  }

  /** Closing the space twice is the same as closing it once. */
  lemma CheckOutEverybodyIsIdempotent(t: Table, day: int)
    ensures CheckedOutOn(CheckedOutOn(t, day), day) == CheckedOutOn(t, day)
  {
  }

  /** The retention boundary: a record 30 days old is kept, one 31 days old is removed. */
  lemma CleanupBoundary(t: Table, today: int, person: I64)
    requires Key(person, today - 30) in t && Key(person, today - 31) in t
    ensures Key(person, today - 30) in Cleaned(t, today)
    ensures Key(person, today - 31) !in Cleaned(t, today)
  {
  }

  /** Sweeping twice on the same day removes nothing more. */
  lemma CleanupIsIdempotent(t: Table, today: int)
    ensures Cleaned(Cleaned(t, today), today) == Cleaned(t, today)
  {
  }

  /**
   * Plan a visit with purpose "robotics", then check in without a purpose: both calls
   * report a change, and the record ends checked in with the planned purpose.
   */
  lemma PlanThenCheckInScenario(t: Table, person: Uid, day: int)
    requires KeyOf(person, day) !in t
    ensures var (t1, planned) := Upserted(t, VisitUpdate(person, day, Some("robotics"), Planned));
      && planned
      && KeysBetween(t1, day, day) == KeysBetween(t, day, day) + {KeyOf(person, day)}
      && ToVisit(KeyOf(person, day), t1[KeyOf(person, day)]) == Visit(person, day, "robotics", Planned)
      && var (t2, checkedIn) := Upserted(t1, VisitUpdate(person, day, None, CheckedIn));
      && checkedIn
      && ToVisit(KeyOf(person, day), t2[KeyOf(person, day)]) == Visit(person, day, "robotics", CheckedIn)
  {
    UidRoundTrip(person);
  }

  // ---------------------------------------------------------------------------
  // The store

  class VisitStore {
    var table: Table
    /** Whether the connection pool can serve queries; every query fails when it cannot. */
    var online: bool

    /**
     * Every stored status code is one the store writes. The operations keep it, but do
     * not need it: any other code is decoded through its low 32 bits, as the source does.
     */
    ghost predicate Valid()
      reads this
    {
      CodesValid(table)
    }

    /** `Visits::new`: a store over the rows the database already holds. */
    constructor (rows: Table, online: bool)
      ensures table == rows && this.online == online
    {
      table := rows;
      this.online := online;
    }

    /** `get_visits`: every record with `from <= day <= to`, in no particular order. */
    method GetVisits(from: int, to: int) returns (r: Result<seq<Visit>>)
      ensures !online ==> r == Err(StorageUnavailable)
      ensures online ==> r.Ok? && ListsRange(table, from, to, r.value)
      ensures online && Valid() ==>
        forall i :: 0 <= i < |r.value| ==> StatusToCode(r.value[i].status) == table[VisitKey(r.value[i])].status
    {
      if !online {
        return Err(StorageUnavailable);
      }
      var vs: seq<Visit> := [];
      var rest := table.Keys;
      ghost var seen: set<Key> := {};
      while rest != {}
        invariant rest <= table.Keys && seen == table.Keys - rest
        invariant forall i :: 0 <= i < |vs| ==>
          VisitKey(vs[i]) in seen && from <= vs[i].day <= to &&
          vs[i] == ToVisit(VisitKey(vs[i]), table[VisitKey(vs[i])])
        invariant forall k :: k in seen && from <= k.day <= to ==> ToVisit(k, table[k]) in vs
        invariant forall i, j :: 0 <= i < j < |vs| ==> VisitKey(vs[i]) != VisitKey(vs[j])
        decreases rest
      {
        var k :| k in rest;
        if from <= k.day <= to {
          vs := vs + [ToVisit(k, table[k])];
        }
        rest := rest - {k};
        seen := seen + {k};
      }
      return Ok(vs);
    }

    /**
     * `upsert_visit`: inside one transaction, read the row at (person, day), then insert
     * it or conditionally rewrite it; the result says whether the status changed.
     */
    method UpsertVisit(u: VisitUpdate) returns (r: Result<bool>)
      modifies this`table
      ensures old(Valid()) ==> Valid()
      ensures !online ==> r == Err(StorageUnavailable) && table == old(table)
      ensures online ==> r == Ok(Upserted(old(table), u).1) && table == Upserted(old(table), u).0
    {
      if !online {
        return Err(StorageUnavailable);
      }
      var k := KeyOf(u.person, u.day);
      var changedStatus: bool;
      if k in table {
        var row := table[k];
        var shouldUpdatePurpose := u.purpose.Some?;
        var shouldUpdateStatus := u.status != StatusOfColumn(row.status);
        if shouldUpdatePurpose || shouldUpdateStatus {
          table := table[k := Row(u.purpose.GetOr(row.purpose), StatusToCode(u.status))];
        }
        changedStatus := shouldUpdateStatus;
      } else {
        table := table[k := Row(u.purpose.GetOr(""), StatusToCode(u.status))];
        changedStatus := true;
      }
      return Ok(changedStatus);
    }

    /** `check_out_everybody`: one `UPDATE ... WHERE day = ?`. */
    method CheckOutEverybody(day: int) returns (r: Result<()>)
      modifies this`table
      ensures old(Valid()) ==> Valid()
      ensures !online ==> r == Err(StorageUnavailable) && table == old(table)
      ensures online ==> r == Ok(()) && table == CheckedOutOn(old(table), day)
    {
      if !online {
        return Err(StorageUnavailable);
      }
      table := CheckedOutOn(table, day);
      return Ok(());
    }

    /** `delete_visit`: the result says whether a row was removed. */
    method DeleteVisit(person: Uid, day: int) returns (r: Result<bool>)
      modifies this`table
      ensures old(Valid()) ==> Valid()
      ensures !online ==> r == Err(StorageUnavailable) && table == old(table)
      ensures online ==> r == Ok(KeyOf(person, day) in old(table)) && table == Deleted(old(table), KeyOf(person, day))
    {
      if !online {
        return Err(StorageUnavailable);
      }
      var k := KeyOf(person, day);
      var removed := k in table;
      table := Deleted(table, k);
      return Ok(removed);
    }

    /** `cleanup`: one `DELETE ... WHERE day < cutoff`, the cutoff taken from the day of `now`. */
    method Cleanup(now: int) returns (r: Result<()>)
      modifies this`table
      ensures old(Valid()) ==> Valid()
      ensures !online ==> r == Err(StorageUnavailable) && table == old(table)
      ensures online ==> r == Ok(()) && table == Cleaned(old(table), now)
    {
      if !online {
        return Err(StorageUnavailable);
      }
      table := Cleaned(table, now);
      return Ok(());
    }
  }
}
