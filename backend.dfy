/**
 * The coordinator (src/backend.rs): each action writes through the visit store and,
 * only when the store reports a change, announces it on the chat platform. The
 * announcements the platform accepted are an append-only log; "today" is a parameter.
 */
module Backend {
  import opened Wrappers
  import opened Uids
  import opened Visits

  datatype Announcement =
    | CheckInAnnounced(update: VisitUpdate)
    | PlanAnnounced(update: VisitUpdate)
    | UnplanAnnounced(person: Uid, day: int)

  /** `maybe_panic`: the purposes "panic" and "error" are failure injections for testing. */
  function MaybePanic(text: string): (r: Result<()>)
    ensures r.Ok? <==> text != "panic" && text != "error"
    ensures text == "panic" ==> r == Err(InjectedPanic)
    ensures text == "error" ==> r == Err(InjectedError)
  {
    match text
    case "panic" => Err(InjectedPanic)
    case "error" => Err(InjectedError)
    case _ => Ok(())
  }

  class Coordinator {
    const visits: VisitStore
    /** The announcements the chat platform has accepted, oldest first. */
    var announced: seq<Announcement>
    /** Whether the chat platform accepts announcements; when it does not, they fail. */
    var botOnline: bool

    constructor (visits: VisitStore, botOnline: bool)
      ensures this.visits == visits && announced == [] && this.botOnline == botOnline
    {
      this.visits := visits;
      announced := [];
      this.botOnline := botOnline;
    }

    /** One call to the chat platform's `announce_*`. */
    method Announce(a: Announcement) returns (r: Result<()>)
      modifies this`announced
      ensures botOnline ==> r == Ok(()) && announced == old(announced) + [a]
      ensures !botOnline ==> r == Err(AnnounceFailed) && announced == old(announced)
    {
      if !botOnline {
        return Err(AnnounceFailed);
      }
      announced := announced + [a];
      return Ok(());
    }

    /** `check_in`: today's record becomes checked in; a status change is announced. */
    method CheckIn(person: Uid, purpose: Option<string>, today: int) returns (r: Result<()>)
      modifies this`announced, visits`table
      ensures old(visits.Valid()) ==> visits.Valid()
      ensures var u := VisitUpdate(person, today, purpose, CheckedIn);
        var (t, changed) := Upserted(old(visits.table), u);
        if !visits.online then
          r == Err(StorageUnavailable) && visits.table == old(visits.table) && announced == old(announced)
        else if changed && botOnline then
          r == Ok(()) && visits.table == t && announced == old(announced) + [CheckInAnnounced(u)]
        else
          r == (if changed then Err(AnnounceFailed) else Ok(())) && visits.table == t && announced == old(announced)
    {
      var u := VisitUpdate(person, today, purpose, CheckedIn);
      var updated :- visits.UpsertVisit(u);
      if updated {
        var _ :- Announce(CheckInAnnounced(u));
      }
      return Ok(());
    }

    /** `check_out`: today's record becomes checked out, its purpose kept; never announced. */
    method CheckOut(person: Uid, today: int) returns (r: Result<()>)
      modifies visits`table
      ensures old(visits.Valid()) ==> visits.Valid()
      ensures !visits.online ==> r == Err(StorageUnavailable) && visits.table == old(visits.table)
      ensures visits.online ==>
        r == Ok(()) && visits.table == Upserted(old(visits.table), VisitUpdate(person, today, None, CheckedOut)).0
      ensures visits.online && KeyOf(person, today) in old(visits.table) ==>
        visits.table[KeyOf(person, today)].purpose == old(visits.table)[KeyOf(person, today)].purpose
    {
      var u := VisitUpdate(person, today, None, CheckedOut);
      var _ :- visits.UpsertVisit(u);
      return Ok(());
    }

    /**
     * `plan_visit`: the record for `day` becomes planned and a status change is announced;
     * only then is the purpose checked by `maybe_panic`, so an injected failure leaves the
     * write and the announcement in place.
     */
    method PlanVisit(person: Uid, day: int, purpose: Option<string>) returns (r: Result<()>)
      modifies this`announced, visits`table
      ensures old(visits.Valid()) ==> visits.Valid()
      ensures var u := VisitUpdate(person, day, purpose, Planned);
        var (t, changed) := Upserted(old(visits.table), u);
        if !visits.online then
          r == Err(StorageUnavailable) && visits.table == old(visits.table) && announced == old(announced)
        else if changed && !botOnline then
          r == Err(AnnounceFailed) && visits.table == t && announced == old(announced)
        else
          && visits.table == t
          && announced == old(announced) + (if changed then [PlanAnnounced(u)] else [])
          && r == MaybePanic(purpose.GetOr(""))
    {
      var u := VisitUpdate(person, day, purpose, Planned);
      var updated :- visits.UpsertVisit(u);
      if updated {
        var _ :- Announce(PlanAnnounced(u));
      }
      var _ :- MaybePanic(u.purpose.GetOr(""));
      return Ok(());
    }

    /** `unplan_visit`: the record is deleted; an actual removal is announced. */
    method UnplanVisit(person: Uid, day: int) returns (r: Result<()>)
      modifies this`announced, visits`table
      ensures old(visits.Valid()) ==> visits.Valid()
      ensures var k := KeyOf(person, day);
        if !visits.online then
          r == Err(StorageUnavailable) && visits.table == old(visits.table) && announced == old(announced)
        else if k in old(visits.table) && botOnline then
          r == Ok(()) && visits.table == Deleted(old(visits.table), k)
          && announced == old(announced) + [UnplanAnnounced(person, day)]
        else
          r == (if k in old(visits.table) then Err(AnnounceFailed) else Ok(()))
          && visits.table == Deleted(old(visits.table), k) && announced == old(announced)
    {
      var deleted :- visits.DeleteVisit(person, day);
      if deleted {
        var _ :- Announce(UnplanAnnounced(person, day));
      }
      return Ok(());
    }

    /** `check_out_everybody`: the bulk check-out, applied to exactly the given day. */
    method CheckOutEverybody(today: int) returns (r: Result<()>)
      modifies visits`table
      ensures old(visits.Valid()) ==> visits.Valid()
      ensures !visits.online ==> r == Err(StorageUnavailable) && visits.table == old(visits.table)
      ensures visits.online ==> r == Ok(()) && visits.table == CheckedOutOn(old(visits.table), today)
    {
      var _ :- visits.CheckOutEverybody(today);
      return Ok(());
    }

    /** `get_visits`: the store's range query. */
    method GetVisits(from: int, to: int) returns (r: Result<seq<Visit>>)
      ensures !visits.online ==> r == Err(StorageUnavailable)
      ensures visits.online ==> r.Ok? && ListsRange(visits.table, from, to, r.value)
    {
      r := visits.GetVisits(from, to);
    }
  }
}
