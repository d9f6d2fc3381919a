/**
 * The self-contained text helpers of the chat front end (src/bot.rs) and the ordering
 * steps of its visit listing. "Today" and chrono's `%Y-%m-%d` prefix parser are
 * parameters; days are day numbers.
 */
module Bot {
  import opened Wrappers
  import opened Uids
  import opened Visits
  import opened Sorting

  // ---------------------------------------------------------------------------
  // Whitespace and `str::trim`

  /** Rust's `char::is_whitespace`: the characters with the Unicode White_Space property. */
  predicate IsWhitespace(c: char)
    ensures c < '\U{80}' ==> (IsWhitespace(c) <==> c == ' ' || '\t' <= c <= '\r')
    ensures IsWhitespace(c) ==> c <= '\U{3000}'
  {
    || ('\t' <= c <= '\r')
    || c == ' '
    || c == '\U{85}'
    || c == '\U{A0}'
    || c == '\U{1680}'
    || ('\U{2000}' <= c <= '\U{200A}')
    || c == '\U{2028}'
    || c == '\U{2029}'
    || c == '\U{202F}'
    || c == '\U{205F}'
    || c == '\U{3000}'
  }

  predicate IsTrimmed(s: string) {
    s == [] || (!IsWhitespace(s[0]) && !IsWhitespace(s[|s| - 1]))
  }

  /** `str::trim_start`: the longest suffix not starting with whitespace. */
  function TrimStart(s: string): (r: string)
    ensures |r| <= |s| && r == s[|s| - |r|..]
    ensures forall i :: 0 <= i < |s| - |r| ==> IsWhitespace(s[i])
    ensures r == [] || !IsWhitespace(r[0])
  {
    if s != [] && IsWhitespace(s[0]) then TrimStart(s[1..]) else s
  }

  /** `str::trim_end`: the longest prefix not ending with whitespace. */
  function TrimEnd(s: string): (r: string)
    ensures |r| <= |s| && r == s[..|r|]
    ensures forall i :: |r| <= i < |s| ==> IsWhitespace(s[i])
    ensures r == [] || !IsWhitespace(r[|r| - 1])
  {
    if s != [] && IsWhitespace(s[|s| - 1]) then TrimEnd(s[..|s| - 1]) else s
  }

  /** `str::trim`: `s` without its leading and trailing whitespace, and nothing else removed. */
  function Trim(s: string): (r: string)
    ensures IsTrimmed(r)
    ensures var lead := |s| - |TrimStart(s)|;
      && lead + |r| <= |s|
      && r == s[lead..lead + |r|]
      && (forall i :: 0 <= i < lead ==> IsWhitespace(s[i]))
      && (forall i :: lead + |r| <= i < |s| ==> IsWhitespace(s[i]))
  {
    TrimEnd(TrimStart(s))
  }

  /** Trimming leaves an already trimmed text alone, so trimming twice is trimming once. */
  lemma TrimFixesTrimmed(s: string)
    ensures IsTrimmed(s) ==> Trim(s) == s
    ensures Trim(Trim(s)) == Trim(s)
  {
  }

  // ---------------------------------------------------------------------------
  // `strip_command`

  predicate StartsWith(s: string, prefix: string) {
    |prefix| <= |s| && s[..|prefix|] == prefix
  }

  /** The position of the first space, as `split_once(' ')` finds it. */
  function FindSpace(s: string): (r: Option<nat>)
    ensures r.None? ==> forall i :: 0 <= i < |s| ==> s[i] != ' '
    ensures r.Some? ==> r.value < |s| && s[r.value] == ' ' && forall i :: 0 <= i < r.value ==> s[i] != ' '
  {
    if s == [] then None
    else if s[0] == ' ' then Some(0)
    else match FindSpace(s[1..])
      case None => None
      case Some(i) => Some(i + 1)
  }

  /**
   * `strip_command`: a text starting with '/' loses everything up to and including its
   * first space (all of it when there is no space); any other text is kept as it is.
   */
  function StripCommand(text: string): (r: string)
    ensures !StartsWith(text, "/") ==> r == text
    ensures StartsWith(text, "/") && (forall i :: 0 <= i < |text| ==> text[i] != ' ') ==> r == ""
    ensures StartsWith(text, "/") ==>
      forall i :: 0 <= i < |text| && text[i] == ' ' && (forall j :: 0 <= j < i ==> text[j] != ' ') ==>
        r == text[i + 1..]
  {
    if StartsWith(text, "/") then
      match FindSpace(text)
      case Some(i) => text[i + 1..]
      case None => ""
    else text
  }

  /** A command line "/cmd arg" is stripped to exactly its argument. */
  lemma StripCommandLine(cmd: string, arg: string)
    requires forall i :: 0 <= i < |cmd| ==> cmd[i] != ' '
    ensures StripCommand("/" + cmd + " " + arg) == arg
  {
    var text := "/" + cmd + " " + arg;
    assert text[..1] == "/";
    assert text[|cmd| + 1] == ' ';
    assert forall j :: 0 <= j < |cmd| + 1 ==> text[j] != ' ' by {
      forall j | 0 <= j < |cmd| + 1 ensures text[j] != ' ' {
        if j > 0 {
          assert text[j] == cmd[j - 1];
        }
      }
    }
    assert text[|cmd| + 2..] == arg;
  }

  // ---------------------------------------------------------------------------
  // `parse_day_purpose` and `parse_visit`

  const TomorrowWord: string := "завтра"

  /** `NaiveDate::succ_opt`: the next day, if the calendar has one. */
  function Succ(day: int): (r: Option<int>)
    ensures r.Some? ==> r.value == day + 1
    ensures r.None? <==> day >= MaxDay
  {
    if day < MaxDay then Some(day + 1) else None
  }

  /** A date found at the start of a text, and the text after it. */
  datatype DatePrefix = DatePrefix(day: int, rest: string)

  /**
   * `parse_day_purpose`: a leading "завтра" means the next day, a leading date means
   * that date, anything else means today; the purpose is what follows, trimmed.
   * `parseDate` stands for `NaiveDate::parse_and_remainder(text, "%Y-%m-%d")`.
   */
  function ParseDayPurpose(text: string, today: int, parseDate: string -> Option<DatePrefix>): (r: (int, string))
    ensures IsTrimmed(r.1)
    ensures StartsWith(text, TomorrowWord) ==>
      r == (Succ(today).GetOr(today), Trim(text[|TomorrowWord|..]))
    ensures !StartsWith(text, TomorrowWord) && parseDate(text).None? ==> r == (today, Trim(text))
    ensures !StartsWith(text, TomorrowWord) && parseDate(text).Some? ==>
      r == (parseDate(text).value.day, Trim(parseDate(text).value.rest))
  {
    if StartsWith(text, TomorrowWord) then
      (Succ(today).GetOr(today), Trim(text[|TomorrowWord|..]))
    else match parseDate(text)
      case None => (today, Trim(text))
      case Some(DatePrefix(date, purpose)) => (date, Trim(purpose))
  }

  /** `parse_visit`: a planned visit of the message's author for the parsed day and purpose. */
  function ParseVisit(author: U64, msg: string, today: int, parseDate: string -> Option<DatePrefix>): (v: Visit)
    ensures v.person == Uid(author) && v.status == Planned
    ensures (v.day, v.purpose) == ParseDayPurpose(msg, today, parseDate)
    ensures IsTrimmed(v.purpose)
  {
    var (day, purpose) := ParseDayPurpose(msg, today, parseDate);
    Visit(Uid(author), day, purpose, Planned)
  }

  // ---------------------------------------------------------------------------
  // The listing of planned visits (`format_visits`, `format_day`)

  function DayOf(v: Visit): int {
    v.day
  }

  /** The concatenation of groups, in order. */
  function Flatten<T>(groups: seq<seq<T>>): seq<T> {
    if groups == [] then [] else Flatten(groups[..|groups| - 1]) + groups[|groups| - 1]
  }

  /** A non-empty run of visits that all fall on one day. */
  ghost predicate OneDay(g: seq<Visit>) {
    |g| > 0 && forall j :: 0 <= j < |g| ==> g[j].day == g[0].day
  }

  ghost predicate AllOneDay(groups: seq<seq<Visit>>) {
    forall i :: 0 <= i < |groups| ==> OneDay(groups[i])
  }

  /** Neighbouring groups lie on different days: no cut could be left out. */
  ghost predicate NeighboursDiffer(groups: seq<seq<Visit>>)
    requires AllOneDay(groups)
  {
    forall i :: 0 <= i < |groups| - 1 ==> groups[i][0].day != groups[i + 1][0].day
  }

  ghost predicate DaysAscend(groups: seq<seq<Visit>>)
    requires AllOneDay(groups)
  {
    forall i, j :: 0 <= i < j < |groups| ==> groups[i][0].day < groups[j][0].day
  }

  /**
   * `chunk_by(|v1, v2| v1.day == v2.day)`: cuts the sequence wherever two neighbours lie on
   * different days. On a sequence sorted by day the groups have strictly increasing days.
   */
  method ChunkByDay(vs: seq<Visit>) returns (groups: seq<seq<Visit>>)
    ensures Flatten(groups) == vs
    ensures AllOneDay(groups) && NeighboursDiffer(groups)
    ensures SortedBy(vs, DayOf) ==> DaysAscend(groups)
  {
    groups := [];
    var n := 0;
    while n < |vs|
      invariant 0 <= n <= |vs|
      invariant Flatten(groups) == vs[..n]
      invariant AllOneDay(groups) && NeighboursDiffer(groups)
      invariant n == 0 <==> groups == []
      invariant n > 0 ==> groups[|groups| - 1][0].day == vs[n - 1].day
      invariant SortedBy(vs, DayOf) ==> DaysAscend(groups)
    {
      var last := |groups| - 1;
      if n > 0 && vs[n].day == vs[n - 1].day {
        var extended := groups[last] + [vs[n]];
        ghost var before := groups;
        assert groups[..last] + [extended] == groups[last := extended];
        groups := groups[last := extended];
        assert groups[..last] == before[..last];
      } else {
        assert (groups + [[vs[n]]])[..|groups|] == groups;
        assert SortedBy(vs, DayOf) && n > 0 ==> DayOf(vs[n - 1]) <= DayOf(vs[n]);
        groups := groups + [[vs[n]]];
      }
      n := n + 1;
      assert vs[..n] == vs[..n - 1] + [vs[n - 1]];
    }
    assert vs[..n] == vs;
  }

  /** The listing: `NoPlans` stands for the fixed text "Нет никаких планов", otherwise one group per day. */
  datatype Listing = NoPlans | ByDay(days: seq<seq<Visit>>)

  /**
   * `format_visits`: sort by day (stably), then group equal days. Groups are non-empty,
   * single-day and in increasing day order, and read in order they are the sorted input.
   */
  method FormatVisits(vs: seq<Visit>) returns (r: Listing)
    ensures r == NoPlans <==> vs == []
    ensures r.ByDay? ==>
      && Flatten(r.days) == SortByKey(vs, DayOf)
      && AllOneDay(r.days)
      && DaysAscend(r.days)
  {
    var sorted := SortByKey(vs, DayOf);
    var groups := ChunkByDay(sorted);
    if groups == [] {
      assert multiset(vs) == multiset(sorted) == multiset{};
      r := NoPlans;
    } else {
      assert |groups[|groups| - 1]| > 0;
      assert |sorted| > 0;
      r := ByDay(groups);
    }
  }

  function ResidentRank<T>(entry: (bool, T)): int {
    if entry.0 then 0 else 1
  }

  /**
   * `format_day`'s `sort_by_key`: residents' entries first, then the others, each part
   * in its original order (the sort is stable).
   */
  function ResidentsFirst<T>(entries: seq<(bool, T)>): (r: seq<(bool, T)>)
    ensures r == WithKey(entries, ResidentRank, 0) + WithKey(entries, ResidentRank, 1)
    ensures multiset(r) == multiset(entries)
  {
    var sorted := SortByKey(entries, ResidentRank);
    SortedTwoKeysSplit(sorted, ResidentRank);
    SortByKeyIsStable(entries, ResidentRank, 0);
    SortByKeyIsStable(entries, ResidentRank, 1);
    sorted
  }
}
