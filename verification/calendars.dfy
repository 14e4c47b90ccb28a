/** Calendar entries and the month view: how many bookings fall on each of the
    requested dates. */
module Calendars {
  import opened Wrappers
  import opened Http
  import opened Collection
  import opened Model
  import Scheduler

  const InvalidCalendarId := "Invalid calendar id"
  const CalendarNotFound := "Calendar not found"
  const CalendarIncomplete := "Calendar must include all required information"

  /** The number of bookings whose date is exactly `d`. */
  function CountOn(c: Coll<Booking>, d: string): nat {
    |Scheduler.DatedOn(c, d)|
  }

  /** One row of the `$group` stage's output: a date and how many bookings have it. */
  datatype Group = Group(key: string, count: nat)

  /** One row of the response: a requested date and its count. */
  datatype DateCount = DateCount(date: string, count: nat)

  /** What the aggregation returns for these bookings and requested dates, in any
      order: one row per requested date that has bookings, with its count, and no
      other rows. */
  predicate IsGrouping(g: seq<Group>, c: Coll<Booking>, dates: seq<string>) {
    && (forall i, j | 0 <= i < j < |g| :: g[i].key != g[j].key)
    && (forall i | 0 <= i < |g| :: g[i].key in dates && g[i].count == CountOn(c, g[i].key) > 0)
    && (forall d | d in dates && CountOn(c, d) > 0 :: exists i | 0 <= i < |g| :: g[i].key == d)
  }

  /** One such grouping: the requested dates with bookings, in order of first
      request. It shows the aggregation's output always exists. */
  function Aggregate(c: Coll<Booking>, dates: seq<string>): (g: seq<Group>)
    ensures IsGrouping(g, c, dates)
    decreases |dates|
  {
    if |dates| == 0 then []
    else
      var pre := dates[..|dates| - 1];
      var d := dates[|dates| - 1];
      assert dates == pre + [d];
      var g := Aggregate(c, pre);
      GroupingGrows(g, c, pre, d);
      if d in pre || CountOn(c, d) == 0 then g else g + [Group(d, CountOn(c, d))]
  }

  /** One more requested date: a grouping stays one when the date is repeated or
      has no bookings, and otherwise gains that date's row. */
  lemma GroupingGrows(g: seq<Group>, c: Coll<Booking>, pre: seq<string>, d: string)
    requires IsGrouping(g, c, pre)
    ensures d in pre || CountOn(c, d) == 0 ==> IsGrouping(g, c, pre + [d])
    ensures d !in pre && CountOn(c, d) > 0 ==> IsGrouping(g + [Group(d, CountOn(c, d))], c, pre + [d])
  {
    var dates := pre + [d];
    forall x | x in dates
      ensures x in pre || x == d
    {
    }
    if d !in pre && CountOn(c, d) > 0 {
      var g' := g + [Group(d, CountOn(c, d))];
      assert forall i | 0 <= i < |g| :: g'[i] == g[i];
      assert forall i | 0 <= i < |g| :: g[i].key != d;
      forall x | x in dates && CountOn(c, x) > 0
        ensures exists i | 0 <= i < |g'| :: g'[i].key == x
      {
        if x == d {
          assert g'[|g|].key == x;
        } else {
          var i :| 0 <= i < |g| && g[i].key == x;
          assert g'[i].key == x;
        }
      }
    }
  }

  /** `findIndex` over the dates: the first position holding `d`, or -1. */
  function FirstIndex(dates: seq<string>, d: string): (k: int)
    ensures k == -1 <==> d !in dates
    ensures k != -1 ==> 0 <= k < |dates| && dates[k] == d && forall i | 0 <= i < k :: dates[i] != d
    decreases |dates|
  {
    if |dates| == 0 then -1
    else if dates[0] == d then 0
    else
      var k := FirstIndex(dates[1..], d);
      assert dates == [dates[0]] + dates[1..];
      if k == -1 then -1 else k + 1
  }

  /** The count the `forEach` leaves for `d`: the last row for `d` overwrites the
      ones before it, and with no row the initial 0 stays. */
  function CountFor(g: seq<Group>, d: string): nat
    decreases |g|
  {
    if |g| == 0 then 0
    else if g[|g| - 1].key == d then g[|g| - 1].count
    else CountFor(g[..|g| - 1], d)
  }

  lemma {:induction false} CountForUnique(g: seq<Group>, d: string, k: int)
    requires 0 <= k < |g| && g[k].key == d
    requires forall j | 0 <= j < |g| && j != k :: g[j].key != d
    ensures CountFor(g, d) == g[k].count
    decreases |g|
  {
    if k != |g| - 1 {
      var pre := g[..|g| - 1];
      assert pre[k] == g[k];
      CountForUnique(pre, d, k);
    }
  }

  lemma {:induction false} CountForAbsent(g: seq<Group>, d: string)
    requires forall j | 0 <= j < |g| :: g[j].key != d
    ensures CountFor(g, d) == 0
    decreases |g|
  {
    if |g| > 0 {
      CountForAbsent(g[..|g| - 1], d);
    }
  }

  /** Whatever order the aggregation returns its rows in, every requested date
      ends up with its true count. */
  lemma GroupingCounts(g: seq<Group>, c: Coll<Booking>, dates: seq<string>)
    requires IsGrouping(g, c, dates)
    ensures forall d | d in dates :: CountFor(g, d) == CountOn(c, d)
  {
    forall d | d in dates
      ensures CountFor(g, d) == CountOn(c, d)
    {
      if CountOn(c, d) > 0 {
        var k :| 0 <= k < |g| && g[k].key == d;
        CountForUnique(g, d, k);
      } else {
        CountForAbsent(g, d);
      }
    }
  }

  /** `result.findIndex(r => r.date === d)`. */
  method IndexOfDate(rs: seq<DateCount>, d: string) returns (k: int)
    ensures k == -1 <==> forall i | 0 <= i < |rs| :: rs[i].date != d
    ensures k != -1 ==> 0 <= k < |rs| && rs[k].date == d && forall i | 0 <= i < k :: rs[i].date != d
  {
    k := 0;
    while k < |rs| && rs[k].date != d
      invariant 0 <= k <= |rs|
      invariant forall i | 0 <= i < k :: rs[i].date != d
    {
      k := k + 1;
    }
    if k == |rs| {
      k := -1;
    }
  }

  /** The result rows after merging the grouping rows `g`: one row per requested
      date, the first row for a date holding the count the rows leave for it, any
      later row for the same date holding 0. */
  predicate MergedUpTo(dates: seq<string>, result: seq<DateCount>, g: seq<Group>) {
    && |result| == |dates|
    && (forall i | 0 <= i < |dates| :: result[i].date == dates[i])
    && (forall i | 0 <= i < |dates| ::
          result[i].count == if FirstIndex(dates, dates[i]) == i then CountFor(g, dates[i]) else 0)
  }

  /** One pass of the `forEach`: writing a row's count at the first position of
      its date (or nowhere, when the date was not requested) merges that row. */
  lemma MergeStep(dates: seq<string>, result: seq<DateCount>, g: seq<Group>, row: Group, index: int)
    requires MergedUpTo(dates, result, g)
    requires index == FirstIndex(dates, row.key)
    ensures index == -1 ==> MergedUpTo(dates, result, g + [row])
    ensures index != -1 ==>
      MergedUpTo(dates, result[index := DateCount(dates[index], row.count)], g + [row])
  {
    var g' := g + [row];
    assert g'[..|g|] == g;
    if index != -1 {
      var r' := result[index := DateCount(dates[index], row.count)];
      forall i | 0 <= i < |dates|
        ensures r'[i].count == if FirstIndex(dates, dates[i]) == i then CountFor(g', dates[i]) else 0
      {
        if i != index && FirstIndex(dates, dates[i]) == i {
          assert dates[i] != row.key;
        }
      }
    }
  }

  /** The merge loop of `getMonthCalendars`: every requested date starts at 0, and
      each aggregation row writes its count into the first row with its date. A date
      requested twice keeps 0 in its later rows. */
  method MergeCounts(dates: seq<string>, g: seq<Group>) returns (result: seq<DateCount>)
    ensures |result| == |dates|
    ensures forall i | 0 <= i < |dates| :: result[i].date == dates[i]
    ensures forall i | 0 <= i < |dates| ::
      result[i].count == if FirstIndex(dates, dates[i]) == i then CountFor(g, dates[i]) else 0
  {
    result := Zeros(dates);
    var j := 0;
    while j < |g|
      invariant 0 <= j <= |g|
      invariant MergedUpTo(dates, result, g[..j])
    {
      assert g[..j + 1] == g[..j] + [g[j]];
      result := MergeRow(dates, result, g[..j], g[j]);
      j := j + 1;
    }
    assert g[..j] == g;
  }

  /** The body of the `forEach`: find the first result row with the grouping row's
      date and, if there is one, overwrite its count. */
  method MergeRow(dates: seq<string>, result: seq<DateCount>, pre: seq<Group>, row: Group)
    returns (next: seq<DateCount>)
    requires MergedUpTo(dates, result, pre)
    ensures MergedUpTo(dates, next, pre + [row])
  {
    var index := IndexOfDate(result, row.key);
    FoundIsFirst(dates, result, row.key, index);
    MergeStep(dates, result, pre, row, index);
    if index != -1 {
      next := result[index := DateCount(result[index].date, row.count)];
    } else {
      next := result;
    }
  }

  /** The rows the merge starts from: every requested date with count 0. */
  function Zeros(dates: seq<string>): (r: seq<DateCount>)
    ensures MergedUpTo(dates, r, [])
  {
    seq(|dates|, i requires 0 <= i < |dates| => DateCount(dates[i], 0))
  }

  /** Searching the result rows is searching the requested dates. */
  lemma FoundIsFirst(dates: seq<string>, rs: seq<DateCount>, d: string, k: int)
    requires |rs| == |dates| && forall i | 0 <= i < |dates| :: rs[i].date == dates[i]
    requires k == -1 <==> forall i | 0 <= i < |rs| :: rs[i].date != d
    requires k != -1 ==> 0 <= k < |rs| && rs[k].date == d && forall i | 0 <= i < k :: rs[i].date != d
    ensures k == FirstIndex(dates, d)
  {
    var f := FirstIndex(dates, d);
    if k != -1 && f != -1 {
      assert !(f < k) && !(k < f);
    }
  }

  /** `getMonthCalendars`: one row per requested date, in request order; the first
      row for a date counts the bookings on it, a repeated date counts 0. Without a
      `dateArr` in the body, mapping over it throws and the error handler answers
      500. Nothing is written. */
  method GetMonthCalendars(s: Store, dateArr: Option<seq<string>>, g: seq<Group>) returns (r: Result<seq<DateCount>>)
    requires dateArr.Some? ==> IsGrouping(g, s.bookings, dateArr.value)
    ensures dateArr.None? ==> r == Err(500, UnknownMessage)
    ensures dateArr.Some? ==> var dates := dateArr.value;
      && r.Ok? && r.status == 200
      && |r.value| == |dates|
      && (forall i | 0 <= i < |dates| :: r.value[i].date == dates[i])
      && (forall i | 0 <= i < |dates| ::
            r.value[i].count == if FirstIndex(dates, dates[i]) == i then CountOn(s.bookings, dates[i]) else 0)
  {
    if dateArr.None? {
      return Respond(Other);
    }
    var dates := dateArr.value;
    var result := MergeCounts(dates, g);
    GroupingCounts(g, s.bookings, dates);
    return Ok(200, result);
  }

  /** The count for a date is the number of bookings the reminder scan selects for it,
      and is positive exactly when some booking has that date. */
  lemma CountOnMeansBooked(c: Coll<Booking>, d: string)
    ensures CountOn(c, d) > 0 <==> exists i | 0 <= i < |c| :: c[i].data.date == d
  {
    var due := Scheduler.DatedOn(c, d);
    if CountOn(c, d) > 0 {
      assert due[0] in due;
    } else {
      forall i | 0 <= i < |c|
        ensures c[i].data.date != d
      {
        assert c[i] in c;
        assert c[i] !in due;
      }
    }
  }

  datatype CalendarForm = CalendarForm(
    date: Field, title: Field, description: Field, location: Field,
    startTime: Field, endTime: Field)

  /** Every field is present and non-empty. */
  predicate Complete(f: CalendarForm) {
    && Truthy(f.date) && Truthy(f.title) && Truthy(f.description)
    && Truthy(f.location) && Truthy(f.startTime) && Truthy(f.endTime)
  }

  function FromForm(f: CalendarForm): Calendar
    requires Complete(f)
  {
    Calendar(f.date.value, f.title.value, f.description.value, f.location.value,
      f.startTime.value, f.endTime.value)
  }

  /** `getCalendar`: malformed id (400), no such entry (404), otherwise the entry. */
  function GetCalendar(s: Store, ses: Session, calendarId: Id, validId: Id -> bool): (r: Reply<Doc<Calendar>>)
    ensures r.store == s && r.session == ses && r.outbox == []
    ensures !validId(calendarId) ==> r.result == Err(400, InvalidCalendarId)
    ensures validId(calendarId) && !Has(s.calendars, calendarId) ==> r.result == Err(404, CalendarNotFound)
    ensures r.result.Ok? <==> validId(calendarId) && Has(s.calendars, calendarId)
    ensures r.result.Ok? ==> r.result == Ok(200, Doc(calendarId, Find(s.calendars, calendarId).value))
  {
    match Lookup(s.calendars, calendarId, validId, InvalidCalendarId, CalendarNotFound)
    case Err(status, message) => Reject(s, ses, status, message)
    case Ok(_, doc) => Reply(s, ses, [], Ok(200, doc))
  }

  /** `createCalendar`: any missing field (400); otherwise one new entry. */
  function CreateCalendar(s: Store, ses: Session, f: CalendarForm): (r: Reply<Doc<Calendar>>)
    ensures r.session == ses && r.outbox == []
    ensures !Complete(f) ==> r == Reject(s, ses, 400, CalendarIncomplete)
    ensures r.result.Ok? <==> Complete(f)
    ensures r.result.Ok? ==>
      var doc := r.result.value;
      && r.result.status == 201
      && doc.data == FromForm(f)
      && !Has(s.calendars, doc.id)
      && r.store == s.(calendars := s.calendars + [doc])
  {
    if !Complete(f) then Reject(s, ses, 400, CalendarIncomplete)
    else
      var id := FreshId(s.calendars);
      Reply(s.(calendars := Insert(s.calendars, id, FromForm(f))), ses, [], Ok(201, Doc(id, FromForm(f))))
  }

  /** `updateCalendar`: malformed id (400), then any missing field (400), then no
      such entry (404); otherwise every field of that entry is overwritten and no
      other entry changes. */
  function UpdateCalendar(s: Store, ses: Session, calendarId: Id, f: CalendarForm, validId: Id -> bool)
    : (r: Reply<Doc<Calendar>>)
    ensures r.session == ses && r.outbox == []
    ensures !validId(calendarId) ==> r == Reject(s, ses, 400, InvalidCalendarId)
    ensures validId(calendarId) && !Complete(f) ==> r == Reject(s, ses, 400, CalendarIncomplete)
    ensures validId(calendarId) && Complete(f) && !Has(s.calendars, calendarId) ==>
      r == Reject(s, ses, 404, CalendarNotFound)
    ensures r.result.Ok? <==> validId(calendarId) && Complete(f) && Has(s.calendars, calendarId)
    ensures r.result.Ok? ==>
      && r.result == Ok(200, Doc(calendarId, FromForm(f)))
      && Find(r.store.calendars, calendarId) == Some(FromForm(f))
      && (forall x | x != calendarId :: Find(r.store.calendars, x) == Find(s.calendars, x))
      && (forall x :: Has(r.store.calendars, x) == Has(s.calendars, x))
      && r.store == s.(calendars := r.store.calendars)
  {
    if !validId(calendarId) then Reject(s, ses, 400, InvalidCalendarId)
    else if !Complete(f) then Reject(s, ses, 400, CalendarIncomplete)
    else if !Has(s.calendars, calendarId) then Reject(s, ses, 404, CalendarNotFound)
    else
      var c := FromForm(f);
      Reply(s.(calendars := Replace(s.calendars, calendarId, c)), ses, [], Ok(200, Doc(calendarId, c)))
  }

  /** `deleteCalendar`: malformed id (400), no such entry (404); otherwise the
      entry is removed and no other entry changes. */
  function DeleteCalendar(s: Store, ses: Session, calendarId: Id, validId: Id -> bool): (r: Reply<()>)
    ensures r.session == ses && r.outbox == []
    ensures !validId(calendarId) ==> r == Reject(s, ses, 400, InvalidCalendarId)
    ensures validId(calendarId) && !Has(s.calendars, calendarId) ==> r == Reject(s, ses, 404, CalendarNotFound)
    ensures r.result.Ok? <==> validId(calendarId) && Has(s.calendars, calendarId)
    ensures r.result.Ok? ==>
      && r.result.status == 204
      && !Has(r.store.calendars, calendarId)
      && (forall x | x != calendarId :: Find(r.store.calendars, x) == Find(s.calendars, x))
      && r.store == s.(calendars := r.store.calendars)
  {
    match Lookup(s.calendars, calendarId, validId, InvalidCalendarId, CalendarNotFound)
    case Err(status, message) => Reject(s, ses, status, message)
    case Ok(_, _) => Reply(s.(calendars := Remove(s.calendars, calendarId)), ses, [], Ok(204, ()))
  }

  /** A created entry is read back unchanged. */
  lemma CreateThenGet(s: Store, ses: Session, f: CalendarForm, validId: Id -> bool)
    requires Complete(f) && validId(FreshId(s.calendars))
    ensures var r := CreateCalendar(s, ses, f);
      GetCalendar(r.store, ses, r.result.value.id, validId).result == Ok(200, r.result.value)
  {
  }

  /** An updated entry is read back with the new fields; updating again with the
      same form changes nothing more. */
  lemma UpdateThenGet(s: Store, ses: Session, calendarId: Id, f: CalendarForm, validId: Id -> bool)
    requires UpdateCalendar(s, ses, calendarId, f, validId).result.Ok?
    ensures var r := UpdateCalendar(s, ses, calendarId, f, validId);
      && GetCalendar(r.store, ses, calendarId, validId).result == Ok(200, Doc(calendarId, FromForm(f)))
      && UpdateCalendar(r.store, ses, calendarId, f, validId).store == r.store
  {
    var r := UpdateCalendar(s, ses, calendarId, f, validId);
    var r2 := UpdateCalendar(r.store, ses, calendarId, f, validId);
    var a := r.store.calendars;
    var b := r2.store.calendars;
    assert |a| == |b|;
    forall i | 0 <= i < |a|
      ensures a[i] == b[i]
    {
      if a[i].id == calendarId {
        assert a[i].data == FromForm(f) == b[i].data;
      }
    }
    assert a == b;
  }

  /** A deleted entry is no longer found. */
  lemma DeleteThenGet(s: Store, ses: Session, calendarId: Id, validId: Id -> bool)
    requires DeleteCalendar(s, ses, calendarId, validId).result.Ok?
    ensures GetCalendar(DeleteCalendar(s, ses, calendarId, validId).store, ses, calendarId, validId).result
      == Err(404, CalendarNotFound)
  {
  }
}
