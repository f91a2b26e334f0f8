/** MeetupController: the paged listing (`index`) and the three guarded
    writes (`store`, `update`, `delete`) on the meetups table. Each write is a
    step function on a database value, which states the guards in the order the
    controller runs them, and a method on `Db` proved to perform that step. */
module MeetupController {
  import opened Clock
  import opened Ordering
  import opened Paging
  import opened Records
  import opened Database

  /** The request body of `store` and `update`: the six schema fields. */
  datatype MeetupBody = MeetupBody(
    title: Field<string>,
    description: Field<string>,
    location: Field<string>,
    bannerId: Field<int>,
    userId: Field<int>,
    date: Field<int>)

  /** A `string().required()` field: present and not empty. */
  predicate RequiredText(f: Field<string>) {
    f.Given? && f.value != ""
  }

  /** The `store` schema: every field present and well typed. */
  predicate StoreBodyValid(b: MeetupBody): (ok: bool)
    ensures ok ==> UpdateBodyValid(b)
    ensures b.title == Given("") || b.description == Given("") || b.location == Given("") ==> !ok
  {
    && RequiredText(b.title)
    && RequiredText(b.description)
    && RequiredText(b.location)
    && b.bannerId.Given?
    && b.userId.Given?
    && b.date.Given?
  }

  /** The `update` schema: every field optional, but well typed when present. */
  predicate UpdateBodyValid(b: MeetupBody): (ok: bool)
    ensures b == MeetupBody(Absent, Absent, Absent, Absent, Absent, Absent) ==> ok
    ensures b.date.Malformed? || b.userId.Malformed? ==> !ok
  {
    && !b.title.Malformed?
    && !b.description.Malformed?
    && !b.location.Malformed?
    && !b.bannerId.Malformed?
    && !b.userId.Malformed?
    && !b.date.Malformed?
  }

  // ---------------------------------------------------------------- index

  /** One row of the listing: the selected attributes `id`, `date`, `past`,
      and the organizer the `user` include joins on. */
  datatype Listing = Listing(id: nat, date: int, past: bool, organizer: Option<int>)

  function ListingOf(m: Meetup, now: int): Listing {
    Listing(m.id, m.date, Past(m, now), m.userId)
  }

  /** `order: ['date']`, ties broken by id. */
  function MeetupKey(m: Meetup): Key {
    Key(m.date, m.id)
  }

  function Listings(ms: seq<Meetup>, now: int): (r: seq<Listing>)
    ensures |r| == |ms|
    ensures forall k :: 0 <= k < |ms| ==> r[k] == ListingOf(ms[k], now)
  {
    seq(|ms|, k requires 0 <= k < |ms| => ListingOf(ms[k], now))
  }

  /** Rows offset .. offset + 9 of the meetups ordered by date. */
  function SortedPage(ms: seq<Meetup>, offset: nat): (rows: seq<Meetup>)
    ensures |rows| == PageLength(|ms|, offset)
    ensures forall k :: 0 <= k < |rows| ==> rows[k] == SortBy(ms, MeetupKey)[offset + k]
    ensures forall k :: 0 <= k < |rows| ==> rows[k] in ms
    ensures forall j, k :: 0 <= j < k < |rows| ==> rows[j].date <= rows[k].date
  {
    var sorted := SortBy(ms, MeetupKey);
    assert |sorted| == |multiset(sorted)| == |ms|;
    var rows := Slice(sorted, offset);
    forall k | 0 <= k < |rows| ensures rows[k] in ms {
      SortBySameRows(ms, MeetupKey, sorted[offset + k]);
    }
    forall j, k | 0 <= j < k < |rows| ensures rows[j].date <= rows[k].date {
      assert KeyLe(MeetupKey(sorted[offset + j]), MeetupKey(sorted[offset + k]));
    }
    rows
  }

  /** `index`: page `page` (default 1) of all meetups ordered by date. The day
      window computed from `date` reaches the query under the key `whereClause`,
      which the ORM does not read, so `date` has no effect. A page below 1 gives
      a negative offset and the query fails. */
  function Index(t: Tables, now: int, page: PageParam, date: Option<int>): (r: Response<seq<Listing>>)
    ensures r.Ok? <==> PageOf(page) >= 1
    ensures r.Thrown? <==> PageOf(page) < 1
    ensures r.Ok? ==> |r.value| == PageLength(|t.meetups|, Offset(PageOf(page)))
    ensures r.Ok? ==> forall k :: 0 <= k < |r.value| ==>
      && Offset(PageOf(page)) + k < |SortBy(t.meetups, MeetupKey)|
      && r.value[k] == ListingOf(SortBy(t.meetups, MeetupKey)[Offset(PageOf(page)) + k], now)
    ensures r.Ok? ==> forall k :: 0 <= k < |r.value| ==>
      exists m :: m in t.meetups && r.value[k] == ListingOf(m, now)
    ensures r.Ok? ==> forall k :: 0 <= k < |r.value| ==> (r.value[k].past <==> r.value[k].date < now)
    ensures r.Ok? ==> forall j, k :: 0 <= j < k < |r.value| ==> r.value[j].date <= r.value[k].date
  {
    var offset := Offset(PageOf(page));
    if offset < 0 then Thrown
    else
      var rows := SortedPage(t.meetups, offset);
      var listed := Listings(rows, now);
      assert |SortBy(t.meetups, MeetupKey)| == |multiset(t.meetups)|;
      assert forall k :: 0 <= k < |listed| ==> rows[k] in t.meetups && listed[k] == ListingOf(rows[k], now);
      Ok(listed)
  }

  /** Row j of page p is row Offset(p) + j of the sorted table. */
  lemma PageRow(t: Tables, now: int, date: Option<int>, p: int, j: nat)
    requires p >= 1
    requires j < |Index(t, now, PageNumber(p), date).value|
    ensures Offset(p) + j < |SortBy(t.meetups, MeetupKey)|
    ensures j < |Slice(SortBy(t.meetups, MeetupKey), Offset(p))|
    ensures Index(t, now, PageNumber(p), date).value[j] == ListingOf(SortBy(t.meetups, MeetupKey)[Offset(p) + j], now)
  {
    var sorted := SortBy(t.meetups, MeetupKey);
    assert |sorted| == |multiset(t.meetups)| == |t.meetups|;
    assert Index(t, now, PageNumber(p), date) == Ok(Listings(SortedPage(t.meetups, Offset(p)), now));
    assert |Slice(sorted, Offset(p))| == PageLength(|t.meetups|, Offset(p));
  }

  /** Pages follow each other in date order: every meetup on page p is no
      later than every meetup on a later page q. */
  lemma PagesInDateOrder(t: Tables, now: int, date: Option<int>, p: int, q: int, j: nat, k: nat)
    requires 1 <= p < q
    requires j < |Index(t, now, PageNumber(p), date).value|
    requires k < |Index(t, now, PageNumber(q), date).value|
    ensures Index(t, now, PageNumber(p), date).value[j].date <= Index(t, now, PageNumber(q), date).value[k].date
  {
    var sorted := SortBy(t.meetups, MeetupKey);
    PageRow(t, now, date, p, j);
    PageRow(t, now, date, q, k);
    PagesDisjoint(sorted, p, q, j, k);
    assert KeyLe(MeetupKey(sorted[Offset(p) + j]), MeetupKey(sorted[Offset(q) + k]));
  }

  /** With unique ids, no meetup is listed on two different pages. */
  lemma PagesShareNoMeetup(t: Tables, now: int, date: Option<int>, p: int, q: int, j: nat, k: nat)
    requires UniqueMeetupIds(t.meetups)
    requires 1 <= p < q
    requires j < |Index(t, now, PageNumber(p), date).value|
    requires k < |Index(t, now, PageNumber(q), date).value|
    ensures Index(t, now, PageNumber(p), date).value[j].id != Index(t, now, PageNumber(q), date).value[k].id
  {
    var sorted := SortBy(t.meetups, MeetupKey);
    PageRow(t, now, date, p, j);
    PageRow(t, now, date, q, k);
    SortKeepsIdsUnique(t.meetups, sorted);
    PagesDisjoint(sorted, p, q, j, k);
    var lp := Index(t, now, PageNumber(p), date).value[j];
    var lq := Index(t, now, PageNumber(q), date).value[k];
    assert lp == ListingOf(sorted[Offset(p) + j], now) && lq == ListingOf(sorted[Offset(q) + k], now);
  }

  /** Sorting the table keeps its ids unique. */
  lemma SortKeepsIdsUnique(ms: seq<Meetup>, sorted: seq<Meetup>)
    requires UniqueMeetupIds(ms)
    requires sorted == SortBy(ms, MeetupKey)
    ensures UniqueMeetupIds(sorted)
  {
    assert |sorted| == |multiset(ms)| == |ms|;
    forall a, b | 0 <= a < b < |sorted| ensures sorted[a].id != sorted[b].id {
      DistinctIdsDistinctMeetups(ms, sorted, a, b);
    }
  }

  /** Two positions of the sorted table hold meetups with different ids. */
  lemma DistinctIdsDistinctMeetups(ms: seq<Meetup>, sorted: seq<Meetup>, a: nat, b: nat)
    requires UniqueMeetupIds(ms)
    requires sorted == SortBy(ms, MeetupKey)
    requires a < b < |sorted|
    ensures sorted[a].id != sorted[b].id
  {
    assert forall i, j :: 0 <= i < j < |ms| ==> ms[i] != ms[j];
    SortByNoRepeat(ms, MeetupKey, a, b);
    SortBySameRows(ms, MeetupKey, sorted[a]);
    SortBySameRows(ms, MeetupKey, sorted[b]);
    if sorted[a].id == sorted[b].id {
      FindMeetupUnique(ms, sorted[a].id, sorted[a]);
      FindMeetupUnique(ms, sorted[b].id, sorted[b]);
    }
  }

  /** Every meetup of the table is listed on some page. */
  lemma IndexListsEveryMeetup(t: Tables, now: int, date: Option<int>, m: Meetup)
    requires m in t.meetups
    ensures exists page: int ::
      && page >= 1
      && Index(t, now, PageNumber(page), date).Ok?
      && ListingOf(m, now) in Index(t, now, PageNumber(page), date).value
  {
    var sorted := SortBy(t.meetups, MeetupKey);
    SortBySameRows(t.meetups, MeetupKey, m);
    var i :| 0 <= i < |sorted| && sorted[i] == m;
    EveryRowOnAPage(sorted, i);
    var page := i / PAGE_SIZE + 1;
    var r := Index(t, now, PageNumber(page), date);
    assert r.value[i % PAGE_SIZE] == ListingOf(m, now);
  }

  /** The `date` query parameter does not change the listing. */
  lemma IndexIgnoresDateFilter(t: Tables, now: int, page: PageParam, date: int)
    ensures Index(t, now, page, Some(date)) == Index(t, now, page, None)
  {
  }

  // ---------------------------------------------------------------- store

  /** Some meetup of `userId` is at exactly `instant`
      (`Meetup.findOne({ where: { user_id, date } })`). */
  predicate SlotTaken(ms: seq<Meetup>, userId: int, instant: int): (taken: bool)
    ensures taken <==> exists m :: m in ms && m.userId == Some(userId) && m.date == instant
  {
    exists i :: 0 <= i < |ms| && ms[i].userId == Some(userId) && ms[i].date == instant
  }

  /** `store` as the controller runs it: validation, the past-hour check, the
      slot check on the start of the hour, then `Meetup.create` with the title,
      description, location and the unrounded date, and no organizer or banner. */
  function StoreStep(t: Tables, userId: int, now: int, body: MeetupBody): (o: Outcome<Meetup>)
    requires WellFormed(t)
    ensures WellFormed(o.after)
    ensures !o.response.Ok? ==> o.after == t
    ensures !o.response.Thrown?
    ensures !StoreBodyValid(body) ==> o.response == Rejected(400, VALIDATION_FAILS)
    ensures StoreBodyValid(body) && IsBefore(StartOfHour(body.date.value), now) ==>
      o.response == Rejected(400, PAST_DATES)
    ensures StoreBodyValid(body) && !IsBefore(StartOfHour(body.date.value), now)
      && SlotTaken(t.meetups, userId, StartOfHour(body.date.value))
      ==> o.response == Rejected(400, DATE_NOT_AVAILABLE)
    ensures o.response.Ok? <==>
      StoreBodyValid(body) && !IsBefore(StartOfHour(body.date.value), now) &&
      !SlotTaken(t.meetups, userId, StartOfHour(body.date.value))
    ensures o.response.Ok? ==>
      var m := o.response.value;
      && m == Meetup(t.nextMeetupId, None, body.date.value, body.title.value,
                     body.description.value, body.location.value, None)
      && (forall k :: 0 <= k < |t.meetups| ==> t.meetups[k].id != m.id)
      && o.after == t.(meetups := t.meetups + [m], nextMeetupId := t.nextMeetupId + 1)
    ensures o.response.Ok? ==> !IsBefore(o.response.value.date, now)
  {
    if !StoreBodyValid(body) then Outcome(Rejected(400, VALIDATION_FAILS), t)
    else
      var date := body.date.value;
      var hourStart := StartOfHour(date);
      if IsBefore(hourStart, now) then Outcome(Rejected(400, PAST_DATES), t)
      else if SlotTaken(t.meetups, userId, hourStart) then Outcome(Rejected(400, DATE_NOT_AVAILABLE), t)
      else
        HourStartBoundsDate(date, now);
        var m := Meetup(t.nextMeetupId, None, date, body.title.value, body.description.value,
                        body.location.value, None);
        Outcome(Ok(m), t.(meetups := t.meetups + [m], nextMeetupId := t.nextMeetupId + 1))
  }

  /** `store` on the live database: runs the guards of `StoreStep`, which defines
      its response and new state, and creates the meetup row. */
  method Store(db: Db, userId: int, now: int, body: MeetupBody) returns (r: Response<Meetup>)
    requires db.Valid()
    modifies db
    ensures db.Valid()
    ensures Outcome(r, db.Snapshot()) == StoreStep(old(db.Snapshot()), userId, now, body)
  {
    if !StoreBodyValid(body) {
      return Rejected(400, VALIDATION_FAILS);
    }
    var date := body.date.value;
    var hourStart := StartOfHour(date);
    if IsBefore(hourStart, now) {
      return Rejected(400, PAST_DATES);
    }
    if SlotTaken(db.meetups, userId, hourStart) {
      return Rejected(400, DATE_NOT_AVAILABLE);
    }
    var m := Meetup(db.nextMeetupId, None, date, body.title.value, body.description.value,
                    body.location.value, None);
    db.meetups := db.meetups + [m];
    db.nextMeetupId := db.nextMeetupId + 1;
    r := Ok(m);
  }

  // ---------------------------------------------------------------- update

  /** `Meetup.update(req.body)`, read as updating the loaded meetup with every
      field the body supplies (the organizer and the banner included). */
  function Patch(m: Meetup, b: MeetupBody): (p: Meetup)
    requires UpdateBodyValid(b)
    ensures p.id == m.id
    ensures p.date == (if b.date.Given? then b.date.value else m.date)
    ensures p.userId == (if b.userId.Given? then Some(b.userId.value) else m.userId)
    ensures p.title == (if b.title.Given? then b.title.value else m.title)
    ensures p.description == (if b.description.Given? then b.description.value else m.description)
    ensures p.location == (if b.location.Given? then b.location.value else m.location)
    ensures p.bannerId == (if b.bannerId.Given? then Some(b.bannerId.value) else m.bannerId)
  {
    m.(title := if b.title.Given? then b.title.value else m.title,
       description := if b.description.Given? then b.description.value else m.description,
       location := if b.location.Given? then b.location.value else m.location,
       bannerId := if b.bannerId.Given? then Some(b.bannerId.value) else m.bannerId,
       userId := if b.userId.Given? then Some(b.userId.value) else m.userId,
       date := if b.date.Given? then b.date.value else m.date)
  }

  /** `update` as the controller runs it: validation, then (with no check that
      the meetup exists) ownership, then `past`, then a supplied date before now. */
  function UpdateStep(t: Tables, userId: int, now: int, id: int, body: MeetupBody): (o: Outcome<Meetup>)
    requires WellFormed(t)
    ensures WellFormed(o.after)
    ensures !o.response.Ok? ==> o.after == t
    ensures !UpdateBodyValid(body) ==> o.response == Rejected(400, VALIDATION_FAILS)
    ensures UpdateBodyValid(body) && FindMeetup(t.meetups, id).None? ==> o.response.Thrown?
    ensures UpdateBodyValid(body) && FindMeetup(t.meetups, id).Some? ==>
      var m := FindMeetup(t.meetups, id).value;
      && (m.userId != Some(userId) ==> o.response == Rejected(401, NO_EDIT_PERMISSION))
      && (m.userId == Some(userId) && Past(m, now) ==> o.response == Rejected(401, EDIT_PAST))
      && (m.userId == Some(userId) && !Past(m, now) && body.date.Given? && IsBefore(body.date.value, now) ==>
            o.response == Rejected(400, DATE_INVALID))
      && (m.userId == Some(userId) && !Past(m, now) && !(body.date.Given? && IsBefore(body.date.value, now)) ==>
            o.response == Ok(Patch(m, body)))
    ensures o.response.Ok? ==>
      var i := IndexOfMeetup(t.meetups, id);
      && 0 <= i
      && t.meetups[i].userId == Some(userId)
      && o.after == t.(meetups := t.meetups[i := o.response.value])
    ensures o.response.Ok? ==> o.response.value.id == id && !Past(o.response.value, now)
  {
    if !UpdateBodyValid(body) then Outcome(Rejected(400, VALIDATION_FAILS), t)
    else
      var i := IndexOfMeetup(t.meetups, id);
      if i < 0 then Outcome(Thrown, t)
      else
        var m := t.meetups[i];
        if m.userId != Some(userId) then Outcome(Rejected(401, NO_EDIT_PERMISSION), t)
        else if Past(m, now) then Outcome(Rejected(401, EDIT_PAST), t)
        else if body.date.Given? && IsBefore(body.date.value, now) then Outcome(Rejected(400, DATE_INVALID), t)
        else
          var p := Patch(m, body);
          Outcome(Ok(p), t.(meetups := t.meetups[i := p]))
  }

  /** `update` on the live database: runs the guards of `UpdateStep`, which defines
      its response and new state, and rewrites the loaded row in place. */
  method Update(db: Db, userId: int, now: int, id: int, body: MeetupBody) returns (r: Response<Meetup>)
    requires db.Valid()
    modifies db
    ensures db.Valid()
    ensures Outcome(r, db.Snapshot()) == UpdateStep(old(db.Snapshot()), userId, now, id, body)
  {
    if !UpdateBodyValid(body) {
      return Rejected(400, VALIDATION_FAILS);
    }
    var i := IndexOfMeetup(db.meetups, id);
    if i < 0 {
      return Thrown;
    }
    var m := db.meetups[i];
    if m.userId != Some(userId) {
      return Rejected(401, NO_EDIT_PERMISSION);
    }
    if Past(m, now) {
      return Rejected(401, EDIT_PAST);
    }
    if body.date.Given? && IsBefore(body.date.value, now) {
      return Rejected(400, DATE_INVALID);
    }
    var p := Patch(m, body);
    db.meetups := db.meetups[i := p];
    r := Ok(p);
  }

  // ---------------------------------------------------------------- delete

  /** `delete` as the controller runs it: (with no check that the meetup
      exists) ownership, then `past`, then removal; the answer is the removed row. */
  function DeleteStep(t: Tables, userId: int, now: int, id: int): (o: Outcome<Meetup>)
    requires WellFormed(t)
    ensures WellFormed(o.after)
    ensures !o.response.Ok? ==> o.after == t
    ensures FindMeetup(t.meetups, id).None? ==> o.response.Thrown?
    ensures FindMeetup(t.meetups, id).Some? ==>
      var m := FindMeetup(t.meetups, id).value;
      && (m.userId != Some(userId) ==> o.response == Rejected(401, NO_DELETE_PERMISSION))
      && (m.userId == Some(userId) && Past(m, now) ==> o.response == Rejected(401, DELETE_PAST))
      && (m.userId == Some(userId) && !Past(m, now) ==> o.response == Ok(m))
    ensures o.response.Ok? ==>
      && o.after == t.(meetups := o.after.meetups)
      && |o.after.meetups| == |t.meetups| - 1
      && forall m :: m in o.after.meetups <==> m in t.meetups && m.id != id
  {
    var i := IndexOfMeetup(t.meetups, id);
    if i < 0 then Outcome(Thrown, t)
    else
      var m := t.meetups[i];
      if m.userId != Some(userId) then Outcome(Rejected(401, NO_DELETE_PERMISSION), t)
      else if Past(m, now) then Outcome(Rejected(401, DELETE_PAST), t)
      else
        var rest := RemoveAt(t.meetups, i);
        Outcome(Ok(m), t.(meetups := rest))
  }

  /** The table without row i; with unique ids that is every row but the one with row i's id. */
  function RemoveAt(ms: seq<Meetup>, i: nat): (r: seq<Meetup>)
    requires i < |ms| && UniqueMeetupIds(ms)
    ensures UniqueMeetupIds(r)
    ensures |r| == |ms| - 1
    ensures forall m :: m in r <==> m in ms && m.id != ms[i].id
  {
    var r := ms[..i] + ms[i + 1..];
    assert forall k :: 0 <= k < |r| ==> r[k] == (if k < i then ms[k] else ms[k + 1]);
    assert forall m :: m in ms && m.id != ms[i].id ==> m in r by {
      forall m | m in ms && m.id != ms[i].id ensures m in r {
        var k :| 0 <= k < |ms| && ms[k] == m;
        if k < i { assert r[k] == m; } else { assert r[k - 1] == m; }
      }
    }
    r
  }

  /** `delete` on the live database: runs the guards of `DeleteStep`, which defines
      its response and new state, and removes the row. */
  method Delete(db: Db, userId: int, now: int, id: int) returns (r: Response<Meetup>)
    requires db.Valid()
    modifies db
    ensures db.Valid()
    ensures Outcome(r, db.Snapshot()) == DeleteStep(old(db.Snapshot()), userId, now, id)
  {
    var i := IndexOfMeetup(db.meetups, id);
    if i < 0 {
      return Thrown;
    }
    var m := db.meetups[i];
    if m.userId != Some(userId) {
      return Rejected(401, NO_DELETE_PERMISSION);
    }
    if Past(m, now) {
      return Rejected(401, DELETE_PAST);
    }
    db.meetups := RemoveAt(db.meetups, i);
    r := Ok(m);
  }
}
