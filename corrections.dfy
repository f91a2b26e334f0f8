/** Defects of the controllers as written, each shown by a lemma on the
    as-written step function, beside a corrected step function with the
    evidently intended property proved. The controller modules keep the
    as-written behaviour; nothing else in the model calls these corrections. */
module Corrections {
  import opened Clock
  import opened Records
  import Ordering
  import Paging
  import MeetupController
  import SubscriptionController

  // ---- meetup store: no organizer recorded, slot check on a rounded date ----

  /** As written, a meetup created by `store` has no organizer, so its creator
      is refused (401) when they then try to update or delete it. */
  lemma StoredMeetupIsLocked(t: Tables, userId: int, now: int, body: MeetupController.MeetupBody,
                             later: int, edit: MeetupController.MeetupBody)
    requires WellFormed(t)
    requires MeetupController.StoreStep(t, userId, now, body).response.Ok?
    requires MeetupController.UpdateBodyValid(edit)
    ensures var o := MeetupController.StoreStep(t, userId, now, body);
      var id := o.response.value.id;
      && MeetupController.DeleteStep(o.after, userId, later, id).response == Rejected(401, NO_DELETE_PERMISSION)
      && MeetupController.UpdateStep(o.after, userId, later, id, edit).response == Rejected(401, NO_EDIT_PERMISSION)
  {
    var o := MeetupController.StoreStep(t, userId, now, body);
    var m := o.response.value;
    assert o.after.meetups[|t.meetups|] == m;
    FindMeetupUnique(o.after.meetups, m.id, m);
  }

  /** A meetup of user 7 at 00:30 (1 800 000 ms). */
  const HALF_PAST: int := 1800000
  const SEEDED: Tables := Tables([Meetup(1, Some(7), HALF_PAST, "a", "a", "a", Some(1))], 2, [], 1, [])

  function BodyAt(date: int): MeetupController.MeetupBody {
    MeetupController.MeetupBody(Given("t"), Given("d"), Given("l"), Given(1), Given(7), Given(date))
  }

  /** As written, the slot check looks for a meetup at the start of the hour,
      while rows are stored at their unrounded date: user 7 is let through
      to create a second meetup at exactly the instant of one they hold. */
  lemma SlotCheckMissesSameInstant()
    ensures WellFormed(SEEDED)
    ensures MeetupController.StoreStep(SEEDED, 7, 0, BodyAt(HALF_PAST)).response.Ok?
  {
    assert StartOfHour(HALF_PAST) == 0;
    assert !MeetupController.SlotTaken(SEEDED.meetups, 7, 0);
  }

  /** No organizer holds two meetups at one instant. */
  predicate NoOrganizerClash(ms: seq<Meetup>) {
    forall i, j :: 0 <= i < j < |ms| && ms[i].userId.Some? && ms[i].userId == ms[j].userId ==>
      ms[i].date != ms[j].date
  }

  /** `store` with the evident intent: the row records the requester as
      organizer and the start of the hour as its date, the instant the slot
      check looks for. */
  function StoreStepCorrected(t: Tables, userId: int, now: int, body: MeetupController.MeetupBody): (o: Outcome<Meetup>)
    requires WellFormed(t)
    ensures WellFormed(o.after)
    ensures !o.response.Ok? ==> o.after == t
    ensures o.response.Ok? ==>
      && o.response.value.userId == Some(userId)
      && (forall k :: 0 <= k < |t.meetups| ==> t.meetups[k].id != o.response.value.id)
      && o.after == t.(meetups := t.meetups + [o.response.value], nextMeetupId := t.nextMeetupId + 1)
    ensures o.response.Ok? ==> !Past(o.response.value, now)
    ensures NoOrganizerClash(t.meetups) ==> NoOrganizerClash(o.after.meetups)
    // The same guards as the as-written store, and the same row but for the
    // organizer and the rounded date.
    ensures var w := MeetupController.StoreStep(t, userId, now, body);
      && (o.response.Ok? <==> w.response.Ok?)
      && (!o.response.Ok? ==> o.response == w.response)
      && (o.response.Ok? ==>
            o.response.value == w.response.value.(userId := Some(userId), date := StartOfHour(body.date.value)))
  {
    if !MeetupController.StoreBodyValid(body) then Outcome(Rejected(400, VALIDATION_FAILS), t)
    else
      var hourStart := StartOfHour(body.date.value);
      if IsBefore(hourStart, now) then Outcome(Rejected(400, PAST_DATES), t)
      else if MeetupController.SlotTaken(t.meetups, userId, hourStart) then Outcome(Rejected(400, DATE_NOT_AVAILABLE), t)
      else
        var m := Meetup(t.nextMeetupId, Some(userId), hourStart, body.title.value, body.description.value,
                        body.location.value, None);
        var ms := t.meetups + [m];
        assert forall i :: 0 <= i < |t.meetups| ==> !(t.meetups[i].userId == Some(userId) && t.meetups[i].date == hourStart);
        assert forall i :: 0 <= i < |t.meetups| ==> ms[i] == t.meetups[i];
        Outcome(Ok(m), t.(meetups := ms, nextMeetupId := t.nextMeetupId + 1))
  }

  /** With the correction, the organizer can delete the meetup they just created. */
  lemma CorrectedStoreKeepsOwnership(t: Tables, userId: int, now: int, body: MeetupController.MeetupBody)
    requires WellFormed(t)
    requires StoreStepCorrected(t, userId, now, body).response.Ok?
    ensures var o := StoreStepCorrected(t, userId, now, body);
      MeetupController.DeleteStep(o.after, userId, now, o.response.value.id).response == Ok(o.response.value)
  {
    var o := StoreStepCorrected(t, userId, now, body);
    var m := o.response.value;
    assert o.after.meetups[|t.meetups|] == m;
    FindMeetupUnique(o.after.meetups, m.id, m);
  }

  // ---- subscription store: meetup date read before the missing-meetup test ----

  /** As written, joining a meetup id that does not exist throws instead of
      answering 400. */
  lemma MissingMeetupThrows(t: Tables, userId: int, now: int, meetupId: int)
    requires WellFormed(t)
    requires FindMeetup(t.meetups, meetupId).None?
    ensures SubscriptionController.StoreStep(t, userId, now, SubscriptionController.SubscriptionBody(Given(meetupId))).response == Thrown
  {
  }

  /** `store` with the missing-meetup test before the first read of the meetup. */
  function SubscriptionStoreCorrected(t: Tables, userId: int, now: int, body: SubscriptionController.SubscriptionBody): (o: Outcome<Subscription>)
    requires WellFormed(t)
    ensures !o.response.Thrown?
    ensures !o.response.Ok? ==> o.after == t
    ensures body.meetupId.Given? && FindMeetup(t.meetups, body.meetupId.value).None? ==>
      o.response == Rejected(400, OWN_OR_MISSING)
    ensures !(body.meetupId.Given? && FindMeetup(t.meetups, body.meetupId.value).None?) ==>
      o == SubscriptionController.StoreStep(t, userId, now, body)
  {
    if body.meetupId.Given? && FindMeetup(t.meetups, body.meetupId.value).None? then
      Outcome(Rejected(400, OWN_OR_MISSING), t)
    else
      SubscriptionController.StoreStep(t, userId, now, body)
  }

  // ---- meetup update and delete: no missing-meetup test ----

  /** The answer the model gives for a missing meetup; the controllers have none. */
  const MEETUP_NOT_FOUND: string := "Meetup not found."

  /** As written, updating or deleting a meetup id that does not exist throws. */
  lemma MissingMeetupEditThrows(t: Tables, userId: int, now: int, id: int, edit: MeetupController.MeetupBody)
    requires WellFormed(t)
    requires FindMeetup(t.meetups, id).None?
    requires MeetupController.UpdateBodyValid(edit)
    ensures MeetupController.UpdateStep(t, userId, now, id, edit).response == Thrown
    ensures MeetupController.DeleteStep(t, userId, now, id).response == Thrown
  {
  }

  /** `update` answering 404 for a missing meetup. */
  function UpdateStepCorrected(t: Tables, userId: int, now: int, id: int, body: MeetupController.MeetupBody): (o: Outcome<Meetup>)
    requires WellFormed(t)
    ensures !o.response.Thrown?
    ensures !o.response.Ok? ==> o.after == t
    ensures MeetupController.UpdateBodyValid(body) && FindMeetup(t.meetups, id).None? ==>
      o.response == Rejected(404, MEETUP_NOT_FOUND)
    ensures !(MeetupController.UpdateBodyValid(body) && FindMeetup(t.meetups, id).None?) ==>
      o == MeetupController.UpdateStep(t, userId, now, id, body)
  {
    if MeetupController.UpdateBodyValid(body) && FindMeetup(t.meetups, id).None? then
      Outcome(Rejected(404, MEETUP_NOT_FOUND), t)
    else
      MeetupController.UpdateStep(t, userId, now, id, body)
  }

  /** `delete` answering 404 for a missing meetup. */
  function DeleteStepCorrected(t: Tables, userId: int, now: int, id: int): (o: Outcome<Meetup>)
    requires WellFormed(t)
    ensures !o.response.Thrown?
    ensures !o.response.Ok? ==> o.after == t
    ensures FindMeetup(t.meetups, id).None? ==> o.response == Rejected(404, MEETUP_NOT_FOUND)
    ensures FindMeetup(t.meetups, id).Some? ==> o == MeetupController.DeleteStep(t, userId, now, id)
  {
    if FindMeetup(t.meetups, id).None? then Outcome(Rejected(404, MEETUP_NOT_FOUND), t)
    else MeetupController.DeleteStep(t, userId, now, id)
  }

  // ---- meetup index: the day window passed as `whereClause` ----

  /** The meetups of the day of `date`, from its start to its last millisecond. */
  function OnDay(ms: seq<Meetup>, date: int): (r: seq<Meetup>)
    ensures forall m :: m in r <==> m in ms && StartOfDay(date) <= m.date <= EndOfDay(date)
  {
    if ms == [] then []
    else
      var rest := OnDay(ms[1..], date);
      assert forall m :: m in ms <==> m == ms[0] || m in ms[1..];
      if StartOfDay(date) <= ms[0].date <= EndOfDay(date) then [ms[0]] + rest else rest
  }

  /** The filter keeps each meetup at most as often as the table holds it, so
      a meetup of the day is not listed twice. */
  lemma {:induction false} OnDayKeepsEachOnce(ms: seq<Meetup>, date: int)
    ensures multiset(OnDay(ms, date)) <= multiset(ms)
  {
    if ms != [] {
      OnDayKeepsEachOnce(ms[1..], date);
      assert ms == [ms[0]] + ms[1..];
    }
  }

  /** `index` with the day window applied as the query's `where`. */
  function IndexCorrected(t: Tables, now: int, page: Paging.PageParam, date: Option<int>): (r: Response<seq<MeetupController.Listing>>)
    ensures date.None? ==> r == MeetupController.Index(t, now, page, None)
    ensures r.Ok? && date.Some? ==> forall k :: 0 <= k < |r.value| ==>
      StartOfDay(date.value) <= r.value[k].date <= EndOfDay(date.value)
    ensures r.Ok? ==> forall k :: 0 <= k < |r.value| ==>
      exists m :: m in t.meetups && r.value[k] == MeetupController.ListingOf(m, now)
  {
    match date
    case None =>
      var r := MeetupController.Index(t, now, page, None);
      assert r.Ok? ==> forall k :: 0 <= k < |r.value| ==>
        exists m :: m in t.meetups && r.value[k] == MeetupController.ListingOf(m, now);
      r
    case Some(d) =>
      var r := MeetupController.Index(t.(meetups := OnDay(t.meetups, d)), now, page, None);
      assert r.Ok? ==> forall k :: 0 <= k < |r.value| ==>
        exists m :: m in OnDay(t.meetups, d) && r.value[k] == MeetupController.ListingOf(m, now);
      r
  }

  /** A dated query is the as-written listing of the day's meetups alone: ten
      rows per page from offset (page - 1) * 10, in date order. */
  lemma IndexCorrectedPagesTheDay(t: Tables, now: int, page: Paging.PageParam, d: int)
    ensures IndexCorrected(t, now, page, Some(d))
         == MeetupController.Index(t.(meetups := OnDay(t.meetups, d)), now, page, None)
  {
  }

  /** Every meetup of the requested day is listed on some page. */
  lemma IndexCorrectedListsEveryMeetupOfDay(t: Tables, now: int, d: int, m: Meetup)
    requires m in t.meetups && StartOfDay(d) <= m.date <= EndOfDay(d)
    ensures exists page: int ::
      && page >= 1
      && IndexCorrected(t, now, Paging.PageNumber(page), Some(d)).Ok?
      && MeetupController.ListingOf(m, now) in IndexCorrected(t, now, Paging.PageNumber(page), Some(d)).value
  {
    var day := t.(meetups := OnDay(t.meetups, d));
    MeetupController.IndexListsEveryMeetup(day, now, None, m);
    var page: int :| && page >= 1
      && MeetupController.Index(day, now, Paging.PageNumber(page), None).Ok?
      && MeetupController.ListingOf(m, now) in MeetupController.Index(day, now, Paging.PageNumber(page), None).value;
    assert IndexCorrected(t, now, Paging.PageNumber(page), Some(d)) == MeetupController.Index(day, now, Paging.PageNumber(page), None);
  }

  /** As written, a date filter still lists a meetup of another day: with one
      meetup on day 2, asking for day 0 lists it. */
  lemma DateFilterListsOtherDays()
    ensures var t := Tables([Meetup(1, Some(7), 2 * DAY_MS, "a", "a", "a", None)], 2, [], 1, []);
      && MeetupController.Index(t, 0, Paging.DefaultPage, Some(0)).Ok?
      && |MeetupController.Index(t, 0, Paging.DefaultPage, Some(0)).value| == 1
      && MeetupController.Index(t, 0, Paging.DefaultPage, Some(0)).value[0].date > EndOfDay(0)
  {
    var t := Tables([Meetup(1, Some(7), 2 * DAY_MS, "a", "a", "a", None)], 2, [], 1, []);
    var ms := t.meetups;
    assert Ordering.SortBy(ms, MeetupController.MeetupKey) == ms;
  }
}
