/** Which writes keep the subscription rules of `Records.Consistent` (no
    duplicate pair, no two subscriptions of one user at one instant, no
    subscription to one's own meetup), and which can break them. */
module Rules {
  import opened Records
  import MeetupController
  import SubscriptionController

  /** Appending a row with a fresh id does not change what other ids find. */
  lemma FindAfterAppend(ms: seq<Meetup>, n: Meetup, x: int)
    requires x != n.id
    ensures FindMeetup(ms + [n], x) == FindMeetup(ms, x)
  {
    var i := IndexOfMeetup(ms, x);
    var j := IndexOfMeetup(ms + [n], x);
    if 0 <= i {
      assert (ms + [n])[i].id == x;
      assert j == i;
    } else {
      assert (ms + [n])[|ms|].id != x;
      assert j < 0;
    }
  }

  /** After a meetup is removed, its id finds nothing and every other id finds what it found before. */
  lemma FindAfterRemove(ms: seq<Meetup>, rest: seq<Meetup>, id: int, x: int)
    requires UniqueMeetupIds(ms) && UniqueMeetupIds(rest)
    requires forall m :: m in rest <==> m in ms && m.id != id
    ensures FindMeetup(rest, x) == if x == id then None else FindMeetup(ms, x)
  {
    var before := FindMeetup(ms, x);
    var after := FindMeetup(rest, x);
    if after.Some? {
      FindMeetupUnique(ms, x, after.value);
    } else if x != id && before.Some? {
      FindMeetupUnique(rest, x, before.value);
    }
  }

  /** A successful join only adds a subscription its guards have cleared,
      so the three rules hold after it when they held before. */
  lemma SubscriptionStorePreservesConsistency(t: Tables, userId: int, now: int, body: SubscriptionController.SubscriptionBody)
    requires WellFormed(t) && Consistent(t)
    ensures Consistent(SubscriptionController.StoreStep(t, userId, now, body).after)
  {
    var o := SubscriptionController.StoreStep(t, userId, now, body);
    if o.response.Ok? {
      var s := o.response.value;
      var ss := o.after.subscriptions;
      var m := FindMeetup(t.meetups, s.meetupId).value;
      assert ss == t.subscriptions + [s] && o.after.meetups == t.meetups;
      assert !SubscriptionController.AlreadySubscribed(t.subscriptions, userId, m.id);
      assert !SubscriptionController.HasSameInstant(t, userId, m.date);
      forall i, j | 0 <= i < j < |ss| && ss[i].userId == ss[j].userId
        ensures !(ss[i].meetupId == ss[j].meetupId)
        ensures !SameInstant(t.meetups, ss[i].meetupId, ss[j].meetupId)
      {
        if j == |t.subscriptions| {
          assert ss[j] == s && ss[i] == t.subscriptions[i];
        }
      }
    }
  }

  /** Creating a meetup adds an organizer-less row under a fresh id, which
      no subscription points at, so the three rules are kept. */
  lemma MeetupStorePreservesConsistency(t: Tables, userId: int, now: int, body: MeetupController.MeetupBody)
    requires WellFormed(t) && Consistent(t)
    ensures Consistent(MeetupController.StoreStep(t, userId, now, body).after)
  {
    var o := MeetupController.StoreStep(t, userId, now, body);
    if o.response.Ok? {
      var n := o.response.value;
      forall x | x < t.nextMeetupId ensures FindMeetup(o.after.meetups, x) == FindMeetup(t.meetups, x) {
        FindAfterAppend(t.meetups, n, x);
      }
    }
  }

  /** Removing a meetup only makes lookups of its id fail, so the three rules are kept. */
  lemma MeetupDeletePreservesConsistency(t: Tables, userId: int, now: int, id: int)
    requires WellFormed(t) && Consistent(t)
    ensures Consistent(MeetupController.DeleteStep(t, userId, now, id).after)
  {
    var o := MeetupController.DeleteStep(t, userId, now, id);
    if o.response.Ok? {
      forall x ensures FindMeetup(o.after.meetups, x) == if x == id then None else FindMeetup(t.meetups, x) {
        FindAfterRemove(t.meetups, o.after.meetups, id, x);
      }
    }
  }

  /** A successful join, repeated, is rejected as a duplicate and changes nothing. */
  lemma SecondJoinRejected(t: Tables, userId: int, now: int, body: SubscriptionController.SubscriptionBody)
    requires WellFormed(t)
    requires SubscriptionController.StoreStep(t, userId, now, body).response.Ok?
    ensures var after := SubscriptionController.StoreStep(t, userId, now, body).after;
      SubscriptionController.StoreStep(after, userId, now, body) == Outcome(Rejected(400, ALREADY_SUBSCRIBED), after)
  {
    var o := SubscriptionController.StoreStep(t, userId, now, body);
    var s := o.response.value;
    assert o.after.subscriptions[|t.subscriptions|] == s;
  }

  // Two meetups of organizer 1, at instants 100 and 200, user 2 subscribed to both.
  const ORGANIZED: seq<Meetup> := [
    Meetup(1, Some(1), 100, "a", "a", "a", None),
    Meetup(2, Some(1), 200, "b", "b", "b", None)]
  const BOTH_JOINED: Tables := Tables(ORGANIZED, 3, [Subscription(1, 2, 1), Subscription(2, 2, 2)], 3, [])

  /** The starting database of both examples satisfies every invariant. */
  lemma BothJoinedConsistent()
    ensures WellFormed(BOTH_JOINED) && Consistent(BOTH_JOINED)
  {
    assert FindMeetup(ORGANIZED, 1) == Some(ORGANIZED[0]);
    assert FindMeetup(ORGANIZED, 2) == Some(ORGANIZED[1]);
    var ss := BOTH_JOINED.subscriptions;
    assert !SameInstant(ORGANIZED, ss[0].meetupId, ss[1].meetupId);
    assert !OwnMeetup(ORGANIZED, ss[0]) && !OwnMeetup(ORGANIZED, ss[1]);
  }

  /** `update` does not look at subscriptions: moving meetup 2 to meetup 1's
      instant leaves user 2 subscribed to two meetups at one instant. */
  lemma UpdateCanBreakSameInstant()
    ensures WellFormed(BOTH_JOINED) && Consistent(BOTH_JOINED)
    ensures var body := MeetupController.MeetupBody(Absent, Absent, Absent, Absent, Absent, Given(100));
      var o := MeetupController.UpdateStep(BOTH_JOINED, 1, 0, 2, body);
      o.response.Ok? && !NoSameInstantSubscriptions(o.after)
  {
    var body := MeetupController.MeetupBody(Absent, Absent, Absent, Absent, Absent, Given(100));
    var o := MeetupController.UpdateStep(BOTH_JOINED, 1, 0, 2, body);
    BothJoinedConsistent();
    assert o.after.meetups == [ORGANIZED[0], ORGANIZED[1].(date := 100)];
    assert FindMeetup(o.after.meetups, 1).value.date == 100;
    assert FindMeetup(o.after.meetups, 2).value.date == 100;
    var ss := o.after.subscriptions;
    assert ss[0].userId == ss[1].userId && ss[0].meetupId == 1 && ss[1].meetupId == 2;
    assert SameInstant(o.after.meetups, ss[0].meetupId, ss[1].meetupId);
  }

  /** `update` accepts a `user_id`: handing meetup 1 to user 2 makes user 2 a
      subscriber of their own meetup. */
  lemma UpdateCanBreakOwnMeetup()
    ensures WellFormed(BOTH_JOINED) && Consistent(BOTH_JOINED)
    ensures var body := MeetupController.MeetupBody(Absent, Absent, Absent, Absent, Given(2), Absent);
      var o := MeetupController.UpdateStep(BOTH_JOINED, 1, 0, 1, body);
      o.response.Ok? && !NoOwnMeetupSubscriptions(o.after)
  {
    var body := MeetupController.MeetupBody(Absent, Absent, Absent, Absent, Given(2), Absent);
    var o := MeetupController.UpdateStep(BOTH_JOINED, 1, 0, 1, body);
    BothJoinedConsistent();
    assert o.after.meetups == [ORGANIZED[0].(userId := Some(2)), ORGANIZED[1]];
    assert FindMeetup(o.after.meetups, 1).value.userId == Some(2);
    assert OwnMeetup(o.after.meetups, o.after.subscriptions[0]);
  }
}
