/** The rows of the three persistent stores the controllers touch (meetups,
    subscriptions and the mail job queue), the responses a controller
    action produces, and the integrity and business invariants over them. */
module Records {
  import Clock

  datatype Option<T> = None | Some(value: T)

  /** One field of a request body as the validation schema sees it: missing,
      present with a value of the declared type, or present but of a value
      the schema refuses. */
  datatype Field<T> = Absent | Given(value: T) | Malformed

  /** A row of the meetups table. `userId` is the organizer and `bannerId` the
      banner file; both are nullable columns. `date` is in milliseconds. */
  datatype Meetup = Meetup(
    id: nat,
    userId: Option<int>,
    date: int,
    title: string,
    description: string,
    location: string,
    bannerId: Option<int>)

  /** A row of the subscriptions table: the subscriber and the meetup. */
  datatype Subscription = Subscription(id: nat, userId: int, meetupId: int)

  /** A job on the mail queue: its key and the payload's meetup. */
  datatype Job = Job(key: string, meetup: Meetup)

  const SUBSCRIPTION_MAIL_KEY: string := "SubscriptionMail"

  /** The database: the two tables in insertion order, their auto-increment
      counters, and the job queue. */
  datatype Tables = Tables(
    meetups: seq<Meetup>,
    nextMeetupId: nat,
    subscriptions: seq<Subscription>,
    nextSubscriptionId: nat,
    queue: seq<Job>)

  /** What a controller action does with the request: answers with a record,
      answers with an error status and message, or throws before answering
      (a property read on a missing record, or a query for a page below 1,
      whose offset is negative). */
  datatype Response<T> = Ok(value: T) | Rejected(status: int, message: string) | Thrown

  /** The response together with the database after the action. */
  datatype Outcome<T> = Outcome(response: Response<T>, after: Tables)

  // Response messages, as the controllers send them.
  const VALIDATION_FAILS: string := "Validation fails."
  const PAST_DATES: string := "Past dates are not permitted."
  const DATE_NOT_AVAILABLE: string := "Meetup date is not available."
  const NO_EDIT_PERMISSION: string := "You don't have permission to edit this meetup."
  const EDIT_PAST: string := "You can only edit meetups that have not yet happened."
  const DATE_INVALID: string := "Meetup date invalid"
  const NO_DELETE_PERMISSION: string := "You don't have permission to delete this meetup."
  const DELETE_PAST: string := "You can only delete meetups that have not yet happened."
  const SUBSCRIBE_PAST: string := "You can only subscription in meetups that have not yet happened."
  const OWN_OR_MISSING: string := "Unable to join own meetup or meetup does not exist."
  const ALREADY_SUBSCRIBED: string := "You are already subscribed to this meetup."
  const SAME_TIME: string := "You are already subscribed to a meetup that happens at the same time."

  /** The virtual `past` attribute of a meetup. */
  predicate Past(m: Meetup, now: int): (past: bool)
    ensures past <==> Clock.IsBefore(m.date, now)
  {
    m.date < now
  }

  /** Position of the first meetup with primary key `id`, or -1. */
  function IndexOfMeetup(ms: seq<Meetup>, id: int): (i: int)
    ensures -1 <= i < |ms|
    ensures 0 <= i ==> ms[i].id == id && forall k :: 0 <= k < i ==> ms[k].id != id
    ensures i < 0 ==> forall k :: 0 <= k < |ms| ==> ms[k].id != id
  {
    if ms == [] then -1
    else if ms[0].id == id then 0
    else
      var j := IndexOfMeetup(ms[1..], id);
      if j < 0 then -1 else j + 1
  }

  /** `Meetup.findByPk(id)` / `Meetup.findOne({ where: { id } })`. */
  function FindMeetup(ms: seq<Meetup>, id: int): (r: Option<Meetup>)
    ensures r.Some? ==> r.value in ms && r.value.id == id
    ensures r.None? ==> forall m :: m in ms ==> m.id != id
  {
    var i := IndexOfMeetup(ms, id);
    if i < 0 then None else Some(ms[i])
  }

  predicate UniqueMeetupIds(ms: seq<Meetup>) {
    forall i, j :: 0 <= i < j < |ms| ==> ms[i].id != ms[j].id
  }

  predicate UniqueSubscriptionIds(ss: seq<Subscription>) {
    forall i, j :: 0 <= i < j < |ss| ==> ss[i].id != ss[j].id
  }

  /** Integrity of the database: primary keys are unique and below their
      auto-increment counter, and no subscription points at a meetup id the
      counter has not handed out yet. */
  predicate WellFormed(t: Tables) {
    && UniqueMeetupIds(t.meetups)
    && (forall i :: 0 <= i < |t.meetups| ==> t.meetups[i].id < t.nextMeetupId)
    && UniqueSubscriptionIds(t.subscriptions)
    && (forall i :: 0 <= i < |t.subscriptions| ==>
          t.subscriptions[i].id < t.nextSubscriptionId && t.subscriptions[i].meetupId < t.nextMeetupId)
  }

  /** With unique ids, the row `FindMeetup` returns is the only row with that id. */
  lemma FindMeetupUnique(ms: seq<Meetup>, id: int, m: Meetup)
    requires UniqueMeetupIds(ms)
    ensures FindMeetup(ms, id) == Some(m) <==> m in ms && m.id == id
  {
    if m in ms && m.id == id {
      var k :| 0 <= k < |ms| && ms[k] == m;
      var i := IndexOfMeetup(ms, id);
      assert 0 <= i;
      assert i == k;
    }
  }

  // ---- Business invariants over subscriptions ----

  /** No user is subscribed twice to one meetup. */
  predicate NoDuplicateSubscriptions(t: Tables) {
    forall i, j :: 0 <= i < j < |t.subscriptions| ==>
      !(t.subscriptions[i].userId == t.subscriptions[j].userId &&
        t.subscriptions[i].meetupId == t.subscriptions[j].meetupId)
  }

  /** Both meetup ids name existing meetups, at the same instant. */
  predicate SameInstant(ms: seq<Meetup>, a: int, b: int) {
    var ma := FindMeetup(ms, a);
    var mb := FindMeetup(ms, b);
    ma.Some? && mb.Some? && ma.value.date == mb.value.date
  }

  /** No user holds two subscriptions to meetups at the same instant. */
  predicate NoSameInstantSubscriptions(t: Tables) {
    forall i, j :: 0 <= i < j < |t.subscriptions| && t.subscriptions[i].userId == t.subscriptions[j].userId ==>
      !SameInstant(t.meetups, t.subscriptions[i].meetupId, t.subscriptions[j].meetupId)
  }

  /** The subscription's meetup exists and is organized by the subscriber. */
  predicate OwnMeetup(ms: seq<Meetup>, s: Subscription) {
    var m := FindMeetup(ms, s.meetupId);
    m.Some? && m.value.userId == Some(s.userId)
  }

  /** Nobody is subscribed to a meetup they organize. */
  predicate NoOwnMeetupSubscriptions(t: Tables) {
    forall i :: 0 <= i < |t.subscriptions| ==> !OwnMeetup(t.meetups, t.subscriptions[i])
  }

  /** The three subscription rules together. */
  predicate Consistent(t: Tables) {
    NoDuplicateSubscriptions(t) && NoSameInstantSubscriptions(t) && NoOwnMeetupSubscriptions(t)
  }
}
