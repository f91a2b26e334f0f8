/** SubscriptionController: the requester's upcoming subscriptions (`index`)
    and joining a meetup (`store`), whose five ordered rejections protect the
    subscription rules of `Records.Consistent`. */
module SubscriptionController {
  import opened Ordering
  import opened Paging
  import opened Records
  import opened Database

  /** The request body of `store`: `meetupId`, a required number. */
  datatype SubscriptionBody = SubscriptionBody(meetupId: Field<int>)

  // ---------------------------------------------------------------- index

  /** A subscription with its meetup joined in (`include: [Meetup]`). */
  datatype Row = Row(subscription: Subscription, meetup: Meetup)

  /** The subscription belongs to `userId` and its meetup exists and is
      strictly after `now` (the inner join with `date > now`). */
  predicate Upcoming(ms: seq<Meetup>, userId: int, now: int, s: Subscription): (up: bool)
    ensures up ==> s.userId == userId && exists m :: m in ms && m.id == s.meetupId && m.date > now
  {
    s.userId == userId && FindMeetup(ms, s.meetupId).Some? && FindMeetup(ms, s.meetupId).value.date > now
  }

  /** The join, in table order: one row per upcoming subscription of `userId`. */
  function Joined(ss: seq<Subscription>, ms: seq<Meetup>, userId: int, now: int): (rows: seq<Row>)
    ensures forall k :: 0 <= k < |rows| ==>
      && rows[k].subscription in ss
      && Upcoming(ms, userId, now, rows[k].subscription)
      && FindMeetup(ms, rows[k].subscription.meetupId) == Some(rows[k].meetup)
    ensures forall s :: s in ss && Upcoming(ms, userId, now, s) ==>
      Row(s, FindMeetup(ms, s.meetupId).value) in rows
  {
    if ss == [] then []
    else
      var rest := Joined(ss[1..], ms, userId, now);
      assert forall s :: s in ss ==> s == ss[0] || s in ss[1..];
      if Upcoming(ms, userId, now, ss[0]) then [Row(ss[0], FindMeetup(ms, ss[0].meetupId).value)] + rest
      else rest
  }

  /** No two rows carry the same subscription id. */
  predicate UniqueRowSubscriptions(rows: seq<Row>) {
    forall j, k :: 0 <= j < k < |rows| ==> rows[j].subscription.id != rows[k].subscription.id
  }

  /** With unique subscription ids, the join lists each subscription once. */
  lemma {:induction false} JoinedListsEachOnce(ss: seq<Subscription>, ms: seq<Meetup>, userId: int, now: int)
    requires UniqueSubscriptionIds(ss)
    ensures UniqueRowSubscriptions(Joined(ss, ms, userId, now))
  {
    if ss != [] {
      var tail := ss[1..];
      assert UniqueSubscriptionIds(tail) by {
        forall i, j | 0 <= i < j < |tail| ensures tail[i].id != tail[j].id {
          assert tail[i] == ss[i + 1] && tail[j] == ss[j + 1];
        }
      }
      JoinedListsEachOnce(tail, ms, userId, now);
      var rest := Joined(tail, ms, userId, now);
      forall k | 0 <= k < |rest| ensures rest[k].subscription.id != ss[0].id {
        var i :| 0 <= i < |tail| && tail[i] == rest[k].subscription;
        assert ss[i + 1] == tail[i];
      }
      if Upcoming(ms, userId, now, ss[0]) {
        PrependKeepsUnique(Row(ss[0], FindMeetup(ms, ss[0].meetupId).value), rest);
      }
    }
  }

  lemma PrependKeepsUnique(r: Row, rest: seq<Row>)
    requires UniqueRowSubscriptions(rest)
    requires forall k :: 0 <= k < |rest| ==> rest[k].subscription.id != r.subscription.id
    ensures UniqueRowSubscriptions([r] + rest)
  {
    var rows := [r] + rest;
    forall j, k | 0 <= j < k < |rows| ensures rows[j].subscription.id != rows[k].subscription.id {
      assert rows[k] == rest[k - 1];
      if j > 0 {
        assert rows[j] == rest[j - 1];
      }
    }
  }

  /** `order: [[Meetup, 'date']]`, ties broken by the subscription id. */
  function RowKey(r: Row): Key {
    Key(r.meetup.date, r.subscription.id)
  }

  /** Rows offset .. offset + 9 of the joined rows ordered by meetup date. */
  function SortedPage(rows: seq<Row>, offset: nat): (page: seq<Row>)
    ensures |page| == PageLength(|rows|, offset)
    ensures forall k :: 0 <= k < |page| ==> page[k] == SortBy(rows, RowKey)[offset + k]
    ensures forall k :: 0 <= k < |page| ==> page[k] in rows
    ensures forall j, k :: 0 <= j < k < |page| ==> page[j].meetup.date <= page[k].meetup.date
  {
    var sorted := SortBy(rows, RowKey);
    assert |sorted| == |multiset(sorted)| == |rows|;
    var page := Slice(sorted, offset);
    forall k | 0 <= k < |page| ensures page[k] in rows {
      SortBySameRows(rows, RowKey, sorted[offset + k]);
    }
    forall j, k | 0 <= j < k < |page| ensures page[j].meetup.date <= page[k].meetup.date {
      assert KeyLe(RowKey(sorted[offset + j]), RowKey(sorted[offset + k]));
    }
    page
  }

  /** `index`: page `page` (default 1) of the requester's subscriptions whose
      meetup is still ahead, ordered by the meetup's date. A page below 1
      gives a negative offset and the query fails. */
  function Index(t: Tables, userId: int, now: int, page: PageParam): (r: Response<seq<Row>>)
    ensures r.Ok? <==> PageOf(page) >= 1
    ensures r.Thrown? <==> PageOf(page) < 1
    ensures r.Ok? ==>
      |r.value| == PageLength(|Joined(t.subscriptions, t.meetups, userId, now)|, Offset(PageOf(page)))
    ensures r.Ok? ==> forall k :: 0 <= k < |r.value| ==>
      && Offset(PageOf(page)) + k < |SortBy(Joined(t.subscriptions, t.meetups, userId, now), RowKey)|
      && r.value[k] == SortBy(Joined(t.subscriptions, t.meetups, userId, now), RowKey)[Offset(PageOf(page)) + k]
    ensures r.Ok? ==> forall k :: 0 <= k < |r.value| ==>
      && r.value[k].subscription in t.subscriptions
      && r.value[k].subscription.userId == userId
      && FindMeetup(t.meetups, r.value[k].subscription.meetupId) == Some(r.value[k].meetup)
      && r.value[k].meetup.date > now
    ensures r.Ok? ==> forall j, k :: 0 <= j < k < |r.value| ==> r.value[j].meetup.date <= r.value[k].meetup.date
  {
    var offset := Offset(PageOf(page));
    if offset < 0 then Thrown
    else
      var rows := Joined(t.subscriptions, t.meetups, userId, now);
      assert |SortBy(rows, RowKey)| == |multiset(rows)|;
      Ok(SortedPage(rows, offset))
  }

  /** Row j of page p is row Offset(p) + j of the sorted join. */
  lemma PageRow(t: Tables, userId: int, now: int, p: int, j: nat)
    requires p >= 1
    requires j < |Index(t, userId, now, PageNumber(p)).value|
    ensures Offset(p) + j < |SortBy(Joined(t.subscriptions, t.meetups, userId, now), RowKey)|
    ensures j < |Slice(SortBy(Joined(t.subscriptions, t.meetups, userId, now), RowKey), Offset(p))|
    ensures Index(t, userId, now, PageNumber(p)).value[j]
         == SortBy(Joined(t.subscriptions, t.meetups, userId, now), RowKey)[Offset(p) + j]
  {
    var rows := Joined(t.subscriptions, t.meetups, userId, now);
    var sorted := SortBy(rows, RowKey);
    assert |sorted| == |multiset(rows)| == |rows|;
    assert Index(t, userId, now, PageNumber(p)) == Ok(SortedPage(rows, Offset(p)));
    assert |Slice(sorted, Offset(p))| == PageLength(|rows|, Offset(p));
  }

  /** Pages follow each other in date order: every meetup on page p is no
      later than every meetup on a later page q. */
  lemma PagesInDateOrder(t: Tables, userId: int, now: int, p: int, q: int, j: nat, k: nat)
    requires 1 <= p < q
    requires j < |Index(t, userId, now, PageNumber(p)).value|
    requires k < |Index(t, userId, now, PageNumber(q)).value|
    ensures Index(t, userId, now, PageNumber(p)).value[j].meetup.date
         <= Index(t, userId, now, PageNumber(q)).value[k].meetup.date
  {
    var sorted := SortBy(Joined(t.subscriptions, t.meetups, userId, now), RowKey);
    PageRow(t, userId, now, p, j);
    PageRow(t, userId, now, q, k);
    PagesDisjoint(sorted, p, q, j, k);
    assert KeyLe(RowKey(sorted[Offset(p) + j]), RowKey(sorted[Offset(q) + k]));
  }

  /** With unique subscription ids, no subscription is listed on two pages. */
  lemma PagesShareNoSubscription(t: Tables, userId: int, now: int, p: int, q: int, j: nat, k: nat)
    requires UniqueSubscriptionIds(t.subscriptions)
    requires 1 <= p < q
    requires j < |Index(t, userId, now, PageNumber(p)).value|
    requires k < |Index(t, userId, now, PageNumber(q)).value|
    ensures Index(t, userId, now, PageNumber(p)).value[j].subscription.id
         != Index(t, userId, now, PageNumber(q)).value[k].subscription.id
  {
    PageRow(t, userId, now, p, j);
    PageRow(t, userId, now, q, k);
    JoinedListsEachOnce(t.subscriptions, t.meetups, userId, now);
    var rows := Joined(t.subscriptions, t.meetups, userId, now);
    var sorted := SortBy(rows, RowKey);
    SortKeepsRowsUnique(rows, sorted);
    PagesOfUniqueRows(sorted, p, q, j, k);
    var rp := Index(t, userId, now, PageNumber(p)).value[j];
    var rq := Index(t, userId, now, PageNumber(q)).value[k];
    assert rp == sorted[Offset(p) + j] && rq == sorted[Offset(q) + k];
  }

  /** Rows at different pages of a sequence that lists each subscription
      once carry different subscription ids. */
  lemma PagesOfUniqueRows(sorted: seq<Row>, p: int, q: int, j: nat, k: nat)
    requires UniqueRowSubscriptions(sorted)
    requires 1 <= p < q
    requires j < |Slice(sorted, Offset(p))| && k < |Slice(sorted, Offset(q))|
    ensures Offset(p) + j < Offset(q) + k < |sorted|
    ensures sorted[Offset(p) + j].subscription.id != sorted[Offset(q) + k].subscription.id
  {
    PagesDisjoint(sorted, p, q, j, k);
  }

  /** Sorting the join keeps it listing each subscription once. */
  lemma SortKeepsRowsUnique(rows: seq<Row>, sorted: seq<Row>)
    requires UniqueRowSubscriptions(rows)
    requires sorted == SortBy(rows, RowKey)
    ensures UniqueRowSubscriptions(sorted)
  {
    assert |sorted| == |multiset(rows)| == |rows|;
    forall a, b | 0 <= a < b < |sorted| ensures sorted[a].subscription.id != sorted[b].subscription.id {
      DistinctRowsDistinctIds(rows, sorted, a, b);
    }
  }

  /** Two positions of the sorted join hold different subscriptions, when the
      join lists each subscription id once. */
  lemma DistinctRowsDistinctIds(rows: seq<Row>, sorted: seq<Row>, a: nat, b: nat)
    requires UniqueRowSubscriptions(rows)
    requires sorted == SortBy(rows, RowKey)
    requires a < b < |sorted|
    ensures sorted[a].subscription.id != sorted[b].subscription.id
  {
    assert forall i, j :: 0 <= i < j < |rows| ==> rows[i] != rows[j];
    SortByNoRepeat(rows, RowKey, a, b);
    SortBySameRows(rows, RowKey, sorted[a]);
    SortBySameRows(rows, RowKey, sorted[b]);
    var i :| 0 <= i < |rows| && rows[i] == sorted[a];
    var j :| 0 <= j < |rows| && rows[j] == sorted[b];
    assert i != j;
  }

  /** Every upcoming subscription of the requester is listed on some page. */
  lemma IndexListsEveryUpcoming(t: Tables, userId: int, now: int, s: Subscription)
    requires s in t.subscriptions && Upcoming(t.meetups, userId, now, s)
    ensures exists page: int ::
      && page >= 1
      && Index(t, userId, now, PageNumber(page)).Ok?
      && Row(s, FindMeetup(t.meetups, s.meetupId).value) in Index(t, userId, now, PageNumber(page)).value
  {
    var rows := Joined(t.subscriptions, t.meetups, userId, now);
    var row := Row(s, FindMeetup(t.meetups, s.meetupId).value);
    var sorted := SortBy(rows, RowKey);
    SortBySameRows(rows, RowKey, row);
    var i :| 0 <= i < |sorted| && sorted[i] == row;
    EveryRowOnAPage(sorted, i);
    var page := i / PAGE_SIZE + 1;
    assert Index(t, userId, now, PageNumber(page)).value[i % PAGE_SIZE] == row;
  }

  // ---------------------------------------------------------------- store

  /** `userId` already holds a subscription to meetup `meetupId`. */
  predicate AlreadySubscribed(ss: seq<Subscription>, userId: int, meetupId: int): (found: bool)
    ensures found <==> exists s :: s in ss && s.meetupId == meetupId && s.userId == userId
  {
    exists i :: 0 <= i < |ss| && ss[i].meetupId == meetupId && ss[i].userId == userId
  }

  /** `userId` already holds a subscription to an existing meetup at `date`. */
  predicate HasSameInstant(t: Tables, userId: int, date: int): (clash: bool)
    ensures clash ==> exists s, m ::
      && s in t.subscriptions && m in t.meetups
      && s.userId == userId && s.meetupId == m.id && m.date == date
  {
    exists i :: 0 <= i < |t.subscriptions| && t.subscriptions[i].userId == userId &&
      FindMeetup(t.meetups, t.subscriptions[i].meetupId).Some? &&
      FindMeetup(t.meetups, t.subscriptions[i].meetupId).value.date == date
  }

  /** `store` as the controller runs it: validation; the meetup lookup, whose
      `date` is read before the missing-meetup test (so a missing meetup
      throws); past; own meetup; already subscribed; same instant; then
      `Subscription.create` and `Queue.add` of a SubscriptionMail job. */
  function StoreStep(t: Tables, userId: int, now: int, body: SubscriptionBody): (o: Outcome<Subscription>)
    requires WellFormed(t)
    ensures WellFormed(o.after)
    ensures !o.response.Ok? ==> o.after == t
    ensures !body.meetupId.Given? ==> o.response == Rejected(400, VALIDATION_FAILS)
    ensures body.meetupId.Given? && FindMeetup(t.meetups, body.meetupId.value).None? ==> o.response.Thrown?
    ensures body.meetupId.Given? && FindMeetup(t.meetups, body.meetupId.value).Some? ==>
      var m := FindMeetup(t.meetups, body.meetupId.value).value;
      && (Past(m, now) ==> o.response == Rejected(401, SUBSCRIBE_PAST))
      && (!Past(m, now) && m.userId == Some(userId) ==> o.response == Rejected(400, OWN_OR_MISSING))
      && (!Past(m, now) && m.userId != Some(userId) && AlreadySubscribed(t.subscriptions, userId, m.id) ==>
            o.response == Rejected(400, ALREADY_SUBSCRIBED))
      && ((!Past(m, now) && m.userId != Some(userId) && !AlreadySubscribed(t.subscriptions, userId, m.id)
           && HasSameInstant(t, userId, m.date)) ==> o.response == Rejected(400, SAME_TIME))
      && ((!Past(m, now) && m.userId != Some(userId) && !AlreadySubscribed(t.subscriptions, userId, m.id)
           && !HasSameInstant(t, userId, m.date)) ==> o.response.Ok?)
    ensures o.response.Ok? ==>
      var s := o.response.value;
      && body.meetupId.Given?
      && FindMeetup(t.meetups, body.meetupId.value).Some?
      && s == Subscription(t.nextSubscriptionId, userId, body.meetupId.value)
      && o.after == t.(subscriptions := t.subscriptions + [s],
                       nextSubscriptionId := t.nextSubscriptionId + 1,
                       queue := t.queue + [Job(SUBSCRIPTION_MAIL_KEY, FindMeetup(t.meetups, s.meetupId).value)])
  {
    if !body.meetupId.Given? then Outcome(Rejected(400, VALIDATION_FAILS), t)
    else
      var meetupId := body.meetupId.value;
      var found := FindMeetup(t.meetups, meetupId);
      if found.None? then Outcome(Thrown, t)
      else
        var m := found.value;
        if Past(m, now) then Outcome(Rejected(401, SUBSCRIBE_PAST), t)
        else if m.userId == Some(userId) then Outcome(Rejected(400, OWN_OR_MISSING), t)
        else if AlreadySubscribed(t.subscriptions, userId, meetupId) then Outcome(Rejected(400, ALREADY_SUBSCRIBED), t)
        else if HasSameInstant(t, userId, m.date) then Outcome(Rejected(400, SAME_TIME), t)
        else
          var s := Subscription(t.nextSubscriptionId, userId, meetupId);
          Outcome(Ok(s), t.(subscriptions := t.subscriptions + [s],
                            nextSubscriptionId := t.nextSubscriptionId + 1,
                            queue := t.queue + [Job(SUBSCRIPTION_MAIL_KEY, m)]))
  }

  /** `store` on the live database: runs the guards of `StoreStep`, which
      defines its response and new state, then appends the subscription and
      queues the mail job. */
  method Store(db: Db, userId: int, now: int, body: SubscriptionBody) returns (r: Response<Subscription>)
    requires db.Valid()
    modifies db
    ensures db.Valid()
    ensures Outcome(r, db.Snapshot()) == StoreStep(old(db.Snapshot()), userId, now, body)
  {
    if !body.meetupId.Given? {
      return Rejected(400, VALIDATION_FAILS);
    }
    var meetupId := body.meetupId.value;
    var found := FindMeetup(db.meetups, meetupId);
    if found.None? {
      return Thrown;
    }
    var m := found.value;
    if Past(m, now) {
      return Rejected(401, SUBSCRIBE_PAST);
    }
    if m.userId == Some(userId) {
      return Rejected(400, OWN_OR_MISSING);
    }
    if AlreadySubscribed(db.subscriptions, userId, meetupId) {
      return Rejected(400, ALREADY_SUBSCRIBED);
    }
    if HasSameInstant(db.Snapshot(), userId, m.date) {
      return Rejected(400, SAME_TIME);
    }
    var s := Subscription(db.nextSubscriptionId, userId, meetupId);
    db.subscriptions := db.subscriptions + [s];
    db.nextSubscriptionId := db.nextSubscriptionId + 1;
    db.queue := db.queue + [Job(SUBSCRIPTION_MAIL_KEY, m)];
    r := Ok(s);
  }
}
