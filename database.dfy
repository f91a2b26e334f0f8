/** The persistent state both controllers read and write, held in one object:
    the meetups and subscriptions tables with their auto-increment counters,
    and the mail job queue. */
module Database {
  import opened Records

  class Db {
    var meetups: seq<Meetup>
    var nextMeetupId: nat
    var subscriptions: seq<Subscription>
    var nextSubscriptionId: nat
    var queue: seq<Job>

    /** The database's current contents as a value. */
    function Snapshot(): Tables
      reads this
    {
      Tables(meetups, nextMeetupId, subscriptions, nextSubscriptionId, queue)
    }

    predicate Valid()
      reads this
    {
      WellFormed(Snapshot())
    }

    /** A fresh database: empty tables, counters at 1, empty queue. */
    constructor ()
      ensures Valid()
      ensures Snapshot() == Tables([], 1, [], 1, [])
    {
      meetups, nextMeetupId := [], 1;
      subscriptions, nextSubscriptionId := [], 1;
      queue := [];
    }

    /** A database that already holds the given rows. */
    constructor Load(t: Tables)
      requires WellFormed(t)
      ensures Valid()
      ensures Snapshot() == t
    {
      meetups, nextMeetupId := t.meetups, t.nextMeetupId;
      subscriptions, nextSubscriptionId := t.subscriptions, t.nextSubscriptionId;
      queue := t.queue;
    }
  }
}
