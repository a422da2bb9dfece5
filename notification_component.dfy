/**
 * The renotification scheduler of Icinga 2's `NotificationComponent`.
 *
 * The component keeps two `NotificationSet` tables (module ScheduleTable):
 * `idle`, the notifications waiting for their next renotification time, and
 * `pending`, the notifications whose reminder has been handed to asynchronous
 * execution. Three handlers move entries between them; each one is modelled
 * as a single atomic step of a `NotificationComponent` object. The scheduler
 * loop and `SendMessageHelper` hold the component's mutex while they touch
 * the tables; `StateChangeHandler` takes no lock, so treating it as atomic
 * is a simplification of the model.
 *
 * Sends are not performed: every send the component starts is appended to
 * `sent` as a `SendRequest`. Time is an integer supplied by the caller.
 */
module Notifications {
  import opened ScheduleTable

  /**
   * A notification object. It belongs to the configuration, not to the
   * component, which only reads its next notification time and whether it
   * is still active. Its identity is the reference itself.
   */
  class Notification {
    var nextNotification: int
    var active: bool

    constructor (nextNotification: int, active: bool)
      ensures this.nextNotification == nextNotification && this.active == active
    {
      this.nextNotification := nextNotification;
      this.active := active;
    }
  }

  datatype StateType = StateTypeSoft | StateTypeHard

  /** The two notification types this component raises. */
  datatype NotificationType = NotificationProblem | NotificationRecovery

  /** A call of `BeginExecuteNotification(type, ..., reminder)` for `notification`. */
  datatype SendRequest = SendRequest(notification: Notification, ntype: NotificationType, reminder: bool)

  /** What one pass of the scheduler loop did. */
  datatype StepOutcome =
    | Stopped                                // the loop breaks
    | WaitingForEntries                      // idle table empty: wait for a signal
    | WaitingUntil(due: int)                 // earliest entry not due: timed wait
    | Dispatched(notification: Notification) // earliest entry handed to a reminder send

  /** `GetNotificationScheduleInfo`: a value snapshot of the notification's schedule. */
  function ScheduleInfo(n: Notification): (e: Entry<Notification>)
    reads n
    ensures e.obj == n && e.nextMessage == n.nextNotification
  {
    Entry(n, n.nextNotification)
  }

  /** The type of the immediate notification for a hard change into `state`. */
  function Classify(state: int): (t: NotificationType)
    ensures t == NotificationRecovery <==> state == 0
  {
    if state == 0 then NotificationRecovery else NotificationProblem
  }

  /** The immediate sends of a hard state change: one per notification, in order. */
  function ImmediateSends(ns: seq<Notification>, ntype: NotificationType): (r: seq<SendRequest>)
    ensures |r| == |ns|
    ensures forall q :: q in r ==> q.notification in ns && q.ntype == ntype && !q.reminder
  {
    seq(|ns|, k requires 0 <= k < |ns| => SendRequest(ns[k], ntype, false))
  }

  /** One more notification in the loop adds exactly its own send at the end of the log. */
  lemma ImmediateSendsSnoc(ns: seq<Notification>, i: nat, ntype: NotificationType)
    requires i < |ns|
    ensures ImmediateSends(ns[..i + 1], ntype) == ImmediateSends(ns[..i], ntype) + [SendRequest(ns[i], ntype, false)]
  {
  }

  /** A fresh snapshot of each of `ns`, in order. */
  function Snapshots(ns: seq<Notification>): (r: seq<Entry<Notification>>)
    reads ns
    ensures |r| == |ns|
    ensures forall k :: 0 <= k < |ns| ==> r[k] == ScheduleInfo(ns[k])
  {
    if ns == [] then [] else [ScheduleInfo(ns[0])] + Snapshots(ns[1..])
  }

  /** The idle table after the renotification inserts of a Problem change on `ns`. */
  function QueueRenotifications(idle: seq<Entry<Notification>>, ns: seq<Notification>): seq<Entry<Notification>>
    reads ns
  {
    InsertAll(idle, Snapshots(ns))
  }

  /**
   * What queueing renotifications does to the idle table: it stays
   * well-formed, afterwards exactly the previously idle notifications and the
   * queued ones are idle, no idle snapshot is replaced, and a queued
   * notification that was not idle before is idle with a fresh snapshot.
   */
  lemma QueueRenotificationsEffect(idle: seq<Entry<Notification>>, ns: seq<Notification>)
    requires WellFormed(idle)
    ensures WellFormed(QueueRenotifications(idle, ns))
    ensures Objects(QueueRenotifications(idle, ns)) == Objects(idle) + set n | n in ns
    ensures forall x :: x in idle ==> x in QueueRenotifications(idle, ns)
    ensures forall n :: n in ns && !Contains(idle, n) ==>
      Find(QueueRenotifications(idle, ns), n) == Some(ScheduleInfo(n))
  {
    var snapshots := Snapshots(ns);
    var q := InsertAll(idle, snapshots);
    InsertAllWellFormed(idle, snapshots);
    InsertAllObjects(idle, snapshots);
    assert (set e | e in snapshots :: e.obj) == set n | n in ns by {
      forall n | n in ns ensures n in set e | e in snapshots :: e.obj {
        var k :| 0 <= k < |ns| && ns[k] == n;
        assert snapshots[k] in snapshots;
      }
    }
    forall x | x in idle ensures x in q {
      InsertAllKeeps(idle, snapshots, x);
    }
    forall n | n in ns && !Contains(idle, n) ensures Find(q, n) == Some(ScheduleInfo(n)) {
      var found := Find(q, n);
      InsertAllAdds(idle, snapshots, found.value);
      if found.value in idle {
        ObjectsOfMember(idle, found.value);
      }
      var k :| 0 <= k < |snapshots| && snapshots[k] == found.value;
    }
  }

  /** The scheduler state of one `NotificationComponent`. */
  class NotificationComponent {
    /** `m_IdleNotifications`, in the order of its time view. */
    var idle: seq<Entry<Notification>>
    /** `m_PendingNotifications`. */
    var pending: seq<Entry<Notification>>
    /** Every send the component has started, oldest first. */
    var sent: seq<SendRequest>
    /** `m_Stopped`; nothing in the component changes it. */
    var stopped: bool

    ghost predicate Valid()
      reads this
    {
      WellFormed(idle) && WellFormed(pending)
    }

    constructor (stopped: bool)
      ensures Valid()
      ensures idle == [] && pending == [] && sent == [] && this.stopped == stopped
    {
      idle, pending, sent := [], [], [];
      this.stopped := stopped;
    }

    /**
     * `StateChangeHandler`: a soft change is ignored. A hard change sends one
     * immediate notification per attached notification, of type Recovery when
     * the new state is 0 and Problem otherwise, and on a Problem queues a
     * snapshot of each for renotification.
     */
    method StateChangeHandler(notifications: seq<Notification>, state: int, stateType: StateType)
      requires Valid()
      modifies this
      ensures Valid()
      ensures pending == old(pending) && stopped == old(stopped)
      ensures stateType != StateTypeHard ==> idle == old(idle) && sent == old(sent)
      ensures stateType == StateTypeHard ==>
        sent == old(sent) + ImmediateSends(notifications, Classify(state))
      ensures stateType == StateTypeHard && state == 0 ==> idle == old(idle)
      ensures stateType == StateTypeHard && state != 0 ==>
        idle == old(QueueRenotifications(idle, notifications))
    {
      if stateType != StateTypeHard {
        return;
      }
      var ntype := Classify(state);
      ghost var idle0, sent0 := idle, sent;
      ghost var snapshots := Snapshots(notifications);
      ghost var queued := InsertAll(idle0, snapshots);
      for i := 0 to |notifications|
        invariant pending == old(pending) && stopped == old(stopped)
        invariant sent == sent0 + ImmediateSends(notifications[..i], ntype)
        invariant ntype == NotificationRecovery ==> idle == idle0
        invariant ntype != NotificationRecovery ==> InsertAll(idle, snapshots[i..]) == queued
      {
        var notification := notifications[i];
        ImmediateSendsSnoc(notifications, i, ntype);
        sent := sent + [SendRequest(notification, ntype, false)];
        if ntype != NotificationRecovery {
          var nsi := ScheduleInfo(notification);
          assert nsi == snapshots[i];
          InsertAllCons(idle, snapshots, i);
          idle := Insert(idle, nsi);
        }
      }
      assert notifications[..|notifications|] == notifications;
      if ntype == NotificationProblem {
        InsertAllWellFormed(idle0, snapshots);
      }
    }

    /**
     * One pass of `NotificationThreadProc`'s loop: stop if stopped, wait if
     * nothing is idle or the earliest idle entry is not yet due; otherwise
     * move the earliest entry, as a fresh snapshot, from idle to pending and
     * start a reminder send of type Problem for it.
     */
    method NotificationThreadStep(now: int) returns (outcome: StepOutcome)
      requires Valid()
      modifies this
      ensures Valid() && stopped == old(stopped)
      ensures old(stopped) ==> outcome == Stopped
      ensures !old(stopped) && old(idle) == [] ==> outcome == WaitingForEntries
      ensures !old(stopped) && old(idle) != [] && now < Earliest(old(idle)).nextMessage ==>
        outcome == WaitingUntil(Earliest(old(idle)).nextMessage)
      ensures !old(stopped) && old(idle) != [] && Earliest(old(idle)).nextMessage <= now ==>
        outcome == Dispatched(Earliest(old(idle)).obj)
      ensures !outcome.Dispatched? ==> idle == old(idle) && pending == old(pending) && sent == old(sent)
      ensures outcome.Dispatched? ==>
        && !old(stopped) && old(idle) != []
        && var first := Earliest(old(idle));
        && var n := outcome.notification;
        && first.obj == n && first.nextMessage <= now
        && idle == Erase(old(idle), n)
        && idle == old(idle)[1..]
        && pending == Insert(old(pending), ScheduleInfo(n))
        && sent == old(sent) + [SendRequest(n, NotificationProblem, true)]
      ensures outcome.Dispatched? ==>
        && !Contains(idle, outcome.notification)
        && |idle| == |old(idle)| - 1
        && (forall x :: x in idle ==> x in old(idle))
        && (forall x :: x in old(idle) && x.obj != outcome.notification ==> x in idle)
    {
      if stopped {
        return Stopped;
      }
      if idle == [] {
        return WaitingForEntries;
      }
      var nsi := Earliest(idle);
      var wait := nsi.nextMessage - now;
      if wait > 0 {
        return WaitingUntil(nsi.nextMessage);
      }
      var notification := nsi.obj;
      ghost var before := idle;
      idle := Erase(idle, notification);
      EraseWellFormed(before, notification);
      EraseFirst(before);
      assert before == [before[0]] + idle;
      nsi := ScheduleInfo(notification);
      InsertWellFormed(pending, nsi);
      pending := Insert(pending, nsi);
      sent := sent + [SendRequest(notification, NotificationProblem, true)];
      outcome := Dispatched(notification);
    }

    /**
     * The bookkeeping of `SendMessageHelper` once its send has been started:
     * only a pending notification is acted on. It leaves pending, and returns
     * to idle as a fresh snapshot only if it is still active.
     */
    method SendMessageHelper(notification: Notification)
      requires Valid()
      modifies this
      ensures Valid() && stopped == old(stopped) && sent == old(sent)
      ensures !Contains(old(pending), notification) ==> idle == old(idle) && pending == old(pending)
      ensures Contains(old(pending), notification) ==>
        && pending == Erase(old(pending), notification)
        && !Contains(pending, notification)
        && |pending| == |old(pending)| - 1
        && idle == (if notification.active then Insert(old(idle), ScheduleInfo(notification)) else old(idle))
        && (notification.active ==> Contains(idle, notification))
    {
      var it := Find(pending, notification);
      if it.Some? {
        EraseFound(pending, notification);
        EraseWellFormed(pending, notification);
        pending := Erase(pending, notification);
        if notification.active {
          InsertWellFormed(idle, ScheduleInfo(notification));
          idle := Insert(idle, ScheduleInfo(notification));
        }
      }
    }
  }
}
