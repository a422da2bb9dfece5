/**
 * Runs of the scheduler, written as methods whose assertions the
 * verifier must establish from the step contracts alone.
 */
module Scenarios {
  import opened ScheduleTable
  import opened Notifications

  /** Queueing one notification into an empty idle table gives just its snapshot. */
  lemma QueueIntoEmpty(n: Notification)
    ensures QueueRenotifications([], [n]) == [Entry(n, n.nextNotification)]
  {
    assert Snapshots([n]) == [Entry(n, n.nextNotification)];
    assert Insert([], Entry(n, n.nextNotification)) == [Entry(n, n.nextNotification)];
    assert InsertAll([Entry(n, n.nextNotification)], []) == [Entry(n, n.nextNotification)];
  }

  /** A soft change is ignored; a hard Problem change sends once and queues a renotification. */
  method ProblemQueued() returns (n: Notification, c: NotificationComponent)
    ensures fresh(n) && fresh(c) && c.Valid() && !c.stopped
    ensures n.active && n.nextNotification == 100
    ensures c.idle == [Entry(n, 100)] && c.pending == []
    ensures c.sent == [SendRequest(n, NotificationProblem, false)]
  {
    n := new Notification(100, true);
    c := new NotificationComponent(false);
    c.StateChangeHandler([n], 2, StateTypeSoft);
    assert c.idle == [] && c.sent == [];
    QueueIntoEmpty(n);
    c.StateChangeHandler([n], 2, StateTypeHard);
  }

  /**
   * A pass before the renotification time waits; a pass at its time
   * dispatches a reminder with the notification's current time, and the
   * completion puts it back into idle.
   */
  method RenotificationCycle() {
    var n, c := ProblemQueued();
    var o := c.NotificationThreadStep(50);
    assert o == WaitingUntil(100);
    n.nextNotification := 400;
    o := c.NotificationThreadStep(100);
    assert o == Dispatched(n);
    assert c.idle == [] && c.pending == [Entry(n, 400)];
    assert c.sent == [SendRequest(n, NotificationProblem, false), SendRequest(n, NotificationProblem, true)];
    c.SendMessageHelper(n);
    assert c.pending == [] && c.idle == [Entry(n, 400)];
  }

  /** A hard Problem change and the dispatch of its reminder. */
  method FirstDispatch() returns (n: Notification, c: NotificationComponent)
    ensures fresh(n) && fresh(c) && c.Valid() && !c.stopped
    ensures n.active && n.nextNotification == 10
    ensures c.idle == [] && c.pending == [Entry(n, 10)]
    ensures c.sent == [SendRequest(n, NotificationProblem, false), SendRequest(n, NotificationProblem, true)]
  {
    n := new Notification(10, true);
    c := new NotificationComponent(false);
    QueueIntoEmpty(n);
    c.StateChangeHandler([n], 1, StateTypeHard);
    var o := c.NotificationThreadStep(10);
    assert o == Dispatched(n);
  }

  /**
   * A Problem change for a notification whose reminder is still pending puts
   * it into idle while it is pending: the two tables are not disjoint.
   */
  method IdleAndPendingOverlap() returns (n: Notification, c: NotificationComponent)
    ensures fresh(n) && fresh(c) && c.Valid() && !c.stopped
    ensures n.active && n.nextNotification == 20
    ensures c.idle == [Entry(n, 20)] && c.pending == [Entry(n, 10)]
    ensures Contains(c.idle, n) && Contains(c.pending, n)
    ensures c.sent == [SendRequest(n, NotificationProblem, false), SendRequest(n, NotificationProblem, true),
                       SendRequest(n, NotificationProblem, false)]
  {
    n, c := FirstDispatch();
    n.nextNotification := 20;
    QueueIntoEmpty(n);
    c.StateChangeHandler([n], 1, StateTypeHard);
  }

  /**
   * From the overlap, the scheduler dispatches the notification a second
   * time and logs a second reminder, while pending keeps the older snapshot.
   * Of the two completions this queues, the first re-queues the notification
   * and the second finds it no longer pending and changes nothing.
   */
  method DoubleDispatch() {
    var n, c := IdleAndPendingOverlap();
    var o := c.NotificationThreadStep(20);
    assert o == Dispatched(n);
    assert c.idle == [] && c.pending == [Entry(n, 10)];
    assert c.sent == [SendRequest(n, NotificationProblem, false), SendRequest(n, NotificationProblem, true),
                      SendRequest(n, NotificationProblem, false), SendRequest(n, NotificationProblem, true)];
    c.SendMessageHelper(n);
    assert c.pending == [] && c.idle == [Entry(n, 20)];
    c.SendMessageHelper(n);
    assert c.pending == [] && c.idle == [Entry(n, 20)];
  }

  /**
   * A hard change into state 0 sends a Recovery for every notification and
   * queues nothing; an inactive notification is not re-queued on completion.
   */
  method RecoveryAndInactive() {
    var a := new Notification(5, true);
    var b := new Notification(7, false);
    var c := new NotificationComponent(false);
    c.StateChangeHandler([a, b], 0, StateTypeHard);
    assert c.idle == [] && c.pending == [];
    assert c.sent == [SendRequest(a, NotificationRecovery, false), SendRequest(b, NotificationRecovery, false)];
    QueueIntoEmpty(b);
    c.StateChangeHandler([b], 3, StateTypeHard);
    assert c.idle == [Entry(b, 7)];
    var o := c.NotificationThreadStep(7);
    assert o == Dispatched(b);
    c.SendMessageHelper(b);
    assert c.idle == [] && c.pending == [];
    o := c.NotificationThreadStep(8);
    assert o == WaitingForEntries;
  }
}
