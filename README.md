# Icinga 2 renotification scheduler, modelled in Dafny

This project models the core of Icinga 2's `NotificationComponent`
(`lib/notification/notificationcomponent.cpp`): the scheduler that sends an
immediate notification on every hard state change and queues hard problems
for later reminders. Its state is two `NotificationSet` tables of schedule
snapshots `(Object, NextMessage)`, plus a log of the sends it starts:

- `idle` (`m_IdleNotifications`): notifications waiting for their next
  reminder time;
- `pending` (`m_PendingNotifications`): notifications whose reminder has been
  handed to asynchronous execution and has not completed yet;
- `sent`: every `BeginExecuteNotification` request the component starts, as
  `(notification, type, reminder)`, in the order the handlers issue them. A
  reminder is logged when the scheduler dispatches it, so reminders appear in
  dispatch order, not in the order the asynchronous callbacks later make the
  call at `:121`.

Files:

- `schedule_table.dfy`, module `ScheduleTable`, models the `NotificationSet`
  multi-index container as a value. It is one sequence kept in ascending
  `nextMessage` order (the time view, index 1) that holds at most one entry
  per notification (the identity view, index 0). The identity view is also
  given as a map, `Index`. Lemmas show that on that map `Erase` is a map
  removal, and `Insert` is a map insert that leaves an existing key alone.
- `notification_component.dfy`, module `Notifications`, has:
  - the `Notification` object (identity, `nextNotification`, `active`);
  - `ScheduleInfo` (`GetNotificationScheduleInfo`);
  - the class `NotificationComponent`, with one method per handler. Each
    handler is one atomic step. The scheduler loop and `SendMessageHelper`
    hold `m_Mutex` while they change the tables (`:71`, `:123`), but
    `StateChangeHandler` takes no lock at all, so its atomicity is an
    assumption of the model (see "Left out"):
    - `StateChangeHandler`;
    - `NotificationThreadStep`, one pass of the `NotificationThreadProc` loop;
    - `SendMessageHelper`, its bookkeeping part.
- `scenarios.dfy`, module `Scenarios`, has concrete runs whose
  assertions follow from the step contracts alone:
  - a full renotification cycle;
  - a Recovery change and an inactive notification that is not re-queued;
  - a run in which one notification is in `idle` and `pending` at once
    (`IdleAndPendingOverlap`), continued in `DoubleDispatch`. There the
    notification is dispatched a second time and a second reminder is
    logged, while `pending` keeps the older snapshot. Of the two completions
    that follow, the second finds nothing pending and changes nothing.

Decisions the model makes explicit:

- **Inserting a notification that is already present keeps the existing entry.**
  The container is declared in a header that is not part of this model. A
  unique-key multi-index `insert` refuses a duplicate, so the model does the
  same: `Insert` returns the table unchanged. This means a hard Problem change
  for an idle notification keeps its older snapshot. The model does not
  replace the stale entry on insert, because the container's unique-key
  insert does not.
- **Order among equal times.** A new entry goes after existing entries with
  the same `nextMessage` (ordered non-unique insert).
- **`idle` and `pending` can overlap.**
  - `StateChangeHandler` inserts into `idle` without looking at `pending`.
  - So a notification can be in both tables at once:
    `Scenarios.IdleAndPendingOverlap` reaches that state, and
    `Scenarios.DoubleDispatch` shows the second reminder it leads to.
  - The two tables are therefore not disjoint in general, and the model does
    not assume they are.
- **Time is an integer.** An entry is due when `nextMessage <= now`. This is
  the source's `wait = NextMessage - now; if (wait > 0)` test.
- **`m_Stopped` is an input.** It is a constructor parameter that nothing in
  the component changes.
- **Where sends are logged.**
  - The send at `:56` is logged by `StateChangeHandler` as a non-reminder
    request.
  - The reminder queued at `:110` is logged by `NotificationThreadStep` when
    it dispatches, as `(notification, Problem, reminder = true)`. That log
    entry stands for the `BeginExecuteNotification` that the queued
    `SendMessageHelper` performs at `:121`.
  - `SendMessageHelper` therefore models only what follows the send: the
    `pending` / `idle` bookkeeping.

## Model

| member | source | states |
|---|---|---|
| ScheduleTable.Find | lib/notification/notificationcomponent.cpp:124-126 | the lookup finds an entry exactly when the notification is in the table, and the entry found is a member of the table for that notification |
| ScheduleTable.FindMember | lib/notification/notificationcomponent.cpp:124 | in a table with unique objects, looking up the object of any member yields that very member |
| ScheduleTable.IndexAgreesWithFind | lib/notification/notificationcomponent.cpp:124 | the identity view as a map has a key exactly for the notifications in the table, and maps each one to the time of the entry the lookup finds |
| ScheduleTable.Earliest | lib/notification/notificationcomponent.cpp:74-83 | `begin()` of the time view of a non-empty table is a member whose time is no later than any other entry's |
| ScheduleTable.InsertOrdered | lib/notification/notificationcomponent.cpp:60 | the time-ordered insert adds exactly the new entry: the result is the old contents plus that entry, as a multiset. Its position is fixed by `InsertOrderedAfterEqual` and `InsertOrderedBeforeLater` |
| ScheduleTable.InsertOrderedAfterEqual | lib/notification/notificationcomponent.cpp:60 | in a sorted table every entry due no later than the new one keeps its position, so the new entry goes after all entries with an equal time; on a tie the older entry stays the earliest |
| ScheduleTable.InsertOrderedBeforeLater | lib/notification/notificationcomponent.cpp:60 | in a sorted table every entry due strictly later than the new one moves one place down, so the new entry goes before all of them |
| ScheduleTable.InsertOrderedSorted | lib/notification/notificationcomponent.cpp:74-75 | the time-ordered insert keeps the time view ascending |
| ScheduleTable.Insert | lib/notification/notificationcomponent.cpp:60 | after an insert the table holds the old notifications plus the new one. If the notification was already present the table is unchanged; otherwise exactly the new entry is added |
| ScheduleTable.InsertWellFormed | lib/notification/notificationcomponent.cpp:60 | an insert keeps a well-formed table sorted by time and unique by notification |
| ScheduleTable.InsertMembers | lib/notification/notificationcomponent.cpp:106 | an entry is in the table after an insert iff it was there before, or it is the inserted entry and its notification was absent |
| ScheduleTable.IndexOfInsert | lib/notification/notificationcomponent.cpp:130 | on the identity view an insert is a map insert that leaves an existing key alone |
| ScheduleTable.InsertAllObjects | lib/notification/notificationcomponent.cpp:49-62 | inserting a sequence of snapshots leaves exactly the old notifications plus those of the snapshots in the table |
| ScheduleTable.InsertAllKeeps | lib/notification/notificationcomponent.cpp:60 | no entry present before a run of inserts is replaced or lost |
| ScheduleTable.InsertAllAdds | lib/notification/notificationcomponent.cpp:60 | every entry after a run of inserts was either present before or is one of the inserted snapshots |
| ScheduleTable.InsertAllWellFormed | lib/notification/notificationcomponent.cpp:49-62 | a run of inserts keeps the table sorted by time and unique by notification |
| ScheduleTable.Erase | lib/notification/notificationcomponent.cpp:94 | erasing by identity removes exactly that notification from the set of notifications present, and only removes entries |
| ScheduleTable.EraseMembers | lib/notification/notificationcomponent.cpp:94 | an entry remains after erasing a notification iff it was present and belongs to a different notification |
| ScheduleTable.EraseAbsent | lib/notification/notificationcomponent.cpp:94 | erasing a notification that is not present leaves the table unchanged |
| ScheduleTable.EraseWellFormed | lib/notification/notificationcomponent.cpp:94 | erasing keeps the table sorted by time and unique by notification |
| ScheduleTable.EraseFound | lib/notification/notificationcomponent.cpp:124-127 | erasing a present notification from a table with unique objects removes exactly the entry the lookup finds, and the table shrinks by one |
| ScheduleTable.EraseAt | lib/notification/notificationcomponent.cpp:94 | erasing the notification of position `k` removes exactly that position from the time view; every other entry keeps its place and its order relative to the others, ties included |
| ScheduleTable.EraseFirst | lib/notification/notificationcomponent.cpp:93-94 | erasing the notification of the earliest entry leaves exactly the rest of the time view, in order |
| ScheduleTable.IndexOfErase | lib/notification/notificationcomponent.cpp:94 | on the identity view an erase is a map removal of that key |
| ScheduleTable.EraseInsertRoundTrip | lib/notification/notificationcomponent.cpp:60 | container law for the idle table's insert (`:60`) and erase (`:94`): inserting a notification that is absent and then erasing it gives back the original table |
| ScheduleTable.EraseThenInsertSameEntry | lib/notification/notificationcomponent.cpp:94 | container law only, not a path of the component (which re-inserts a fresh snapshot at `:130`, not the erased one): erasing a member's notification and inserting the same entry again gives back the same contents |
| ScheduleTable.EraseIdempotent | lib/notification/notificationcomponent.cpp:94 | container law only, not a path of the component (which never erases twice): erasing the same notification twice is the same as erasing it once |
| Notifications.ScheduleInfo | lib/notification/notificationcomponent.cpp:136-142 | the snapshot names the notification and holds its current next notification time |
| Notifications.Classify | lib/notification/notificationcomponent.cpp:47 | a hard change is classified Recovery iff the new state is 0, Problem otherwise |
| Notifications.ImmediateSends | lib/notification/notificationcomponent.cpp:49-56 | the immediate sends of a hard change are as many as the attached notifications, in loop order (the `k`-th is for the `k`-th notification); each is a non-reminder send of the change's type for an attached notification |
| Notifications.Snapshots | lib/notification/notificationcomponent.cpp:136-142 | one fresh snapshot per notification, in the same order |
| Notifications.QueueRenotificationsEffect | lib/notification/notificationcomponent.cpp:58-62 | after the Problem inserts, the idle table is well-formed and holds exactly the previously idle notifications plus the attached ones. No previous idle entry is replaced, and each attached notification that was not idle is idle with next message equal to its current next notification time |
| Notifications.NotificationComponent.StateChangeHandler | lib/notification/notificationcomponent.cpp:35-65 | a non-hard change changes nothing. A hard change logs exactly the immediate sends of its classified type. A Recovery leaves idle unchanged; a Problem leaves idle as the renotification inserts of a snapshot of each attached notification, the snapshots taken in the state before the change. Pending is never touched, and both tables stay well-formed |
| Notifications.NotificationComponent.NotificationThreadStep | lib/notification/notificationcomponent.cpp:73-116 | when stopped the step stops; with an empty idle table it waits for entries; when the earliest entry lies after now it waits until that time; otherwise it dispatches the earliest entry's notification. Only a dispatch changes state: it erases exactly that notification from idle, leaving the rest of the time view in its old order, inserts a fresh snapshot of it into pending, and logs one `(notification, Problem, reminder)` send. Every other idle entry is untouched |
| Notifications.NotificationComponent.SendMessageHelper | lib/notification/notificationcomponent.cpp:119-134 | a completion for a notification not pending changes nothing. Otherwise the notification leaves pending (which shrinks by one), and it is re-inserted into idle as a fresh snapshot iff it is still active. The send log is unchanged and both tables stay well-formed |

## Left out

- Threads, the mutex and the condition variable. This covers the scheduler thread's creation and `join`, `wait`, `timed_wait` and `notify_all`, and the unlock/lock around the async submit. Each handler is modelled as one atomic step, so interleavings while the lock is released are not modelled.
- StateChangeHandler: is modelled as atomic although the source does not serialize it. It takes no lock, so its insert into `m_IdleNotifications` (`:60`) can race with the scheduler's erase (`:94`) and with `SendMessageHelper`'s insert (`:130`). The model does not capture these data races on the container.
- `BeginExecuteNotification` and `Utility::QueueAsyncCallback` are calls into code outside this file. They are recorded only as entries in the send log, and the asynchronous callback is modelled as a later explicit call of `SendMessageHelper`. The model assumes a send leaves the notification's `nextNotification` and `active` unchanged. In particular, the immediate send at `:56` and the read of `GetNextNotification()` at `:60` for the same notification happen inside one atomic step, so the model cannot express a send at `:56` that moves the next notification time. A change made between a dispatch (`:110`) and its completion's reads (`:129-130`) can be expressed: the caller updates the `Notification` object between the two calls.
- Logging and date formatting, which are output only.
- Type registration, the `OnStateChange` subscription and the `ObjectImpl` `Start`/`Stop` lifecycle are framework plumbing.
- Any stop transition. `Stop` never sets `m_Stopped`, so the flag is an input.
- `GetHostService`, whose result the handler never uses.
- The `double` time arithmetic and the conversion to milliseconds for the timed wait. Time is an integer, and the length of the wait is not modelled.
- `Checkable` and `CheckResult` are reduced to the inputs the handler reads: the state code, the state type and the list of attached notifications. The last check result passed to each send is not recorded.
- The declaration of `NotificationSet` (`notificationcomponent.hpp`) is not part of this model. Its insert-keeps-existing behaviour and equal-time order are the assumptions stated above.
- Notifications.NotificationComponent.StateChangeHandler: states the effect on idle **through** `QueueRenotifications`. The element-wise consequences for idle are proved separately in `Notifications.QueueRenotificationsEffect`, not repeated in the method's own contract. Because inserts keep existing entries, "next message equals the current next notification time" holds only for attached notifications that were not already idle.
