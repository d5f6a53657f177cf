/** The reminder table as the call sites in reminder_tasks.py use it: an
    existence test on (user, custom id), an insert, the pending rows, and a
    status update by primary key. */
module ReminderStore {
  import opened Models

  /** Some row was set by `user` for the button `customId`. */
  predicate HasReminder(rows: seq<Reminder>, user: nat, customId: string) {
    exists i :: 0 <= i < |rows| && rows[i].userId == user && rows[i].customId == customId
  }

  /** The rows whose status is `'pending'`, in table order. */
  function PendingOf(rows: seq<Reminder>): (r: seq<Reminder>)
    ensures |r| <= |rows|
    ensures forall x :: x in r ==> x in rows && x.status == Pending
    ensures forall x :: x in rows && x.status == Pending ==> x in r
  {
    if |rows| == 0 then []
    else
      var p := PendingOf(rows[..|rows| - 1]);
      if rows[|rows| - 1].status == Pending then p + [rows[|rows| - 1]] else p
  }

  /** Where a pending row comes from in the table. */
  lemma PendingIndex(rows: seq<Reminder>, k: nat) returns (j: nat)
    requires k < |PendingOf(rows)|
    ensures j < |rows| && rows[j] == PendingOf(rows)[k]
  {
    var x := PendingOf(rows)[k];
    assert x in PendingOf(rows);
    j :| j < |rows| && rows[j] == x;
  }

  /** `UPDATE reminders SET status = … WHERE id = …`. */
  function SetStatus(rows: seq<Reminder>, id: nat, status: string): (r: seq<Reminder>)
    ensures |r| == |rows|
    ensures forall i :: 0 <= i < |rows| ==>
      r[i] == (if rows[i].id == id then rows[i].(status := status) else rows[i])
  {
    seq(|rows|, i requires 0 <= i < |rows| => if rows[i].id == id then rows[i].(status := status) else rows[i])
  }

  /** Primary keys are distinct. */
  predicate DistinctIds(rows: seq<Reminder>) {
    forall i, j :: 0 <= i < j < |rows| ==> rows[i].id != rows[j].id
  }

  /** With distinct keys, a key names one row. */
  lemma SameIdSameRow(rows: seq<Reminder>, i: nat, j: nat)
    requires DistinctIds(rows) && i < |rows| && j < |rows| && rows[i].id == rows[j].id
    ensures i == j
  {
  }

  /** An in-memory stand-in for the database behind `database_operations`. */
  class Store {
    var rows: seq<Reminder>
    var nextId: nat

    /** Every key is below the next one handed out, so keys stay distinct. */
    ghost predicate Valid()
      reads this
    {
      DistinctIds(rows) && forall i :: 0 <= i < |rows| ==> rows[i].id < nextId
    }

    constructor ()
      ensures rows == [] && nextId == 1 && Valid()
    {
      rows := [];
      nextId := 1;
    }

    /** `check_reminder_exists(user_id, custom_id)`. */
    function ReminderExists(user: nat, customId: string): bool
      reads this
    {
      HasReminder(rows, user, customId)
    }

    /** `get_pending_reminders()`. */
    function PendingReminders(): seq<Reminder>
      reads this
    {
      PendingOf(rows)
    }

    /** `add_reminder(...)`: a new `'pending'` row under a fresh key. */
    method AddReminder(user: nat, customId: string, eventTime: int, guildId: nat, channelId: nat, messageId: nat)
      requires Valid()
      modifies this
      ensures Valid()
      ensures rows == old(rows) + [Reminder(old(nextId), user, customId, eventTime, Pending, guildId, channelId, messageId)]
      ensures nextId == old(nextId) + 1
    {
      rows := rows + [Reminder(nextId, user, customId, eventTime, Pending, guildId, channelId, messageId)];
      nextId := nextId + 1;
    }

    /** `update_reminder_status(id, status)`. */
    method UpdateReminderStatus(id: nat, status: string)
      requires Valid()
      modifies this
      ensures Valid()
      ensures rows == SetStatus(old(rows), id, status) && nextId == old(nextId)
    {
      rows := SetStatus(rows, id, status);
    }
  }
}
