/** The reminder manager's store: the in-memory list of reminder records that
    the add, delete and refresh actions and the background due-check share,
    with each of those actions as a method that works on the list in place. */
module App {
  import opened Reminders
  import Text
  import DueIn

  /** What an add reports: the "Due in ..." text on success, else the reason
      it refused. */
  datatype AddOutcome = Added(dueIn: string) | Refused(error: AddError)

  /** What a delete does: nothing when no row is selected or the confirmation
      is declined, else it filters the list. */
  datatype DeleteOutcome = NoSelection | Declined | Deleted

  class ReminderApp {
    /** `self.reminders`, in insertion order. */
    var reminders: seq<Reminder>

    /** The app starts from the records the data file held (an empty list when
        the file is missing or unreadable). */
    constructor (loaded: seq<Reminder>)
      ensures reminders == loaded
    {
      reminders := loaded;
    }

    /** `add_reminder`: the message as typed, the parsed date and time fields
        (None when they do not parse), the clock read for the future check and
        the clock read again for the confirmation text. On success the stripped
        message is appended as an Active, unnotified record whose id is the old
        length plus one; on any refusal the list is unchanged. */
    method AddReminder(rawMessage: string, parsed: Option<Instant>, now: Instant, summaryNow: Instant)
      returns (outcome: AddOutcome)
      modifies this
      ensures Validate(rawMessage, parsed, now).Rejected? ==>
        outcome == Refused(Validate(rawMessage, parsed, now).error) && reminders == old(reminders)
      ensures Validate(rawMessage, parsed, now).Accepted? ==>
        var c := Validate(rawMessage, parsed, now);
        outcome == Added(DueIn.Render(DueIn.Summarize(c.scheduledAt - summaryNow))) &&
        reminders == old(reminders) + [NewReminder(|old(reminders)|, c.message, c.scheduledAt)]
      ensures |reminders| >= |old(reminders)| && reminders[..|old(reminders)|] == old(reminders)
      ensures Consistent(old(reminders)) ==> Consistent(reminders)
    {
      var checked := Validate(rawMessage, parsed, now);
      if checked.Rejected? {
        assert reminders[..|reminders|] == reminders;
        outcome := Refused(checked.error);
        return;
      }
      var reminder := NewReminder(|reminders|, checked.message, checked.scheduledAt);
      assert (reminders + [reminder])[..|reminders|] == reminders;
      ConsistentSnoc(reminders, reminder);
      reminders := reminders + [reminder];
      var gap := checked.scheduledAt - summaryNow;
      outcome := Added(DueIn.Render(DueIn.Summarize(gap)));
    }

    /** `delete_reminder`: the id of the selected row, if any, and the answer
        to the confirmation. A confirmed delete removes every record with that
        id (ids can repeat) and keeps the rest in order; otherwise the list is
        unchanged, including when no record has that id. */
    method DeleteReminder(selected: Option<int>, confirmed: bool) returns (outcome: DeleteOutcome)
      modifies this
      ensures outcome == NoSelection <==> selected.None?
      ensures outcome == Declined <==> selected.Some? && !confirmed
      ensures outcome == Deleted <==> selected.Some? && confirmed
      ensures outcome == Deleted ==> reminders == WithoutId(old(reminders), selected.value)
      ensures outcome != Deleted ==> reminders == old(reminders)
    {
      if selected.None? {
        return NoSelection;
      }
      if !confirmed {
        return Declined;
      }
      reminders := WithoutId(reminders, selected.value);
      outcome := Deleted;
    }

    /** `refresh_reminder_list`: the rows of the list view, the number of
        Active records and the count label. The refresh reads the clock once
        per shown row; `clock(k)` is the reading taken for the k-th shown row.
        Reads the list and changes nothing. */
    method RefreshReminderList(clock: nat -> Instant) returns (rows: seq<Row>, activeCount: nat, countLabel: string)
      ensures activeCount == |ActiveOnly(reminders)| && |rows| == activeCount
      ensures forall k :: 0 <= k < |rows| ==> rows[k] == RowOf(ActiveOnly(reminders)[k], clock(k))
      ensures forall k :: 0 <= k < |rows| ==> (rows[k].shown == Overdue <==> rows[k].scheduledAt < clock(k))
      ensures forall k :: 0 <= k < |rows| ==> rows[k].shown != Overdue ==> rows[k].shown == Stored(Active)
      ensures countLabel == CountLabel(activeCount)
    {
      rows, activeCount := [], 0;
      var i := 0;
      while i < |reminders|
        invariant 0 <= i <= |reminders|
        invariant rows == RowsOf(ActiveOnly(reminders[..i]), clock)
        invariant activeCount == |rows|
      {
        var reminder := reminders[i];
        ghost var shown := ActiveOnly(reminders[..i]);
        assert reminders[..i + 1] == reminders[..i] + [reminder];
        ActiveOnlySnoc(reminders[..i], reminder);
        if reminder.status == Active {
          assert ActiveOnly(reminders[..i + 1]) == shown + [reminder];
          RowsOfSnoc(shown, reminder, clock);
          var now := clock(activeCount);
          var row := Row(reminder.id, reminder.message, reminder.scheduledAt,
                         if reminder.scheduledAt < now then Overdue else Stored(reminder.status));
          rows := rows + [row];
          activeCount := activeCount + 1;
          assert rows == RowsOf(shown + [reminder], clock);
        } else {
          assert ActiveOnly(reminders[..i + 1]) == shown;
        }
        i := i + 1;
      }
      assert reminders[..i] == reminders;
      RowsOfIndex(ActiveOnly(reminders), clock);
      ActiveOnlyAllActive(reminders);
      countLabel := CountLabel(activeCount);
    }

    /** One pass of `check_reminders` at clock reading `now`: every Active,
        unnotified record whose time has come is alerted for (the alerts are
        returned, in list order, one per such record), then marked notified
        and Completed in place. */
    method CheckRemindersTick(now: Instant) returns (alerts: seq<Reminder>)
      modifies this
      ensures reminders == Tick(old(reminders), now)
      ensures alerts == Fired(old(reminders), now)
      ensures Consistent(old(reminders)) ==> Consistent(reminders)
    {
      ghost var start := reminders;
      alerts := [];
      var i := 0;
      while i < |reminders|
        invariant 0 <= i <= |reminders| && |reminders| == |start|
        invariant forall k :: 0 <= k < i ==> reminders[k] == Step(start[k], now)
        invariant forall k :: i <= k < |start| ==> reminders[k] == start[k]
        invariant alerts == Fired(start[..i], now)
      {
        var reminder := reminders[i];
        assert start[..i + 1] == start[..i] + [reminder];
        FiredSnoc(start[..i], reminder, now);
        if reminder.status == Active && !reminder.notified {
          if now >= reminder.scheduledAt {
            alerts := alerts + [reminder];
            reminders := reminders[i := reminder.(notified := true, status := Completed)];
          }
        }
        i := i + 1;
      }
      assert start[..i] == start;
      assert reminders == Tick(start, now);
      TickKeepsConsistent(start, now);
    }
  }

  /** A reminder added five minutes ahead: the add accepts it and confirms
      "5 minutes", the list view shows it as Active, a pass thirty seconds after
      its time alerts for it once and completes it, a later pass alerts for
      nothing, and the list view no longer shows it. */
  lemma DueScenario(message: string, now: Instant)
    requires message != [] && Text.Strip(message) == message
    ensures
      var when := now + 5 * DueIn.MicrosPerMinute;
      var due := when + 30 * DueIn.MicrosPerSecond;
      var reminder := NewReminder(0, message, when);
      var after := Tick([reminder], due);
      Validate(message, Some(when), now) == Accepted(message, when) &&
      DueIn.Render(DueIn.Summarize(when - now)) == "5 minutes" &&
      ActiveOnly([reminder]) == [reminder] &&
      RowOf(reminder, now).shown == Stored(Active) &&
      Fired([reminder], due) == [reminder] &&
      after[0].status == Completed && after[0].notified &&
      Fired(after, due + DueIn.MicrosPerMinute) == [] &&
      ActiveOnly(after) == []
  {
    var when := now + 5 * DueIn.MicrosPerMinute;
    var due := when + 30 * DueIn.MicrosPerSecond;
    var reminder := NewReminder(0, message, when);
    DueIn.FiveMinutesAhead();
    FiredSnoc([], reminder, due);
    assert [] + [reminder] == [reminder];
    var after := Tick([reminder], due);
    FiredSnoc([], after[0], due + DueIn.MicrosPerMinute);
    assert [after[0]] == after && [] + after == after;
  }

  /** Ids are the list length plus one at the time of the add, so after a
      delete a new record can take the id of an older one: add "a" and "b",
      delete id 1, add "c", and "b" and "c" both have id 2, so that deleting
      either deletes both. */
  lemma IdsCollideAfterDelete(a: string, b: string, c: string, when: Instant)
    ensures
      var added := [NewReminder(0, a, when), NewReminder(1, b, when)];
      var kept := WithoutId(added, 1);
      var final := kept + [NewReminder(|kept|, c, when)];
      final[0].id == final[1].id == 2 && WithoutId(final, 2) == []
  {
    var ra, rb := NewReminder(0, a, when), NewReminder(1, b, when);
    assert [ra, rb] == [ra] + [rb];
    WithoutIdAppend([ra], [rb], 1);
  }
}
