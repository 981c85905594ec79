/** The reminder records of the manager and the pure logic over the ordered
    list of them: input validation for an add, the id filter of a delete, the
    due test and the transition of one due-check pass, and the projection the
    list view shows. */
module Reminders {
  import Text

  /** A local wall-clock time, in microseconds from a fixed epoch (the
      resolution of Python's `datetime`). A reminder's time comes from a
      "YYYY-MM-DD HH:MM" text, so it is a whole minute. */
  type Instant = int

  datatype Option<T> = None | Some(value: T)

  datatype Status = Active | Completed

  datatype Reminder = Reminder(
    id: int,
    message: string,
    scheduledAt: Instant,
    status: Status,
    notified: bool)

  /** The records as the manager itself creates and updates them: a record has
      been notified exactly when it is Completed. (A hand-edited data file may
      hold records that break this.) */
  predicate Consistent(rs: seq<Reminder>) {
    forall k :: 0 <= k < |rs| ==> (rs[k].notified <==> rs[k].status == Completed)
  }

  // ---------------------------------------------------------------------------
  // Order-preserving filtering (the list comprehensions and the `if` inside
  // the loops over the list)

  /** The elements of `s` that satisfy `p`, in their order in `s`. */
  function Filter<T(!new)>(s: seq<T>, p: T -> bool): (f: seq<T>)
    ensures |f| <= |s|
  {
    if s == [] then [] else Filter(s[..|s| - 1], p) + (if p(s[|s| - 1]) then [s[|s| - 1]] else [])
  }

  /** Filter keeps exactly the elements that pass the test: it keeps all of
      `s` when all of it passes and nothing when nothing does. */
  lemma {:induction false} FilterMembers<T(!new)>(s: seq<T>, p: T -> bool)
    ensures forall x :: x in Filter(s, p) <==> x in s && p(x)
    ensures (forall k :: 0 <= k < |s| ==> p(s[k])) ==> Filter(s, p) == s
    ensures Filter(s, p) == [] <==> forall k :: 0 <= k < |s| ==> !p(s[k])
    decreases |s|
  {
    if s != [] {
      var init, last := s[..|s| - 1], s[|s| - 1];
      assert s == init + [last];
      FilterMembers(init, p);
    }
  }

  /** Filtering a concatenation filters each part and keeps them in order;
      with the one-element case this pins Filter down completely. */
  lemma {:induction false} FilterAppend<T(!new)>(a: seq<T>, b: seq<T>, p: T -> bool)
    ensures Filter(a + b, p) == Filter(a, p) + Filter(b, p)
    decreases |b|
  {
    if b == [] {
      assert a + b == a;
    } else {
      var init, last := b[..|b| - 1], b[|b| - 1];
      var tail := if p(last) then [last] else [];
      assert (a + b)[..|a + b| - 1] == a + init;
      assert (a + b)[|a + b| - 1] == last;
      assert Filter(a + b, p) == Filter(a + init, p) + tail;
      assert Filter(b, p) == Filter(init, p) + tail;
      FilterAppend(a, init, p);
      assert Filter(a + b, p) == Filter(a, p) + Filter(init, p) + tail;
    }
  }

  /** Filtering twice with the same test is filtering once. */
  lemma {:induction false} FilterIdempotent<T(!new)>(s: seq<T>, p: T -> bool)
    ensures Filter(Filter(s, p), p) == Filter(s, p)
  {
    var f := Filter(s, p);
    FilterMembers(s, p);
    FilterMembers(f, p);
    forall k | 0 <= k < |f| ensures p(f[k]) {
      assert f[k] in f;
    }
  }

  // ---------------------------------------------------------------------------
  // Add: validation of the input (remainder_app.py:323-338, 373-374)

  datatype AddError =
    | EmptyMessage   // the message is empty once stripped
    | BadFormat      // the date and time do not parse as "YYYY-MM-DD HH:MM"
    | NotInFuture    // the parsed time is not strictly after the clock

  datatype Checked =
    | Accepted(message: string, scheduledAt: Instant)
    | Rejected(error: AddError)

  /** The checks an add makes, in the order it makes them, on the raw message,
      the outcome of parsing the date and time fields (None when `strptime`
      raises) and the clock. */
  function Validate(rawMessage: string, parsed: Option<Instant>, now: Instant): (c: Checked)
    ensures c == Rejected(EmptyMessage) <==> Text.AllSpace(rawMessage)
    ensures c == Rejected(BadFormat) <==> !Text.AllSpace(rawMessage) && parsed.None?
    ensures c == Rejected(NotInFuture) <==> !Text.AllSpace(rawMessage) && parsed.Some? && parsed.value <= now
    ensures c.Accepted? <==> !Text.AllSpace(rawMessage) && parsed.Some? && parsed.value > now
    ensures c.Accepted? ==> c.message == Text.Strip(rawMessage) && c.message != []
    ensures c.Accepted? ==> parsed == Some(c.scheduledAt)
  {
    var message := Text.Strip(rawMessage);
    if message == [] then Rejected(EmptyMessage)
    else if parsed.None? then Rejected(BadFormat)
    else if parsed.value <= now then Rejected(NotInFuture)
    else Accepted(message, parsed.value)
  }

  /** The record a successful add appends to a list of `count` records. */
  function NewReminder(count: nat, message: string, scheduledAt: Instant): Reminder {
    Reminder(count + 1, message, scheduledAt, Active, false)
  }

  /** A record an add appends keeps the list consistent, is shown in the list
      view, and is due at exactly the clock readings at or after its time. */
  lemma NewReminderPending(rs: seq<Reminder>, message: string, scheduledAt: Instant, now: Instant)
    ensures var r := NewReminder(|rs|, message, scheduledAt);
      r.id == |rs| + 1 &&
      (Consistent(rs) ==> Consistent(rs + [r])) &&
      ActiveOnly(rs + [r]) == ActiveOnly(rs) + [r] &&
      (Due(r, now) <==> now >= scheduledAt)
  {
    var r := NewReminder(|rs|, message, scheduledAt);
    ActiveOnlyAppend(rs, [r]);
    assert ActiveOnly([r]) == [r];
  }

  // ---------------------------------------------------------------------------
  // Delete (remainder_app.py:391)

  /** The records whose id differs from `id`, in their order. */
  function WithoutId(rs: seq<Reminder>, id: int): (w: seq<Reminder>)
    ensures |w| <= |rs|
    ensures forall r :: r in w <==> r in rs && r.id != id
    ensures (forall k :: 0 <= k < |rs| ==> rs[k].id != id) ==> w == rs
    ensures w == [] <==> forall k :: 0 <= k < |rs| ==> rs[k].id == id
  {
    FilterMembers(rs, (r: Reminder) => r.id != id);
    Filter(rs, (r: Reminder) => r.id != id)
  }

  /** Deleting keeps the surviving records in their original relative order:
      the deletion of a concatenation is the concatenation of the deletions. */
  lemma WithoutIdAppend(a: seq<Reminder>, b: seq<Reminder>, id: int)
    ensures WithoutId(a + b, id) == WithoutId(a, id) + WithoutId(b, id)
  {
    FilterAppend(a, b, (r: Reminder) => r.id != id);
  }

  /** Every record that survives a delete is a record of the old list, so a
      delete never turns a Completed record back into an Active one, and it
      keeps the list consistent. */
  lemma WithoutIdKeepsRecords(rs: seq<Reminder>, id: int)
    ensures forall k :: 0 <= k < |WithoutId(rs, id)| ==> WithoutId(rs, id)[k] in rs
    ensures Consistent(rs) ==> Consistent(WithoutId(rs, id))
  {
    var w := WithoutId(rs, id);
    forall k | 0 <= k < |w| ensures w[k] in rs {
      assert w[k] in w;
    }
    if Consistent(rs) {
      forall k | 0 <= k < |w| ensures w[k].notified <==> w[k].status == Completed {
        assert w[k] in rs;
        var j :| 0 <= j < |rs| && rs[j] == w[k];
      }
    }
  }

  // ---------------------------------------------------------------------------
  // One pass of the due-check loop (remainder_app.py:433-441)

  /** A record the pass alerts for: Active, not yet notified, and its time has
      come (the clock is at or past it). */
  predicate Due(r: Reminder, now: Instant) {
    r.status == Active && !r.notified && now >= r.scheduledAt
  }

  /** What the pass does to one record. */
  function Step(r: Reminder, now: Instant): Reminder {
    if Due(r, now) then r.(notified := true, status := Completed) else r
  }

  /** Appending a record keeps the list consistent exactly when the record
      itself is. */
  lemma ConsistentSnoc(rs: seq<Reminder>, r: Reminder)
    ensures Consistent(rs + [r]) <==> Consistent(rs) && (r.notified <==> r.status == Completed)
  {
    if Consistent(rs + [r]) {
      forall k | 0 <= k < |rs| ensures rs[k].notified <==> rs[k].status == Completed {
        assert (rs + [r])[k] == rs[k];
      }
      assert (rs + [r])[|rs|] == r;
    }
  }

  /** The one-record step changes a record exactly when it is due; it then
      marks it notified and Completed and keeps its id, message and time, and
      the stepped record is due at no clock reading at all. */
  lemma StepAlertsOnce(r: Reminder, now: Instant, later: Instant)
    ensures Step(r, now) != r <==> Due(r, now)
    ensures Step(r, now).id == r.id && Step(r, now).message == r.message
    ensures Step(r, now).scheduledAt == r.scheduledAt
    ensures Due(r, now) ==> Step(r, now).notified && Step(r, now).status == Completed
    ensures Due(r, now) ==> !Due(Step(r, now), later)
  {
  }

  /** The list after one pass at clock reading `now`: each record stepped in place. */
  function Tick(rs: seq<Reminder>, now: Instant): (t: seq<Reminder>)
    ensures |t| == |rs|
    ensures forall k :: 0 <= k < |rs| ==> t[k] == Step(rs[k], now)
  {
    if rs == [] then []
    else Tick(rs[..|rs| - 1], now) + [Step(rs[|rs| - 1], now)]
  }

  /** The records one pass alerts for, in list order, as they were when the
      alert fired. */
  function Fired(rs: seq<Reminder>, now: Instant): (f: seq<Reminder>)
    ensures |f| <= |rs|
  {
    Filter(rs, (r: Reminder) => Due(r, now))
  }

  /** A pass alerts for exactly the due records, for all of them when all are
      due and for none when none is. */
  lemma FiredExactlyTheDue(rs: seq<Reminder>, now: Instant)
    ensures forall r :: r in Fired(rs, now) <==> r in rs && Due(r, now)
    ensures (forall k :: 0 <= k < |rs| ==> Due(rs[k], now)) ==> Fired(rs, now) == rs
    ensures Fired(rs, now) == [] <==> forall k :: 0 <= k < |rs| ==> !Due(rs[k], now)
  {
    FilterMembers(rs, (r: Reminder) => Due(r, now));
  }

  /** One alert per due record, in list order: the alerts for a concatenation
      are the alerts for its parts, one after the other. */
  lemma FiredAppend(a: seq<Reminder>, b: seq<Reminder>, now: Instant)
    ensures Fired(a + b, now) == Fired(a, now) + Fired(b, now)
  {
    FilterAppend(a, b, (r: Reminder) => Due(r, now));
  }

  /** A record alone alerts once when it is due and not at all otherwise. */
  lemma FiredSnoc(a: seq<Reminder>, r: Reminder, now: Instant)
    ensures Fired(a + [r], now) == Fired(a, now) + (if Due(r, now) then [r] else [])
  {
    assert (a + [r])[..|a + [r]| - 1] == a;
  }

  /** A pass marks every due record notified and Completed, changes nothing
      else (no other record, no id, message or time, not the length or the
      order), never turns a Completed record back into an Active one, and
      leaves nothing due at that clock reading. */
  lemma TickMarksExactlyTheDue(rs: seq<Reminder>, now: Instant)
    ensures forall k :: 0 <= k < |rs| ==>
      var t := Tick(rs, now)[k];
      t.id == rs[k].id && t.message == rs[k].message && t.scheduledAt == rs[k].scheduledAt
    ensures forall k :: 0 <= k < |rs| && Due(rs[k], now) ==>
      Tick(rs, now)[k].notified && Tick(rs, now)[k].status == Completed
    ensures forall k :: 0 <= k < |rs| && !Due(rs[k], now) ==> Tick(rs, now)[k] == rs[k]
    ensures forall k :: 0 <= k < |rs| && rs[k].status == Completed ==> Tick(rs, now)[k].status == Completed
    ensures forall k :: 0 <= k < |rs| && rs[k].notified ==> Tick(rs, now)[k].notified
    ensures Fired(Tick(rs, now), now) == []
  {
    var t := Tick(rs, now);
    forall k | 0 <= k < |t| ensures !Due(t[k], now) {
      assert t[k] == Step(rs[k], now);
    }
    FiredExactlyTheDue(t, now);
  }

  /** A pass keeps the list consistent: it sets notified and Completed together. */
  lemma TickKeepsConsistent(rs: seq<Reminder>, now: Instant)
    ensures Consistent(rs) ==> Consistent(Tick(rs, now))
  {
  }

  /** A second pass at the same clock reading changes nothing. */
  lemma TickIdempotent(rs: seq<Reminder>, now: Instant)
    ensures Tick(Tick(rs, now), now) == Tick(rs, now)
  {
    TickMarksExactlyTheDue(rs, now);
    TickMarksExactlyTheDue(Tick(rs, now), now);
  }

  /** The list after passes at the clock readings `times`, in that order. */
  function Run(rs: seq<Reminder>, times: seq<Instant>): (s: seq<Reminder>)
    ensures |s| == |rs|
  {
    if times == [] then rs
    else Tick(Run(rs, times[..|times| - 1]), times[|times| - 1])
  }

  /** Once notified, a record stays notified through any number of passes. */
  lemma {:induction false} NotifiedStays(rs: seq<Reminder>, times: seq<Instant>, i: nat)
    requires i < |rs| && rs[i].notified
    ensures Run(rs, times)[i].notified
    decreases |times|
  {
    if times != [] {
      var before := Run(rs, times[..|times| - 1]);
      NotifiedStays(rs, times[..|times| - 1], i);
      assert Run(rs, times)[i] == Step(before[i], times[|times| - 1]);
    }
  }

  /** The passes after the first `j` are the passes of `times[j..]` run on the
      list the first `j` left behind. */
  lemma {:induction false} RunSplit(rs: seq<Reminder>, times: seq<Instant>, j: nat)
    requires j <= |times|
    ensures Run(rs, times) == Run(Run(rs, times[..j]), times[j..])
    decreases |times|
  {
    if j == |times| {
      assert times[..j] == times;
      assert times[j..] == [];
    } else {
      var init := times[..|times| - 1];
      RunSplit(rs, init, j);
      assert init[..j] == times[..j];
      assert times[j..][..|times[j..]| - 1] == init[j..];
      assert times[j..][|times[j..]| - 1] == times[|times| - 1];
    }
  }

  /** The pass that alerts for a record leaves it notified. */
  lemma {:induction false} NotifiedByItsPass(rs: seq<Reminder>, times: seq<Instant>, i: nat, j: nat)
    requires i < |rs| && j < |times|
    requires Due(Run(rs, times[..j])[i], times[j])
    ensures Run(rs, times[..j + 1])[i].notified
  {
    var upto := times[..j + 1];
    assert upto[..|upto| - 1] == times[..j];
    assert upto[|upto| - 1] == times[j];
    assert Run(rs, upto) == Tick(Run(rs, times[..j]), times[j]);
  }

  /** Each record alerts at most once: if the pass at `times[j]` alerts for
      record `i`, no later pass, whatever its clock reading, alerts for it again. */
  lemma {:induction false} AlertsAtMostOnce(rs: seq<Reminder>, times: seq<Instant>, i: nat, j: nat, k: nat)
    requires i < |rs| && j < k < |times|
    requires Due(Run(rs, times[..j])[i], times[j])
    ensures !Due(Run(rs, times[..k])[i], times[k])
  {
    NotifiedByItsPass(rs, times, i, j);
    var after := Run(rs, times[..j + 1]);
    var prefix := times[..k];
    RunSplit(rs, prefix, j + 1);
    assert prefix[..j + 1] == times[..j + 1];
    NotifiedStays(after, prefix[j + 1..], i);
    assert Run(rs, prefix) == Run(after, prefix[j + 1..]);
    assert Run(rs, prefix)[i].notified;
  }

  // ---------------------------------------------------------------------------
  // The list view (remainder_app.py:404-426)

  /** What the status column shows: the stored status, or the transient
      "Overdue" label, which is never stored. */
  datatype Shown = Stored(status: Status) | Overdue

  /** One row of the list view. The date and time columns are the scheduled
      time written out, which this model keeps as the instant itself. */
  datatype Row = Row(id: int, message: string, scheduledAt: Instant, shown: Shown)

  /** The records the list view shows: the Active ones, in list order. */
  function ActiveOnly(rs: seq<Reminder>): (a: seq<Reminder>)
    ensures |a| <= |rs|
  {
    Filter(rs, (r: Reminder) => r.status == Active)
  }

  /** The view shows exactly the Active records: all of them when all are
      Active and none when none is. */
  lemma ActiveOnlyExactlyTheActive(rs: seq<Reminder>)
    ensures forall r :: r in ActiveOnly(rs) <==> r in rs && r.status == Active
    ensures ActiveOnly(rs) == [] <==> forall k :: 0 <= k < |rs| ==> rs[k].status != Active
    ensures (forall k :: 0 <= k < |rs| ==> rs[k].status == Active) ==> ActiveOnly(rs) == rs
  {
    FilterMembers(rs, (r: Reminder) => r.status == Active);
  }

  /** The shown records keep their relative order. */
  lemma ActiveOnlyAppend(a: seq<Reminder>, b: seq<Reminder>)
    ensures ActiveOnly(a + b) == ActiveOnly(a) + ActiveOnly(b)
  {
    FilterAppend(a, b, (r: Reminder) => r.status == Active);
  }

  /** One more record is shown exactly when it is Active. */
  lemma ActiveOnlySnoc(a: seq<Reminder>, r: Reminder)
    ensures r.status == Active ==> ActiveOnly(a + [r]) == ActiveOnly(a) + [r]
    ensures r.status != Active ==> ActiveOnly(a + [r]) == ActiveOnly(a)
  {
    assert (a + [r])[..|a + [r]| - 1] == a;
    assert ActiveOnly(a) + [] == ActiveOnly(a);
  }

  /** Every shown record is Active. */
  lemma ActiveOnlyAllActive(rs: seq<Reminder>)
    ensures forall k :: 0 <= k < |ActiveOnly(rs)| ==> ActiveOnly(rs)[k].status == Active
  {
    var a := ActiveOnly(rs);
    ActiveOnlyExactlyTheActive(rs);
    forall k | 0 <= k < |a| ensures a[k].status == Active {
      assert a[k] in a;
    }
  }

  /** Each alert of a pass takes exactly one record off the list view: the
      Active count after the pass plus the number of alerts is the Active
      count before it. */
  lemma {:induction false} ActiveCountAfterTick(rs: seq<Reminder>, now: Instant)
    ensures |ActiveOnly(Tick(rs, now))| + |Fired(rs, now)| == |ActiveOnly(rs)|
    decreases |rs|
  {
    if rs != [] {
      var init, last := rs[..|rs| - 1], rs[|rs| - 1];
      assert rs == init + [last];
      ActiveCountAfterTick(init, now);
      assert Tick(rs, now) == Tick(init, now) + [Step(last, now)];
      ActiveOnlyAppend(Tick(init, now), [Step(last, now)]);
      ActiveOnlyAppend(init, [last]);
      FiredSnoc(init, last, now);
    }
  }

  /** The row for a shown record at clock reading `now`. */
  function RowOf(r: Reminder, now: Instant): Row {
    Row(r.id, r.message, r.scheduledAt, if r.scheduledAt < now then Overdue else Stored(r.status))
  }

  /** A row shows the record's id, message and time; it says "Overdue" exactly
      when the time is strictly before the clock and the stored status
      otherwise; and a row that is Overdue stays Overdue at any later reading. */
  lemma RowOfMarksOverdue(r: Reminder, now: Instant, later: Instant)
    ensures RowOf(r, now).id == r.id && RowOf(r, now).message == r.message
    ensures RowOf(r, now).scheduledAt == r.scheduledAt
    ensures RowOf(r, now).shown == Overdue <==> r.scheduledAt < now
    ensures RowOf(r, now).shown != Overdue ==> RowOf(r, now).shown == Stored(r.status)
    ensures RowOf(r, now).shown == Overdue && now <= later ==> RowOf(r, later).shown == Overdue
  {
  }

  /** The rows for the shown records `rs`, the k-th of them checked against
      `clock(k)`, the k-th clock reading the refresh takes. */
  function RowsOf(rs: seq<Reminder>, clock: nat -> Instant): (rows: seq<Row>)
    ensures |rows| == |rs|
  {
    if rs == [] then []
    else RowsOf(rs[..|rs| - 1], clock) + [RowOf(rs[|rs| - 1], clock(|rs| - 1))]
  }

  /** One more shown record adds its row at the next clock reading. */
  lemma RowsOfSnoc(rs: seq<Reminder>, r: Reminder, clock: nat -> Instant)
    ensures RowsOf(rs + [r], clock) == RowsOf(rs, clock) + [RowOf(r, clock(|rs|))]
  {
    assert (rs + [r])[..|rs + [r]| - 1] == rs;
  }

  /** Row k is the row of the k-th shown record at the k-th clock reading. */
  lemma {:induction false} RowsOfIndex(rs: seq<Reminder>, clock: nat -> Instant)
    ensures forall k :: 0 <= k < |rs| ==> RowsOf(rs, clock)[k] == RowOf(rs[k], clock(k))
    decreases |rs|
  {
    if rs != [] {
      RowsOfIndex(rs[..|rs| - 1], clock);
    }
  }

  /** The count label under the list: "📊 N active reminder", with an "s"
      unless N is one. */
  function CountLabel(n: nat): (l: string)
    ensures |l| > 2 + |Text.Decimal(n)|
    ensures l[..2] == "\U{1F4CA} " && l[2..2 + |Text.Decimal(n)|] == Text.Decimal(n)
    ensures |l| == 2 + |Text.Decimal(n)| + 16 + (if n != 1 then 1 else 0)
    ensures l[2 + |Text.Decimal(n)|..2 + |Text.Decimal(n)| + 16] == " active reminder"
    ensures l[|l| - 1] == 's' <==> n != 1
  {
    "\U{1F4CA} " + Text.Decimal(n) + " active reminder" + (if n != 1 then "s" else "")
  }

  /** The number the count label shows reads back as the count. */
  lemma CountLabelReadsBack(n: nat)
    ensures Text.DecimalValue(CountLabel(n)[2..2 + |Text.Decimal(n)|]) == n
  {
    Text.DecimalRoundTrip(n);
  }

  /** Right after a pass, the view shows nothing as Overdue at that clock
      reading: the pass fires at "time <= clock" while the view calls a record
      Overdue only at "time < clock", and a consistent Active record whose time
      has come has just been completed. */
  lemma NothingOverdueAfterTick(rs: seq<Reminder>, now: Instant)
    requires Consistent(rs)
    ensures forall r :: r in ActiveOnly(Tick(rs, now)) ==> r.scheduledAt > now && RowOf(r, now).shown == Stored(Active)
  {
    var t := Tick(rs, now);
    TickMarksExactlyTheDue(rs, now);
    ActiveOnlyExactlyTheActive(t);
    forall r | r in ActiveOnly(t) ensures r.scheduledAt > now {
      var k :| 0 <= k < |t| && t[k] == r;
      assert t[k] == Step(rs[k], now);
    }
  }
}
