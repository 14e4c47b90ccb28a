/** The daily reminder job: `sendEmails` and `start`. A run reads today's bookings
    and makes one send attempt per booking; it never writes to the store, so its
    only effect is the sequence of attempts it returns. */
module Scheduler {
  import opened Wrappers
  import opened Http
  import opened Collection
  import opened Model
  import opened Dates

  const ReminderSubject := "Upcoming Booking Time"

  /** `BookingModel.find({ date })`: the bookings whose `date` is exactly `date`,
      in the store's order. */
  function DatedOn(c: Coll<Booking>, date: string): (r: Coll<Booking>)
    ensures |r| <= |c|
    ensures forall d :: d in r <==> d in c && d.data.date == date
    decreases |c|
  {
    if |c| == 0 then []
    else
      var rest := DatedOn(c[1..], date);
      assert c == [c[0]] + c[1..];
      if c[0].data.date == date then [c[0]] + rest else rest
  }

  /** The scan keeps the store's order: filtering two parts is filtering the whole. */
  lemma {:induction false} DatedOnAppend(a: Coll<Booking>, b: Coll<Booking>, date: string)
    ensures DatedOn(a + b, date) == DatedOn(a, date) + DatedOn(b, date)
    decreases |a|
  {
    if |a| == 0 {
      assert a + b == b;
    } else {
      assert (a + b)[0] == a[0] && (a + b)[1..] == a[1..] + b;
      DatedOnAppend(a[1..], b, date);
    }
  }

  /** The reminder for one booking: from the SMTP login, to the booking's email. */
  function Reminder(from: string, b: Booking): Mail {
    Mail(from, b.email, ReminderSubject)
  }

  /** The `for ... of` loop: every booking gets its send, each wrapped in its own
      `try`/`catch`, so a rejected send does not stop the loop; `k` numbers the sends. */
  function SendEach(due: Coll<Booking>, from: string, fails: FailureOracle, k: nat): (out: seq<Attempt>)
    ensures |out| == |due|
    ensures forall i | 0 <= i < |due| :: out[i] == Attempt(Reminder(from, due[i].data), !fails(k + i))
    decreases |due|
  {
    if |due| == 0 then []
    else
      var rest := SendEach(due[1..], from, fails, k + 1);
      assert forall i | 1 <= i < |due| :: due[i] == due[1..][i - 1];
      [Attempt(Reminder(from, due[0].data), !fails(k))] + rest
  }

  /** `sendEmails`: the date is formatted from the clock, the bookings of that date
      are fetched, and each gets one attempt in scan order. When the fetch fails the
      outer `catch` ends the run with no attempt; no failure leaves the run. */
  function SendEmails(store: Store, clock: Clock, smtpLogin: string, fetchFails: bool, fails: FailureOracle)
    : (out: seq<Attempt>)
    ensures fetchFails ==> out == []
    ensures !fetchFails ==> |out| == |DatedOn(store.bookings, FormatDate(clock))|
    ensures !fetchFails ==> forall i | 0 <= i < |out| ::
      out[i].mail == Reminder(smtpLogin, DatedOn(store.bookings, FormatDate(clock))[i].data)
      && out[i].delivered == !fails(i)
  {
    if fetchFails then []
    else SendEach(DatedOn(store.bookings, FormatDate(clock)), smtpLogin, fails, 0)
  }

  /** Every attempt of a run is a reminder for a booking dated today. */
  lemma AttemptsAreForToday(store: Store, clock: Clock, smtpLogin: string, fails: FailureOracle, i: nat)
    requires i < |SendEmails(store, clock, smtpLogin, false, fails)|
    ensures exists b | b in store.bookings ::
      b.data.date == FormatDate(clock)
      && SendEmails(store, clock, smtpLogin, false, fails)[i].mail == Reminder(smtpLogin, b.data)
  {
    var due := DatedOn(store.bookings, FormatDate(clock));
    assert due[i] in due;
  }

  /** Every booking dated today gets an attempt, whatever the transport does with
      the sends before it. */
  lemma TodayIsReminded(store: Store, clock: Clock, smtpLogin: string, fails: FailureOracle, b: Doc<Booking>)
    requires b in store.bookings && b.data.date == FormatDate(clock)
    ensures exists i | 0 <= i < |SendEmails(store, clock, smtpLogin, false, fails)| ::
      SendEmails(store, clock, smtpLogin, false, fails)[i].mail == Reminder(smtpLogin, b.data)
  {
    var due := DatedOn(store.bookings, FormatDate(clock));
    var out := SendEmails(store, clock, smtpLogin, false, fails);
    assert b in due;
    var i :| 0 <= i < |due| && due[i] == b;
    assert out[i].mail == Reminder(smtpLogin, b.data);
  }

  /** Failure isolation: which sends the transport rejects changes only the
      delivery flags, never which mails are attempted or in what order. */
  lemma FailuresIsolated(store: Store, clock: Clock, smtpLogin: string, f: FailureOracle, g: FailureOracle)
    ensures Mails(SendEmails(store, clock, smtpLogin, false, f)) == Mails(SendEmails(store, clock, smtpLogin, false, g))
  {
    var a := Mails(SendEmails(store, clock, smtpLogin, false, f));
    var b := Mails(SendEmails(store, clock, smtpLogin, false, g));
    assert forall i | 0 <= i < |a| :: a[i] == b[i];
  }

  /** Nothing marks a booking as reminded: two runs on the same day over the same
      store attempt the same mails twice. */
  lemma NoIdempotency(store: Store, clock: Clock, smtpLogin: string, f: FailureOracle, g: FailureOracle)
    ensures var first := SendEmails(store, clock, smtpLogin, false, f);
      var second := SendEmails(store, clock, smtpLogin, false, g);
      && |first + second| == 2 * |DatedOn(store.bookings, FormatDate(clock))|
      && Mails(first + second) == Mails(first) + Mails(first)
  {
    var first := SendEmails(store, clock, smtpLogin, false, f);
    var second := SendEmails(store, clock, smtpLogin, false, g);
    FailuresIsolated(store, clock, smtpLogin, f, g);
    MailsAppend(first, second);
  }

  /** One firing of the recurring job: the store as the job finds it, the clock, and
      how the fetch and the sends behave during that run. */
  datatype Trigger = Trigger(store: Store, clock: Clock, fetchFails: bool, fails: FailureOracle)

  /** How many attempts a trigger's run makes. */
  function DueCount(t: Trigger): nat {
    if t.fetchFails then 0 else |DatedOn(t.store.bookings, FormatDate(t.clock))|
  }

  function TotalDue(triggers: seq<Trigger>): nat
    decreases |triggers|
  {
    if |triggers| == 0 then 0 else DueCount(triggers[0]) + TotalDue(triggers[1..])
  }

  /** `start`: every firing runs `sendEmails` once, and the runs' attempts follow
      one another; a failed fetch in one run does not stop later firings. */
  function Start(triggers: seq<Trigger>, smtpLogin: string): (out: seq<Attempt>)
    ensures |out| == TotalDue(triggers)
    ensures |triggers| > 0 ==>
      var t := triggers[0];
      out[..DueCount(t)] == SendEmails(t.store, t.clock, smtpLogin, t.fetchFails, t.fails)
    decreases |triggers|
  {
    if |triggers| == 0 then []
    else
      var t := triggers[0];
      var run := SendEmails(t.store, t.clock, smtpLogin, t.fetchFails, t.fails);
      var rest := Start(triggers[1..], smtpLogin);
      assert (run + rest)[..|run|] == run;
      run + rest
  }

  /** Firings are independent: the attempts of two spans of firings are the
      attempts of the first span followed by those of the second. */
  lemma {:induction false} StartAppend(a: seq<Trigger>, b: seq<Trigger>, smtpLogin: string)
    ensures Start(a + b, smtpLogin) == Start(a, smtpLogin) + Start(b, smtpLogin)
    decreases |a|
  {
    if |a| == 0 {
      assert a + b == b;
    } else {
      assert (a + b)[0] == a[0] && (a + b)[1..] == a[1..] + b;
      StartAppend(a[1..], b, smtpLogin);
    }
  }

  /** Every firing, not only the first, runs `sendEmails` once: the `k`-th firing's
      attempts sit between the attempts of the firings before it and those after. */
  lemma EveryFiringRuns(triggers: seq<Trigger>, smtpLogin: string, k: nat)
    requires k < |triggers|
    ensures var out := Start(triggers, smtpLogin);
      var t := triggers[k];
      && TotalDue(triggers[..k]) + DueCount(t) == TotalDue(triggers[..k + 1]) <= |out|
      && out[TotalDue(triggers[..k])..TotalDue(triggers[..k + 1])]
         == SendEmails(t.store, t.clock, smtpLogin, t.fetchFails, t.fails)
  {
    var t := triggers[k];
    var pre, rest := triggers[..k], triggers[k + 1..];
    assert triggers[..k + 1] == pre + [t];
    assert triggers == pre + [t] + rest;
    StartAppend(pre + [t], rest, smtpLogin);
    StartAppend(pre, [t], smtpLogin);
    StartOne(t, smtpLogin);
    SliceMiddle(Start(pre, smtpLogin), Start([t], smtpLogin), Start(rest, smtpLogin));
  }

  /** A single firing is one run of `sendEmails`. */
  lemma StartOne(t: Trigger, smtpLogin: string)
    ensures Start([t], smtpLogin) == SendEmails(t.store, t.clock, smtpLogin, t.fetchFails, t.fails)
  {
    assert [t][1..] == [];
  }

  lemma SliceMiddle<T>(a: seq<T>, b: seq<T>, c: seq<T>)
    ensures (a + b + c)[|a|..|a| + |b|] == b
  {
  }
}
