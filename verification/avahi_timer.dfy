/**
 * Avahi's timeouts on top of libevent (struct s_avahi_timer): Avahi gives an absolute
 * deadline, libevent wants a delay, so the bridge subtracts the current time from the
 * deadline the way evutil_timersub does (seconds and microseconds apart, with a borrow).
 *
 * The clock and libevent are outside the model: "now", and whether event_new and
 * evtimer_add succeed, arrive as parameters; the calls the bridge makes on its event are
 * recorded in `ops`.
 */
module AvahiTimer {
  import opened Wrappers
  import opened Foreign

  const USEC_PER_SEC: int := 1_000_000

  /** struct timeval. */
  datatype TimeVal = TimeVal(sec: int, usec: int)

  /** The instant or span a timeval stands for, in microseconds. */
  function Micros(t: TimeVal): int
  {
    t.sec * USEC_PER_SEC + t.usec
  }

  /** A timeval as gettimeofday and evutil_timersub produce it. */
  predicate Normalized(t: TimeVal)
  {
    0 <= t.usec < USEC_PER_SEC
  }

  /** evutil_timersub(a, b): a - b field by field, borrowing a second when the microseconds go negative. */
  function TimerSub(a: TimeVal, b: TimeVal): (r: TimeVal)
    ensures Micros(r) == Micros(a) - Micros(b)
    ensures Normalized(a) && Normalized(b) ==> Normalized(r)
  {
    var sec := a.sec - b.sec;
    var usec := a.usec - b.usec;
    if usec < 0 then TimeVal(sec - 1, usec + USEC_PER_SEC) else TimeVal(sec, usec)
  }

  /** A deadline already past is not clamped: the delay is negative. */
  lemma PastDeadlineNotClamped(deadline: TimeVal, now: TimeVal)
    requires Normalized(deadline) && Normalized(now) && Micros(deadline) < Micros(now)
    ensures Micros(TimerSub(deadline, now)) < 0 && TimerSub(deadline, now).sec < 0
  {
  }

  /** The delay s_avahi_timer_new arms with: zero for no deadline or {0, 0}, else deadline - now. */
  function InitialDelay(deadline: Option<TimeVal>, now: TimeVal): (delay: TimeVal)
    ensures deadline.None? || deadline.value == TimeVal(0, 0) ==> delay == TimeVal(0, 0)
    ensures deadline.Some? && deadline.value != TimeVal(0, 0) ==>
              Micros(delay) == Micros(deadline.value) - Micros(now)
  {
    if deadline.None? || (deadline.value.sec == 0 && deadline.value.usec == 0) then TimeVal(0, 0)
    else TimerSub(deadline.value, now)
  }

  /** The libevent calls the timer makes on its event. */
  datatype TimerOp = TimerAdd(delay: TimeVal) | TimerDel | TimerFree

  /** Every arming after the first is made right after a disarm. */
  ghost predicate DisarmsFirst(ops: seq<TimerOp>)
  {
    forall i :: 0 < i < |ops| && ops[i].TimerAdd? ==> ops[i - 1] == TimerDel
  }

  /** One call of the Avahi callback: the timer and the userdata. */
  datatype Invocation = Invocation(timer: Timer, userdata: Handle)

  class Timer {
    const callback: Handle
    const userdata: Handle
    /** The delay the event is armed with in libevent, if it is pending. */
    var pending: Option<TimeVal>
    var ops: seq<TimerOp>

    ghost predicate Valid()
      reads this
    {
      DisarmsFirst(ops) && (pending.Some? ==> |ops| > 0 && ops[|ops| - 1] == TimerAdd(pending.value))
    }

    /** The timer s_avahi_timer_new keeps once its event is created and armed with delay. */
    constructor (callback: Handle, userdata: Handle, delay: TimeVal)
      ensures Valid() && this.callback == callback && this.userdata == userdata
      ensures pending == Some(delay) && ops == [TimerAdd(delay)]
    {
      this.callback := callback;
      this.userdata := userdata;
      pending := Some(delay);
      ops := [TimerAdd(delay)];
    }

    /** _s_avahi_timeout_cbk: libevent fires the one-shot timeout, which is then no longer pending. */
    method Fire() returns (call: Invocation)
      requires Valid() && pending.Some?
      modifies this
      ensures Valid() && call == Invocation(this, userdata)
      ensures pending == None && ops == old(ops)
    {
      pending := None;
      call := Invocation(this, userdata);
    }

    /**
     * s_avahi_timer_update: the event is always disarmed first; a NULL deadline leaves it
     * disarmed, any other deadline (even {0, 0}) re-arms it with deadline - now. The result
     * of evtimer_add is ignored: `added` says whether libevent accepted it.
     */
    method Update(deadline: Option<TimeVal>, now: TimeVal, added: bool)
      requires Valid()
      modifies this
      ensures Valid()
      ensures deadline.None? ==> pending == None && ops == old(ops) + [TimerDel]
      ensures deadline.Some? ==>
                var delay := TimerSub(deadline.value, now);
                Micros(delay) == Micros(deadline.value) - Micros(now) &&
                ops == old(ops) + [TimerDel, TimerAdd(delay)] &&
                pending == (if added then Some(delay) else None)
    {
      ops := ops + [TimerDel];
      pending := None;
      if deadline.None? {
        return;
      }
      var delay := TimerSub(deadline.value, now);
      ops := ops + [TimerAdd(delay)];
      if added {
        pending := Some(delay);
      }
    }

    /** s_avahi_timer_free: the event is disarmed and freed, then the timer. */
    method Free()
      requires Valid()
      modifies this
      ensures Valid() && pending == None && ops == old(ops) + [TimerDel, TimerFree]
    {
      ops := ops + [TimerDel, TimerFree];
      pending := None;
    }
  }

  /**
   * s_avahi_timer_new: a NULL poll api or callback gives NULL, and so does libevent failing
   * to create the event (`created`) or to add it (`addResult` negative). Otherwise a timer
   * armed once with InitialDelay.
   */
  method NewTimer(api: Option<Handle>, deadline: Option<TimeVal>, callback: Option<Handle>, userdata: Handle,
                  now: TimeVal, created: bool, addResult: int)
      returns (t: Timer?)
    ensures t == null <==> api.None? || callback.None? || !created || addResult < 0
    ensures t != null ==> fresh(t) && t.Valid() && t.callback == callback.value && t.userdata == userdata &&
                          t.pending == Some(InitialDelay(deadline, now)) && t.ops == [TimerAdd(InitialDelay(deadline, now))]
  {
    if api.None? || callback.None? {
      return null;
    }
    var delay: TimeVal;
    if deadline.None? || (deadline.value.sec == 0 && deadline.value.usec == 0) {
      delay := TimeVal(0, 0);
    } else {
      delay := TimerSub(deadline.value, now);
    }
    if !created || addResult < 0 {
      return null;
    }
    t := new Timer(callback.value, userdata, delay);
  }
}
