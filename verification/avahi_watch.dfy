/**
 * Avahi's I/O watches on top of libevent (struct s_avahi_watch): Avahi asks to watch a
 * file descriptor for IN/OUT, the bridge registers a persistent libevent event for
 * READ/WRITE, and translates libevent's firing back into Avahi's flags.
 *
 * libevent is outside the model: whether event_new and event_add succeed, and what
 * event_pending reports, arrive as parameters; the calls the bridge makes on the event are
 * recorded in `ops`.
 */
module AvahiWatch {
  import opened Wrappers
  import opened Foreign

  /** AvahiWatchEvent (Avahi's poll flags, Linux values). */
  const WATCH_IN: bv32 := 0x001
  const WATCH_OUT: bv32 := 0x004
  const WATCH_ERR: bv32 := 0x008
  const WATCH_HUP: bv32 := 0x010

  /** libevent's event flags (a C short). */
  const EV_TIMEOUT: bv16 := 0x01
  const EV_READ: bv16 := 0x02
  const EV_WRITE: bv16 := 0x04
  const EV_SIGNAL: bv16 := 0x08
  const EV_PERSIST: bv16 := 0x10

  /** The flags an Avahi watch registers with libevent (s_avahi_watch_new and _update). */
  function ToLibevent(events: bv32): (flags: bv16)
    ensures flags & EV_PERSIST != 0
    ensures flags & EV_READ != 0 <==> events & WATCH_IN != 0
    ensures flags & EV_WRITE != 0 <==> events & WATCH_OUT != 0
    ensures flags & !(EV_PERSIST | EV_READ | EV_WRITE) == 0
  {
    var withRead := if events & WATCH_IN != 0 then EV_PERSIST | EV_READ else EV_PERSIST;
    if events & WATCH_OUT != 0 then withRead | EV_WRITE else withRead
  }

  /** The Avahi flags reported for a firing with libevent's `what` (_s_avahi_watch_cbk). */
  function FromLibevent(what: bv16): (events: bv32)
    ensures events & WATCH_IN != 0 <==> what & EV_READ != 0
    ensures events & WATCH_OUT != 0 <==> what & EV_WRITE != 0
    ensures events & !(WATCH_IN | WATCH_OUT) == 0
  {
    var withIn: bv32 := if what & EV_READ != 0 then WATCH_IN else 0;
    if what & EV_WRITE != 0 then withIn | WATCH_OUT else withIn
  }

  /**
   * Registering and firing on everything registered gives back the IN/OUT part of the
   * request; for a request made only of IN and OUT, exactly the request.
   */
  lemma RoundTrip(events: bv32)
    ensures FromLibevent(ToLibevent(events)) == events & (WATCH_IN | WATCH_OUT)
    ensures events & !(WATCH_IN | WATCH_OUT) == 0 ==> FromLibevent(ToLibevent(events)) == events
  {
  }

  /** A libevent firing carries only the registered READ/WRITE bits back, with PERSIST and TIMEOUT dropped. */
  lemma FiringKeepsReadWrite(what: bv16)
    ensures ToLibevent(FromLibevent(what)) == (what & (EV_READ | EV_WRITE)) | EV_PERSIST
  {
  }

  /** A libevent event the watch holds: its descriptor, its flags, and whether event_add armed it. */
  datatype Registration = Registration(fd: int, flags: bv16, armed: bool)

  /** The libevent calls the watch makes on its event. */
  datatype EventOp = EventNew(flags: bv16) | EventAdd | EventDel | EventFree

  /** One call of the Avahi callback: the watch, the descriptor libevent reported, the events, the userdata. */
  datatype Invocation = Invocation(watch: Watch, fd: int, events: bv32, userdata: Handle)

  /** The registration event_new and event_add leave behind. */
  function Register(fd: int, events: bv32, created: bool, addResult: int): (r: Option<Registration>)
    ensures r.None? <==> !created
    ensures r.Some? ==> r.value.fd == fd && r.value.flags == ToLibevent(events) && (r.value.armed <==> addResult == 0)
    ensures r.Some? ==> r.value.flags & EV_PERSIST != 0 &&
                        FromLibevent(r.value.flags) == events & (WATCH_IN | WATCH_OUT)
  {
    RoundTrip(events);
    if created then Some(Registration(fd, ToLibevent(events), addResult == 0)) else None
  }

  class Watch {
    const base: Handle
    const callback: Handle
    const fd: int
    const userdata: Handle
    var event: Option<Registration>
    var ops: seq<EventOp>

    /** The watch s_avahi_watch_new keeps once its event is created and armed. */
    constructor (base: Handle, fd: int, events: bv32, callback: Handle, userdata: Handle)
      ensures this.base == base && this.fd == fd && this.callback == callback && this.userdata == userdata
      ensures event == Some(Registration(fd, ToLibevent(events), true))
      ensures ops == [EventNew(ToLibevent(events)), EventAdd]
    {
      this.base := base;
      this.fd := fd;
      this.callback := callback;
      this.userdata := userdata;
      event := Some(Registration(fd, ToLibevent(events), true));
      ops := [EventNew(ToLibevent(events)), EventAdd];
    }

    /** _s_avahi_watch_cbk: libevent fired on fd with `what`; the callback gets the translated events. */
    method Fire(fd: int, what: bv16) returns (call: Invocation)
      ensures call.watch == this && call.fd == fd && call.userdata == userdata
      ensures call.events & WATCH_IN != 0 <==> what & EV_READ != 0
      ensures call.events & WATCH_OUT != 0 <==> what & EV_WRITE != 0
      ensures call.events & !(WATCH_IN | WATCH_OUT) == 0
    {
      call := Invocation(this, fd, FromLibevent(what), userdata);
    }

    /**
     * s_avahi_watch_update: the old event is deleted and freed, a new one for the same
     * descriptor is created with the new flags and added. Only the registration changes.
     */
    method Update(events: bv32, created: bool, addResult: int)
      modifies this
      ensures event == Register(fd, events, created, addResult)
      ensures ops == old(ops) + [EventDel, EventFree, EventNew(ToLibevent(events))] + (if created then [EventAdd] else [])
    {
      ops := ops + [EventDel, EventFree];
      var flags := ToLibevent(events);
      ops := ops + [EventNew(flags)];
      if !created {
        event := None;
        return;
      }
      ops := ops + [EventAdd];
      event := Some(Registration(fd, flags, addResult == 0));
    }

    /** s_avahi_watch_get_events: IN and OUT for what event_pending reports for READ and WRITE. */
    method GetEvents(pendingRead: bool, pendingWrite: bool) returns (events: bv32)
      ensures events & WATCH_IN != 0 <==> pendingRead
      ensures events & WATCH_OUT != 0 <==> pendingWrite
      ensures events & !(WATCH_IN | WATCH_OUT) == 0
    {
      events := 0;
      if pendingRead {
        events := events | WATCH_IN;
      }
      if pendingWrite {
        events := events | WATCH_OUT;
      }
    }

    /** s_avahi_watch_free: the event is deleted and freed, then the watch. */
    method Free()
      modifies this
      ensures event == None && ops == old(ops) + [EventDel, EventFree]
    {
      ops := ops + [EventDel, EventFree];
      event := None;
    }
  }

  /**
   * s_avahi_watch_new: a NULL poll api or callback gives NULL; so does libevent failing to
   * create (`created`) or to add (`addResult` non-zero) the event. Otherwise a watch
   * holding fd, callback and userdata, armed with the translated flags.
   */
  method NewWatch(api: Option<Handle>, base: Handle, fd: int, events: bv32, callback: Option<Handle>,
                  userdata: Handle, created: bool, addResult: int)
      returns (w: Watch?)
    ensures w == null <==> api.None? || callback.None? || !created || addResult != 0
    ensures w != null ==> fresh(w) && w.fd == fd && w.callback == callback.value && w.userdata == userdata &&
                          w.base == base && w.event == Some(Registration(fd, ToLibevent(events), true))
  {
    if api.None? || callback.None? {
      return null;
    }
    if !created || addResult != 0 {
      return null;
    }
    w := new Watch(base, fd, events, callback.value, userdata);
  }
}
