/**
 * The publication group (struct s_group): the Avahi entry group cerebrum publishes its
 * service records through, with the records kept in a daemon list.
 *
 * Avahi itself is outside the model: the result of avahi_entry_group_add_service and the
 * client's errno arrive as parameters, and what the group does to the outside world
 * (resetting the entry group, calling the user's callbacks) is appended to `effects`, in
 * order.
 */
module AvahiGroup {
  import opened Wrappers
  import opened Errno
  import opened Foreign
  import opened DaemonList
  import opened AvahiService

  /** AVAHI_ERR_COLLISION. */
  const AVAHI_ERR_COLLISION: int := -8

  /** AvahiEntryGroupState. */
  datatype EntryState = Uncommited | Registering | Established | Collision | Failure

  /** The argument a collision callback receives: the stored userdata or the group itself. */
  datatype CollisionArg = UserData(userdata: Handle) | GroupItself

  /** The destroy callback s_group_free hands to the list: s_service_free (AvahiService.Free). */
  datatype Destructor = ServiceFree

  /** What the group does outside itself. */
  datatype Effect =
    | EntryReset
    | RunningCalled(userdata: Handle)
    | CollisionCalled(arg: CollisionArg)
    | FailureCalled(userdata: Handle, error: int)

  /** _s_group_cbk's switch: the effects of one state change reported by Avahi. */
  function Dispatch(state: EntryState, userdata: Handle, error: int): (effects: seq<Effect>)
  {
    match state
    case Established => [RunningCalled(userdata)]
    case Collision => [EntryReset, CollisionCalled(UserData(userdata))]
    case Failure => [FailureCalled(userdata, error)]
    case Uncommited => []
    case Registering => []
  }

  /** The number of user callbacks among some effects. */
  function Callbacks(effects: seq<Effect>): nat
  {
    if effects == [] then 0
    else (if effects[0] == EntryReset then 0 else 1) + Callbacks(effects[1..])
  }

  /**
   * Each reported state calls at most one user callback, always with the userdata:
   * established, collision and failure call exactly one, collision resets the entry group
   * first, and the two transient states call none.
   */
  lemma DispatchSpec(state: EntryState, userdata: Handle, error: int)
    ensures Callbacks(Dispatch(state, userdata, error)) == (if state.Uncommited? || state.Registering? then 0 else 1)
    ensures forall e :: e in Dispatch(state, userdata, error) ==>
              e == EntryReset || e == RunningCalled(userdata) ||
              e == CollisionCalled(UserData(userdata)) || e == FailureCalled(userdata, error)
    ensures state.Collision? ==> Dispatch(state, userdata, error)[0] == EntryReset
    ensures EntryReset in Dispatch(state, userdata, error) <==> state.Collision?
  {
    var effects := Dispatch(state, userdata, error);
    if state.Collision? {
      assert effects[1..] == [CollisionCalled(UserData(userdata))];
      assert effects[1..][1..] == [];
      assert Callbacks(effects[1..]) == 1;
      assert Callbacks(effects) == 1;
    } else if effects != [] {
      assert effects[1..] == [];
      assert Callbacks(effects) == 1;
    }
  }

  /** uint32 arithmetic, as C does it on the list lengths. */
  function Wrap(x: int): (r: uint32)
    ensures 0 <= x < UINT32_LIMIT ==> r == x
  {
    x % UINT32_LIMIT
  }

  /** Counting one more commutes with the wrap-around. */
  lemma WrapSucc(n: nat)
    ensures Wrap(Wrap(n) as int + 1) == Wrap(n + 1)
  {
    if n % UINT32_LIMIT == UINT32_LIMIT - 1 {
      assert (n + 1) % UINT32_LIMIT == 0;
    } else {
      assert (n + 1) % UINT32_LIMIT == n % UINT32_LIMIT + 1;
    }
  }

  /**
   * The status s_group_remove_service computes after removing a record, as written:
   * `!(before == after - 1)`, which is 1 whenever exactly one record went away.
   */
  function RemoveStatusAsWritten(before: uint32, after: uint32): (r: int)
    ensures r == 0 <==> before == Wrap(after as int - 1)
    ensures r == 0 <==> after as int == before as int + 1 || (after == 0 && before as int == UINT32_LIMIT - 1)
    ensures before == Wrap(after as int + 1) ==> r == 1
  {
    if before == Wrap(after as int - 1) then 0 else 1
  }

  /** The status the header promises: 0 when exactly one record went away, 1 otherwise. */
  function RemoveStatus(before: uint32, after: uint32): (r: int)
    ensures r == 0 <==> Wrap(after as int + 1) == before
    ensures r == 0 <==> before as int == after as int + 1 || (before == 0 && after as int == UINT32_LIMIT - 1)
    ensures r == 0 || r == 1
  {
    if Wrap(after as int + 1) == before then 0 else 1
  }

  /** The lengths counted around appending to n records pass the -EBADE check. */
  lemma AppendedOne(n: nat, size: uint32, size': uint32)
    requires size == n % UINT32_LIMIT && size' == (n + 1) % UINT32_LIMIT
    ensures Wrap(size as int + 1) == size'
  {
    WrapSucc(n);
  }

  /** The lengths counted around removing one of n records give status 0. */
  lemma RemovedOne(n: nat, size: uint32, size': uint32)
    requires 0 < n && size == n % UINT32_LIMIT && size' == (n - 1) % UINT32_LIMIT
    ensures RemoveStatus(size, size') == 0
  {
    RemoveStatusAfterRemoval(n);
  }

  /** Removing one record out of n gives 1 as written and 0 as intended. */
  lemma RemoveStatusAfterRemoval(n: nat)
    requires 0 < n
    ensures RemoveStatusAsWritten(Wrap(n), Wrap(n - 1)) == 1
    ensures RemoveStatus(Wrap(n), Wrap(n - 1)) == 0
  {
    if n % UINT32_LIMIT == 0 {
      assert Wrap(n - 1) == UINT32_LIMIT - 1;
    } else {
      assert Wrap(n - 1) == Wrap(n) - 1;
    }
  }

  /**
   * The append step of s_group_add_service: the length before, the append, the length
   * after. `consistent` is the check that guards the -EBADE return; it always holds.
   */
  method AppendCounted(head: Node?<ServiceData>, ghost nodes: seq<Node<ServiceData>>, data: ServiceData)
      returns (r: Node?<ServiceData>, ghost nodes': seq<Node<ServiceData>>, consistent: bool)
    requires Chain(head, nodes)
    modifies nodes
    ensures consistent
    ensures Chain(r, nodes') && Elems(nodes') == Elems(nodes) + [data]
  {
    var size := Length(head, nodes);
    r, nodes' := Append(head, nodes, Some(data));
    var size' := Length(r, nodes');
    AppendedOne(|nodes|, size, size');
    consistent := Wrap(size as int + 1) == size';
  }

  /**
   * The removal step of s_group_remove_service once the record is known to be there: the
   * length before, the removal of its first occurrence, the length after, and the status
   * computed from the two (RemoveStatus).
   */
  method RemoveCounted(head: Node?<ServiceData>, ghost nodes: seq<Node<ServiceData>>, data: ServiceData)
      returns (r: Node?<ServiceData>, ghost nodes': seq<Node<ServiceData>>, status: int)
    requires Chain(head, nodes) && data in Elems(nodes)
    modifies nodes
    ensures status == 0
    ensures Chain(r, nodes') && Elems(nodes') == RemoveFirst(Elems(nodes), data)
  {
    var size := Length(head, nodes);
    r, nodes' := Remove(head, nodes, Some(data));
    var size' := Length(r, nodes');
    assert |nodes'| == |nodes| - 1;
    RemovedOne(|nodes|, size, size');
    status := RemoveStatus(size, size');
  }

  /**
   * The part of s_group_remove_service after the NULL checks: look the record up, and remove
   * its first occurrence when it is there. An empty list counts as not holding it.
   */
  method RemoveRecord(head: Node?<ServiceData>, ghost nodes: seq<Node<ServiceData>>, data: ServiceData)
      returns (r: Node?<ServiceData>, ghost nodes': seq<Node<ServiceData>>, status: int)
    requires Chain(head, nodes)
    modifies nodes
    ensures Chain(r, nodes')
    ensures data !in Elems(nodes) ==> status == -EAGAIN && r == head && nodes' == nodes
    ensures data in Elems(nodes) ==> status == 0 && Elems(nodes') == RemoveFirst(Elems(nodes), data)
  {
    if head == null {
      return head, nodes, -EAGAIN;
    }
    var element := Find(head, nodes, Some(data));
    if element == null {
      return head, nodes, -EAGAIN;
    }
    r, nodes', status := RemoveCounted(head, nodes, data);
  }

  class Group {
    /** The entry group Avahi handed out, and the pointer given back to the callbacks. */
    const entry: Handle
    const userdata: Handle
    /** The published records, in the order they were added (the head of a daemon list). */
    var services: Node?<ServiceData>
    ghost var nodes: seq<Node<ServiceData>>
    var effects: seq<Effect>

    ghost predicate Valid()
      reads this, nodes
    {
      Chain(services, nodes)
    }

    /** The allocation in s_group_new once Avahi has created the entry group: no records yet. */
    constructor (entry: Handle, userdata: Handle)
      ensures Valid() && Elems(nodes) == [] && effects == []
      ensures this.entry == entry && this.userdata == userdata
    {
      this.entry := entry;
      this.userdata := userdata;
      services := null;
      nodes := [];
      effects := [];
    }

    /** _s_group_cbk: Avahi reports a new state of the entry group. */
    method OnStateChange(state: EntryState, clientErrno: int)
      modifies this
      ensures effects == old(effects) + Dispatch(state, userdata, clientErrno)
      ensures services == old(services) && nodes == old(nodes)
    {
      match state {
        case Established =>
          effects := effects + [RunningCalled(userdata)];
        case Collision =>
          effects := effects + [EntryReset];
          effects := effects + [CollisionCalled(UserData(userdata))];
        case Failure =>
          effects := effects + [FailureCalled(userdata, clientErrno)];
        case Uncommited =>
        case Registering =>
      }
    }

    /**
     * s_group_add_service, with Avahi's answer `added` to the registration. On 0 the record
     * goes to the end of the list (the length check that follows can never fail); on a
     * collision the entry group is reset and the collision callback gets the group itself;
     * Avahi's answer is returned either way.
     */
    method AddService(data: ServiceData?, added: int) returns (r: int)
      requires Valid()
      modifies this, nodes
      ensures Valid()
      ensures data == null ==> r == -EINVAL && Elems(nodes) == old(Elems(nodes)) && effects == old(effects)
      ensures data != null ==> r == added
      ensures data != null && added == 0 ==>
                Elems(nodes) == old(Elems(nodes)) + [data] && effects == old(effects)
      ensures data != null && added == AVAHI_ERR_COLLISION ==>
                Elems(nodes) == old(Elems(nodes)) && effects == old(effects) + [EntryReset, CollisionCalled(GroupItself)]
      ensures data != null && added != 0 && added != AVAHI_ERR_COLLISION ==>
                Elems(nodes) == old(Elems(nodes)) && effects == old(effects)
    {
      if data == null {
        return -EINVAL;
      }
      if added == 0 {
        var consistent;
        services, nodes, consistent := AppendCounted(services, nodes, data);
        // AppendCounted proves consistent: the -EBADE return never happens.
      } else if added == AVAHI_ERR_COLLISION {
        effects := effects + [EntryReset];
        effects := effects + [CollisionCalled(GroupItself)];
      }
      return added;
    }

    /**
     * s_group_remove_service: a NULL record gives -EINVAL and one the group does not hold
     * gives -EAGAIN, both with no change; otherwise its first occurrence is removed and the
     * status is 0 (RemoveStatus).
     */
    method RemoveService(data: ServiceData?) returns (r: int)
      requires Valid()
      modifies this, nodes
      ensures Valid() && effects == old(effects)
      ensures data == null ==> r == -EINVAL && Elems(nodes) == old(Elems(nodes))
      ensures data != null && data !in old(Elems(nodes)) ==> r == -EAGAIN && Elems(nodes) == old(Elems(nodes))
      ensures data != null && data in old(Elems(nodes)) ==>
                r == 0 && Elems(nodes) == RemoveFirst(old(Elems(nodes)), data)
    {
      if data == null {
        return -EINVAL;
      }
      services, nodes, r := RemoveRecord(services, nodes, data);
    }

    /**
     * s_group_free: every record goes to s_service_free, in list order, whatever state the
     * group is in; the list and then the group are released.
     */
    method Free() returns (destroyed: seq<ServiceData>)
      requires Valid()
      modifies this, nodes
      ensures destroyed == old(Elems(nodes))
      ensures Valid() && Elems(nodes) == [] && effects == old(effects)
    {
      ghost var released;
      destroyed, released := FreeFull(services, nodes, Some(ServiceFree));
      services, nodes := null, [];
    }
  }

  /**
   * s_group_new: NULL client, NULL callbacks or a client without an Avahi handle give NULL,
   * and so does Avahi refusing to create the entry group (`entry` None); otherwise a fresh
   * empty group.
   */
  method NewGroup(client: Option<Handle>, funcs: bool, avahiClient: Option<Handle>, entry: Option<Handle>,
                  userdata: Handle)
      returns (g: Group?)
    ensures g == null <==> client.None? || !funcs || avahiClient.None? || entry.None?
    ensures g != null ==> fresh(g) && g.Valid() && Elems(g.nodes) == [] && g.effects == [] &&
                          g.entry == entry.value && g.userdata == userdata
  {
    if client.None? || !funcs || avahiClient.None? {
      return null;
    }
    if entry.None? {
      return null;
    }
    g := new Group(entry.value, userdata);
  }
}
