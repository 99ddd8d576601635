# cerebrum daemon core, modelled in Dafny

This project models the bookkeeping the cerebrum daemon does for itself and proves
properties of it. It covers:

- the daemon's generic doubly linked list (`s_list`);
- the Avahi side of service discovery:
  - the service record and its TXT-key check (`s_service_*`);
  - the publication group that keeps the published records in a list (`s_group_*`);
  - the bridges that run Avahi's watches and timeouts on libevent (`s_avahi_watch_*`,
    `s_avahi_timer_*`);
- the TLS side:
  - packets (`s_ssl_packet_*`);
  - the callback table (`s_ssl_funcs_check`);
  - connections and their event handling (`s_ssl_connection_*`);
  - the server with its set of live connections (`s_ssl_server_*`).

Some code works by changing things in place: list cells, groups, watches, timers,
servers and packet buffers. That code is imperative Dafny:

- classes with `modifies` clauses;
- loops with invariants;
- an `array` for packet payloads.

The decisions are pure functions with lemmas: flag translation, event classification,
time subtraction, key comparison and teardown order.

A list is a chain of `Node` objects. Every list operation takes the head pointer and a
ghost sequence `nodes` of the cells, and returns the new head with the new sequence.
`Chain(head, nodes)` states that the cells are distinct and linked both ways.
`Elems(nodes)` is the list of payloads. Payloads are compared by address, as the C code
compares pointers.

Some things are outside the daemon: Avahi, libevent, OpenSSL, the clock, and the
callbacks the user registers. What they answer is a parameter of the operation:

- the result of `avahi_entry_group_add_service`;
- whether `event_new` or `event_add` succeeded;
- what `event_pending` reports;
- the current time;
- the bytes a bufferevent holds;
- the result of `bufferevent_write`;
- the context and listener `s_ssl_server_connect` obtains.

What the code does to the outside world is returned or recorded as a trace of effects,
in order. That covers calling a callback, resetting an entry group, and freeing memory.
A C `NULL` is `None` (an `Option`) or a `null` reference.

Files, one module each except the first:

| file | module | source |
|---|---|---|
| `common.dfy` | `Wrappers`, `Errno`, `Foreign` | `Option`, errno values (Linux numbering), fixed-width integers, opaque handles |
| `daemon_list.dfy` | `DaemonList` | `src/daemon/daemon-list.c`, `daemon-list.h` |
| `avahi_service.dfy` | `AvahiService` | `src/daemon/avahi/avahi-service.c` |
| `avahi_group.dfy` | `AvahiGroup` | `src/daemon/avahi/avahi-group.c` |
| `avahi_watch.dfy` | `AvahiWatch` | `src/daemon/avahi/avahi-watch.c` |
| `avahi_timer.dfy` | `AvahiTimer` | `src/daemon/avahi/avahi-timer.c` |
| `ssl.dfy` | `Ssl` | `src/daemon/ssl/ssl.h` |
| `ssl_packet.dfy` | `SslPacket` | `src/daemon/ssl/ssl-packet.h` |
| `ssl_session.dfy` | `SslSession` | `src/daemon/ssl/ssl-connection.c`, `ssl-server.c` |

Connections and the server share one module because each refers to the other: a
connection holds its server, and the server lists its connections.

## Model

| member | source | states |
|---|---|---|
| DaemonList.Check | src/daemon/daemon-list.c:28-38 | The walk finds link exactly when the list and link are non-NULL and link is one of the list's cells. |
| DaemonList.First | src/daemon/daemon-list.c:305-310 | The cell it is given, which is the first cell of the cells that follow it; NULL for an empty list. It does not walk back. |
| DaemonList.Last | src/daemon/daemon-list.c:312-325 | Walking forward gives the last cell; the empty list gives NULL. |
| DaemonList.Length | src/daemon/daemon-list.c:234-247 | The count is the number of cells, modulo 2^32 (uint32_t). |
| DaemonList.Nth | src/daemon/daemon-list.c:327-343 | The cell at index n of a list given by its first cell; NULL past the end, for a NULL list, or when a non-first cell is given. |
| DaemonList.Find | src/daemon/daemon-list.c:345-357 | The first cell whose payload is data; NULL when there is none or data is NULL. |
| DaemonList.Free | src/daemon/daemon-list.c:60-67 | Every cell from the given one onward is released, the last cell first. |
| DaemonList.FreeFull | src/daemon/daemon-list.c:69-84 | With a destroy function, it is called once on each payload, in list order, and every cell is released in order. With none, nothing happens. |
| DaemonList.Foreach | src/daemon/daemon-list.c:293-303 | One call per cell, in list order, with the arguments in the order the code passes them (user data, then payload). A NULL function makes no call. |
| DaemonList.LinkAfter | src/daemon/daemon-list.c:86-100 | A fresh cell holding data is linked right after a given cell; the list stays linked both ways. |
| DaemonList.AppendCopy | src/daemon/daemon-list.c:86-100 | The payload list gains copy(data, user) at its end. The old cells keep their order. The head is the new cell only if the list was empty. |
| DaemonList.Append | src/daemon/daemon-list.c:108-113 | The payload list gains data at its end; a NULL payload changes nothing. |
| DaemonList.Prepend | src/daemon/daemon-list.c:115-125 | A fresh first cell holding data; a NULL payload changes nothing. |
| DaemonList.Insert | src/daemon/daemon-list.c:127-151 | As written: the payload lands at index InsertIndex (position + 1 for an inner position). All other payloads keep their order. |
| DaemonList.InsertIndexOffByOne | src/daemon/daemon-list.c:127-151 | The written and intended indexes agree exactly for position 0 and for positions at or past the end. Otherwise the written index is one more. Position 1 in a 3-element list shows it. |
| DaemonList.InsertAtPosition | src/daemon/daemon-list.h:132-142 | Corrected insert: the payload lands at index position, or last when position is past the end. All other payloads keep their order. |
| DaemonList.ElemsInsertedAt | src/daemon/daemon-list.c:153-172 | Inserting a cell at index k inserts its payload at index k of the payload list. |
| DaemonList.LinkBefore | src/daemon/daemon-list.c:162-166 | A fresh cell linked between an inner cell and its predecessor; the list stays linked both ways. |
| DaemonList.InsertBefore | src/daemon/daemon-list.c:153-172 | As written. A NULL payload, a NULL sibling or a non-member sibling changes nothing. Otherwise the payload goes in front of sibling. When sibling is the head, the new head's successor keeps a NULL back link, so the list is no longer linked both ways. |
| DaemonList.InsertBeforeLinked | src/daemon/daemon-list.h:144-155 | Corrected insert_before: the payload goes in front of sibling, or at the end for a NULL sibling. The list stays linked both ways. |
| DaemonList.RemoveLink | src/daemon/daemon-list.c:185-206 | A member cell is unlinked and left as a one-cell list, and the rest stays linked. A NULL or non-member link changes nothing. |
| DaemonList.DeleteLink | src/daemon/daemon-list.c:208-214 | remove_link on a member cell, which is then released. |
| DaemonList.Remove | src/daemon/daemon-list.c:174-183 | The first cell holding data is unlinked and released, giving RemoveFirst of the payloads. No such cell or a NULL payload changes nothing. |
| DaemonList.RemoveFirstMultiset | src/daemon/daemon-list.c:174-183 | Removing the first occurrence takes exactly one copy of data out of the payload multiset. |
| DaemonList.RemoveFirstKeeps | src/daemon/daemon-list.c:174-183 | After removing one occurrence, data is still there exactly when it occurred more than once. |
| DaemonList.RemoveAll | src/daemon/daemon-list.c:216-232 | Every cell holding data is removed; the others are kept in order, giving RemoveEvery of the payloads. |
| DaemonList.RemoveEveryCount | src/daemon/daemon-list.c:216-232 | RemoveEvery drops every copy of data and no other payload; the length falls by the number of copies. |
| DaemonList.ElemsKeepOthers | src/daemon/daemon-list.c:216-232 | The cells kept by remove_all hold exactly the payloads RemoveEvery keeps. |
| DaemonList.Copy | src/daemon/daemon-list.c:249-261 | From a first cell: fresh cells, linked both ways, holding the same payloads in order. A NULL list or a non-first cell is returned as is. |
| DaemonList.DeepCopy | src/daemon/daemon-list.c:263-277 | From a first cell with a copy function: fresh cells whose payloads are func(payload, user), in order. Otherwise the argument is returned. |
| DaemonList.Concat | src/daemon/daemon-list.c:279-291 | Two first cells: list1's cells, then fresh cells holding list2's payloads, linked both ways. Otherwise nothing changes. |
| AvahiService.ServiceData.Generate | src/daemon/avahi/avahi-service.c:31-43 | The fixed record: name "cerebrum", type "_http._tcp", port 651, any interface, IPv4, the service key as TXT data, no domain or host. |
| AvahiService.OwnedUpToSpec | src/daemon/avahi/avahi-service.c:45-60 | The owned-field prefix lists exactly the non-NULL fields among the first n, each once, in free order. |
| AvahiService.OwnedFieldsSpec | src/daemon/avahi/avahi-service.c:45-60 | A record's freed fields are exactly its non-NULL ones, each once, and never the record itself. |
| AvahiService.Free | src/daemon/avahi/avahi-service.c:45-60 | Each non-NULL field is released in the order name, type, domain, host, data, then the record. NULL releases nothing. |
| AvahiService.FreeGenerated | src/daemon/avahi/avahi-service.c:31-60 | Freeing a generated record releases its name, type and key, then the record. |
| AvahiService.Strncmp | src/daemon/avahi/avahi-service.c:69 | strncmp's result is modelled by its sign only. |
| AvahiService.StrncmpZero | src/daemon/avahi/avahi-service.c:69 | For C strings, comparing n bytes of a string at least n bytes long gives 0 exactly when the first n bytes agree. |
| AvahiService.Check | src/daemon/avahi/avahi-service.c:62-70 | As written: NULL gives -EINVAL. A byte length (strlen) different modulo 256 gives 1. |
| AvahiService.CheckAccepts | src/daemon/avahi/avahi-service.c:62-70 | As written, a key is accepted exactly when its length in bytes is 35 modulo 256 and its first 35 bytes are the service key. |
| AvahiService.CheckAcceptsOverlongKey | src/daemon/avahi/avahi-service.c:66-69 | The service key followed by 256 more bytes passes the check as written. |
| AvahiService.CheckCountsBytes | src/daemon/avahi/avahi-service.c:66-69 | The service key followed by 128 two-byte UTF-8 characters (163 characters, 291 bytes) passes the check as written, because strlen counts bytes. |
| AvahiService.CheckExact | src/daemon/avahi/avahi-service.h:46-51 | Corrected check: NULL gives -EINVAL. |
| AvahiService.CheckExactAccepts | src/daemon/avahi/avahi-service.h:46-51 | The corrected check accepts exactly the service key. On keys shorter than 256 bytes it agrees with the check as written. |
| AvahiService.GeneratedKeyPasses | src/daemon/avahi/avahi-service.c:29-43 | The key a generated record carries passes both checks. |
| AvahiGroup.DispatchSpec | src/daemon/avahi/avahi-group.c:37-65 | Established, collision and failure each call exactly one user callback, always with the stored userdata; the other states call none. A collision resets the entry group first, and only a collision resets it. |
| AvahiGroup.Group.OnStateChange | src/daemon/avahi/avahi-group.c:37-65 | The effects of a reported state are appended; the record list is untouched. |
| AvahiGroup.Wrap | src/daemon/avahi/avahi-group.c:112-119 | uint32_t arithmetic: values below 2^32 are kept. |
| AvahiGroup.WrapSucc | src/daemon/avahi/avahi-group.c:112-119 | Adding one commutes with the 32-bit wrap-around. |
| AvahiGroup.AppendedOne | src/daemon/avahi/avahi-group.c:112-119 | The lengths counted around an append always satisfy size + 1 == new length, so the -EBADE branch is unreachable. |
| AvahiGroup.RemoveStatusAsWritten | src/daemon/avahi/avahi-group.c:138-140 | The status as written is 0 only when the count went UP by one (from 2^32-1 to 0 included), and it is 1 for every pair of lengths around a removal. |
| AvahiGroup.RemoveStatus | src/daemon/avahi/avahi-group.h:77-83 | Corrected status, always 0 or 1: 0 exactly when the count went down by one, as integers or from 0 wrapped to 2^32-1. |
| AvahiGroup.RemoveStatusAfterRemoval | src/daemon/avahi/avahi-group.c:138-140 | Removing one of n records gives status 1 as written and 0 as corrected, for every n. |
| AvahiGroup.RemovedOne | src/daemon/avahi/avahi-group.c:138-140 | The lengths counted around a removal give corrected status 0. |
| AvahiGroup.AppendCounted | src/daemon/avahi/avahi-group.c:112-119 | The record is appended and the length check holds. |
| AvahiGroup.RemoveCounted | src/daemon/avahi/avahi-group.h:77-83 | The first occurrence is removed and the corrected status is 0. |
| AvahiGroup.RemoveRecord | src/daemon/avahi/avahi-group.h:77-83 | A record the list does not hold gives -EAGAIN and no change. A held record loses its first occurrence, with status 0. |
| AvahiGroup.Group.AddService | src/daemon/avahi/avahi-group.c:102-128 | NULL gives -EINVAL. Avahi's answer is returned. On 0 the record is appended. On a collision the entry group is reset and the collision callback gets the group. Otherwise nothing changes. |
| AvahiGroup.Group.RemoveService | src/daemon/avahi/avahi-group.c:130-143 | NULL gives -EINVAL. A record not held gives -EAGAIN. A held record loses its first occurrence, with status 0. |
| AvahiGroup.Group.Free | src/daemon/avahi/avahi-group.c:94-100 | Every record goes to s_service_free, in list order, and the list is emptied. |
| AvahiGroup.NewGroup | src/daemon/avahi/avahi-group.c:68-92 | NULL exactly when the client, the callbacks or the Avahi client is missing, or Avahi creates no entry group. Otherwise an empty group. |
| AvahiWatch.ToLibevent | src/daemon/avahi/avahi-watch.c:55-59 | PERSIST always set; READ exactly for IN, WRITE exactly for OUT; no other bit. |
| AvahiWatch.FromLibevent | src/daemon/avahi/avahi-watch.c:37-41 | IN exactly for READ, OUT exactly for WRITE; no other bit. |
| AvahiWatch.RoundTrip | src/daemon/avahi/avahi-watch.c:37-59 | Registering and firing on everything registered gives back the IN/OUT part of the request. |
| AvahiWatch.FiringKeepsReadWrite | src/daemon/avahi/avahi-watch.c:37-59 | Translating a firing back keeps its READ/WRITE bits, drops the others, and adds PERSIST. |
| AvahiWatch.Register | src/daemon/avahi/avahi-watch.c:85-95 | A registration exists exactly when event_new succeeded, and is armed exactly when event_add returned 0. It is persistent, and a firing on everything it registered reports back exactly the IN/OUT part of Avahi's request. |
| AvahiWatch.Watch.Fire | src/daemon/avahi/avahi-watch.c:32-44 | The callback gets the watch, the descriptor, the translated events and the userdata. |
| AvahiWatch.Watch.Update | src/daemon/avahi/avahi-watch.c:78-96 | The old event is deleted and freed, and a new one is created with the new flags and added. Only the registration changes. |
| AvahiWatch.Watch.GetEvents | src/daemon/avahi/avahi-watch.c:98-109 | IN exactly when READ is pending, OUT exactly when WRITE is pending, nothing else. |
| AvahiWatch.Watch.Free | src/daemon/avahi/avahi-watch.c:111-118 | The event is deleted and then freed. |
| AvahiWatch.NewWatch | src/daemon/avahi/avahi-watch.c:46-76 | NULL exactly when the poll api or callback is NULL, or libevent fails to create or add the event. Otherwise an armed watch with the translated flags. |
| AvahiTimer.TimerSub | src/daemon/avahi/avahi-timer.c:56-57 | The difference in microseconds is exact; normalised inputs give a normalised result. |
| AvahiTimer.PastDeadlineNotClamped | src/daemon/avahi/avahi-timer.c:82-85 | A deadline already past gives a negative delay; nothing clamps it to zero. |
| AvahiTimer.InitialDelay | src/daemon/avahi/avahi-timer.c:53-58 | No deadline, or {0, 0}, gives a zero delay. Otherwise the delay is the deadline minus now. |
| AvahiTimer.Timer.Fire | src/daemon/avahi/avahi-timer.c:30-36 | The callback gets the timer and userdata; the timer is no longer pending. |
| AvahiTimer.Timer.Update | src/daemon/avahi/avahi-timer.c:70-86 | Always disarms first. A NULL deadline leaves the timer disarmed. Any other deadline re-arms with deadline minus now. Every arming follows a disarm. |
| AvahiTimer.Timer.Free | src/daemon/avahi/avahi-timer.c:88-95 | The event is disarmed and then freed. |
| AvahiTimer.NewTimer | src/daemon/avahi/avahi-timer.c:38-68 | NULL exactly when the poll api or callback is NULL, or libevent fails to create or add the event. Otherwise a timer armed with InitialDelay. |
| Ssl.FuncsCheck | src/daemon/ssl/ssl.h:85-92 | A NULL table gives -EINVAL and an incomplete one -EBADE. The result is 0 exactly when all three callbacks are set. |
| SslPacket.Packet.constructor | src/daemon/ssl/ssl-packet.h:41-45 | A fresh buffer of the requested size, holding the first size bytes of the source. |
| SslPacket.New | src/daemon/ssl/ssl-packet.h:36-46 | NULL exactly for a NULL payload. Otherwise a packet of the requested size whose bytes equal the source's first size bytes, in a buffer of its own. |
| SslPacket.OverwriteSource | src/daemon/ssl/ssl-packet.h:36-43 | A packet made by New from a caller's buffer keeps the bytes the buffer had when it was made, after the caller writes into the buffer. |
| SslPacket.Free | src/daemon/ssl/ssl-packet.h:52-58 | The payload, then the packet; nothing for NULL. |
| SslSession.ErrorKindOf | src/daemon/ssl/ssl-connection.c:97-99 | WRITING clear gives a read error, WRITING without READING a write error, and both an end of stream. |
| SslSession.Classify | src/daemon/ssl/ssl-connection.c:86-104 | EOF, then TIMEOUT, terminate. Then CONNECTED connects. Otherwise an end of stream terminates, and only a read or write error is reported. |
| SslSession.ErrorBitIgnored | src/daemon/ssl/ssl-connection.c:86-104 | BEV_EVENT_ERROR does not change the decision. |
| SslSession.ReportedKinds | src/daemon/ssl/ssl-connection.c:86-108 | The error callback is reached exactly when none of EOF, TIMEOUT, CONNECTED is set and not both direction bits are set. |
| SslSession.ConnectionsFreeingAppend | src/daemon/ssl/ssl-server.c:129 | Freeing one more connection appends its two effects. |
| SslSession.ConnectionsFreeingOrder | src/daemon/ssl/ssl-server.c:129 | Each list entry's connection is freed once, in list order, its bufferevent just before it, and nothing else is freed. A connection listed twice is freed twice. |
| SslSession.FreedConnectionStaysListed | src/daemon/ssl/ssl-connection.c:92-113 | A listed connection that reports CONNECTED again is listed twice; terminating it frees it while an entry stays listed, and tearing the server down frees it again. |
| SslSession.TeardownOrder | src/daemon/ssl/ssl-server.c:119-131 | With a context: OpenSSL deinit, the listener (if any) before the context. Then every connection in list order, and the server last. Without a context, no listener or context is freed. |
| SslSession.FreeConnection | src/daemon/ssl/ssl-connection.c:138-144 | The bufferevent, then the connection; nothing for NULL. |
| SslSession.FreeConnections | src/daemon/ssl/ssl-server.c:129 | s_ssl_connection_free on each connection in turn. |
| SslSession.Generate | src/daemon/ssl/ssl-connection.c:37-49 | A packet exactly when bytes could be read. Its size is the byte count cut to uint32_t (modulo 2^32), and it holds that many leading bytes: all of them below 2^32. |
| SslSession.Connection.OnRead | src/daemon/ssl/ssl-connection.c:58-67 | Exactly one packet is built from the bytes (length cut to uint32_t), passed to the read callback with the server, and then freed. |
| SslSession.Connection.OnEvent | src/daemon/ssl/ssl-connection.c:80-113 | Connect appends the connection, again if already present. Terminate removes its first occurrence (ignored status -EBADE when absent), then frees it; it stays listed exactly when it was listed more than once. An error calls the error callback once with (server, kind, 0, packet), where the packet is built fresh from the buffer's bytes (length cut to uint32_t) as for a read, and leaves the set unchanged. |
| SslSession.NewConnection | src/daemon/ssl/ssl-connection.c:115-136 | NULL exactly when an argument is NULL. Otherwise all four are stored and reading is enabled. |
| SslSession.WriteConnection | src/daemon/ssl/ssl-connection.c:146-154 | -EINVAL for a NULL connection or packet; otherwise bufferevent_write's answer. |
| SslSession.Server.Connect | src/daemon/ssl/ssl-server.c:133-161 | NULL certificate or key gives -EINVAL. A NULL context is stored and gives -EBADE. Otherwise the listener is stored, with 0 exactly when there is one. |
| SslSession.Server.AddConnection | src/daemon/ssl/ssl-server.c:174-182 | NULL gives -EINVAL. Otherwise the connection is appended (duplicates included) and the result is 0. |
| SslSession.Server.RemoveConnection | src/daemon/ssl/ssl-server.c:184-199 | NULL gives -EINVAL. A member loses its first occurrence, with 0. A non-member, or any connection of an empty set, gives -EBADE with no change. |
| SslSession.RemoveMember | src/daemon/ssl/ssl-server.c:190-198 | The walk finds the connection exactly when it is in the set, then removes its first occurrence. |
| SslSession.Server.Write | src/daemon/ssl/ssl-server.c:163-172 | 0 exactly when name and packet are non-NULL, otherwise -EINVAL; nothing is sent. |
| SslSession.Server.Free | src/daemon/ssl/ssl-server.c:119-131 | The effects follow Teardown (SSL side, then each connection, then the server), and the set is emptied. |
| SslSession.NewServer | src/daemon/ssl/ssl-server.c:105-117 | NULL exactly when the loop or table is NULL or a callback is missing. Otherwise a server with that table, no SSL state and no connections. |

## Left out

- Memory: allocation always succeeds. Freeing is recorded as a trace of what is released, in order; nothing is actually reclaimed.
- Logging (`daemon_log`) is left out; it has no effect on the state.
- Receivers: the NULL checks on the object a class method is called on (group, watch, timer, server, connection) are not modelled. A method's receiver is never null in Dafny. NULL checks on the other arguments are modelled.
- Callbacks and foreign functions are not executed. Their invocations are recorded as traces, and their results are parameters.
- DaemonList.Find: requires a non-NULL list when data is non-NULL, because the walk dereferences the list before testing it.
- DaemonList.DeleteLink: requires link to be a member or NULL. For a non-member, s_list_remove_link changes nothing, but s_list_free would then release that cell and every cell after it.
- DaemonList.RemoveAll: keeps the head that each deletion returns. The code at src/daemon/daemon-list.c:225 drops it, so removing the first cell would leave the caller with a released head.
- DaemonList.FreeFull: unlinks each cell from the head the previous step returned. The code ignores remove_link's new head and passes released cells back in (src/daemon/daemon-list.c:74-81). The model keeps the header's contract: func is called once per payload.
- DaemonList.Concat: follows the code, which appends copies of list2's payloads. The header says list2's own cells are linked in. When both arguments are first cells it requires list2's cells to be distinct from list1's: on `concat(l, l)` the loop at src/daemon/daemon-list.c:285-288 appends to the very list it walks, never reaches NULL and does not terminate, which the model does not capture.
- DaemonList.DeepCopy: the copy function always returns a payload. A NULL result, which `_s_list_append` (src/daemon/daemon-list.c:86-100) stores in a cell unchecked, is not modelled; such cells would later be skipped by copy and concat and never found by find.
- DaemonList.Foreach: records each call's arguments in the order the code passes them (user data, then payload), the reverse of the callback type's declaration.
- AvahiService.Strncmp: models strncmp's sign, not its magnitude, which only matters for being zero here.
- AvahiService.Check: models the code's 8-bit length truncation; the corrected check is CheckExact. Strings are their bytes, so lengths count bytes as strlen does; the literals of the code are ASCII.
- AvahiGroup.Group.RemoveService: uses the corrected status RemoveStatus (0 on success). The code returns 1 (see Findings). On a group with no records it returns -EAGAIN; the code's s_list_find dereferences the NULL list there.
- AvahiGroup.RemoveCounted: gives the corrected status 0 after a removal; the code at src/daemon/avahi/avahi-group.c:138-140 gives 1 (see Findings, as-written member RemoveStatusAsWritten).
- AvahiGroup.RemoveRecord: gives the corrected status 0 after a removal, where the code gives 1. On an empty list it gives -EAGAIN, where the code's s_list_find dereferences the NULL list (src/daemon/daemon-list.c:351).
- `nbr_services` in struct s_group is never read or written by the code and is not modelled.
- `s_group_commit` (src/daemon/avahi/avahi-group.c:145-154) only forwards Avahi's answer and is not modelled.
- The Avahi client wrapper, the daemon's main loop, option parsing and the orchestration callbacks (daemon-client.c, daemon-group.c, daemon-ssl.c, daemon-browser.c) are not part of this model. They log and call the libraries.
- AvahiTimer.TimerSub: `time_t` overflow is not modelled; seconds and microseconds are unbounded integers.
- AvahiWatch.NewWatch, AvahiTimer.NewTimer: when the event cannot be created or armed, the code frees the half-built watch or timer through s_avahi_watch_free / s_avahi_timer_free (event_del and event_free on a possibly NULL event, then the object). The model returns NULL and records none of that cleanup.
- AvahiWatch.Watch.GetEvents: event_pending's answers are parameters. Calling it on a watch whose event could not be re-created (NULL event) is not modelled.
- SslSession.Generate: the bytes a bufferevent yields are a parameter. A failed read, or an empty buffer whose pullup is NULL, is a NULL array.
- SslSession.Server.Connect: the socket address setup and `inet_pton` on the constant "0.0.0.0" are not modelled. The OpenSSL context and the evconnlistener are parameters. `_s_ssl_server_accept` and the OpenSSL context helpers of src/daemon/ssl/ssl.h:100-162 are not part of this model.
- SslSession.Connection.OnEvent: the packet handed to the error callback is never freed by the code. The model records no release for it either.
- Integer widths: list lengths and packet sizes are uint32_t and wrap-around is modelled where the code computes with them, including the cut of a buffer's size_t length to a packet's uint32_t size. Event bitmasks are bit-vectors of the C width.

## Findings

| source | as written | input that shows it | evidently intended | confidence | as-written member | corrected member |
|---|---|---|---|---|---|---|
| src/daemon/daemon-list.c:139-147 | `s_list_insert` walks to the cell at index position and links the new cell after it | position 1 in a 3-element list puts the payload at index 2 | the new element at index position (daemon-list.h:132-142) | high, not executed | DaemonList.Insert, DaemonList.InsertIndexOffByOne | DaemonList.InsertAtPosition |
| src/daemon/daemon-list.c:159-169 | `s_list_insert_before` on the head returns the new cell without setting the old head's back link; a NULL sibling is rejected by the membership check before the append branch | sibling == head of a 2-element list: the old head's previous stays NULL | a list linked both ways; NULL sibling appends (daemon-list.h:144-155) | high, not executed | DaemonList.InsertBefore | DaemonList.InsertBeforeLinked |
| src/daemon/avahi/avahi-service.c:66-69 | both lengths are cut to `uint8_t` before comparing | the service key followed by 256 'x' bytes is accepted | accept exactly the service key | high, not executed | AvahiService.Check, AvahiService.CheckAcceptsOverlongKey | AvahiService.CheckExact, AvahiService.CheckExactAccepts |
| src/daemon/avahi/avahi-group.c:138-140 | `!(size == length - 1)` compares the old length with the new length minus one | removing the only record: size 1, new length 0, result 1 | 0 on success (avahi-group.h:77-83) | high, not executed | AvahiGroup.RemoveStatusAsWritten, AvahiGroup.RemoveStatusAfterRemoval | AvahiGroup.RemoveStatus, AvahiGroup.Group.RemoveService |
