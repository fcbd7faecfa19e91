# Object tracking application: a verified model

The object tracking application is a cFS flight-software app. It keeps one
global state record, `OBJECT_TrackerData_t`, which holds:

- the 8-bit command and error counters;
- the housekeeping telemetry payload;
- a table of `MAX_OJBECT_TRACKING` (10) per-class entries. Entry `c` tracks
  detections of class `c`.

Each entry has a publish switch and a doubly-linked, length-counted history
of timestamped observations. The history holds at most `MAX_LINKED_LIST_LEN`
(50) nodes, and every node has a `beenPublished` flag.

Ground commands are dispatched on their command code. A known command's
handler runs only after its declared length has been checked. The handlers are:

- no-op;
- reset counters;
- process;
- switch request, which sets one class's publish switch;
- complete-history request.

Each cycle of the main loop runs two further operations
(`fsw/src/object_tracking_app.c:72-75`):

- saving a decoded batch of detections into the histories;
- publishing the newest state of every enabled class.

A third operation, reporting the counters to housekeeping, runs only when a
housekeeping request arrives on the command pipe
(`fsw/src/object_tracking_app.c:231-232`).

In the source, `OBJECT_Publish_States` and `OBJECT_Publish_Complete_State`
contain only comments, and `OBJECT_Save_States` only declares a
`rover_array` and fills it by calling `sync_fusion_injest` before its
comments (`fsw/src/object_tracking_app.c:458-520`). For these three, the
model implements what the comments say:

- a full history is cleaned out first (the model's reading of the clean-up
  is listed under "## Left out");
- nothing evicted is backed up, because `BACKUP_HISTORY` is false;
- records are inserted in (seconds, nanoseconds) order;
- the newest state of each enabled class is published;
- a complete history is given only for an enabled class.

The model has five modules:

- `TrackingMsg` (`tracking_msg.dfy`): the message and record types, the
  fixed-width integers, the two sizing constants and the timestamp order.
- `HistorySpec` (`history_spec.dfy`): the abstract histories as sequences of
  observations. It defines:
  - insertion by timestamp;
  - trim-then-insert saving;
  - routing a batch over the table;
  - marking the newest observation as sent;
  - selecting what a publish cycle sends.

  It also proves their properties.
- `ListArena` (`list_arena.dfy`): one class's linked list laid out in a fixed
  arena of 50 nodes, with index links and a free list. It states when the
  arena represents a given history, and proves that every relinking step
  keeps that representation exact.
- `TrackListing` (`track_list.dfy`): the class `TrackList`, one table entry
  (`Object_Master_Node_t`). Its fields are:
  - the switch;
  - the `start`/`latest` handles;
  - `totalNodeLen`;
  - the node array, which the insert, trim and mark methods update in place
    and the two traversal methods only read.
- `TrackerApp` (`tracker_app.dfy`): the class `TrackerData`, the state
  record, with its handlers. Each state-changing method is proved against a
  pure function on the abstract state `AppState` (`Dispatch`, `SaveSpec`,
  `PublishSpec`), and lemmas prove what those functions promise.

## Model

| member | source | states |
|---|---|---|
| TrackingMsg.EarlierIsStrictOrder | fsw/src/object_tracking_app_msg.h:125-126 | The (sec, nanoSec) order is irreflexive, asymmetric and transitive. Two records are unordered exactly when both timestamp fields are equal. |
| HistorySpec.InsertByTime | fsw/src/object_tracking_app.c:467 | Inserting adds exactly one observation, the new one, and keeps every existing one (multiset equality). |
| HistorySpec.InsertByTimeAt | fsw/src/object_tracking_app.c:467 | If no earlier element is later than the record and the element at `pos` is, the record lands exactly at `pos`. |
| HistorySpec.InsertionPoint | fsw/src/object_tracking_app.c:467 | Every insertion has such a position: after all observations not later than the record, before the first later one. |
| HistorySpec.InsertByTimeSorted | fsw/src/object_tracking_app.c:467 | Inserting into a time-sorted history gives a time-sorted history. |
| HistorySpec.InsertByTimeAppends | fsw/src/object_tracking_app.c:467 | A record not earlier than the newest observation is appended at the tail. |
| HistorySpec.InsertByTimeOfClass | fsw/src/object_tracking_app_msg.h:34-35 | Inserting a record of class `c` into a class-`c` history keeps it single-class. |
| HistorySpec.SaveProperties | fsw/src/object_tracking_app.c:462-467 | Saving into a history within the bound gives a length one more, capped at 50. A full history loses exactly its oldest observation before the new one is added. Sortedness is kept. |
| HistorySpec.SaveBatchInvariant | fsw/src/object_tracking_app.c:462-467 | Any sequence of saves of class-`c` records keeps a history sorted, at most 50 long and of class `c`. |
| HistorySpec.ForClass | fsw/src/object_tracking_app.c:465 | The records routed to class `c` all carry class id `c`, and there are no more of them than the batch holds. |
| HistorySpec.ForClassMember | fsw/src/object_tracking_app.c:465 | Every record of a batch is routed to the class its `class_id` names. |
| HistorySpec.Route | fsw/src/object_tracking_app_msg.h:222-229 | The reference definition of routing a batch over the table; its contract states only that the table keeps exactly 10 entries. What routing does to each entry is stated by `HistorySpec.RoutePerClass` and `HistorySpec.RouteWellFormed`. |
| HistorySpec.RoutePerClass | fsw/src/object_tracking_app_msg.h:222-229 | After routing, entry `c` equals its old history with exactly class `c`'s records saved, in arrival order. |
| HistorySpec.RouteWellFormed | fsw/src/object_tracking_app.c:462-467 | Routing keeps every entry of the table sorted, bounded and of its own class. |
| HistorySpec.InvalidCount | fsw/src/object_tracking_app_msg.h:33-35 | The count of records naming no class is at most the batch size. It is zero exactly when every `class_id` is below 10. |
| HistorySpec.OutOfOrderExample | fsw/src/object_tracking_app.c:467 | Records arriving as (10,0), (9,500), (11,0) are stored as (9,500), (10,0), (11,0), none of them published. |
| HistorySpec.MarkLatest | fsw/src/object_tracking_app_msg.h:264-265 | Marking keeps every record and the length. Only the newest node's `beenPublished` becomes true; every other flag is kept. |
| HistorySpec.MarkLatestProperties | fsw/src/object_tracking_app_msg.h:264-265 | Marking is idempotent and keeps sortedness and the class. |
| HistorySpec.SelectionSound | fsw/src/object_tracking_app.c:502 | Everything a publish cycle sends is the newest record of some enabled, non-empty class. |
| HistorySpec.SelectionComplete | fsw/src/object_tracking_app.c:502 | The newest record of every enabled, non-empty class is sent. |
| HistorySpec.SelectionOnePerClass | fsw/src/object_tracking_app.c:502 | When every history holds only its own class, a cycle sends at most one record per class, in strictly increasing `class_id` order. No record is sent twice, and no more records are sent than there are classes. |
| HistorySpec.SelectionSkipsDisabled | fsw/src/object_tracking_app.c:502 | No record of a disabled class is sent. |
| HistorySpec.PublishAll | fsw/src/object_tracking_app_msg.h:264-265 | After a cycle every history keeps its length and every record in place. A node's `beenPublished` is set exactly when it was set before or it is the newest node of an enabled class. |
| HistorySpec.SelectionAfterPublish | fsw/src/object_tracking_app.c:502 | Marking nodes as sent does not change what a cycle selects. |
| ListArena.EmptyArena | fsw/src/object_tracking_app_msg.h:240-246 | A fresh arena with all slots chained as free represents the empty history, with null handles and length 0. |
| ListArena.LinksConsistent | fsw/src/object_tracking_app_msg.h:260-262 | In a represented list, a node's next node's previous is that node, and vice versa. The next link is null exactly at `latest`, and the previous link exactly at `start`. |
| ListArena.LinkAt | fsw/src/object_tracking_app_msg.h:240-262 | Linking the first free slot between the nodes at positions `pos-1` and `pos` keeps the representation exact. The new history is the old one with the record spliced in at `pos`, and the counter grows by one. |
| ListArena.UnlinkFirst | fsw/src/object_tracking_app_msg.h:240-262 | Unlinking the start node keeps the representation exact for the history without its oldest element. That slot goes to the head of the free list. |
| ListArena.MarkFinal | fsw/src/object_tracking_app_msg.h:264-265 | Setting `beenPublished` on the latest node makes the arena represent `MarkLatest` of the history. |
| TrackListing.LinkStep | fsw/src/object_tracking_app.c:467 | Linking at the place `InsertByTime` chooses gives an arena that represents the inserted history, which stays sorted and single-class. |
| TrackListing.UnlinkStep | fsw/src/object_tracking_app.c:462-463 | Unlinking the oldest node gives an arena that represents the rest of the history, which stays sorted and single-class. |
| TrackListing.TrackList.constructor | fsw/src/object_tracking_app_msg.h:231-248 | A new entry is of its class, disabled and empty, and its arena is valid. |
| TrackListing.TrackList.FindSlot | fsw/src/object_tracking_app.c:467 | Returns the nodes that will precede and follow the record, at the position where insertion by timestamp puts it. An empty list gives no neighbours. A record no earlier than the newest one goes after `latestNode` without a scan. |
| TrackListing.TrackList.ScanForLater | fsw/src/object_tracking_app.c:467 | Walking next links from the start finds the first observation strictly later than the record. All observations before it are not later. |
| TrackListing.TrackList.LinkObservation | fsw/src/object_tracking_app.c:467 | Links the record in, unpublished. The new history is `InsertByTime` of the old one, and the entry stays valid. |
| TrackListing.TrackList.RelinkFree | fsw/src/object_tracking_app_msg.h:240-246 | The handle, counter and free-head updates of a link leave a valid entry holding the new history. |
| TrackListing.TrackList.WriteLinks | fsw/src/object_tracking_app_msg.h:260-262 | The node writes of a link: the new node points at `p` and `c`, and they point back at it. |
| TrackListing.TrackList.TrimOldest | fsw/src/object_tracking_app.c:462 | Removes and returns the oldest observation. The history becomes its tail. |
| TrackListing.TrackList.UnlinkStart | fsw/src/object_tracking_app_msg.h:240-246 | The writes of an unlink leave a valid entry holding the shortened history. |
| TrackListing.TrackList.InsertObservation | fsw/src/object_tracking_app.c:462-467 | The history becomes `Save` of the old one: a full history is trimmed, then the record is inserted by timestamp. The evicted record is handed back only when backup is requested. |
| TrackListing.TrackList.MarkLatestPublished | fsw/src/object_tracking_app_msg.h:264-265 | Returns the newest record and marks only that node as sent. |
| TrackListing.TrackList.PublishLatest | fsw/src/object_tracking_app.c:502 | An enabled, non-empty entry sends exactly its newest record and marks it as sent. Any other entry sends nothing and is unchanged. |
| TrackListing.TrackList.Traverse | fsw/src/object_tracking_app_msg.h:150-152 | Following next links from `start_node` visits the whole history oldest first. The number of nodes visited equals `total_node_len`. |
| TrackListing.TrackList.TraverseBackward | fsw/src/object_tracking_app_msg.h:260-262 | Following previous links from `latest_node` visits the whole history newest first. |
| TrackerApp.Inc8 | fsw/src/object_tracking_app.h:80-81 | An 8-bit counter increment is taken modulo 256. |
| TrackerApp.AddWrapping | fsw/src/object_tracking_app.h:80-81 | `n` successive increments add `n` modulo 256. |
| TrackerApp.AddWrappingSum | fsw/src/object_tracking_app.h:80-81 | Runs of wrapping increments compose. |
| TrackerApp.PublishPrefixStep | fsw/src/object_tracking_app.c:500-505 | Publishing one more class marks that class and appends its newest record when it is enabled and non-empty. |
| TrackerApp.PublishPrefixAll | fsw/src/object_tracking_app.c:500-505 | A cycle over all 10 classes is `PublishSpec`. |
| TrackerApp.PublishPrefixNone | fsw/src/object_tracking_app.c:500-505 | A cycle over no classes sends nothing and changes nothing. |
| TrackerApp.SaveSpecStep | fsw/src/object_tracking_app.c:458-468 | Saving a batch is saving its first record, then the rest. |
| TrackerApp.SaveSpecOne | fsw/src/object_tracking_app.c:458-468 | A record naming a class is saved into that class's history. A record naming none only counts an error. |
| TrackerApp.SwitchProperties | fsw/src/object_tracking_app.c:479-489 | A switch request sets exactly the named class's flag to `switchCMD` and leaves every other flag alone. Repeating it changes nothing, and the last write wins. |
| TrackerApp.DispatchLengthGate | fsw/src/object_tracking_app.c:273-315 | The result is a length error exactly when a known command declares the wrong length. Then only `ErrCounter` moves, by one. |
| TrackerApp.DispatchCounters | fsw/src/object_tracking_app.c:273-297 | An unknown code changes nothing. A correct no-op adds one to `CmdCounter` modulo 256 and leaves `ErrCounter`. A correct reset zeroes both counters. A correct process command changes nothing. No other command touches `CmdCounter`. |
| TrackerApp.DispatchFrame | fsw/src/object_tracking_app.c:273-315 | No ground command changes a history. A class's switch changes only under a correctly sized switch request naming that class. |
| TrackerApp.CompleteReplyCases | fsw/src/object_tracking_app.c:514-519 | An out-of-range class is rejected and a disabled class gets nothing (both if-and-only-if). An enabled class gets its whole history, record for record: at most 50 records, all of that class, oldest first. |
| TrackerApp.SaveSpecProperties | fsw/src/object_tracking_app.c:458-468 | Saving a batch keeps the table well formed and gives each class exactly its own records in arrival order. Switches and `CmdCounter` are untouched, and `ErrCounter` is unchanged when every record names a class. |
| TrackerApp.PublishProperties | fsw/src/object_tracking_app.c:500-505 | An enabled, non-empty class has its newest record sent and marked as sent. A disabled class is not sent and its history stays the same. |
| TrackerApp.PublishResends | fsw/src/object_tracking_app.c:502 | A second publish cycle sends exactly what the first one sent: `beenPublished` is recorded but never decides what is sent. |
| TrackerApp.PublishWellFormed | fsw/src/object_tracking_app.c:500-505 | A publish cycle keeps every history sorted, bounded and of its own class. |
| TrackerApp.TrackerData.TableWellFormed | fsw/src/object_tracking_app.h:88-89 | The record's table has exactly 10 entries. Entry `c` holds a time-sorted history of class `c` with at most 50 observations. |
| TrackerApp.TrackerData.KeepsValid | fsw/src/object_tracking_app.h:88-89 | Updating one entry of the table, and nothing else in the record, keeps the record valid when that entry is valid and matches its row of the table. |
| TrackerApp.TrackerData.constructor | fsw/src/object_tracking_app.c:108-134 | Initialisation leaves both counters at 0 (lines 108-109) and the housekeeping payload at 0 (the clearing `CFE_SB_InitMsg`, lines 131-134). Every class starts disabled and empty, as in the zero-initialised global table (line 39). |
| TrackerApp.TrackerData.Noop | fsw/src/object_tracking_app.c:362-365 | `CmdCounter` grows by one modulo 256, and nothing else in the record changes. |
| TrackerApp.TrackerData.ResetCounters | fsw/src/object_tracking_app.c:387-391 | Both counters become 0, and the table and switches are unchanged. |
| TrackerApp.TrackerData.VerifyCmdLength | fsw/src/object_tracking_app.c:406-433 | Returns true exactly when the expected length equals the declared one. On a mismatch `ErrCounter` grows by one; otherwise nothing changes. |
| TrackerApp.TrackerData.SwitchRequest | fsw/src/object_tracking_app.c:479-489 | Sets `enable_switch` of the named entry to `switchCMD`. No other field or entry changes. |
| TrackerApp.TrackerData.SaveStates | fsw/src/object_tracking_app.c:458-468 | The new state is `SaveSpec` of the old state and the batch. Nothing is backed up. |
| TrackerApp.TrackerData.SaveState | fsw/src/object_tracking_app.c:458-468 | Saving one record moves the state to `SaveSpec` of that one-record batch. |
| TrackerApp.TrackerData.SaveToClass | fsw/src/object_tracking_app.c:462-467 | Only class `c`'s history changes, to `Save` of the old one. |
| TrackerApp.TrackerData.PublishStates | fsw/src/object_tracking_app.c:500-505 | The new state and the records sent are `PublishSpec` of the old state. |
| TrackerApp.TrackerData.PublishClass | fsw/src/object_tracking_app.c:502 | Only class `c`'s history changes. It is marked when enabled, and its newest record is sent only when it is enabled and non-empty. |
| TrackerApp.TrackerData.PublishCompleteState | fsw/src/object_tracking_app.c:514-519 | The reply is `CompleteReply`: an out-of-range class and a disabled class are refused, and an enabled one gets its traversed history. |
| TrackerApp.TrackerData.ReportHousekeeping | fsw/src/object_tracking_app.c:339-355 | The housekeeping payload holds exactly the two counters, and the rest of the record is unchanged. |
| TrackerApp.TrackerData.ProcessGroundCommand | fsw/src/object_tracking_app.c:264-328 | The new state and the result are `Dispatch` of the old state and the command. |
| TrackerApp.TrackerData.SwitchCommand | fsw/src/object_tracking_app.c:299-306 | The switch-request branch of the dispatch: the length check, then the switch. |
| TrackerApp.TrackerData.CompleteStateCommand | fsw/src/object_tracking_app.c:308-315 | The complete-history branch of the dispatch: the length check, then the reply. |

## Left out

- The cFE Executive, Software Bus and Event Services calls are left out as I/O and host glue. These are registration, pipe creation, subscription, receive with its 500 ms timeout, send, time stamping and event messages. A sent message is modelled as a returned value.
- The main run loop (`fsw/src/object_tracking_app.c:45-91`) is I/O scheduling around the handlers and is left out.
- `OBJECT_ProcessCommandPacket` (`fsw/src/object_tracking_app.c:219-257`) is left out. It routes on message ID, and its switch and complete-history cases test command codes against the message ID (lines 236, 242).
- The model dispatches on command codes, and only the rule that the length check gates the handler comes from `OBJECT_ProcessGroundCommand`. Its switch and complete-history case labels are a message ID and a request constant, not command codes (lines 299, 308).
- `sync_fusion_injest` and the ROS2/cJSON file decoding are a foreign library plus file I/O, so they are not part of this model. `SaveStates` takes the decoded batch as a parameter.
- The zero-copy transmission of a complete history is transport. The reply carries the records read from the list.
- `confidenceScore`, `distance` and `orientation` are doubles carried as opaque bit patterns, and no arithmetic is stated about them.
- The message-ID, event-ID and version constants have no logic and are left out.
- `OBJECT_Process` is an empty stub; the process command only passes the length check. `OBJECT_GetCrc` is declared but never defined.
- `CmdHeaderSize`: expected command lengths are the header size plus the argument bytes. The header size is a parameter of the bus headers, so the model fixes it at 8.
- The source does not compile as written. The model follows the evident intent in each of these cases:
  - `OBJECT_Switch_t` is defined twice (`fsw/src/object_tracking_app_msg.h:168-176`, `196-204`);
  - the lower-case `OBJECT_switch_t` is used at lines 182 and 189;
  - the lower-case `object_node_t` is used at lines 241-242 and is never declared; only `Object_Node_t` is (lines 255-267);
  - types are used before they are declared (lines 152, 227);
  - `Object_Node_t` holds its `previous_node` and `next_node` by value, as members of its own type (lines 261-262), so the struct has no finite size;
  - the `void` function `OBJECT_Process` returns a value (`fsw/src/object_tracking_app.c:444-446`).
- `BACKUP_HISTORY` carries a stray semicolon (`fsw/src/object_tracking_app.h:56`). It appears only inside a comment (`fsw/src/object_tracking_app.c:463`), so it never breaks the build, and the model reads it as false.
- The source gives the three stub operations no behaviour, so in these points the model goes beyond it:
  - the clean-up of an over-long history (line 462 says only that the list is cleaned out first with a clean-up function) is read as dropping exactly its oldest node;
  - `SaveStates` drops a record whose `class_id` is 10 or more and counts it in `ErrCounter`;
  - a full history is trimmed before, not after, the insert;
  - equal timestamps keep arrival order.
- The dispatch's switch case rejects a `class_id` of 10 or more as `InvalidClassReference` and counts an error. The source's switch request indexes the table unchecked (`fsw/src/object_tracking_app.c:489`), which is out of bounds. `TrackerApp.TrackerData.SwitchRequest` itself requires a class in range, as the source assumes.
- The complete-history case rejects a `class_id` of 10 or more the same way. `OBJECT_Publish_Complete_State` has no body (`fsw/src/object_tracking_app.c:514-520`), so this rejection is a choice of the model.
- `beenPublished` is set only by the per-cycle publish of each class's newest record. A complete-history reply sends records without marking them. A publish cycle sends the newest record of an enabled class again even when it is already marked, so the flag never decides what is sent (`TrackerApp.PublishResends`). The source's comments do not say whether an already-sent record should be skipped.
- `TrackListing.TrackList`: `freeNode` and the free list through `nextNode` are additions of the model. They stand in for the allocator the linked list would need, which the source does not show.
- `TrackerApp.TrackerData`: the table is a fixed sequence of entry objects allocated at initialisation, not an in-line array of structs. Nothing else aliases the entries.
- `TrackListing.TrackList`: `start_node` and `latest_node`, and each node's `previous_node` and `next_node`, are slot indices with `-1` for null, not embedded node values; node values cannot contain themselves (`fsw/src/object_tracking_app_msg.h:241-242`, `261-262`).
