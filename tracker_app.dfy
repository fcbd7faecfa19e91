/**
 * The application's single state record (OBJECT_TrackerData_t) and the
 * handlers that act on it: the command and error counters, the table of
 * MaxObjectTracking track lists indexed by class id, the length-gated ground
 * command dispatch, saving a batch of detections and publishing.
 *
 * Each state-changing method is specified by a pure function on `AppState`,
 * the abstract view of the record; the lemmas below state what those
 * functions promise.
 */
module TrackerApp {
  import opened TrackingMsg
  import opened HistorySpec
  import opened ListArena
  import opened TrackListing

  /** BACKUP_HISTORY: evicted observations are not sent anywhere. */
  const BackupHistory: bool := false

  /** Size of a command's header; a command without arguments is just its header. */
  const CmdHeaderSize: uint16 := 8

  /** A `uint8` increment: 255 wraps to 0. */
  function Inc8(x: uint8): (r: uint8)
    ensures r as int == (x as int + 1) % 0x100
  {
    if x == 0xFF then 0 else x + 1
  }

  /** `n` increments of a `uint8`, one after another. */
  function AddWrapping(x: uint8, n: nat): (r: uint8)
    ensures r as int == (x as int + n) % 0x100
  {
    if n == 0 then x else Inc8(AddWrapping(x, n - 1))
  }

  /** The ground command codes, with the payload each one carries. */
  datatype CommandCode =
    | NoopCC
    | ResetCountersCC
    | ProcessCC
    | SwitchCC(request: SwitchMsg)
    | CompleteCC(classId: uint8)
    | UnknownCC(code: uint16)

  /** A ground command as received: its code and the total length its header declares. */
  datatype GroundCommand = GroundCommand(code: CommandCode, totalLength: uint16)

  /**
   * The length each known command must declare: the header alone for
   * the no-argument commands, plus a class id and a flag for a switch
   * request, plus a class id for a complete-history request.
   */
  function ExpectedLength(code: CommandCode): uint16
    requires !code.UnknownCC?
  {
    match code
    case NoopCC => CmdHeaderSize
    case ResetCountersCC => CmdHeaderSize
    case ProcessCC => CmdHeaderSize
    case SwitchCC(_) => CmdHeaderSize + 2
    case CompleteCC(_) => CmdHeaderSize + 1
  }

  /** The outcome of one ground command. */
  datatype CommandResult =
    | Handled
    | LengthError
    | InvalidClassReference
    | NotEnabled
    | CompleteHistory(records: seq<Essentials>)
    | UnknownCommand

  /** The abstract application state: both counters, every class's switch and history. */
  datatype AppState = AppState(cmdCounter: uint8, errCounter: uint8,
                               enabled: seq<bool>, table: seq<seq<Observation>>)

  /** A state with one switch and one history per class. */
  predicate Shaped(s: AppState)
  {
    |s.enabled| == MaxObjectTracking && |s.table| == MaxObjectTracking
  }

  /** The switches after a switch request for a class in range. */
  function SetEnabled(en: seq<bool>, m: SwitchMsg): seq<bool>
    requires m.classId as int < |en|
  {
    en[m.classId as int := m.switchCMD]
  }

  /** The reply to a complete-history request. */
  function CompleteReply(s: AppState, id: uint8): CommandResult
    requires Shaped(s)
  {
    if id as int >= MaxObjectTracking then InvalidClassReference
    else if !s.enabled[id] then NotEnabled
    else CompleteHistory(States(s.table[id]))
  }

  /**
   * One ground command: a known command whose declared length is wrong
   * only bumps the error counter; otherwise its handler runs. A switch or
   * history request naming no tracked class is rejected and counted as an
   * error. An unknown code changes nothing.
   */
  function Dispatch(s: AppState, cmd: GroundCommand): (AppState, CommandResult)
    requires Shaped(s)
  {
    var lengthError := (s.(errCounter := Inc8(s.errCounter)), LengthError);
    match cmd.code
    case UnknownCC(_) => (s, UnknownCommand)
    case NoopCC =>
      if cmd.totalLength != CmdHeaderSize then lengthError
      else (s.(cmdCounter := Inc8(s.cmdCounter)), Handled)
    case ResetCountersCC =>
      if cmd.totalLength != CmdHeaderSize then lengthError
      else (s.(cmdCounter := 0, errCounter := 0), Handled)
    case ProcessCC =>
      if cmd.totalLength != CmdHeaderSize then lengthError
      else (s, Handled)
    case SwitchCC(m) =>
      if cmd.totalLength != CmdHeaderSize + 2 then lengthError
      else if m.classId as int < MaxObjectTracking then (s.(enabled := SetEnabled(s.enabled, m)), Handled)
      else (s.(errCounter := Inc8(s.errCounter)), InvalidClassReference)
    case CompleteCC(id) =>
      if cmd.totalLength != CmdHeaderSize + 1 then lengthError
      else
        var r := CompleteReply(s, id);
        (if r == InvalidClassReference then s.(errCounter := Inc8(s.errCounter)) else s, r)
  }

  /** Saving a batch: route it over the table and count the records naming no class. */
  function SaveSpec(s: AppState, rs: seq<Essentials>): AppState
    requires Shaped(s)
  {
    s.(table := Route(s.table, rs), errCounter := AddWrapping(s.errCounter, InvalidCount(rs)))
  }

  /** A publish cycle: the records it sends, and the state with them marked as sent. */
  function PublishSpec(s: AppState): (AppState, seq<Essentials>)
    requires Shaped(s)
  {
    (s.(table := PublishAll(s.enabled, s.table)), Selection(s.enabled, s.table))
  }

  /** A publish cycle stopped after the first `n` classes. */
  function PublishPrefix(s: AppState, n: nat): (AppState, seq<Essentials>)
    requires Shaped(s) && n <= MaxObjectTracking
  {
    (s.(table := seq(MaxObjectTracking, c requires 0 <= c < MaxObjectTracking =>
                        if c < n then PublishEntry(s.enabled[c], s.table[c]) else s.table[c])),
     Selection(s.enabled[..n], s.table[..n]))
  }

  /** One more class of the cycle. */
  lemma PublishPrefixStep(s: AppState, n: nat)
    requires Shaped(s) && n < MaxObjectTracking
    ensures var (s', out) := PublishPrefix(s, n);
            PublishPrefix(s, n + 1) ==
            (s'.(table := s'.table[n := PublishEntry(s.enabled[n], s.table[n])]),
             out + if s.enabled[n] && s.table[n] != [] then [Latest(s.table[n])] else [])
  {
    var (s', out) := PublishPrefix(s, n);
    var (s'', out') := PublishPrefix(s, n + 1);
    assert s.enabled[..n + 1][..n] == s.enabled[..n];
    assert s.table[..n + 1][..n] == s.table[..n];
    assert out' == out + if s.enabled[n] && s.table[n] != [] then [Latest(s.table[n])] else [];
    assert s''.table == s'.table[n := PublishEntry(s.enabled[n], s.table[n])];
  }

  /** The whole cycle is `PublishSpec`. */
  lemma PublishPrefixAll(s: AppState)
    requires Shaped(s)
    ensures PublishPrefix(s, MaxObjectTracking) == PublishSpec(s)
  {
    assert s.enabled[..MaxObjectTracking] == s.enabled;
    assert s.table[..MaxObjectTracking] == s.table;
    assert PublishPrefix(s, MaxObjectTracking).0.table == PublishAll(s.enabled, s.table);
  }

  /** Saving a non-empty batch is saving its first record, then the rest. */
  lemma SaveSpecStep(s: AppState, rs: seq<Essentials>)
    requires Shaped(s) && rs != []
    ensures Shaped(SaveSpec(s, [rs[0]]))
    ensures SaveSpec(SaveSpec(s, [rs[0]]), rs[1..]) == SaveSpec(s, rs)
  {
    assert [rs[0]][1..] == [];
    assert InvalidCount(rs) == InvalidCount([rs[0]]) + InvalidCount(rs[1..]);
    assert Route(s.table, rs) == Route(Route(s.table, [rs[0]]), rs[1..]);
    AddWrappingSum(s.errCounter, InvalidCount([rs[0]]), InvalidCount(rs[1..]));
  }

  /** Saving a single record. */
  lemma SaveSpecOne(s: AppState, r: Essentials)
    requires Shaped(s)
    ensures SaveSpec(s, [r]) ==
            if r.classId as int < MaxObjectTracking
            then s.(table := s.table[r.classId as int := Save(s.table[r.classId], r)])
            else s.(errCounter := Inc8(s.errCounter))
  {
    assert [r][1..] == [];
    if r.classId as int < MaxObjectTracking {
      assert Route(s.table, [r]) == Route(s.table[r.classId as int := Save(s.table[r.classId], r)], []);
    } else {
      assert Route(s.table, [r]) == Route(s.table, []);
    }
    assert InvalidCount([r]) == if r.classId as int < MaxObjectTracking then 0 else 1;
    assert AddWrapping(s.errCounter, 1) == Inc8(AddWrapping(s.errCounter, 0));
  }

  /** A publish cycle that has not started has sent nothing and changed nothing. */
  lemma PublishPrefixNone(s: AppState)
    requires Shaped(s)
    ensures PublishPrefix(s, 0) == (s, [])
  {
    assert PublishPrefix(s, 0).0.table == s.table;
  }

  /** Wrapping increments compose. */
  lemma AddWrappingSum(x: uint8, m: nat, n: nat)
    ensures AddWrapping(AddWrapping(x, m), n) == AddWrapping(x, m + n)
  {
  }

  // ---------------------------------------------------------------------
  // What the specification functions promise
  // ---------------------------------------------------------------------

  /** A switch request sets exactly one class's flag; repeating it, or overriding it, is last-write-wins. */
  lemma SwitchProperties(en: seq<bool>, m: SwitchMsg, m2: SwitchMsg)
    requires m.classId as int < |en|
    ensures |SetEnabled(en, m)| == |en| && SetEnabled(en, m)[m.classId] == m.switchCMD
    ensures forall d :: 0 <= d < |en| && d != m.classId as int ==> SetEnabled(en, m)[d] == en[d]
    ensures SetEnabled(SetEnabled(en, m), m) == SetEnabled(en, m)
    ensures m2.classId == m.classId ==> SetEnabled(SetEnabled(en, m), m2) == SetEnabled(en, m2)
  {
  }

  /** A known command whose length is wrong does nothing but count an error, and only then is the result a length error. */
  lemma DispatchLengthGate(s: AppState, cmd: GroundCommand)
    requires Shaped(s)
    ensures Dispatch(s, cmd).1 == LengthError <==>
            !cmd.code.UnknownCC? && cmd.totalLength != ExpectedLength(cmd.code)
    ensures Dispatch(s, cmd).1 == LengthError ==>
            Dispatch(s, cmd).0 == s.(errCounter := Inc8(s.errCounter))
  {
  }

  /** What each handler, with a correct length, does to the counters. */
  lemma DispatchCounters(s: AppState, cmd: GroundCommand)
    requires Shaped(s)
    ensures var (s', r) := Dispatch(s, cmd);
            (cmd.code.UnknownCC? ==> s' == s && r == UnknownCommand) &&
            (cmd == GroundCommand(NoopCC, CmdHeaderSize) ==>
               s'.cmdCounter as int == (s.cmdCounter as int + 1) % 0x100 && s'.errCounter == s.errCounter) &&
            (cmd == GroundCommand(ResetCountersCC, CmdHeaderSize) ==>
               s'.cmdCounter == 0 && s'.errCounter == 0) &&
            (cmd == GroundCommand(ProcessCC, CmdHeaderSize) ==> s' == s) &&
            (!cmd.code.NoopCC? && !cmd.code.ResetCountersCC? ==> s'.cmdCounter == s.cmdCounter)
  {
  }

  /**
   * No ground command touches a history, and a class's switch changes only
   * under a correctly sized switch request naming that class.
   */
  lemma DispatchFrame(s: AppState, cmd: GroundCommand)
    requires Shaped(s)
    ensures var s' := Dispatch(s, cmd).0;
            Shaped(s') && s'.table == s.table &&
            forall c :: 0 <= c < MaxObjectTracking && s'.enabled[c] != s.enabled[c] ==>
              cmd.code.SwitchCC? && cmd.code.request.classId as int == c &&
              cmd.totalLength == ExpectedLength(cmd.code)
  {
  }

  /** The three outcomes of a complete-history request, and what a history reply holds. */
  lemma CompleteReplyCases(s: AppState, id: uint8)
    requires Shaped(s) && WellFormedTable(s.table)
    ensures CompleteReply(s, id) == InvalidClassReference <==> id as int >= MaxObjectTracking
    ensures CompleteReply(s, id) == NotEnabled <==> id as int < MaxObjectTracking && !s.enabled[id]
    ensures CompleteReply(s, id).CompleteHistory? ==>
            var rs := CompleteReply(s, id).records;
            |rs| <= MaxLinkedListLen &&
            (forall i :: 0 <= i < |rs| ==> rs[i].classId == id) &&
            (forall i, j :: 0 <= i < j < |rs| ==> !Earlier(rs[j], rs[i]))
    ensures id as int < MaxObjectTracking && s.enabled[id] ==>
            CompleteReply(s, id).CompleteHistory? &&
            |CompleteReply(s, id).records| == |s.table[id]| &&
            forall i :: 0 <= i < |s.table[id]| ==> CompleteReply(s, id).records[i] == s.table[id][i].state
  {
  }

  /**
   * Saving a batch keeps the table well formed, gives each class exactly its
   * own records in arrival order, and leaves switches and the command
   * counter alone; the error counter moves only for out-of-range records.
   */
  lemma SaveSpecProperties(s: AppState, rs: seq<Essentials>, c: nat)
    requires Shaped(s) && WellFormedTable(s.table) && c < MaxObjectTracking
    ensures var s' := SaveSpec(s, rs);
            Shaped(s') && WellFormedTable(s'.table) &&
            s'.table[c] == SaveBatch(s.table[c], ForClass(rs, c)) &&
            s'.enabled == s.enabled && s'.cmdCounter == s.cmdCounter &&
            (InvalidCount(rs) == 0 ==> s'.errCounter == s.errCounter)
  {
    RouteWellFormed(s.table, rs);
    RoutePerClass(s.table, rs, c);
  }

  /**
   * A publish cycle sends the newest record of every enabled, non-empty
   * class and marks it as sent; it sends nothing of a disabled class and
   * leaves that class's history alone.
   */
  lemma PublishProperties(s: AppState, c: nat)
    requires Shaped(s) && WellFormedTable(s.table) && c < MaxObjectTracking
    ensures var (s', out) := PublishSpec(s);
            var h := s.table[c];
            Shaped(s') &&
            (s.enabled[c] && h != [] ==> Latest(h) in out && s'.table[c][|h| - 1].beenPublished) &&
            (!s.enabled[c] ==> s'.table[c] == h && forall x :: x in out ==> x.classId as int != c)
  {
    if s.enabled[c] && s.table[c] != [] {
      SelectionComplete(s.enabled, s.table, c);
    }
    if !s.enabled[c] {
      SelectionSkipsDisabled(s.enabled, s.table, c);
    }
  }

  /**
   * A second publish cycle sends again exactly what the first one sent: a
   * node's sent flag is recorded but never consulted.
   */
  lemma PublishResends(s: AppState)
    requires Shaped(s)
    ensures Shaped(PublishSpec(s).0)
    ensures PublishSpec(PublishSpec(s).0).1 == PublishSpec(s).1
  {
    SelectionAfterPublish(s.enabled, s.table);
  }

  /** A publish cycle keeps the table well formed. */
  lemma PublishWellFormed(s: AppState)
    requires Shaped(s) && WellFormedTable(s.table)
    ensures WellFormedTable(PublishSpec(s).0.table)
  {
    var t' := PublishSpec(s).0.table;
    forall d | 0 <= d < MaxObjectTracking
      ensures Sorted(t'[d]) && |t'[d]| <= MaxLinkedListLen && OfClass(t'[d], d)
    {
      MarkLatestProperties(s.table[d], d);
    }
  }

  /** OBJECT_TrackerData_t: the counters, the housekeeping payload and the tracking table. */
  class TrackerData {
    var cmdCounter: uint8
    var errCounter: uint8
    /** The payload of the housekeeping packet. */
    var hkTlm: HkTlmPayload
    /**
     * object_track_listing.object_list: entry `c` tracks class `c`. The
     * entries are fixed at initialisation and updated in place.
     */
    const objectList: seq<TrackList>
    /** The node arrays of the entries, in the same order. */
    ghost const arenas: seq<array<ObjectNode>>
    /** The class whose entry owns a node array: no two entries share one. */
    ghost const arenaOwner: map<array<ObjectNode>, int>

    /** The publish switches and the histories of the entries, by class. */
    ghost var enabled: seq<bool>
    ghost var table: seq<seq<Observation>>

    /**
     * MaxObjectTracking valid entries with distinct node arrays, entry `c`
     * of class `c`, whose switches and histories are `enabled` and `table`.
     */
    ghost predicate Valid()
      reads this`enabled, this`table, objectList, arenas
    {
      |objectList| == MaxObjectTracking && |arenas| == MaxObjectTracking &&
      |enabled| == MaxObjectTracking && |table| == MaxObjectTracking &&
      (forall c :: 0 <= c < MaxObjectTracking ==>
         objectList[c].nodes == arenas[c] && objectList[c].classId as int == c &&
         arenas[c] in arenaOwner && arenaOwner[arenas[c]] == c &&
         objectList[c].enableSwitch == enabled[c] && objectList[c].history == table[c]) &&
      (forall c {:trigger objectList[c].Valid()} :: 0 <= c < MaxObjectTracking ==> objectList[c].Valid())
    }

    /** A valid record's table is well formed: each history sorted, bounded and of its own class. */
    lemma TableWellFormed()
      requires Valid()
      ensures Shaped(State()) && WellFormedTable(State().table)
    {
      forall c | 0 <= c < MaxObjectTracking
        ensures Sorted(table[c]) && |table[c]| <= MaxLinkedListLen && OfClass(table[c], c)
      {
        assert objectList[c].Valid();
      }
    }

    /** Updating entry `c` alone, and its row of `table` to match, keeps the record valid. */
    twostate lemma KeepsValid(c: nat)
      requires old(Valid()) && c < MaxObjectTracking
      requires unchanged(this`enabled) && |table| == MaxObjectTracking
      requires forall d :: 0 <= d < MaxObjectTracking && d != c ==>
                 table[d] == old(table[d]) && unchanged(objectList[d], arenas[d])
      requires objectList[c].Valid() && objectList[c].history == table[c]
      requires objectList[c].enableSwitch == enabled[c]
      ensures Valid()
    {
    }

    /** The entry tracking class `c`. */
    function Entry(c: nat): TrackList
      requires c < |objectList|
    {
      objectList[c]
    }

    /** The abstract view of the record. */
    ghost function State(): AppState
      reads this
    {
      AppState(cmdCounter, errCounter, enabled, table)
    }

    /** The record as initialisation leaves it: counters zero, every class disabled and empty. */
    constructor ()
      ensures Valid()
      ensures State() == AppState(0, 0, seq(MaxObjectTracking, _ => false), seq(MaxObjectTracking, _ => []))
      ensures hkTlm == HkTlmPayload(0, 0)
    {
      var lists: seq<TrackList> := [];
      ghost var nodeArrays: seq<array<ObjectNode>> := [];
      ghost var owner: map<array<ObjectNode>, int> := map[];
      while |lists| < MaxObjectTracking
        invariant |lists| <= MaxObjectTracking && |nodeArrays| == |lists|
        invariant forall c :: 0 <= c < |lists| ==>
          lists[c].nodes == nodeArrays[c] && lists[c].classId as int == c && lists[c].Valid() &&
          !lists[c].enableSwitch && lists[c].history == []
        invariant forall c :: 0 <= c < |lists| ==> nodeArrays[c] in owner && owner[nodeArrays[c]] == c
      {
        var list := new TrackList(|lists| as uint8);
        owner := owner[list.nodes := |lists|];
        lists, nodeArrays := lists + [list], nodeArrays + [list.nodes];
      }
      cmdCounter, errCounter := 0, 0;
      hkTlm := HkTlmPayload(0, 0);
      objectList, arenas, arenaOwner := lists, nodeArrays, owner;
      enabled, table := seq(MaxObjectTracking, _ => false), seq(MaxObjectTracking, _ => []);
    }

    /** OBJECT_Noop: count the command. */
    method Noop()
      modifies this`cmdCounter
      ensures State() == old(State()).(cmdCounter := Inc8(old(cmdCounter)))
    {
      cmdCounter := Inc8(cmdCounter);
    }

    /** OBJECT_ResetCounters: zero both counters. */
    method ResetCounters()
      modifies this`cmdCounter, this`errCounter
      ensures State() == old(State()).(cmdCounter := 0, errCounter := 0)
    {
      cmdCounter, errCounter := 0, 0;
    }

    /** OBJECT_VerifyCmdLength: accept exactly the expected length; count an error otherwise. */
    method VerifyCmdLength(cmd: GroundCommand, expectedLength: uint16) returns (ok: bool)
      modifies this`errCounter
      ensures ok <==> expectedLength == cmd.totalLength
      ensures State() == if ok then old(State()) else old(State()).(errCounter := Inc8(old(errCounter)))
    {
      ok := true;
      if expectedLength != cmd.totalLength {
        ok := false;
        errCounter := Inc8(errCounter);
      }
    }

    /** OBJECT_Switch_Request: set the publish switch of the named class. */
    method SwitchRequest(m: SwitchMsg)
      requires Valid() && m.classId as int < MaxObjectTracking
      modifies this`enabled, objectList`enableSwitch
      ensures Valid()
      ensures State() == old(State()).(enabled := SetEnabled(old(enabled), m))
    {
      objectList[m.classId as int].enableSwitch := m.switchCMD;
      enabled := SetEnabled(enabled, m);
    }

    /**
     * OBJECT_Save_States: store a decoded batch, record by record. A record
     * naming no class is dropped and counted as an error; any other goes
     * to its class's history, which first loses its oldest observation when
     * full. With BackupHistory clear nothing evicted is sent on.
     */
    method SaveStates(batch: seq<Essentials>) returns (backedUp: seq<Essentials>)
      requires Valid()
      modifies this`errCounter, this`table, objectList, arenas
      ensures Valid()
      ensures State() == SaveSpec(old(State()), batch)
      ensures backedUp == []
    {
      backedUp := [];
      var i := 0;
      while i < |batch|
        invariant 0 <= i <= |batch|
        invariant Valid() && Shaped(State())
        invariant SaveSpec(State(), batch[i..]) == SaveSpec(old(State()), batch)
        invariant backedUp == []
      {
        ghost var s := State();
        var flushed := SaveState(batch[i]);
        backedUp := backedUp + flushed;
        SaveSpecStep(s, batch[i..]);
        assert batch[i..][1..] == batch[i + 1..];
        i := i + 1;
      }
      assert batch[i..] == [];
    }

    /** Store one record of a batch: `SaveSpec` of the one-record batch. */
    method SaveState(r: Essentials) returns (backedUp: seq<Essentials>)
      requires Valid()
      modifies this`errCounter, this`table, objectList, arenas
      ensures Valid() && Shaped(State())
      ensures State() == SaveSpec(old(State()), [r])
      ensures backedUp == []
    {
      SaveSpecOne(State(), r);
      backedUp := [];
      if r.classId as int < MaxObjectTracking {
        backedUp := SaveToClass(r.classId as int, r);
      } else {
        errCounter := Inc8(errCounter);
      }
    }

    /** Store a record in the history of its class `c`. */
    method SaveToClass(c: nat, r: Essentials) returns (backedUp: seq<Essentials>)
      requires Valid() && c < MaxObjectTracking && r.classId as int == c
      modifies this`table, Entry(c), Entry(c).nodes
      ensures Valid()
      ensures table == old(table)[c := Save(old(table)[c], r)]
      ensures backedUp == []
    {
      ghost var h := table[c];
      assert objectList[c].history == h;
      backedUp := objectList[c].InsertObservation(r, BackupHistory);
      assert objectList[c].history == Save(h, r);
      table := table[c := objectList[c].history];
      KeepsValid(c);
    }

    /**
     * OBJECT_Publish_States: for every enabled class with a history, send
     * its newest record and mark that node as published.
     */
    method PublishStates() returns (out: seq<Essentials>)
      requires Valid()
      modifies this`table, objectList, arenas
      ensures Valid()
      ensures (State(), out) == PublishSpec(old(State()))
    {
      ghost var s0 := State();
      PublishPrefixNone(s0);
      out := [];
      var c := 0;
      while c < MaxObjectTracking
        invariant 0 <= c <= MaxObjectTracking
        invariant Valid()
        invariant (State(), out) == PublishPrefix(s0, c)
      {
        PublishPrefixStep(s0, c);
        var e := PublishClass(c);
        out := out + e;
        c := c + 1;
      }
      PublishPrefixAll(s0);
    }

    /** Publish one class: its newest record when it is enabled and not empty. */
    method PublishClass(c: nat) returns (sent: seq<Essentials>)
      requires Valid() && c < MaxObjectTracking
      modifies this`table, Entry(c), Entry(c).nodes
      ensures Valid()
      ensures table == old(table)[c := PublishEntry(old(enabled)[c], old(table)[c])]
      ensures sent == if old(enabled)[c] && old(table)[c] != [] then [Latest(old(table)[c])] else []
    {
      var entry := objectList[c];
      sent := entry.PublishLatest();
      table := table[c := entry.history];
      KeepsValid(c);
    }

    /**
     * OBJECT_Publish_Complete_State: the full history of one enabled class,
     * oldest first, read by following the links from its start node.
     */
    method PublishCompleteState(classId: uint8) returns (reply: CommandResult)
      requires Valid()
      ensures reply == CompleteReply(State(), classId)
    {
      if classId as int >= MaxObjectTracking {
        reply := InvalidClassReference;
      } else if !objectList[classId as int].enableSwitch {
        reply := NotEnabled;
      } else {
        var records := objectList[classId as int].Traverse();
        reply := CompleteHistory(records);
      }
    }

    /** OBJECT_ReportHousekeeping: copy the counters into the housekeeping payload. */
    method ReportHousekeeping() returns (hk: HkTlmPayload)
      modifies this`hkTlm
      ensures hk == HkTlmPayload(errCounter, cmdCounter) && hkTlm == hk
      ensures State() == old(State())
    {
      hkTlm := HkTlmPayload(errCounter, cmdCounter);
      hk := hkTlm;
    }

    /** OBJECT_ProcessGroundCommand: check the declared length, then run the handler. */
    method ProcessGroundCommand(cmd: GroundCommand) returns (result: CommandResult)
      requires Valid()
      modifies this`cmdCounter, this`errCounter, this`enabled, objectList`enableSwitch
      ensures Valid()
      ensures (State(), result) == Dispatch(old(State()), cmd)
    {
      match cmd.code
      case UnknownCC(_) =>
        result := UnknownCommand;
      case NoopCC =>
        var ok := VerifyCmdLength(cmd, CmdHeaderSize);
        result := LengthError;
        if ok {
          Noop();
          result := Handled;
        }
      case ResetCountersCC =>
        var ok := VerifyCmdLength(cmd, CmdHeaderSize);
        result := LengthError;
        if ok {
          ResetCounters();
          result := Handled;
        }
      case ProcessCC =>
        var ok := VerifyCmdLength(cmd, CmdHeaderSize);
        result := if ok then Handled else LengthError;
      case SwitchCC(m) =>
        result := SwitchCommand(cmd, m);
      case CompleteCC(id) =>
        result := CompleteStateCommand(cmd, id);
    }

    /** The switch-request case of the dispatch. */
    method SwitchCommand(cmd: GroundCommand, m: SwitchMsg) returns (result: CommandResult)
      requires Valid() && cmd.code == SwitchCC(m)
      modifies this`errCounter, this`enabled, objectList`enableSwitch
      ensures Valid()
      ensures (State(), result) == Dispatch(old(State()), cmd)
    {
      var ok := VerifyCmdLength(cmd, CmdHeaderSize + 2);
      result := LengthError;
      if ok {
        if m.classId as int < MaxObjectTracking {
          SwitchRequest(m);
          result := Handled;
        } else {
          errCounter := Inc8(errCounter);
          result := InvalidClassReference;
        }
      }
    }

    /** The complete-history case of the dispatch. */
    method CompleteStateCommand(cmd: GroundCommand, id: uint8) returns (result: CommandResult)
      requires Valid() && cmd.code == CompleteCC(id)
      modifies this`errCounter
      ensures Valid()
      ensures (State(), result) == Dispatch(old(State()), cmd)
    {
      var ok := VerifyCmdLength(cmd, CmdHeaderSize + 1);
      result := LengthError;
      if ok {
        result := PublishCompleteState(id);
        if result == InvalidClassReference {
          errCounter := Inc8(errCounter);
        }
      }
    }
  }
}
