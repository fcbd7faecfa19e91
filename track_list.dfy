/**
 * One entry of the tracking table (Object_Master_Node_t): the class's
 * publish switch and its doubly-linked history of observations, kept in an
 * arena of MaxLinkedListLen nodes. The ghost fields `order`, `free` and
 * `history` give the abstract view; `Valid` ties them to the arena.
 */
module TrackListing {
  import opened TrackingMsg
  import opened HistorySpec
  import opened ListArena

  /** The record an unused node holds. */
  function BlankState(id: uint8): Essentials
  {
    Essentials(0, 0, id, "", Float64(0), "", Float64(0), Float64(0))
  }

  /**
   * Linking the first free slot in between `p` and `c`, at the position where
   * `InsertByTime` puts the record, keeps the arena a sorted, single-class
   * history. The new slot order and free list are returned.
   */
  lemma LinkStep(ns: seq<ObjectNode>, order: seq<int>, free: seq<int>, h: seq<Observation>,
                 start: int, latest: int, freeHead: int, len: int, pos: nat, o: Observation, cls: int,
                 p: int, c: int)
    returns (order': seq<int>, free': seq<int>, h': seq<Observation>)
    requires ArenaInv(ns, order, free, h, start, latest, freeHead, len) && Sorted(h) && OfClass(h, cls)
    requires free != [] && pos <= |order| && o.state.classId as int == cls
    requires p == if pos == 0 then Nil else order[pos - 1]
    requires c == if pos == |order| then Nil else order[pos]
    requires InsertByTime(h, o) == h[..pos] + [o] + h[pos..]
    ensures 0 <= free[0] < |ns| && (p != Nil ==> 0 <= p < |ns|) && (c != Nil ==> 0 <= c < |ns|)
    ensures h' == InsertByTime(h, o)
    ensures ArenaInv(LinkedAt(ns, free[0], p, c, o), order', free', h',
                     if p == Nil then free[0] else start, if c == Nil then free[0] else latest,
                     ns[free[0]].nextNode, len + 1)
    ensures Sorted(h') && OfClass(h', cls)
  {
    LinkAt(ns, order, free, h, start, latest, freeHead, len, pos, o);
    InsertByTimeSorted(h, o);
    InsertByTimeOfClass(h, o, cls);
    order', free', h' := order[..pos] + [free[0]] + order[pos..], free[1..], InsertByTime(h, o);
  }

  /**
   * Unlinking the oldest node of a non-empty arena drops the first
   * observation and keeps a sorted, single-class history. The new slot
   * order, free list and history are returned.
   */
  lemma UnlinkStep(ns: seq<ObjectNode>, order: seq<int>, free: seq<int>, h: seq<Observation>,
                   start: int, latest: int, freeHead: int, len: int, cls: int)
    returns (order': seq<int>, free': seq<int>, h': seq<Observation>)
    requires ArenaInv(ns, order, free, h, start, latest, freeHead, len) && Sorted(h) && OfClass(h, cls)
    requires order != []
    ensures 0 <= start < |ns| && (ns[start].nextNode != Nil ==> 0 <= ns[start].nextNode < |ns|)
    ensures HoldsAt(ns, order, 0, h[0]) && order[0] == start && h' == h[1..]
    ensures ArenaInv(UnlinkedFirst(ns, start, freeHead), order', free', h',
                     ns[start].nextNode, if ns[start].nextNode == Nil then Nil else latest, start, len - 1)
    ensures Sorted(h') && OfClass(h', cls)
  {
    UnlinkFirst(ns, order, free, h, start, latest, freeHead, len);
    order', free', h' := order[1..], [start] + free, h[1..];
  }

  class TrackList {
    /** The class this entry tracks; it equals the entry's index in the table. */
    const classId: uint8
    /** Whether the newest state of this class is published each cycle. */
    var enableSwitch: bool
    /** Slot of the oldest observation, or Nil. */
    var startNode: int
    /** Slot of the newest observation, or Nil. */
    var latestNode: int
    /** Number of observations in the history. */
    var totalNodeLen: int
    /** First unused slot, or Nil when the arena is full. */
    var freeNode: int
    /** The node storage. */
    const nodes: array<ObjectNode>

    /** The slots of the history from oldest to newest. */
    ghost var order: seq<int>
    /** The unused slots, in free-list order. */
    ghost var free: seq<int>
    /** The history itself, oldest first. */
    ghost var history: seq<Observation>

    /** The arena represents `history`, which is sorted by time and holds only this class's records. */
    ghost predicate Valid()
      reads this`order, this`free, this`history, this`startNode, this`latestNode, this`freeNode,
            this`totalNodeLen, nodes
    {
      ArenaInv(nodes[..], order, free, history, startNode, latestNode, freeNode, totalNodeLen) &&
      Sorted(history) && OfClass(history, classId as int)
    }

    /** An entry as the zero-initialised table holds it: disabled and empty. */
    constructor (id: uint8)
      ensures Valid() && fresh(nodes)
      ensures classId == id && !enableSwitch && history == []
    {
      classId := id;
      enableSwitch := false;
      var blank := BlankState(id);
      nodes := new ObjectNode[MaxLinkedListLen](k =>
        ObjectNode(blank, Nil, if k == MaxLinkedListLen - 1 then Nil else k + 1, false));
      startNode, latestNode, totalNodeLen, freeNode := Nil, Nil, 0, 0;
      order, free, history := [], seq(MaxLinkedListLen, k => k), [];
      new;
      EmptyArena(nodes[..]);
    }

    /**
     * Where a record goes: just before the first observation that is strictly
     * later than it. A record not earlier than the newest one is appended at
     * the tail; otherwise the list is scanned from the oldest. `p` and `c`
     * are the slots that will precede and follow it.
     */
    method FindSlot(e: Essentials) returns (p: int, c: int, ghost pos: nat)
      requires Valid()
      ensures pos <= |order|
      ensures p == if pos == 0 then Nil else order[pos - 1]
      ensures c == if pos == |order| then Nil else order[pos]
      ensures InsertByTime(history, Observation(e, false)) ==
              history[..pos] + [Observation(e, false)] + history[pos..]
      ensures history == [] ==> p == Nil && c == Nil
      ensures history != [] && !Earlier(e, Latest(history)) ==> p == latestNode && c == Nil
    {
      ghost var ns := nodes[..];
      var o := Observation(e, false);
      if startNode == Nil {
        p, c, pos := Nil, Nil, 0;
        InsertByTimeAt(history, o, pos);
      } else if !Earlier(e, nodes[latestNode].objectState) {
        // Fast path: at or after the newest observation.
        assert HoldsAt(ns, order, |order| - 1, history[|history| - 1]);
        InsertByTimeAppends(history, o);
        p, c, pos := latestNode, Nil, |order|;
        assert history[..pos] == history && history[pos..] == [];
      } else {
        assert HoldsAt(ns, order, |order| - 1, history[|history| - 1]);
        c, pos := ScanForLater(e);
        assert ChainAt(ns, order, pos);
        p := nodes[c].previousNode;
        InsertByTimeAt(history, o, pos);
      }
    }

    /**
     * The scan from the oldest observation for the first one strictly later
     * than `e`, which exists because the newest one is.
     */
    method ScanForLater(e: Essentials) returns (c: int, ghost pos: nat)
      requires Valid() && order != []
      requires Earlier(e, Latest(history))
      ensures pos < |order| && c == order[pos]
      ensures forall j :: 0 <= j < pos ==> !Earlier(e, history[j].state)
      ensures Earlier(e, history[pos].state)
    {
      ghost var ns := nodes[..];
      c, pos := startNode, 0;
      while !Earlier(e, nodes[c].objectState)
        invariant 0 <= pos < |order| && c == order[pos]
        invariant forall j :: 0 <= j < pos ==> !Earlier(e, history[j].state)
        decreases |order| - pos
      {
        assert ChainAt(ns, order, pos) && HoldsAt(ns, order, pos, history[pos]);
        c, pos := nodes[c].nextNode, pos + 1;
      }
      assert HoldsAt(ns, order, pos, history[pos]);
    }

    /** Link a record in, unpublished, at the place `FindSlot` gives. */
    method LinkObservation(e: Essentials)
      requires Valid() && totalNodeLen < MaxLinkedListLen && e.classId == classId
      modifies this`startNode, this`latestNode, this`freeNode, this`totalNodeLen
      modifies this`order, this`free, this`history, nodes
      ensures Valid()
      ensures history == InsertByTime(old(history), Observation(e, false))
    {
      var p, c, pos := FindSlot(e);
      ghost var order', free', h' := LinkStep(nodes[..], order, free, history, startNode, latestNode,
                                              freeNode, totalNodeLen, pos, Observation(e, false),
                                              classId as int, p, c);
      RelinkFree(p, c, e, order', free', h');
    }

    /**
     * The writes of a link: the first free slot takes `e` between `p` and
     * `c`, and the handles, counter and free head follow, which makes the
     * arena represent `h'` (`LinkStep` states when it does).
     */
    method RelinkFree(p: int, c: int, e: Essentials, ghost order': seq<int>, ghost free': seq<int>,
                      ghost h': seq<Observation>)
      requires 0 <= freeNode < nodes.Length
      requires p != Nil ==> 0 <= p < nodes.Length
      requires c != Nil ==> 0 <= c < nodes.Length
      requires ArenaInv(LinkedAt(nodes[..], freeNode, p, c, Observation(e, false)), order', free', h',
                        if p == Nil then freeNode else startNode, if c == Nil then freeNode else latestNode,
                        nodes[freeNode].nextNode, totalNodeLen + 1)
      requires Sorted(h') && OfClass(h', classId as int)
      modifies this`startNode, this`latestNode, this`freeNode, this`totalNodeLen
      modifies this`order, this`free, this`history, nodes
      ensures Valid() && history == h'
    {
      var k := freeNode;
      startNode, latestNode, freeNode, totalNodeLen :=
        if p == Nil then k else startNode, if c == Nil then k else latestNode, nodes[k].nextNode, totalNodeLen + 1;
      order, free, history := order', free', h';
      WriteLinks(k, p, c, e);
    }

    /** The node writes of a link: slot `k` gets `e` between `p` and `c`, which point back at it. */
    method WriteLinks(k: int, p: int, c: int, e: Essentials)
      requires 0 <= k < nodes.Length
      requires p != Nil ==> 0 <= p < nodes.Length
      requires c != Nil ==> 0 <= c < nodes.Length
      modifies nodes
      ensures nodes[..] == LinkedAt(old(nodes[..]), k, p, c, Observation(e, false))
    {
      nodes[k] := ObjectNode(e, p, c, false);
      if c != Nil { nodes[c] := nodes[c].(previousNode := k); }
      if p != Nil { nodes[p] := nodes[p].(nextNode := k); }
    }

    /** Unlink the oldest observation and return its node's content. */
    method TrimOldest() returns (evicted: Observation)
      requires Valid() && totalNodeLen > 0
      modifies this`startNode, this`latestNode, this`freeNode, this`totalNodeLen
      modifies this`order, this`free, this`history, nodes
      ensures Valid()
      ensures evicted == old(history)[0] && history == old(history)[1..]
    {
      ghost var order', free', h' := UnlinkStep(nodes[..], order, free, history, startNode, latestNode,
                                                freeNode, totalNodeLen, classId as int);
      evicted := Observation(nodes[startNode].objectState, nodes[startNode].beenPublished);
      UnlinkStart(order', free', h');
    }

    /**
     * The writes of an unlink: the start node leaves the list for the head
     * of the free list, and its successor becomes the start, which makes the
     * arena represent `h'` (`UnlinkStep` states when it does).
     */
    method UnlinkStart(ghost order': seq<int>, ghost free': seq<int>, ghost h': seq<Observation>)
      requires 0 <= startNode < nodes.Length
      requires nodes[startNode].nextNode != Nil ==> 0 <= nodes[startNode].nextNode < nodes.Length
      requires ArenaInv(UnlinkedFirst(nodes[..], startNode, freeNode), order', free', h',
                        nodes[startNode].nextNode, if nodes[startNode].nextNode == Nil then Nil else latestNode,
                        startNode, totalNodeLen - 1)
      requires Sorted(h') && OfClass(h', classId as int)
      modifies this`startNode, this`latestNode, this`freeNode, this`totalNodeLen
      modifies this`order, this`free, this`history, nodes
      ensures Valid() && history == h'
    {
      var s := startNode;
      var nx := nodes[s].nextNode;
      if nx != Nil {
        nodes[nx] := nodes[nx].(previousNode := Nil);
      } else {
        latestNode := Nil;
      }
      nodes[s] := nodes[s].(previousNode := Nil, nextNode := freeNode);
      startNode, freeNode, totalNodeLen := nx, s, totalNodeLen - 1;
      order, free, history := order', free', h';
    }

    /**
     * Save one record: a full history first loses its oldest node, which is
     * handed back in `flushed` when `backup` is set and dropped otherwise;
     * then the record is linked in by timestamp.
     */
    method InsertObservation(e: Essentials, backup: bool) returns (flushed: seq<Essentials>)
      requires Valid() && e.classId == classId
      modifies this`startNode, this`latestNode, this`freeNode, this`totalNodeLen
      modifies this`order, this`free, this`history, nodes
      ensures Valid()
      ensures history == Save(old(history), e)
      ensures flushed == if backup && |old(history)| >= MaxLinkedListLen then [old(history)[0].state] else []
    {
      flushed := [];
      if totalNodeLen >= MaxLinkedListLen {
        var evicted := TrimOldest();
        if backup {
          flushed := [evicted.state];
        }
      }
      LinkObservation(e);
    }

    /** Mark the newest observation as published and return its record. */
    method MarkLatestPublished() returns (e: Essentials)
      requires Valid() && totalNodeLen > 0
      modifies this`history, nodes
      ensures Valid()
      ensures e == Latest(old(history))
      ensures history == MarkLatest(old(history))
    {
      ghost var ns := nodes[..];
      MarkFinal(ns, order, free, history, startNode, latestNode, freeNode, totalNodeLen);
      MarkLatestProperties(history, classId as int);
      assert HoldsAt(ns, order, |order| - 1, history[|history| - 1]);
      e := nodes[latestNode].objectState;
      nodes[latestNode] := nodes[latestNode].(beenPublished := true);
      history := MarkLatest(history);
    }

    /**
     * One entry's share of a publish cycle: when publishing is enabled and
     * the history is not empty, send the newest record and mark it sent.
     */
    method PublishLatest() returns (sent: seq<Essentials>)
      requires Valid()
      modifies this`history, nodes
      ensures Valid()
      ensures history == PublishEntry(enableSwitch, old(history))
      ensures sent == if enableSwitch && old(history) != [] then [Latest(old(history))] else []
    {
      sent := [];
      if enableSwitch && totalNodeLen > 0 {
        var e := MarkLatestPublished();
        sent := [e];
      }
    }

    /** Follow `nextNode` from the start: the records of the history, oldest first. */
    method Traverse() returns (records: seq<Essentials>)
      requires Valid()
      ensures records == States(history)
      ensures |records| == totalNodeLen
    {
      records := [];
      var cur := startNode;
      ghost var i := 0;
      while cur != Nil
        invariant 0 <= i <= |order|
        invariant cur == if i == |order| then Nil else order[i]
        invariant records == States(history[..i])
        decreases |order| - i
      {
        assert ChainAt(nodes[..], order, i) && HoldsAt(nodes[..], order, i, history[i]);
        assert history[..i + 1] == history[..i] + [history[i]];
        records := records + [nodes[cur].objectState];
        cur := nodes[cur].nextNode;
        i := i + 1;
      }
      assert history[..i] == history;
    }

    /** Follow `previousNode` from the newest: the records of the history, newest first. */
    method TraverseBackward() returns (records: seq<Essentials>)
      requires Valid()
      ensures |records| == |history|
      ensures forall j :: 0 <= j < |history| ==> records[j] == history[|history| - 1 - j].state
    {
      records := [];
      var cur := latestNode;
      ghost var i := |order|;
      while cur != Nil
        invariant 0 <= i <= |order|
        invariant cur == if i == 0 then Nil else order[i - 1]
        invariant |records| == |order| - i
        invariant forall j :: 0 <= j < |records| ==> records[j] == history[|history| - 1 - j].state
        decreases i
      {
        assert ChainAt(nodes[..], order, i - 1) && HoldsAt(nodes[..], order, i - 1, history[i - 1]);
        records := records + [nodes[cur].objectState];
        cur := nodes[cur].previousNode;
        i := i - 1;
      }
    }
  }
}
