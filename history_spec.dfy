/**
 * The intended behaviour of a class's history, stated on values: a
 * timestamp-ordered, bounded sequence of observations, each with a flag
 * saying whether it has been sent on the bus; the routing of a batch of
 * records to the histories of their classes; and the selection of what a
 * publish cycle sends.
 */
module HistorySpec {
  import opened TrackingMsg

  /** One node's content: the record and whether it has been published. */
  datatype Observation = Observation(state: Essentials, beenPublished: bool)

  /** Ascending by timestamp: no observation is earlier than one before it. */
  predicate Sorted(h: seq<Observation>)
  {
    forall i, j :: 0 <= i < j < |h| ==> !Earlier(h[j].state, h[i].state)
  }

  /** Every observation in `h` belongs to class `c`. */
  predicate OfClass(h: seq<Observation>, c: int)
  {
    forall i :: 0 <= i < |h| ==> h[i].state.classId as int == c
  }

  /** The records of a history, oldest first. */
  function States(h: seq<Observation>): (r: seq<Essentials>)
    ensures |r| == |h| && forall i :: 0 <= i < |h| ==> r[i] == h[i].state
  {
    seq(|h|, i requires 0 <= i < |h| => h[i].state)
  }

  // ---------------------------------------------------------------------
  // Ordered insertion
  // ---------------------------------------------------------------------

  /**
   * Place `o` immediately before the first observation strictly later than
   * it, so that it follows every observation with an equal timestamp.
   */
  function InsertByTime(h: seq<Observation>, o: Observation): (r: seq<Observation>)
    ensures |r| == |h| + 1
    ensures multiset(r) == multiset(h) + multiset{o}
  {
    if h == [] then [o]
    else if Earlier(o.state, h[0].state) then [o] + h
    else
      assert h == [h[0]] + h[1..];
      [h[0]] + InsertByTime(h[1..], o)
  }

  /** Inserting after a prefix that is not later than `o`, before one that is. */
  lemma {:induction false} InsertByTimeAt(h: seq<Observation>, o: Observation, pos: nat)
    requires pos <= |h|
    requires forall j :: 0 <= j < pos ==> !Earlier(o.state, h[j].state)
    requires pos < |h| ==> Earlier(o.state, h[pos].state)
    ensures InsertByTime(h, o) == h[..pos] + [o] + h[pos..]
  {
    if pos > 0 {
      var t := h[1..];
      assert h != [] && !Earlier(o.state, h[0].state);
      forall j | 0 <= j < pos - 1 ensures !Earlier(o.state, t[j].state) {
        assert t[j] == h[j + 1];
      }
      if pos - 1 < |t| { assert t[pos - 1] == h[pos]; }
      InsertByTimeAt(t, o, pos - 1);
      assert InsertByTime(h, o) == [h[0]] + InsertByTime(t, o);
      ConsSplit(h, o, pos);
    } else {
      assert h[..0] == [] && h[0..] == h;
    }
  }

  /** Splitting `h` after `pos` equals splitting its tail after `pos - 1`, with the head in front. */
  lemma ConsSplit(h: seq<Observation>, o: Observation, pos: nat)
    requires 0 < pos <= |h|
    ensures [h[0]] + (h[1..][..pos - 1] + [o] + h[1..][pos - 1..]) == h[..pos] + [o] + h[pos..]
  {
    assert [h[0]] + h[1..][..pos - 1] == h[..pos];
    assert h[1..][pos - 1..] == h[pos..];
  }

  /** The insertion point: after every observation not later than `o`, before the first later one. */
  lemma {:induction false} InsertionPoint(h: seq<Observation>, o: Observation) returns (pos: nat)
    ensures pos <= |h|
    ensures InsertByTime(h, o) == h[..pos] + [o] + h[pos..]
    ensures forall j :: 0 <= j < pos ==> !Earlier(o.state, h[j].state)
    ensures pos < |h| ==> Earlier(o.state, h[pos].state)
  {
    if h == [] || Earlier(o.state, h[0].state) {
      pos := 0;
    } else {
      var p := InsertionPoint(h[1..], o);
      pos := p + 1;
      forall j | 0 <= j < pos ensures !Earlier(o.state, h[j].state) {
        if j > 0 { assert h[j] == h[1..][j - 1]; }
      }
      if pos < |h| { assert h[pos] == h[1..][p]; }
      InsertByTimeAt(h, o, pos);
    }
  }

  /** Ordered insertion keeps a sorted history sorted. */
  lemma {:induction false} InsertByTimeSorted(h: seq<Observation>, o: Observation)
    requires Sorted(h)
    ensures Sorted(InsertByTime(h, o))
  {
    var pos := InsertionPoint(h, o);
    var r := InsertByTime(h, o);
    assert forall k :: 0 <= k < pos ==> r[k] == h[k];
    assert r[pos] == o;
    assert forall k :: pos < k < |r| ==> r[k] == h[k - 1];
    forall i, j | 0 <= i < j < |r| ensures !Earlier(r[j].state, r[i].state) {
      if i == pos {
        EarlierIsStrictOrder(o.state, h[pos].state, h[j - 1].state);
        if j - 1 > pos { assert !Earlier(h[j - 1].state, h[pos].state); }
      }
    }
  }

  /** Fast path: a record not earlier than the newest one is appended at the tail. */
  lemma InsertByTimeAppends(h: seq<Observation>, o: Observation)
    requires Sorted(h)
    requires h == [] || !Earlier(o.state, Latest(h))
    ensures InsertByTime(h, o) == h + [o]
  {
    forall j | 0 <= j < |h| ensures !Earlier(o.state, h[j].state) {
      EarlierIsStrictOrder(o.state, h[j].state, h[|h| - 1].state);
    }
    InsertByTimeAt(h, o, |h|);
    assert h[..|h|] == h && h[|h|..] == [];
  }

  /** Ordered insertion keeps every observation in its class. */
  lemma InsertByTimeOfClass(h: seq<Observation>, o: Observation, c: int)
    requires OfClass(h, c) && o.state.classId as int == c
    ensures OfClass(InsertByTime(h, o), c)
  {
    var r := InsertByTime(h, o);
    forall i | 0 <= i < |r| ensures r[i].state.classId as int == c {
      assert r[i] in multiset(r);
    }
  }

  // ---------------------------------------------------------------------
  // Saving one record: clean out the oldest when full, then insert
  // ---------------------------------------------------------------------

  /** The history kept when a new record arrives: a full history loses its oldest node. */
  function Trim(h: seq<Observation>): seq<Observation>
  {
    if |h| >= MaxLinkedListLen then h[1..] else h
  }

  /** Saving a record: trim a full history, then insert the record unpublished. */
  function Save(h: seq<Observation>, e: Essentials): seq<Observation>
  {
    InsertByTime(Trim(h), Observation(e, false))
  }

  /** What saving does to a history that respects the bound. */
  lemma SaveProperties(h: seq<Observation>, e: Essentials)
    requires |h| <= MaxLinkedListLen
    ensures |Save(h, e)| == if |h| < MaxLinkedListLen then |h| + 1 else MaxLinkedListLen
    ensures multiset(Save(h, e)) ==
            (if |h| < MaxLinkedListLen then multiset(h) else multiset(h[1..])) +
            multiset{Observation(e, false)}
    ensures Sorted(h) ==> Sorted(Save(h, e))
  {
    if Sorted(h) {
      InsertByTimeSorted(Trim(h), Observation(e, false));
    }
  }

  /** Saving the records of a batch, one after another, into one history. */
  function SaveBatch(h: seq<Observation>, rs: seq<Essentials>): seq<Observation>
    decreases |rs|
  {
    if rs == [] then h else SaveBatch(Save(h, rs[0]), rs[1..])
  }

  /** Any number of saves keeps a history sorted, within the bound and in its class. */
  lemma {:induction false} SaveBatchInvariant(h: seq<Observation>, rs: seq<Essentials>, c: int)
    requires Sorted(h) && |h| <= MaxLinkedListLen && OfClass(h, c)
    requires forall i :: 0 <= i < |rs| ==> rs[i].classId as int == c
    ensures var r := SaveBatch(h, rs); Sorted(r) && |r| <= MaxLinkedListLen && OfClass(r, c)
    decreases |rs|
  {
    if rs != [] {
      SaveProperties(h, rs[0]);
      InsertByTimeOfClass(Trim(h), Observation(rs[0], false), c);
      SaveBatchInvariant(Save(h, rs[0]), rs[1..], c);
    }
  }

  /** The records of a batch addressed to class `c`, in arrival order. */
  function ForClass(rs: seq<Essentials>, c: int): (r: seq<Essentials>)
    ensures forall i :: 0 <= i < |r| ==> r[i].classId as int == c
    ensures |r| <= |rs|
  {
    if rs == [] then []
    else if rs[0].classId as int == c then [rs[0]] + ForClass(rs[1..], c)
    else ForClass(rs[1..], c)
  }

  /** The record at index `i` of the batch reaches the history of its own class. */
  lemma {:induction false} ForClassMember(rs: seq<Essentials>, i: nat)
    requires i < |rs|
    ensures rs[i] in ForClass(rs, rs[i].classId as int)
  {
    if i > 0 {
      ForClassMember(rs[1..], i - 1);
      assert rs[1..][i - 1] == rs[i];
    }
  }

  // ---------------------------------------------------------------------
  // Routing a batch over the whole table
  // ---------------------------------------------------------------------

  /** A table of histories: one per class, indexed by class id. */
  predicate WellFormedTable(t: seq<seq<Observation>>)
  {
    |t| == MaxObjectTracking &&
    forall c :: 0 <= c < |t| ==> Sorted(t[c]) && |t[c]| <= MaxLinkedListLen && OfClass(t[c], c)
  }

  /** Feed a batch to the table: a record whose class id is out of range is dropped. */
  function Route(t: seq<seq<Observation>>, rs: seq<Essentials>): (r: seq<seq<Observation>>)
    requires |t| == MaxObjectTracking
    ensures |r| == MaxObjectTracking
    decreases |rs|
  {
    if rs == [] then t
    else if rs[0].classId as int < MaxObjectTracking then
      var c := rs[0].classId as int;
      Route(t[c := Save(t[c], rs[0])], rs[1..])
    else Route(t, rs[1..])
  }

  /** Each class receives exactly its own records, in arrival order; other classes are untouched. */
  lemma {:induction false} RoutePerClass(t: seq<seq<Observation>>, rs: seq<Essentials>, c: nat)
    requires |t| == MaxObjectTracking && c < MaxObjectTracking
    ensures Route(t, rs)[c] == SaveBatch(t[c], ForClass(rs, c))
    decreases |rs|
  {
    if rs != [] {
      var d := rs[0].classId as int;
      if d < MaxObjectTracking {
        RoutePerClass(t[d := Save(t[d], rs[0])], rs[1..], c);
      } else {
        RoutePerClass(t, rs[1..], c);
      }
    }
  }

  /** Routing keeps every class's history sorted, bounded and in its class. */
  lemma RouteWellFormed(t: seq<seq<Observation>>, rs: seq<Essentials>)
    requires WellFormedTable(t)
    ensures WellFormedTable(Route(t, rs))
  {
    var r := Route(t, rs);
    forall c | 0 <= c < MaxObjectTracking
      ensures Sorted(r[c]) && |r[c]| <= MaxLinkedListLen && OfClass(r[c], c)
    {
      RoutePerClass(t, rs, c);
      SaveBatchInvariant(t[c], ForClass(rs, c), c);
    }
  }

  /** The number of records in a batch that name no tracked class. */
  function InvalidCount(rs: seq<Essentials>): (n: nat)
    ensures n <= |rs|
    ensures n == 0 <==> forall i :: 0 <= i < |rs| ==> rs[i].classId as int < MaxObjectTracking
  {
    if rs == [] then 0
    else (if rs[0].classId as int < MaxObjectTracking then 0 else 1) + InvalidCount(rs[1..])
  }

  /** The worked example: (10,0), (9,500), (11,0) into an empty class-2 history. */
  lemma OutOfOrderExample(a: Essentials, b: Essentials, c: Essentials)
    requires a.classId == b.classId == c.classId == 2
    requires a.timeStampSec == 10 && a.timeStampNanoSec == 0
    requires b.timeStampSec == 9 && b.timeStampNanoSec == 500
    requires c.timeStampSec == 11 && c.timeStampNanoSec == 0
    ensures SaveBatch([], [a, b, c]) ==
            [Observation(b, false), Observation(a, false), Observation(c, false)]
  {
    var oa, ob, oc := Observation(a, false), Observation(b, false), Observation(c, false);
    assert Save([], a) == [oa];
    assert InsertByTime([oa], ob) == [ob, oa];
    assert Save([oa], b) == [ob, oa];
    InsertByTimeAppends([ob, oa], oc);
    assert Save([ob, oa], c) == [ob, oa, oc];
    calc {
      SaveBatch([], [a, b, c]);
      { assert [a, b, c][1..] == [b, c]; }
      SaveBatch([oa], [b, c]);
      { assert [b, c][1..] == [c]; }
      SaveBatch([ob, oa], [c]);
      SaveBatch([ob, oa, oc], []);
    }
  }

  // ---------------------------------------------------------------------
  // Publishing
  // ---------------------------------------------------------------------

  /** Marking the newest observation as sent; nothing else changes. */
  function MarkLatest(h: seq<Observation>): (r: seq<Observation>)
    ensures |r| == |h|
    ensures forall i :: 0 <= i < |h| ==> r[i].state == h[i].state
    ensures forall i :: 0 <= i < |h| ==> r[i].beenPublished == (h[i].beenPublished || i == |h| - 1)
  {
    if h == [] then [] else h[..|h| - 1] + [h[|h| - 1].(beenPublished := true)]
  }

  /** Marking twice is marking once, and marking keeps the history sorted and in its class. */
  lemma MarkLatestProperties(h: seq<Observation>, c: int)
    ensures MarkLatest(MarkLatest(h)) == MarkLatest(h)
    ensures Sorted(h) ==> Sorted(MarkLatest(h))
    ensures OfClass(h, c) ==> OfClass(MarkLatest(h), c)
  {
    var m, mm := MarkLatest(h), MarkLatest(MarkLatest(h));
    assert |mm| == |m|;
    forall i | 0 <= i < |m| ensures mm[i] == m[i] {
      assert mm[i].state == m[i].state && mm[i].beenPublished == m[i].beenPublished;
    }
  }

  /** The record of the newest observation of a non-empty history. */
  function Latest(h: seq<Observation>): Essentials
    requires h != []
  {
    h[|h| - 1].state
  }

  /** One class's history after a publish cycle: marked when its switch is on. */
  function PublishEntry(on: bool, h: seq<Observation>): seq<Observation>
  {
    if on then MarkLatest(h) else h
  }

  /**
   * The records one publish cycle sends: the newest observation of every
   * enabled class that has one, in class order (classes 0 .. |en| - 1).
   */
  function Selection(en: seq<bool>, t: seq<seq<Observation>>): seq<Essentials>
    requires |en| == |t|
  {
    if en == [] then []
    else
      var n := |en| - 1;
      Selection(en[..n], t[..n]) +
      (if en[n] && t[n] != [] then [Latest(t[n])] else [])
  }

  /**
   * A cycle sends at most one record per class, in increasing class order,
   * so no class's record is sent twice.
   */
  lemma {:induction false} SelectionOnePerClass(en: seq<bool>, t: seq<seq<Observation>>)
    requires |en| == |t|
    requires forall d :: 0 <= d < |t| ==> OfClass(t[d], d)
    ensures |Selection(en, t)| <= |t|
    ensures forall i :: 0 <= i < |Selection(en, t)| ==> Selection(en, t)[i].classId as int < |t|
    ensures forall i, j :: 0 <= i < j < |Selection(en, t)| ==>
              Selection(en, t)[i].classId < Selection(en, t)[j].classId
    decreases |t|
  {
    if en != [] {
      var n := |en| - 1;
      forall d | 0 <= d < n ensures OfClass(t[..n][d], d) {
        assert t[..n][d] == t[d];
      }
      SelectionOnePerClass(en[..n], t[..n]);
      if en[n] && t[n] != [] {
        assert OfClass(t[n], n);
        assert Latest(t[n]).classId as int == n;
      }
    }
  }

  /** Everything sent is the newest observation of an enabled class. */
  lemma {:induction false} SelectionSound(en: seq<bool>, t: seq<seq<Observation>>, x: Essentials)
    requires |en| == |t|
    requires x in Selection(en, t)
    ensures exists c :: 0 <= c < |t| && en[c] && t[c] != [] && x == Latest(t[c])
  {
    var n := |en| - 1;
    if x !in Selection(en[..n], t[..n]) {
      assert en[n] && t[n] != [] && x == Latest(t[n]);
    } else {
      SelectionSound(en[..n], t[..n], x);
      var c :| 0 <= c < n && en[..n][c] && t[..n][c] != [] && x == Latest(t[..n][c]);
      assert en[c] && t[c] == t[..n][c];
    }
  }

  /** The newest observation of every enabled, non-empty class is sent. */
  lemma {:induction false} SelectionComplete(en: seq<bool>, t: seq<seq<Observation>>, c: nat)
    requires |en| == |t| && c < |t|
    requires en[c] && t[c] != []
    ensures Latest(t[c]) in Selection(en, t)
    decreases |t|
  {
    var n := |en| - 1;
    if c < n {
      SelectionComplete(en[..n], t[..n], c);
      assert t[..n][c] == t[c];
    }
  }

  /** A disabled class contributes nothing to a publish cycle. */
  lemma {:induction false} SelectionSkipsDisabled(en: seq<bool>, t: seq<seq<Observation>>, c: nat)
    requires |en| == |t| && c < |t|
    requires forall d :: 0 <= d < |t| ==> OfClass(t[d], d)
    requires !en[c]
    ensures forall x :: x in Selection(en, t) ==> x.classId as int != c
  {
    forall x | x in Selection(en, t) ensures x.classId as int != c {
      SelectionSound(en, t, x);
      var d :| 0 <= d < |t| && en[d] && t[d] != [] && x == Latest(t[d]);
      assert OfClass(t[d], d);
    }
  }

  /** The sent flags play no part in the selection, so marking changes nothing a later cycle sends. */
  lemma {:induction false} SelectionAfterPublish(en: seq<bool>, t: seq<seq<Observation>>)
    requires |en| == |t|
    ensures Selection(en, PublishAll(en, t)) == Selection(en, t)
    decreases |t|
  {
    if en != [] {
      var n := |en| - 1;
      var r := PublishAll(en, t);
      assert r[..n] == PublishAll(en[..n], t[..n]);
      SelectionAfterPublish(en[..n], t[..n]);
      if t[n] != [] {
        assert Latest(r[n]) == Latest(t[n]);
      }
    }
  }

  /**
   * The table after a publish cycle: every record stays where it was, and a
   * node's flag is set afterwards exactly when it was set before or it is
   * the newest node of an enabled class.
   */
  function PublishAll(en: seq<bool>, t: seq<seq<Observation>>): (r: seq<seq<Observation>>)
    requires |en| == |t|
    ensures |r| == |t|
    ensures forall c :: 0 <= c < |t| ==> |r[c]| == |t[c]|
    ensures forall c, i :: 0 <= c < |t| && 0 <= i < |t[c]| ==>
              r[c][i].state == t[c][i].state &&
              r[c][i].beenPublished == (t[c][i].beenPublished || (en[c] && i == |t[c]| - 1))
  {
    seq(|t|, c requires 0 <= c < |t| => PublishEntry(en[c], t[c]))
  }
}
