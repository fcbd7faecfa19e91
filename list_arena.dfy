/**
 * A class's doubly-linked history laid out in a fixed arena of
 * MaxLinkedListLen slots. Links are slot indices, `Nil` is the null link,
 * and the unused slots form a free list chained through `nextNode`. This
 * module states, on a snapshot of the arena, when the links describe a
 * given sequence of observations, and proves that each relinking step the
 * list performs keeps that description exact.
 */
module ListArena {
  import opened TrackingMsg
  import opened HistorySpec

  /** The null link. */
  const Nil: int := -1

  /** Object_Node_t: the record, the neighbouring nodes, and whether it has been sent. */
  datatype ObjectNode = ObjectNode(
    objectState: Essentials,
    previousNode: int,
    nextNode: int,
    beenPublished: bool)

  /** The header handles of a list: its first element, or `Nil` when empty. */
  function First(s: seq<int>): int
  {
    if s == [] then Nil else s[0]
  }

  /** ... and its last element, or `Nil` when empty. */
  function Final(s: seq<int>): int
  {
    if s == [] then Nil else s[|s| - 1]
  }

  /** No slot occurs twice. */
  ghost predicate NoDup(s: seq<int>)
  {
    forall x :: multiset(s)[x] <= 1
  }

  /** Every slot names a cell of an arena of `n` cells. */
  ghost predicate InArena(s: seq<int>, n: int)
  {
    forall i :: 0 <= i < |s| ==> 0 <= s[i] < n
  }

  /** The cell of position `i` of `order` links to the positions next to it. */
  ghost predicate ChainAt(ns: seq<ObjectNode>, order: seq<int>, i: int)
    requires InArena(order, |ns|) && 0 <= i < |order|
  {
    ns[order[i]].previousNode == (if i == 0 then Nil else order[i - 1]) &&
    ns[order[i]].nextNode == (if i == |order| - 1 then Nil else order[i + 1])
  }

  /** The `previousNode`/`nextNode` links chain the slots of `order` in that order. */
  ghost predicate ChainLinks(ns: seq<ObjectNode>, order: seq<int>)
    requires InArena(order, |ns|)
  {
    forall i :: 0 <= i < |order| ==> ChainAt(ns, order, i)
  }

  /** The free cell at position `j` links to the next free one. */
  ghost predicate FreeAt(ns: seq<ObjectNode>, free: seq<int>, j: int)
    requires InArena(free, |ns|) && 0 <= j < |free|
  {
    ns[free[j]].nextNode == (if j == |free| - 1 then Nil else free[j + 1])
  }

  /** The `nextNode` links chain the free slots. */
  ghost predicate FreeLinks(ns: seq<ObjectNode>, free: seq<int>)
    requires InArena(free, |ns|)
  {
    forall j :: 0 <= j < |free| ==> FreeAt(ns, free, j)
  }

  /** The cell of position `i` holds observation `o`. */
  ghost predicate HoldsAt(ns: seq<ObjectNode>, order: seq<int>, i: int, o: Observation)
    requires InArena(order, |ns|) && 0 <= i < |order|
  {
    ns[order[i]].objectState == o.state && ns[order[i]].beenPublished == o.beenPublished
  }

  /** The slots of `order` hold the observations of `h`, one for one. */
  ghost predicate Holds(ns: seq<ObjectNode>, order: seq<int>, h: seq<Observation>)
    requires InArena(order, |ns|)
  {
    |h| == |order| &&
    forall i :: 0 <= i < |order| ==> HoldsAt(ns, order, i, h[i])
  }

  /**
   * The arena `ns` with handles `start`, `latest`, free head `freeHead`
   * and counter `len` represents history `h`, listed by slot in `order`;
   * `free` lists the unused slots.
   */
  ghost predicate ArenaInv(ns: seq<ObjectNode>, order: seq<int>, free: seq<int>, h: seq<Observation>,
                           start: int, latest: int, freeHead: int, len: int)
  {
    |ns| == MaxLinkedListLen &&
    |order| + |free| == |ns| &&
    InArena(order, |ns|) && InArena(free, |ns|) &&
    NoDup(order + free) &&
    ChainLinks(ns, order) && FreeLinks(ns, free) && Holds(ns, order, h) &&
    start == First(order) && latest == Final(order) && freeHead == First(free) &&
    len == |order|
  }

  /** `ArenaInv` from its parts. */
  lemma Assemble(ns: seq<ObjectNode>, order: seq<int>, free: seq<int>, h: seq<Observation>,
                 start: int, latest: int, freeHead: int, len: int)
    requires |ns| == MaxLinkedListLen && |order| + |free| == |ns|
    requires InArena(order, |ns|) && InArena(free, |ns|) && NoDup(order + free)
    requires ChainLinks(ns, order) && FreeLinks(ns, free) && Holds(ns, order, h)
    requires start == First(order) && latest == Final(order) && freeHead == First(free)
    requires len == |order|
    ensures ArenaInv(ns, order, free, h, start, latest, freeHead, len)
  {
  }

  /** A fresh arena: every slot is free, chained in index order. */
  lemma EmptyArena(ns: seq<ObjectNode>)
    requires |ns| == MaxLinkedListLen
    requires forall k :: 0 <= k < |ns| ==> ns[k].nextNode == if k == |ns| - 1 then Nil else k + 1
    ensures ArenaInv(ns, [], seq(|ns|, k => k), [], Nil, Nil, 0, 0)
  {
    var free := seq(|ns|, k => k);
    forall x ensures multiset([] + free)[x] <= 1 {
      assert [] + free == free;
      FreeIndexCount(|ns|, x);
    }
  }

  lemma {:induction false} FreeIndexCount(n: nat, x: int)
    ensures multiset(seq(n, k => k))[x] == if 0 <= x < n then 1 else 0
  {
    if n > 0 {
      assert seq(n, k => k) == seq(n - 1, k => k) + [n - 1];
      FreeIndexCount(n - 1, x);
    }
  }

  /** In a list without repeats, different positions hold different slots. */
  lemma NoDupIndices(s: seq<int>, i: int, j: int)
    requires NoDup(s)
    requires 0 <= i < j < |s|
    ensures s[i] != s[j]
  {
    assert s == s[..i] + [s[i]] + s[i + 1..j] + [s[j]] + s[j + 1..];
    assert multiset(s)[s[i]] >= 2 || s[i] != s[j];
  }

  /** Consequences of `NoDup(order + free)` for the two parts. */
  lemma NoDupParts(order: seq<int>, free: seq<int>)
    requires NoDup(order + free)
    ensures NoDup(order) && NoDup(free)
    ensures forall x :: x in free ==> x !in order
  {
    assert multiset(order + free) == multiset(order) + multiset(free);
    forall x ensures multiset(order)[x] <= 1 && multiset(free)[x] <= 1 {
      assert multiset(order + free)[x] <= 1;
    }
    forall x | x in free ensures x !in order {
      assert multiset(free)[x] >= 1;
      assert multiset(order + free)[x] <= 1;
    }
  }

  /** The node following the one at position `i` points back to it, and the ends are the handles. */
  lemma LinksConsistent(ns: seq<ObjectNode>, order: seq<int>, free: seq<int>, h: seq<Observation>,
                        start: int, latest: int, freeHead: int, len: int, i: int)
    requires ArenaInv(ns, order, free, h, start, latest, freeHead, len)
    requires 0 <= i < |order|
    ensures ns[order[i]].nextNode != Nil ==>
            0 <= ns[order[i]].nextNode < |ns| && ns[ns[order[i]].nextNode].previousNode == order[i]
    ensures ns[order[i]].previousNode != Nil ==>
            0 <= ns[order[i]].previousNode < |ns| && ns[ns[order[i]].previousNode].nextNode == order[i]
    ensures ns[order[i]].nextNode == Nil <==> order[i] == latest
    ensures ns[order[i]].previousNode == Nil <==> order[i] == start
  {
    NoDupParts(order, free);
    assert ChainAt(ns, order, i);
    if i < |order| - 1 {
      assert ChainAt(ns, order, i + 1);
      NoDupIndices(order, i, |order| - 1);
    }
    if 0 < i {
      assert ChainAt(ns, order, i - 1);
      NoDupIndices(order, 0, i);
    }
  }

  // ---------------------------------------------------------------------
  // Relinking steps
  // ---------------------------------------------------------------------

  /** The arena after linking slot `k`, holding `o`, between `p` and `c`. */
  function LinkedAt(ns: seq<ObjectNode>, k: int, p: int, c: int, o: Observation): seq<ObjectNode>
    requires 0 <= k < |ns|
    requires p != Nil ==> 0 <= p < |ns|
    requires c != Nil ==> 0 <= c < |ns|
  {
    var ns1 := ns[k := ObjectNode(o.state, p, c, o.beenPublished)];
    var ns2 := if c == Nil then ns1 else ns1[c := ns1[c].(previousNode := k)];
    if p == Nil then ns2 else ns2[p := ns2[p].(nextNode := k)]
  }

  /** What `LinkedAt` leaves in each cell, when `k`, `p` and `c` are distinct. */
  lemma LinkedAtCells(ns: seq<ObjectNode>, k: int, p: int, c: int, o: Observation)
    requires 0 <= k < |ns|
    requires p != Nil ==> 0 <= p < |ns| && p != k
    requires c != Nil ==> 0 <= c < |ns| && c != k && c != p
    ensures var ns' := LinkedAt(ns, k, p, c, o);
            |ns'| == |ns| &&
            ns'[k] == ObjectNode(o.state, p, c, o.beenPublished) &&
            (c != Nil ==> ns'[c] == ns[c].(previousNode := k)) &&
            (p != Nil ==> ns'[p] == ns[p].(nextNode := k)) &&
            forall x :: 0 <= x < |ns| && x != k && x != p && x != c ==> ns'[x] == ns[x]
  {
  }

  /**
   * Taking the first free slot and linking it in at position `pos` of the
   * list yields the history with `o` at that position.
   */
  lemma LinkAt(ns: seq<ObjectNode>, order: seq<int>, free: seq<int>, h: seq<Observation>,
               start: int, latest: int, freeHead: int, len: int, pos: int, o: Observation)
    requires ArenaInv(ns, order, free, h, start, latest, freeHead, len)
    requires free != [] && 0 <= pos <= |order|
    ensures var k := free[0];
            var p := if pos == 0 then Nil else order[pos - 1];
            var c := if pos == |order| then Nil else order[pos];
            ArenaInv(LinkedAt(ns, k, p, c, o), order[..pos] + [k] + order[pos..], free[1..],
                     h[..pos] + [o] + h[pos..],
                     if p == Nil then k else start, if c == Nil then k else latest,
                     ns[k].nextNode, len + 1)
  {
    var k := free[0];
    var p := if pos == 0 then Nil else order[pos - 1];
    var c := if pos == |order| then Nil else order[pos];
    NoDupParts(order, free);
    assert k in free;
    LinkAtChain(ns, order, free, h, pos, o);
    if 0 < pos < |order| { NoDupIndices(order, pos - 1, pos); }
    LinkAtFree(ns, LinkedAt(ns, k, p, c, o), order, free, k, p, c, o);
    LinkAtSlots(order, free, pos);
    LinkAtHandles(order, k, pos);
    Assemble(LinkedAt(ns, k, p, c, o), order[..pos] + [k] + order[pos..], free[1..],
             h[..pos] + [o] + h[pos..], if p == Nil then k else start, if c == Nil then k else latest,
             ns[k].nextNode, len + 1);
  }

  /** The list part of `LinkAt`: the new list is chained and holds the new history. */
  lemma LinkAtChain(ns: seq<ObjectNode>, order: seq<int>, free: seq<int>, h: seq<Observation>,
                    pos: int, o: Observation)
    requires |ns| == MaxLinkedListLen && InArena(order, |ns|) && InArena(free, |ns|)
    requires NoDup(order) && ChainLinks(ns, order) && Holds(ns, order, h)
    requires free != [] && free[0] !in order && 0 <= pos <= |order|
    ensures var k := free[0];
            var p := if pos == 0 then Nil else order[pos - 1];
            var c := if pos == |order| then Nil else order[pos];
            var ns' := LinkedAt(ns, k, p, c, o);
            var order' := order[..pos] + [k] + order[pos..];
            InArena(order', |ns'|) && ChainLinks(ns', order') && Holds(ns', order', h[..pos] + [o] + h[pos..])
  {
    var k := free[0];
    var p := if pos == 0 then Nil else order[pos - 1];
    var c := if pos == |order| then Nil else order[pos];
    var order' := order[..pos] + [k] + order[pos..];
    var h' := h[..pos] + [o] + h[pos..];
    var ns' := LinkedAt(ns, k, p, c, o);
    if 0 < pos < |order| { NoDupIndices(order, pos - 1, pos); }
    LinkedAtCells(ns, k, p, c, o);
    Splice(order, k, pos);
    Splice(h, o, pos);
    assert InArena(order', |ns'|);
    LinkAtPositions(ns, ns', order, order', h, h', k, p, c, pos, o);
  }

  /** The handles of the list after placing slot `k` at position `pos`. */
  lemma LinkAtHandles(order: seq<int>, k: int, pos: int)
    requires 0 <= pos <= |order|
    ensures var order' := order[..pos] + [k] + order[pos..];
            First(order') == (if pos == 0 then k else First(order)) &&
            Final(order') == (if pos == |order| then k else Final(order))
  {
    Splice(order, k, pos);
  }

  /** Taking the first free slot leaves the rest of the free list chained. */
  lemma LinkAtFree(ns: seq<ObjectNode>, ns': seq<ObjectNode>, order: seq<int>, free: seq<int>,
                   k: int, p: int, c: int, o: Observation)
    requires InArena(free, |ns|) && free != [] && k == free[0]
    requires NoDup(free) && FreeLinks(ns, free)
    requires p != Nil ==> p in order && 0 <= p < |ns| && p != k
    requires c != Nil ==> c in order && 0 <= c < |ns| && c != k && c != p
    requires forall x :: x in free ==> x !in order
    requires ns' == LinkedAt(ns, k, p, c, o)
    ensures |ns'| == |ns| && InArena(free[1..], |ns'|) && FreeLinks(ns', free[1..])
    ensures ns[k].nextNode == First(free[1..])
  {
    LinkedAtCells(ns, k, p, c, o);
    assert FreeAt(ns, free, 0);
    var free' := free[1..];
    forall j | 0 <= j < |free'| ensures FreeAt(ns', free', j) {
      assert FreeAt(ns, free, j + 1);
      assert free[j + 1] in free;
      NoDupIndices(free, 0, j + 1);
    }
  }

  /** Moving the first free slot into the list keeps every slot used exactly once. */
  lemma LinkAtSlots(order: seq<int>, free: seq<int>, pos: int)
    requires free != [] && 0 <= pos <= |order|
    ensures multiset((order[..pos] + [free[0]] + order[pos..]) + free[1..]) == multiset(order + free)
  {
    assert order == order[..pos] + order[pos..];
    assert free == [free[0]] + free[1..];
  }

  /** Where the elements of `s` sit once `x` is placed at position `pos`. */
  lemma Splice<T>(s: seq<T>, x: T, pos: int)
    requires 0 <= pos <= |s|
    ensures var s' := s[..pos] + [x] + s[pos..];
            |s'| == |s| + 1 && s'[pos] == x &&
            (forall i :: 0 <= i < pos ==> s'[i] == s[i]) &&
            (forall i :: pos < i < |s'| ==> s'[i] == s[i - 1])
  {
  }

  /** The position-by-position part of `LinkAt`. */
  lemma LinkAtPositions(ns: seq<ObjectNode>, ns': seq<ObjectNode>, order: seq<int>, order': seq<int>,
                        h: seq<Observation>, h': seq<Observation>,
                        k: int, p: int, c: int, pos: int, o: Observation)
    requires |ns'| == |ns| && InArena(order, |ns|) && InArena(order', |ns|) && NoDup(order)
    requires ChainLinks(ns, order) && Holds(ns, order, h)
    requires 0 <= pos <= |order| && |order'| == |order| + 1 && |h'| == |order'|
    requires 0 <= k < |ns| && k !in order
    requires p == if pos == 0 then Nil else order[pos - 1]
    requires c == if pos == |order| then Nil else order[pos]
    requires forall i :: 0 <= i < pos ==> order'[i] == order[i] && h'[i] == h[i]
    requires order'[pos] == k && h'[pos] == o
    requires forall i :: pos < i < |order'| ==> order'[i] == order[i - 1] && h'[i] == h[i - 1]
    requires ns'[k] == ObjectNode(o.state, p, c, o.beenPublished)
    requires c != Nil ==> ns'[c] == ns[c].(previousNode := k)
    requires p != Nil ==> ns'[p] == ns[p].(nextNode := k)
    requires forall x :: 0 <= x < |ns| && x != k && x != p && x != c ==> ns'[x] == ns[x]
    ensures ChainLinks(ns', order') && Holds(ns', order', h')
  {
    forall i | 0 <= i < |order'| ensures ChainAt(ns', order', i) && HoldsAt(ns', order', i, h'[i]) {
      if i < pos - 1 {
        assert ChainAt(ns, order, i) && HoldsAt(ns, order, i, h[i]);
        NoDupIndices(order, i, pos - 1);
        if pos < |order| { NoDupIndices(order, i, pos); }
      } else if i == pos - 1 {
        assert ChainAt(ns, order, i) && HoldsAt(ns, order, i, h[i]);
      } else if i == pos {
      } else if i == pos + 1 {
        assert ChainAt(ns, order, pos) && HoldsAt(ns, order, pos, h[pos]);
      } else {
        assert ChainAt(ns, order, i - 1) && HoldsAt(ns, order, i - 1, h[i - 1]);
        NoDupIndices(order, pos, i - 1);
        if pos > 0 { NoDupIndices(order, pos - 1, i - 1); }
      }
    }
  }

  /** The arena after unlinking the first slot `s` and pushing it on the free list. */
  function UnlinkedFirst(ns: seq<ObjectNode>, s: int, freeHead: int): seq<ObjectNode>
    requires 0 <= s < |ns|
    requires ns[s].nextNode != Nil ==> 0 <= ns[s].nextNode < |ns|
  {
    var nx := ns[s].nextNode;
    var ns1 := if nx == Nil then ns else ns[nx := ns[nx].(previousNode := Nil)];
    ns1[s := ns1[s].(previousNode := Nil, nextNode := freeHead)]
  }

  /** Unlinking the oldest node drops it from the history and frees its slot. */
  lemma UnlinkFirst(ns: seq<ObjectNode>, order: seq<int>, free: seq<int>, h: seq<Observation>,
                    start: int, latest: int, freeHead: int, len: int)
    requires ArenaInv(ns, order, free, h, start, latest, freeHead, len)
    requires order != []
    ensures 0 <= start < |ns| && (ns[start].nextNode != Nil ==> 0 <= ns[start].nextNode < |ns|)
    ensures ns[start].nextNode == First(order[1..])
    ensures ArenaInv(UnlinkedFirst(ns, start, freeHead), order[1..], [start] + free, h[1..],
                     First(order[1..]), Final(order[1..]), start, len - 1)
  {
    var s := order[0];
    assert ChainAt(ns, order, 0);
    NoDupParts(order, free);
    if |order| > 1 { NoDupIndices(order, 0, 1); }
    assert ns[s].nextNode == First(order[1..]);
    UnlinkChain(ns, order, h, freeHead);
    UnlinkFree(ns, order, free, freeHead);
    assert order == [s] + order[1..];
    assert multiset(order[1..] + ([s] + free)) == multiset(order + free);
    Assemble(UnlinkedFirst(ns, start, freeHead), order[1..], [start] + free, h[1..],
             First(order[1..]), Final(order[1..]), start, len - 1);
  }

  /** What `UnlinkedFirst` leaves in each cell. */
  lemma UnlinkedFirstCells(ns: seq<ObjectNode>, s: int, freeHead: int)
    requires 0 <= s < |ns|
    requires ns[s].nextNode != Nil ==> 0 <= ns[s].nextNode < |ns| && ns[s].nextNode != s
    ensures var ns' := UnlinkedFirst(ns, s, freeHead);
            var nx := ns[s].nextNode;
            |ns'| == |ns| &&
            ns'[s] == ns[s].(previousNode := Nil, nextNode := freeHead) &&
            (nx != Nil ==> ns'[nx] == ns[nx].(previousNode := Nil)) &&
            forall x :: 0 <= x < |ns| && x != s && x != nx ==> ns'[x] == ns[x]
  {
  }

  /** The list part of `UnlinkFirst`. */
  lemma UnlinkChain(ns: seq<ObjectNode>, order: seq<int>, h: seq<Observation>, freeHead: int)
    requires InArena(order, |ns|) && NoDup(order) && ChainLinks(ns, order) && Holds(ns, order, h)
    requires order != [] && ns[order[0]].nextNode == First(order[1..])
    ensures var ns' := UnlinkedFirst(ns, order[0], freeHead);
            InArena(order[1..], |ns'|) && ChainLinks(ns', order[1..]) && Holds(ns', order[1..], h[1..])
  {
    var s := order[0];
    var order' := order[1..];
    assert ChainAt(ns, order, 0);
    if |order| > 1 { NoDupIndices(order, 0, 1); }
    UnlinkedFirstCells(ns, s, freeHead);
    var ns' := UnlinkedFirst(ns, s, freeHead);
    assert InArena(order', |ns'|);
    forall i | 0 <= i < |order'|
      ensures ChainAt(ns', order', i) && HoldsAt(ns', order', i, h[1..][i])
    {
      assert order'[i] == order[i + 1];
      assert ChainAt(ns, order, i + 1) && HoldsAt(ns, order, i + 1, h[i + 1]);
      NoDupIndices(order, 0, i + 1);
      if i > 0 { NoDupIndices(order, 1, i + 1); }
    }
  }

  /** The free list part of `UnlinkFirst`: the freed slot heads the free list. */
  lemma UnlinkFree(ns: seq<ObjectNode>, order: seq<int>, free: seq<int>, freeHead: int)
    requires InArena(order, |ns|) && InArena(free, |ns|) && NoDup(order) && ChainLinks(ns, order)
    requires FreeLinks(ns, free) && freeHead == First(free)
    requires order != [] && ns[order[0]].nextNode == First(order[1..])
    requires forall x :: x in free ==> x !in order
    ensures var ns' := UnlinkedFirst(ns, order[0], freeHead);
            InArena([order[0]] + free, |ns'|) && FreeLinks(ns', [order[0]] + free)
  {
    var s := order[0];
    var free' := [s] + free;
    assert ChainAt(ns, order, 0);
    var nx := ns[s].nextNode;
    if |order| > 1 { NoDupIndices(order, 0, 1); assert nx == order[1] && nx in order; }
    UnlinkedFirstCells(ns, s, freeHead);
    var ns' := UnlinkedFirst(ns, s, freeHead);
    assert InArena(free', |ns'|);
    forall j | 0 <= j < |free'| ensures FreeAt(ns', free', j) {
      if j > 0 {
        assert free'[j] == free[j - 1];
        assert FreeAt(ns, free, j - 1);
        assert free[j - 1] in free;
      }
    }
  }

  /** Marking the newest node as published is `MarkLatest` on the history. */
  lemma MarkFinal(ns: seq<ObjectNode>, order: seq<int>, free: seq<int>, h: seq<Observation>,
                  start: int, latest: int, freeHead: int, len: int)
    requires ArenaInv(ns, order, free, h, start, latest, freeHead, len)
    requires order != []
    ensures 0 <= latest < |ns|
    ensures ArenaInv(ns[latest := ns[latest].(beenPublished := true)], order, free, MarkLatest(h),
                     start, latest, freeHead, len)
  {
    var ns' := ns[latest := ns[latest].(beenPublished := true)];
    var h' := MarkLatest(h);
    NoDupParts(order, free);
    forall i | 0 <= i < |order| ensures ChainAt(ns', order, i) && HoldsAt(ns', order, i, h'[i]) {
      assert ChainAt(ns, order, i) && HoldsAt(ns, order, i, h[i]);
      if i < |order| - 1 { NoDupIndices(order, i, |order| - 1); }
    }
    forall j | 0 <= j < |free| ensures FreeAt(ns', free, j) {
      assert FreeAt(ns, free, j);
      assert free[j] in free;
    }
  }
}
