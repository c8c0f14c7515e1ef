/** The file cache: a doubly linked list, a map and a byte counter (falconlink/net/cache.cpp). */
module Caches {
  import opened Lru

  class CacheNode {
    var identifier: string
    var data: string
    var lastAccess: nat
    var prev: CacheNode?
    var next: CacheNode?

    constructor (id: string, bytes: string, now: nat)
      ensures identifier == id && data == bytes && lastAccess == now && prev == null && next == null
    {
      identifier, data, lastAccess, prev, next := id, bytes, now, null, null;
    }
  }

  /** `next` walks `c` from its first node to its last, `prev` walks it back, and no node is met twice. */
  ghost predicate Linked(c: seq<CacheNode>)
    reads c`next, c`prev
  {
    && (forall i, j :: 0 <= i < j < |c| ==> c[i] != c[j])
    && (forall i {:trigger c[i].next} :: 0 <= i < |c| - 1 ==> c[i].next == c[i + 1])
    && (forall i {:trigger c[i].prev} :: 0 < i < |c| ==> c[i].prev == c[i - 1])
  }

  /** Node by node, the list between the sentinels holds these entries. */
  ghost predicate Holds(c: seq<CacheNode>, es: seq<Entry>)
    reads c`identifier, c`data, c`lastAccess
  {
    |c| == |es| + 2 &&
    forall i {:trigger es[i]} :: 0 <= i < |es| ==>
      c[i + 1].identifier == es[i].id && c[i + 1].data == es[i].data && c[i + 1].lastAccess == es[i].stamp
  }

  /** The map holds exactly the nodes of the list, each under its own identifier. */
  ghost predicate Indexed(c: seq<CacheNode>, es: seq<Entry>, m: map<string, CacheNode>)
  {
    && |c| == |es| + 2
    && (forall i {:trigger es[i]} :: 0 <= i < |es| ==> es[i].id in m && m[es[i].id] == c[i + 1])
    && (forall k :: k in m ==> Has(es, k))
  }

  class Cache {
    var mapping: map<string, CacheNode>
    const capacity: nat
    var occupancy: nat
    const header: CacheNode
    const tailer: CacheNode
    /** The list as walked from the header to the tailer. */
    ghost var chain: seq<CacheNode>
    /** What it stands for, least recently used first. */
    ghost var entries: seq<Entry>

    ghost predicate ListOk()
      reads this`chain, chain`next, chain`prev
    {
      |chain| >= 2 && chain[0] == header && chain[|chain| - 1] == tailer && Linked(chain)
    }

    ghost predicate Valid()
      reads this, chain
    {
      && ListOk()
      && Holds(chain, entries)
      && Indexed(chain, entries, mapping)
      && Distinct(entries)
      && occupancy == Total(entries)
      && occupancy <= capacity
    }

    /** What the eviction finds at the front. */
    lemma FrontNode()
      requires Valid() && entries != []
      ensures header.next == chain[1]
      ensures |chain| > 2 && chain[1].identifier == entries[0].id && chain[1].data == entries[0].data
      ensures entries[0].id in mapping && mapping[entries[0].id] == chain[1]
    {
      assert chain[0].next == chain[0 + 1];
    }

    /** The map finds the node of the entry with that identifier, and only then. */
    lemma Found(url: string)
      requires Valid()
      ensures url in mapping <==> Has(entries, url)
      ensures |chain| == |entries| + 2
      ensures url in mapping ==>
                var k := IndexOf(entries, url); mapping[url] == chain[k + 1] && chain[k + 1].data == entries[k].data
    {
    }

    lemma Assembled()
      requires ListOk() && Holds(chain, entries) && Indexed(chain, entries, mapping) && Distinct(entries)
      requires occupancy == Total(entries) && occupancy <= capacity
      ensures Valid()
    {
    }

    constructor (cap: nat)
      ensures Valid() && entries == [] && capacity == cap && fresh(chain)
    {
      capacity, occupancy, mapping, entries := cap, 0, map[], [];
      var h := new CacheNode("", "", 0);
      var t := new CacheNode("", "", 0);
      header, tailer := h, t;
      h.next := t;
      t.prev := h;
      chain := [h, t];
    }

    method RemoveFromList(node: CacheNode, ghost p: nat)
      requires ListOk() && 0 < p < |chain| - 1 && chain[p] == node
      modifies this`chain, chain`next, chain`prev
      ensures ListOk() && chain == old(chain[..p] + chain[p + 1..])
      ensures forall i :: 0 <= i < |chain| ==> chain[i] in old(chain)
    {
      var nodePrev := node.prev;
      var nodeNext := node.next;
      nodePrev.next := nodeNext;
      nodeNext.prev := nodePrev;
      ghost var c := chain;
      chain := chain[..p] + chain[p + 1..];
      assert forall i :: 0 <= i < |chain| ==> chain[i] == if i < p then c[i] else c[i + 1];
    }

    method AppendToTail(node: CacheNode)
      requires ListOk() && node !in chain
      modifies this`chain, chain`next, chain`prev, node`prev, node`next
      ensures ListOk() && chain == old(chain[..|chain| - 1]) + [node, tailer]
      ensures forall i :: 0 <= i < |chain| ==> chain[i] == node || chain[i] in old(chain)
    {
      var nodePrev := tailer.prev;
      nodePrev.next := node;
      tailer.prev := node;
      node.prev := nodePrev;
      node.next := tailer;
      ghost var c := chain;
      chain := chain[..|chain| - 1] + [node, tailer];
      assert forall i :: 0 <= i < |c| - 1 ==> chain[i] == c[i];
    }

    /** The node of entry `k` goes to the back of the list. */
    method MoveToTail(node: CacheNode, ghost k: nat)
      requires ListOk() && k < |chain| - 2 && chain[k + 1] == node
      modifies this`chain, chain`next, chain`prev
      ensures ListOk() && chain == Moved(old(chain), k)
      ensures forall i :: 0 <= i < |chain| ==> chain[i] in old(chain)
    {
      NotAmongOthers(chain, k + 1);
      MovedInSteps(chain, k);
      hide Linked;
      hide Moved;
      RemoveFromList(node, k + 1);
      AppendToTail(node);
      MovedSameNodes(old(chain), k);
    }

    method Touch(node: CacheNode, ghost k: nat, now: nat)
      requires ListOk() && Holds(chain, entries) && k < |entries| && chain[k + 1] == node
      modifies this`chain, this`entries, chain`next, chain`prev, node`lastAccess
      ensures ListOk() && Holds(chain, entries)
      ensures chain == Moved(old(chain), k) && entries == Touched(old(entries), k, now)
      ensures forall i :: 0 <= i < |chain| ==> chain[i] in old(chain)
    {
      MoveToTail(node, k);
      node.lastAccess := now;
      Restamped(old(chain), entries, k, now);
      entries := Touched(entries, k, now);
    }

    method TryLoad(url: string, destination: string, now: nat) returns (hit: bool, loaded: string)
      requires Valid()
      modifies this, chain
      ensures Valid()
      ensures forall i :: 0 <= i < |chain| ==> chain[i] in old(chain)
      ensures hit == Has(old(entries), url)
      ensures entries == Apply(old(entries), capacity, Load(url, now))
      ensures loaded == if hit then destination + old(entries)[IndexOf(old(entries), url)].data else destination
    {
      Found(url);
      hide ListOk;
      hide Holds;
      hide Indexed;
      hide Distinct;
      hide IndexOf;
      hide Touched;
      hide Total;
      hit, loaded := url in mapping, destination;
      if hit {
        var node := mapping[url];
        ghost var k := IndexOf(entries, url);
        loaded := destination + node.data;
        TouchedKeeps(entries, k, now);
        TouchedDistinct(entries, k, now);
        MovedIndexed(chain, entries, mapping, k, now);
        Touch(node, k, now);
        Assembled();
      }
    }

    method UnlinkFront(node: CacheNode)
      requires ListOk() && Holds(chain, entries) && entries != [] && node == chain[1]
      modifies this`chain, this`entries, chain`next, chain`prev
      ensures ListOk() && Holds(chain, entries)
      ensures chain == old(chain[..1] + chain[2..]) && entries == old(entries)[1..]
      ensures forall i :: 0 <= i < |chain| ==> chain[i] in old(chain)
    {
      FrontHeld(chain, entries);
      RemoveFromList(node, 1);
      entries := entries[1..];
    }

    method EvictOne()
      requires Valid() && entries != []
      modifies this, chain`next, chain`prev
      ensures Valid() && entries == old(entries)[1..]
      ensures forall i :: 0 <= i < |chain| ==> chain[i] in old(chain)
    {
      FrontNode();
      hide ListOk;
      hide Holds;
      hide Indexed;
      hide Distinct;
      var first := header.next;
      var size := |first.data|;
      FrontDropped(chain, entries, mapping);
      UnlinkFront(mapping[first.identifier]);
      mapping := mapping - {first.identifier};
      occupancy := occupancy - size;
      Assembled();
    }

    method TryInsert(url: string, source: string, now: nat) returns (inserted: bool)
      requires Valid()
      modifies this, chain
      ensures Valid()
      ensures forall i :: 0 <= i < |chain| ==> chain[i] in old(chain) || fresh(chain[i])
      ensures inserted <==> |source| <= capacity && forall e :: e in old(entries) ==> e.id != url
      ensures inserted ==> entries != [] && entries[|entries| - 1] == Entry(url, source, now)
      ensures !inserted ==> entries == old(entries)
      ensures entries == Apply(old(entries), capacity, Insert(url, source, now))
    {
      if url in mapping {
        return false;
      }
      if |source| > capacity {
        return false;
      }
      MakeRoom(url, |source|);
      AddNode(url, source, now);
      return true;
    }

    /** The eviction loop. */
    method MakeRoom(url: string, size: nat)
      requires Valid() && !Has(entries, url) && size <= capacity
      modifies this, chain`next, chain`prev
      ensures Valid() && !Has(entries, url)
      ensures entries == Evicted(old(entries), capacity, size) && occupancy + size <= capacity
      ensures forall i :: 0 <= i < |chain| ==> chain[i] in old(chain)
    {
      while mapping != map[] && capacity - occupancy < size
        invariant Valid() && !Has(entries, url)
        invariant Evicted(entries, capacity, size) == Evicted(old(entries), capacity, size)
        invariant forall i :: 0 <= i < |chain| ==> chain[i] in old(chain)
        decreases |entries|
      {
        EmptyTogether(chain, entries, mapping);
        HasTail(entries, url);
        EvictOne();
      }
      EmptyTogether(chain, entries, mapping);
    }

    method LinkBack(node: CacheNode)
      requires ListOk() && Holds(chain, entries) && node !in chain
      modifies this`chain, this`entries, chain`next, chain`prev, node`prev, node`next
      ensures ListOk() && Holds(chain, entries)
      ensures chain == old(chain[..|chain| - 1]) + [node, tailer]
      ensures entries == old(entries) + [Entry(node.identifier, node.data, node.lastAccess)]
      ensures forall i :: 0 <= i < |chain| ==> chain[i] == node || chain[i] in old(chain)
    {
      ghost var e := Entry(node.identifier, node.data, node.lastAccess);
      BackHeld(chain, entries, node, e);
      AppendToTail(node);
      entries := entries + [e];
    }

    method AddNode(url: string, source: string, now: nat)
      requires Valid() && !Has(entries, url) && occupancy + |source| <= capacity
      modifies this, chain`next, chain`prev
      ensures Valid() && entries == old(entries) + [Entry(url, source, now)]
      ensures forall i :: 0 <= i < |chain| ==> chain[i] in old(chain) || fresh(chain[i])
    {
      hide Linked;
      hide Holds;
      hide Indexed;
      hide Distinct;
      var node := new CacheNode(url, source, now);
      BackAdded(chain, entries, mapping, node, Entry(url, source, now));
      TotalConcat(entries, [Entry(url, source, now)]);
      LinkBack(node);
      occupancy := occupancy + |source|;
      mapping := mapping[url := node];
      Assembled();
    }

    method ClearAll()
      requires Valid()
      modifies this, header`next, tailer`prev
      ensures Valid() && entries == [] == Apply(old(entries), capacity, Clear)
      ensures forall i :: 0 <= i < |chain| ==> chain[i] in old(chain)
    {
      header.next := tailer;
      tailer.prev := header;
      mapping := map[];
      occupancy := 0;
      chain, entries := [header, tailer], [];
    }

    /** Any run of calls, one at a time. */
    method RunCalls(calls: seq<Call>)
      requires Valid() && entries == []
      modifies this, chain
      ensures Valid() && entries == Run(capacity, calls)
    {
      for i := 0 to |calls|
        invariant Valid() && entries == Run(capacity, calls[..i])
        invariant forall i :: 0 <= i < |chain| ==> chain[i] in old(chain) || fresh(chain[i])
      {
        assert calls[..i + 1][..i] == calls[..i];
        match calls[i] {
          case Load(id, now) =>
            var hit, bytes := TryLoad(id, "", now);
          case Insert(id, data, now) =>
            var ok := TryInsert(id, data, now);
          case Clear =>
            ClearAll();
        }
      }
      assert calls[..|calls|] == calls;
    }
  }

  lemma EmptyTogether(c: seq<CacheNode>, es: seq<Entry>, m: map<string, CacheNode>)
    requires Indexed(c, es, m)
    ensures m == map[] <==> es == []
  {
    if es != [] {
      assert es[0].id in m;
    }
    if m != map[] {
      var k :| k in m;
      assert Has(es, k);
    }
  }

  lemma HasTail(es: seq<Entry>, id: string)
    requires es != []
    ensures Has(es, id) <==> es[0].id == id || Has(es[1..], id)
  {
    if Has(es, id) {
      var i := IndexOf(es, id);
      if i > 0 {
        assert es[1..][i - 1].id == id;
      }
    }
    if Has(es[1..], id) {
      assert es[IndexOf(es[1..], id) + 1].id == id;
    }
  }

  lemma FrontDropped(c: seq<CacheNode>, es: seq<Entry>, m: map<string, CacheNode>)
    requires Indexed(c, es, m) && Distinct(es) && es != []
    ensures Indexed(c[..1] + c[2..], es[1..], m - {es[0].id}) && Distinct(es[1..])
  {
    forall k | k in m - {es[0].id}
      ensures Has(es[1..], k)
    {
      HasTail(es, k);
    }
    forall i | 0 <= i < |es| - 1
      ensures es[1..][i].id in m - {es[0].id} && m[es[1..][i].id] == (c[..1] + c[2..])[i + 1]
    {
      assert es[1..][i] == es[i + 1];
    }
  }

  lemma FrontHeld(c: seq<CacheNode>, es: seq<Entry>)
    requires Holds(c, es) && es != []
    ensures Holds(c[..1] + c[2..], es[1..])
  {
    forall i | 0 <= i < |es| - 1
      ensures es[1..][i] == es[i + 1] && (c[..1] + c[2..])[i + 1] == c[i + 2]
    {
    }
  }

  lemma BackAdded(c: seq<CacheNode>, es: seq<Entry>, m: map<string, CacheNode>, node: CacheNode, e: Entry)
    requires Indexed(c, es, m) && Distinct(es) && !Has(es, e.id)
    ensures Indexed(c[..|c| - 1] + [node, c[|c| - 1]], es + [e], m[e.id := node]) && Distinct(es + [e])
  {
    var es', m' := es + [e], m[e.id := node];
    forall k | k in m'
      ensures Has(es', k)
    {
      if k == e.id {
        assert es'[|es|].id == k;
      } else {
        assert es'[IndexOf(es, k)].id == k;
      }
    }
    assert forall i :: 0 <= i < |es| ==> es[i].id != e.id;
  }

  lemma BackHeld(c: seq<CacheNode>, es: seq<Entry>, node: CacheNode, e: Entry)
    requires Holds(c, es) && node.identifier == e.id && node.data == e.data && node.lastAccess == e.stamp
    ensures Holds(c[..|c| - 1] + [node, c[|c| - 1]], es + [e])
  {
    var c', es' := c[..|c| - 1] + [node, c[|c| - 1]], es + [e];
    forall i | 0 <= i < |es|
      ensures c'[i + 1] == c[i + 1] && es'[i] == es[i]
    {
    }
  }

  /** A chain with the node of entry `k` moved just before the last sentinel. */
  ghost function Moved(c: seq<CacheNode>, k: nat): seq<CacheNode>
    requires k < |c| - 2
  {
    c[..k + 1] + c[k + 2..|c| - 1] + [c[k + 1], c[|c| - 1]]
  }

  /** Nodes and entries move alike. */
  lemma MovedPlaces(c: seq<CacheNode>, es: seq<Entry>, k: nat, now: nat)
    requires |c| == |es| + 2 && k < |es|
    ensures |Moved(c, k)| == |c| && |Touched(es, k, now)| == |es|
    ensures forall i :: 0 <= i < |es| ==>
              var q := if i == |es| - 1 then k else if i < k then i else i + 1;
              Moved(c, k)[i + 1] == c[q + 1] &&
              Touched(es, k, now)[i] == if i == |es| - 1 then es[k].(stamp := now) else es[q]
  {
  }

  lemma NotAmongOthers(c: seq<CacheNode>, p: nat)
    requires Linked(c) && p < |c|
    ensures c[p] !in c[..p] + c[p + 1..]
  {
  }

  lemma MovedInSteps(c: seq<CacheNode>, k: nat)
    requires k < |c| - 2
    ensures var d := c[..k + 1] + c[k + 2..]; Moved(c, k) == d[..|d| - 1] + [c[k + 1], c[|c| - 1]]
  {
  }

  lemma MovedSameNodes(c: seq<CacheNode>, k: nat)
    requires k < |c| - 2
    ensures forall i :: 0 <= i < |c| ==> Moved(c, k)[i] in c
  {
  }

  lemma Restamped(c: seq<CacheNode>, es: seq<Entry>, k: nat, now: nat)
    requires k < |es| && Holds(c, es[k := es[k].(stamp := now)])
    ensures Holds(Moved(c, k), Touched(es, k, now))
  {
    MovedPlaces(c, es, k, now);
    var c', es', stamped := Moved(c, k), Touched(es, k, now), es[k := es[k].(stamp := now)];
    forall i | 0 <= i < |es|
      ensures c'[i + 1].identifier == es'[i].id && c'[i + 1].data == es'[i].data && c'[i + 1].lastAccess == es'[i].stamp
    {
      var q := if i == |es| - 1 then k else if i < k then i else i + 1;
      assert c'[i + 1] == c[q + 1] && es'[i] == stamped[q];
    }
  }

  lemma TouchedDistinct(es: seq<Entry>, k: nat, now: nat)
    requires Distinct(es) && k < |es|
    ensures Distinct(Touched(es, k, now))
    ensures forall id :: Has(Touched(es, k, now), id) <==> Has(es, id)
  {
    var es' := Touched(es, k, now);
    forall id
      ensures Has(es', id) <==> Has(es, id)
    {
      if Has(es, id) {
        var i := IndexOf(es, id);
        assert es'[if i < k then i else if i == k then |es| - 1 else i - 1].id == id;
      }
      if Has(es', id) {
        var i := IndexOf(es', id);
        assert es[if i == |es| - 1 then k else if i < k then i else i + 1].id == id;
      }
    }
  }

  lemma MovedIndexed(c: seq<CacheNode>, es: seq<Entry>, m: map<string, CacheNode>, k: nat, now: nat)
    requires Indexed(c, es, m) && Distinct(es) && k < |es|
    ensures Indexed(Moved(c, k), Touched(es, k, now), m)
  {
    MovedPlaces(c, es, k, now);
    TouchedDistinct(es, k, now);
  }
}
