/**
 The metadata cache's storage: a slab of nodes holding an intrusive doubly
 linked list in least-recently-used order, a free list, a key index and a
 running weight.
 */
module CacheState {
  import opened Prelude
  import opened LruSequence

  const USIZE_MAX: nat := 0xFFFF_FFFF_FFFF_FFFF

  function SaturatingAdd(a: nat, b: nat): nat {
    if a + b > USIZE_MAX then USIZE_MAX else a + b
  }

  function SaturatingSub(a: nat, b: nat): nat {
    if b > a then 0 else a - b
  }

  /**
   The eviction test adds with saturation.  It decides what the exact sum would
   decide, for every total and weight within the capacity, exactly when the
   capacity is below the largest machine word.
   */
  lemma EvictionTestExactBelowMax(capacity: nat)
    requires capacity <= USIZE_MAX
    ensures capacity < USIZE_MAX <==>
      forall total: nat, weight: nat :: total <= capacity && weight <= capacity ==>
        (SaturatingAdd(total, weight) > capacity <==> total + weight > capacity)
  {
    if capacity == USIZE_MAX {
      assert SaturatingAdd(capacity, 1) == USIZE_MAX;
    }
  }

  datatype Node<K, R> = Node(
    key: K, response: R, expiresAt: int, weight: nat, previous: Option<nat>, next: Option<nat>)

  type Slab<K, R> = seq<Option<Node<K, R>>>

  /** What a request waiting on a fill observes. */
  datatype InflightState<R> = Pending | Finished(response: Option<R>)

  /** One fill in progress; requests for the same key share it by reference. */
  class Inflight<R> {
    /** Tells flights apart, as the address of a shared flight does. */
    ghost const id: nat
    var state: InflightState<R>

    constructor (ghost id: nat)
      ensures this.id == id && state == Pending
    {
      this.id := id;
      state := Pending;
    }

    method Finish(response: Option<R>)
      modifies this
      ensures state == Finished(response)
    {
      state := Finished(response);
    }
  }

  /** The slot before position k of a list, as its backward link stores it. */
  function Before(order: seq<nat>, k: nat): Option<nat>
    requires k <= |order|
  {
    if k == 0 then None else Some(order[k - 1])
  }

  /** The slot at position k of a list, or none past its end. */
  function At(order: seq<nat>, k: nat): Option<nat>
  {
    if k < |order| then Some(order[k]) else None
  }

  function EntryOf<K, R>(n: Node<K, R>): Entry<K, R> {
    Entry(n.key, n.response, n.expiresAt, n.weight)
  }

  /** The node at position k is live, holds entry k, and its links name its neighbours. */
  ghost predicate Joined<K, R>(nodes: Slab<K, R>, order: seq<nat>, contents: seq<Entry<K, R>>, k: nat)
    requires k < |order| == |contents|
  {
    && order[k] < |nodes|
    && nodes[order[k]].Some?
    && nodes[order[k]].value.previous == Before(order, k)
    && nodes[order[k]].value.next == At(order, k + 1)
    && EntryOf(nodes[order[k]].value) == contents[k]
  }

  /** The slab's live nodes are exactly those of `order`, linked in that order. */
  ghost predicate Linked<K, R>(nodes: Slab<K, R>, order: seq<nat>, contents: seq<Entry<K, R>>) {
    && |order| == |contents|
    && Injective(order)
    && (forall i: nat :: i in order <==> i < |nodes| && nodes[i].Some?)
    && (forall k {:trigger Joined(nodes, order, contents, k)} :: 0 <= k < |order| ==>
          Joined(nodes, order, contents, k))
  }

  /** The free list names every dead slot, once. */
  ghost predicate FreeListed<K, R>(nodes: Slab<K, R>, free: seq<nat>) {
    && Injective(free)
    && (forall i: nat :: i in free <==> i < |nodes| && nodes[i].None?)
  }

  /** The index sends this key, if it has it at all, to the live node that holds it. */
  ghost predicate Finds<K, R>(nodes: Slab<K, R>, entries: map<K, nat>, key: K) {
    key in entries ==>
      entries[key] < |nodes| && nodes[entries[key]].Some? && nodes[entries[key]].value.key == key
  }

  /** The index finds the node in this slot, if it is live, by its key. */
  ghost predicate Found<K, R>(nodes: Slab<K, R>, entries: map<K, nat>, i: nat) {
    i < |nodes| && nodes[i].Some? ==>
      nodes[i].value.key in entries && entries[nodes[i].value.key] == i
  }

  /** The key index maps each live key to its slot and nothing else. */
  ghost predicate Indexed<K(!new), R>(nodes: Slab<K, R>, entries: map<K, nat>) {
    && (forall key {:trigger Finds(nodes, entries, key)} :: Finds(nodes, entries, key))
    && (forall i {:trigger Found(nodes, entries, i)} :: Found(nodes, entries, i))
  }

  /** Everything a slab and its satellites must agree on. */
  ghost predicate Consistent<K(!new), R>(
    nodes: Slab<K, R>, order: seq<nat>, contents: seq<Entry<K, R>>, free: seq<nat>, entries: map<K, nat>)
  {
    Linked(nodes, order, contents) && FreeListed(nodes, free) && Indexed(nodes, entries)
  }

  /** Follow forward links for a number of steps from an optional slot. */
  ghost function Forward<K, R>(nodes: Slab<K, R>, start: Option<nat>, steps: nat): Option<nat> {
    if steps == 0 then start
    else
      var at := Forward(nodes, start, steps - 1);
      if at.Some? && at.value < |nodes| && nodes[at.value].Some? then nodes[at.value].value.next else None
  }

  /** Follow backward links for a number of steps from an optional slot. */
  ghost function Backward<K, R>(nodes: Slab<K, R>, start: Option<nat>, steps: nat): Option<nat> {
    if steps == 0 then start
    else
      var at := Backward(nodes, start, steps - 1);
      if at.Some? && at.value < |nodes| && nodes[at.value].Some? then nodes[at.value].value.previous else None
  }

  /**
   Walking the forward links from the head and the backward links from the tail
   visits the same slots in opposite orders, then stops.
   */
  lemma {:induction false} LinksSpellOneSequence<K, R>(
    nodes: Slab<K, R>, order: seq<nat>, contents: seq<Entry<K, R>>, steps: nat)
    requires Linked(nodes, order, contents) && steps <= |order|
    ensures Forward(nodes, At(order, 0), steps) == At(order, steps)
    ensures Backward(nodes, Before(order, |order|), steps) == Before(order, |order| - steps)
  {
    if steps > 0 {
      LinksSpellOneSequence(nodes, order, contents, steps - 1);
      assert Joined(nodes, order, contents, steps - 1) && Joined(nodes, order, contents, |order| - steps);
    }
  }

  ghost function Elements(s: seq<nat>): (e: set<nat>)
    ensures forall i :: i in e <==> i in s
    ensures Injective(s) ==> |e| == |s|
  {
    if s == [] then {} else Elements(s[1..]) + {s[0]}
  }

  ghost function Slots(n: nat): (s: set<nat>)
    ensures |s| == n
    ensures forall i: nat :: i in s <==> i < n
  {
    if n == 0 then {} else Slots(n - 1) + {n - 1}
  }

  /** Every slot is live or free, never both. */
  lemma SlabPartition<K, R>(nodes: Slab<K, R>, order: seq<nat>, contents: seq<Entry<K, R>>, free: seq<nat>)
    requires Linked(nodes, order, contents) && FreeListed(nodes, free)
    ensures |nodes| == |order| + |free|
  {
    assert Elements(order) !! Elements(free);
    assert Elements(order) + Elements(free) == Slots(|nodes|);
  }

  lemma LiveNodes<K, R>(nodes: Slab<K, R>, order: seq<nat>, contents: seq<Entry<K, R>>)
    requires Linked(nodes, order, contents)
    ensures forall j :: 0 <= j < |order| ==> order[j] < |nodes| && nodes[order[j]].Some?
  {
    assert forall j :: 0 <= j < |order| ==> order[j] in order;
  }

  lemma RemoveAtInjective<T>(s: seq<T>, k: nat)
    requires Injective(s) && k < |s|
    ensures Injective(RemoveAt(s, k))
    ensures forall x :: x in RemoveAt(s, k) <==> x in s && x != s[k]
  {
    var r := RemoveAt(s, k);
    forall j | 0 <= j < |s| && j != k
      ensures s[j] in r
    {
      assert r[if j < k then j else j - 1] == s[j];
    }
  }

  lemma AppendInjective<T>(s: seq<T>, x: T)
    requires Injective(s) && x !in s
    ensures Injective(s + [x])
    ensures forall y :: y in s + [x] <==> y in s || y == x
  {
  }

  function WithNext<K, R>(nodes: Slab<K, R>, at: Option<nat>, next: Option<nat>): (r: Slab<K, R>)
    requires at.Some? ==> at.value < |nodes| && nodes[at.value].Some?
    ensures |r| == |nodes|
  {
    if at.None? then nodes else nodes[at.value := Some(nodes[at.value].value.(next := next))]
  }

  function WithPrevious<K, R>(nodes: Slab<K, R>, at: Option<nat>, previous: Option<nat>): (r: Slab<K, R>)
    requires at.Some? ==> at.value < |nodes| && nodes[at.value].Some?
    ensures |r| == |nodes|
  {
    if at.None? then nodes else nodes[at.value := Some(nodes[at.value].value.(previous := previous))]
  }

  /** The slab after the node at position k is taken out and its neighbours joined. */
  ghost function Unlinked<K, R>(nodes: Slab<K, R>, order: seq<nat>, contents: seq<Entry<K, R>>, k: nat): (r: Slab<K, R>)
    requires Linked(nodes, order, contents) && k < |order|
    ensures order[k] < |nodes| == |r| && r[order[k]].None?
    ensures forall j :: 0 <= j < |nodes| && j != order[k] ==>
      r[j] == if nodes[j].None? then None else
        Some(nodes[j].value.(
          next := if Before(order, k) == Some(j) then At(order, k + 1) else nodes[j].value.next,
          previous := if At(order, k + 1) == Some(j) then Before(order, k) else nodes[j].value.previous))
  {
    LiveNodes(nodes, order, contents);
    WithPrevious(WithNext(nodes[order[k] := None], Before(order, k), At(order, k + 1)),
                 At(order, k + 1), Before(order, k))
  }

  lemma UnlinkedNode<K, R>(nodes: Slab<K, R>, order: seq<nat>, contents: seq<Entry<K, R>>, k: nat, o: nat)
    requires Linked(nodes, order, contents) && k < |order| && o < |order| && o != k
    ensures Joined(nodes, order, contents, o)
    ensures Unlinked(nodes, order, contents, k)[order[o]] ==
      Some(nodes[order[o]].value.(
        next := if o + 1 == k then At(order, k + 1) else At(order, o + 1),
        previous := if o == k + 1 then Before(order, k) else Before(order, o)))
  {
    assert Joined(nodes, order, contents, o) && Joined(nodes, order, contents, k);
    assert order[o] in order && order[o] != order[k];
    assert k > 0 && order[k - 1] == order[o] ==> o == k - 1;
    assert k + 1 < |order| && order[k + 1] == order[o] ==> o == k + 1;
  }

  lemma RemovedNeighbours(order: seq<nat>, k: nat, j: nat)
    requires k < |order| && j < |order| - 1
    ensures var o, rest := if j < k then j else j + 1, RemoveAt(order, k);
      && rest[j] == order[o]
      && Before(rest, j) == (if o == k + 1 then Before(order, k) else Before(order, o))
      && At(rest, j + 1) == (if o + 1 == k then At(order, k + 1) else At(order, o + 1))
  {
  }

  lemma UnlinkedJoined<K, R>(nodes: Slab<K, R>, order: seq<nat>, contents: seq<Entry<K, R>>, k: nat, j: nat)
    requires Linked(nodes, order, contents) && k < |order| && j < |order| - 1
    ensures Joined(Unlinked(nodes, order, contents, k), RemoveAt(order, k), RemoveAt(contents, k), j)
  {
    var o := if j < k then j else j + 1;
    RemovedNeighbours(order, k, j);
    assert RemoveAt(contents, k)[j] == contents[o];
    UnlinkedNode(nodes, order, contents, k, o);
  }

  lemma UnlinkKeepsList<K, R>(nodes: Slab<K, R>, order: seq<nat>, contents: seq<Entry<K, R>>, k: nat)
    requires Linked(nodes, order, contents) && k < |order|
    ensures Linked(Unlinked(nodes, order, contents, k), RemoveAt(order, k), RemoveAt(contents, k))
  {
    RemoveAtInjective(order, k);
    forall j: nat | j < |order| - 1
      ensures Joined(Unlinked(nodes, order, contents, k), RemoveAt(order, k), RemoveAt(contents, k), j)
    {
      UnlinkedJoined(nodes, order, contents, k, j);
    }
  }

  lemma UnlinkKeepsFreeList<K, R>(
    nodes: Slab<K, R>, order: seq<nat>, contents: seq<Entry<K, R>>, free: seq<nat>, k: nat)
    requires Linked(nodes, order, contents) && k < |order| && FreeListed(nodes, free)
    ensures FreeListed(Unlinked(nodes, order, contents, k), free + [order[k]])
  {
    assert Joined(nodes, order, contents, k);
    AppendInjective(free, order[k]);
  }

  lemma UnlinkKeepsIndex<K(!new), R>(
    nodes: Slab<K, R>, order: seq<nat>, contents: seq<Entry<K, R>>, entries: map<K, nat>, k: nat)
    requires Linked(nodes, order, contents) && k < |order| && Indexed(nodes, entries)
    ensures Indexed(Unlinked(nodes, order, contents, k), entries - {contents[k].key})
  {
    var r, rest := Unlinked(nodes, order, contents, k), entries - {contents[k].key};
    assert Joined(nodes, order, contents, k);
    assert Found(nodes, entries, order[k]);
    forall key
      ensures Finds(r, rest, key)
    {
      assert Finds(nodes, entries, key);
    }
    forall i: nat
      ensures Found(r, rest, i)
    {
      assert Found(nodes, entries, i);
      assert i < |nodes| && nodes[i].Some? ==> Finds(nodes, entries, nodes[i].value.key);
    }
  }

  /** Unlinking a node and freeing its slot keeps the slab consistent. */
  lemma UnlinkKeepsConsistent<K(!new), R>(
    nodes: Slab<K, R>, order: seq<nat>, contents: seq<Entry<K, R>>, free: seq<nat>, entries: map<K, nat>, k: nat)
    requires Consistent(nodes, order, contents, free, entries) && k < |order|
    ensures Consistent(Unlinked(nodes, order, contents, k), RemoveAt(order, k), RemoveAt(contents, k),
                       free + [order[k]], entries - {contents[k].key})
  {
    UnlinkKeepsList(nodes, order, contents, k);
    UnlinkKeepsFreeList(nodes, order, contents, free, k);
    UnlinkKeepsIndex(nodes, order, contents, entries, k);
  }

  /** The links that taking out position k reads are live and distinct. */
  lemma Neighbours<K, R>(nodes: Slab<K, R>, order: seq<nat>, contents: seq<Entry<K, R>>, k: nat)
    requires Linked(nodes, order, contents) && k < |order|
    ensures Joined(nodes, order, contents, k)
    ensures k > 0 ==> Joined(nodes, order, contents, k - 1) && order[k - 1] != order[k]
    ensures k + 1 < |order| ==> Joined(nodes, order, contents, k + 1) && order[k + 1] != order[k]
    ensures At(RemoveAt(order, k), 0) == if k == 0 then At(order, 1) else At(order, 0)
    ensures Before(RemoveAt(order, k), |order| - 1)
         == if k + 1 == |order| then Before(order, k) else Before(order, |order|)
  {
  }

  /** The slab after an entry is written to a dead slot and linked at the tail. */
  ghost function Appended<K, R>(
    nodes: Slab<K, R>, order: seq<nat>, contents: seq<Entry<K, R>>, i: nat, e: Entry<K, R>): (r: Slab<K, R>)
    requires Linked(nodes, order, contents) && i < |nodes| && nodes[i].None?
    ensures |r| == |nodes|
    ensures r[i] == Some(Node(e.key, e.response, e.expiresAt, e.weight, Before(order, |order|), None))
    ensures forall j :: 0 <= j < |nodes| && j != i ==>
      r[j] == if Before(order, |order|) == Some(j) && nodes[j].Some?
              then Some(nodes[j].value.(next := Some(i))) else nodes[j]
  {
    LiveNodes(nodes, order, contents);
    var node := Node(e.key, e.response, e.expiresAt, e.weight, Before(order, |order|), None);
    WithNext(nodes[i := Some(node)], Before(order, |order|), Some(i))
  }

  lemma AppendedJoined<K, R>(
    nodes: Slab<K, R>, order: seq<nat>, contents: seq<Entry<K, R>>, i: nat, e: Entry<K, R>, j: nat)
    requires Linked(nodes, order, contents) && i < |nodes| && nodes[i].None? && j <= |order|
    ensures Joined(Appended(nodes, order, contents, i, e), order + [i], contents + [e], j)
  {
    var longer := order + [i];
    assert Before(longer, j) == Before(order, j);
    if j < |order| {
      assert Joined(nodes, order, contents, j);
      assert order[j] in order && longer[j] == order[j] && (contents + [e])[j] == contents[j];
      assert order[|order| - 1] == order[j] ==> j == |order| - 1;
    }
  }

  lemma AppendKeepsList<K, R>(
    nodes: Slab<K, R>, order: seq<nat>, contents: seq<Entry<K, R>>, i: nat, e: Entry<K, R>)
    requires Linked(nodes, order, contents) && i < |nodes| && nodes[i].None?
    ensures Linked(Appended(nodes, order, contents, i, e), order + [i], contents + [e])
  {
    AppendInjective(order, i);
    forall j: nat | j <= |order|
      ensures Joined(Appended(nodes, order, contents, i, e), order + [i], contents + [e], j)
    {
      AppendedJoined(nodes, order, contents, i, e, j);
    }
  }

  lemma AppendKeepsIndex<K(!new), R>(
    nodes: Slab<K, R>, order: seq<nat>, contents: seq<Entry<K, R>>, entries: map<K, nat>, i: nat, e: Entry<K, R>)
    requires Linked(nodes, order, contents) && Indexed(nodes, entries)
    requires i < |nodes| && nodes[i].None? && e.key !in entries
    ensures Indexed(Appended(nodes, order, contents, i, e), entries[e.key := i])
  {
    var r, more := Appended(nodes, order, contents, i, e), entries[e.key := i];
    forall key
      ensures Finds(r, more, key)
    {
      assert Finds(nodes, entries, key);
    }
    forall x: nat
      ensures Found(r, more, x)
    {
      assert Found(nodes, entries, x);
    }
  }

  /** Writing an entry to a slot taken off the free list keeps the slab consistent. */
  lemma AppendKeepsConsistent<K(!new), R>(
    nodes: Slab<K, R>, order: seq<nat>, contents: seq<Entry<K, R>>, free: seq<nat>, entries: map<K, nat>,
    e: Entry<K, R>)
    requires Consistent(nodes, order, contents, free, entries) && e.key !in entries && free != []
    ensures var i := free[|free| - 1];
      && i < |nodes| && nodes[i].None?
      && Consistent(Appended(nodes, order, contents, i, e), order + [i], contents + [e],
                    free[..|free| - 1], entries[e.key := i])
  {
    var i := free[|free| - 1];
    assert i in free;
    AppendKeepsList(nodes, order, contents, i, e);
    AppendKeepsIndex(nodes, order, contents, entries, i, e);
    var rest := free[..|free| - 1];
    assert free == rest + [i];
    assert forall x :: x in free <==> x in rest || x == i;
  }

  /** Growing the slab by one dead slot, freed at once, keeps it consistent. */
  lemma GrowKeepsConsistent<K(!new), R>(
    nodes: Slab<K, R>, order: seq<nat>, contents: seq<Entry<K, R>>, free: seq<nat>, entries: map<K, nat>)
    requires Consistent(nodes, order, contents, free, entries)
    ensures Consistent(nodes + [None], order, contents, free + [|nodes|], entries)
  {
    var r := nodes + [None];
    AppendInjective(free, |nodes|);
    forall j: nat | j < |order|
      ensures Joined(r, order, contents, j)
    {
      assert Joined(nodes, order, contents, j);
    }
    forall key
      ensures Finds(r, entries, key)
    {
      assert Finds(nodes, entries, key);
    }
    forall i: nat
      ensures Found(r, entries, i)
    {
      assert Found(nodes, entries, i);
    }
  }

  /** What taking position k out leaves in every field. */
  lemma RemoveStep<K(!new), R>(
    nodes: Slab<K, R>, order: seq<nat>, contents: seq<Entry<K, R>>, free: seq<nat>, entries: map<K, nat>, k: nat)
    requires Consistent(nodes, order, contents, free, entries) && k < |order|
    requires Weight(contents) <= USIZE_MAX
    ensures var i, order', contents' := order[k], RemoveAt(order, k), RemoveAt(contents, k);
      && i < |nodes| && nodes[i].Some?
      && var e := nodes[i].value;
      && (e.previous.Some? ==> e.previous.value < |nodes| && e.previous.value != i && nodes[e.previous.value].Some?)
      && (e.next.Some? ==> e.next.value < |nodes| && e.next.value != i && nodes[e.next.value].Some?)
      && (e.next.Some? && e.previous.Some? ==> e.next.value != e.previous.value)
      && var nodes' := WithPrevious(WithNext(nodes[i := None], e.previous, e.next), e.next, e.previous);
      && Consistent(nodes', order', contents', free + [i], entries - {e.key})
      && At(order', 0) == (if e.previous.Some? then At(order, 0) else e.next)
      && Before(order', |order'|) == (if e.next.Some? then Before(order, |order|) else e.previous)
      && Weight(contents') == SaturatingSub(Weight(contents), e.weight)
  {
    Neighbours(nodes, order, contents, k);
    UnlinkKeepsConsistent(nodes, order, contents, free, entries, k);
    WeightRemoveAt(contents, k);
  }

  /** Relinking in place is unlinking the node and appending its entry again. */
  lemma TouchMoves<K, R>(nodes: Slab<K, R>, order: seq<nat>, contents: seq<Entry<K, R>>, k: nat)
    requires Linked(nodes, order, contents) && k + 1 < |order|
    requires Linked(Unlinked(nodes, order, contents, k), RemoveAt(order, k), RemoveAt(contents, k))
    ensures Joined(nodes, order, contents, k) && Joined(nodes, order, contents, |order| - 1)
    ensures Joined(nodes, order, contents, k + 1) && (k > 0 ==> Joined(nodes, order, contents, k - 1))
    ensures var i, tail := order[k], order[|order| - 1];
      && tail != i
      && var n1 := WithPrevious(WithNext(nodes, Before(order, k), At(order, k + 1)), At(order, k + 1), Before(order, k));
      && n1[i].Some? && n1[tail].Some?
      && var n2 := n1[i := Some(n1[i].value.(previous := Some(tail), next := None))];
      && WithNext(n2, Some(tail), Some(i)) ==
         Appended(Unlinked(nodes, order, contents, k), RemoveAt(order, k), RemoveAt(contents, k), i, contents[k])
  {
    Neighbours(nodes, order, contents, k);
    assert Joined(nodes, order, contents, |order| - 1) && order[|order| - 1] != order[k];
  }

  lemma UnlinkThenAppend<K(!new), R>(
    nodes: Slab<K, R>, order: seq<nat>, contents: seq<Entry<K, R>>, free: seq<nat>, entries: map<K, nat>, k: nat)
    requires Consistent(nodes, order, contents, free, entries) && k < |order|
    ensures Linked(Unlinked(nodes, order, contents, k), RemoveAt(order, k), RemoveAt(contents, k))
    ensures Consistent(
      Appended(Unlinked(nodes, order, contents, k), RemoveAt(order, k), RemoveAt(contents, k), order[k], contents[k]),
      RemoveAt(order, k) + [order[k]], Touch(contents, k), free, entries)
  {
    UnlinkKeepsConsistent(nodes, order, contents, free, entries, k);
    var i, key := order[k], contents[k].key;
    assert Joined(nodes, order, contents, k) && Found(nodes, entries, i);
    AppendKeepsConsistent(
      Unlinked(nodes, order, contents, k), RemoveAt(order, k), RemoveAt(contents, k), free + [i], entries - {key},
      contents[k]);
    assert (free + [i])[..|free|] == free;
    assert (entries - {key})[key := i] == entries;
  }

  /** What moving position k to the tail leaves, link by link. */
  lemma TouchStep<K(!new), R>(
    nodes: Slab<K, R>, order: seq<nat>, contents: seq<Entry<K, R>>, free: seq<nat>, entries: map<K, nat>, k: nat)
    requires Consistent(nodes, order, contents, free, entries) && k + 1 < |order|
    ensures var i, order', tail := order[k], RemoveAt(order, k) + [order[k]], order[|order| - 1];
      && i < |nodes| && nodes[i].Some? && tail < |nodes| && nodes[tail].Some? && tail != i
      && var n := nodes[i].value;
      && (n.previous.Some? ==> n.previous.value < |nodes| && nodes[n.previous.value].Some?)
      && n.next.Some? && n.next.value < |nodes| && nodes[n.next.value].Some?
      && var n1 := WithPrevious(WithNext(nodes, n.previous, n.next), n.next, n.previous);
      && n1[i].Some? && n1[tail].Some?
      && var n2 := n1[i := Some(n1[i].value.(previous := Some(tail), next := None))];
      && Consistent(WithNext(n2, Some(tail), Some(i)), order', Touch(contents, k), free, entries)
      && At(order', 0) == (if n.previous.Some? then At(order, 0) else n.next)
      && Before(order', |order'|) == Some(i)
      && Weight(Touch(contents, k)) == Weight(contents)
  {
    UnlinkThenAppend(nodes, order, contents, free, entries, k);
    TouchMoves(nodes, order, contents, k);
    WeightRemoveAt(contents, k);
    WeightAppend(RemoveAt(contents, k), contents[k]);
  }

  /** The slab, slot and free list that an insertion writes to: a freed slot if there is one, else a new one. */
  function TakeSlot<K, R>(nodes: Slab<K, R>, free: seq<nat>): (r: (Slab<K, R>, nat, seq<nat>)) {
    if free != [] then (nodes, free[|free| - 1], free[..|free| - 1]) else (nodes + [None], |nodes|, [])
  }

  /** What writing a new entry at the tail leaves in every field. */
  lemma InsertStep<K(!new), R>(
    nodes: Slab<K, R>, order: seq<nat>, contents: seq<Entry<K, R>>, free: seq<nat>, entries: map<K, nat>,
    e: Entry<K, R>)
    requires Consistent(nodes, order, contents, free, entries) && e.key !in entries
    ensures var (nodes', i, free') := TakeSlot(nodes, free);
      && i < |nodes'| && nodes'[i].None?
      && var tail := Before(order, |order|);
      && (tail.Some? ==> tail.value < |nodes'| && nodes'[tail.value].Some?)
      && var n := Node(e.key, e.response, e.expiresAt, e.weight, tail, None);
      && Consistent(WithNext(nodes'[i := Some(n)], tail, Some(i)), order + [i], contents + [e], free', entries[e.key := i])
      && Weight(contents + [e]) == Weight(contents) + e.weight
      && |nodes'| == Max(|nodes|, |contents| + 1)
  {
    WeightAppend(contents, e);
    SlabPartition(nodes, order, contents, free);
    if free != [] {
      LiveNodes(nodes, order, contents);
      AppendKeepsConsistent(nodes, order, contents, free, entries, e);
    } else {
      GrowKeepsConsistent(nodes, order, contents, free, entries);
      LiveNodes(nodes + [None], order, contents);
      AppendKeepsConsistent(nodes + [None], order, contents, free + [|nodes|], entries, e);
      assert (free + [|nodes|])[..|free|] == free;
    }
  }

  /** The position of a slot in a list, or the list's length when it is not there. */
  ghost function Position(order: seq<nat>, slot: nat): (k: nat)
    ensures k <= |order|
    ensures k < |order| <==> slot in order
    ensures k < |order| ==> order[k] == slot
  {
    if slot in order then var k :| 0 <= k < |order| && order[k] == slot; k else |order|
  }

  /** Touching the last entry changes nothing. */
  lemma LastIsTail<K, R>(order: seq<nat>, contents: seq<Entry<K, R>>, k: nat)
    requires Injective(order) && k < |order| == |contents| && Before(order, |order|) == Some(order[k])
    ensures Touch(contents, k) == contents
  {
  }

  lemma EntryInIndex<K(!new), R>(
    nodes: Slab<K, R>, order: seq<nat>, contents: seq<Entry<K, R>>, free: seq<nat>, entries: map<K, nat>, key: K)
    requires Consistent(nodes, order, contents, free, entries)
    ensures DistinctKeys(contents)
    ensures key in entries ==> Find(contents, key) < |contents| && order[Find(contents, key)] == entries[key]
    ensures key !in entries ==> Find(contents, key) == |contents|
  {
    forall j: nat | j < |order|
      ensures contents[j].key in entries && entries[contents[j].key] == order[j]
    {
      assert Joined(nodes, order, contents, j) && Found(nodes, entries, order[j]);
    }
    if key in entries {
      assert Finds(nodes, entries, key);
      var k :| 0 <= k < |order| && order[k] == entries[key];
      assert Joined(nodes, order, contents, k);
    }
  }

  class CacheState<K(==, !new), R> {
    var entries: map<K, nat>
    var nodes: Slab<K, R>
    var freeNodes: seq<nat>
    var lruHead: Option<nat>
    var lruTail: Option<nat>
    var inflight: map<K, Inflight<R>>
    var totalWeight: nat

    /** Slots of the live nodes and what they hold, least recently used first. */
    ghost var order: seq<nat>
    ghost var contents: seq<Entry<K, R>>

    /** The greatest number of entries ever held at once. */
    ghost var peak: nat

    ghost predicate Valid()
      reads this
    {
      && Consistent(nodes, order, contents, freeNodes, entries)
      && lruHead == At(order, 0)
      && lruTail == Before(order, |order|)
      && totalWeight == Weight(contents)
      && totalWeight <= USIZE_MAX
      && |contents| <= peak == |nodes|
    }

    constructor ()
      ensures Valid() && contents == [] && inflight == map[] && nodes == [] && peak == 0
    {
      entries, nodes, freeNodes, lruHead, lruTail := map[], [], [], None, None;
      inflight, totalWeight, order, contents, peak := map[], 0, [], [], 0;
    }

    /** The link surgery of removal: join the neighbours, free the slot, drop the key. */
    method Detach(index: nat)
      requires index < |nodes| && nodes[index].Some?
      requires var n := nodes[index].value;
        && (n.previous.Some? ==>
              n.previous.value < |nodes| && n.previous.value != index && nodes[n.previous.value].Some?)
        && (n.next.Some? ==> n.next.value < |nodes| && n.next.value != index && nodes[n.next.value].Some?)
      modifies `nodes, `entries, `freeNodes, `lruHead, `lruTail, `totalWeight
      ensures var n := old(nodes)[index].value;
        && nodes == WithPrevious(WithNext(old(nodes)[index := None], n.previous, n.next), n.next, n.previous)
        && entries == old(entries) - {n.key}
        && freeNodes == old(freeNodes) + [index]
        && lruHead == (if n.previous.Some? then old(lruHead) else n.next)
        && lruTail == (if n.next.Some? then old(lruTail) else n.previous)
        && totalWeight == SaturatingSub(old(totalWeight), n.weight)
    {
      var entry := nodes[index].value;
      nodes := nodes[index := None];
      entries := entries - {entry.key};
      if entry.previous.Some? {
        nodes := WithNext(nodes, entry.previous, entry.next);
      } else {
        lruHead := entry.next;
      }
      if entry.next.Some? {
        nodes := WithPrevious(nodes, entry.next, entry.previous);
      } else {
        lruTail := entry.previous;
      }
      totalWeight := SaturatingSub(totalWeight, entry.weight);
      freeNodes := freeNodes + [index];
    }

    /** Take the entry in this slot out of the cache; a dead slot is left alone. */
    method RemoveIndex(index: nat)
      requires Valid()
      modifies this
      ensures Valid() && inflight == old(inflight) && peak == old(peak)
      ensures totalWeight <= old(totalWeight)
      ensures index !in old(order) ==> contents == old(contents)
      ensures index in old(order) ==> contents == RemoveAt(old(contents), Position(old(order), index))
    {
      if index >= |nodes| || nodes[index].None? {
        return;
      }
      ghost var k := Position(order, index);
      RemoveStep(nodes, order, contents, freeNodes, entries, k);
      Detach(index);
      order, contents := RemoveAt(order, k), RemoveAt(contents, k);
    }

    /** The link surgery of a hit on a node that is not already last. */
    method MoveToTail(index: nat)
      requires index < |nodes| && nodes[index].Some?
      requires lruTail.Some? ==> lruTail.value < |nodes| && nodes[lruTail.value].Some?
      requires var n := nodes[index].value;
        && (n.previous.Some? ==> n.previous.value < |nodes| && nodes[n.previous.value].Some?)
        && (n.next.Some? ==> n.next.value < |nodes| && nodes[n.next.value].Some?)
      modifies `nodes, `lruHead, `lruTail
      ensures var n := old(nodes)[index].value;
        var n1 := WithPrevious(WithNext(old(nodes), n.previous, n.next), n.next, n.previous);
        && n1[index].Some? && (old(lruTail).Some? ==> n1[old(lruTail).value].Some?)
        && nodes == WithNext(n1[index := Some(n1[index].value.(previous := old(lruTail), next := None))],
                             old(lruTail), Some(index))
        && lruHead == (if old(lruTail).None? then Some(index)
                       else if n.previous.Some? then old(lruHead) else n.next)
        && lruTail == Some(index)
    {
      var previous, next := nodes[index].value.previous, nodes[index].value.next;
      if previous.Some? {
        nodes := WithNext(nodes, previous, next);
      } else {
        lruHead := next;
      }
      if next.Some? {
        nodes := WithPrevious(nodes, next, previous);
      }
      var previousTail := lruTail;
      nodes := nodes[index := Some(nodes[index].value.(previous := previousTail, next := None))];
      if previousTail.Some? {
        nodes := WithNext(nodes, previousTail, Some(index));
      } else {
        lruHead := Some(index);
      }
      lruTail := Some(index);
    }

    /** Make the entry in this slot the most recently used one. */
    method Touch(index: nat)
      requires Valid() && index in order
      modifies this
      ensures Valid() && inflight == old(inflight) && peak == old(peak)
      ensures totalWeight == old(totalWeight)
      ensures contents == LruSequence.Touch(old(contents), Position(old(order), index))
    {
      ghost var k := Position(order, index);
      if lruTail == Some(index) {
        LastIsTail(order, contents, k);
      } else {
        TouchStep(nodes, order, contents, freeNodes, entries, k);
        MoveToTail(index);
        order, contents := RemoveAt(order, k) + [index], LruSequence.Touch(contents, k);
        assert Valid();
      }
    }

    method Remove(key: K)
      requires Valid()
      modifies this
      ensures Valid() && inflight == old(inflight) && peak == old(peak)
      ensures contents == RemoveKey(old(contents), key)
      ensures key !in entries
    {
      EntryInIndex(nodes, order, contents, freeNodes, entries, key);
      if key in entries {
        RemoveKeyForgets(contents, key);
        ghost var k := Find(contents, key);
        assert Position(order, entries[key]) == k;
        RemoveIndex(entries[key]);
        EntryInIndex(nodes, order, contents, freeNodes, entries, key);
      }
    }

    /** The link surgery of insertion at the tail. */
    method Attach(key: K, response: R, expiresAt: int, weight: nat)
      requires TakeSlot(nodes, freeNodes).1 < |TakeSlot(nodes, freeNodes).0|
      requires lruTail.Some? ==> lruTail.value < |nodes| && nodes[lruTail.value].Some?
      modifies `nodes, `entries, `freeNodes, `lruHead, `lruTail, `totalWeight
      ensures var (nodes', i, free') := TakeSlot(old(nodes), old(freeNodes));
        var n := Node(key, response, expiresAt, weight, old(lruTail), None);
        && nodes == WithNext(nodes'[i := Some(n)], old(lruTail), Some(i))
        && entries == old(entries)[key := i]
        && freeNodes == free'
        && lruHead == (if old(lruTail).Some? then old(lruHead) else Some(i))
        && lruTail == Some(i)
        && totalWeight == SaturatingAdd(old(totalWeight), weight)
    {
      var index;
      if freeNodes != [] {
        index, freeNodes := freeNodes[|freeNodes| - 1], freeNodes[..|freeNodes| - 1];
      } else {
        nodes := nodes + [None];
        index := |nodes| - 1;
      }
      var previous := lruTail;
      nodes := nodes[index := Some(Node(key, response, expiresAt, weight, previous, None))];
      if previous.Some? {
        nodes := WithNext(nodes, previous, Some(index));
      } else {
        lruHead := Some(index);
      }
      lruTail := Some(index);
      totalWeight := SaturatingAdd(totalWeight, weight);
      entries := entries[key := index];
    }

    /** Drop least recently used entries until an entry of this weight fits. */
    method Evict(ghost key: K, weight: nat, capacity: nat)
      requires Valid() && weight <= USIZE_MAX && capacity < USIZE_MAX && key !in entries
      modifies this
      ensures Valid() && inflight == old(inflight) && peak == old(peak)
      ensures contents == MakeRoom(old(contents), weight, capacity)
      ensures key !in entries && (SaturatingAdd(totalWeight, weight) <= capacity || contents == [])
    {
      while SaturatingAdd(totalWeight, weight) > capacity && lruHead.Some?
        invariant Valid() && inflight == old(inflight) && peak == old(peak)
        invariant MakeRoom(contents, weight, capacity) == MakeRoom(old(contents), weight, capacity)
        invariant key !in entries
        decreases |contents|
      {
        ghost var before := contents;
        EntryInIndex(nodes, order, contents, freeNodes, entries, key);
        assert Position(order, lruHead.value) == 0;
        RemoveIndex(lruHead.value);
        assert contents == before[1..];
        EntryInIndex(nodes, order, contents, freeNodes, entries, key);
      }
    }

    /**
     Insert an entry as the most recently used one, evicting from the other end.
     The slab grows only when every slot is live, so its length stays the greatest
     number of entries ever held at once.
     */
    method Insert(key: K, response: R, expiresAt: int, weight: nat, capacity: nat)
      requires Valid() && weight <= USIZE_MAX && capacity < USIZE_MAX
      modifies this
      ensures Valid() && inflight == old(inflight)
      ensures contents == LruSequence.Insert(old(contents), Entry(key, response, expiresAt, weight), capacity)
      ensures weight <= capacity ==> totalWeight <= capacity
      ensures peak == Max(old(peak), |contents|)
    {
      Remove(key);
      Evict(key, weight, capacity);
      InsertStep(nodes, order, contents, freeNodes, entries, Entry(key, response, expiresAt, weight));
      ghost var slot := TakeSlot(nodes, freeNodes).1;
      Attach(key, response, expiresAt, weight);
      order, contents := order + [slot], contents + [Entry(key, response, expiresAt, weight)];
      peak := Max(peak, |contents|);
    }
  }
}
