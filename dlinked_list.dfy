/**
 * DLinkedList: a doubly linked list with two sentinel nodes. Nodes live in
 * an arena: `next`, `prev` and `data` are keyed by node id, the sentinels
 * head and tail have the fixed ids HEAD and TAIL, and a new node takes the
 * id `freeId`. A removed node drops out of the chain and is never read again.
 */
module LinkedList {
  import opened ListSpec

  const HEAD: nat := 0
  const TAIL: nat := 1

  ghost predicate Distinct(c: seq<nat>)
  {
    forall i, j :: 0 <= i < j < |c| ==> c[i] != c[j]
  }

  /** Consecutive nodes of `c` point at each other through `next` and `prev`. */
  ghost predicate Linked(c: seq<nat>, next: map<nat, nat>, prev: map<nat, nat>)
  {
    (forall i :: 0 <= i < |c| - 1 ==> c[i] in next) &&
    (forall i :: 0 < i < |c| ==> c[i] in prev) &&
    (forall i, j {:trigger c[i], c[j]} :: 0 <= i < |c| - 1 && j == i + 1 ==>
       next[c[i]] == c[j] && prev[c[j]] == c[i])
  }

  /**
   * `c` is a chain from head to tail, every node on it appears once, was
   * allocated before `freeId`, and is doubly linked to its neighbours.
   */
  ghost predicate WellFormed(c: seq<nat>, next: map<nat, nat>, prev: map<nat, nat>, freeId: nat)
  {
    |c| >= 2 && c[0] == HEAD && c[|c| - 1] == TAIL && Distinct(c) &&
    (forall i :: 0 <= i < |c| ==> c[i] < freeId) &&
    Linked(c, next, prev)
  }

  /** Positions of `c[..k + 1] + [n] + c[k + 1..]` in terms of positions of `c`. */
  lemma SpliceInPositions(c: seq<nat>, k: int, n: nat)
    requires 0 <= k < |c|
    ensures var c' := c[..k + 1] + [n] + c[k + 1..];
      |c'| == |c| + 1 && c'[k + 1] == n &&
      (forall j :: 0 <= j <= k ==> c'[j] == c[j]) &&
      (forall j :: k + 1 < j < |c'| ==> c'[j] == c[j - 1])
  {
  }

  /** The fresh node `n`, greater than every node of `c`, keeps the spliced chain distinct. */
  lemma SpliceInDistinct(c: seq<nat>, c': seq<nat>, k: int, n: nat, freeId: nat)
    requires Distinct(c) && 0 <= k < |c| && n == freeId && c' == c[..k + 1] + [n] + c[k + 1..]
    requires forall i :: 0 <= i < |c| ==> c[i] < freeId
    ensures Distinct(c')
    ensures forall i :: 0 <= i < |c'| ==> c'[i] < freeId + 1
  {
    SpliceInPositions(c, k, n);
    forall i, j | 0 <= i < j < |c'|
      ensures c'[i] != c'[j]
    {
      if j <= k {
      } else if j == k + 1 {
      } else if i == k + 1 {
      } else if i <= k {
        assert c'[j] == c[j - 1];
      } else {
        assert c'[i] == c[i - 1] && c'[j] == c[j - 1];
      }
    }
    forall i | 0 <= i < |c'|
      ensures c'[i] < freeId + 1
    {
      if i <= k { assert c'[i] == c[i]; } else if i > k + 1 { assert c'[i] == c[i - 1]; }
    }
  }

  /** The four pointer updates link the node `n`, not on `c`, between positions `k` and `k + 1`. */
  lemma SpliceInLinked(c: seq<nat>, k: int, n: nat, next: map<nat, nat>, prev: map<nat, nat>)
    requires Linked(c, next, prev) && Distinct(c) && 0 <= k < |c| - 1
    requires forall i :: 0 <= i < |c| ==> c[i] != n
    ensures Linked(c[..k + 1] + [n] + c[k + 1..], next[c[k] := n][n := c[k + 1]], prev[c[k + 1] := n][n := c[k]])
  {
    var c' := c[..k + 1] + [n] + c[k + 1..];
    var next', prev' := next[c[k] := n][n := c[k + 1]], prev[c[k + 1] := n][n := c[k]];
    SpliceInPositions(c, k, n);
    forall i | 0 <= i < |c'| - 1
      ensures c'[i] in next'
    {
      if i <= k { assert c'[i] == c[i]; } else if i > k + 1 { assert c'[i] == c[i - 1]; }
    }
    forall i | 0 < i < |c'|
      ensures c'[i] in prev'
    {
      if i <= k { assert c'[i] == c[i]; } else if i > k + 1 { assert c'[i] == c[i - 1]; }
    }
    forall i, j | 0 <= i < |c'| - 1 && j == i + 1
      ensures next'[c'[i]] == c'[j] && prev'[c'[j]] == c'[i]
    {
      if i < k {
        assert c'[i] == c[i] && c'[j] == c[j];
        assert next[c[i]] == c[j] && prev[c[j]] == c[i];
      } else if i == k {
      } else if i == k + 1 {
        assert c'[j] == c[k + 1];
      } else {
        assert c'[i] == c[i - 1] && c'[j] == c[j - 1];
        assert next[c[i - 1]] == c[j - 1] && prev[c[j - 1]] == c[i - 1];
      }
    }
  }

  /**
   * Splicing the fresh node `n` in between chain positions `k` and `k + 1`
   * (four pointer updates) yields a well-formed chain with `n` at `k + 1`.
   */
  lemma SpliceIn(c: seq<nat>, k: int, n: nat, next: map<nat, nat>, prev: map<nat, nat>, freeId: nat)
    requires WellFormed(c, next, prev, freeId) && 0 <= k < |c| - 1 && n == freeId
    ensures WellFormed(c[..k + 1] + [n] + c[k + 1..],
                       next[c[k] := n][n := c[k + 1]], prev[c[k + 1] := n][n := c[k]], freeId + 1)
  {
    SpliceInDistinct(c, c[..k + 1] + [n] + c[k + 1..], k, n, freeId);
    SpliceInLinked(c, k, n, next, prev);
  }

  /**
   * Unlinking chain position `k` (between the sentinels) by pointing its
   * neighbours at each other yields a well-formed chain without it.
   */
  lemma SpliceOut(c: seq<nat>, k: int, next: map<nat, nat>, prev: map<nat, nat>, freeId: nat)
    requires WellFormed(c, next, prev, freeId) && 0 < k < |c| - 1
    ensures WellFormed(c[..k] + c[k + 1..], next[c[k - 1] := c[k + 1]], prev[c[k + 1] := c[k - 1]], freeId)
  {
    var c' := c[..k] + c[k + 1..];
    var next', prev' := next[c[k - 1] := c[k + 1]], prev[c[k + 1] := c[k - 1]];
    assert |c'| == |c| - 1;
    assert forall j :: 0 <= j < k ==> c'[j] == c[j];
    assert forall j :: k <= j < |c'| ==> c'[j] == c[j + 1];
    forall i, j | 0 <= i < j < |c'|
      ensures c'[i] != c'[j]
    {
      if j < k {
      } else if i < k {
        assert c'[i] == c[i] && c'[j] == c[j + 1];
      } else {
        assert c'[i] == c[i + 1] && c'[j] == c[j + 1];
      }
    }
    forall i | 0 <= i < |c'| - 1
      ensures c'[i] in next'
    {
      if i < k { assert c'[i] == c[i]; } else { assert c'[i] == c[i + 1]; }
    }
    forall i | 0 < i < |c'|
      ensures c'[i] in prev'
    {
      if i < k { assert c'[i] == c[i]; } else { assert c'[i] == c[i + 1]; }
    }
    forall i, j | 0 <= i < |c'| - 1 && j == i + 1
      ensures next'[c'[i]] == c'[j] && prev'[c'[j]] == c'[i]
    {
      if i < k - 1 {
        assert c'[i] == c[i] && c'[j] == c[j];
        assert next[c[i]] == c[j] && prev[c[j]] == c[i];
      } else if i == k - 1 {
        assert c'[i] == c[k - 1] && c'[j] == c[k + 1];
      } else {
        assert c'[i] == c[i + 1] && c'[j] == c[j + 1];
        assert next[c[i + 1]] == c[j + 1] && prev[c[j + 1]] == c[i + 1];
      }
    }
    forall i | 0 <= i < |c'|
      ensures c'[i] < freeId
    {
      if i < k { assert c'[i] == c[i]; } else { assert c'[i] == c[i + 1]; }
    }
  }

  /** The chain of a list whose real nodes are `nodes`: head, the nodes, tail. */
  ghost function ChainOf(nodes: seq<nat>): (r: seq<nat>)
  {
    [HEAD] + nodes + [TAIL]
  }

  /** Inserting a node at list position `k` puts it at chain position `k + 1`. */
  lemma ChainInsert(nodes: seq<nat>, k: int, n: nat)
    requires 0 <= k <= |nodes|
    ensures ChainOf(Inserted(nodes, k, n)) == ChainOf(nodes)[..k + 1] + [n] + ChainOf(nodes)[k + 1..]
  {
    var c := ChainOf(nodes);
    assert c[..k + 1] == [HEAD] + nodes[..k];
    assert c[k + 1..] == nodes[k..] + [TAIL];
  }

  /** Removing list position `k` removes chain position `k + 1`. */
  lemma ChainRemove(nodes: seq<nat>, k: int)
    requires 0 <= k < |nodes|
    ensures ChainOf(Removed(nodes, k)) == ChainOf(nodes)[..k + 1] + ChainOf(nodes)[k + 2..]
  {
    var c := ChainOf(nodes);
    assert c[..k + 1] == [HEAD] + nodes[..k];
    assert c[k + 2..] == nodes[k + 1..] + [TAIL];
  }

  /** Node `nodes[i]` holds element `elems[i]`. */
  ghost predicate Holds<T>(nodes: seq<nat>, elems: seq<T>, data: map<nat, T>)
  {
    |nodes| == |elems| && forall i :: 0 <= i < |nodes| ==> nodes[i] in data && data[nodes[i]] == elems[i]
  }

  /** Storing `e` in a node not yet in use and inserting both at `k` keeps node and element aligned. */
  lemma HoldsInsert<T>(nodes: seq<nat>, elems: seq<T>, data: map<nat, T>, k: int, n: nat, e: T)
    requires Holds(nodes, elems, data) && 0 <= k <= |nodes|
    requires forall i :: 0 <= i < |nodes| ==> nodes[i] != n
    ensures Holds(Inserted(nodes, k, n), Inserted(elems, k, e), data[n := e])
  {
    var nodes', elems' := Inserted(nodes, k, n), Inserted(elems, k, e);
    forall i | 0 <= i < |nodes'|
      ensures nodes'[i] in data[n := e] && data[n := e][nodes'[i]] == elems'[i]
    {
      if i < k {
        assert nodes'[i] == nodes[i] && elems'[i] == elems[i];
      } else if i > k {
        assert nodes'[i] == nodes[i - 1] && elems'[i] == elems[i - 1];
      }
    }
  }

  /** Removing position `k` from both keeps node and element aligned. */
  lemma HoldsRemove<T>(nodes: seq<nat>, elems: seq<T>, data: map<nat, T>, k: int)
    requires Holds(nodes, elems, data) && 0 <= k < |nodes|
    ensures Holds(Removed(nodes, k), Removed(elems, k), data)
  {
    var nodes', elems' := Removed(nodes, k), Removed(elems, k);
    forall i | 0 <= i < |nodes'|
      ensures nodes'[i] in data && data[nodes'[i]] == elems'[i]
    {
      if i < k {
        assert nodes'[i] == nodes[i] && elems'[i] == elems[i];
      } else {
        assert nodes'[i] == nodes[i + 1] && elems'[i] == elems[i + 1];
      }
    }
  }

  /**
   * Inserting the fresh node `n`, holding `e`, at list position `k`: the
   * links of its two neighbours and its own are all that change.
   */
  lemma ListInsert<T>(nodes: seq<nat>, elems: seq<T>, next: map<nat, nat>, prev: map<nat, nat>,
                      data: map<nat, T>, freeId: nat, k: int, n: nat, e: T)
    requires WellFormed(ChainOf(nodes), next, prev, freeId) && Holds(nodes, elems, data)
    requires 0 <= k <= |nodes| && n == freeId
    ensures WellFormed(ChainOf(Inserted(nodes, k, n)),
                       next[ChainOf(nodes)[k] := n][n := ChainOf(nodes)[k + 1]],
                       prev[ChainOf(nodes)[k + 1] := n][n := ChainOf(nodes)[k]], freeId + 1)
    ensures Holds(Inserted(nodes, k, n), Inserted(elems, k, e), data[n := e])
  {
    var c := ChainOf(nodes);
    ChainInsert(nodes, k, n);
    SpliceIn(c, k, n, next, prev, freeId);
    forall i | 0 <= i < |nodes|
      ensures nodes[i] != n
    {
      assert c[i + 1] == nodes[i];
    }
    HoldsInsert(nodes, elems, data, k, n, e);
  }

  /** Unlinking the node at list position `k`: only its two neighbours' links change. */
  lemma ListRemove<T>(nodes: seq<nat>, elems: seq<T>, next: map<nat, nat>, prev: map<nat, nat>,
                      data: map<nat, T>, freeId: nat, k: int)
    requires WellFormed(ChainOf(nodes), next, prev, freeId) && Holds(nodes, elems, data)
    requires 0 <= k < |nodes|
    ensures WellFormed(ChainOf(Removed(nodes, k)),
                       next[ChainOf(nodes)[k] := ChainOf(nodes)[k + 2]],
                       prev[ChainOf(nodes)[k + 2] := ChainOf(nodes)[k]], freeId)
    ensures Holds(Removed(nodes, k), Removed(elems, k), data)
  {
    ChainRemove(nodes, k);
    SpliceOut(ChainOf(nodes), k + 1, next, prev, freeId);
    HoldsRemove(nodes, elems, data, k);
  }

  /** The node reached from `from` by following `links` `steps` times. */
  function Walk(links: map<nat, nat>, from: nat, steps: nat): (r: nat)
    decreases steps
  {
    if steps == 0 || from !in links then from else Walk(links, links[from], steps - 1)
  }

  /** Following `next` from a chain node visits the chain front to back. */
  lemma {:induction false} WalkForward(c: seq<nat>, next: map<nat, nat>, prev: map<nat, nat>, i: nat, steps: nat)
    requires Linked(c, next, prev) && i + steps < |c|
    ensures Walk(next, c[i], steps) == c[i + steps]
    decreases steps
  {
    if steps > 0 {
      WalkForward(c, next, prev, i + 1, steps - 1);
    }
  }

  /** Following `prev` from a chain node visits the chain back to front. */
  lemma {:induction false} WalkBackward(c: seq<nat>, next: map<nat, nat>, prev: map<nat, nat>, i: nat, steps: nat)
    requires Linked(c, next, prev) && steps <= i < |c|
    ensures Walk(prev, c[i], steps) == c[i - steps]
    decreases steps
  {
    if steps > 0 {
      WalkBackward(c, next, prev, i - 1, steps - 1);
    }
  }

  class DLinkedList<T(==)> {
    var next: map<nat, nat>
    var prev: map<nat, nat>
    var data: map<nat, T>
    var count: int
    /** The id the next allocated node takes. */
    var freeId: nat
    var itemEqual: Option<(T, T) -> bool>
    /** The real nodes, front to back. */
    ghost var nodes: seq<nat>
    /** The abstract contents. */
    ghost var elems: seq<T>

    /** The node chain from head to tail. */
    ghost function Chain(): seq<nat>
      reads this
    {
      ChainOf(nodes)
    }

    ghost predicate Valid()
      reads this
    {
      WellFormed(Chain(), next, prev, freeId) &&
      count == |nodes| && Holds(nodes, elems, data)
    }

    /** Every real node was allocated before `freeId`. */
    lemma AllocatedBefore()
      requires Valid()
      ensures forall i :: 0 <= i < |nodes| ==> nodes[i] < freeId
    {
      forall i | 0 <= i < |nodes|
        ensures nodes[i] < freeId
      {
        assert nodes[i] == Chain()[i + 1];
      }
    }

    /** An empty list: head and tail point at each other. */
    constructor (itemEqual: Option<(T, T) -> bool>)
      ensures Valid() && elems == [] && this.itemEqual == itemEqual
      ensures next[HEAD] == TAIL && prev[TAIL] == HEAD
    {
      this.itemEqual := itemEqual;
      count := 0;
      next := map[HEAD := TAIL];
      prev := map[TAIL := HEAD];
      data := map[];
      freeId := 2;
      nodes := [];
      elems := [];
    }

    /** Copy constructor: a new chain holding the same elements, with the same equality. */
    constructor Copy(list: DLinkedList<T>)
      requires list.Valid()
      ensures Valid() && elems == list.elems && itemEqual == list.itemEqual
    {
      itemEqual := list.itemEqual;
      count := 0;
      next := map[HEAD := TAIL];
      prev := map[TAIL := HEAD];
      data := map[];
      freeId := 2;
      nodes := [];
      elems := [];
      new;
      var current := list.next[HEAD];
      ghost var i := 0;
      while current != TAIL
        invariant Valid() && itemEqual == list.itemEqual
        invariant 0 <= i <= |list.nodes| && current == list.Chain()[i + 1]
        invariant elems == list.elems[..i]
        decreases |list.nodes| - i
      {
        assert list.elems[..i + 1] == list.elems[..i] + [list.data[current]];
        Add(list.data[current]);
        current := list.next[current];
        i := i + 1;
      }
      assert list.elems[..i] == list.elems;
    }

    /**
     * `operator=`: clear, take over `list`'s equality, then append `list`'s
     * elements; assigning a list to itself changes nothing.
     */
    method Assign(list: DLinkedList<T>)
      requires Valid() && list.Valid()
      modifies this
      ensures Valid() && elems == old(list.elems) && itemEqual == old(list.itemEqual)
      ensures list == this ==> unchanged(this)
    {
      if this == list {
        return;
      }
      Clear();
      itemEqual := list.itemEqual;
      var current := list.next[HEAD];
      ghost var i := 0;
      while current != TAIL
        invariant Valid() && list.Valid() && itemEqual == list.itemEqual
        invariant 0 <= i <= |list.nodes| && current == list.Chain()[i + 1]
        invariant elems == list.elems[..i]
        decreases |list.nodes| - i
      {
        assert list.elems[..i + 1] == list.elems[..i] + [list.data[current]];
        Add(list.data[current]);
        current := list.next[current];
        i := i + 1;
      }
      assert list.elems[..i] == list.elems;
    }

    /** `add(e)`: splice a new node in just before the tail. */
    method Add(e: T)
      requires Valid()
      modifies this
      ensures Valid() && itemEqual == old(itemEqual)
      ensures elems == old(elems) + [e] && nodes == old(nodes) + [old(freeId)]
    {
      AllocatedBefore();
      ghost var c := Chain();
      var n := freeId;
      freeId := freeId + 1;
      data := data[n := e];
      var last := prev[TAIL];
      next := next[last := n];
      prev := prev[n := last];
      next := next[n := TAIL];
      prev := prev[TAIL := n];
      count := count + 1;
      assert last == c[|c| - 2];
      assert prev == old(prev)[TAIL := n][n := last];
      ListInsert(nodes, elems, old(next), old(prev), old(data), old(freeId), |nodes|, n, e);
      assert Inserted(nodes, |nodes|, n) == nodes + [n] && Inserted(elems, |elems|, e) == elems + [e];
      nodes := nodes + [n];
      elems := elems + [e];
    }

    /**
     * The link edits of `add(index, e)` for the new node `n`, with separate
     * code for the front, the end and the middle.
     */
    method Link(index: int, n: nat)
      requires WellFormed(Chain(), next, prev, n) && count == |nodes| && 0 <= index <= count
      modifies this`next, this`prev
      ensures next == old(next)[old(Chain())[index] := n][n := old(Chain())[index + 1]]
      ensures prev == old(prev)[old(Chain())[index + 1] := n][n := old(Chain())[index]]
    {
      ghost var c := Chain();
      ghost var next1, prev1 := next[c[index] := n][n := c[index + 1]], prev[c[index + 1] := n][n := c[index]];
      if index == 0 {
        if count == 0 {
          next := next[HEAD := n];
          prev := prev[n := HEAD];
          next := next[n := TAIL];
          prev := prev[TAIL := n];
          assert next == next1 && prev == prev1;
        } else {
          var first := next[HEAD];
          next := next[n := first];
          prev := prev[first := n];
          next := next[HEAD := n];
          prev := prev[n := HEAD];
          assert next == next1 && prev == prev1;
        }
      } else if index == count {
        var last := prev[TAIL];
        prev := prev[n := last];
        next := next[last := n];
        prev := prev[TAIL := n];
        next := next[n := TAIL];
        assert last == c[|c| - 2];
        assert next == next1 && prev == prev1;
      } else {
        var prevNode := next[HEAD];
        for i := 1 to index + 1
          modifies this`next, this`prev
          invariant i <= index ==> prevNode == c[i] && next == old(next) && prev == old(prev)
          invariant i == index + 1 ==> next == next1 && prev == prev1
          invariant prevNode in next
        {
          if index == i {
            var after := next[prevNode];
            next := next[n := after];
            prev := prev[after := n];
            next := next[prevNode := n];
            prev := prev[n := prevNode];
          }
          prevNode := next[prevNode];
        }
      }
    }

    /**
     * `add(index, e)`: allocate a node holding `e` and splice it in at
     * position `index`; fails outside [0, count].
     */
    method Insert(index: int, e: T) returns (r: Outcome)
      requires Valid()
      modifies this
      ensures Valid() && itemEqual == old(itemEqual)
      ensures r.Fail? <==> index < 0 || index > old(count)
      ensures r.Fail? ==> unchanged(this)
      ensures r.Pass? ==> elems == Inserted(old(elems), index, e) && nodes == Inserted(old(nodes), index, old(freeId))
    {
      if index < 0 || index > count {
        return Fail(OutOfRange);
      }
      AllocatedBefore();
      var n := freeId;
      ListInsert(nodes, elems, next, prev, data, freeId, index, n, e);
      freeId := freeId + 1;
      data := data[n := e];
      Link(index, n);
      count := count + 1;
      nodes := Inserted(nodes, index, n);
      elems := Inserted(elems, index, e);
      r := Pass;
    }

    /**
     * Point the neighbours of the real node `n`, at position `k`, at each
     * other and drop it from the count: the unlinking step shared by
     * `removeItem` and both iterators' `remove`.
     */
    method Unlink(n: nat, ghost k: int)
      requires Valid() && 0 <= k < |nodes| && n == nodes[k]
      modifies this
      ensures Valid() && itemEqual == old(itemEqual) && data == old(data) && freeId == old(freeId)
      ensures nodes == Removed(old(nodes), k) && elems == Removed(old(elems), k)
      ensures next == old(next)[old(Chain())[k] := old(Chain())[k + 2]]
      ensures prev == old(prev)[old(Chain())[k + 2] := old(Chain())[k]]
    {
      ghost var c := Chain();
      assert c[k + 1] == n;
      next := next[prev[n] := next[n]];
      prev := prev[next[n] := prev[n]];
      count := count - 1;
      ListRemove(nodes, elems, old(next), old(prev), data, freeId, k);
      nodes := Removed(nodes, k);
      elems := Removed(elems, k);
    }

    /**
     * The link edits of `removeAt(index)`: point the neighbours of the node
     * at `index` at each other, with separate code for the front, the end
     * and the middle, and return that node.
     */
    method Detach(index: int) returns (deleteNode: nat)
      requires WellFormed(Chain(), next, prev, freeId) && count == |nodes| && 0 <= index < count
      modifies this`next, this`prev
      ensures deleteNode == old(nodes)[index]
      ensures next == old(next)[old(Chain())[index] := old(Chain())[index + 2]]
      ensures prev == old(prev)[old(Chain())[index + 2] := old(Chain())[index]]
    {
      ghost var c := Chain();
      if index == 0 {
        deleteNode := next[HEAD];
        assert deleteNode == c[1];
        next := next[HEAD := next[deleteNode]];
        prev := prev[next[deleteNode] := HEAD];
      } else if index == count - 1 {
        deleteNode := prev[TAIL];
        assert deleteNode == c[index + 1];
        prev := prev[TAIL := prev[deleteNode]];
        next := next[prev[deleteNode] := TAIL];
        assert next == old(next)[c[index] := c[index + 2]];
      } else {
        deleteNode := HEAD;
        var prevNode := next[HEAD];
        for i := 1 to index + 1
          modifies this`next, this`prev
          invariant i <= index ==> prevNode == c[i] && next == old(next) && prev == old(prev)
          invariant i == index + 1 ==>
            deleteNode == c[index + 1] &&
            next == old(next)[c[index] := c[index + 2]] &&
            prev == old(prev)[c[index + 2] := c[index]]
          invariant prevNode in next
        {
          if i == index {
            deleteNode := next[prevNode];
            assert deleteNode == c[index + 1];
            next := next[prevNode := next[deleteNode]];
            prev := prev[next[deleteNode] := prevNode];
          }
          prevNode := next[prevNode];
        }
      }
    }

    /**
     * `removeAt(index)`: unlink the node at `index` and return its element;
     * fails outside [0, count).
     */
    method RemoveAt(index: int) returns (r: Result<T>)
      requires Valid()
      modifies this
      ensures Valid() && itemEqual == old(itemEqual)
      ensures r.Err? <==> index < 0 || index >= old(count)
      ensures r.Err? ==> unchanged(this)
      ensures r.Ok? ==> r.value == old(elems)[index]
      ensures r.Ok? ==> elems == Removed(old(elems), index) && nodes == Removed(old(nodes), index)
    {
      if index < 0 || index >= count {
        return Err(OutOfRange);
      }
      ListRemove(nodes, elems, next, prev, data, freeId, index);
      var deleteNode := Detach(index);
      var removed := data[deleteNode];
      count := count - 1;
      nodes := Removed(nodes, index);
      elems := Removed(elems, index);
      r := Ok(removed);
    }

    /** `empty()`. */
    method Empty() returns (r: bool)
      requires Valid()
      ensures r <==> elems == []
    {
      r := count == 0;
    }

    /** `size()`. */
    method Size() returns (n: int)
      requires Valid()
      ensures n == |elems|
    {
      n := count;
    }

    /** `clear()`: remove the front element until the list is empty. */
    method Clear()
      requires Valid()
      modifies this
      ensures Valid() && elems == [] && itemEqual == old(itemEqual)
      ensures next[HEAD] == TAIL && prev[TAIL] == HEAD
    {
      while count != 0
        invariant Valid() && itemEqual == old(itemEqual)
        decreases |elems|
      {
        var _ := RemoveAt(0);
      }
    }

    /** `get(index)`: walk `index` links from the first node; fails outside [0, count). */
    method Get(index: int) returns (r: Result<T>)
      requires Valid()
      ensures r.Err? <==> index < 0 || index >= |elems|
      ensures r.Ok? ==> r.value == elems[index]
    {
      if index < 0 || index >= count {
        return Err(OutOfRange);
      }
      var current := next[HEAD];
      for i := 0 to index
        invariant current == Chain()[i + 1]
      {
        current := next[current];
      }
      r := Ok(data[current]);
    }

    /** `indexOf(item)`: scan from the first node to the tail. */
    method IndexOf(item: T) returns (r: int)
      requires Valid()
      ensures r == FirstMatch(elems, item, itemEqual)
    {
      var current := next[HEAD];
      var i := 0;
      while current != TAIL
        invariant 0 <= i <= count && current == Chain()[i + 1]
        invariant forall k :: 0 <= k < i ==> !Equals(elems[k], item, itemEqual)
        decreases count - i
      {
        if Equals(data[current], item, itemEqual) {
          return i;
        }
        i := i + 1;
        current := next[current];
      }
      return -1;
    }

    /** `contains(item)`: whether some element equals `item`. */
    method Contains(item: T) returns (r: bool)
      requires Valid()
      ensures r <==> exists k :: 0 <= k < |elems| && Equals(elems[k], item, itemEqual)
      ensures r <==> FirstMatch(elems, item, itemEqual) != -1
    {
      var k := IndexOf(item);
      r := k != -1;
    }

    /**
     * `removeItem(item)`: unlink the first node whose element equals `item`
     * and report whether there was one.
     */
    method RemoveItem(item: T) returns (removed: bool)
      requires Valid()
      modifies this
      ensures Valid() && itemEqual == old(itemEqual)
      ensures removed <==> FirstMatch(old(elems), item, itemEqual) != -1
      ensures elems == RemovedFirst(old(elems), item, itemEqual)
      ensures !removed ==> unchanged(this)
      ensures removed ==> nodes == Removed(old(nodes), FirstMatch(old(elems), item, itemEqual))
    {
      var current := next[HEAD];
      ghost var i := 0;
      while current != TAIL
        invariant unchanged(this)
        invariant 0 <= i <= count && current == Chain()[i + 1]
        invariant forall k :: 0 <= k < i ==> !Equals(elems[k], item, itemEqual)
        decreases count - i
      {
        if Equals(data[current], item, itemEqual) {
          Unlink(current, i);
          return true;
        }
        current := next[current];
        i := i + 1;
      }
      return false;
    }

    /** `toString(item2str)`: "[e0, e1, ...]" with each element rendered by `render`. */
    method ToString(render: T -> string) returns (s: string)
      requires Valid()
      ensures s == Render(elems, render)
    {
      s := "[";
      var current := next[HEAD];
      ghost var i := 0;
      while current != TAIL
        invariant 0 <= i <= count && current == Chain()[i + 1]
        invariant s == "[" + Join(Parts(elems[..i], render)) + (if 0 < i < count then ", " else "")
        decreases count - i
      {
        RenderStep(elems, i, render, s);
        s := s + render(data[current]);
        current := next[current];
        if current != TAIL {
          s := s + ", ";
        }
        i := i + 1;
      }
      assert elems[..i] == elems;
      s := s + "]";
    }

    /**
     * `contains(array, size)`: walk the list and compare each element with
     * the array entry at the same position, stopping at the first mismatch.
     * `size` is never consulted, so the array must not run out before the
     * walk stops.
     */
    method ContainsArray(items: array<T>, size: int) returns (r: bool)
      requires Valid()
      requires |elems| <= items.Length || exists k :: 0 <= k < items.Length && !Equals(elems[k], items[k], itemEqual)
      ensures r <==> |elems| <= items.Length && forall k :: 0 <= k < |elems| ==> Equals(elems[k], items[k], itemEqual)
    {
      var idx := 0;
      var current := next[HEAD];
      while current != TAIL
        invariant 0 <= idx <= count && current == Chain()[idx + 1]
        invariant forall k :: 0 <= k < idx ==> k < items.Length && Equals(elems[k], items[k], itemEqual)
        decreases count - idx
      {
        if !Equals(data[current], items[idx], itemEqual) {
          return false;
        }
        idx := idx + 1;
        current := next[current];
      }
      return true;
    }

    /** `begin()`. */
    method Begin() returns (it: Iterator<T>)
      requires Valid()
      ensures fresh(it) && it.list == this && it.Valid() && it.pos == 1
    {
      it := new Iterator(this, true);
    }

    /** `end()`. */
    method End() returns (it: Iterator<T>)
      requires Valid()
      ensures fresh(it) && it.list == this && it.Valid() && it.pos == |Chain()| - 1
    {
      it := new Iterator(this, false);
    }

    /** `bbegin()`. */
    method BBegin() returns (it: BWDIterator<T>)
      requires Valid()
      ensures fresh(it) && it.list == this && it.Valid() && it.pos == |Chain()| - 2
    {
      it := new BWDIterator(this, true);
    }

    /** `bend()`. */
    method BEnd() returns (it: BWDIterator<T>)
      requires Valid()
      ensures fresh(it) && it.list == this && it.Valid() && it.pos == 0
    {
      it := new BWDIterator(this, false);
    }
  }

  /** Following `next` `k` times from the first node reaches the `k`-th element. */
  lemma ForwardOrder<T>(list: DLinkedList<T>, k: nat)
    requires list.Valid() && k < |list.elems|
    ensures Walk(list.next, list.next[HEAD], k) == list.nodes[k]
    ensures list.data[Walk(list.next, list.next[HEAD], k)] == list.elems[k]
  {
    WalkForward(list.Chain(), list.next, list.prev, 1, k);
  }

  /** Following `prev` `k` times from the last node reaches the `k`-th element from the end. */
  lemma BackwardOrder<T>(list: DLinkedList<T>, k: nat)
    requires list.Valid() && k < |list.elems|
    ensures Walk(list.prev, list.prev[TAIL], k) == list.nodes[|list.nodes| - 1 - k]
    ensures list.data[Walk(list.prev, list.prev[TAIL], k)] == list.elems[|list.elems| - 1 - k]
  {
    var c := list.Chain();
    WalkBackward(c, list.next, list.prev, |c| - 2, k);
  }

  /** Walking `next` from the head reaches the tail after exactly `count` real nodes. */
  lemma ReachesTail<T>(list: DLinkedList<T>)
    requires list.Valid()
    ensures Walk(list.next, HEAD, list.count + 1) == TAIL
    ensures forall k :: 0 <= k <= list.count ==> Walk(list.next, HEAD, k) != TAIL
  {
    var c := list.Chain();
    WalkForward(c, list.next, list.prev, 0, list.count + 1);
    forall k | 0 <= k <= list.count
      ensures Walk(list.next, HEAD, k) != TAIL
    {
      WalkForward(c, list.next, list.prev, 0, k);
    }
  }

  /** On the chain, `prev` undoes `next` and `next` undoes `prev`. */
  lemma LinksAgree<T>(list: DLinkedList<T>)
    requires list.Valid()
    ensures forall i :: 0 <= i < |list.Chain()| - 1 ==>
      list.Chain()[i] in list.next && list.next[list.Chain()[i]] in list.prev &&
      list.prev[list.next[list.Chain()[i]]] == list.Chain()[i]
    ensures forall i :: 0 < i < |list.Chain()| ==>
      list.Chain()[i] in list.prev && list.prev[list.Chain()[i]] in list.next &&
      list.next[list.prev[list.Chain()[i]]] == list.Chain()[i]
  {
    var c := list.Chain();
    forall i | 0 <= i < |c| - 1
      ensures c[i] in list.next && list.next[c[i]] in list.prev && list.prev[list.next[c[i]]] == c[i]
    {
      assert list.next[c[i]] == c[i + 1];
    }
    forall i | 0 < i < |c|
      ensures c[i] in list.prev && list.prev[c[i]] in list.next && list.next[list.prev[c[i]]] == c[i]
    {
      assert list.prev[c[i]] == c[i - 1];
    }
  }

  /** The forward iterator: a node of the chain, advanced along `next`. */
  class Iterator<T(==)> {
    var list: DLinkedList<T>
    var node: nat
    /** Where `node` stands in the chain of `list` (0 is the head). */
    ghost var pos: nat

    ghost predicate Valid()
      reads this, list
    {
      list.Valid() && pos < |list.Chain()| && node == list.Chain()[pos]
    }

    /** At the first node (`begin`) or at the tail (`end`). */
    constructor (list: DLinkedList<T>, begin: bool)
      requires list.Valid()
      ensures this.list == list && Valid()
      ensures pos == if begin then 1 else |list.Chain()| - 1
    {
      this.node := if begin then list.next[HEAD] else TAIL;
      this.list := list;
      this.pos := if begin then 1 else |list.Chain()| - 1;
    }

    /**
     * `remove()`: unlink the current node and move to its predecessor, so
     * that the next `++` reaches the removed node's successor.
     */
    method Remove()
      requires Valid() && 0 < pos < |list.Chain()| - 1
      modifies this, list
      ensures list == old(list) && Valid() && list.itemEqual == old(list.itemEqual)
      ensures list.elems == Removed(old(list.elems), old(pos) - 1)
      ensures list.nodes == Removed(old(list.nodes), old(pos) - 1)
      ensures pos == old(pos) - 1 && node == old(list.Chain())[old(pos) - 1]
      ensures list.next[node] == old(list.Chain())[old(pos) + 1]
    {
      list.Unlink(node, pos - 1);
      var pNext := list.prev[node];
      node := pNext;
      pos := pos - 1;
    }

    /** `operator*`: the element of the current node. */
    method Current() returns (x: T)
      requires Valid() && 0 < pos < |list.Chain()| - 1
      ensures x == list.elems[pos - 1]
    {
      x := list.data[node];
    }

    /**
     * `operator!=`: iterators differ when their nodes do; nodes of two
     * different lists are different nodes.
     */
    method NotEqual(other: Iterator<T>) returns (r: bool)
      ensures r <==> list != other.list || node != other.node
      ensures Valid() && other.Valid() && other.list == list ==> (r <==> pos != other.pos)
    {
      r := list != other.list || node != other.node;
    }

    /** `operator++`: move to the successor. */
    method Next()
      requires Valid() && node != TAIL
      modifies this
      ensures Valid() && list == old(list) && pos == old(pos) + 1
      ensures node == list.next[old(node)]
    {
      node := list.next[node];
      pos := pos + 1;
    }
  }

  /** The backward iterator: a node of the chain, advanced along `prev`. */
  class BWDIterator<T(==)> {
    var list: DLinkedList<T>
    var node: nat
    /** Where `node` stands in the chain of `list` (0 is the head). */
    ghost var pos: nat

    ghost predicate Valid()
      reads this, list
    {
      list.Valid() && pos < |list.Chain()| && node == list.Chain()[pos]
    }

    /** At the last node (`bbegin`) or at the head (`bend`). */
    constructor (list: DLinkedList<T>, begin: bool)
      requires list.Valid()
      ensures this.list == list && Valid()
      ensures pos == if begin then |list.Chain()| - 2 else 0
    {
      this.node := if begin then list.prev[TAIL] else HEAD;
      this.list := list;
      this.pos := if begin then |list.Chain()| - 2 else 0;
    }

    /**
     * `remove()`: unlink the current node and move to its successor, so
     * that the next `++` reaches the removed node's predecessor.
     */
    method Remove()
      requires Valid() && 0 < pos < |list.Chain()| - 1
      modifies this, list
      ensures list == old(list) && Valid() && list.itemEqual == old(list.itemEqual)
      ensures list.elems == Removed(old(list.elems), old(pos) - 1)
      ensures list.nodes == Removed(old(list.nodes), old(pos) - 1)
      ensures pos == old(pos) && node == old(list.Chain())[old(pos) + 1]
      ensures list.prev[node] == old(list.Chain())[old(pos) - 1]
    {
      list.Unlink(node, pos - 1);
      var pPrev := list.next[node];
      node := pPrev;
    }

    /** `operator*`: the element of the current node. */
    method Current() returns (x: T)
      requires Valid() && 0 < pos < |list.Chain()| - 1
      ensures x == list.elems[pos - 1]
    {
      x := list.data[node];
    }

    /**
     * `operator!=`: iterators differ when their nodes do; nodes of two
     * different lists are different nodes.
     */
    method NotEqual(other: BWDIterator<T>) returns (r: bool)
      ensures r <==> list != other.list || node != other.node
      ensures Valid() && other.Valid() && other.list == list ==> (r <==> pos != other.pos)
    {
      r := list != other.list || node != other.node;
    }

    /** `operator++`: move to the predecessor. */
    method Next()
      requires Valid() && node != HEAD
      modifies this
      ensures Valid() && list == old(list) && pos == old(pos) - 1
      ensures node == list.prev[old(node)]
    {
      node := list.prev[node];
      pos := pos - 1;
    }

    /** `operator--`: also moves to the predecessor, exactly as `++` does. */
    method Prev()
      requires Valid() && node != HEAD
      modifies this
      ensures Valid() && list == old(list) && pos == old(pos) - 1
      ensures node == list.prev[old(node)]
    {
      node := list.prev[node];
      pos := pos - 1;
    }
  }
}
