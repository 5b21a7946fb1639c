/**
 The doubly linked list of src/list.c, with its nodes and links. The ghost field `nodes` is
 the sequence of nodes in list order; every method says what becomes of it.
 */
module LinkedLists {
  import opened ListSpec

  class ListNode {
    var value: string
    var next: ListNode?
    var prev: ListNode?

    constructor (value: string)
      ensures this.value == value && next == null && prev == null
    {
      this.value := value;
      next := null;
      prev := null;
    }
  }

  /** The node at position `i`, or null beyond either end. */
  ghost function Nth(nodes: seq<ListNode>, i: int): ListNode? {
    if 0 <= i < |nodes| then nodes[i] else null
  }

  ghost function ValuesOf(nodes: seq<ListNode>): (r: seq<string>)
    reads nodes
    ensures |r| == |nodes| && forall i {:trigger r[i]} :: 0 <= i < |nodes| ==> r[i] == nodes[i].value
  {
    seq(|nodes|, i requires 0 <= i < |nodes| reads nodes => nodes[i].value)
  }

  /** Node `i` points to its neighbours in the sequence, and to null beyond either end. */
  ghost predicate LinkAt(nodes: seq<ListNode>, i: int)
    requires 0 <= i < |nodes|
    reads nodes
  {
    nodes[i].next == Nth(nodes, i + 1) && nodes[i].prev == Nth(nodes, i - 1)
  }

  ghost predicate Differ(nodes: seq<ListNode>, i: int, j: int)
    requires 0 <= i < |nodes| && 0 <= j < |nodes|
  {
    nodes[i] != nodes[j]
  }

  /** Where `k` steps along the links of `within` lead from `start`, forward or backward. */
  ghost function Walk(start: ListNode?, k: nat, forward: bool, within: set<ListNode>): ListNode?
    reads within
  {
    if k == 0 then start
    else
      var n := Walk(start, k - 1, forward, within);
      if n == null || n !in within then null
      else if forward then n.next else n.prev
  }

  class List {
    var len: int
    var head: ListNode?
    var tail: ListNode?
    ghost var nodes: seq<ListNode>

    /** Following `next` from the head and `prev` from the tail visits `nodes` and its mirror image. */
    ghost predicate Linked()
      reads this, nodes
    {
      && head == Nth(nodes, 0)
      && tail == Nth(nodes, |nodes| - 1)
      && (forall i :: 0 <= i < |nodes| ==> LinkAt(nodes, i))
      && (forall i, j :: 0 <= i < j < |nodes| ==> Differ(nodes, i, j))
    }

    ghost predicate Valid()
      reads this, nodes
    {
      Linked() && len == |nodes|
    }

    ghost function Values(): (r: seq<string>)
      reads this, nodes
      ensures |r| == |nodes|
    {
      ValuesOf(nodes)
    }

    /** The nodes as a set, for walking. */
    ghost function Members(): set<ListNode>
      reads this
    {
      set n | n in nodes
    }

    /** From the head the `k`-th node is met, from the tail the `k`-th from the end, and null after the last. */
    lemma {:induction false} WalkVisits(k: nat)
      requires Valid() && k <= len
      ensures Walk(head, k, true, Members()) == Nth(nodes, k)
      ensures Walk(tail, k, false, Members()) == Nth(nodes, |nodes| - 1 - k)
    {
      if k > 0 {
        WalkVisits(k - 1);
        assert LinkAt(nodes, k - 1) && LinkAt(nodes, |nodes| - k);
      }
    }

    /**
     The two walks are mirror images: a forward walk and a backward walk of `len` nodes meet the
     same nodes in opposite order, both end after exactly `len` steps, and the end nodes have null outer links.
     */
    lemma WalksMirror(k: nat)
      requires Valid() && k < len
      ensures Walk(head, k, true, Members()) == Walk(tail, len - 1 - k, false, Members()) != null
      ensures Walk(head, len, true, Members()) == null == Walk(tail, len, false, Members())
      ensures head != null && head.prev == null && tail != null && tail.next == null
    {
      WalkVisits(k);
      WalkVisits(len - 1 - k);
      WalkVisits(len);
      assert LinkAt(nodes, 0) && LinkAt(nodes, |nodes| - 1);
    }

    constructor ()
      ensures Valid() && nodes == [] && Values() == []
    {
      len := 0;
      head := null;
      tail := null;
      nodes := [];
    }

    method LPush(value: string)
      requires Valid()
      modifies this, nodes
      ensures Valid() && Values() == [value] + old(Values())
      ensures |nodes| > 0 && fresh(nodes[0]) && nodes == [nodes[0]] + old(nodes)
    {
      hide ValuesOf;
      ghost var before := nodes;
      var node := new ListNode(value);
      if len > 0 {
        assert LinkAt(before, 0);
        node.next := head;
        head.prev := node;
        head := node;
      } else {
        head := node;
        tail := node;
      }
      len := len + 1;
      nodes := [node] + before;
      forall i | 0 <= i < |nodes|
        ensures LinkAt(nodes, i)
      {
        if i > 0 {
          assert nodes[i] == before[i - 1] && old(LinkAt(before, i - 1));
          assert i > 1 ==> Differ(before, 0, i - 1);
        }
      }
      forall i, j | 0 <= i < j < |nodes|
        ensures Differ(nodes, i, j)
      {
        assert i > 0 ==> Differ(before, i - 1, j - 1);
      }
    }

    method RPush(value: string)
      requires Valid()
      modifies this, nodes
      ensures Valid() && Values() == old(Values()) + [value]
      ensures |nodes| > 0 && fresh(nodes[|nodes| - 1]) && nodes == old(nodes) + [nodes[|nodes| - 1]]
    {
      hide ValuesOf;
      ghost var before := nodes;
      var node := new ListNode(value);
      if len > 0 {
        assert LinkAt(before, |before| - 1);
        node.prev := tail;
        tail.next := node;
        tail := node;
      } else {
        tail := node;
        head := node;
      }
      len := len + 1;
      nodes := before + [node];
      forall i | 0 <= i < |nodes|
        ensures LinkAt(nodes, i)
      {
        if i < |before| {
          assert nodes[i] == before[i] && old(LinkAt(before, i));
          assert i < |before| - 1 ==> Differ(before, i, |before| - 1);
        }
      }
      forall i, j | 0 <= i < j < |nodes|
        ensures Differ(nodes, i, j)
      {
        assert j < |before| ==> Differ(before, i, j);
      }
    }

    method LPop() returns (node: ListNode?)
      requires Valid()
      modifies this, nodes
      ensures Valid()
      ensures node == null <==> old(nodes) == []
      ensures node == null ==> nodes == old(nodes)
      ensures node != null ==> node == old(nodes)[0] && nodes == old(nodes)[1..] && node.next == null == node.prev
      ensures node != null ==> node.value == old(Values())[0] && Values() == old(Values())[1..]
    {
      hide ValuesOf;
      ghost var before := nodes;
      if len <= 0 {
        return null;
      }
      node := head;
      assert LinkAt(before, 0);
      if len - 1 > 0 {
        head := node.next;
        head.prev := null;
      } else {
        head := null;
        tail := null;
      }
      len := len - 1;
      node.next := null;
      node.prev := null;
      nodes := before[1..];
      forall i | 0 <= i < |nodes|
        ensures LinkAt(nodes, i)
      {
        assert nodes[i] == before[i + 1] && old(LinkAt(before, i + 1));
        assert Differ(before, 0, i + 1) && (i > 0 ==> Differ(before, 1, i + 1));
      }
      forall i, j | 0 <= i < j < |nodes|
        ensures Differ(nodes, i, j)
      {
        assert Differ(before, i + 1, j + 1);
      }
    }

    method RPop() returns (node: ListNode?)
      requires Valid()
      modifies this, nodes
      ensures Valid()
      ensures node == null <==> old(nodes) == []
      ensures node == null ==> nodes == old(nodes)
      ensures node != null ==>
        && node == old(nodes)[|old(nodes)| - 1] && nodes == old(nodes)[..|old(nodes)| - 1]
        && node.next == null == node.prev
      ensures node != null ==>
        node.value == old(Values())[|old(nodes)| - 1] && Values() == old(Values())[..|old(nodes)| - 1]
    {
      hide ValuesOf;
      ghost var before := nodes;
      if len <= 0 {
        return null;
      }
      node := tail;
      ghost var last := |before| - 1;
      assert LinkAt(before, last);
      if len - 1 > 0 {
        tail := node.prev;
        tail.next := null;
      } else {
        head := null;
        tail := null;
      }
      len := len - 1;
      node.next := null;
      node.prev := null;
      nodes := before[..last];
      forall i | 0 <= i < |nodes|
        ensures LinkAt(nodes, i)
      {
        assert nodes[i] == before[i] && old(LinkAt(before, i));
        assert Differ(before, i, last) && (i < last - 1 ==> Differ(before, i, last - 1));
      }
      forall i, j | 0 <= i < j < |nodes|
        ensures Differ(nodes, i, j)
      {
        assert Differ(before, i, j);
      }
    }

    /** The node a walk of `id` links ends at; a negative `id` walks no link. */
    ghost function NodeAt(id: int): ListNode?
      reads this
    {
      Nth(nodes, if id < 0 then 0 else id)
    }

    method Index(id: int) returns (cur: ListNode?)
      requires Valid()
      ensures cur == NodeAt(id)
    {
      var i := 0;
      cur := head;
      while i < id && cur != null
        invariant 0 <= i
        invariant cur == NodeAt(i)
        invariant i <= id || i == 0
      {
        assert LinkAt(nodes, i);
        cur := cur.next;
        i := i + 1;
      }
    }

    method Set(id: int, value: string) returns (ok: bool)
      requires Valid()
      modifies nodes
      ensures Valid()
      ensures ok <==> nodes != [] && id < |nodes|
      ensures ok ==> Values() == old(Values())[if id < 0 then 0 else id := value]
      ensures !ok ==> Values() == old(Values())
    {
      hide ValuesOf;
      var cur := Index(id);
      if cur == null {
        return false;
      }
      ghost var k := if id < 0 then 0 else id;
      cur.value := value;
      forall i | 0 <= i < |nodes|
        ensures LinkAt(nodes, i) && Values()[i] == old(Values())[k := value][i]
      {
        assert old(LinkAt(nodes, i));
        DifferFromOthers(nodes, i, k);
      }
      return true;
    }

    /** The index of the first occurrence, or -1. */
    method Pos(value: string) returns (r: int)
      requires Valid()
      ensures r == -1 <==> value !in Values()
      ensures r != -1 ==> 0 <= r < |Values()| && Values()[r] == value && value !in Values()[..r]
    {
      var i := 0;
      var cur := head;
      while cur != null
        invariant 0 <= i <= |nodes|
        invariant cur == NodeAt(i)
        invariant value !in Values()[..i]
        decreases |nodes| - i
      {
        if cur.value == value {
          assert Values()[i] == value;
          return i;
        }
        assert LinkAt(nodes, i);
        cur := cur.next;
        i := i + 1;
      }
      return -1;
    }

    /** The values from index `begin` to index `end`, both included. */
    method Range(begin: int, end: int) returns (res: seq<string>)
      requires Valid() && 0 <= begin <= end < len
      ensures res == Values()[begin..end + 1]
    {
      var cur := head;
      var id := 0;
      while id < begin
        invariant 0 <= id <= begin
        invariant cur == NodeAt(id)
      {
        assert LinkAt(nodes, id);
        id := id + 1;
        cur := cur.next;
      }
      res := [];
      while id <= end
        invariant begin <= id <= end + 1
        invariant cur == NodeAt(id)
        invariant res == Values()[begin..id]
      {
        res := res + [cur.value];
        assert LinkAt(nodes, id);
        id := id + 1;
        cur := cur.next;
      }
    }

    ghost function WithoutNode(k: nat): seq<ListNode>
      requires k < |nodes|
      reads this
    {
      nodes[..k] + nodes[k + 1..]
    }

    /** Unlinks node `k`; the node keeps its own links, and the caller adjusts `len`. */
    method NodeDel(node: ListNode, ghost k: nat)
      requires Valid() && k < |nodes| && node == nodes[k]
      modifies this, nodes
      ensures Linked() && nodes == old(WithoutNode(k)) && len == old(len)
      ensures node.next == Nth(old(nodes), k + 1) && node.prev == Nth(old(nodes), k - 1)
      ensures forall n :: n in old(nodes) ==> n.value == old(n.value)
    {
      ghost var before := nodes;
      assert LinkAt(before, k);
      if len - 1 == 0 {
        head := null;
        tail := null;
        nodes := [];
        return;
      }
      if node == head {
        assert k > 0 ==> Differ(before, 0, k);
        head := node.next;
        head.prev := null;
      } else if node == tail {
        assert k < |before| - 1 ==> Differ(before, k, |before| - 1);
        tail := node.prev;
        tail.next := null;
      } else {
        node.prev.next := node.next;
        node.next.prev := node.prev;
      }
      nodes := before[..k] + before[k + 1..];
      forall i | 0 <= i < |nodes|
        ensures LinkAt(nodes, i)
      {
        var m := if i < k then i else i + 1;
        assert nodes[i] == before[m] && old(LinkAt(before, m));
        DifferFromOthers(before, m, k);
        if k > 0 {
          DifferFromOthers(before, m, k - 1);
        }
        if k + 1 < |before| {
          DifferFromOthers(before, m, k + 1);
        }
      }
      forall i, j | 0 <= i < j < |nodes|
        ensures Differ(nodes, i, j)
      {
        assert Differ(before, if i < k then i else i + 1, if j < k then j else j + 1);
      }
    }

    static lemma DifferFromOthers(nodes: seq<ListNode>, m: int, k: int)
      requires 0 <= m < |nodes| && 0 <= k < |nodes|
      requires forall i, j :: 0 <= i < j < |nodes| ==> Differ(nodes, i, j)
      ensures m != k ==> nodes[m] != nodes[k]
    {
      assert m < k ==> Differ(nodes, m, k);
      assert k < m ==> Differ(nodes, k, m);
    }

    /** What is left of `all` when the first `j` nodes in walking order were visited and `kept` of them kept. */
    static ghost function Left(all: seq<ListNode>, j: nat, kept: seq<ListNode>, forward: bool): seq<ListNode>
      requires j <= |all|
    {
      if forward then kept + all[j..] else all[..|all| - j] + kept
    }

    /** The `j`-th node in walking order. */
    static ghost function Visited(all: seq<ListNode>, j: nat, forward: bool): ListNode? {
      Nth(all, if forward then j else |all| - 1 - j)
    }

    /** Position `k` of what is left is the next node to visit. */
    static lemma LeftAt(all: seq<ListNode>, j: nat, kept: seq<ListNode>, forward: bool) returns (k: nat)
      requires j < |all|
      ensures var left := Left(all, j, kept, forward);
              && k < |left| && left[k] == Visited(all, j, forward)
              && Nth(left, if forward then k + 1 else k - 1) == Visited(all, j + 1, forward)
              && left[..k] + left[k + 1..] == Left(all, j + 1, kept, forward)
              && left == Left(all, j + 1, Keep(kept, left[k], forward), forward)
    {
      k := if forward then |kept| else |all| - 1 - j;
      var left := Left(all, j, kept, forward);
      if forward {
        assert left[..k] + left[k + 1..] == kept + all[j + 1..];
        assert left == (kept + [all[j]]) + all[j + 1..];
      } else {
        assert left[..k] + left[k + 1..] == all[..|all| - j - 1] + kept;
        assert left == all[..|all| - j - 1] + ([all[k]] + kept);
      }
    }

    static lemma LeftValues(all: seq<ListNode>, j: nat, kept: seq<ListNode>, forward: bool)
      requires j <= |all|
      ensures ValuesOf(Left(all, j, kept, forward)) ==
              if forward then ValuesOf(kept) + ValuesOf(all)[j..] else ValuesOf(all)[..|all| - j] + ValuesOf(kept)
    {
    }

    /** One visit of the removal loop: unlinks the node if it matches; no node changes its value. */
    method DeleteIfMatch(node: ListNode, value: string, ghost k: nat, ghost all: seq<ListNode>,
                         ghost kept: seq<ListNode>)
      returns (flag: bool)
      requires Valid() && k < |nodes| && node == nodes[k]
      modifies this, nodes
      ensures Valid() && flag == (old(node.value) == value)
      ensures nodes == if flag then old(nodes)[..k] + old(nodes)[k + 1..] else old(nodes)
      ensures forall n :: n in nodes ==> n in old(nodes)
      ensures node.next == Nth(old(nodes), k + 1) && node.prev == Nth(old(nodes), k - 1)
      ensures ValuesOf(all) == old(ValuesOf(all)) && ValuesOf(kept) == old(ValuesOf(kept))
      ensures node.value == old(node.value)
    {
      assert LinkAt(nodes, k);
      flag := node.value == value;
      if flag {
        NodeDel(node, k);
        len := len - 1;
        assert forall n: ListNode :: n in all + kept + [node] ==> n.value == old(n.value);
        SameValues(all);
        SameValues(kept);
      }
    }

    lemma PassStart(forward: bool)
      requires Valid()
      ensures nodes == Left(nodes, 0, [], forward)
      ensures (if forward then head else tail) == Visited(nodes, 0, forward)
    {
    }

    static lemma PassEnds(all: seq<ListNode>, j: nat, forward: bool)
      requires j <= |all|
      ensures Visited(all, j, forward) == null <==> j == |all|
    {
    }

    static lemma VisitedHolds(all: seq<ListNode>, vals: seq<string>, j: nat, total: int, node: ListNode)
      requires j < |all| && vals == ValuesOf(all) && node == Visited(all, j, total >= 0)
      ensures |vals| == |all| && VisitedValue(vals, j, total) == node.value
    {
    }

    static lemma KeepValues(kept: seq<ListNode>, node: ListNode, forward: bool)
      ensures ValuesOf(Keep(kept, node, forward)) == Keep(ValuesOf(kept), node.value, forward)
    {
    }

    /** LREM: removes matches walking from the head, or from the tail when `count` is negative. */
    method Rem(count: int, value: string) returns (removed: int)
      requires Valid()
      modifies this, nodes
      ensures Valid()
      ensures ValuesOf(nodes) == ListSpec.Rem(old(ValuesOf(nodes)), count, value)
      ensures removed == RemCount(old(ValuesOf(nodes)), count, value)
      ensures forall i :: 0 <= i < |nodes| ==> nodes[i] in old(nodes)
    {
      hide *;
      ghost var all, vals := nodes, ValuesOf(nodes);
      ghost var kept: seq<ListNode>, values: seq<string>, j: nat := [], [], 0;
      var i, pos, c := 0, count, count;
      var cur := if count >= 0 then head else tail;
      ProgressStart(vals, count, value);
      PassStart(count >= 0);
      while cur != null
        invariant j <= |all| && Valid()
        invariant nodes == Left(all, j, kept, count >= 0)
        invariant forall i :: 0 <= i < |nodes| ==> nodes[i] in all
        invariant ValuesOf(all) == vals && ValuesOf(kept) == values
        invariant cur == Visited(all, j, count >= 0)
        invariant Progress(vals, count, value, j, c, values, i)
        decreases |all| - j
      {
        if pos != 0 && c == 0 {
          break;
        }
        var node: ListNode := cur;
        PassEnds(all, j, count >= 0);
        VisitedHolds(all, vals, j, count, node);
        ghost var k := LeftAt(all, j, kept, count >= 0);
        ProgressStep(vals, count, value, j, c, values, i);
        var flag := DeleteIfMatch(node, value, k, all, kept);
        if flag {
          i := i + 1;
          c := if pos >= 0 then c - 1 else c + 1;
        } else {
          KeepValues(kept, node, count >= 0);
          values := Keep(values, node.value, count >= 0);
          kept := Keep(kept, node, count >= 0);
        }
        cur := if pos >= 0 then node.next else node.prev;
        j := j + 1;
      }
      PassEnds(all, j, count >= 0);
      ProgressDone(vals, count, value, j, c, values, i);
      LeftValues(all, j, kept, count >= 0);
      return i;
    }
  }

  twostate lemma SameValues(nodes: seq<ListNode>)
    requires forall n :: n in nodes ==> n.value == old(n.value)
    ensures ValuesOf(nodes) == old(ValuesOf(nodes))
  {
  }
}
