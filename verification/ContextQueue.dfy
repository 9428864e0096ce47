/** The scheduler's queue of contexts, libs/scheduler/contextQueue.c: a doubly linked list updated in place. */
module ContextQueues {
  import opened Sequences
  import opened Wrappers

  /** Where `c` first is in `q`; the length of `q` if nowhere. */
  function IndexIn(q: seq<nat>, c: nat): (i: nat)
    ensures i <= |q| && (i < |q| ==> q[i] == c)
    ensures forall j | 0 <= j < i :: q[j] != c
  {
    if q == [] || q[0] == c then 0 else 1 + IndexIn(q[1..], c)
  }

  lemma IndexIs(q: seq<nat>, c: nat, k: nat)
    requires k <= |q| && (k < |q| ==> q[k] == c) && forall j | 0 <= j < k :: q[j] != c
    ensures IndexIn(q, c) == k
  {
  }

  class ContextNode {
    const context: nat
    var next: ContextNode?
    var prev: ContextNode?

    constructor (context: nat)
      ensures this.context == context && next == null && prev == null
    {
      this.context := context;
      next, prev := null, null;
    }
  }

  function NodeAt(s: seq<ContextNode>, i: int): ContextNode? {
    if 0 <= i < |s| then s[i] else null
  }

  ghost predicate Distinct(s: seq<ContextNode>) {
    forall i, j | 0 <= i < j < |s| :: s[i] != s[j]
  }

  class ContextQueue {
    var first: ContextNode?
    var last: ContextNode?
    ghost var nodes: set<ContextNode>
    ghost var list: seq<ContextNode>

    ghost predicate Forward(l: seq<ContextNode>)
      requires forall i | 0 <= i < |l| :: l[i] in nodes
      reads `first, `nodes, nodes`next
    {
      first == NodeAt(l, 0) && forall i {:trigger l[i].next} | 0 <= i < |l| :: l[i].next == NodeAt(l, i + 1)
    }

    ghost predicate Backward(l: seq<ContextNode>)
      requires forall i | 0 <= i < |l| :: l[i] in nodes
      reads `last, `nodes, nodes`prev
    {
      last == NodeAt(l, |l| - 1) && forall i {:trigger l[i].prev} | 0 <= i < |l| :: l[i].prev == NodeAt(l, i - 1)
    }

    /** `list` lists the linked nodes from first to last. */
    ghost predicate Valid()
      reads this, nodes
    {
      Distinct(list) && (forall i | 0 <= i < |list| :: list[i] in nodes) && Forward(list) && Backward(list)
    }

    ghost function Contexts(): (q: seq<nat>)
      reads this
      ensures |q| == |list|
    {
      seq(|list|, i requires 0 <= i < |list| reads this => list[i].context)
    }

    constructor ()
      ensures Valid() && Contexts() == [] && nodes == {}
    {
      first, last := null, null;
      nodes, list := {}, [];
    }

    /** PackosContextQueueInsert: at the front. */
    method Insert(context: nat)
      requires Valid()
      modifies this, nodes`prev
      ensures Valid() && fresh(nodes - old(nodes)) && Contexts() == [context] + old(Contexts())
    {
      var node := new ContextNode(context);
      node.next := first;
      if node.next != null {
        node.next.prev := node;
      } else {
        last := node;
      }
      first := node;
      ghost var b := list;
      list, nodes := [node] + b, nodes + {node};
      assert forall i | 0 < i < |list| :: list[i] == b[i - 1];
    }

    /** PackosContextQueueAppend: at the back. */
    method Append(context: nat)
      requires Valid()
      modifies this, nodes`next
      ensures Valid() && fresh(nodes - old(nodes)) && Contexts() == old(Contexts()) + [context]
    {
      var node := new ContextNode(context);
      node.prev := last;
      if node.prev != null {
        node.prev.next := node;
      } else {
        first := node;
      }
      last := node;
      ghost var b := list;
      list, nodes := b + [node], nodes + {node};
      assert forall i | 0 <= i < |b| :: list[i] == b[i];
    }

    /** PackosContextQueueSeek: the first node of this context. */
    method Seek(context: nat) returns (node: ContextNode?)
      requires Valid()
      ensures node == NodeAt(list, IndexIn(Contexts(), context))
    {
      ghost var k: nat := 0;
      node := first;
      while node != null && node.context != context
        invariant k <= |list| && node == NodeAt(list, k)
        invariant forall j | 0 <= j < k :: Contexts()[j] != context
        decreases |list| - k
      {
        assert node == list[k];
        node := node.next;
        k := k + 1;
      }
      IndexIs(Contexts(), context, k);
    }

    method UnlinkBackward(node: ContextNode, ghost k: nat)
      requires Valid() && k < |list| && node == list[k]
      modifies `last, nodes`prev
      ensures Backward(Without(list, k)) && node.prev == old(node.prev)
    {
      ghost var r := Without(list, k);
      assert node.next == NodeAt(list, k + 1) && node.prev == NodeAt(list, k - 1);
      if node.next != null {
        node.next.prev := node.prev;
      } else {
        last := node.prev;
      }
      forall i {:trigger r[i].prev} | 0 <= i < |r|
        ensures r[i].prev == NodeAt(r, i - 1)
      {
        assert r[i] == list[if i < k then i else i + 1];
      }
    }

    method UnlinkForward(node: ContextNode, ghost k: nat)
      requires Distinct(list) && (forall i | 0 <= i < |list| :: list[i] in nodes) && Forward(list)
      requires k < |list| && node == list[k] && node.prev == NodeAt(list, k - 1)
      modifies `first, nodes`next
      ensures Forward(Without(list, k))
    {
      ghost var r := Without(list, k);
      assert node.next == NodeAt(list, k + 1);
      if node.prev != null {
        node.prev.next := node.next;
      } else {
        first := node.next;
      }
      forall i {:trigger r[i].next} | 0 <= i < |r|
        ensures r[i].next == NodeAt(r, i + 1)
      {
        assert r[i] == list[if i < k then i else i + 1];
      }
    }

    /** Unhook a node; it keeps its own links. */
    method Unlink(node: ContextNode, ghost k: nat)
      requires Valid() && k < |list| && node == list[k]
      modifies this, nodes`next, nodes`prev
      ensures Valid() && nodes == old(nodes) && list == Without(old(list), k)
    {
      assert node.prev == NodeAt(list, k - 1);
      UnlinkBackward(node, k);
      UnlinkForward(node, k);
      list := Without(list, k);
    }

    /** PackosContextQueueRemove: the first occurrence. */
    method Remove(context: nat) returns (ok: bool)
      requires Valid()
      modifies this, nodes`next, nodes`prev
      ensures Valid() && nodes == old(nodes) && ok == (context in old(Contexts()))
      ensures Contexts() == if ok then Without(old(Contexts()), IndexIn(old(Contexts()), context)) else old(Contexts())
    {
      var node := Seek(context);
      ghost var k := IndexIn(Contexts(), context);
      if node == null {
        return false;
      }
      assert Contexts()[k] == context;
      Unlink(node, k);
      ok := true;
    }

    /** PackosContextQueueHead: no context if the queue is empty. */
    method Head() returns (context: Option<nat>)
      requires Valid()
      ensures context == if Contexts() == [] then None else Some(Contexts()[0])
    {
      if first == null {
        return None;
      }
      assert first == list[0];
      context := Some(first.context);
    }

    /** PackosContextQueueLen. */
    method Len() returns (n: nat)
      requires Valid()
      ensures n == |Contexts()|
    {
      var cur := first;
      n := 0;
      while cur != null
        invariant n <= |list| && cur == NodeAt(list, n)
        decreases |list| - n
      {
        assert cur == list[n];
        cur := cur.next;
        n := n + 1;
      }
    }
  }
}
