/** Buffer groups: an ordered doubly-linked list whose nodes are relinked in place. */
module BufferGroup {
  import opened StableOrder

  class Node {
    var next: Node?
    var prev: Node?
    const stream: int
    var args: int  // the field the order expression looks at; rules may change it

    constructor (stream: int, args: int)
      ensures next == null && prev == null && this.stream == stream && this.args == args
    {
      next, prev := null, null;
      this.stream, this.args := stream, args;
    }
  }

  class Group {
    var head: Node?
    var tail: Node?
    var size: int
    ghost var nodes: seq<Node>
    ghost var repr: set<Node>

    ghost predicate Valid()
      reads this, repr
    {
      Ends() && Linked()
    }

    ghost predicate Ends()
      reads this`head, this`tail, this`size, this`nodes
    {
      size == |nodes|
      && if nodes == [] then head == null && tail == null else head == nodes[0] && tail == nodes[|nodes| - 1]
    }

    ghost predicate Linked()
      reads this`nodes, this`repr, repr`next, repr`prev
    {
      (forall i :: 0 <= i < |nodes| ==> nodes[i] in repr)
      && (forall i, j :: 0 <= i < j < |nodes| ==> nodes[i] != nodes[j])
      && (forall i {:trigger nodes[i].next} :: 0 <= i < |nodes| ==>
            nodes[i].next == if i + 1 < |nodes| then nodes[i + 1] else null)
      && (forall i {:trigger nodes[i].prev} :: 0 <= i < |nodes| ==>
            nodes[i].prev == if i > 0 then nodes[i - 1] else null)
    }

    /** `init_buffer_group` */
    constructor ()
      ensures Valid() && nodes == [] && repr == {}
    {
      head, tail, size, nodes, repr := null, null, 0, [], {};
    }

    ghost function Keys(): (k: seq<int>)
      requires Valid()
      reads this, repr
      ensures |k| == |nodes| && forall i :: 0 <= i < |k| ==> k[i] == nodes[i].args
    {
      seq(|nodes|, i requires 0 <= i < |nodes| && Valid() reads this, repr => nodes[i].args)
    }

    // Re-sorting ------------------------------------------------------------------------------

    /** `swap_dll_node` */
    method SwapNodes(node1: Node, node2: Node, ghost p: nat)
      requires Linked() && p + 1 < |nodes| && node1 == nodes[p] && node2 == nodes[p + 1]
      modifies this`nodes, repr`next, repr`prev
      ensures Linked() && nodes == Swap(old(nodes), p)
    {
      assert nodes[p].prev == node1.prev && nodes[p + 1].next == node2.next;
      var before, after := node1.prev, node2.next;
      if before != null {
        before.next := node2;
      }
      node1.prev := node2;
      node1.next := after;
      node2.prev := before;
      node2.next := node1;
      if after != null {
        after.prev := node1;
      }
      nodes := Swap(nodes, p);
    }

    /** The branch of `bg_update` that exchanges two neighbours. */
    method Exchange(prev: Node, current: Node, ghost p: nat)
      requires Valid() && p + 1 < |nodes| && prev == nodes[p] && current == nodes[p + 1]
      modifies this`head, this`tail, this`nodes, repr`next, repr`prev
      ensures Valid() && nodes == Swap(old(nodes), p)
    {
      if prev == head {
        head := current;
      }
      if current == tail {
        tail := prev;
      }
      SwapNodes(prev, current, p);
    }

    /** The list holds the nodes of `original`, whose keys are `keys`, arranged by `perm`. */
    ghost predicate Holds(original: seq<Node>, keys: seq<int>, perm: seq<nat>)
      reads this`nodes, repr`args, this`repr
    {
      |keys| == |original| && IsPerm(perm, |original|) && nodes == Arranged(original, perm)
      && (forall i :: 0 <= i < |original| ==> original[i] in repr)
      && forall i :: 0 <= i < |original| ==> original[i].args == keys[i]
    }

    /** Compares two neighbours and exchanges them if needed. */
    method CompareAt(order: (int, int) -> bool, prev: Node, ghost p: nat,
                     ghost original: seq<Node>, ghost keys: seq<int>, ghost perm: seq<nat>)
      returns (next: Node?, swapped: bool)
      requires Asymmetric(order) && Fair(order, keys, perm)
      requires Valid() && Holds(original, keys, perm) && p + 1 < |nodes| && prev == nodes[p]
      modifies this`head, this`tail, this`nodes, repr`next, repr`prev
      ensures Valid() && swapped == Late(order, keys[perm[p]], keys[perm[p + 1]])
      ensures Holds(original, keys, if swapped then Swap(perm, p) else perm)
      ensures next == if !swapped then nodes[p + 1] else if p + 2 < |nodes| then nodes[p + 2] else null
    {
      var current := prev.next;
      assert nodes[p].next == current;
      swapped := Late(order, prev.args, current.args);
      if swapped {
        ExchangeFacts(order, keys, perm, p, original);
        Exchange(prev, current, p);
        next := prev.next;
        assert nodes[p + 1].next == next;
      } else {
        next := current;
      }
    }

    /** The list in the middle of a pass, at the node `prev`. */
    ghost predicate InPass(order: (int, int) -> bool, original: seq<Node>, keys: seq<int>, start: seq<nat>,
                           perm: seq<nat>, prev: Node?, p: nat, change: bool)
      reads this, repr
    {
      Valid() && Holds(original, keys, perm) && Sweeping(order, keys, start, perm, p, change)
      && p <= |nodes| && prev == if p < |nodes| then nodes[p] else null
    }

    /** One turn of the inner loop. */
    method PassStep(order: (int, int) -> bool, prev: Node, change: bool, ghost p: nat,
                    ghost original: seq<Node>, ghost keys: seq<int>, ghost start: seq<nat>, ghost perm: seq<nat>)
      returns (prev': Node?, change': bool, ghost p': nat, ghost perm': seq<nat>)
      requires Asymmetric(order) && InPass(order, original, keys, start, perm, prev, p, change) && prev.next != null
      modifies this`head, this`tail, this`nodes, repr`next, repr`prev
      ensures InPass(order, original, keys, start, perm', prev', p', change') && p < p' && |nodes| == |old(nodes)|
    {
      var swapped;
      assert nodes[p].next != null;
      SweepingStep(order, keys, start, perm, p, change);
      prev', swapped := CompareAt(order, prev, p, original, keys, perm);
      perm' := if swapped then Swap(perm, p) else perm;
      change' := change || swapped;
      p' := if swapped then p + 2 else p + 1;
    }

    /** One pass, as `Sweep` describes it.  After an exchange it skips a comparison, so only a
        pass without any exchange shows that the list is sorted. */
    method Pass(order: (int, int) -> bool, ghost original: seq<Node>, ghost keys: seq<int>, ghost perm: seq<nat>)
      returns (change: bool, ghost perm': seq<nat>)
      requires Asymmetric(order) && Fair(order, keys, perm) && Valid() && Holds(original, keys, perm)
      modifies this`head, this`tail, this`nodes, repr`next, repr`prev
      ensures Valid() && Fair(order, keys, perm') && Holds(original, keys, perm')
      ensures Arranged(keys, perm') == Sweep(order, Arranged(keys, perm), 0)
      ensures change <==> !NeighboursSorted(order, Arranged(keys, perm))
      ensures change ==> Disorder(order, keys, perm') < Disorder(order, keys, perm)
      ensures !change ==> perm' == perm
    {
      perm' := perm;
      change := false;
      var prev := head;
      ghost var p := 0;
      while prev != null && prev.next != null
        invariant InPass(order, original, keys, perm, perm', prev, p, change) && |nodes| == |old(nodes)|
        decreases |nodes| - p
      {
        prev, change, p, perm' := PassStep(order, prev, change, p, original, keys, perm, perm');
      }
      assert p < |nodes| ==> nodes[p].next == null;
      SweepingEnds(order, keys, perm, perm', p, change);
    }

    /** After the passes of `trail` over nodes that were `original` and had the keys `keys`. */
    ghost predicate AfterPasses(order: (int, int) -> bool, original: seq<Node>, keys: seq<int>, perm: seq<nat>,
                                trail: seq<seq<int>>)
      reads this, repr
    {
      Valid() && Fair(order, keys, perm) && Holds(original, keys, perm)
      && IsTrail(order, trail) && trail[0] == keys && trail[|trail| - 1] == Arranged(keys, perm)
    }

    method Begin(order: (int, int) -> bool) returns (ghost keys: seq<int>, ghost perm: seq<nat>)
      requires Valid()
      ensures |keys| == |nodes| && forall i :: 0 <= i < |keys| ==> keys[i] == nodes[i].args
      ensures AfterPasses(order, nodes, keys, perm, [keys])
    {
      keys, perm := Keys(), Unmoved(|nodes|);
      UnmovedFacts(order, keys, nodes);
    }

    /** One turn of the outer loop. */
    method NextPass(order: (int, int) -> bool, ghost original: seq<Node>, ghost keys: seq<int>, ghost perm: seq<nat>,
                    ghost trail: seq<seq<int>>)
      returns (change: bool, ghost perm': seq<nat>, ghost trail': seq<seq<int>>)
      requires Asymmetric(order) && AfterPasses(order, original, keys, perm, trail)
      modifies this`head, this`tail, this`nodes, repr`next, repr`prev
      ensures AfterPasses(order, original, keys, perm', trail')
      ensures change ==> Disorder(order, keys, perm') < Disorder(order, keys, perm)
      ensures !change ==> perm' == perm && NeighboursSorted(order, Arranged(keys, perm'))
    {
      change, perm' := Pass(order, original, keys, perm);
      trail' := trail + [Arranged(keys, perm')];
    }

    /** `bg_update`: terminates, since every exchange removes an inversion, and leaves the
        nodes stably sorted. */
    method Update(order: (int, int) -> bool) returns (ghost keys: seq<int>, ghost perm: seq<nat>, ghost trail: seq<seq<int>>)
      requires Asymmetric(order) && Valid()
      modifies this`head, this`tail, this`nodes, repr`next, repr`prev
      ensures |keys| == |old(nodes)| && forall i :: 0 <= i < |keys| ==> keys[i] == old(nodes[i].args)
      ensures Valid() && IsPerm(perm, |keys|) && nodes == Arranged(old(nodes), perm)
      ensures IsTrail(order, trail) && trail[0] == keys && trail[|trail| - 1] == Arranged(keys, perm)
      ensures NeighboursSorted(order, Arranged(keys, perm)) && OvertakesFairly(order, keys, perm)
      ensures NegativelyTransitive(order) ==> StablySorted(order, keys, perm)
    {
      keys, perm := Begin(order);
      trail := [keys];
      var change := true;
      while change
        invariant AfterPasses(order, old(nodes), keys, perm, trail)
        invariant !change ==> NeighboursSorted(order, Arranged(keys, perm))
        decreases Disorder(order, keys, perm) + if change then 1 else 0
      {
        change, perm, trail := NextPass(order, old(nodes), keys, perm, trail);
      }
      SettledIsStable(order, keys, perm);
    }

    // Insertion and removal ---------------------------------------------------------------------

    method PushFront(n: Node)
      requires Valid() && n !in repr && nodes != []
      modifies this, n`next, n`prev, repr`prev
      ensures Valid() && nodes == InsertAt(old(nodes), 0, n) && repr == old(repr) + {n}
    {
      n.next := head;
      n.prev := null;
      head.prev := n;
      head := n;
      size := size + 1;
      nodes := InsertAt(nodes, 0, n);
      repr := repr + {n};
    }

    method PushBack(n: Node)
      requires Valid() && n !in repr && nodes != []
      modifies this, n`next, n`prev, repr`next
      ensures Valid() && nodes == InsertAt(old(nodes), |old(nodes)|, n) && repr == old(repr) + {n}
    {
      tail.next := n;
      n.next := null;
      n.prev := tail;
      tail := n;
      size := size + 1;
      nodes := InsertAt(nodes, |nodes|, n);
      repr := repr + {n};
    }

    method LinkBefore(curr: Node, n: Node, ghost at: nat)
      requires Valid() && n !in repr && 0 < at < |nodes| && curr == nodes[at]
      modifies this, n`next, n`prev, repr`next, repr`prev
      ensures Valid() && nodes == InsertAt(old(nodes), at, n) && repr == old(repr) + {n}
    {
      assert nodes[at].prev == nodes[at - 1];
      var prevNode := curr.prev;
      n.prev := prevNode;
      n.next := curr;
      prevNode.next := n;
      curr.prev := n;
      size := size + 1;
      nodes := InsertAt(nodes, at, n);
      repr := repr + {n};
    }

    /** The loop that looks for the place of a key.  The tail stops it. */
    method FindPlace(order: (int, int) -> bool, args: int) returns (curr: Node, ghost at: nat)
      requires Valid() && nodes != [] && Late(order, args, head.args) && !Late(order, args, tail.args)
      ensures 0 < at < |nodes| && curr == nodes[at]
      ensures (forall i :: 0 <= i < at ==> Late(order, args, nodes[i].args)) && !Late(order, args, curr.args)
    {
      curr, at := head, 0;
      while Late(order, args, curr.args)
        invariant at < |nodes| && curr == nodes[at]
        invariant forall i :: 0 <= i < at ==> Late(order, args, nodes[i].args)
        decreases |nodes| - at
      {
        assert nodes[at].next != null;
        curr := curr.next;
        at := at + 1;
      }
    }

    /** The stream is at one end of the list or next to position p. */
    ghost predicate Meets(stream: int, p: nat)
      requires p <= |nodes|
      reads this`nodes
    {
      nodes != []
      && (nodes[0].stream == stream || nodes[|nodes| - 1].stream == stream
          || (p > 0 && nodes[p - 1].stream == stream) || (p < |nodes| && nodes[p].stream == stream))
    }

    /** `bg_insert`: the new node goes to its place among the keys, unless its stream is met
        there or at an end; so never if the stream is not in the group. */
    method Insert(order: (int, int) -> bool, stream: int, args: int) returns (ghost at: int, ghost n: Node, ghost place: nat)
      requires Valid()
      modifies this, repr`next, repr`prev
      ensures Valid() && fresh(n) && n.stream == stream && n.args == args && repr <= old(repr) + {n}
      ensures GoesTo(order, args, old(Keys()), place)
      ensures at == if old(Meets(stream, place)) then -1 else place
      ensures nodes == if at < 0 then old(nodes) else InsertAt(old(nodes), at, n)
    {
      place := PlaceExists(order, args, Keys());
      var node := new Node(stream, args);
      n, at := node, -1;
      if size == 0 {
        head, tail, size := node, node, 1;
        nodes, repr, at := [node], repr + {node}, 0;
      } else if tail.stream != stream && head.stream != stream {
        at := InsertOther(order, node, place);
      }
    }

    /** The cases that are left when the stream is at neither end. */
    method InsertOther(order: (int, int) -> bool, node: Node, ghost place: nat) returns (ghost at: int)
      requires Valid() && node !in repr && nodes != [] && GoesTo(order, node.args, Keys(), place)
      requires nodes[0].stream != node.stream && nodes[|nodes| - 1].stream != node.stream
      modifies this, repr`next, repr`prev, node`next, node`prev
      ensures Valid() && repr <= old(repr) + {node}
      ensures at == if old(Meets(node.stream, place)) then -1 else place
      ensures nodes == if at < 0 then old(nodes) else InsertAt(old(nodes), at, node)
    {
      assert Keys()[0] == head.args && Keys()[|nodes| - 1] == tail.args;
      at := place;
      if Late(order, node.args, tail.args) {
        PushBack(node);
      } else if !Late(order, node.args, head.args) {
        PushFront(node);
      } else {
        at := InsertMiddle(order, node, place);
      }
    }

    /** The new node goes somewhere in the middle, before a node that `FindPlace` finds. */
    method InsertMiddle(order: (int, int) -> bool, node: Node, ghost place: nat) returns (ghost at: int)
      requires Valid() && node !in repr && nodes != [] && GoesTo(order, node.args, Keys(), place)
      requires Late(order, node.args, head.args) && !Late(order, node.args, tail.args)
      modifies this, repr`next, repr`prev, node`next, node`prev
      ensures Valid() && 0 < place < |old(nodes)| && repr <= old(repr) + {node}
      ensures at == if old(nodes)[place].stream == node.stream || old(nodes)[place - 1].stream == node.stream then -1 else place
      ensures nodes == if at < 0 then old(nodes) else InsertAt(old(nodes), at, node)
    {
      at := -1;
      var curr;
      ghost var found;
      curr, found := FindPlace(order, node.args);
      assert found == place by {
        assert nodes[place].args == Keys()[place] && nodes[found].args == Keys()[found];
      }
      assert nodes[place].prev == nodes[place - 1];
      if curr.stream != node.stream && curr.prev.stream != node.stream {
        at := place;
        LinkBefore(curr, node, place);
      }
    }

    /** What an insertion does to the keys. */
    method InsertKey(order: (int, int) -> bool, stream: int, args: int) returns (ghost at: int)
      requires Valid()
      modifies this, repr`next, repr`prev
      ensures Valid() && at <= |old(Keys())|
      ensures at < 0 ==> Keys() == old(Keys()) && exists i :: 0 <= i < |nodes| && old(nodes)[i].stream == stream
      ensures at >= 0 ==> Keys() == InsertAt(old(Keys()), at, args)
      ensures 0 < at ==> Late(order, args, old(Keys())[at - 1])
      ensures 0 <= at < |old(Keys())| ==> !Late(order, args, old(Keys())[at])
    {
      ghost var n, place;
      at, n, place := Insert(order, stream, args);
      assert at >= 0 ==> nodes[at] == n;
    }

    /** A sorted group stays sorted, and its size is its length. */
    method InsertIntoSorted(order: (int, int) -> bool, stream: int, args: int)
      requires Valid() && Asymmetric(order) && NegativelyTransitive(order) && Sorted(order, Keys())
      modifies this, repr`next, repr`prev
      ensures Valid() && Sorted(order, Keys())
      ensures (forall i :: 0 <= i < |old(nodes)| ==> old(nodes)[i].stream != stream) ==> size == old(size) + 1
    {
      ghost var keys := Keys();
      ghost var at := InsertKey(order, stream, args);
      if at >= 0 {
        InsertKeepsSorted(order, keys, at, args);
      }
    }

    method Unlink(curr: Node, ghost at: nat)
      requires Valid() && at < |nodes| && curr == nodes[at]
      modifies this, repr`next, repr`prev
      ensures Valid() && nodes == RemoveAt(old(nodes), at) && repr == old(repr)
    {
      assert nodes[at].next == curr.next && nodes[at].prev == curr.prev;
      var after, before := curr.next, curr.prev;
      Bypass(before, after, at);
      if curr == head {
        head := after;
      }
      if curr == tail {
        tail := before;
      }
      size := size - 1;
    }

    /** Links the neighbours of a node with each other. */
    method Bypass(before: Node?, after: Node?, ghost at: nat)
      requires Linked() && at < |nodes|
      requires before == (if at > 0 then nodes[at - 1] else null)
      requires after == if at + 1 < |nodes| then nodes[at + 1] else null
      modifies this`nodes, repr`next, repr`prev
      ensures Linked() && nodes == RemoveAt(old(nodes), at)
    {
      if before != null {
        before.next := after;
      }
      if after != null {
        after.prev := before;
      }
      nodes := RemoveAt(nodes, at);
    }

    /** `bg_remove`: takes out the first node of the stream, if there is one. */
    method Remove(stream: int) returns (removed: bool, ghost at: nat)
      requires Valid()
      modifies this, repr`next, repr`prev
      ensures Valid() && removed == (exists i :: 0 <= i < |old(nodes)| && old(nodes)[i].stream == stream)
      ensures !removed ==> nodes == old(nodes)
      ensures removed ==> at < |old(nodes)| && old(nodes)[at].stream == stream && nodes == RemoveAt(old(nodes), at)
      ensures removed ==> forall i :: 0 <= i < at ==> old(nodes)[i].stream != stream
    {
      var curr := head;
      at := 0;
      while curr != null
        invariant Valid() && nodes == old(nodes) && at <= |nodes|
        invariant curr == if at < |nodes| then nodes[at] else null
        invariant forall i :: 0 <= i < at ==> nodes[i].stream != stream
        decreases |nodes| - at
      {
        if curr.stream == stream {
          Unlink(curr, at);
          return true, at;
        }
        assert nodes[at].next == curr.next;
        curr := curr.next;
        at := at + 1;
      }
      removed := false;
    }

    /** Inserting a stream that is not in the group and removing it restores the list. */
    method InsertAndRemove(order: (int, int) -> bool, stream: int, args: int)
      requires Valid() && forall i :: 0 <= i < |nodes| ==> nodes[i].stream != stream
      modifies this, repr`next, repr`prev
      ensures Valid() && nodes == old(nodes)
    {
      ghost var original := nodes;
      ghost var at, n := InsertNew(order, stream, args);
      var removed;
      ghost var out;
      removed, out := Remove(stream);
      OnlyOne(original, at, n, out);
    }

    method InsertNew(order: (int, int) -> bool, stream: int, args: int) returns (ghost at: nat, ghost n: Node)
      requires Valid() && forall i :: 0 <= i < |nodes| ==> nodes[i].stream != stream
      modifies this, repr`next, repr`prev
      ensures Valid() && at <= |old(nodes)| && nodes == InsertAt(old(nodes), at, n) && nodes[at] == n
      ensures n.stream == stream && fresh(n) && repr <= old(repr) + {n}
    {
      ghost var place;
      ghost var p: int;
      p, n, place := Insert(order, stream, args);
      at := p;
    }
  }

  lemma OnlyOne(original: seq<Node>, at: nat, n: Node, out: nat)
    requires at <= |original| && forall i :: 0 <= i < |original| ==> original[i].stream != n.stream
    requires out <= |original| && InsertAt(original, at, n)[out].stream == n.stream
    ensures RemoveAt(InsertAt(original, at, n), out) == original
  {
    InsertThenRemove(original, at, n);
    assert out == at;
  }
}
