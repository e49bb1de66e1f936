/** `shm_list`: the doubly-linked list behind the age list of auxiliary buffers. */
module ShmList {
  import opened AuxBuffers

  class Elem {
    var next: Elem?
    var prev: Elem?
    const data: nat

    constructor (data: nat)
      ensures this.data == data && next == null && prev == null
    {
      this.data := data;
      next, prev := null, null;
    }
  }

  class List {
    var first: Elem?
    var last: Elem?
    var size: nat
    ghost var elems: seq<Elem>
    ghost var repr: set<Elem>

    ghost predicate Valid()
      reads this, repr
    {
      size == |elems|
      && (if elems == [] then first == null && last == null else first == elems[0] && last == elems[|elems| - 1])
      && (forall i :: 0 <= i < |elems| ==> elems[i] in repr)
      && (forall i, j :: 0 <= i < j < |elems| ==> elems[i] != elems[j])
      && (forall i {:trigger elems[i].next} :: 0 <= i < |elems| ==>
            elems[i].next == if i + 1 < |elems| then elems[i + 1] else null)
      && (forall i {:trigger elems[i].prev} :: 0 <= i < |elems| ==>
            elems[i].prev == if i > 0 then elems[i - 1] else null)
    }

    ghost function Data(): (d: seq<nat>)
      reads this
      ensures |d| == |elems| && forall i :: 0 <= i < |d| ==> d[i] == elems[i].data
    {
      seq(|elems|, i requires 0 <= i < |elems| reads this => elems[i].data)
    }

    constructor ()
      ensures Valid() && elems == [] && repr == {}
    {
      first, last, size, elems, repr := null, null, 0, [], {};
    }

    /** `shm_list_append_elem` */
    method AppendElem(elem: Elem) returns (n: nat)
      requires Valid() && elem !in elems
      modifies this, elem`next, elem`prev, repr`next
      ensures Valid() && elems == old(elems) + [elem] && repr == old(repr) + {elem} && n == |elems|
    {
      elem.next := null;
      elem.prev := last;
      if last != null {
        last.next := elem;
      }
      last := elem;
      if first == null {
        first := elem;
      }
      size := size + 1;
      n := size;
      elems := elems + [elem];
      repr := repr + {elem};
    }

    /** `shm_list_append` */
    method Append(data: nat) returns (n: nat)
      requires Valid()
      modifies this, repr`next
      ensures Valid() && Data() == old(Data()) + [data] && n == |elems| && fresh(repr - old(repr))
    {
      var elem := new Elem(data);
      n := AppendElem(elem);
    }

    /** `shm_list_remove`; the element keeps its stale links. */
    method Remove(elem: Elem, ghost at: nat) returns (n: nat)
      requires Valid() && at < |elems| && elem == elems[at]
      modifies this`first, this`last, this`size, this`elems, repr`next, repr`prev
      ensures Valid() && elems == old(elems)[..at] + old(elems)[at + 1..] && n == |elems|
    {
      assert elems[at].next == elem.next && elems[at].prev == elem.prev;
      if elem.next != null {
        elem.next.prev := elem.prev;
      }
      if elem.prev != null {
        elem.prev.next := elem.next;
      }
      if elem == first {
        first := elem.next;
      }
      if elem == last {
        last := elem.prev;
      }
      size := size - 1;
      n := size;
      elems := elems[..at] + elems[at + 1..];
    }

    /** What `writer_get_aux_buffer` does with the buffer it takes again: the list then
        reads as the age list of `AuxBuffers`. */
    method MoveToBack(elem: Elem, ghost at: nat)
      requires Valid() && at < |elems| && elem == elems[at]
      modifies this, repr`next, repr`prev
      ensures Valid() && repr == old(repr)
      ensures elems == old(elems)[..at] + old(elems)[at + 1..] + [elem] && Data() == ToBack(old(Data()), at)
    {
      var n := Remove(elem, at);
      n := AppendElem(elem);
    }
  }
}
