/** The singly-linked list: a head sentinel, a chain of nodes linked by
    `next`, a cached last node and a length kept up to date by every
    operation. */
module SinglyLinked {
  import opened Results
  import opened IndexValidation
  import opened Sequences

  /** One node of the chain. The head sentinel holds `None`. */
  class LinkedListNode<T> {
    var value: Option<T>
    var next: LinkedListNode?<T>

    constructor (value: Option<T>, next: LinkedListNode?<T>)
      ensures this.value == value && this.next == next
    {
      this.value := value;
      this.next := next;
    }
  }

  /** `nodes` runs from a head sentinel holding `None` through nodes holding
      `contents` in order, each linked by `next` to the one after it, the last
      pointing to `null`, and no node occurs twice. */
  ghost predicate Chain<T>(nodes: seq<LinkedListNode<T>>, contents: seq<T>)
    reads nodes
  {
    |nodes| == |contents| + 1 &&
    nodes[0].value == None &&
    (forall i | 0 <= i < |contents| :: nodes[i + 1].value == Some(contents[i])) &&
    (forall i {:trigger nodes[i].next} | 0 <= i < |contents| :: nodes[i].next == nodes[i + 1]) &&
    nodes[|contents|].next == null &&
    Distinct(nodes)
  }

  /** Once the node at position `i` of a chain is linked to the successor of
      the node at position `i + 1`, the chain without that node is again a
      chain, of the contents without element `i`. */
  lemma BypassedChain<T>(nodes: seq<LinkedListNode<T>>, contents: seq<T>, i: nat)
    requires |nodes| == |contents| + 1 && i < |contents|
    requires nodes[0].value == None
    requires forall j | 0 <= j < |contents| :: nodes[j + 1].value == Some(contents[j])
    requires forall j {:trigger nodes[j].next} | 0 <= j < |contents| && j != i :: nodes[j].next == nodes[j + 1]
    requires nodes[i].next == if i + 2 < |nodes| then nodes[i + 2] else null
    requires nodes[|contents|].next == null
    requires Distinct(nodes)
    ensures Chain(RemoveAt(nodes, i + 1), RemoveAt(contents, i))
  {
    var rest, kept := RemoveAt(nodes, i + 1), RemoveAt(contents, i);
    DistinctRemoveAt(nodes, i + 1);
    forall j | 0 <= j < |kept|
      ensures rest[j + 1].value == Some(kept[j])
    {
      if j < i {
        assert rest[j + 1] == nodes[j + 1] && kept[j] == contents[j];
      } else {
        assert rest[j + 1] == nodes[j + 2] && kept[j] == contents[j + 1];
      }
    }
    forall j | 0 <= j < |kept|
      ensures rest[j].next == rest[j + 1]
    {
      if j < i {
        assert rest[j] == nodes[j] && rest[j + 1] == nodes[j + 1];
      } else if j == i {
        assert rest[j] == nodes[i] && rest[j + 1] == nodes[i + 2];
      } else {
        assert rest[j] == nodes[j + 1] && rest[j + 1] == nodes[j + 2];
      }
    }
    if i < |kept| {
      assert rest[|kept|] == nodes[|contents|];
    } else {
      assert rest[|kept|] == nodes[i];
    }
  }

  /** The pointer work of `del list[i]`: `prevNode`, at position `i` of the
      chain, is linked to the successor of `node`, at position `i + 1`. */
  method Bypass<T>(prevNode: LinkedListNode<T>, node: LinkedListNode<T>,
                   ghost nodes: seq<LinkedListNode<T>>, ghost contents: seq<T>, ghost i: nat)
    requires Chain(nodes, contents) && i < |contents|
    requires prevNode == nodes[i] && node == nodes[i + 1]
    modifies prevNode
    ensures Chain(RemoveAt(nodes, i + 1), RemoveAt(contents, i))
  {
    var nextNode := node.next;
    assert nextNode == if i + 2 < |nodes| then nodes[i + 2] else null;
    prevNode.next := nextNode;
    assert forall j {:trigger nodes[j].next} | 0 <= j < |contents| && j != i ::
      nodes[j].next == nodes[j + 1];
    BypassedChain(nodes, contents, i);
  }

  /** The pointer work of `list[i] = value`: `node`, at position `i + 1` of
      the chain, now holds `value`; no link changes. */
  method Overwrite<T>(node: LinkedListNode<T>, ghost nodes: seq<LinkedListNode<T>>,
                      ghost contents: seq<T>, ghost i: nat, value: T)
    requires Chain(nodes, contents) && i < |contents| && node == nodes[i + 1]
    modifies node
    ensures Chain(nodes, contents[i := value])
  {
    node.value := Some(value);
    forall j | 0 <= j < |contents| && j != i
      ensures nodes[j + 1].value == Some(contents[j])
    {
      assert nodes[j + 1] != nodes[i + 1];
    }
  }

  class LinkedList<T(==)> {
    var head: LinkedListNode<T>
    var tail: LinkedListNode<T>
    var length: int

    /** The elements, first to last. */
    ghost var Contents: seq<T>
    /** The chain from the head sentinel: `Nodes[0]` is the sentinel and
        `Nodes[i + 1]` holds `Contents[i]`. */
    ghost var Nodes: seq<LinkedListNode<T>>
    /** The objects the list is made of. */
    ghost var Repr: set<object>

    /** The chain from the head sentinel holds the elements in order, the
        list owns every node of it, and `length` counts it. */
    ghost predicate Valid()
      reads this, Repr
      ensures Valid() ==> this in Repr
    {
      this in Repr &&
      (forall i | 0 <= i < |Nodes| :: Nodes[i] in Repr) &&
      Chain(Nodes, Contents) &&
      head == Nodes[0] &&
      length == |Contents|
    }

    /** The cached tail is the last node of the chain (the sentinel when the
        list is empty). */
    ghost predicate TailIsLast()
      reads this
    {
      |Nodes| > 0 && tail == Nodes[|Nodes| - 1]
    }

    /** Builds the chain in argument order. */
    constructor (values: seq<T>)
      ensures Valid() && fresh(Repr)
      ensures Contents == values && TailIsLast()
    {
      var sentinel := new LinkedListNode<T>(None, null);
      var prevNode := sentinel;
      var count := 0;
      ghost var nodes := [sentinel];
      ghost var repr: set<object> := {sentinel};
      for k := 0 to |values|
        invariant count == k
        invariant |nodes| == k + 1 && nodes[0] == sentinel && prevNode == nodes[k]
        invariant sentinel.value == None && prevNode.next == null
        invariant forall i | 0 <= i < k :: nodes[i + 1].value == Some(values[i])
        invariant forall i {:trigger nodes[i].next} | 0 <= i < k :: nodes[i].next == nodes[i + 1]
        invariant Distinct(nodes)
        invariant forall i | 0 <= i < |nodes| :: nodes[i] in repr
        invariant fresh(repr)
      {
        var node := new LinkedListNode<T>(Some(values[k]), null);
        prevNode.next := node;
        prevNode := node;
        nodes := nodes + [node];
        repr := repr + {node};
        count := count + 1;
      }
      head := sentinel;
      tail := prevNode;
      length := count;
      Contents := values;
      Nodes := nodes;
      Repr := repr + {this};
    }

    /** The shared index handling of every indexed operation: rejects an index
        outside `[-length, length)`, normalises a negative one, and walks from
        the head sentinel to the node at that position and its predecessor. */
    method IndexInto(index: int) returns (r: Result<(LinkedListNode<T>, LinkedListNode<T>)>)
      requires Valid()
      ensures r.Ok? <==> InRange(index, |Contents|, 0)
      ensures r.Ok? ==>
        var i := if index < 0 then index + |Contents| else index;
        r.value.0 == Nodes[i] && r.value.1 == Nodes[i + 1]
      ensures r.Err? ==> r.error == IndexError(OutOfRange)
    {
      var checked := Normalise(index, length, 0);
      if checked.Err? {
        return Err(checked.error);
      }
      var i := checked.value;
      var prevNode := head;
      var node := head.next;
      for k := 0 to i
        invariant prevNode == Nodes[k] && node == Nodes[k + 1]
      {
        prevNode := node;
        node := node.next;
      }
      return Ok((prevNode, node));
    }

    /** `list[index]`. */
    method Get(index: int) returns (r: Result<T>)
      requires Valid()
      ensures InRange(index, |Contents|, 0) ==>
        r == Ok(Contents[if index < 0 then index + |Contents| else index])
      ensures !InRange(index, |Contents|, 0) ==> r == Err(IndexError(OutOfRange))
    {
      var located := IndexInto(index);
      if located.Err? {
        return Err(located.error);
      }
      var node := located.value.1;
      ghost var i := if index < 0 then index + |Contents| else index;
      assert node.value == Some(Contents[i]);
      return Ok(node.value.value);
    }

    /** `list[index] = val`: overwrites one element and nothing else. */
    method Set(index: int, val: T) returns (r: Outcome)
      requires Valid()
      modifies Repr
      ensures Valid() && Repr == old(Repr) && Nodes == old(Nodes) && tail == old(tail)
      ensures r == Done <==> InRange(index, |old(Contents)|, 0)
      ensures r == Done ==>
        Contents == old(Contents)[(if index < 0 then index + |old(Contents)| else index) := val]
      ensures r != Done ==> r == Failed(IndexError(OutOfRange)) && unchanged(Repr)
    {
      var located := IndexInto(index);
      if located.Err? {
        return Failed(located.error);
      }
      var node := located.value.1;
      ghost var i := if index < 0 then index + |Contents| else index;
      Overwrite(node, Nodes, Contents, i, val);
      Contents := Contents[i := val];
      return Done;
    }

    /** `del list[index]`: links the predecessor of the node at `index` to its
        successor. The cached tail is not updated, so it stays the last node
        unless the last node is the one deleted. */
    method Delete(index: int) returns (r: Outcome)
      requires Valid()
      modifies Repr
      ensures Valid() && Repr == old(Repr) && tail == old(tail)
      ensures r == Done <==> InRange(index, |old(Contents)|, 0)
      ensures r == Done ==>
        var i := if index < 0 then index + |old(Contents)| else index;
        Contents == RemoveAt(old(Contents), i) && Nodes == RemoveAt(old(Nodes), i + 1) &&
        (old(TailIsLast()) && i < |old(Contents)| - 1 ==> TailIsLast())
      ensures r != Done ==> r == Failed(IndexError(OutOfRange)) && unchanged(Repr)
    {
      var located := IndexInto(index);
      if located.Err? {
        return Failed(located.error);
      }
      ghost var i := if index < 0 then index + |Contents| else index;
      UnlinkAfter(located.value.0, located.value.1, i);
      return Done;
    }

    /** The rewiring step of `del list[i]`: `node`, at position `i`, is
        bypassed by linking `prevNode` to its successor, and `length` drops by
        one. */
    method UnlinkAfter(prevNode: LinkedListNode<T>, node: LinkedListNode<T>, ghost i: nat)
      requires Valid() && i < |Contents| && prevNode == Nodes[i] && node == Nodes[i + 1]
      modifies Repr
      ensures Valid() && Repr == old(Repr) && tail == old(tail)
      ensures Contents == RemoveAt(old(Contents), i) && Nodes == RemoveAt(old(Nodes), i + 1)
    {
      Bypass(prevNode, node, Nodes, Contents, i);
      length, Contents, Nodes := length - 1, RemoveAt(Contents, i), RemoveAt(Nodes, i + 1);
    }

    /** `len(list)`. */
    method Length() returns (n: int)
      requires Valid()
      ensures n == |Contents|
    {
      return length;
    }

    /** `list(iter(list))`: the values of `length` nodes from the one after
        the head sentinel onward. */
    method Iterate() returns (values: seq<T>)
      requires Valid()
      ensures values == Contents
    {
      values := [];
      var node := head.next;
      for k := 0 to length
        invariant values == Contents[..k]
        invariant node == if k < |Contents| then Nodes[k + 1] else null
      {
        assert node.value == Some(Contents[k]);
        values := values + [node.value.value];
        node := node.next;
      }
    }

    /** `list == other` for another `LinkedList`: false when the lengths
        differ, otherwise compares the two iterations pairwise and stops at
        the first difference. */
    method Equals(other: LinkedList<T>) returns (r: bool)
      requires Valid() && other.Valid()
      ensures r <==> Contents == other.Contents
    {
      if length != other.length {
        return false;
      }
      var mine := Iterate();
      var theirs := other.Iterate();
      for k := 0 to |mine|
        invariant mine[..k] == theirs[..k]
      {
        if mine[k] != theirs[k] {
          return false;
        }
      }
      assert mine == mine[..|mine|] && theirs == theirs[..|theirs|];
      return true;
    }
  }

  /** Iterating an unmodified list twice gives the same values both times. */
  method IterateTwice<T(==)>(list: LinkedList<T>) returns (first: seq<T>, second: seq<T>)
    requires list.Valid()
    ensures first == second == list.Contents
  {
    first := list.Iterate();
    second := list.Iterate();
  }
}
