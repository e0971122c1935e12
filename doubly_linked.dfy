/** The doubly-linked list: a head and a tail sentinel, linked to each other
    when the list is empty, with the nodes between them linked both ways. */
module DoublyLinked {
  import opened Results
  import opened IndexValidation
  import opened Sequences

  /** Message of the `IndexError` raised by `lpop` and `rpop` on an empty list. */
  const EmptyPop: string := "Cannot pop from empty DoubleLinkedList."

  /** One node of the chain. The two sentinels hold `None`. */
  class DoublyLinkedListNode<T> {
    var value: Option<T>
    var next: DoublyLinkedListNode?<T>
    var prev: DoublyLinkedListNode?<T>

    constructor (value: Option<T>, next: DoublyLinkedListNode?<T>, prev: DoublyLinkedListNode?<T>)
      ensures this.value == value && this.next == next && this.prev == prev
    {
      this.value := value;
      this.next := next;
      this.prev := prev;
    }
  }

  /** `nodes` runs from a head sentinel through nodes holding `contents` in
      order to a tail sentinel: every `next` link is matched by the `prev`
      link back, the sentinels hold `None` and point nowhere outward, and no
      node occurs twice. */
  ghost predicate Chain<T>(nodes: seq<DoublyLinkedListNode<T>>, contents: seq<T>)
    reads nodes
  {
    |nodes| == |contents| + 2 &&
    nodes[0].value == None && nodes[|nodes| - 1].value == None &&
    nodes[0].prev == null && nodes[|nodes| - 1].next == null &&
    (forall i | 0 <= i < |contents| :: nodes[i + 1].value == Some(contents[i])) &&
    (forall i {:trigger nodes[i].next} | 0 <= i < |nodes| - 1 :: nodes[i].next == nodes[i + 1]) &&
    (forall i {:trigger nodes[i].prev} | 0 < i < |nodes| :: nodes[i].prev == nodes[i - 1]) &&
    Distinct(nodes)
  }

  /** Once the neighbours of position `i + 1` of a chain are linked to each
      other, the chain without that node is again a chain, of the contents
      without element `i`. */
  lemma BypassedChain<T>(nodes: seq<DoublyLinkedListNode<T>>, contents: seq<T>, i: nat)
    requires |nodes| == |contents| + 2 && i < |contents|
    requires nodes[0].value == None && nodes[|nodes| - 1].value == None
    requires nodes[0].prev == null && nodes[|nodes| - 1].next == null
    requires forall j | 0 <= j < |contents| :: nodes[j + 1].value == Some(contents[j])
    requires forall j {:trigger nodes[j].next} | 0 <= j < |nodes| - 1 && j != i :: nodes[j].next == nodes[j + 1]
    requires forall j {:trigger nodes[j].prev} | 0 < j < |nodes| && j != i + 2 :: nodes[j].prev == nodes[j - 1]
    requires nodes[i].next == nodes[i + 2] && nodes[i + 2].prev == nodes[i]
    requires Distinct(nodes)
    ensures Chain(RemoveAt(nodes, i + 1), RemoveAt(contents, i))
  {
    var rest, kept := RemoveAt(nodes, i + 1), RemoveAt(contents, i);
    DistinctRemoveAt(nodes, i + 1);
    forall j | 0 <= j < |kept|
      ensures rest[j + 1].value == Some(kept[j])
    {
      if j < i {
        assert rest[j + 1] == nodes[j + 1] && kept[j] == contents[j];
      } else {
        assert rest[j + 1] == nodes[j + 2] && kept[j] == contents[j + 1];
      }
    }
    forall j | 0 <= j < |rest| - 1
      ensures rest[j].next == rest[j + 1]
    {
      if j < i {
        assert rest[j] == nodes[j] && rest[j + 1] == nodes[j + 1];
      } else if j == i {
        assert rest[j] == nodes[i] && rest[j + 1] == nodes[i + 2];
      } else {
        assert rest[j] == nodes[j + 1] && rest[j + 1] == nodes[j + 2];
      }
    }
    forall j | 0 < j < |rest|
      ensures rest[j].prev == rest[j - 1]
    {
      if j <= i {
        assert rest[j] == nodes[j] && rest[j - 1] == nodes[j - 1];
      } else if j == i + 1 {
        assert rest[j] == nodes[i + 2] && rest[j - 1] == nodes[i];
      } else {
        assert rest[j] == nodes[j + 1] && rest[j - 1] == nodes[j];
      }
    }
  }

  /** Once `node` is linked between positions `i` and `i + 1` of a chain, the
      chain with that node is again a chain, of the contents with `value`
      inserted at position `i`. */
  lemma SplicedChain<T>(nodes: seq<DoublyLinkedListNode<T>>, contents: seq<T>, i: nat,
                        node: DoublyLinkedListNode<T>, value: T)
    requires |nodes| == |contents| + 2 && i <= |contents|
    requires nodes[0].value == None && nodes[|nodes| - 1].value == None
    requires nodes[0].prev == null && nodes[|nodes| - 1].next == null
    requires forall j | 0 <= j < |contents| :: nodes[j + 1].value == Some(contents[j])
    requires node.value == Some(value)
    requires forall j {:trigger nodes[j].next} | 0 <= j < |nodes| - 1 && j != i :: nodes[j].next == nodes[j + 1]
    requires forall j {:trigger nodes[j].prev} | 0 < j < |nodes| && j != i + 1 :: nodes[j].prev == nodes[j - 1]
    requires nodes[i].next == node && node.next == nodes[i + 1]
    requires nodes[i + 1].prev == node && node.prev == nodes[i]
    requires Distinct(nodes) && node !in nodes
    ensures Chain(InsertAt(nodes, i + 1, node), InsertAt(contents, i, value))
  {
    var grown, added := InsertAt(nodes, i + 1, node), InsertAt(contents, i, value);
    DistinctInsertAt(nodes, i + 1, node);
    forall j | 0 <= j < |added|
      ensures grown[j + 1].value == Some(added[j])
    {
      if j < i {
        assert grown[j + 1] == nodes[j + 1] && added[j] == contents[j];
      } else if j > i {
        assert grown[j + 1] == nodes[j] && added[j] == contents[j - 1];
      }
    }
    forall j | 0 <= j < |grown| - 1
      ensures grown[j].next == grown[j + 1]
    {
      if j < i {
        assert grown[j] == nodes[j] && grown[j + 1] == nodes[j + 1];
      } else if j == i {
        assert grown[j] == nodes[i] && grown[j + 1] == node;
      } else if j == i + 1 {
        assert grown[j] == node && grown[j + 1] == nodes[i + 1];
      } else {
        assert grown[j] == nodes[j - 1] && grown[j + 1] == nodes[j];
      }
    }
    forall j | 0 < j < |grown|
      ensures grown[j].prev == grown[j - 1]
    {
      if j <= i {
        assert grown[j] == nodes[j] && grown[j - 1] == nodes[j - 1];
      } else if j == i + 1 {
        assert grown[j] == node && grown[j - 1] == nodes[i];
      } else if j == i + 2 {
        assert grown[j] == nodes[i + 1] && grown[j - 1] == node;
      } else {
        assert grown[j] == nodes[j - 1] && grown[j - 1] == nodes[j - 2];
      }
    }
  }

  /** A chain from a head sentinel that is missing only its tail sentinel
      becomes a chain once its last node and `last` are linked both ways. */
  lemma ClosedChain<T>(nodes: seq<DoublyLinkedListNode<T>>, last: DoublyLinkedListNode<T>, values: seq<T>)
    requires |nodes| == |values| + 1
    requires nodes[0].value == None && nodes[0].prev == null
    requires last.value == None && last.next == null && last !in nodes
    requires forall i | 0 <= i < |values| :: nodes[i + 1].value == Some(values[i])
    requires forall i {:trigger nodes[i].next} | 0 <= i < |values| :: nodes[i].next == nodes[i + 1]
    requires forall i {:trigger nodes[i].prev} | 0 < i < |nodes| :: nodes[i].prev == nodes[i - 1]
    requires nodes[|values|].next == last && last.prev == nodes[|values|]
    requires Distinct(nodes)
    ensures Chain(nodes + [last], values)
  {
    var chain := nodes + [last];
    EndsAreInsertions(nodes, last);
    DistinctInsertAt(nodes, |nodes|, last);
    forall j | 0 <= j < |chain| - 1
      ensures chain[j].next == chain[j + 1]
    {
      if j < |values| {
        assert chain[j] == nodes[j] && chain[j + 1] == nodes[j + 1];
      } else {
        assert chain[j] == nodes[|values|] && chain[j + 1] == last;
      }
    }
    forall j | 0 < j < |chain|
      ensures chain[j].prev == chain[j - 1]
    {
      if j < |nodes| {
        assert chain[j] == nodes[j] && chain[j - 1] == nodes[j - 1];
      } else {
        assert chain[j] == last && chain[j - 1] == nodes[|values|];
      }
    }
  }

  /** The node work of the constructor: a head sentinel, a node per value in
      argument order, each linked both ways to the one before it, and a tail
      sentinel linked both ways to the last of them. */
  method BuildChain<T>(values: seq<T>)
    returns (first: DoublyLinkedListNode<T>, last: DoublyLinkedListNode<T>, count: int,
             ghost nodes: seq<DoublyLinkedListNode<T>>, ghost repr: set<object>)
    ensures Chain(nodes, values) && first == nodes[0] && last == nodes[|nodes| - 1]
    ensures count == |values|
    ensures fresh(repr) && forall i | 0 <= i < |nodes| :: nodes[i] in repr
  {
    first := new DoublyLinkedListNode<T>(None, null, null);
    last := new DoublyLinkedListNode<T>(None, null, null);
    var prevNode := first;
    count := 0;
    nodes := [first];
    repr := {first, last};
    for k := 0 to |values|
      invariant count == k
      invariant |nodes| == k + 1 && nodes[0] == first && prevNode == nodes[k]
      invariant first.value == None && first.prev == null && prevNode.next == null
      invariant last.value == None && last.next == null && last !in nodes && last in repr
      invariant forall i | 0 <= i < k :: nodes[i + 1].value == Some(values[i])
      invariant forall i {:trigger nodes[i].next} | 0 <= i < k :: nodes[i].next == nodes[i + 1]
      invariant forall i {:trigger nodes[i].prev} | 0 < i <= k :: nodes[i].prev == nodes[i - 1]
      invariant Distinct(nodes)
      invariant forall i | 0 <= i < |nodes| :: nodes[i] in repr
      invariant fresh(repr)
    {
      var node := new DoublyLinkedListNode<T>(Some(values[k]), null, prevNode);
      prevNode.next := node;
      prevNode := node;
      nodes := nodes + [node];
      repr := repr + {node};
      count := count + 1;
    }
    prevNode.next := last;
    assert forall j {:trigger nodes[j].next} | 0 <= j < |values| :: nodes[j].next == nodes[j + 1];
    last.prev := prevNode;
    ClosedChain(nodes, last, values);
    nodes := nodes + [last];
  }

  /** The pointer work of an insertion: a new node holding `value`, pointing
      forward to `node` (at position `i + 1` of the chain) and back to its
      predecessor, is made the predecessor's successor and `node`'s
      predecessor. */
  method Splice<T>(node: DoublyLinkedListNode<T>, ghost nodes: seq<DoublyLinkedListNode<T>>,
                   ghost contents: seq<T>, ghost i: nat, value: T)
    returns (newNode: DoublyLinkedListNode<T>)
    requires Chain(nodes, contents) && i <= |contents| && node == nodes[i + 1]
    modifies nodes[i], nodes[i + 1]
    ensures fresh(newNode)
    ensures Chain(InsertAt(nodes, i + 1, newNode), InsertAt(contents, i, value))
  {
    assert node.prev == nodes[i];
    newNode := new DoublyLinkedListNode<T>(Some(value), node, node.prev);
    node.prev.next := newNode;
    assert forall j {:trigger nodes[j].next} | 0 <= j < |nodes| - 1 && j != i ::
      nodes[j].next == nodes[j + 1];
    node.prev := newNode;
    assert forall j {:trigger nodes[j].prev} | 0 < j < |nodes| && j != i + 1 ::
      nodes[j].prev == nodes[j - 1];
    SplicedChain(nodes, contents, i, newNode, value);
  }

  /** The pointer work of a removal: the neighbours of `node` (at position
      `i + 1` of the chain) are linked to each other. */
  method Bypass<T>(node: DoublyLinkedListNode<T>, ghost nodes: seq<DoublyLinkedListNode<T>>,
                   ghost contents: seq<T>, ghost i: nat)
    requires Chain(nodes, contents) && i < |contents| && node == nodes[i + 1]
    modifies nodes[i], nodes[i + 2]
    ensures Chain(RemoveAt(nodes, i + 1), RemoveAt(contents, i))
  {
    assert node.prev == nodes[i] && node.next == nodes[i + 2];
    node.prev.next := node.next;
    assert forall j {:trigger nodes[j].next} | 0 <= j < |nodes| - 1 && j != i ::
      nodes[j].next == nodes[j + 1];
    node.next.prev := node.prev;
    assert forall j {:trigger nodes[j].prev} | 0 < j < |nodes| && j != i + 2 ::
      nodes[j].prev == nodes[j - 1];
    BypassedChain(nodes, contents, i);
  }

  /** The pointer work of `list[i] = value`: `node`, at position `i + 1` of
      the chain, now holds `value`; no link changes. */
  method Overwrite<T>(node: DoublyLinkedListNode<T>, ghost nodes: seq<DoublyLinkedListNode<T>>,
                      ghost contents: seq<T>, ghost i: nat, value: T)
    requires Chain(nodes, contents) && i < |contents| && node == nodes[i + 1]
    modifies node
    ensures Chain(nodes, contents[i := value])
  {
    node.value := Some(value);
    forall j | 0 <= j < |contents| && j != i
      ensures nodes[j + 1].value == Some(contents[j])
    {
      assert nodes[j + 1] != nodes[i + 1];
    }
  }

  class DoublyLinkedList<T(==)> {
    var head: DoublyLinkedListNode<T>
    var tail: DoublyLinkedListNode<T>
    var length: int

    /** The elements, first to last. */
    ghost var Contents: seq<T>
    /** The chain from the head sentinel to the tail sentinel: `Nodes[0]` is
        the head, `Nodes[i + 1]` holds `Contents[i]`, and the last is the tail. */
    ghost var Nodes: seq<DoublyLinkedListNode<T>>
    /** The objects the list is made of. */
    ghost var Repr: set<object>

    /** The chain runs unbroken from the head sentinel through the elements in
        order to the tail sentinel, with `prev` links mirroring `next` links,
        and `length` counts the elements. */
    ghost predicate Valid()
      reads this, Repr
      ensures Valid() ==> this in Repr
    {
      this in Repr &&
      (forall i | 0 <= i < |Nodes| :: Nodes[i] in Repr) &&
      Chain(Nodes, Contents) &&
      head == Nodes[0] && tail == Nodes[|Nodes| - 1] &&
      length == |Contents|
    }

    /** Builds head, the values in argument order, tail. */
    constructor (values: seq<T>)
      ensures Valid() && fresh(Repr)
      ensures Contents == values
    {
      var first, last, count, nodes, repr := BuildChain(values);
      head, tail, length := first, last, count;
      Contents, Nodes, Repr := values, nodes, repr + {this};
    }

    /** The node at position `index`, or the tail sentinel for `index ==
        length`, reached from whichever end is nearer. */
    method RetrieveNode(index: int) returns (node: DoublyLinkedListNode<T>)
      requires Valid() && 0 <= index <= |Contents|
      ensures node == Nodes[index + 1]
    {
      if index <= length / 2 {
        var current := head.next;
        for k := 0 to index
          invariant current == Nodes[k + 1]
        {
          current := current.next;
        }
        return current;
      }
      var current := tail;
      for k := 0 to length - index
        invariant current == Nodes[|Nodes| - 1 - k]
      {
        current := current.prev;
      }
      return current;
    }

    /** The splice primitive: a new node holding `value` goes between the
        node at position `i` (or the tail sentinel) and its predecessor. */
    method LinkBefore(node: DoublyLinkedListNode<T>, ghost i: nat, value: T)
      requires Valid() && i <= |Contents| && node == Nodes[i + 1]
      modifies Repr
      ensures Valid() && fresh(Repr - old(Repr)) && head == old(head) && tail == old(tail)
      ensures Contents == InsertAt(old(Contents), i, value)
      ensures |Nodes| == |old(Nodes)| + 1 && fresh(Nodes[i + 1])
      ensures Nodes == InsertAt(old(Nodes), i + 1, Nodes[i + 1])
    {
      var newNode := Splice(node, Nodes, Contents, i, value);
      length, Contents, Nodes, Repr :=
        length + 1, InsertAt(Contents, i, value), InsertAt(Nodes, i + 1, newNode), Repr + {newNode};
    }

    /** The unlink primitive: the node at position `i` is bypassed by joining
        its two neighbours to each other. */
    method Unlink(node: DoublyLinkedListNode<T>, ghost i: nat)
      requires Valid() && i < |Contents| && node == Nodes[i + 1]
      modifies Repr
      ensures Valid() && Repr == old(Repr) && head == old(head) && tail == old(tail)
      ensures Contents == RemoveAt(old(Contents), i) && Nodes == RemoveAt(old(Nodes), i + 1)
    {
      Bypass(node, Nodes, Contents, i);
      length, Contents, Nodes := length - 1, RemoveAt(Contents, i), RemoveAt(Nodes, i + 1);
    }

    /** `list[index]`. */
    method Get(index: int) returns (r: Result<T>)
      requires Valid()
      ensures InRange(index, |Contents|, 0) ==>
        r == Ok(Contents[if index < 0 then index + |Contents| else index])
      ensures !InRange(index, |Contents|, 0) ==> r == Err(IndexError(OutOfRange))
    {
      var checked := Normalise(index, length, 0);
      if checked.Err? {
        return Err(checked.error);
      }
      var node := RetrieveNode(checked.value);
      assert node.value == Some(Contents[checked.value]);
      return Ok(node.value.value);
    }

    /** `list[index] = value`: overwrites one element; the links and the
        length stay as they were. */
    method Set(index: int, value: T) returns (r: Outcome)
      requires Valid()
      modifies Repr
      ensures Valid() && Repr == old(Repr) && Nodes == old(Nodes)
      ensures r == Done <==> InRange(index, |old(Contents)|, 0)
      ensures r == Done ==>
        Contents == old(Contents)[(if index < 0 then index + |old(Contents)| else index) := value]
      ensures r != Done ==> r == Failed(IndexError(OutOfRange)) && unchanged(Repr)
    {
      var checked := Normalise(index, length, 0);
      if checked.Err? {
        return Failed(checked.error);
      }
      var node := RetrieveNode(checked.value);
      Overwrite(node, Nodes, Contents, checked.value, value);
      Contents := Contents[checked.value := value];
      return Done;
    }

    /** `del list[index]`. */
    method Delete(index: int) returns (r: Outcome)
      requires Valid()
      modifies Repr
      ensures Valid() && Repr == old(Repr)
      ensures r == Done <==> InRange(index, |old(Contents)|, 0)
      ensures r == Done ==>
        var i := if index < 0 then index + |old(Contents)| else index;
        Contents == RemoveAt(old(Contents), i) && Nodes == RemoveAt(old(Nodes), i + 1)
      ensures r != Done ==> r == Failed(IndexError(OutOfRange)) && unchanged(Repr)
    {
      var checked := Normalise(index, length, 0);
      if checked.Err? {
        return Failed(checked.error);
      }
      var node := RetrieveNode(checked.value);
      Unlink(node, checked.value);
      return Done;
    }

    /** `list.insert(index, value)`: accepts `[-length, length]` and places
        `value` before the element at the normalised position, so that
        `insert(length, value)` appends. */
    method Insert(index: int, value: T) returns (r: Outcome)
      requires Valid()
      modifies Repr
      ensures Valid() && fresh(Repr - old(Repr))
      ensures r == Done <==> InRange(index, |old(Contents)|, 1)
      ensures r == Done ==>
        Contents == InsertAt(old(Contents), if index < 0 then index + |old(Contents)| else index, value)
      ensures r != Done ==> r == Failed(IndexError(OutOfRange)) && Repr == old(Repr) && unchanged(Repr)
    {
      var checked := Normalise(index, length, 1);
      if checked.Err? {
        return Failed(checked.error);
      }
      var node := RetrieveNode(checked.value);
      LinkBefore(node, checked.value, value);
      return Done;
    }

    /** `list.pop(index)`: removes the element at `index` and returns it. */
    method Pop(index: int) returns (r: Result<T>)
      requires Valid()
      modifies Repr
      ensures Valid() && Repr == old(Repr)
      ensures r.Ok? <==> InRange(index, |old(Contents)|, 0)
      ensures r.Ok? ==>
        var i := if index < 0 then index + |old(Contents)| else index;
        r.value == old(Contents)[i] &&
        Contents == RemoveAt(old(Contents), i) && Nodes == RemoveAt(old(Nodes), i + 1)
      ensures r.Err? ==> r.error == IndexError(OutOfRange) && unchanged(Repr)
    {
      var checked := Normalise(index, length, 0);
      if checked.Err? {
        return Err(checked.error);
      }
      var node := RetrieveNode(checked.value);
      assert node.value == Some(Contents[checked.value]);
      var val := node.value.value;
      Unlink(node, checked.value);
      return Ok(val);
    }

    /** `list.lpop()`: removes the first element and returns it. */
    method LPop() returns (r: Result<T>)
      requires Valid()
      modifies Repr
      ensures Valid() && Repr == old(Repr)
      ensures old(Contents) == [] ==> r == Err(IndexError(EmptyPop)) && unchanged(Repr)
      ensures old(Contents) != [] ==> r == Ok(old(Contents)[0]) && Contents == old(Contents)[1..]
    {
      if length <= 0 {
        return Err(IndexError(EmptyPop));
      }
      ghost var before := Contents;
      EndsAreRemovals(before);
      assert Nodes[0].next == Nodes[1];
      var node := head.next;
      assert node.value == Some(before[0]);
      var val := node.value.value;
      Unlink(node, 0);
      assert Contents == before[1..];
      return Ok(val);
    }

    /** `list.rpop()`: removes the last element and returns it. */
    method RPop() returns (r: Result<T>)
      requires Valid()
      modifies Repr
      ensures Valid() && Repr == old(Repr)
      ensures old(Contents) == [] ==> r == Err(IndexError(EmptyPop)) && unchanged(Repr)
      ensures old(Contents) != [] ==>
        r == Ok(old(Contents)[|old(Contents)| - 1]) && Contents == old(Contents)[..|old(Contents)| - 1]
    {
      if length <= 0 {
        return Err(IndexError(EmptyPop));
      }
      ghost var before := Contents;
      ghost var last: nat := |before| - 1;
      EndsAreRemovals(before);
      assert tail == Nodes[last + 2];
      assert Nodes[last + 2].prev == Nodes[last + 1];
      var node := tail.prev;
      assert node == Nodes[last + 1];
      assert node.value == Some(Contents[last]);
      var val := node.value.value;
      Unlink(node, last);
      assert Contents == before[..last];
      return Ok(val);
    }

    /** `list.append(value)`: a new last element, spliced in before the tail. */
    method Append(value: T)
      requires Valid()
      modifies Repr
      ensures Valid() && fresh(Repr - old(Repr))
      ensures Contents == old(Contents) + [value]
    {
      LinkBefore(tail, length, value);
      EndsAreInsertions(old(Contents), value);
    }

    /** `list.lappend(value)`: a new first element, spliced in after the head. */
    method LAppend(value: T)
      requires Valid()
      modifies Repr
      ensures Valid() && fresh(Repr - old(Repr))
      ensures Contents == [value] + old(Contents)
    {
      assert head.next == Nodes[1];
      LinkBefore(head.next, 0, value);
      EndsAreInsertions(old(Contents), value);
    }

    /** `len(list)`. */
    method Length() returns (n: int)
      requires Valid()
      ensures n == |Contents|
    {
      return length;
    }

    /** `list(iter(list))`: the values of `length` nodes from the one after
        the head sentinel onward. */
    method Iterate() returns (values: seq<T>)
      requires Valid()
      ensures values == Contents
    {
      values := [];
      var node := head.next;
      for k := 0 to length
        invariant values == Contents[..k]
        invariant node == Nodes[k + 1]
      {
        assert node.value == Some(Contents[k]);
        values := values + [node.value.value];
        node := node.next;
      }
    }

    /** `list.__reverse__()`: the values of `length` nodes from the one
        before the tail sentinel backward. */
    method Reverse() returns (values: seq<T>)
      requires Valid()
      ensures values == Reversed(Contents)
    {
      values := [];
      var node := tail.prev;
      for k := 0 to length
        invariant values == Reversed(Contents[|Contents| - k..])
        invariant node == Nodes[|Contents| - k]
      {
        ghost var rest := Contents[|Contents| - k - 1..];
        assert rest[1..] == Contents[|Contents| - k..];
        assert node.value == Some(rest[0]);
        values := values + [node.value.value];
        node := node.prev;
      }
      assert Contents[|Contents| - length..] == Contents;
    }

    /** `list == other` for another `DoublyLinkedList`: false when the lengths
        differ, otherwise compares the two iterations pairwise and stops at
        the first difference. */
    method Equals(other: DoublyLinkedList<T>) returns (r: bool)
      requires Valid() && other.Valid()
      ensures r <==> Contents == other.Contents
    {
      if length != other.length {
        return false;
      }
      var mine := Iterate();
      var theirs := other.Iterate();
      for k := 0 to |mine|
        invariant mine[..k] == theirs[..k]
      {
        if mine[k] != theirs[k] {
          return false;
        }
      }
      assert mine == mine[..|mine|] && theirs == theirs[..|theirs|];
      return true;
    }
  }
}
