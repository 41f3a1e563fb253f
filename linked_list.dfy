/**
 * A doubly linked list kept in one growable array (dist/LinkedList.js).
 *
 * The list owns a sequence of node records. A node is addressed by its
 * position in that sequence (its handle); the two link fields of a node are
 * raw positions, resolved against the list on every navigation. Nodes are
 * only ever appended, so the node at position i links to i - 1 and i + 1,
 * and a node can recover its own position as the mean of its two links.
 */
module LinkedList {
  import opened Wrappers

  /** What a node holds: a caller's value, or the empty object `{}` that the
      payload getter stores when nothing was stored before. */
  datatype Payload<T> = Item(value: T) | EmptyObject

  /** One node: its payload (`None` while nothing is stored) and its two
      link fields, which hold positions in the owning list. */
  datatype Node<T> = Node(data: Option<Payload<T>>, next: int, previous: int)

  /** The payload a node's getter yields: the stored one, or `{}`. */
  function Stored<T>(n: Node<T>): Payload<T>
  {
    match n.data
    case Some(p) => p
    case None => EmptyObject
  }

  /** The payload stored by `add(arg)`: a truthy argument (`Some`) is stored
      as it is; a falsy or missing one (`None`) makes the getter store `{}`. */
  function AsPayload<T>(arg: Option<T>): Payload<T>
  {
    match arg
    case Some(x) => Item(x)
    case None => EmptyObject
  }

  /** The payloads of a sequence of nodes, in order. */
  function PayloadsOf<T>(ns: seq<Node<T>>): seq<Payload<T>>
  {
    seq(|ns|, i requires 0 <= i < |ns| => Stored(ns[i]))
  }

  /** Appending nodes appends their payloads. */
  lemma PayloadsOfAppend<T>(a: seq<Node<T>>, b: seq<Node<T>>)
    ensures PayloadsOf(a + b) == PayloadsOf(a) + PayloadsOf(b)
  {
    var l, r := PayloadsOf(a + b), PayloadsOf(a) + PayloadsOf(b);
    assert |l| == |r|;
    forall i | 0 <= i < |l| ensures l[i] == r[i] {
      if i < |a| {
        assert (a + b)[i] == a[i];
      } else {
        assert (a + b)[i] == b[i - |a|];
      }
    }
  }

  /** The node at position i of an append-only list: linked to i - 1 and
      i + 1, and holding a payload (every `add` stores one). */
  predicate Linked<T>(n: Node<T>, i: int)
  {
    n.next == i + 1 && n.previous == i - 1 && n.data.Some?
  }

  class List<T> {
    /** `_nodes`: the backing array; a handle is a position in it. */
    var nodes: seq<Node<T>>

    /** The append-only invariant: every node links to its neighbours' positions. */
    ghost predicate Valid()
      reads this
    {
      forall i :: 0 <= i < |nodes| ==> Linked(nodes[i], i)
    }

    /** The payloads in list order. */
    ghost function Payloads(): seq<Payload<T>>
      reads this
    {
      PayloadsOf(nodes)
    }

    constructor ()
      ensures Valid() && nodes == []
    {
      nodes := [];
    }

    /** `size`: the number of nodes, which is the number of positions
        `getAt` resolves; zero exactly when there is no head, and otherwise
        one past the tail's position. */
    function Size(): (r: nat)
      reads this
      ensures forall i :: GetAt(i).Some? <==> 0 <= i < r
      ensures r == 0 <==> Head().None?
      ensures r > 0 ==> Tail() == Some(r - 1)
    {
      |nodes|
    }

    /** `getAt`: the node at `index`; absent outside `[0, size)`, never
        wrapping around and never counting from the end. */
    function GetAt(index: int): (r: Option<nat>)
      reads this
      ensures r.Some? <==> 0 <= index < |nodes|
      ensures r.Some? ==> r.value == index && r.value < |nodes|
    {
      if 0 <= index < |nodes| then Some(index) else None
    }

    /** `head`: the first node, absent exactly when the list is empty; it has no predecessor. */
    function Head(): (r: Option<nat>)
      reads this
      ensures r.None? <==> |nodes| == 0
      ensures r.Some? ==> r.value == 0
      ensures r.Some? && Valid() ==> !HasPrevious(r.value)
    {
      if |nodes| == 0 then None else Some(0)
    }

    /** `tail`: the last node, absent exactly when the list is empty; it has no successor. */
    function Tail(): (r: Option<nat>)
      reads this
      ensures r.None? <==> |nodes| == 0
      ensures r.Some? ==> r.value == |nodes| - 1
      ensures r.Some? && Valid() ==> !HasNext(r.value)
    {
      if |nodes| == 0 then None else Some(|nodes| - 1)
    }

    /** The payload the node at `h` holds, as its getter reads it. */
    function PayloadAt(h: nat): Payload<T>
      reads this
      requires h < |nodes|
    {
      Stored(nodes[h])
    }

    /** `Node.next()` (the getter form): resolves the node's next link
        through `getAt`; it is the following node, absent at the tail. */
    function Next(h: nat): (r: Option<nat>)
      reads this
      requires Valid() && h < |nodes|
      ensures r.Some? <==> h + 1 < |nodes|
      ensures r.Some? ==> r.value == h + 1
    {
      GetAt(nodes[h].next)
    }

    /** `Node.previous()` (the getter form): the preceding node, absent at the head. */
    function Previous(h: nat): (r: Option<nat>)
      reads this
      requires Valid() && h < |nodes|
      ensures r.Some? <==> h > 0
      ensures r.Some? ==> r.value == h - 1
    {
      GetAt(nodes[h].previous)
    }

    /** `Node.hasNext`: true exactly when the node is not the tail. */
    function HasNext(h: nat): (r: bool)
      reads this
      requires Valid() && h < |nodes|
      ensures r <==> h + 1 < |nodes|
    {
      Next(h).Some?
    }

    /** `Node.hasPrevious`: true exactly when the node is not the head. */
    function HasPrevious(h: nat): (r: bool)
      reads this
      requires Valid() && h < |nodes|
      ensures r <==> h != 0
    {
      Previous(h).Some?
    }

    /** `Node.getIndex`: the mean of the two links. The links sum to 2h, so
        the division is exact and the result is the node's own position. */
    function GetIndex(h: nat): (r: int)
      reads this
      requires Valid() && h < |nodes|
      ensures r == h
    {
      (nodes[h].next + nodes[h].previous) / 2
    }

    /** `Node.data(arg)`: a truthy argument is stored and nothing is returned;
        a falsy or missing one returns the stored payload, storing `{}` first
        when there was none. */
    method Data(h: nat, arg: Option<T>) returns (r: Option<Payload<T>>)
      requires h < |nodes|
      modifies this
      ensures arg.Some? ==> r == None && nodes == old(nodes)[h := old(nodes)[h].(data := Some(Item(arg.value)))]
      ensures arg.None? ==> r == Some(Stored(old(nodes)[h])) && nodes == old(nodes)[h := old(nodes)[h].(data := r)]
      ensures arg.None? && old(nodes)[h].data.Some? ==> nodes == old(nodes)
      ensures old(Valid()) ==> Valid()
    {
      if arg.Some? {
        nodes := nodes[h := nodes[h].(data := Some(Item(arg.value)))];
        r := None;
      } else {
        if nodes[h].data.None? {
          nodes := nodes[h := nodes[h].(data := Some(EmptyObject))];
        }
        r := nodes[h].data;
      }
    }

    /** `Node.next(index)` (the setter form): stores a raw next link. */
    method SetNext(h: nat, index: int)
      requires h < |nodes|
      modifies this
      ensures nodes == old(nodes)[h := old(nodes)[h].(next := index)]
    {
      nodes := nodes[h := nodes[h].(next := index)];
    }

    /** `Node.previous(index)` (the setter form): stores a raw previous link. */
    method SetPrevious(h: nat, index: int)
      requires h < |nodes|
      modifies this
      ensures nodes == old(nodes)[h := old(nodes)[h].(previous := index)]
    {
      nodes := nodes[h := nodes[h].(previous := index)];
    }

    /** `add`: appends one node at position `size()` (the old size), linked
        to the positions on either side; earlier nodes are left as they were. */
    method Add(arg: Option<T>) returns (h: nat)
      modifies this
      ensures old(Valid()) ==> Valid()
      ensures h == |old(nodes)| && |nodes| == h + 1
      ensures nodes == old(nodes) + [Node(Some(AsPayload(arg)), h + 1, h - 1)]
      ensures Payloads() == old(Payloads()) + [AsPayload(arg)]
    {
      // the fresh node's links are placeholders until set just below
      nodes := nodes + [Node(None, 0, 0)];
      var length := |nodes|;
      h := length - 1;
      var _ := Data(h, arg);
      SetNext(h, length);
      SetPrevious(h, length - 2);
      assert nodes[h] == Node(Some(AsPayload(arg)), h + 1, h - 1);
      PayloadsOfAppend(old(nodes), [nodes[h]]);
    }

    /** `empty`: discards every node. */
    method Empty()
      modifies this
      ensures Valid() && nodes == [] && Head().None? && Tail().None?
    {
      nodes := [];
    }

    /** `forEachNode`: follows `next` from the head until it is absent; the
        nodes are visited once each, in position order. */
    method ForEachNode() returns (visited: seq<nat>)
      requires Valid()
      ensures |visited| == |nodes|
      ensures forall i :: 0 <= i < |visited| ==> visited[i] == i
    {
      visited := [];
      var n := Head();
      while n.Some?
        invariant |visited| <= |nodes|
        invariant n.Some? ==> n.value == |visited| < |nodes|
        invariant n.None? ==> |visited| == |nodes|
        invariant forall i :: 0 <= i < |visited| ==> visited[i] == i
        decreases |nodes| - |visited|
      {
        visited := visited + [n.value];
        n := Next(n.value);
      }
    }
  }
}
