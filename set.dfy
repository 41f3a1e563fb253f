/**
 * The iterating set (dist/Set.js): a linked list plus one mutable cursor,
 * the "current node", used as an iterator.
 *
 * The cursor is kept as the position of the node it refers to. It is
 * defaulted to the head on the first access that finds it unset. `empty`
 * discards the nodes but not the cursor; such a cursor refers to a
 * discarded node (it is stale) until `select` moves it onto a live one.
 */
module Set {
  import opened Wrappers
  import opened LinkedList

  /** The error a cursor read raises when the list is empty and no cursor exists. */
  datatype CursorError = NoCursor

  /** What the cursor accessor returns: the set itself, for chaining, when it
      was given a node to point at; the cursor node otherwise. */
  datatype Accessed = This | Cursor(at: Option<nat>)

  /** The link an iterator step follows. */
  datatype Direction = Forward | Backward

  /** One call of a `forEach` callback: the payload and the zero-based index. */
  datatype Visit<T> = Visit(payload: Payload<T>, index: nat)

  /** Where a forward step leaves a cursor at `p` in a list of `size` nodes. */
  function NextPos(p: nat, size: nat): nat
  {
    if p + 1 < size then p + 1 else p
  }

  /** Where a backward step leaves a cursor at `p`. */
  function PrevPos(p: nat): nat
  {
    if p >= 1 then p - 1 else p
  }

  /** The cursor position after `k` forward steps. */
  function Advance(p: nat, size: nat, k: nat): nat
    decreases k
  {
    if k == 0 then p else Advance(NextPos(p, size), size, k - 1)
  }

  /** The cursor position after `k` backward steps. */
  function Retreat(p: nat, k: nat): nat
    decreases k
  {
    if k == 0 then p else Retreat(PrevPos(p), k - 1)
  }

  /** Forward steps move one node each until the tail, and then stay there:
      from the head, `size - 1` steps reach the tail and more steps keep it. */
  lemma {:induction false} AdvanceStopsAtTail(p: nat, size: nat, k: nat)
    requires p < size
    ensures Advance(p, size, k) == if p + k < size then p + k else size - 1
    decreases k
  {
    if k > 0 {
      AdvanceStopsAtTail(NextPos(p, size), size, k - 1);
    }
  }

  /** Backward steps move one node each until the head, and then stay there. */
  lemma {:induction false} RetreatStopsAtHead(p: nat, k: nat)
    ensures Retreat(p, k) == if k <= p then p - k else 0
    decreases k
  {
    if k > 0 {
      RetreatStopsAtHead(PrevPos(p), k - 1);
    }
  }

  /** The payloads `addAll(items)` appends, in order. */
  function AsPayloads<T>(items: seq<Option<T>>): seq<Payload<T>>
  {
    seq(|items|, i requires 0 <= i < |items| => AsPayload(items[i]))
  }

  /** Appending items appends their payloads. */
  lemma AsPayloadsAppend<T>(a: seq<Option<T>>, b: seq<Option<T>>)
    ensures AsPayloads(a + b) == AsPayloads(a) + AsPayloads(b)
  {
    var l, r := AsPayloads(a + b), AsPayloads(a) + AsPayloads(b);
    assert |l| == |r|;
    forall i | 0 <= i < |l| ensures l[i] == r[i] {
      if i < |a| {
        assert (a + b)[i] == a[i];
      } else {
        assert (a + b)[i] == b[i - |a|];
      }
    }
  }

  class CursorSet<T> {
    /** The list the set extends. */
    const list: List<T>
    /** `_currentNode`, as the position of the node it refers to. */
    var cursor: Option<nat>
    /** Whether the cursor refers to a node that `empty` discarded. */
    ghost var stale: bool

    ghost predicate Valid()
      reads this, list
    {
      list.Valid() &&
      (stale ==> cursor.Some?) &&
      (!stale && cursor.Some? ==> cursor.value < |list.nodes|)
    }

    /** The cursor after the lazy default: unset becomes the head (if any). */
    ghost function Defaulted(): Option<nat>
      reads this, list
    {
      if cursor.None? then list.Head() else cursor
    }

    constructor ()
      ensures Valid() && fresh(list)
      ensures list.nodes == [] && cursor == None && !stale
    {
      list := new List();
      cursor := None;
      stale := false;
    }

    /** `add`, inherited from the list: the cursor is left alone. */
    method Add(arg: Option<T>) returns (h: nat)
      modifies list
      ensures old(Valid()) ==> Valid()
      ensures cursor == old(cursor)
      ensures h == |old(list.nodes)|
      ensures list.nodes == old(list.nodes) + [Node(Some(AsPayload(arg)), h + 1, h - 1)]
      ensures list.Payloads() == old(list.Payloads()) + [AsPayload(arg)]
    {
      h := list.Add(arg);
    }

    /** `empty`, inherited from the list: the nodes go, the cursor stays,
        and any cursor now refers to a discarded node. */
    method Empty()
      modifies this, list
      ensures Valid()
      ensures list.nodes == [] && cursor == old(cursor)
      ensures stale == old(cursor).Some?
    {
      list.Empty();
      stale := cursor.Some?;
    }

    /** `addAll`: appends the items one by one, in order. */
    method AddAll(items: seq<Option<T>>)
      modifies list
      ensures old(Valid()) ==> Valid()
      ensures cursor == old(cursor)
      ensures |list.nodes| == |old(list.nodes)| + |items|
      ensures list.nodes[..|old(list.nodes)|] == old(list.nodes)
      ensures list.Payloads() == old(list.Payloads()) + AsPayloads(items)
    {
      var i := 0;
      while i < |items|
        invariant 0 <= i <= |items|
        invariant old(Valid()) ==> Valid()
        invariant |list.nodes| == |old(list.nodes)| + i
        invariant list.nodes[..|old(list.nodes)|] == old(list.nodes)
        invariant list.Payloads() == old(list.Payloads()) + AsPayloads(items[..i])
      {
        var _ := list.Add(items[i]);
        assert items[..i + 1] == items[..i] + [items[i]];
        AsPayloadsAppend(items[..i], [items[i]]);
        i := i + 1;
      }
      assert items[..i] == items;
    }

    /** `forEach`: follows `next` from the head, whatever the cursor, and
        calls back once per node with its payload and its position. */
    method ForEach() returns (visits: seq<Visit<T>>)
      requires Valid()
      ensures |visits| == |list.nodes|
      ensures forall i :: 0 <= i < |visits| ==> visits[i] == Visit(list.PayloadAt(i), i)
    {
      visits := [];
      var idx := 0;
      var n := list.Head();
      while n.Some?
        invariant idx == |visits| <= |list.nodes|
        invariant n.Some? ==> n.value == idx < |list.nodes|
        invariant n.None? ==> idx == |list.nodes|
        invariant forall i :: 0 <= i < idx ==> visits[i] == Visit(list.PayloadAt(i), i)
        decreases |list.nodes| - idx
      {
        visits := visits + [Visit(list.PayloadAt(n.value), idx)];
        n := list.Next(n.value);
        idx := idx + 1;
      }
    }

    /** `getAll`: the payloads in list order, collected through `forEach`. */
    method GetAll() returns (all: seq<Payload<T>>)
      requires Valid()
      ensures all == list.Payloads()
    {
      var visits := ForEach();
      all := [];
      var i := 0;
      while i < |visits|
        invariant 0 <= i <= |visits|
        invariant |all| == i
        invariant forall j :: 0 <= j < i ==> all[j] == visits[j].payload
      {
        all := all + [visits[i].payload];
        i := i + 1;
      }
    }

    /** The private `currentNode` accessor: defaults an unset cursor to the
        head; given a node, points the cursor at it and returns `This`;
        otherwise returns the cursor node. */
    method CurrentNode(node: Option<nat>) returns (r: Accessed)
      requires Valid()
      requires node.Some? ==> node.value < |list.nodes|
      modifies this
      ensures Valid()
      ensures node.Some? ==> cursor == node && !stale && r == This
      ensures node.None? ==> cursor == old(Defaulted()) && stale == old(stale) && r == Cursor(cursor)
    {
      if cursor.None? {
        cursor := list.Head();
      }
      if node.Some? {
        cursor := node;
        stale := false;
        r := This;
      } else {
        r := Cursor(cursor);
      }
    }

    /** `select`: an in-range index moves the cursor there and returns the
        set; any other index leaves the cursor where it was (after the lazy
        default) and returns the cursor node. */
    method Select(index: int) returns (r: Accessed)
      requires Valid()
      modifies this
      ensures Valid()
      ensures 0 <= index < |list.nodes| ==> cursor == Some(index) && !stale && r == This
      ensures !(0 <= index < |list.nodes|) ==>
                cursor == old(Defaulted()) && stale == old(stale) && r == Cursor(cursor)
    {
      r := CurrentNode(list.GetAt(index));
    }

    /** `current`: the cursor node's payload; fails exactly when the list is
        empty (no cursor can be defaulted). */
    method Current() returns (r: Result<Payload<T>, CursorError>)
      requires Valid() && !stale
      modifies this
      ensures Valid() && !stale && cursor == old(Defaulted())
      ensures r.Failure? <==> |list.nodes| == 0
      ensures r.Failure? ==> r == Failure(NoCursor)
      ensures r.Success? ==> cursor.Some? && r.value == list.PayloadAt(cursor.value)
    {
      var c := CurrentNode(None);
      if c.at.None? {
        r := Failure(NoCursor);
      } else {
        r := Success(list.PayloadAt(c.at.value));
      }
    }

    /** `currentIndex`: the position of the cursor node. */
    method CurrentIndex() returns (r: Result<int, CursorError>)
      requires Valid() && !stale
      modifies this
      ensures Valid() && !stale && cursor == old(Defaulted())
      ensures r.Failure? <==> |list.nodes| == 0
      ensures r.Failure? ==> r == Failure(NoCursor)
      ensures r.Success? ==> cursor.Some? && r.value == cursor.value < |list.nodes|
    {
      var c := CurrentNode(None);
      if c.at.None? {
        r := Failure(NoCursor);
      } else {
        r := Success(list.GetIndex(c.at.value));
      }
    }

    /** The private `objInDir`: follows one link from the cursor node; when
        a node is there, moves the cursor onto it and returns its payload,
        otherwise returns nothing and leaves the cursor in place. */
    method ObjInDir(dir: Direction) returns (r: Result<Option<Payload<T>>, CursorError>)
      requires Valid() && !stale
      modifies this
      ensures Valid() && !stale
      ensures old(Defaulted()).None? ==> r == Failure(NoCursor) && cursor == None
      ensures old(Defaulted()).Some? ==>
                var p := old(Defaulted()).value;
                var q := if dir == Forward then NextPos(p, |list.nodes|) else PrevPos(p);
                cursor == Some(q) &&
                r == Success(if q != p then Some(list.PayloadAt(q)) else None)
    {
      var c := CurrentNode(None);
      if c.at.None? {
        r := Failure(NoCursor);
        return;
      }
      var node := if dir == Forward then list.Next(c.at.value) else list.Previous(c.at.value);
      if node.Some? {
        var _ := CurrentNode(node);
        r := Success(Some(list.PayloadAt(node.value)));
      } else {
        r := Success(None);
      }
    }

    /** `next`: advances the cursor and returns the new node's payload; at
        the tail returns nothing and keeps the cursor there. */
    method Next() returns (r: Result<Option<Payload<T>>, CursorError>)
      requires Valid() && !stale
      modifies this
      ensures Valid() && !stale
      ensures r.Failure? <==> |list.nodes| == 0
      ensures old(Defaulted()).None? ==> r == Failure(NoCursor) && cursor == None
      ensures old(Defaulted()).Some? ==>
                var p := old(Defaulted()).value;
                cursor == Some(NextPos(p, |list.nodes|)) &&
                r == Success(if p + 1 < |list.nodes| then Some(list.PayloadAt(p + 1)) else None)
    {
      r := ObjInDir(Forward);
    }

    /** `previous`: moves the cursor back and returns the new node's
        payload; at the head returns nothing and keeps the cursor there. */
    method Previous() returns (r: Result<Option<Payload<T>>, CursorError>)
      requires Valid() && !stale
      modifies this
      ensures Valid() && !stale
      ensures r.Failure? <==> |list.nodes| == 0
      ensures old(Defaulted()).None? ==> r == Failure(NoCursor) && cursor == None
      ensures old(Defaulted()).Some? ==>
                var p := old(Defaulted()).value;
                cursor == Some(PrevPos(p)) &&
                r == Success(if p >= 1 then Some(list.PayloadAt(p - 1)) else None)
    {
      r := ObjInDir(Backward);
    }

    /** `hasNext`: whether the cursor node has a successor; the cursor does
        not move beyond the lazy default. */
    method HasNext() returns (r: Result<bool, CursorError>)
      requires Valid() && !stale
      modifies this
      ensures Valid() && !stale && cursor == old(Defaulted())
      ensures cursor.None? ==> r == Failure(NoCursor)
      ensures cursor.Some? ==> r == Success(cursor.value + 1 < |list.nodes|)
    {
      var c := CurrentNode(None);
      if c.at.None? {
        r := Failure(NoCursor);
      } else {
        r := Success(list.HasNext(c.at.value));
      }
    }

    /** `hasPrevious`: whether the cursor node has a predecessor; the cursor
        does not move beyond the lazy default. */
    method HasPrevious() returns (r: Result<bool, CursorError>)
      requires Valid() && !stale
      modifies this
      ensures Valid() && !stale && cursor == old(Defaulted())
      ensures cursor.None? ==> r == Failure(NoCursor)
      ensures cursor.Some? ==> r == Success(cursor.value > 0)
    {
      var c := CurrentNode(None);
      if c.at.None? {
        r := Failure(NoCursor);
      } else {
        r := Success(list.HasPrevious(c.at.value));
      }
    }

    /** `peek(which)`: the payload `which` positions away from the cursor
        when that position is in range, nothing otherwise; the cursor does
        not move beyond the lazy default, and `peek(0)` is `current()`. */
    method Peek(which: int) returns (r: Result<Option<Payload<T>>, CursorError>)
      requires Valid() && !stale
      modifies this
      ensures Valid() && !stale && cursor == old(Defaulted())
      ensures cursor.None? ==> r == Failure(NoCursor)
      ensures cursor.Some? ==>
                var k := cursor.value + which;
                r == Success(if 0 <= k < |list.nodes| then Some(list.PayloadAt(k)) else None)
      ensures which == 0 && cursor.Some? ==> r == Success(Some(list.PayloadAt(cursor.value)))
    {
      var ci := CurrentIndex();
      if ci.Failure? {
        r := Failure(NoCursor);
        return;
      }
      var peekIdx := ci.value + which;
      if 0 <= peekIdx < list.Size() {
        r := Success(Some(list.PayloadAt(peekIdx)));
      } else {
        r := Success(None);
      }
    }
  }

  /** A client: the contracts alone determine every answer of this sequence of calls. */
  method Walkthrough()
  {
    var s := new CursorSet<int>();
    s.AddAll([Some(10), Some(20), Some(30)]);
    var all := s.GetAll();
    assert all == [Item(10), Item(20), Item(30)];
    assert forall i :: 0 <= i < 3 ==> s.list.PayloadAt(i) == s.list.Payloads()[i];
    var sel := s.Select(1);
    assert sel == This;
    var cur := s.Current();
    assert cur == Success(Item(20));
    var idx := s.CurrentIndex();
    assert idx == Success(1);
    var n := s.Next();
    assert n == Success(Some(Item(30)));
    var p1 := s.Previous();
    assert p1 == Success(Some(Item(20)));
    var p2 := s.Previous();
    assert p2 == Success(Some(Item(10)));
    var p3 := s.Previous();
    assert p3 == Success(None) && s.cursor == Some(0);
    var bad := s.Select(5);
    assert bad == Cursor(Some(0)) && s.cursor == Some(0);
    s.Empty();
    assert s.list.Size() == 0 && s.stale;
  }

  /** Reads a set from its head: `select(0)`, `current`, then `next` until
      the tail; the payloads come out in list order, and `k` steps of `next`
      land where `AdvanceStopsAtTail` says. */
  method ReadFromHead<T>(s: CursorSet<T>) returns (seen: seq<Payload<T>>)
    requires s.Valid() && |s.list.nodes| >= 1
    modifies s
    ensures s.Valid() && !s.stale && s.cursor == Some(|s.list.nodes| - 1)
    ensures seen == s.list.Payloads()
  {
    var n := |s.list.nodes|;
    ghost var ps := s.list.Payloads();
    var _ := s.Select(0);
    var cur := s.Current();
    seen := [cur.value];
    var k := 0;
    while k < n - 1
      invariant 0 <= k <= n - 1
      invariant s.Valid() && !s.stale
      invariant s.cursor == Some(Advance(0, n, k))
      invariant seen == ps[..k + 1]
    {
      AdvanceStopsAtTail(0, n, k);
      AdvanceStopsAtTail(0, n, k + 1);
      var r := s.Next();
      seen := seen + [r.value.value];
      assert ps[..k + 2] == ps[..k + 1] + [ps[k + 1]];
      k := k + 1;
    }
    AdvanceStopsAtTail(0, n, n - 1);
    assert ps[..n] == ps;
  }

  /** A client that iterates over any non-empty set: after `addAll(items)`,
      `getAll` gives the items' payloads back; `select(0)`, `current` and
      then `next` called `|items| - 1` times yield those payloads in order;
      one more `next` at the tail yields nothing and the cursor stays there. */
  method WalkToTail<T>(items: seq<Option<T>>)
    returns (all: seq<Payload<T>>, seen: seq<Payload<T>>, last: Result<Option<Payload<T>>, CursorError>)
    requires |items| >= 1
    ensures all == AsPayloads(items)
    ensures seen == AsPayloads(items)
    ensures last == Success(None)
  {
    var s := new CursorSet<T>();
    assert s.Valid() && s.list.Payloads() == [];
    s.AddAll(items);
    all := s.GetAll();
    seen := ReadFromHead(s);
    last := s.Next();
  }
}
