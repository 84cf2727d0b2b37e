/**
 * A singly linked list of events with a head, a tail and a cursor for
 * walking it. Nodes are appended at the tail; the cursor is moved to the
 * head by `ResetPosition` and along the list by `Next`.
 */
module EventLists {
  import opened LibC
  import opened Events

  class Node {
    const event: Event
    var next: Node?

    constructor (event: Event)
      ensures this.event == event && next == null
    {
      this.event := event;
      next := null;
    }
  }

  class EventList {
    var head: Node?
    var tail: Node?
    var current: Node?

    /** The nodes from head to tail, and the index of the cursor's node (None for NULL). */
    ghost var nodes: seq<Node>
    /** The events in the list, in order: those of `nodes`. */
    ghost var Contents: seq<Event>
    ghost var cursor: Option<nat>
    ghost var Repr: set<object>

    ghost predicate Valid()
      reads this, Repr
    {
      this in Repr &&
      |Contents| == |nodes| &&
      (forall i :: 0 <= i < |nodes| ==> nodes[i].event == Contents[i]) &&
      (forall i :: 0 <= i < |nodes| ==> nodes[i] in Repr) &&
      (forall i, j :: 0 <= i < j < |nodes| ==> nodes[i] != nodes[j]) &&
      (forall i {:trigger nodes[i].next} :: 0 <= i < |nodes| - 1 ==> nodes[i].next == nodes[i + 1]) &&
      (if |nodes| == 0 then head == null && tail == null
       else head == nodes[0] && tail == nodes[|nodes| - 1] && tail.next == null) &&
      (match cursor
       case None => current == null
       case Some(k) => k < |nodes| && current == nodes[k])
    }

    /** The events `Next` still returns, in order, before it returns NULL. */
    ghost function Remaining(): (r: seq<Event>)
      reads this
      ensures |r| <= |Contents|
    {
      match cursor
      case None => []
      case Some(k) => if k <= |Contents| then Contents[k..] else []
    }

    /** `eventListCreate`: an empty list with no cursor. */
    constructor ()
      ensures Valid() && fresh(Repr)
      ensures Contents == [] && Remaining() == []
    {
      head := null;
      tail := null;
      current := null;
      nodes := [];
      Contents := [];
      cursor := None;
      Repr := {this};
    }

    /** `eventListResetPosition`: `Next` starts again from the head. */
    method ResetPosition()
      requires Valid()
      modifies this
      ensures Valid() && Repr == old(Repr)
      ensures Contents == old(Contents)
      ensures Remaining() == Contents
    {
      current := head;
      cursor := if |nodes| == 0 then None else Some(0);
    }

    /**
     * `eventListNext`: the event under the cursor, which then moves on, or
     * null once the cursor is past the tail.
     */
    method Next() returns (e: Event?)
      requires Valid()
      modifies this
      ensures Valid() && Repr == old(Repr)
      ensures Contents == old(Contents)
      ensures old(Remaining()) == [] ==> e == null && Remaining() == []
      ensures old(Remaining()) != [] ==> e == old(Remaining())[0] && Remaining() == old(Remaining())[1..]
      ensures old(Remaining()) != [] ==> e == Contents[|Contents| - |old(Remaining())|]
    {
      e := null;
      if current != null {
        e := current.event;
        current := current.next;
        var k := cursor.value;
        cursor := if k + 1 < |nodes| then Some(k + 1) else None;
      }
    }

    /**
     * `eventListInsertLast`: a non-null event is appended in a new node; null
     * is refused with false. A cursor that is on a node reaches the new one;
     * a NULL cursor stays NULL.
     */
    method InsertLast(toInsert: Event?) returns (result: bool)
      requires Valid()
      modifies Repr
      ensures Valid() && fresh(Repr - old(Repr))
      ensures result <==> toInsert != null
      ensures Contents == old(Contents) + (if toInsert != null then [toInsert] else [])
      ensures Remaining() == old(Remaining()) + (if toInsert != null && old(cursor).Some? then [toInsert] else [])
      ensures cursor == old(cursor)
    {
      result := false;
      if toInsert != null {
        var node := new Node(toInsert);
        if head == null {
          head := node;
        }
        if tail != null {
          tail.next := node;
        }
        tail := node;
        nodes := nodes + [node];
        Contents := Contents + [toInsert];
        Repr := Repr + {node};
        result := true;
      }
    }

    /**
     * `eventListDestroy`: walks the list from the head, releasing each node
     * and its event; the events are returned in the order they are released.
     */
    method Destroy() returns (released: seq<Event>)
      requires Valid()
      ensures released == Contents
    {
      released := [];
      var node := head;
      var k := 0;
      while node != null
        invariant 0 <= k <= |nodes|
        invariant node == if k < |nodes| then nodes[k] else null
        invariant released == Contents[..k]
        decreases |nodes| - k
      {
        var nextNode := node.next;
        released := released + [node.event];
        node := nextNode;
        k := k + 1;
      }
    }
  }

  /** Dropping `k` values from `a + b`, when `a` has at least `k`, drops them from `a`. */
  lemma DropOfAppend(a: seq<EventValue>, b: seq<EventValue>, k: nat)
    requires k <= |a|
    ensures (a + b)[k..] == a[k..] + b
  {
  }

  /**
   * A list that held `before`, with the cursor `cursor` and `remaining`
   * events ahead of it, whose cursor has not moved since and whose values
   * have grown by `added`: a NULL cursor is still NULL, and the events ahead
   * of a cursor on a node have the values of those that were ahead of it,
   * then `added`.
   */
  lemma RemainingAfterAppends(list: EventList, before: seq<Event>, cursor: Option<nat>, remaining: seq<Event>,
                              added: seq<EventValue>)
    requires list.cursor == cursor && ValuesOf(list.Contents) == ValuesOf(before) + added
    requires match cursor
      case None => remaining == []
      case Some(k) => k < |before| && remaining == before[k..]
    ensures remaining == [] ==> list.Remaining() == []
    ensures remaining != [] ==> ValuesOf(list.Remaining()) == ValuesOf(remaining) + added
  {
    if cursor.Some? {
      var k := cursor.value;
      assert |list.Contents| == |ValuesOf(before) + added|;
      assert list.Remaining() == list.Contents[k..];
      ValuesOfDrop(list.Contents, k);
      ValuesOfDrop(before, k);
      DropOfAppend(ValuesOf(before), added, k);
    }
  }

  /**
   * Three events appended to a new list come back from `Next` in the order
   * they were inserted, after a reset.
   */
  method InsertThreeAndWalk(one: Event, two: Event, three: Event) returns (x: Event?, y: Event?, z: Event?, w: Event?)
    ensures x == one && y == two && z == three && w == null
  {
    var list := new EventList();
    var ok := list.InsertLast(one);
    assert list.Contents == [one];
    ok := list.InsertLast(two);
    assert list.Contents == [one, two];
    ok := list.InsertLast(three);
    assert list.Contents == [one, two, three];
    list.ResetPosition();
    x := list.Next();
    assert list.Remaining() == [two, three];
    y := list.Next();
    assert list.Remaining() == [three];
    z := list.Next();
    assert list.Remaining() == [];
    w := list.Next();
  }

  /** Inserting null into a new list is refused and leaves it empty; one event makes head and tail the same node. */
  method InsertNullThenOne(e: Event) returns (refused: bool, emptyAfter: bool, sameEnds: bool, noCursor: bool)
    ensures refused && emptyAfter && sameEnds && noCursor
  {
    var list := new EventList();
    var ok := list.InsertLast(null);
    refused := !ok;
    emptyAfter := list.head == null && list.tail == null;
    ok := list.InsertLast(e);
    sameEnds := list.head != null && list.head == list.tail;
    noCursor := list.current == null;
  }
}
