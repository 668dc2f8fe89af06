/** The linked queue of data_queue.c, refined to a sequence. The methods are the parts of the
    program that run under the queue's lock. */
module DataQueue {
  import opened Bytes

  /** The queue without its links: the items, the state and the shutdown flag. */
  datatype View<T> = View(items: seq<T>, used: bool, shutdown: bool)

  function Empty<T>(): View<T> {
    View([], false, false)
  }

  /** After an add; the handler is signalled if the state said empty before. */
  function Added<T>(q: View<T>, item: T): View<T> {
    View(q.items + [item], true, q.shutdown)
  }

  function Signals<T>(q: View<T>): bool {
    !q.used
  }

  /** After a get. */
  function Taken<T>(q: View<T>): View<T> {
    var rest := if q.items == [] then [] else q.items[1..];
    View(rest, rest != [], q.shutdown)
  }

  function Stopped<T>(q: View<T>): View<T> {
    q.(shutdown := true)
  }

  class Node<T> {
    const data: T
    var next: Node?<T>

    constructor (data: T)
      ensures this.data == data && next == null
    {
      this.data := data;
      next := null;
    }
  }

  class Queue<T> {
    var top: Node?<T>
    var bottom: Node?<T>
    var used: bool  // DATA_QUEUE_USED
    var shutdown: bool
    ghost var nodes: seq<Node<T>>

    ghost predicate Valid()
      reads this, nodes
    {
      && top == (if nodes == [] then null else nodes[0])
      && bottom == (if nodes == [] then null else nodes[|nodes| - 1])
      && used == (nodes != [])
      && (forall i, j :: 0 <= i < j < |nodes| ==> nodes[i] != nodes[j])
      && (forall i :: 0 <= i < |nodes| - 1 ==> nodes[i].next == nodes[i + 1])
      && (nodes != [] ==> nodes[|nodes| - 1].next == null)
    }

    ghost function Contents(): (s: seq<T>)
      reads this
      ensures |s| == |nodes|
    {
      seq(|nodes|, i requires 0 <= i < |nodes| reads this => nodes[i].data)
    }

    ghost function Value(): View<T>
      reads this
    {
      View(Contents(), used, shutdown)
    }

    constructor ()
      ensures Valid() && Value() == Empty()
    {
      top, bottom, used, shutdown, nodes := null, null, false, false, [];
    }

    /** `data_queue_add`. */
    method Add(data: T) returns (signal: bool)
      requires Valid()
      modifies this`top, this`bottom, this`used, this`nodes, nodes
      ensures Valid() && Value() == Added(old(Value()), data)
      ensures Contents() == old(Contents()) + [data] && used && shutdown == old(shutdown)
      ensures signal == Signals(old(Value())) && signal == (old(Contents()) == [])
      ensures fresh(nodes[|nodes| - 1]) && nodes == old(nodes) + [nodes[|nodes| - 1]]
    {
      var item := new Node(data);
      if top == null {
        top := item;
      }
      if bottom != null {
        bottom.next := item;
      }
      bottom := item;
      bottom.next := null;
      signal := !used;
      used := true;
      nodes := nodes + [item];
    }

    /** `data_queue_get`. */
    method Get() returns (item: Option<T>)
      requires Valid()
      modifies this`top, this`bottom, this`used, this`nodes
      ensures Valid() && Value() == Taken(old(Value()))
      ensures item == if old(Contents()) == [] then None else Some(old(Contents())[0])
      ensures Contents() == if old(Contents()) == [] then [] else old(Contents())[1..]
      ensures used == (Contents() != []) && shutdown == old(shutdown)
    {
      item := None;
      if top != null {
        item := Some(top.data);
        top := top.next;
        nodes := nodes[1..];
      }
      if top == null {
        bottom := null;
      }
      used := top != null;
    }

    /** `data_queue_stop`, up to its signal. */
    method Stop()
      requires Valid()
      modifies this`shutdown
      ensures Valid() && Value() == Stopped(old(Value()))
      ensures shutdown && Contents() == old(Contents()) && used == old(used)
    {
      shutdown := true;
    }
  }
}
