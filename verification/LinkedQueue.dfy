/** The singly linked queue with a tail pointer that carries messages and chunks. */
module LinkedQueue {
  class Cell<T> {
    var data: T
    var next: Cell?<T>

    constructor (data: T, next: Cell?<T>)
      ensures this.data == data && this.next == next
    {
      this.data, this.next := data, next;
    }
  }

  /** The k-th cell, or none behind the last one. */
  ghost function CellAt<T>(cells: seq<Cell<T>>, k: nat): Cell?<T> {
    if k < |cells| then cells[k] else null
  }

  class Queue<T> {
    var top: Cell?<T>
    var tail: Cell?<T>
    ghost var cells: seq<Cell<T>>  // the cells from top to tail
    ghost var contents: seq<T>     // the sequence this queue stands for
    ghost var spine: set<Cell<T>>  // the cells, as a frame

    ghost predicate Linked()
      reads this, spine
    {
      && (forall i | 0 <= i < |cells| :: cells[i] in spine)
      && (forall i | 0 <= i < |cells| :: cells[i].next == CellAt(cells, i + 1))
      && (forall i, j | 0 <= i < j < |cells| :: cells[i] != cells[j])
    }

    /** The chain from top is acyclic, ends in tail, and holds the contents in order. */
    ghost predicate Valid()
      reads this, spine
    {
      && Linked()
      && top == (if cells == [] then null else cells[0])
      && tail == (if cells == [] then null else cells[|cells| - 1])
      && |contents| == |cells| && forall i | 0 <= i < |cells| :: cells[i].data == contents[i]
    }

    constructor ()
      ensures Valid() && contents == [] && spine == {}
    {
      top, tail := null, null;
      cells, contents, spine := [], [], {};
    }

    method Push(data: T)
      requires Valid()
      modifies this, spine
      ensures Valid() && contents == old(contents) + [data] && fresh(spine - old(spine))
    {
      var cell := new Cell(data, null);
      if tail != null {
        tail.next := cell;
        tail := cell;
      } else {
        top, tail := cell, cell;
      }
      cells, contents, spine := cells + [cell], contents + [data], spine + {cell};
    }

    method PushFront(data: T)
      requires Valid()
      modifies this
      ensures Valid() && contents == [data] + old(contents) && fresh(spine - old(spine))
    {
      var cell := new Cell(data, top);
      top := cell;
      if tail == null {
        tail := top;
      }
      cells, contents, spine := [cell] + cells, [data] + contents, spine + {cell};
      forall i | 0 <= i < |cells|
        ensures cells[i].next == CellAt(cells, i + 1)
      {
        assert i > 0 ==> cells[i] == old(cells)[i - 1];
      }
    }

    /** Nonzero, and no change, when there is nothing to pop. */
    method Pop() returns (r: int)
      requires Valid()
      modifies this
      ensures Valid() && spine == old(spine)
      ensures r == 0 <==> old(contents) != []
      ensures contents == if r == 0 then old(contents)[1..] else old(contents)
    {
      if top == null {
        return 1;
      }
      var was := top;
      top := was.next;
      if was == tail {
        tail := null;
      }
      cells, contents := cells[1..], contents[1..];
      forall i | 0 <= i < |cells|
        ensures cells[i].next == CellAt(cells, i + 1)
      {
        assert cells[i] == old(cells)[i + 1];
      }
      return 0;
    }

    method Top() returns (data: T)
      requires Valid() && contents != []
      ensures data == contents[0]
    {
      data := top.data;
    }

    method Tail() returns (data: T)
      requires Valid() && contents != []
      ensures data == contents[|contents| - 1]
    {
      data := tail.data;
    }

    method IsEmpty() returns (empty: bool)
      requires Valid()
      ensures empty <==> contents == []
    {
      empty := top == null;
    }

    /** wslay_queue_free: the walk visits every cell once, in order, and ends. */
    method Free() returns (r: int, ghost freed: seq<Cell<T>>)
      requires Valid()
      ensures r == 0 && freed == cells
    {
      r, freed := 0, [];
      var cell := top;
      while cell != null
        invariant |freed| <= |cells| && freed == cells[..|freed|]
        invariant cell == if |freed| < |cells| then cells[|freed|] else null
        decreases |cells| - |freed|
      {
        var next := cell.next;
        freed := freed + [cell];
        cell := next;
      }
    }
  }
}
