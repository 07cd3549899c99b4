/** The cursor `Iterator` (iterator.go): a position in a parent list, with
    an allowed range `start`..`finish` in which -1 stands for "from the
    first node" and "up to the last node". While `lobj` is nil the cursor is
    unpositioned; `Positioned()` says that otherwise `lobj` is the node at
    `index`. */
module Iterators {
  import opened Nodes
  import opened XLists

  /** A range bound that is -1 takes the default `d`. */
  function Defaulted(x: int, d: int): (r: int)
    ensures x == -1 ==> r == d
    ensures x != -1 ==> r == x
  {
    if x == -1 then d else x
  }

  class Iterator<T(==, !new)> {
    var parent: XList<T>
    var index: int
    var lobj: Node?<T>
    var start: int
    var finish: int

    /** A positioned cursor sits on the node at `index` of its list. */
    ghost predicate Positioned()
      reads this, parent
    {
      lobj != null ==> 0 <= index < |parent.nodes| && lobj == parent.nodes[index]
    }

    /** XList.Iterator(workRange...): one bound sets `start` and `index`,
        two or more set `start` and `finish`; the rest stay -1. */
    constructor (p: XList<T>, workRange: seq<int>)
      ensures parent == p && lobj == null && Positioned()
      ensures |workRange| == 0 ==> index == -1 && start == -1 && finish == -1
      ensures |workRange| == 1 ==> index == workRange[0] && start == workRange[0] && finish == -1
      ensures |workRange| >= 2 ==> index == workRange[0] && start == workRange[0] && finish == workRange[1]
    {
      parent := p;
      lobj := null;
      if |workRange| == 1 {
        index, start, finish := workRange[0], workRange[0], -1;
      } else if |workRange| >= 2 {
        index, start, finish := workRange[0], workRange[0], workRange[1];
      } else {
        index, start, finish := -1, -1, -1;
      }
    }

    /** Reset: unpositioned, with a new range; one bound sets `start`, two
        set `start` and `finish`, and any other number leaves both -1. */
    method Reset(workRange: seq<int>)
      modifies this
      ensures parent == old(parent) && lobj == null && index == -1 && Positioned()
      ensures |workRange| == 1 ==> start == workRange[0] && finish == -1
      ensures |workRange| == 2 ==> start == workRange[0] && finish == workRange[1]
      ensures |workRange| != 1 && |workRange| != 2 ==> start == -1 && finish == -1
    {
      lobj := null;
      index := -1;
      start := -1;
      finish := -1;
      if |workRange| == 1 {
        start := workRange[0];
      } else if |workRange| == 2 {
        start := workRange[0];
        finish := workRange[1];
      }
    }

    /** setInitial: the default bounds become 0 and `size - 1`. */
    method SetInitial()
      requires parent.Valid()
      modifies this
      ensures parent == old(parent) && lobj == old(lobj) && index == old(index)
      ensures start == Defaulted(old(start), 0) && finish == Defaulted(old(finish), |parent.elems| - 1)
    {
      if start == -1 {
        start := 0;
      }
      if finish == -1 {
        var n := parent.Size();
        finish := n - 1;
      }
    }

    /** setInitialForward: positions at `start` when a node is there. */
    method SetInitialForward()
      requires parent.Valid()
      modifies this
      ensures parent == old(parent) && Positioned()
      ensures start == Defaulted(old(start), 0) && finish == Defaulted(old(finish), |parent.elems| - 1)
      ensures lobj == (if 0 <= start < |parent.nodes| then parent.nodes[start] else null)
      ensures index == (if lobj != null then start else old(index))
    {
      SetInitial();
      parent.ValidReachable();
      lobj := parent.GoToPosition(start);
      if lobj != null {
        index := start;
      }
    }

    /** setInitialBackward: positions at `finish` when a node is there. */
    method SetInitialBackward()
      requires parent.Valid()
      modifies this
      ensures parent == old(parent) && Positioned()
      ensures start == Defaulted(old(start), 0) && finish == Defaulted(old(finish), |parent.elems| - 1)
      ensures lobj == (if 0 <= finish < |parent.nodes| then parent.nodes[finish] else null)
      ensures index == (if lobj != null then finish else old(index))
    {
      SetInitial();
      parent.ValidReachable();
      lobj := parent.GoToPosition(finish);
      if lobj != null {
        index := finish;
      }
    }

    /** SetIndex: refused, without moving, for an index outside the range
        or the list; otherwise positions there and gives its payload. */
    method SetIndex(i: int) returns (r: Option<T>)
      requires parent.Valid() && Positioned()
      modifies this
      ensures parent == old(parent) && Positioned()
      ensures start == Defaulted(old(start), 0) && finish == Defaulted(old(finish), |parent.elems| - 1)
      ensures i < start || i > finish || !(0 <= i < |parent.elems|) ==>
        r == None && lobj == old(lobj) && index == old(index)
      ensures start <= i <= finish && 0 <= i < |parent.elems| ==>
        r == Some(parent.elems[i]) && lobj == parent.nodes[i] && index == i
    {
      SetInitial();
      parent.ValidReachable();
      var xobj := parent.GoToPosition(i);
      var n := parent.Size();
      if xobj == null || i < start || i > finish || i > n - 1 {
        return None;
      }
      lobj := xobj;
      index := i;
      return Some(xobj.obj);
    }

    /** SetFirst: positions at `start` (the first node for 0) and gives its
        payload, or nothing when no node is there. */
    method SetFirst() returns (r: Option<T>)
      requires parent.Valid() && Positioned()
      modifies this
      ensures parent == old(parent) && Positioned()
      ensures start == Defaulted(old(start), 0) && finish == Defaulted(old(finish), |parent.elems| - 1)
      ensures !(0 <= start < |parent.elems|) ==> r == None && lobj == old(lobj) && index == old(index)
      ensures 0 <= start < |parent.elems| ==>
        r == Some(parent.elems[start]) && lobj == parent.nodes[start] && index == start
    {
      SetInitial();
      var xobj: Node?<T>;
      if start == 0 {
        xobj := parent.home;
      } else {
        parent.ValidReachable();
        xobj := parent.GoToPosition(start);
      }
      if xobj == null {
        return None;
      }
      lobj := xobj;
      index := start;
      return Some(xobj.obj);
    }

    /** SetLast: positions at `finish` (the last node for `size - 1`) and
        gives its payload, or nothing when no node is there. */
    method SetLast() returns (r: Option<T>)
      requires parent.Valid() && Positioned()
      modifies this
      ensures parent == old(parent) && Positioned()
      ensures start == Defaulted(old(start), 0) && finish == Defaulted(old(finish), |parent.elems| - 1)
      ensures !(0 <= finish < |parent.elems|) ==> r == None && lobj == old(lobj) && index == old(index)
      ensures 0 <= finish < |parent.elems| ==>
        r == Some(parent.elems[finish]) && lobj == parent.nodes[finish] && index == finish
    {
      SetInitial();
      var xobj: Node?<T>;
      var n := parent.Size();
      if finish == n - 1 {
        xobj := parent.end;
      } else {
        parent.ValidReachable();
        xobj := parent.GoToPosition(finish);
      }
      if xobj == null {
        return None;
      }
      lobj := xobj;
      index := finish;
      return Some(xobj.obj);
    }

    /** Index: -1 while unpositioned. */
    method Index() returns (r: int)
      requires Positioned()
      ensures lobj == null ==> r == -1
      ensures lobj != null ==> r == index && 0 <= r < |parent.nodes|
    {
      if lobj == null {
        return -1;
      }
      return index;
    }

    /** Value: the payload under the cursor, nothing while unpositioned. */
    method Value() returns (r: Option<T>)
      requires parent.Valid() && Positioned()
      ensures lobj == null ==> r == None
      ensures lobj != null ==> r == Some(parent.elems[index])
    {
      if lobj == null {
        return None;
      }
      return Some(lobj.obj);
    }

    /** Next: the first call positions at `start`; later ones move one node
        forward unless the cursor is at `finish` or on the last node. */
    method Next() returns (r: bool)
      requires parent.Valid() && Positioned()
      modifies this
      ensures parent == old(parent) && Positioned()
      ensures old(lobj) == null ==>
        start == Defaulted(old(start), 0) && finish == Defaulted(old(finish), |parent.elems| - 1) &&
        lobj == (if 0 <= start < |parent.nodes| then parent.nodes[start] else null) &&
        index == (if lobj != null then start else old(index)) && (r <==> lobj != null)
      ensures old(lobj) != null ==> start == old(start) && finish == old(finish)
      ensures old(lobj) != null && (old(index) >= finish || old(index) == |parent.nodes| - 1) ==>
        !r && lobj == old(lobj) && index == old(index)
      ensures old(lobj) != null && old(index) < finish && old(index) < |parent.nodes| - 1 ==>
        r && index == old(index) + 1 && lobj == parent.nodes[index]
    {
      if lobj == null {
        SetInitialForward();
        return lobj != null;
      }
      ChainStep(parent.nodes, index);
      if lobj.next == null || index >= finish {
        return false;
      }
      lobj := lobj.next;
      index := index + 1;
      return true;
    }

    /** Prev: the first call positions at `finish`; later ones move one node
        back unless the cursor is at `start` or on the first node. */
    method Prev() returns (r: bool)
      requires parent.Valid() && Positioned()
      modifies this
      ensures parent == old(parent) && Positioned()
      ensures old(lobj) == null ==>
        start == Defaulted(old(start), 0) && finish == Defaulted(old(finish), |parent.elems| - 1) &&
        lobj == (if 0 <= finish < |parent.nodes| then parent.nodes[finish] else null) &&
        index == (if lobj != null then finish else old(index)) && (r <==> lobj != null)
      ensures old(lobj) != null ==> start == old(start) && finish == old(finish)
      ensures old(lobj) != null && (old(index) <= start || old(index) == 0) ==>
        !r && lobj == old(lobj) && index == old(index)
      ensures old(lobj) != null && old(index) > start && old(index) > 0 ==>
        r && index == old(index) - 1 && lobj == parent.nodes[index]
    {
      if lobj == null {
        SetInitialBackward();
        return lobj != null;
      }
      ChainStep(parent.nodes, index);
      if lobj.prev == null || index <= start {
        return false;
      }
      lobj := lobj.prev;
      index := index - 1;
      return true;
    }

    /** NextValue, as corrected: the first call positions at `start` and
        gives that payload; later ones move one node forward and give its
        payload, unless the cursor is at `finish` or on the last node. */
    method NextValue() returns (r: Option<T>)
      requires parent.Valid() && Positioned()
      modifies this
      ensures parent == old(parent) && Positioned()
      ensures old(lobj) == null ==>
        start == Defaulted(old(start), 0) && finish == Defaulted(old(finish), |parent.elems| - 1) &&
        lobj == (if 0 <= start < |parent.nodes| then parent.nodes[start] else null) &&
        index == (if lobj != null then start else old(index)) &&
        r == (if lobj != null then Some(parent.elems[start]) else None)
      ensures old(lobj) != null ==> start == old(start) && finish == old(finish)
      ensures old(lobj) != null && (old(index) + 1 > finish || old(index) == |parent.nodes| - 1) ==>
        r == None && lobj == old(lobj) && index == old(index)
      ensures old(lobj) != null && old(index) + 1 <= finish && old(index) < |parent.nodes| - 1 ==>
        index == old(index) + 1 && lobj == parent.nodes[index] && r == Some(parent.elems[index])
    {
      if lobj == null {
        SetInitialForward();
        if lobj == null {
          return None;
        }
        return Some(lobj.obj);
      }
      if index + 1 > finish {
        return None;
      }
      ChainStep(parent.nodes, index);
      if lobj.next != null {
        lobj := lobj.next;
        index := index + 1;
        return Some(lobj.obj);
      }
      return None;
    }

    /** NextValue as written: the range check is skipped at index 0, so a
        cursor at index 0 with `finish` 0 still moves to index 1, past
        `finish`, when the list has a second node. */
    method NextValueAsWritten() returns (r: Option<T>)
      requires parent.Valid() && Positioned()
      modifies this
      ensures parent == old(parent) && Positioned()
      ensures old(lobj) != null && old(index) == 0 && old(finish) == 0 && |parent.nodes| > 1 ==>
        r == Some(parent.elems[1]) && index == 1 && index > finish
    {
      if lobj == null {
        SetInitialForward();
        if lobj == null {
          return None;
        }
        return Some(lobj.obj);
      }
      if lobj == null || (index + 1 > finish && index > 0) {
        return None;
      }
      ChainStep(parent.nodes, index);
      if lobj.next != null {
        lobj := lobj.next;
        index := index + 1;
        return Some(lobj.obj);
      }
      return None;
    }

    /** PrevValue, as corrected: the first call positions at `finish` and
        gives that payload; later ones move one node back and give its
        payload, unless the cursor is at `start` or on the first node. */
    method PrevValue() returns (r: Option<T>)
      requires parent.Valid() && Positioned()
      modifies this
      ensures parent == old(parent) && Positioned()
      ensures old(lobj) == null ==>
        start == Defaulted(old(start), 0) && finish == Defaulted(old(finish), |parent.elems| - 1) &&
        lobj == (if 0 <= finish < |parent.nodes| then parent.nodes[finish] else null) &&
        index == (if lobj != null then finish else old(index)) &&
        r == (if lobj != null then Some(parent.elems[finish]) else None)
      ensures old(lobj) != null ==> start == old(start) && finish == old(finish)
      ensures old(lobj) != null && (old(index) <= start || old(index) == 0) ==>
        r == None && lobj == old(lobj) && index == old(index)
      ensures old(lobj) != null && old(index) > start && old(index) > 0 ==>
        index == old(index) - 1 && lobj == parent.nodes[index] && r == Some(parent.elems[index])
    {
      if lobj == null {
        SetInitialBackward();
        if lobj == null {
          return None;
        }
        return Some(lobj.obj);
      }
      if index + 1 < start && index > 0 {
        return None;
      }
      ChainStep(parent.nodes, index);
      if lobj.prev != null && index > start {
        lobj := lobj.prev;
        index := index - 1;
        return Some(lobj.obj);
      }
      return None;
    }

    /** PrevValue as written: an unpositioned cursor takes the last node
        without taking its index, so on a non-empty list it gives nothing
        and is left on a node that is not the one at `index`. */
    method PrevValueAsWritten() returns (r: Option<T>)
      requires parent.Valid() && Positioned()
      modifies this
      ensures parent == old(parent)
      ensures old(lobj) == null && old(index) == -1 && old(start) == -1 && |parent.nodes| > 0 ==>
        r == None && lobj == parent.end && lobj != null && !Positioned()
    {
      if lobj == null {
        lobj := parent.end;
      }
      if lobj == null || (index + 1 < start && index > 0) {
        return None;
      }
      if lobj.prev != null && index > start {
        lobj := lobj.prev;
        index := index - 1;
        return Some(lobj.obj);
      }
      return None;
    }
  }
}
