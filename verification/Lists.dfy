/** The singly linked lists of the session manager, the trade history and the order entry: cells with a next pointer,
    new ones in front, unlinked through the pointer to the cell before. */
module Lists {

  class Cell<T> {
    var data: T
    var next: Cell?<T>

    constructor (data: T, next: Cell?<T>)
      ensures this.data == data && this.next == next
    {
      this.data, this.next := data, next;
    }
  }

  /** The cell at a position, null at the end. */
  ghost function At<T>(spine: seq<Cell<T>>, i: int): (c: Cell?<T>) {
    if 0 <= i < |spine| then spine[i] else null
  }

  ghost predicate Distinct<T>(spine: seq<Cell<T>>) {
    forall i, j :: 0 <= i < j < |spine| ==> spine[i] != spine[j]
  }

  /** What a spine without its position `i` looks like. */
  lemma {:induction false} CutSpine<T>(spine: seq<Cell<T>>, i: nat)
    requires Distinct(spine) && i < |spine|
    ensures var cut := spine[..i] + spine[i + 1..];
            && Distinct(cut)
            && (forall k :: 0 <= k < |cut| ==> cut[k] == spine[if k < i then k else k + 1])
            && (forall c :: c in cut ==> c in spine)
  {
    var cut := spine[..i] + spine[i + 1..];
    forall k | 0 <= k < |cut| ensures cut[k] == spine[if k < i then k else k + 1] {
    }
  }

  class LinkedList<T> {
    var head: Cell?<T>
    /** The cells from the head on. */
    ghost var spine: seq<Cell<T>>

    ghost predicate Valid()
      reads this, spine
    {
      && head == At(spine, 0)
      && (forall i, j :: 0 <= i && j == i + 1 < |spine| ==> spine[i].next == spine[j])
      && (spine != [] ==> spine[|spine| - 1].next == null)
      && Distinct(spine)
    }

    ghost function Contents(): (s: seq<T>)
      reads this, spine
      ensures |s| == |spine|
    {
      seq(|spine|, i requires 0 <= i < |spine| reads this, spine => spine[i].data)
    }

    constructor ()
      ensures Valid() && Contents() == [] && spine == []
    {
      head, spine := null, [];
    }

    method Prepend(data: T)
      requires Valid()
      modifies this
      ensures Valid() && Contents() == [data] + old(Contents())
      ensures |spine| > 0 && fresh(spine[0]) && spine[1..] == old(spine)
    {
      var cell := new Cell(data, head);
      head, spine := cell, [cell] + spine;
    }

    /** Takes out the cell `curr` at position `i`, whose predecessor is `prev`, null at the head. */
    method Unlink(prev: Cell?<T>, curr: Cell<T>, ghost i: nat)
      requires Valid() && i < |spine| && curr == spine[i] && prev == At(spine, i - 1)
      modifies this, prev
      ensures Valid() && spine == old(spine[..i] + spine[i + 1..])
      ensures Contents() == old(Contents()[..i] + Contents()[i + 1..])
      ensures At(spine, i) == old(curr.next) && At(spine, i - 1) == prev
      ensures forall c :: c in spine ==> c in old(spine)
    {
      if prev != null {
        prev.next := curr.next;
      } else {
        head := curr.next;
      }
      ghost var s := spine;
      spine := s[..i] + s[i + 1..];
      CutSpine(s, i);
    }

    /** Overwrites the data of the cell at position `i`. */
    method Replace(cell: Cell<T>, data: T, ghost i: nat)
      requires Valid() && i < |spine| && cell == spine[i]
      modifies cell`data
      ensures Valid() && Contents() == old(Contents())[i := data]
    {
      cell.data := data;
    }
  }
}
