/** The growing ring-buffer queue of etree/helpers.go, refined to an unbounded FIFO sequence. */
module Fifos {

  datatype Slot<T> = Nil | Item(value: T)

  /**
   A first-in-first-out queue stored in a circular buffer.  `head` is the next slot to read,
   `tail` the next slot to write.  One slot always stays free, so `head == tail` means "empty"
   and never "full".
   */
  class Fifo<T> {
    var data: array<Slot<T>>
    var head: nat
    var tail: nat
    ghost var Contents: seq<T>

    /** The slot that holds the i-th queued value. */
    ghost function SlotOf(i: nat): int
      reads this
    {
      if head + i < data.Length then head + i else head + i - data.Length
    }

    ghost predicate Valid()
      reads this, data
    {
      && (data.Length == 0 ==> head == tail == 0 && Contents == [])
      && (data.Length != 0 ==>
            && head < data.Length && tail < data.Length
            && |Contents| < data.Length
            && tail == SlotOf(|Contents|))
      && forall i :: 0 <= i < |Contents| ==> data[SlotOf(i)] == Item(Contents[i])
    }

    /** The zero value of the struct: no buffer at all. */
    constructor ()
      ensures Valid() && Contents == [] && fresh(data)
    {
      data := new Slot<T>[0];
      head, tail := 0, 0;
      Contents := [];
    }

    /** The two-case length computation of `len`: exact through wrap-around. */
    function Len(): (n: nat)
      requires Valid()
      reads this, data
      ensures n == |Contents|
    {
      if tail >= head then tail - head else data.Length - head + tail
    }

    method Grow()
      requires Valid()
      modifies this
      ensures Valid() && fresh(data)
      ensures Contents == old(Contents)
      ensures data.Length == if old(data.Length) == 0 then 4 else 2 * old(data.Length)
      ensures head == 0
    {
      var c := data.Length * 2;
      if c == 0 {
        c := 4;
      }
      var count := Len();
      var buf := new Slot<T>[c](_ => Nil);
      if tail >= head {
        forall i | 0 <= i < count {
          buf[i] := data[head + i];
        }
      } else {
        var hindex := data.Length - head;
        forall i | 0 <= i < hindex {
          buf[i] := data[head + i];
        }
        forall i | hindex <= i < count {
          buf[i] := data[i - hindex];
        }
      }
      assert forall i :: 0 <= i < count ==> buf[i] == data[SlotOf(i)];
      data, head, tail := buf, 0, count;
    }

    method Add(value: T)
      requires Valid()
      modifies this, data
      ensures Valid() && (data == old(data) || fresh(data))
      ensures Contents == old(Contents) + [value]
    {
      if Len() + 1 >= data.Length {
        Grow();
      }
      ghost var n := |Contents|;
      assert forall i :: 0 <= i < n ==> SlotOf(i) != tail;
      data[tail] := Item(value);
      tail := tail + 1;
      if tail == data.Length {
        tail := 0;
      }
      Contents := Contents + [value];
    }

    method Remove() returns (value: T)
      requires Valid() && Contents != []
      modifies this, data
      ensures Valid() && data == old(data)
      ensures value == old(Contents)[0] && Contents == old(Contents)[1..]
    {
      assert data[SlotOf(0)] == Item(Contents[0]);
      value := data[head].value;
      assert forall i :: 1 <= i < |Contents| ==> SlotOf(i) != head;
      data[head] := Nil;
      label cleared:
      head := head + 1;
      if head == data.Length {
        head := 0;
      }
      Contents := Contents[1..];
      assert forall i :: 0 <= i < |Contents| ==> SlotOf(i) == old@cleared(SlotOf(i + 1));
    }
  }
}
