/** The circular queue of bytes.  Pointers into the buffer are indices. */
module CircularQueue {

  newtype uint8 = x: int | 0 <= x < 256

  /** Where the i-th element behind `first` lies in a ring of `size` places. */
  function Slot(first: nat, i: nat, size: nat): nat {
    if first + i < size then first + i else first + i - size
  }

  /** `n` elements of the ring `s`, read on from `first`. */
  ghost function Window(s: seq<uint8>, first: nat, n: nat): seq<uint8>
    requires first < |s| && n <= |s|
  {
    seq(n, i requires 0 <= i < n => s[Slot(first, i, |s|)])
  }

  class CircularQueue8 {
    const buf: array<uint8>
    var first: nat
    var last: nat
    var bEmpty: bool

    ghost predicate Valid()
      reads this
    {
      first < buf.Length && last < buf.Length && (bEmpty ==> first == last)
    }

    ghost function Count(): (n: nat)
      requires Valid()
      reads this
      ensures n <= buf.Length && last == Slot(first, n, buf.Length) % buf.Length
    {
      if bEmpty then 0 else if first < last then last - first else last + buf.Length - first
    }

    ghost function Contents(): seq<uint8>
      requires Valid()
      reads this, buf
    {
      Window(buf[..], first, Count())
    }

    /** `ckCircularQueue8Init` on a buffer of at least one byte. */
    constructor (buf: array<uint8>)
      requires buf.Length > 0
      ensures Valid() && this.buf == buf && Contents() == []
    {
      this.buf := buf;
      first, last, bEmpty := 0, 0, true;
    }

    /** `ckCircularQueue8Put`: false, and nothing changed, when the queue is full. */
    method Put(data: uint8) returns (ok: bool)
      requires Valid()
      modifies this`last, this`bEmpty, buf
      ensures Valid()
      ensures ok == (|old(Contents())| < buf.Length)
      ensures Contents() == if ok then old(Contents()) + [data] else old(Contents())
    {
      if bEmpty || first != last {
        ghost var n := Count();
        buf[last] := data;
        last := last + 1;
        if last >= buf.Length {
          last := 0;
        }
        bEmpty := false;
        assert Count() == n + 1;
        return true;
      } else {
        return false;
      }
    }

    /** `ckCircularQueue8Remove` */
    method Remove() returns (ok: bool)
      requires Valid()
      modifies this`first, this`bEmpty
      ensures Valid()
      ensures ok == (old(Contents()) != [])
      ensures Contents() == if ok then old(Contents())[1..] else []
    {
      if !bEmpty {
        ghost var n := Count();
        first := first + 1;
        if first >= buf.Length {
          first := 0;
        }
        if first == last {
          bEmpty := true;
        }
        assert Count() == n - 1;
        return true;
      } else {
        return false;
      }
    }

    /** `ckCircularQueue8Get`: the front element, left in place when peeking; 0 from an empty queue. */
    method Get(peek: bool) returns (data: uint8, success: bool)
      requires Valid()
      modifies this`first, this`bEmpty
      ensures Valid()
      ensures success == (old(Contents()) != [])
      ensures data == if success then old(Contents())[0] else 0
      ensures Contents() == if success && !peek then old(Contents())[1..] else old(Contents())
    {
      if !bEmpty {
        data := buf[first];
        if !peek {
          var _ := Remove();
        }
        success := true;
      } else {
        data, success := 0, false;
      }
    }
  }
}
