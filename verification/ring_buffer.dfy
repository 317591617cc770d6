/** The circular buffer (src/common/util/ring_buffer.h). */
module RingBuffers {
  import opened Options
  import opened Paging

  datatype Outcome = Done | LengthError | OverflowError | UnderflowError | BadLength

  /** The remainder of a sum of two positions. */
  function Wrap(i: nat, cap: nat): (r: nat)
    requires i < 2 * cap
    ensures r < cap
  {
    if i < cap then i else i - cap
  }

  lemma WrapIsRemainder(i: nat, cap: nat)
    requires i < 2 * cap
    ensures Wrap(i, cap) == i % cap
  {
    if i < cap { SplitIs(i, cap, 0, i); } else { SplitIs(i, cap, 1, i - cap); }
  }

  /** The n elements from position front on, going round. */
  function Window<T>(b: seq<T>, front: nat, n: nat): (w: seq<T>)
    requires n <= |b| && (n > 0 ==> front < |b|)
    ensures |w| == n && forall i :: 0 <= i < n ==> w[i] == b[Wrap(front + i, |b|)]
  {
    seq(n, i requires 0 <= i < n => b[Wrap(front + i, |b|)])
  }

  class RingBuffer<T(==, 0)> {
    var buf: array<T>
    var cap: nat
    var frontIdx: nat
    var backIdx: nat
    var sz: nat

    ghost predicate Valid()
      reads this
    {
      && buf.Length == cap && sz <= cap
      && if cap == 0 then frontIdx == backIdx == 0 else frontIdx < cap && backIdx == Wrap(frontIdx + sz, cap)
    }

    /** The elements, oldest first. */
    ghost function Contents(): (s: seq<T>)
      requires Valid()
      reads this, buf
      ensures |s| == sz
    {
      Window(buf[..], frontIdx, sz)
    }

    /** The position of the i-th element. */
    ghost function Pos(i: nat): (p: int)
      requires Valid() && i < sz
      reads this
      ensures 0 <= p < cap
    {
      Wrap(frontIdx + i, cap)
    }

    constructor (size: nat)
      ensures Valid() && cap == size && Contents() == [] && fresh(buf)
    {
      buf := new T[size];
      cap, frontIdx, backIdx, sz := size, 0, 0, 0;
    }

    method PushBack(item: T) returns (r: Outcome)
      requires Valid()
      modifies this, buf
      ensures Valid() && cap == old(cap) && buf == old(buf)
      ensures r == if cap == 0 then LengthError else if old(sz) == cap then OverflowError else Done
      ensures Contents() == if r == Done then old(Contents()) + [item] else old(Contents())
    {
      if cap == 0 { return LengthError; }
      if sz != 0 && backIdx == frontIdx { return OverflowError; }
      ghost var contents := Contents();
      sz := sz + 1;
      buf[backIdx] := item;
      backIdx := Wrap(backIdx + 1, cap);
      assert forall i :: 0 <= i < sz ==> Contents()[i] == (contents + [item])[i];
      return Done;
    }

    method PopFront() returns (r: Outcome)
      requires Valid()
      modifies this
      ensures Valid() && cap == old(cap) && buf == old(buf)
      ensures r == if old(sz) == 0 then UnderflowError else Done
      ensures Contents() == if r == Done then old(Contents())[1..] else old(Contents())
    {
      if sz == 0 { return UnderflowError; }
      frontIdx := Wrap(frontIdx + 1, cap);
      sz := sz - 1;
      return Done;
    }

    method Front() returns (item: Option<T>)
      requires Valid()
      ensures item == if sz == 0 then None else Some(Contents()[0])
    {
      if sz == 0 { return None; }
      return Some(buf[frontIdx]);
    }

    method Back() returns (item: Option<T>)
      requires Valid()
      ensures item == if sz == 0 then None else Some(Contents()[sz - 1])
    {
      if sz == 0 { return None; }
      return Some(buf[Wrap(backIdx + cap - 1, cap)]);
    }

    method Clear()
      requires Valid()
      modifies this
      ensures Valid() && cap == old(cap) && Contents() == []
    {
      frontIdx := backIdx;
      sz := 0;
    }

    /** Change the capacity; the elements move to the front of the new buffer. */
    method Resize(newCap: nat) returns (r: Outcome)
      requires Valid()
      modifies this
      ensures Valid()
      ensures r == if newCap < old(sz) then BadLength else Done
      ensures cap == (if r == Done then newCap else old(cap)) && Contents() == old(Contents())
    {
      if newCap < sz { return BadLength; }
      var newbuf := new T[newCap];
      for i := 0 to sz
        modifies newbuf
        invariant forall k :: 0 <= k < i ==> newbuf[k] == Contents()[k]
      {
        newbuf[i] := buf[Wrap(frontIdx + i, cap)];
      }
      ghost var contents := Contents();
      cap := newCap;
      buf := newbuf;
      frontIdx := 0;
      backIdx := if cap != 0 then (if sz == cap then 0 else sz) else 0;
      assert forall k :: 0 <= k < sz ==> Contents()[k] == contents[k];
      return Done;
    }

    /** operator==: the same capacity and the same elements. */
    method Equals(other: RingBuffer<T>) returns (same: bool)
      requires Valid() && other.Valid()
      ensures same <==> cap == other.cap && Contents() == other.Contents()
    {
      if cap == other.cap && sz == other.sz {
        for i := 0 to sz
          invariant forall k :: 0 <= k < i ==> Contents()[k] == other.Contents()[k]
        {
          var idx1, idx2 := Wrap(frontIdx + i, cap), Wrap(other.frontIdx + i, other.cap);
          if buf[idx1] != other.buf[idx2] {
            assert Contents()[i] != other.Contents()[i];
            return false;
          }
        }
        return true;
      }
      return false;
    }

    // --- iteration; position -1 is the end

    function Increment(pos: int): int
      requires Valid() && -1 <= pos < cap
      reads this
    {
      var next := if cap != 0 && pos != -1 then Wrap(pos + 1, cap) else pos;
      if next == backIdx then -1 else next
    }

    function Decrement(pos: int): int
      requires Valid() && -1 <= pos < cap
      reads this
    {
      if cap == 0 then pos
      else if pos == -1 then Wrap(backIdx + cap - 1, cap)
      else if pos != frontIdx then Wrap(pos + cap - 1, cap)
      else pos
    }

    /** Incrementing goes from element to element, and from the last one to the end, even when the buffer is full, and
      stays there. */
    lemma IncrementVisits(i: nat)
      requires Valid() && i < sz
      ensures Increment(Pos(i)) == if i + 1 < sz then Pos(i + 1) else -1
      ensures Increment(-1) == -1
    {
    }

    /** Decrementing undoes incrementing, and stays at the first element. */
    lemma DecrementUndoes(i: nat)
      requires Valid() && i < sz
      ensures Decrement(Increment(Pos(i))) == Pos(i)
      ensures Decrement(Pos(i)) == if i == 0 then Pos(0) else Pos(i - 1)
    {
      IncrementVisits(i);
    }

    /** Conversion to a vector, by iteration.  It gives the contents exactly when there are any: the first position of
      an empty buffer is not its end, so that iteration goes once round all the slots; with no slots at all, None, it
      reads one that is not there. */
    method ToVector() returns (r: Option<seq<T>>)
      requires Valid()
      ensures r.None? <==> cap == 0
      ensures r.Some? ==> |r.value| == if sz == 0 then cap else sz
      ensures r == Some(Contents()) <==> sz > 0
    {
      if buf.Length == 0 {
        return None;
      }
      var v := [];
      var pos: int := frontIdx;
      var steps := if sz == 0 then cap else sz;
      while pos != -1
        invariant |v| <= steps && (if |v| == steps then pos == -1 else pos == Wrap(frontIdx + |v|, cap))
        invariant forall k :: 0 <= k < |v| && k < sz ==> v[k] == Contents()[k]
        decreases steps - |v|
      {
        v := v + [buf[pos]];
        pos := Increment(pos);
      }
      assert sz > 0 ==> v == Contents();
      return Some(v);
    }
  }
}
