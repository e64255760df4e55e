/**
  The circular buffer behind the error log: fixed capacity, the oldest element gives way when it is full.
 */
module RingBuffers {
  import opened Wrappers

  /** The last `n` elements. */
  function LastN<T>(s: seq<T>, n: nat): seq<T> { if |s| <= n then s else s[|s| - n..] }

  /** A suffix, of length `n` or the whole. */
  lemma LastNIsSuffix<T>(s: seq<T>, n: nat)
    ensures |LastN(s, n)| == if |s| < n then |s| else n
    ensures s == s[..|s| - |LastN(s, n)|] + LastN(s, n)
  {
  }

  /** Pushing onto the last `n` of a history gives the last `n` of the longer history. */
  lemma LastNPush<T>(s: seq<T>, x: T, n: nat)
    requires n > 0
    ensures LastN(LastN(s, n) + [x], n) == LastN(s + [x], n)
  {
    if |s| > n {
      assert LastN(s, n) + [x] == (s + [x])[|s| - n..];
    }
  }

  /** Position of the `i`-th oldest element. */
  function Slot(tail: nat, i: nat, capacity: nat): nat {
    if tail + i < capacity then tail + i else tail + i - capacity
  }

  lemma WrapIsSlot(x: nat, i: nat, capacity: nat)
    requires x < capacity && i <= capacity
    ensures (x + i) % capacity == Slot(x, i, capacity)
  {
    if x + i < capacity {
      ModSmall(x + i, capacity);
    } else {
      ModSmall(x + i - capacity, capacity);
      ModShift(x + i - capacity, capacity);
    }
  }

  lemma ModSmall(x: nat, n: nat)
    requires x < n
    ensures x % n == x
  {
  }

  lemma ModShift(x: nat, n: nat)
    requires x < n
    ensures (x + n) % n == x
  {
    var q, m := (x + n) / n, (x + n) % n;
    assert x + n == q * n + m;
    assert q < 1 ==> q * n <= 0;
    assert q > 1 ==> q * n >= 2 * n;
  }

  /** The `count` slots from `tail` on, wrapping around, are all filled. */
  predicate Filled<T>(b: seq<Option<T>>, tail: nat, count: nat) {
    tail < |b| && count <= |b| && forall i | 0 <= i < count :: b[Slot(tail, i, |b|)].Some?
  }

  /** What they hold, oldest first. */
  function Window<T>(b: seq<Option<T>>, tail: nat, count: nat): (w: seq<T>)
    requires Filled(b, tail, count)
    ensures |w| == count && forall i | 0 <= i < count :: w[i] == b[Slot(tail, i, |b|)].value
  {
    seq(count, i requires 0 <= i < count => b[Slot(tail, i, |b|)].value)
  }

  lemma PushFull<T>(b: seq<Option<T>>, tail: nat, x: T)
    requires Filled(b, tail, |b|)
    ensures Filled(b[tail := Some(x)], Slot(tail, 1, |b|), |b|)
    ensures Window(b[tail := Some(x)], Slot(tail, 1, |b|), |b|) == Window(b, tail, |b|)[1..] + [x]
  {
    var n, b', tail' := |b|, b[tail := Some(x)], Slot(tail, 1, |b|);
    forall i | 0 <= i < n - 1 ensures b'[Slot(tail', i, n)] == b[Slot(tail, i + 1, n)] {
      assert Slot(tail', i, n) == Slot(tail, i + 1, n) != tail;
    }
    assert Slot(tail', n - 1, n) == tail;
  }

  lemma PushRoom<T>(b: seq<Option<T>>, tail: nat, count: nat, x: T)
    requires Filled(b, tail, count) && count < |b|
    ensures var b' := b[Slot(tail, count, |b|) := Some(x)];
            Filled(b', tail, count + 1) && Window(b', tail, count + 1) == Window(b, tail, count) + [x]
  {
    var b' := b[Slot(tail, count, |b|) := Some(x)];
    forall i | 0 <= i < count ensures b'[Slot(tail, i, |b|)] == b[Slot(tail, i, |b|)] {
      assert Slot(tail, i, |b|) != Slot(tail, count, |b|);
    }
  }

  lemma PopFirst<T>(b: seq<Option<T>>, tail: nat, count: nat)
    requires Filled(b, tail, count) && 0 < count
    ensures b[tail] == Some(Window(b, tail, count)[0])
    ensures Filled(b[tail := None], Slot(tail, 1, |b|), count - 1)
    ensures Window(b[tail := None], Slot(tail, 1, |b|), count - 1) == Window(b, tail, count)[1..]
  {
    var n, b', tail' := |b|, b[tail := None], Slot(tail, 1, |b|);
    assert Slot(tail, 0, n) == tail;
    forall i | 0 <= i < count - 1 ensures b'[Slot(tail', i, n)] == b[Slot(tail, i + 1, n)] {
      assert Slot(tail', i, n) == Slot(tail, i + 1, n) != tail;
    }
  }

  class RingBuffer<T> {
    const buffer: array<Option<T>>
    const capacity: nat
    var head: nat
    var tail: nat
    var count: nat

    ghost predicate Valid()
      reads this, buffer
    {
      && 0 < capacity == buffer.Length && Filled(buffer[..], tail, count)
      && head == (if count == capacity then tail else Slot(tail, count, capacity))
    }

    /** The elements, oldest first. */
    ghost function Contents(): (s: seq<T>)
      requires Valid()
      reads this, buffer
    {
      Window(buffer[..], tail, count)
    }

    constructor (capacity: nat)
      requires capacity > 0
      ensures Valid() && fresh(buffer) && Contents() == [] && this.capacity == capacity
    {
      this.capacity := capacity;
      buffer := new Option<T>[capacity](_ => None);
      head, tail, count := 0, 0, 0;
    }

    /** Appends, dropping the oldest element of a full buffer. */
    method Push(item: T)
      requires Valid()
      modifies this, buffer
      ensures Valid() && Contents() == LastN(old(Contents()) + [item], capacity)
    {
      WrapIsSlot(head, 1, capacity);
      WrapIsSlot(tail, 1, capacity);
      ghost var b := buffer[..];
      if count == capacity { PushFull(b, tail, item); } else { PushRoom(b, tail, count, item); }
      buffer[head] := Some(item);
      assert buffer[..] == b[head := Some(item)];
      head := (head + 1) % capacity;
      if count == capacity {
        tail := (tail + 1) % capacity;
      } else {
        count := count + 1;
      }
    }

    /** Takes the oldest element out. */
    method Pop() returns (r: Option<T>)
      requires Valid()
      modifies this, buffer
      ensures Valid()
      ensures if old(Contents()) == [] then r == None && Contents() == []
              else r == Some(old(Contents())[0]) && Contents() == old(Contents())[1..]
    {
      if count == 0 { return None; }
      WrapIsSlot(tail, 1, capacity);
      ghost var b := buffer[..];
      PopFirst(b, tail, count);
      r := buffer[tail];
      buffer[tail] := None;
      assert buffer[..] == b[tail := None];
      tail := (tail + 1) % capacity;
      count := count - 1;
    }

    method Front() returns (r: Option<T>)
      requires Valid()
      ensures r == if Contents() == [] then None else Some(Contents()[0])
    {
      if count == 0 { return None; }
      PopFirst(buffer[..], tail, count);
      r := buffer[tail];
    }

    method Back() returns (r: Option<T>)
      requires Valid()
      ensures r == if Contents() == [] then None else Some(Contents()[|Contents()| - 1])
    {
      if count == 0 { return None; }
      WrapIsSlot(head, capacity - 1, capacity);
      r := buffer[(head + capacity - 1) % capacity];
      assert r == Some(Contents()[count - 1]);
    }

    method Clear()
      requires Valid()
      modifies this, buffer
      ensures Valid() && Contents() == [] && forall i | 0 <= i < capacity :: buffer[i] == None
    {
      for i := 0 to capacity
        invariant forall k | 0 <= k < i :: buffer[k] == None
      {
        buffer[i] := None;
      }
      head, tail, count := 0, 0, 0;
    }
  }

  /** Iterates over a buffer from its oldest element to its newest. */
  class Iter<T> {
    const ring: RingBuffer<T>
    var index: nat
    var remaining: nat

    /** What is still to come. */
    ghost predicate Valid()
      reads this, ring, ring.buffer
    {
      && ring.Valid() && remaining <= ring.count
      && (remaining > 0 ==> index == Slot(ring.tail, ring.count - remaining, ring.capacity))
    }

    ghost function Rest(): seq<T>
      requires Valid()
      reads this, ring, ring.buffer
    {
      ring.Contents()[ring.count - remaining..]
    }

    constructor (ring: RingBuffer<T>)
      requires ring.Valid()
      ensures Valid() && this.ring == ring && Rest() == ring.Contents()
    {
      this.ring := ring;
      index, remaining := ring.tail, ring.count;
    }

    method Next() returns (item: Option<T>)
      requires Valid()
      modifies this
      ensures Valid()
      ensures if old(Rest()) == [] then item == None && Rest() == []
              else item == Some(old(Rest())[0]) && Rest() == old(Rest())[1..]
    {
      if remaining == 0 { return None; }
      WrapIsSlot(index, 1, ring.capacity);
      item := ring.buffer[index];
      assert item == Some(ring.Contents()[ring.count - remaining]);
      index := (index + 1) % ring.capacity;
      remaining := remaining - 1;
    }
  }
}
