/** The ring buffer behind every inbox, as a first-in first-out queue. */
module Queues {
  import opened Basics

  /** Where the `i`-th element after `head` sits in a ring of `cap` slots. */
  function Slot(head: nat, i: nat, cap: nat): (p: nat)
    requires head < cap && i <= cap
    ensures p == if head + i < cap then head + i else head + i - cap
  {
    assert head + i >= cap ==> head + i == cap + (head + i - cap);
    (head + i) % cap
  }

  /** The `count` elements from `head` on, going round the end of the ring. */
  function Unrolled<T>(ring: seq<T>, head: nat, count: nat): (s: seq<T>)
    requires head < |ring| && count <= |ring|
    ensures |s| == count && forall i :: 0 <= i < count ==> s[i] == ring[Slot(head, i, |ring|)]
  {
    seq(count, i requires 0 <= i < count => ring[Slot(head, i, |ring|)])
  }

  /** Moving the head past `n` elements drops them and nothing else. */
  lemma UnrolledDrop<T>(ring: seq<T>, head: nat, count: nat, n: nat)
    requires head < |ring| && n <= count <= |ring|
    ensures Unrolled(ring, Slot(head, n, |ring|), count - n) == Unrolled(ring, head, count)[n..]
    ensures head + n <= |ring| ==> Unrolled(ring, head, count) == ring[head..head + n] + Unrolled(ring, head, count)[n..]
    ensures Slot(head, count, |ring|) == Slot(Slot(head, n, |ring|), count - n, |ring|)
  {
    hide Slot;
  }

  /** Writing `data` behind the last element, and nowhere else, appends it. */
  lemma UnrolledAppend<T>(ring: seq<T>, ring': seq<T>, head: nat, count: nat, data: seq<T>)
    requires |ring| == |ring'| && head < |ring| && count + |data| <= |ring|
    requires forall i :: 0 <= i < |data| ==> ring'[Slot(Slot(head, count, |ring|), i, |ring|)] == data[i]
    requires forall i :: 0 <= i < count ==> ring'[Slot(head, i, |ring|)] == ring[Slot(head, i, |ring|)]
    ensures Unrolled(ring', head, count + |data|) == Unrolled(ring, head, count) + data
  {
    hide Slot;
    forall i | 0 <= i < count + |data|
      ensures Unrolled(ring', head, count + |data|)[i] == (Unrolled(ring, head, count) + data)[i]
    {
      if i >= count {
        assert Slot(head, i, |ring|) == Slot(Slot(head, count, |ring|), i - count, |ring|);
      }
    }
  }

  /** The ring after one copy up to its end and the rest from its start. */
  function Written<T>(ring: seq<T>, end: nat, data: seq<T>): (r: seq<T>)
    requires end < |ring| && |data| <= |ring|
    ensures |r| == |ring|
  {
    var first := Least(|data|, |ring| - end);
    var ring1 := ring[..end] + data[..first] + ring[end + first..];
    if first < |data| then data[first..] + ring1[|data| - first..] else ring1
  }

  lemma WrittenAppends<T>(ring: seq<T>, head: nat, count: nat, data: seq<T>)
    requires head < |ring| && count + |data| <= |ring|
    ensures Unrolled(Written(ring, Slot(head, count, |ring|), data), head, count + |data|)
         == Unrolled(ring, head, count) + data
    ensures Slot(Slot(head, count, |ring|), |data|, |ring|) == Slot(head, count + |data|, |ring|)
  {
    hide Slot;
    var end := Slot(head, count, |ring|);
    var first := Least(|data|, |ring| - end);
    var ring1 := ring[..end] + data[..first] + ring[end + first..];
    var ring2 := Written(ring, end, data);
    forall i | 0 <= i < |data| ensures ring2[Slot(end, i, |ring|)] == data[i] {
      if i >= first { assert data[first..][i - first] == data[i]; }
    }
    forall i | 0 <= i < count ensures ring2[Slot(head, i, |ring|)] == ring[Slot(head, i, |ring|)] {
      var p := Slot(head, i, |ring|);
      assert p < end || end + first <= p;
      assert ring1[p] == ring[p];
    }
    UnrolledAppend(ring, ring2, head, count, data);
  }

  class ProtQueue<T> {
    const buf: array<T>
    var head: nat
    var tail: nat
    var count: nat

    ghost predicate Valid()
      reads this
    {
      && head < buf.Length && count <= buf.Length
      && tail == Slot(head, count, buf.Length)
    }

    /** What the queue holds, oldest first. */
    ghost function Contents(): seq<T>
      requires Valid()
      reads this, buf
    {
      Unrolled(buf[..], head, count)
    }

    /** `prot_queue_init`; an empty buffer is an assertion failure there. */
    constructor (buffer: array<T>)
      requires buffer.Length > 0
      ensures Valid() && buf == buffer && Contents() == []
    {
      buf := buffer;
      head, tail, count := 0, 0, 0;
    }

    /** `prot_queue_push` */
    method Push(data: T) returns (ok: bool)
      requires Valid()
      modifies this, buf
      ensures Valid()
      ensures ok == (|old(Contents())| < buf.Length)
      ensures Contents() == if ok then old(Contents()) + [data] else old(Contents())
    {
      hide Slot;
      var cap := buf.Length;
      if count == cap {
        return false;
      }
      ghost var ring := buf[..];
      buf[tail] := data;
      tail := Slot(tail, 1, cap);
      count := count + 1;
      UnrolledAppend(ring, buf[..], head, count - 1, [data]);
      ok := true;
    }

    /** `memcpy` into the ring */
    method CopyIn(at: nat, data: seq<T>)
      requires at + |data| <= buf.Length
      modifies buf
      ensures buf[..] == old(buf[..at]) + data + old(buf[at + |data|..])
    {
      forall i | 0 <= i < |data| {
        buf[at + i] := data[i];
      }
    }

    /** The copying half of `prot_queue_push_all`: at most two copies. */
    method CopyRound(data: seq<T>)
      requires tail < buf.Length && |data| <= buf.Length
      modifies buf, this`tail
      ensures buf[..] == Written(old(buf[..]), old(tail), data)
      ensures tail == Slot(old(tail), |data|, buf.Length)
    {
      hide Slot;
      var cap := buf.Length;
      var first := Least(|data|, cap - tail);
      var second := |data| - first;
      CopyIn(tail, data[..first]);
      tail := Slot(tail, first, cap);
      if second > 0 {
        CopyIn(tail, data[first..]);
        tail := Slot(tail, second, cap);
      }
    }

    /** `prot_queue_push_all`: all or nothing. */
    method PushAll(data: seq<T>) returns (pushed: nat)
      requires Valid() && |data| + buf.Length < 0x8000_0000
      modifies this, buf
      ensures Valid()
      ensures pushed == if |old(Contents())| + |data| > buf.Length then 0 else |data|
      ensures Contents() == old(Contents()) + data[..pushed]
    {
      hide Slot, Unrolled, Written;
      pushed := 0;
      if count + |data| <= buf.Length {
        WrittenAppends(buf[..], head, count, data);
        CopyRound(data);
        count := count + |data|;
        pushed := |data|;
      }
      assert data[..0] == [] && data[..|data|] == data;
    }

    /** `prot_queue_try_pop_all`: one contiguous stretch, so it stops at the end of
        the buffer even when more elements have wrapped round to its start. */
    method TryPopAll(maxItems: nat) returns (data: seq<T>)
      requires Valid()
      modifies this`head, this`count
      ensures Valid()
      ensures old(Contents()) == data + Contents()
      ensures |data| == Least(Least(old(count), maxItems), buf.Length - old(head))
    {
      hide Slot, Unrolled;
      if count == 0 {
        return [];
      }
      var untilEnd := buf.Length - head;
      var n := Least(Least(count, maxItems), untilEnd);
      data := buf[head..head + n];
      UnrolledDrop(buf[..], head, count, n);
      head := Slot(head, n, buf.Length);
      count := count - n;
    }

    /** `prot_queue_pop`, once it has stopped waiting. */
    method Pop() returns (data: T)
      requires Valid() && Contents() != []
      modifies this`head, this`count
      ensures Valid()
      ensures old(Contents()) == [data] + Contents()
    {
      hide Slot, Unrolled;
      data := buf[head];
      UnrolledDrop(buf[..], head, count, 1);
      head := Slot(head, 1, buf.Length);
      count := count - 1;
    }
  }

  /** However the elements wrap, two unlimited pops empty the queue. */
  method Drain<T>(q: ProtQueue<T>) returns (data: seq<T>)
    requires q.Valid()
    modifies q`head, q`count
    ensures q.Valid() && q.Contents() == [] && data == old(q.Contents())
  {
    var first := q.TryPopAll(q.buf.Length);
    var second := q.TryPopAll(q.buf.Length);
    data := first + second;
  }
}
