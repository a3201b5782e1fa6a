// The application-trace ring buffer (app_trace_util.c).
//
// The buffer hands out contiguous regions only.  When a request does not fit
// between `wr` and the end, the logical size shrinks to `wr` and the region is
// taken from the start; the full size comes back when the reader wraps.

module RingBuffers {
  import opened Machine

  /// The control words of a ring buffer, as a value.
  datatype Ring = Ring(size: u32, cur: u32, rd: u32, wr: u32) {

    predicate Ok() {
      && cur <= size
      && if rd <= wr then cur == size && (wr < size || wr == size == 0)
         else rd < cur && (wr > 0 || cur == size)
    }

    /// Number of bytes in the queue.
    function Used(): nat
      requires Ok()
    {
      if rd <= wr then wr - rd else cur - rd + wr
    }

    /// Where the k-th oldest byte of the queue is stored.
    function Addr(k: nat): nat
      requires Ok()
    {
      if rd <= wr || rd + k < cur then rd + k else rd + k - cur
    }

    /// Whether the storage cell `a` holds a byte of the queue.
    predicate Live(a: nat)
      requires Ok()
    {
      if rd <= wr then rd <= a < wr else rd <= a < cur || a < wr
    }

    /// The bytes of the queue, oldest first.
    function Queue(d: seq<byte>): (s: seq<byte>)
      requires Ok() && |d| == size
      ensures |s| == Used()
    {
      if rd <= wr then d[rd..wr] else d[rd..cur] + d[..wr]
    }

    /// The youngest `n` bytes are stored at `off..off + n`.
    predicate TailAt(off: nat, n: nat)
      requires Ok()
    {
      && n <= Used()
      && off + n <= size
      && forall k :: Used() - n <= k < Used() ==> Addr(k) == off + k - (Used() - n)
    }

    /// The longest contiguous free run that keeps reader and writer apart.
    function LargestFree(): nat
      requires Ok()
    {
      if rd > wr then rd - wr - 1
      else if rd == 0 then if size == 0 then 0 else size - 1 - wr
      else if rd - 1 > size - wr then rd - 1 else size - wr
    }

    /// `q` is this ring with `n` more bytes, stored at `off`.
    ghost predicate Grows(q: Ring, off: nat, n: nat)
      requires Ok()
    {
      && q.Ok() && q.size == size
      && q.Used() == Used() + n
      && q.TailAt(off, n)
      && (forall k :: 0 <= k < Used() ==> q.Addr(k) == Addr(k))
      && (forall a :: off <= a < off + n ==> !Live(a))
    }

    /// `q` is this ring without its `n` oldest bytes, which are stored at `off`.
    ghost predicate Shrinks(q: Ring, off: nat, n: nat)
      requires Ok()
    {
      && q.Ok() && q.size == size
      && Used() == q.Used() + n
      && off + n <= size
      && (forall k :: 0 <= k < n ==> Addr(k) == off + k)
      && (forall k :: 0 <= k < q.Used() ==> q.Addr(k) == Addr(n + k))
    }

    /// Whether `n` more bytes can follow the queue.  An empty buffer stays where it is:
    /// it takes them from the write position or from below it, leaving a gap.
    ghost predicate CanGrow(n: nat)
      requires Ok()
    {
      exists q: Ring, off: nat :: Grows(q, off, n) && (Used() == 0 ==> off == wr || off + n < wr)
    }

    /// `LargestFree` is the length of the longest piece that can follow the queue.
    lemma LargestFreeIsLargest(n: nat)
      requires Ok() && n > 0 && size > 0
      ensures n <= LargestFree() <==> CanGrow(n)
    {
      if n <= LargestFree() {
        FreeIsServed(n);
      } else if q: Ring, off: nat :| Grows(q, off, n) && (Used() == 0 ==> off == wr || off + n < wr) {
        NothingLarger(q, off, n);
      }
    }

    lemma FreeIsServed(n: nat)
      requires Ok() && size > 0 && 0 < n <= LargestFree()
      ensures CanGrow(n)
    {
      if rd > wr {
        ServedAtWr(Ring(size, cur, rd, wr + n), n);
      } else if wr + n < size {
        ServedAtWr(Ring(size, cur, rd, wr + n), n);
      } else if wr + n == size {
        ServedAtWr(Ring(size, cur, rd, 0), n);
      } else {
        ServedAtZero(if rd == wr then Ring(size, size, 0, n) else Ring(size, wr, rd, n), n);
      }
    }

    lemma NothingLarger(q: Ring, off: nat, n: nat)
      requires Ok() && size > 0 && n > 0 && Grows(q, off, n)
      requires Used() == 0 ==> off == wr || off + n < wr
      ensures n <= LargestFree()
    {
      var u := Used();
      assert q.Addr(u) == off && q.Addr(u + n - 1) == off + n - 1;
      if u > 0 {
        assert q.Addr(0) == Addr(0) == rd;
        assert q.Addr(u - 1) == Addr(u - 1);
      }
    }

    /// Whether `n` more bytes can follow the queue at the write position.
    ghost predicate CanFollow(n: nat)
      requires Ok()
    {
      exists q: Ring :: Grows(q, wr, n)
    }

    /// Whether the `n` oldest bytes lie next to each other.
    ghost predicate CanShrink(n: nat)
      requires Ok()
    {
      exists q: Ring, off: nat :: Shrinks(q, off, n)
    }

    lemma FrontIsServed(n: nat)
      requires Ok() && n <= if rd <= wr then wr - rd else cur - rd
      ensures CanShrink(n)
    {
      var q := if rd > wr && rd + n == cur then Ring(size, size, 0, wr) else Ring(size, cur, rd + n, wr);
      assert Shrinks(q, rd, n);
    }

    lemma NoLongerFront(q: Ring, off: nat, n: nat)
      requires Ok() && n > 0 && Shrinks(q, off, n)
      ensures n <= if rd <= wr then wr - rd else cur - rd
    {
      assert Addr(0) == rd == off && Addr(n - 1) == off + n - 1;
    }

    /// The ways a request is served: at `wr`, or at 0 after wrapping early.
    lemma ServedAtWr(q: Ring, n: nat)
      requires Ok() && q.size == size && q.rd == rd && q.cur == cur && n <= LargestFree() && size > 0
      requires if rd > wr then n < rd - wr && q.wr == wr + n
               else (wr + n < size && q.wr == wr + n) || (wr + n == size && rd > 0 && q.wr == 0)
      ensures Grows(q, wr, n)
    {
    }

    lemma ServedAtZero(q: Ring, n: nat)
      requires Ok() && rd <= wr < wr + n && size < wr + n && 0 < n < rd
      requires q == if rd == wr then Ring(size, size, 0, n) else Ring(size, wr, rd, n)
      ensures Grows(q, 0, n)
    {
    }

    lemma QueueAt(d: seq<byte>, k: nat)
      requires Ok() && |d| == size && k < Used()
      ensures Addr(k) < size && Live(Addr(k)) && Queue(d)[k] == d[Addr(k)]
    {
    }

    lemma GrownQueue(q: Ring, off: nat, n: nat, d: seq<byte>)
      requires Ok() && |d| == size && Grows(q, off, n)
      ensures q.Queue(d) == Queue(d) + d[off..off + n]
    {
      forall k | 0 <= k < q.Used()
        ensures q.Queue(d)[k] == (Queue(d) + d[off..off + n])[k]
      {
        q.QueueAt(d, k);
        if k < Used() {
          QueueAt(d, k);
        }
      }
    }

    lemma ShrunkQueue(q: Ring, off: nat, n: nat, d: seq<byte>)
      requires Ok() && |d| == size && Shrinks(q, off, n)
      ensures d[off..off + n] == Queue(d)[..n]
      ensures q.Queue(d) == Queue(d)[n..]
    {
      forall k | 0 <= k < n
        ensures d[off + k] == Queue(d)[k]
      {
        QueueAt(d, k);
      }
      forall k | 0 <= k < q.Used()
        ensures q.Queue(d)[k] == Queue(d)[n + k]
      {
        q.QueueAt(d, k);
        QueueAt(d, n + k);
      }
    }

    /// Writing inside the tail region changes those bytes of the queue and no other.
    lemma FilledQueue(off: nat, n: nat, at: nat, src: seq<byte>, d: seq<byte>)
      requires Ok() && |d| == size && TailAt(off, n) && at + |src| <= n
      ensures Queue(Overwrite(d, off + at, src)) == Overwrite(Queue(d), Used() - n + at, src)
    {
      hide Queue, Addr, Live;
      var e := Overwrite(d, off + at, src);
      forall k | 0 <= k < Used()
        ensures Queue(e)[k] == Overwrite(Queue(d), Used() - n + at, src)[k]
      {
        QueueAt(d, k);
        QueueAt(e, k);
        if k >= Used() - n {
          assert Addr(k) == off + k - (Used() - n);
        } else {
          OutsideTail(off, n, k);
        }
      }
    }

    lemma OutsideTail(off: nat, n: nat, k: nat)
      requires Ok() && TailAt(off, n) && k < Used() - n
      ensures !(off <= Addr(k) < off + n)
    {
      if n > 0 {
        assert Addr(Used() - n) == off;
        assert Addr(Used() - 1) == off + n - 1;
      }
    }
  }

  class RingBuffer {
    const data: array<byte>
    const size: u32
    var curSize: u32
    var rd: u32
    var wr: u32

    function State(): Ring
      reads this
    {
      Ring(size, curSize, rd, wr)
    }

    ghost predicate Valid()
      reads this
      ensures Valid() ==> data.Length == size && State().Ok()
    {
      data.Length == size && State().Ok()
    }

    /// The queue the buffer stands for.
    ghost function Contents(): (s: seq<byte>)
      requires Valid()
      reads this, data
      ensures |s| == State().Used()
      ensures if size == 0 then s == [] else |s| < size
    {
      State().Queue(data[..])
    }

    constructor (storage: array<byte>, n: u32)
      requires storage.Length == n
      ensures Valid() && data == storage && size == n && curSize == n && Contents() == []
    {
      data, size, curSize, rd, wr := storage, n, n, 0, 0;
    }

    /// Some request sizes make the 32-bit sum `wr + n` wrap around.
    predicate ProduceWraps(n: u32)
      reads this
    {
      rd <= wr && wr + n >= U32
    }

    predicate ConsumeWraps(n: u32)
      reads this
    {
      rd + n >= U32
    }

    /// No sum wraps when the request and the buffer are C objects.
    lemma SmallRequest(n: nat)
      requires Valid() && n <= OBJECT_MAX && size <= OBJECT_MAX
      ensures !ProduceWraps(n) && !ConsumeWraps(n)
    {
    }

    /// The branches of `esp_apptrace_rb_produce` on the control words.
    method AdvanceWriter(n: u32) returns (ptr: Option<nat>)
      requires Valid()
      modifies this
      ensures !old(ProduceWraps(n)) ==> (ptr.Some? <==> n <= old(State()).LargestFree() && size > 0)
      ensures !old(ProduceWraps(n)) && ptr.Some? ==> old(State()).Grows(State(), ptr.value, n)
      ensures ptr.None? ==> State() == old(State())
      ensures n <= old(WriteSize()) && old(curSize) == size ==> curSize == size
      ensures old(ProduceWraps(n)) ==> ptr == Some(old(wr)) && old(wr) + n > size
      ensures old(ProduceWraps(n)) ==> State() == old(State()).(wr := old(wr) + n - U32)
    {
      hide Ring.Grows;
      ghost var before := State();
      ptr := Some(wr);
      if rd <= wr {
        if Add32(wr, n) >= size {
          if rd == 0 {
            return None;
          }
          if Add32(wr, n) == size {
            wr := 0;
            before.ServedAtWr(State(), n);
          } else {
            if n > rd - 1 {
              return None;
            }
            curSize := wr;
            wr := 0;
            ptr := Some(0);
            if rd == curSize {
              rd := 0;
              if curSize < size {
                curSize := size;
              }
            }
            wr := Add32(wr, n);
            before.ServedAtZero(State(), n);
          }
        } else {
          wr := Add32(wr, n);
          if before.wr + n < U32 {
            before.ServedAtWr(State(), n);
          }
        }
      } else {
        if n > rd - wr - 1 {
          return None;
        }
        wr := Add32(wr, n);
        before.ServedAtWr(State(), n);
      }
    }

    /// The branches of `esp_apptrace_rb_consume` on the control words.
    method AdvanceReader(n: u32) returns (ptr: Option<nat>)
      requires Valid()
      modifies this
      ensures !old(ConsumeWraps(n)) ==> Valid() && (ptr.Some? <==> n <= old(ReadSize()))
      ensures !old(ConsumeWraps(n)) && ptr.Some? ==> old(State()).Shrinks(State(), ptr.value, n)
      ensures ptr.None? ==> State() == old(State())
      ensures old(curSize) == size ==> curSize == size
      ensures !old(ConsumeWraps(n)) ==> old(State()).LargestFree() <= State().LargestFree()
      ensures old(ConsumeWraps(n)) ==> ptr == Some(old(rd)) && old(rd) + n > size
      ensures old(ConsumeWraps(n)) ==> State() == old(State()).(rd := old(rd) + n - U32)
    {
      ptr := Some(rd);
      if rd <= wr {
        if Add32(rd, n) > wr {
          return None;
        }
        rd := Add32(rd, n);
      } else {
        if Add32(rd, n) > curSize {
          return None;
        } else if Add32(rd, n) == curSize {
          if curSize < size {
            curSize := size;
          }
          rd := 0;
        } else {
          rd := Add32(rd, n);
        }
      }
    }

    /// A request whose sum does not wrap is served exactly when some contiguous
    /// free run holds it; the region given out lies in the storage, holds no
    /// byte of the queue and becomes the queue's tail.
    method Produce(n: u32) returns (ptr: Option<nat>)
      requires Valid()
      modifies this
      ensures !old(ProduceWraps(n)) ==> Valid()
      ensures !old(ProduceWraps(n)) ==> (ptr.Some? <==> n <= old(State()).LargestFree() && size > 0)
      ensures !old(ProduceWraps(n)) && n > 0 && size > 0 ==> (ptr.Some? <==> old(State()).CanGrow(n))
      ensures !old(ProduceWraps(n)) && ptr.Some? ==>
        && State().TailAt(ptr.value, n)
        && (forall a :: ptr.value <= a < ptr.value + n ==> !old(State()).Live(a))
        && Contents() == old(Contents()) + data[ptr.value..ptr.value + n]
      ensures ptr.None? ==> Valid() && State() == old(State()) && Contents() == old(Contents())
      ensures n <= old(WriteSize()) && old(curSize) == size ==> curSize == size
      // A request whose sum wraps is accepted with a region that is not in the storage,
      // and the writer moves back.
      ensures old(ProduceWraps(n)) ==> ptr == Some(old(wr)) && old(wr) + n > size
      ensures old(ProduceWraps(n)) ==> State() == old(State()).(wr := old(wr) + n - U32)
    {
      hide Ring.Queue, Ring.CanGrow;
      ghost var before, wraps := State(), ProduceWraps(n);
      if n > 0 && size > 0 {
        before.LargestFreeIsLargest(n);
      }
      ptr := AdvanceWriter(n);
      if !wraps && ptr.Some? {
        before.GrownQueue(State(), ptr.value, n, data[..]);
      }
    }

    /// A request whose sum does not wrap is served exactly when so many of the oldest
    /// bytes lie next to each other; the region given out holds the oldest bytes in order.
    method Consume(n: u32) returns (ptr: Option<nat>)
      requires Valid()
      modifies this
      ensures !old(ConsumeWraps(n)) ==> Valid()
      ensures !old(ConsumeWraps(n)) ==> (ptr.Some? <==> n <= old(ReadSize()))
      ensures !old(ConsumeWraps(n)) && n > 0 ==> (ptr.Some? <==> old(State()).CanShrink(n))
      ensures !old(ConsumeWraps(n)) && ptr.Some? ==>
        && ptr.value + n <= size
        && data[ptr.value..ptr.value + n] == old(Contents())[..n]
        && Contents() == old(Contents())[n..]
      ensures ptr.None? ==> Valid() && State() == old(State()) && Contents() == old(Contents())
      ensures old(curSize) == size ==> curSize == size
      ensures !old(ConsumeWraps(n)) ==> old(State()).LargestFree() <= State().LargestFree()
      ensures old(ConsumeWraps(n)) ==> ptr == Some(old(rd)) && old(rd) + n > size
      ensures old(ConsumeWraps(n)) ==> State() == old(State()).(rd := old(rd) + n - U32)
    {
      hide Ring.Queue, Ring.CanShrink;
      ghost var before, wraps := State(), ConsumeWraps(n);
      if n > 0 {
        ReadSizeIsLargest(n);
      }
      ptr := AdvanceReader(n);
      if !wraps && ptr.Some? {
        before.ShrunkQueue(State(), ptr.value, n, data[..]);
      }
    }

    /// What one call of `Consume` can take: nothing exactly when the queue is empty.
    function ReadSize(): (n: u32)
      requires Valid()
      reads this
      ensures n == 0 <==> State().Used() == 0
      ensures n <= State().Used() && n <= size
    {
      if rd <= wr then wr - rd else curSize - rd
    }

    /// What one call of `Produce` can take without shrinking the buffer.
    function WriteSize(): (n: u32)
      requires Valid()
      reads this
      ensures n <= State().LargestFree() && n <= size
      ensures n == 0 && curSize == size && size > 0 ==> State().Used() == size - 1
    {
      if rd <= wr then
        var n := size - wr;
        if n > 0 && rd == 0 then n - 1 else n
      else
        rd - wr - 1
    }

    /// What can be taken at once is what lies together at the front of the queue.
    lemma ReadSizeIsLargest(n: nat)
      requires Valid() && n > 0
      ensures n <= ReadSize() <==> State().CanShrink(n)
    {
      var s := State();
      if n <= ReadSize() {
        s.FrontIsServed(n);
      } else if q: Ring, off: nat :| s.Shrinks(q, off, n) {
        s.NoLongerFront(q, off, n);
      }
    }

    /// What is announced to the producer is what can follow the queue where it ends.
    lemma WriteSizeIsLargest(n: nat)
      requires Valid() && n > 0 && size > 0
      ensures n <= WriteSize() <==> State().CanFollow(n)
    {
      var s := State();
      if n <= WriteSize() {
        s.ServedAtWr(s.(wr := if rd <= wr && wr + n == size then 0 else wr + n), n);
      } else if q: Ring :| s.Grows(q, wr, n) {
        s.NothingLarger(q, wr, n);
      }
    }

    method Fill(off: nat, n: nat, at: nat, src: seq<byte>)
      requires Valid() && State().TailAt(off, n) && at + |src| <= n
      modifies data
      ensures Contents() == Overwrite(old(Contents()), State().Used() - n + at, src)
    {
      State().FilledQueue(off, n, at, src, data[..]);
      Copy(data, off + at, src);
    }
  }
}
