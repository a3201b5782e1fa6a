// The double-buffered trace protocol (app_trace_membufs_proto.c) with a
// non-empty pending buffer.
//
// The application fills the input block; a swap hands it to the host and makes
// the other block the input block.  Packets that do not fit wait in the pending
// ring, which every swap drains into the new input block.

module TraceBuffers {
  import opened Machine
  import opened RingBuffers

  const HEADER_SIZE: nat := 4       // sizeof(esp_tracedata_hdr_t)
  const HOST_HEADER_SIZE: nat := 2  // sizeof(esp_hostdata_hdr_t)
  const CORE_BIT: nat := 0x8000

  function Le16(n: nat): (r: seq<byte>)
    requires n < 0x1_0000
    ensures |r| == 2
  {
    [n % 256, n / 256]
  }

  /// What the host reads for one complete packet: the size (with the core number
  /// in the top bit), the same value again as "written size", then the payload.
  function Packet(core: nat, payload: seq<byte>): seq<byte>
    requires core <= 1 && |payload| < CORE_BIT
  {
    Le16(core * CORE_BIT + |payload|) + Le16(core * CORE_BIT + |payload|) + payload
  }

  /// The size field the host puts at the start of a block.
  function HostLength(image: seq<byte>): nat
    requires |image| >= HOST_HEADER_SIZE
  {
    256 * (image[1] as int) + image[0]
  }

  /// What the trace code asks its surroundings: whether a swap may start, whether
  /// the host has sent data, whether there is time left.
  datatype Query = StartSwap | HostData | InTime
  datatype Answer = Answer(query: Query, yes: bool)

  /// The environment of one terminating run: the answers the hardware hooks and
  /// the timeout checks give, in order, and what the host leaves in the block of
  /// each swap.  When the list of answers is used up, swaps fail, no host data is
  /// pending and the timeout has expired.
  class Hardware {
    const script: seq<seq<byte>>
    var answers: seq<bool>
    var swaps: nat
    ghost var log: seq<Answer>

    constructor (answers: seq<bool>, script: seq<seq<byte>>)
      ensures this.answers == answers && this.script == script && swaps == 0 && log == []
    {
      this.answers, this.script, swaps, log := answers, script, 0, [];
    }

    method Ask(q: Query) returns (yes: bool)
      modifies this`answers, this`log
      ensures yes <==> old(answers) != [] && old(answers)[0]
      ensures |answers| == if old(answers) == [] then 0 else |old(answers)| - 1
      ensures log == old(log) + [Answer(q, yes)]
    {
      yes := answers != [] && answers[0];
      if answers != [] {
        answers := answers[1..];
      }
      log := log + [Answer(q, yes)];
    }
  }

  /// Where a packet was allocated.
  datatype Place = InBlock(off: nat) | InPending(off: nat)

  // ---- The host's bytes ----

  /// The bytes a host block carries, and those the down buffer took.
  datatype Delivery = Delivery(body: seq<byte>, kept: seq<byte>)

  /// The size field of the block does not exceed the block.
  ghost predicate Readable(image: seq<byte>) {
    |image| >= HOST_HEADER_SIZE && HOST_HEADER_SIZE + HostLength(image) <= |image|
  }

  ghost predicate ImagesFit(script: seq<seq<byte>>, sz: nat) {
    forall image <- script :: |image| == sz && Readable(image)
  }

  /// What the host sends with the k-th swap, if it says that it has sent something.
  ghost function HostBody(script: seq<seq<byte>>, k: nat, yes: bool): seq<byte> {
    if yes && k < |script| && Readable(script[k])
    then script[k][HOST_HEADER_SIZE..HOST_HEADER_SIZE + HostLength(script[k])]
    else []
  }

  /// The delivery of the k-th swap into a down buffer with room for `room` bytes.
  ghost function Delivered(script: seq<seq<byte>>, k: nat, yes: bool, room: nat): Delivery {
    var body := HostBody(script, k, yes);
    Delivery(body, body[..Min(|body|, room)])
  }

  /// The host's bytes that were taken over, in order.
  ghost function Kept(ds: seq<Delivery>): seq<byte> {
    if ds == [] then [] else Kept(ds[..|ds| - 1]) + ds[|ds| - 1].kept
  }

  /// Every delivery is that of its swap: what the host sent then, or nothing.
  ghost predicate FromHost(script: seq<seq<byte>>, ds: seq<Delivery>) {
    forall k: nat :: k < |ds| ==>
      ds[k].kept <= ds[k].body && (ds[k].body == [] || ds[k].body == HostBody(script, k, true))
  }

  lemma {:induction false} OneMoreDelivery(script: seq<seq<byte>>, ds: seq<Delivery>, yes: bool, room: nat)
    requires FromHost(script, ds)
    ensures var d := Delivered(script, |ds|, yes, room);
      FromHost(script, ds + [d]) && Kept(ds + [d]) == Kept(ds) + d.kept
  {
    var d := Delivered(script, |ds|, yes, room);
    assert d.body == [] || d.body == HostBody(script, |ds|, true);
    assert d.kept <= d.body;
    hide HostBody, Delivered;
    var more := ds + [d];
    assert more[..|ds|] == ds && more[|ds|] == d;
    forall k: nat | k < |more|
      ensures more[k].kept <= more[k].body && (more[k].body == [] || more[k].body == HostBody(script, k, true))
    {
      assert k < |ds| ==> more[k] == ds[k];
    }
  }

  /// Produce a region and copy `src` into it.  The region is always granted.
  method Append(rb: RingBuffer, src: seq<byte>)
    requires rb.Valid() && 0 < |src| <= rb.WriteSize() && rb.curSize == rb.size <= OBJECT_MAX
    modifies rb, rb.data
    ensures rb.Valid() && rb.curSize == rb.size
    ensures rb.Contents() == old(rb.Contents()) + src
  {
    ghost var before := rb.Contents();
    var ptr := rb.Produce(|src|);
    assert ptr.Some?;
    rb.Fill(ptr.value, |src|, 0, src);
    assert rb.Contents() == before + src;
  }

  /// esp_apptrace_membufs_down_buffer_write_nolock: what fits is stored, in order.
  method DownWrite(rb: RingBuffer, data: seq<byte>) returns (total: nat)
    requires rb.Valid() && rb.curSize == rb.size <= OBJECT_MAX
    modifies rb, rb.data
    ensures rb.Valid() && rb.curSize == rb.size
    ensures total == Min(|data|, if rb.size == 0 then 0 else rb.size - 1 - old(rb.State().Used()))
    ensures rb.Contents() == old(rb.Contents()) + data[..total]
  {
    hide RingBuffer.Valid, RingBuffer.Contents, Ring.Ok;
    total := 0;
    while total < |data|
      invariant rb.Valid() && rb.curSize == rb.size
      invariant total <= |data|
      invariant rb.Contents() == old(rb.Contents()) + data[..total]
    {
      var n := rb.WriteSize();
      if n == 0 {
        break;
      }
      if n > |data| - total {
        n := |data| - total;
      }
      Append(rb, data[total..total + n]);
      total := total + n;
    }
  }

  /// Take `n` bytes off the ring and copy them behind the marker.
  method MoveChunk(rb: RingBuffer, mem: array<byte>, marker: nat, n: nat)
    requires rb.Valid() && mem != rb.data
    requires 0 < n <= rb.ReadSize() && !rb.ConsumeWraps(n) && marker + n <= mem.Length
    modifies rb, mem
    ensures rb.Valid() && old(rb.State()).LargestFree() <= rb.State().LargestFree()
    ensures mem[..marker + n] + rb.Contents() == old(mem[..marker] + rb.Contents())
  {
    hide RingBuffer.Valid, RingBuffer.Contents, Ring.Ok, Ring.LargestFree;
    ghost var done, before := mem[..marker], rb.Contents();
    var ptr := rb.Consume(n);
    var chunk := rb.data[ptr.value..ptr.value + n];
    assert before == chunk + rb.Contents();
    Copy(mem, marker, chunk);
    assert mem[..marker + n] == done + chunk;
    assert done + chunk + rb.Contents() == done + before;
  }

  /// The drain loop of a swap: copy pending bytes to the start of the new block
  /// until it is full or no byte is pending.
  method PumpPending(rb: RingBuffer, mem: array<byte>) returns (marker: nat)
    requires rb.Valid() && rb.size <= OBJECT_MAX && mem != rb.data
    modifies rb, mem
    ensures rb.Valid() && marker <= mem.Length
    ensures mem[..marker] + rb.Contents() == old(rb.Contents())
    ensures rb.State().Used() > 0 ==> marker == mem.Length
    ensures old(rb.State()).LargestFree() <= rb.State().LargestFree()
  {
    hide *;
    marker := 0;
    while marker < mem.Length
      invariant rb.Valid() && marker <= mem.Length
      invariant mem[..marker] + rb.Contents() == old(rb.Contents())
      invariant old(rb.State()).LargestFree() <= rb.State().LargestFree()
    {
      var n := rb.ReadSize();
      if n == 0 {
        break;
      }
      if n > mem.Length - marker {
        n := mem.Length - marker;
      }
      rb.SmallRequest(n);
      MoveChunk(rb, mem, marker, n);
      marker := marker + n;
    }
  }

  /// How many bytes a flush hands over when it swaps blocks of `sz` bytes until at most
  /// `min` are in the block: `c` are there now, `p` are pending.
  function Handed(sz: nat, c: nat, p: nat, min: nat): nat
    decreases c + p
  {
    if c <= min then 0 else c + Handed(sz, Min(p, sz), p - Min(p, sz), min)
  }

  // ---- The log of what was asked ----

  /// From entry `n` on the log is that of a swap, retried or not: it starts with an
  /// attempt, and the host is only asked for data right behind a successful one.
  ghost predicate SwapLog(log: seq<Answer>, n: nat)
    ensures SwapLog(log, n) ==> n < |log|
  {
    && n < |log| && log[n].query == StartSwap
    && forall k :: n <= k < |log| && log[k].query == HostData ==> n < k && log[k - 1].query == StartSwap
  }

  /// Entry `k` is an answer outside a swap that the host has sent data.
  ghost predicate Calling(log: seq<Answer>, n: nat, k: nat) {
    n <= k < |log| && log[k] == Answer(HostData, true) && (k > n ==> log[k - 1].query != StartSwap)
  }

  /// From entry `n` on, each time the host said so a swap was tried next.
  ghost predicate Heeded(log: seq<Answer>, n: nat) {
    forall k: nat :: Calling(log, n, k) ==> k + 1 < |log| && log[k + 1].query == StartSwap
  }

  lemma SwapLogStarts(before: seq<Answer>, more: seq<Answer>)
    requires more != [] && more[0].query == StartSwap
    requires forall k :: 0 <= k < |more| && more[k].query == HostData ==> k > 0 && more[k - 1].query == StartSwap
    ensures SwapLog(before + more, |before|)
  {
    var log := before + more;
    forall k | |before| <= k < |log| && log[k].query == HostData
      ensures |before| < k && log[k - 1].query == StartSwap
    {
      assert log[k] == more[k - |before|];
    }
  }

  lemma SwapLogKeeps(log: seq<Answer>, more: seq<Answer>, n: nat)
    requires SwapLog(log, n)
    requires forall k :: 0 <= k < |more| && more[k].query == HostData ==> k > 0 && more[k - 1].query == StartSwap
    ensures SwapLog(log + more, n)
  {
    var all := log + more;
    forall k | n <= k < |all| && all[k].query == HostData
      ensures n < k && all[k - 1].query == StartSwap
    {
      assert k >= |log| ==> all[k] == more[k - |log|];
    }
  }

  lemma LogsSwap(log: seq<Answer>, more: seq<Answer>)
    requires more != [] && more[0].query == StartSwap
    requires forall k :: 0 <= k < |more| && more[k].query == HostData ==> k > 0 && more[k - 1].query == StartSwap
    ensures SwapLog(log + more, |log|) && forall n: nat :: SwapLog(log, n) ==> SwapLog(log + more, n)
  {
    SwapLogStarts(log, more);
    forall n: nat | SwapLog(log, n) ensures SwapLog(log + more, n) {
      SwapLogKeeps(log, more, n);
    }
  }

  lemma NothingAsked(log: seq<Answer>)
    ensures Heeded(log, |log|)
  {
  }

  lemma OneSwapLogged(before: seq<Answer>, after: seq<Answer>, ok: bool)
    requires !ok ==> after == before + [Answer(StartSwap, false)]
    requires ok ==> exists y :: after == before + [Answer(StartSwap, true), Answer(HostData, y)]
    ensures SwapLog(after, |before|) && forall n: nat :: SwapLog(before, n) ==> SwapLog(after, n)
  {
    LogsSwap(before, after[|before|..]);
    assert after == before + after[|before|..];
  }

  lemma SwapHeeds(before: seq<Answer>, log: seq<Answer>, n: nat)
    requires n <= |before| && Heeded(before, n) && before + [Answer(HostData, true)] <= log
    requires SwapLog(log, |before| + 1)
    ensures Heeded(log, n)
  {
    forall k: nat | Calling(log, n, k)
      ensures k + 1 < |log| && log[k + 1].query == StartSwap
    {
      assert k < |before| ==> log[k] == before[k] && Calling(before, n, k);
    }
  }

  lemma NothingToHeed(before: seq<Answer>, a: Answer, n: nat)
    requires n <= |before| && Heeded(before, n) && a != Answer(HostData, true)
    ensures Heeded(before + [a], n)
  {
    var log := before + [a];
    forall k: nat | Calling(log, n, k)
      ensures k + 1 < |log| && log[k + 1].query == StartSwap
    {
      assert k < |before| && Calling(before, n, k);
    }
  }

  // ---- Reading a trace ----

  lemma TracedNone()
    ensures Traced([], []) == []
  {
  }

  lemma TracedMore(calls: seq<Call>, i: nat, oks: seq<bool>, ok: bool)
    requires i < |calls| && |oks| == i
    ensures var c := calls[i];
      Traced(calls[..i + 1], oks + [ok]) == Traced(calls[..i], oks) +
        if ok && c.Trace? && c.core <= 1 && |c.payload| < CORE_BIT then Packet(c.core, c.payload) else []
  {
    assert calls[..i + 1][..i] == calls[..i] && (oks + [ok])[..i] == oks;
  }

  lemma Le16Decodes(n: nat)
    requires n < 0x1_0000
    ensures Le16(n)[0] + 256 * (Le16(n)[1] as int) == n
    ensures forall body :: HostLength(Le16(n) + body) == n
  {
  }

  /// The packets a reader finds in a trace: core, and as many bytes as the size says.
  function Parse(s: seq<byte>): seq<(nat, seq<byte>)>
    decreases |s|
  {
    if |s| < HEADER_SIZE then [] else
      var field := s[0] + 256 * (s[1] as int);
      var n := field % CORE_BIT;
      if |s| < HEADER_SIZE + n then []
      else [(field / CORE_BIT, s[HEADER_SIZE..HEADER_SIZE + n])] + Parse(s[HEADER_SIZE + n..])
  }

  lemma {:induction false} ParsePacket(core: nat, payload: seq<byte>, rest: seq<byte>)
    requires core <= 1 && |payload| < CORE_BIT
    ensures Parse(Packet(core, payload) + rest) == [(core, payload)] + Parse(rest)
  {
    var field := core * CORE_BIT + |payload|;
    var s := Packet(core, payload) + rest;
    Le16Decodes(field);
    assert s == Le16(field) + Le16(field) + payload + rest;
    hide Le16, Packet;
    assert s[0] == Le16(field)[0] && s[1] == Le16(field)[1];
    assert s[HEADER_SIZE..HEADER_SIZE + |payload|] == payload && s[HEADER_SIZE + |payload|..] == rest;
    FieldParts(core, |payload|);
    assert s[0] + 256 * (s[1] as int) == field;
  }

  lemma FieldParts(core: nat, n: nat)
    requires n < CORE_BIT
    ensures (core * CORE_BIT + n) / CORE_BIT == core && (core * CORE_BIT + n) % CORE_BIT == n
  {
  }

  /// The packets of the successful writes, as pairs.
  ghost function Written(calls: seq<Call>, oks: seq<bool>): seq<(nat, seq<byte>)>
    requires |calls| == |oks|
  {
    if calls == [] then [] else
      var n := |calls| - 1;
      var c := calls[n];
      Written(calls[..n], oks[..n]) +
      if oks[n] && c.Trace? && c.core <= 1 && |c.payload| < CORE_BIT then [(c.core, c.payload)] else []
  }

  /// Whoever reads the trace finds exactly the packets written, in order.
  lemma {:induction false} TraceParses(calls: seq<Call>, oks: seq<bool>, rest: seq<byte>)
    requires |calls| == |oks|
    ensures Parse(Traced(calls, oks) + rest) == Written(calls, oks) + Parse(rest)
    decreases |calls|
  {
    hide Parse, Packet;
    if calls == [] {
      assert [] + rest == rest && [] + Parse(rest) == Parse(rest);
    } else {
      var n := |calls| - 1;
      var c := calls[n];
      var before, done := Traced(calls[..n], oks[..n]), Written(calls[..n], oks[..n]);
      if oks[n] && c.Trace? && c.core <= 1 && |c.payload| < CORE_BIT {
        var packet := Packet(c.core, c.payload);
        ParsePacket(c.core, c.payload, rest);
        TraceParses(calls[..n], oks[..n], packet + rest);
        assert before + packet + rest == before + (packet + rest);
        assert done + [(c.core, c.payload)] + Parse(rest) == done + ([(c.core, c.payload)] + Parse(rest));
      } else {
        TraceParses(calls[..n], oks[..n], rest);
        assert before + [] == before && done + [] == done;
      }
    }
  }

  /// Filling the payload and then copying the size field completes the packet.
  lemma PacketBytes(s: seq<byte>, size: seq<byte>, payload: seq<byte>, t: seq<byte>)
    requires |size| == 2 && |t| == |s| + HEADER_SIZE + |payload| && s + (size + Le16(0)) <= t
    ensures var filled := Overwrite(t, |s| + HEADER_SIZE, payload);
      Overwrite(filled, |s| + 2, filled[|s|..|s| + 2]) == s + (size + size + payload)
  {
    var filled := Overwrite(t, |s| + HEADER_SIZE, payload);
    assert t[..|s|] == s && t[|s|..|s| + 2] == size;
    assert filled == s + (size + Le16(0) + payload);
  }

  class TraceBufs {
    const sz: nat
    const block0: array<byte>
    const block1: array<byte>
    const rbPend: RingBuffer
    const rbDown: RingBuffer
    const hw: Hardware
    var inBlock: u32
    var markers: seq<nat>
    ghost var sent: seq<byte>            // all bytes of blocks handed to the host
    ghost var deliveries: seq<Delivery>  // what the host sent with each swap
    ghost var taken: seq<byte>           // all host bytes the application has read

    ghost function Repr(): set<object> {
      {this, block0, block1, rbPend, rbPend.data, rbDown, rbDown.data, hw}
    }

    /// The fixed memory layout: no two buffers overlap.
    ghost predicate Layout() {
      && HEADER_SIZE <= sz <= CORE_BIT
      && block0.Length == block1.Length == sz
      && block0 != block1 && rbPend.data != rbDown.data && rbPend != rbDown
      && {block0, block1} !! {rbPend.data, rbDown.data}
      && 0 < rbPend.size <= OBJECT_MAX && rbDown.size <= OBJECT_MAX
    }

    ghost predicate Valid()
      ensures Valid() ==> HEADER_SIZE <= sz <= CORE_BIT && rbDown.Valid() && FromHost(hw.script, deliveries)
      reads this, block0, block1, rbPend, rbPend.data, rbDown, rbDown.data, hw
    {
      && Layout()
      && rbPend.Valid() && DownOk()
      && |markers| == 2 && markers[0] <= sz && markers[1] <= sz
      && (rbPend.State().Used() > 0 ==> Marker() > 0)
    }

    /// The down channel: the ring holds what was taken over from the host and not
    /// yet read by the application.
    ghost predicate DownOk()
      reads `deliveries, `taken, rbDown, rbDown.data, hw`swaps
    {
      && rbDown.Valid() && rbDown.curSize == rbDown.size
      && ImagesFit(hw.script, sz) && |deliveries| == hw.swaps && FromHost(hw.script, deliveries)
      && Kept(deliveries) == taken + rbDown.Contents()
    }

    /// How many bytes the down buffer can still take.
    ghost function Room(): nat
      requires rbDown.Valid()
      reads rbDown
    {
      if rbDown.size == 0 then 0 else rbDown.size - 1 - rbDown.State().Used()
    }

    function Block(i: nat): array<byte> {
      if i % 2 == 0 then block0 else block1
    }

    function Marker(): nat
      requires |markers| == 2
      reads this
    {
      markers[inBlock % 2]
    }

    /// What the host would get if the blocks were swapped now.
    ghost function Current(): seq<byte>
      requires Valid()
      reads this, block0, block1, rbPend, rbPend.data, rbDown, rbDown.data, hw
      ensures |Current()| <= sz
    {
      Block(inBlock)[..Marker()]
    }

    /// What waits in the pending ring.
    ghost function Pending(): seq<byte>
      requires Valid()
      reads this, block0, block1, rbPend, rbPend.data, rbDown, rbDown.data, hw
      ensures Pending() != [] ==> Current() != []
    {
      rbPend.Contents()
    }

    /// The fill level of the input block.
    function Filled(): (n: nat)
      requires Valid()
      reads this, block0, block1, rbPend, rbPend.data, rbDown, rbDown.data, hw
      ensures n == |Current()|
    {
      Marker()
    }

    /// What one consume can take off the pending ring.
    function PendingSize(): (n: nat)
      requires Valid()
      reads this, block0, block1, rbPend, rbPend.data, rbDown, rbDown.data, hw
      ensures n > 0 <==> Pending() != []
    {
      rbPend.ReadSize()
    }

    /// Every byte ever put into the trace, in order.
    ghost function Stream(): seq<byte>
      requires Valid()
      reads this, block0, block1, rbPend, rbPend.data, rbDown, rbDown.data, hw
    {
      sent + Current() + Pending()
    }

    /// esp_apptrace_membufs_init followed by esp_apptrace_membufs_down_buffer_config.
    constructor (mem0: array<byte>, mem1: array<byte>, pending: array<byte>, down: array<byte>, hardware: Hardware)
      requires mem0 != mem1 && pending != down && {mem0, mem1} !! {pending, down}
      requires HEADER_SIZE <= mem0.Length == mem1.Length <= CORE_BIT
      requires 0 < pending.Length <= OBJECT_MAX && down.Length <= OBJECT_MAX
      requires ImagesFit(hardware.script, mem0.Length) && hardware.swaps == 0
      ensures Valid() && Stream() == [] && hw == hardware
    {
      sz, block0, block1, hw := mem0.Length, mem0, mem1, hardware;
      rbPend := new RingBuffer(pending, pending.Length);
      rbDown := new RingBuffer(down, down.Length);
      inBlock, markers := 0, [0, 0];
      sent, deliveries, taken := [], [], [];
    }

    /// The host's data in a swapped-in block go to the down buffer as far as there
    /// is room; the host header in the block is cleared.
    method TakeHostData(mem: array<byte>, written: bool) returns (yes: bool, ghost d: Delivery)
      requires Layout() && mem in {block0, block1} && rbDown.Valid() && rbDown.curSize == rbDown.size
      requires written ==> HostLength(mem[..]) + HOST_HEADER_SIZE <= sz
      modifies rbDown, rbDown.data, mem, hw`answers, hw`log
      ensures rbDown.Valid() && rbDown.curSize == rbDown.size
      ensures hw.log == old(hw.log) + [Answer(HostData, yes)] && |hw.answers| <= |old(hw.answers)|
      ensures d.body == if yes && written then
        old(mem[HOST_HEADER_SIZE..HOST_HEADER_SIZE + HostLength(mem[..])]) else []
      ensures d.kept == d.body[..Min(|d.body|, old(Room()))]
      ensures rbDown.Contents() == old(rbDown.Contents()) + d.kept
      ensures d.body != [] ==> HostLength(mem[..]) == 0
    {
      hide RingBuffer.Valid, RingBuffer.Contents;
      yes := hw.Ask(HostData);
      var n := HostLength(mem[..]);
      d := Delivery([], []);
      if yes && written && n > 0 {
        var body := mem[HOST_HEADER_SIZE..HOST_HEADER_SIZE + n];
        var total := DownWrite(rbDown, body);
        d := Delivery(body, body[..total]);
        mem[0], mem[1] := 0, 0;
      }
    }

    /// The swap hook gives the block to the application; the host may have
    /// written it.
    method EnterBlock(mem: array<byte>) returns (yes: bool)
      requires Layout() && DownOk() && mem in {block0, block1}
      modifies rbDown, rbDown.data, mem, hw, this`deliveries
      ensures DownOk() && |hw.answers| <= |old(hw.answers)|
      ensures hw.log == old(hw.log) + [Answer(HostData, yes)]
      ensures deliveries == old(deliveries) + [Delivered(hw.script, |old(deliveries)|, yes, old(Room()))]
    {
      hide RingBuffer.Valid, RingBuffer.Contents, Kept, FromHost, HostLength;
      ghost var room := Room();
      var k := hw.swaps;
      var written := HostWrites(mem);
      hw.swaps := k + 1;
      ghost var d;
      yes, d := TakeHostData(mem, written);
      assert d == Delivered(hw.script, k, yes, room);
      Record(yes, room, old(rbDown.Contents()));
    }

    /// Put the delivery of the swap that has just taken place on record.
    ghost method Record(yes: bool, room: nat, before: seq<byte>)
      requires rbDown.Valid() && rbDown.curSize == rbDown.size
      requires ImagesFit(hw.script, sz) && hw.swaps == |deliveries| + 1 && FromHost(hw.script, deliveries)
      requires Kept(deliveries) == taken + before
      requires rbDown.Contents() == before + Delivered(hw.script, |deliveries|, yes, room).kept
      modifies this`deliveries
      ensures DownOk()
      ensures deliveries == old(deliveries) + [Delivered(hw.script, |old(deliveries)|, yes, room)]
    {
      hide RingBuffer.Valid, RingBuffer.Contents, Kept, FromHost, ImagesFit, Delivered;
      ghost var d := Delivered(hw.script, |deliveries|, yes, room);
      OneMoreDelivery(hw.script, deliveries, yes, room);
      assert taken + (before + d.kept) == taken + before + d.kept;
      deliveries := deliveries + [d];
    }

    method HostWrites(mem: array<byte>) returns (written: bool)
      requires Layout() && mem in {block0, block1} && ImagesFit(hw.script, sz)
      modifies mem
      ensures written <==> hw.swaps < |hw.script|
      ensures written ==> Readable(mem[..]) && mem[..] == hw.script[hw.swaps]
    {
      written := hw.swaps < |hw.script|;
      if written {
        Copy(mem, 0, hw.script[hw.swaps]);
        assert mem[..] == hw.script[hw.swaps];
      }
    }

    /// What a swap puts into the new block and takes from it.
    method LoadBlock(mem: array<byte>) returns (marker: nat, yes: bool)
      requires Layout() && DownOk() && rbPend.Valid() && mem in {block0, block1}
      modifies rbPend, rbDown, rbDown.data, mem, hw, this`deliveries
      ensures DownOk() && rbPend.Valid()
      ensures hw.log == old(hw.log) + [Answer(HostData, yes)]
      ensures deliveries == old(deliveries) + [Delivered(hw.script, |old(deliveries)|, yes, old(Room()))]
      ensures marker <= sz && mem[..marker] + rbPend.Contents() == old(rbPend.Contents())
      ensures rbPend.Contents() != [] ==> marker == sz
      ensures old(rbPend.State()).LargestFree() <= rbPend.State().LargestFree()
      ensures |hw.answers| <= |old(hw.answers)|
    {
      hide RingBuffer.Valid, RingBuffer.Contents, DownOk, Ring.LargestFree;
      yes := EnterBlock(mem);
      marker := PumpPending(rbPend, mem);
    }

    /// One swap took place since: its delivery came, and nothing was read.
    ghost predicate Arrived(before: seq<Delivery>, room: nat)
      requires Valid()
      reads this, block0, block1, rbPend, rbPend.data, rbDown, rbDown.data, hw
    {
      && |hw.log| > 0 && hw.log[|hw.log| - 1].query == HostData
      && deliveries == before + [Delivered(hw.script, |before|, hw.log[|hw.log| - 1].yes, room)]
    }

    /// Since the log had `n` entries, the last attempt to swap failed with no time left.
    ghost predicate TimedOut(n: nat)
      reads hw`log
    {
      && n + 2 <= |hw.log|
      && hw.log[|hw.log| - 2] == Answer(StartSwap, false) && hw.log[|hw.log| - 1] == Answer(InTime, false)
    }

    method Swap() returns (ok: bool)
      requires Valid()
      modifies this, block0, block1, rbPend, rbPend.data, rbDown, rbDown.data, hw
      ensures Valid()
      ensures ok ==> sent == old(sent + Current()) && Current() + Pending() == old(Pending())
      ensures ok && Pending() != [] ==> |Current()| == sz
      ensures !ok ==> sent == old(sent) && Current() == old(Current()) && Pending() == old(Pending())
      ensures taken == old(taken)
      ensures ok ==> Arrived(old(deliveries), old(Room())) && |old(hw.log)| < |hw.log|
      ensures !ok ==> deliveries == old(deliveries) && Room() == old(Room())
      // Draining never leaves less room for a packet.
      ensures old(PendingRoom()) <= PendingRoom()
      ensures !ok ==> hw.log == old(hw.log) + [Answer(StartSwap, false)]
      ensures ok ==> exists y :: hw.log == old(hw.log) + [Answer(StartSwap, true), Answer(HostData, y)]
      ensures |hw.answers| <= |old(hw.answers)| && (ok ==> |hw.answers| < |old(hw.answers)|)
    {
      hide RingBuffer.Valid, RingBuffer.Contents, DownOk, Delivered, FromHost, Kept, Ring.LargestFree, Ring.Ok;
      var next := if inBlock % 2 == 1 then 0 else 1;
      ok := hw.Ask(StartSwap);
      if !ok {
        return;
      }
      ghost var yes := Exchange(next);
      assert hw.log == old(hw.log) + [Answer(StartSwap, true), Answer(HostData, yes)];
    }

    /// The part of a swap after it has started.
    method Exchange(next: nat) returns (yes: bool)
      requires Valid() && next == 1 - inBlock % 2
      modifies this, block0, block1, rbPend, rbPend.data, rbDown, rbDown.data, hw
      ensures Valid() && taken == old(taken)
      ensures sent == old(sent + Current()) && Current() + Pending() == old(Pending())
      ensures Pending() != [] ==> |Current()| == sz
      ensures deliveries == old(deliveries) + [Delivered(hw.script, |old(deliveries)|, yes, old(Room()))]
      ensures old(PendingRoom()) <= PendingRoom()
      ensures hw.log == old(hw.log) + [Answer(HostData, yes)] && |hw.answers| <= |old(hw.answers)|
    {
      hide RingBuffer.Valid, RingBuffer.Contents, DownOk, Delivered, FromHost, Kept, Ring.LargestFree, Ring.Ok;
      ghost var handed := Block(inBlock)[..Marker()];
      var mem := Block(next);
      var marker;
      marker, yes := LoadBlock(mem);
      sent := sent + handed;
      markers := markers[next := marker];
      inBlock := Add32(inBlock, 1);
      assert Block(inBlock) == mem && Marker() == marker;
    }

    /// esp_apptrace_membufs_swap_waitus: retry until the swap succeeds or time is up.
    method SwapWait() returns (ok: bool)
      requires Valid()
      modifies this, block0, block1, rbPend, rbPend.data, rbDown, rbDown.data, hw
      ensures Valid()
      ensures ok ==> sent == old(sent + Current()) && Current() + Pending() == old(Pending())
      ensures ok && Pending() != [] ==> |Current()| == sz
      ensures !ok ==> sent == old(sent) && Current() == old(Current()) && Pending() == old(Pending())
      ensures taken == old(taken)
      ensures ok ==> Arrived(old(deliveries), old(Room())) && |old(hw.log)| < |hw.log|
      ensures !ok ==> deliveries == old(deliveries) && TimedOut(|old(hw.log)|)
      ensures old(hw.log) <= hw.log && SwapLog(hw.log, |old(hw.log)|)
      ensures |hw.answers| <= |old(hw.answers)| && (ok ==> |hw.answers| < |old(hw.answers)|)
    {
      hide *;
      ok := Swap();
      OneSwapLogged(old(hw.log), hw.log, ok);
      while !ok
        invariant Valid()
        invariant ok ==> sent == old(sent + Current()) && Current() + Pending() == old(Pending())
        invariant ok && Pending() != [] ==> |Current()| == sz
        invariant !ok ==> sent == old(sent) && Current() == old(Current()) && Pending() == old(Pending())
        invariant taken == old(taken) && old(hw.log) <= hw.log && SwapLog(hw.log, |old(hw.log)|)
        invariant ok ==> Arrived(old(deliveries), old(Room()))
        invariant !ok ==> deliveries == old(deliveries) && Room() == old(Room())
        invariant !ok ==> hw.log[|hw.log| - 1] == Answer(StartSwap, false)
        invariant |hw.answers| <= |old(hw.answers)| && (ok ==> |hw.answers| < |old(hw.answers)|)
        decreases |hw.answers|
      {
        ghost var log := hw.log;
        var inTime := TimeLeft();
        SwapLogKeeps(log, [Answer(InTime, inTime)], |old(hw.log)|);
        if !inTime {
          return;
        }
        ok := Swap();
        OneSwapLogged(log + [Answer(InTime, inTime)], hw.log, ok);
      }
    }

    /// The hook host_data_pending.
    method HostDataPending() returns (yes: bool)
      requires Valid()
      modifies hw`answers, hw`log
      ensures Valid() && Current() == old(Current()) && Pending() == old(Pending()) && Room() == old(Room())
      ensures Unread() == old(Unread())
      ensures hw.log == old(hw.log) + [Answer(HostData, yes)]
      ensures |hw.answers| <= |old(hw.answers)| && (yes ==> |hw.answers| < |old(hw.answers)|)
    {
      hide RingBuffer.Valid, RingBuffer.Contents, DownOk;
      yes := hw.Ask(HostData);
    }

    /// esp_apptrace_tmo_check
    method TimeLeft() returns (yes: bool)
      requires Valid()
      modifies hw`answers, hw`log
      ensures Valid() && Current() == old(Current()) && Pending() == old(Pending()) && Room() == old(Room())
      ensures Unread() == old(Unread())
      ensures hw.log == old(hw.log) + [Answer(InTime, yes)]
      ensures !yes && old(hw.log) != [] && old(hw.log)[|old(hw.log)| - 1] == Answer(StartSwap, false) ==>
        forall n: nat :: n < |old(hw.log)| ==> TimedOut(n)
      ensures |hw.answers| <= |old(hw.answers)| && (yes ==> |hw.answers| < |old(hw.answers)|)
    {
      hide RingBuffer.Valid, RingBuffer.Contents, DownOk;
      yes := hw.Ask(InTime);
    }

    /// The youngest `n` bytes of the trace are stored at `p`.
    ghost predicate Reserved(p: Place, n: nat)
      requires Valid()
      ensures Reserved(p, n) ==> n <= |Stream()|
      reads this, block0, block1, rbPend, rbPend.data, rbDown, rbDown.data, hw
    {
      && n <= |Current()| + |Pending()|
      && match p
         case InBlock(off) => Pending() == [] && off + n == Filled()
         case InPending(off) => rbPend.State().TailAt(off, n)
    }

    /// The longest piece the pending ring can hand out.
    ghost function PendingRoom(): nat
      requires Valid()
      reads this, block0, block1, rbPend, rbPend.data, rbDown, rbDown.data, hw
    {
      rbPend.State().LargestFree()
    }

    /// Whether `raw` bytes can be had without a swap.
    ghost predicate Fits(raw: nat)
      requires Valid()
      reads this, block0, block1, rbPend, rbPend.data, rbDown, rbDown.data, hw
    {
      (Pending() == [] && |Current()| + raw <= sz) || raw <= PendingRoom()
    }

    /// Produce from the pending ring.
    method GetPending(raw: nat) returns (ptr: Option<Place>)
      requires Valid() && raw <= sz && (Pending() != [] || Filled() + raw > sz)
      modifies rbPend
      ensures Valid() && Current() == old(Current()) && old(Pending()) <= Pending()
      ensures ptr.Some? <==> raw <= old(PendingRoom())
      ensures ptr.None? ==> Pending() == old(Pending()) && PendingRoom() == old(PendingRoom())
      ensures ptr.Some? ==> ptr.value.InPending? && |Pending()| == |old(Pending())| + raw && Reserved(ptr.value, raw)
    {
      hide RingBuffer.Valid, RingBuffer.Contents, DownOk;
      rbPend.SmallRequest(raw);
      var off := rbPend.Produce(raw);
      ptr := if off.Some? then Some(InPending(off.value)) else None;
    }

    /// Hand out the block behind the marker.
    method GetInBlock(raw: nat) returns (ptr: Option<Place>)
      requires Valid() && Pending() == [] && Filled() + raw <= sz
      modifies this`markers
      ensures Valid() && Pending() == [] && old(Current()) <= Current()
      ensures ptr.Some? && ptr.value.InBlock? && |Current()| == |old(Current())| + raw && Reserved(ptr.value, raw)
    {
      hide RingBuffer.Valid, RingBuffer.Contents, DownOk;
      ptr := Some(InBlock(Marker()));
      markers := markers[inBlock % 2 := Marker() + raw];
    }

    /// esp_apptrace_membufs_wait4buf followed by the caller's marker update.
    method WaitForBuffer(raw: nat) returns (ptr: Option<Place>)
      requires Valid() && raw <= sz
      modifies this, block0, block1, rbPend, rbPend.data, rbDown, rbDown.data, hw
      ensures Valid() && Extends(old(Stream()), ptr, raw)
      ensures taken == old(taken) && old(deliveries) <= deliveries && old(hw.log) <= hw.log
      ensures ptr.None? ==> TimedOut(|old(hw.log)|) || !Fits(raw)
    {
      hide Valid, Current, Pending, Filled, PendingSize, PendingRoom, Reserved, Delivered;
      hide RingBuffer.Valid, RingBuffer.Contents;
      var ok := SwapWait();
      if !ok {
        return None;
      }
      if PendingSize() > 0 {
        ptr := GetPending(raw);
      } else if Filled() + raw > sz {
        ptr := GetPending(raw);
      } else {
        ptr := GetInBlock(raw);
      }
    }

    /// The stream is `s`, followed by `raw` freshly reserved bytes if `ptr` is a place.
    ghost predicate Extends(s: seq<byte>, ptr: Option<Place>, raw: nat)
      requires Valid()
      reads this, block0, block1, rbPend, rbPend.data, rbDown, rbDown.data, hw
    {
      match ptr
      case None => Stream() == s
      case Some(p) => |Stream()| == |s| + raw && s <= Stream() && Reserved(p, raw)
    }

    /// With bytes pending a swap is tried before anything else.
    ghost predicate SwapFirst(before: seq<Answer>, pending: bool)
      reads hw`log
    {
      pending ==> |before| < |hw.log| && hw.log[|before|].query == StartSwap
    }

    /// The allocation part of esp_apptrace_membufs_up_buffer_get.
    method Allocate(raw: nat) returns (ptr: Option<Place>)
      requires Valid() && raw <= sz
      modifies this, block0, block1, rbPend, rbPend.data, rbDown, rbDown.data, hw
      ensures Valid() && Extends(old(Stream()), ptr, raw)
      ensures taken == old(taken) && old(deliveries) <= deliveries
      ensures old(Fits(raw)) ==> ptr.Some?
      ensures ptr.None? ==> TimedOut(|old(hw.log)|) || !Fits(raw)
      ensures old(hw.log) <= hw.log && SwapFirst(old(hw.log), old(Pending()) != [])
      ensures old(Pending()) == [] && old(Fits(raw)) ==> hw.log == old(hw.log) && sent == old(sent)
    {
      hide Valid, Current, Pending, Filled, PendingSize, PendingRoom, Reserved, Delivered;
      hide RingBuffer.Valid, RingBuffer.Contents;
      if PendingSize() > 0 {
        var _ := Swap();
      }
      if PendingSize() > 0 {
        ptr := PendingOrWait(raw);
      } else if Filled() + raw > sz {
        ptr := PendingOrWait(raw);
      } else {
        ptr := GetInBlock(raw);
      }
    }

    /// Take the piece from the pending ring, or wait for a swap.
    method PendingOrWait(raw: nat) returns (ptr: Option<Place>)
      requires Valid() && raw <= sz && (Pending() != [] || |Current()| + raw > sz)
      modifies this, block0, block1, rbPend, rbPend.data, rbDown, rbDown.data, hw
      ensures Valid() && Extends(old(Stream()), ptr, raw)
      ensures taken == old(taken) && old(deliveries) <= deliveries && old(hw.log) <= hw.log
      ensures old(Fits(raw)) ==> ptr.Some? && hw.log == old(hw.log) && sent == old(sent)
      ensures ptr.None? ==> TimedOut(|old(hw.log)|) || !Fits(raw)
    {
      hide Valid, Current, Pending, Filled, PendingSize, PendingRoom, Reserved, Delivered;
      hide RingBuffer.Valid, RingBuffer.Contents;
      ptr := GetPending(raw);
      if ptr.None? {
        ptr := WaitForBuffer(raw);
      }
    }

    method StoreInBlock(off: nat, src: seq<byte>)
      requires Valid() && off + |src| <= Filled()
      modifies block0, block1
      ensures Valid() && Pending() == old(Pending())
      ensures Current() == Overwrite(old(Current()), off, src)
    {
      hide RingBuffer.Valid, RingBuffer.Contents, DownOk;
      var mem := Block(inBlock);
      ghost var before := mem[..];
      Copy(mem, off, src);
      assert mem[..] == Overwrite(before, off, src);
    }

    method StorePending(off: nat, n: nat, at: nat, src: seq<byte>)
      requires Valid() && rbPend.State().TailAt(off, n) && at + |src| <= n
      modifies rbPend.data
      ensures Valid() && Current() == old(Current())
      ensures n <= |Pending()| && Pending() == Overwrite(old(Pending()), |Pending()| - n + at, src)
    {
      hide RingBuffer.Valid, RingBuffer.Contents, DownOk;
      rbPend.Fill(off, n, at, src);
    }

    /// Write `src` at offset `at` of the `n` bytes reserved at `p`.
    method Store(p: Place, n: nat, at: nat, src: seq<byte>)
      requires Valid() && Reserved(p, n) && at + |src| <= n
      modifies block0, block1, rbPend.data
      ensures Valid() && Reserved(p, n)
      ensures Stream() == Overwrite(old(Stream()), |old(Stream())| - n + at, src)
    {
      hide Valid, Current, Pending, RingBuffer.Valid, RingBuffer.Contents;
      match p
      case InBlock(off) =>
        StoreInBlock(off + at, src);
      case InPending(off) =>
        StorePending(off, n, at, src);
    }

    method LoadPending(off: nat, n: nat, at: nat, len: nat) returns (r: seq<byte>)
      requires Valid() && rbPend.State().TailAt(off, n) && n <= |Pending()| && at + len <= n
      ensures |r| == len && r == Pending()[|Pending()| - n + at..][..len]
    {
      hide Ring.Queue, DownOk;
      r := rbPend.data[off + at..off + at + len];
      ghost var d := rbPend.data[..];
      forall k | 0 <= k < len
        ensures r[k] == Pending()[|Pending()| - n + at + k]
      {
        rbPend.State().QueueAt(d, |Pending()| - n + at + k);
      }
    }

    /// Read `len` bytes at offset `at` of the `n` bytes reserved at `p`.
    method Load(p: Place, n: nat, at: nat, len: nat) returns (r: seq<byte>)
      requires Valid() && Reserved(p, n) && at + len <= n
      ensures |r| == len && r == Stream()[|Stream()| - n + at..][..len]
    {
      hide RingBuffer.Valid, RingBuffer.Contents, DownOk;
      match p
      case InBlock(off) =>
        r := Block(inBlock)[off + at..off + at + len];
      case InPending(off) =>
        r := LoadPending(off, n, at, len);
    }

    /// The packet of `n` bytes reserved at `p` follows `s` and starts with `header`.
    ghost predicate Open(s: seq<byte>, p: Place, n: nat, header: seq<byte>)
      requires Valid()
      reads this, block0, block1, rbPend, rbPend.data, rbDown, rbDown.data, hw
    {
      && Extends(s, Some(p), n)
      && |header| <= n && s + header <= Stream()
    }

    /// esp_apptrace_membufs_up_buffer_get
    method UpBufferGet(core: nat, size: u32) returns (ptr: Option<Place>)
      requires Valid() && core <= 1
      modifies this, block0, block1, rbPend, rbPend.data, rbDown, rbDown.data, hw
      ensures Valid()
      ensures ptr.None? ==> Stream() == old(Stream())
      ensures ptr.Some? ==> size + HEADER_SIZE <= sz
      ensures ptr.Some? ==> Open(old(Stream()), ptr.value, size + HEADER_SIZE, Le16(core * CORE_BIT + size) + Le16(0))
      ensures taken == old(taken) && old(deliveries) <= deliveries
      ensures size + HEADER_SIZE <= sz && old(Fits(size + HEADER_SIZE)) ==> ptr.Some?
      ensures ptr.None? ==> size + HEADER_SIZE > sz || TimedOut(|old(hw.log)|) || !Fits(size + HEADER_SIZE)
      ensures old(hw.log) <= hw.log
      ensures size + HEADER_SIZE <= sz ==> SwapFirst(old(hw.log), old(Pending()) != [])
      ensures size + HEADER_SIZE <= sz && old(Pending()) == [] && old(Fits(size + HEADER_SIZE)) ==>
        hw.log == old(hw.log) && sent == old(sent)
    {
      hide Valid, Current, Pending, Reserved, Fits, TimedOut, SwapFirst;
      if size > sz - HEADER_SIZE {
        return None;
      }
      ptr := Allocate(size + HEADER_SIZE);
      if ptr.Some? {
        Store(ptr.value, size + HEADER_SIZE, 0, Le16(core * CORE_BIT + size) + Le16(0));
      }
    }

    /// esp_apptrace_membufs_up_buffer_put: the written size becomes the block size.
    method UpBufferPut(p: Place, n: nat)
      requires Valid() && HEADER_SIZE <= n && Reserved(p, n)
      modifies block0, block1, rbPend.data
      ensures Valid()
      ensures var at := |old(Stream())| - n;
        Stream() == Overwrite(old(Stream()), at + 2, old(Stream())[at..at + 2])
    {
      hide Valid, Current, Pending, Reserved;
      var blockSize := Load(p, n, 0, 2);
      assert blockSize == Stream()[|Stream()| - n..][..2] == Stream()[|Stream()| - n..|Stream()| - n + 2];
      Store(p, n, 2, blockSize);
    }

    /// esp_apptrace_write: one complete packet joins the stream, or nothing does.
    method Write(core: nat, payload: seq<byte>) returns (ok: bool)
      requires Valid() && core <= 1 && |payload| < U32
      modifies this, block0, block1, rbPend, rbPend.data, rbDown, rbDown.data, hw
      ensures Valid() && taken == old(taken) && old(deliveries) <= deliveries
      ensures !ok ==> Stream() == old(Stream())
      // What fits without a swap is accepted; a payload that could be sent is refused
      // only for lack of time or of room.
      ensures 0 < |payload| <= sz - HEADER_SIZE && old(Fits(|payload| + HEADER_SIZE)) ==> ok
      ensures !ok && 0 < |payload| <= sz - HEADER_SIZE ==>
        TimedOut(|old(hw.log)|) || !Fits(|payload| + HEADER_SIZE)
      // With bytes pending a swap is tried first; without, no swap is made for what fits.
      ensures 0 < |payload| <= sz - HEADER_SIZE ==> SwapFirst(old(hw.log), old(Pending()) != [])
      ensures 0 < |payload| <= sz - HEADER_SIZE && old(Pending()) == [] && old(Fits(|payload| + HEADER_SIZE)) ==>
        hw.log == old(hw.log) && sent == old(sent)
      ensures ok ==> 0 < |payload| <= sz - HEADER_SIZE < CORE_BIT && Stream() == old(Stream()) + Packet(core, payload)
    {
      hide Valid, Current, Pending, Reserved, Overwrite, Le16, Stream, Fits, TimedOut, SwapFirst;
      if |payload| == 0 {
        return false;
      }
      ghost var s := Stream();
      var n := |payload| + HEADER_SIZE;
      var ptr := UpBufferGet(core, |payload|);
      if ptr.None? {
        return false;
      }
      ghost var size, t := Le16(core * CORE_BIT + |payload|), Stream();
      Store(ptr.value, n, HEADER_SIZE, payload);
      UpBufferPut(ptr.value, n);
      PacketBytes(s, size, payload, t);
      return true;
    }

    /// esp_apptrace_membufs_flush_nolock
    method Flush(minSz: u32) returns (ok: bool)
      requires Valid()
      modifies this, block0, block1, rbPend, rbPend.data, rbDown, rbDown.data, hw
      ensures Valid() && Stream() == old(Stream()) && taken == old(taken) && old(deliveries) <= deliveries
      ensures !ok ==> TimedOut(|old(hw.log)|)
      ensures old(|Current()|) < minSz ==> ok && sent == old(sent)
      ensures ok && old(|Current()|) >= minSz ==> |Current()| <= minSz
      // No block is handed over once the fill level is low enough.
      ensures ok && old(|Current()|) >= minSz ==>
        |sent| == |old(sent)| + Handed(sz, old(|Current()|), old(|Pending()|), minSz)
      // A completed flush of everything has handed every byte to the host.
      ensures ok && minSz == 0 ==> sent == old(Stream()) && Current() == [] && Pending() == []
    {
      hide Valid, Current, Pending;
      ok := true;
      if Filled() < minSz {
        return;
      }
      while Filled() > minSz
        invariant Valid() && Stream() == old(Stream()) && taken == old(taken) && old(deliveries) <= deliveries
        invariant |old(hw.log)| <= |hw.log|
        invariant |sent| + Handed(sz, |Current()|, |Pending()|, minSz) ==
          |old(sent)| + Handed(sz, old(|Current()|), old(|Pending()|), minSz)
        decreases |Current()| + |Pending()|
      {
        ok := SwapWait();
        if !ok {
          return;
        }
      }
      NothingPending();
    }

    /// Bytes wait in the pending ring only while the input block is not empty.
    lemma NothingPending()
      requires Valid()
      ensures Current() == [] ==> Pending() == []
    {
    }

    /// What the application can still read of the host's bytes.
    ghost function Unread(): seq<byte>
      requires Valid()
      reads this, block0, block1, rbPend, rbPend.data, rbDown, rbDown.data, hw
      ensures FromHost(hw.script, deliveries) && Kept(deliveries) == taken + Unread()
    {
      rbDown.Contents()
    }

    function UnreadSize(): (n: nat)
      requires Valid()
      reads this, block0, block1, rbPend, rbPend.data, rbDown, rbDown.data, hw
      ensures n > 0 <==> Unread() != []
    {
      rbDown.ReadSize()
    }

    /// Consume from the down buffer.
    method TakeDown(size: u32) returns (r: seq<byte>)
      requires Valid()
      modifies rbDown, this`taken
      ensures Valid() && Current() == old(Current()) && Pending() == old(Pending())
      ensures Stream() == old(Stream()) && Kept(deliveries) == taken + Unread()
      ensures |r| <= size && |r| == Min(size, old(UnreadSize()))
      ensures taken == old(taken) + r && old(Unread()) == r + Unread()
      ensures r == [] ==> size == 0 || old(Unread()) == []
    {
      hide RingBuffer.Valid, RingBuffer.Contents, Kept, FromHost, ImagesFit;
      ghost var before := rbDown.Contents();
      var n := Min(size, rbDown.ReadSize());
      rbDown.SmallRequest(n);
      var ptr := rbDown.Consume(n);
      r := rbDown.data[ptr.value..ptr.value + n];
      assert before == r + rbDown.Contents();
      assert taken + before == taken + r + rbDown.Contents();
      taken := taken + r;
    }

    /// esp_apptrace_membufs_down_buffer_get: the bytes read are the next ones of what
    /// was taken over from the host; swaps forced on the way lose no trace byte.  There
    /// is nothing to read only if the host has sent nothing and the time is up.
    method DownBufferGet(size: u32) returns (r: Option<seq<byte>>)
      requires Valid()
      modifies this, block0, block1, rbPend, rbPend.data, rbDown, rbDown.data, hw
      ensures Valid() && Stream() == old(Stream()) && old(deliveries) <= deliveries
      ensures Kept(deliveries) == taken + Unread()
      ensures old(Unread()) != [] ==>
        r.Some? && |r.value| == Min(size, old(UnreadSize())) && deliveries == old(deliveries)
      ensures old(hw.log) <= hw.log && Heeded(hw.log, |old(hw.log)|)
      ensures r.None? ==>
        && Unread() == [] && |hw.log| >= |old(hw.log)| + 2
        && hw.log[|hw.log| - 2] == Answer(HostData, false) && hw.log[|hw.log| - 1] == Answer(InTime, false)
      ensures r.None? ==> taken == old(taken)
      ensures r.Some? ==> taken == old(taken) + r.value && |r.value| <= size && (size > 0 ==> r.value != [])
    {
      hide *;
      NothingAsked(hw.log);
      while true
        invariant Valid() && Stream() == old(Stream()) && taken == old(taken)
        invariant old(deliveries) <= deliveries && old(hw.log) <= hw.log && Heeded(hw.log, |old(hw.log)|)
        invariant old(Unread()) != [] ==> UnreadSize() == old(UnreadSize())
        invariant old(Unread()) != [] ==> Unread() == old(Unread()) && deliveries == old(deliveries)
        decreases |hw.answers|
      {
        if UnreadSize() != 0 {
          var bytes := TakeDown(size);
          return Some(bytes);
        }
        var goOn := AwaitHost(|old(hw.log)|);
        if !goOn {
          return None;
        }
      }
    }

    /// One round of waiting for the host: swap if it has sent data, give up if the time
    /// is up.
    method AwaitHost(ghost n: nat) returns (goOn: bool)
      requires Valid() && n <= |hw.log| && Heeded(hw.log, n)
      modifies this, block0, block1, rbPend, rbPend.data, rbDown, rbDown.data, hw
      ensures Valid() && Stream() == old(Stream()) && taken == old(taken) && old(deliveries) <= deliveries
      ensures old(hw.log) <= hw.log && Heeded(hw.log, n)
      ensures goOn ==> |hw.answers| < |old(hw.answers)|
      ensures !goOn ==> Unread() == old(Unread()) && deliveries == old(deliveries)
      ensures !goOn ==> hw.log == old(hw.log) + [Answer(HostData, false), Answer(InTime, false)]
    {
      hide Valid, Current, Pending, Unread, Delivered, Heeded, SwapLog, FromHost, Kept;
      ghost var log := hw.log;
      goOn := HostDataPending();
      if goOn {
        var _ := SwapWait();
        SwapHeeds(log, hw.log, n);
      } else {
        NothingToHeed(log, Answer(HostData, false), n);
        goOn := TimeLeft();
        NothingToHeed(log + [Answer(HostData, false)], Answer(InTime, goOn), n);
      }
    }

    /// Any sequence of calls: what the host has, what the input block holds and
    /// what waits are together exactly the packets written, in order; and the bytes
    /// read, with those not yet read, are what was taken over from the host's blocks.
    method Run(calls: seq<Call>) returns (oks: seq<bool>, received: seq<byte>)
      requires Valid()
      requires forall c <- calls :: c.Trace? ==> c.core <= 1 && |c.payload| < U32
      modifies this, block0, block1, rbPend, rbPend.data, rbDown, rbDown.data, hw
      ensures Valid() && |oks| == |calls|
      ensures Stream() == old(Stream()) + Traced(calls, oks)
      ensures old(deliveries) <= deliveries && FromHost(hw.script, deliveries)
      ensures Kept(deliveries) == old(taken) + received + Unread()
    {
      hide *;
      TracedNone();
      assert old(Stream()) + [] == old(Stream()) && calls[..0] == [];
      oks, received := [], [];
      for i := 0 to |calls|
        invariant Valid() && |oks| == i
        invariant Stream() == old(Stream()) + Traced(calls[..i], oks)
        invariant taken == old(taken) + received && old(deliveries) <= deliveries
      {
        var ok;
        match calls[i] {
          case Trace(core, payload) => ok := Write(core, payload);
          case FlushTo(min) => ok := Flush(min);
          case Receive(size) =>
            var r := DownBufferGet(size);
            ok := r.Some?;
            if r.Some? {
              received := received + r.value;
            }
        }
        TracedMore(calls, i, oks, ok);
        oks := oks + [ok];
      }
      assert calls[..|calls|] == calls;
    }
  }

  /// A call of the trace API.
  datatype Call = Trace(core: nat, payload: seq<byte>) | FlushTo(min: u32) | Receive(size: u32)

  /// The packets of the successful writes, in order.
  ghost function Traced(calls: seq<Call>, oks: seq<bool>): seq<byte>
    requires |calls| == |oks|
  {
    if calls == [] then [] else
      var n := |calls| - 1;
      var c := calls[n];
      Traced(calls[..n], oks[..n]) +
      if oks[n] && c.Trace? && c.core <= 1 && |c.payload| < CORE_BIT then Packet(c.core, c.payload) else []
  }
}
