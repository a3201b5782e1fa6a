// OTA updates: the flash content does not depend on how the image was cut into
// writes, and erasing on the fly never touches what was written.

module OtaUpdate {
  import opened Machine
  import opened OtaFlash

  /// The first `wrote` bytes received are programmed, the rest is carried over.
  ghost predicate Shape(o: Ota, received: seq<byte>) {
    && o.wrote <= |o.cells|
    && |received| == o.wrote + |o.partial| && received[o.wrote..] == o.partial
    && (if o.encrypted then o.wrote % BLOCK == 0 && |o.partial| < BLOCK else o.partial == [])
  }

  /// `e` is a sector end: that of `wrote`, or the next one if `wrote` is one itself.
  predicate ErasedEnd(wrote: nat, e: nat) {
    wrote <= e && e % SEC == 0 && (e == SectorEnd(wrote) || (wrote % SEC == 0 && e == wrote + SEC))
  }

  /// Sequential mode: what was programmed reads back, the flash from there to `e`
  /// is erased, and what lies behind is untouched.
  ghost predicate Sequential(o: Ota, received: seq<byte>, e: nat) {
    && o.needErase && Shape(o, received) && ErasedEnd(o.wrote, e)
    && Layout(o.cells, o.wrote, received, e)
  }

  ghost predicate Layout(c: Cells, wrote: nat, received: seq<byte>, e: nat) {
    && wrote <= |received| && wrote <= |c|
    && (forall i :: 0 <= i < wrote ==> c[i] == Holds(received[i]))
    && (forall i :: wrote <= i < e && i < |c| ==> c[i] == Erased)
    && (forall i :: e <= i < |c| ==> c[i] == Stale)
  }

  /// Up-front mode: the first `limit` bytes were erased at the start.
  ghost predicate UpFront(o: Ota, received: seq<byte>, limit: nat) {
    && !o.needErase && Shape(o, received) && limit <= |o.cells|
    && (forall i :: 0 <= i < o.wrote ==> o.cells[i] == if i < limit then Holds(received[i]) else Clashed)
    && (forall i :: o.wrote <= i < |o.cells| ==> o.cells[i] == if i < limit then Erased else Stale)
  }

  /// The cells after the erase of a write of `size` bytes.
  function AfterErase(o: Ota, size: nat): (r: Cells)
    requires size > 0
    ensures |r| == |o.cells|
  {
    var (off, len) := EraseRange(o.wrote, size);
    if o.needErase && len > 0 && CanErase(o.cells, off, len) then EraseCells(o.cells, off, len) else o.cells
  }

  /// The range erased for a write of `size` bytes runs from the end of the current
  /// sector to the sector end of `wrote + size`.
  lemma EraseExtent(wrote: nat, size: nat)
    requires size > 0
    ensures var (off, len) := EraseRange(wrote, size);
      && off == SectorEnd(wrote) && off + len == SectorEnd(wrote + size)
      && off % SEC == 0 && len % SEC == 0
  {
  }

  lemma SectorsAreBlocks(x: nat)
    requires x % SEC == 0
    ensures x % BLOCK == 0
  {
    assert x == BLOCK * (256 * (x / SEC));
  }

  lemma BlocksApart(x: nat, e: nat)
    requires x % BLOCK == 0 && e % BLOCK == 0 && x < e + BLOCK
    ensures x <= e
  {
    assert x == BLOCK * (x / BLOCK) && e == BLOCK * (e / BLOCK);
  }

  /// What the write programs ends there at the latest, although the bytes carried
  /// over are not counted when the range is computed.
  lemma EraseReach(wrote: nat, carried: nat, size: nat, encrypted: bool)
    requires size > 0 && (if encrypted then wrote % BLOCK == 0 && carried < BLOCK else carried == 0)
    ensures wrote + Whole(encrypted, carried + size) <= SectorEnd(wrote + size)
  {
    hide SectorEnd;
    var e := SectorEnd(wrote + size);
    SectorsAreBlocks(e);
    if encrypted {
      BlocksApart(wrote + Whole(encrypted, carried + size), e);
    }
  }

  /// A sector end within reach of the carried bytes.
  lemma CarryReach(wrote: nat, carried: nat, e: nat)
    requires wrote <= e && e % SEC == 0 && e < wrote + carried + SEC
    requires carried == 0 || (wrote % BLOCK == 0 && carried < BLOCK)
    ensures ErasedEnd(wrote, e)
  {
    hide SectorEnd;
    SectorEndLeast(wrote, e);
    CarryInSector(wrote, carried);
    SectorsApart(SectorEnd(wrote), e);
  }

  /// Bytes carried over lie in the current sector, unless it is full.
  lemma CarryInSector(wrote: nat, carried: nat)
    requires carried == 0 || (wrote % BLOCK == 0 && carried < BLOCK)
    ensures if wrote % SEC == 0 then SectorEnd(wrote) == wrote else wrote + carried <= SectorEnd(wrote)
  {
    hide SectorEnd;
    if wrote % SEC == 0 {
      SectorEndLeast(wrote, wrote);
    } else if carried > 0 {
      SectorsAreBlocks(SectorEnd(wrote));
      BlocksApart(wrote + BLOCK, SectorEnd(wrote));
    }
  }

  lemma SectorsApart(s: nat, e: nat)
    requires s <= e < s + 2 * SEC && s % SEC == 0 && e % SEC == 0
    ensures e == s || e == s + SEC
  {
    assert s == SEC * (s / SEC) && e == SEC * (e / SEC);
  }

  /// Every byte is programmed on flash erased in this session and not yet
  /// programmed, and no erase covers a programmed byte.
  ghost predicate CleanWrite(o: Ota, data: seq<byte>)
    requires data != [] && o.wrote <= |o.cells|
  {
    var (off, len) := EraseRange(o.wrote, |data|);
    var n := Whole(o.encrypted, |o.partial| + |data|);
    && (forall i :: off <= i < off + len && i < |o.cells| ==> o.cells[i].Stale? || o.cells[i].Erased?)
    && (forall i :: o.wrote <= i < o.wrote + n && i < |o.cells| ==> AfterErase(o, |data|)[i].Erased?)
  }

  /// The parts of a successful write.
  lemma WriteParts(o: Ota, data: seq<byte>)
    requires o.wrote <= |o.cells| && data != [] && WriteSpec(o, data).Ok?
    ensures var all, n := o.partial + data, Whole(o.encrypted, |o.partial| + |data|);
      && o.wrote + n <= |o.cells| && n <= |all|
      && WriteSpec(o, data).value ==
         o.(cells := Programmed(AfterErase(o, |data|), o.wrote, all[..n]), wrote := o.wrote + n, partial := all[n..])
      && (o.needErase ==> var (off, len) := EraseRange(o.wrote, |data|); len > 0 ==> CanErase(o.cells, off, len))
  {
  }

  lemma WholeBlocks(wrote: nat, n: nat)
    requires wrote % BLOCK == 0
    ensures Whole(true, n) <= n < Whole(true, n) + BLOCK && (wrote + Whole(true, n)) % BLOCK == 0
    ensures n >= BLOCK ==> Whole(true, n) > 0
  {
    assert Whole(true, n) == BLOCK * (n / BLOCK);
  }

  lemma ShapeStep(o: Ota, received: seq<byte>, data: seq<byte>)
    requires Shape(o, received) && data != [] && WriteSpec(o, data).Ok?
    ensures Shape(WriteSpec(o, data).value, received + data)
  {
    hide WriteSpec, AfterErase, EraseRange, Programmed;
    WriteParts(o, data);
    var all, n := o.partial + data, Whole(o.encrypted, |o.partial| + |data|);
    if o.encrypted {
      WholeBlocks(o.wrote, |all|);
    } else {
      assert all[n..] == [];
    }
    hide Whole;
    TailKept(received, data, o.wrote, n);
  }

  lemma TailKept<T>(s: seq<T>, t: seq<T>, at: nat, n: nat)
    requires at <= |s| && at + n <= |s| + |t|
    ensures (s + t)[at + n..] == (s[at..] + t)[n..]
  {
  }

  /// What the erase ahead of a sequential write leaves.
  lemma ErasedAhead(o: Ota, received: seq<byte>, e: nat, size: nat)
    requires Sequential(o, received, e) && size > 0
    requires var (off, len) := EraseRange(o.wrote, size); len > 0 ==> CanErase(o.cells, off, len)
    ensures e <= SectorEnd(o.wrote + size)
    ensures Layout(AfterErase(o, size), o.wrote, received, SectorEnd(o.wrote + size))
  {
    EraseExtent(o.wrote, size);
    SectorEndLeast(o.wrote, SectorEnd(o.wrote + size));
    if o.wrote % SEC == 0 {
      NextSector(o.wrote, size);
    }
    hide EraseRange, SectorEnd;
  }

  lemma NextSector(wrote: nat, size: nat)
    requires wrote % SEC == 0 && size > 0
    ensures SectorEnd(wrote) == wrote && wrote + SEC <= SectorEnd(wrote + size)
  {
  }

  /// A successful write erases up to the sector end of `wrote + size`.
  lemma SequentialStep(o: Ota, received: seq<byte>, e: nat, data: seq<byte>)
    requires Sequential(o, received, e) && data != [] && WriteSpec(o, data).Ok?
    ensures Sequential(WriteSpec(o, data).value, received + data, SectorEnd(o.wrote + |data|))
  {
    hide EraseRange, SectorEnd, WriteSpec, AfterErase;
    WriteParts(o, data);
    ShapeStep(o, received, data);
    ErasedAhead(o, received, e, |data|);
    EraseReach(o.wrote, |o.partial|, |data|, o.encrypted);
    var o' := WriteSpec(o, data).value;
    CarryReach(o'.wrote, |o'.partial|, SectorEnd(o.wrote + |data|));
    hide Whole;
    var programmed := (o.partial + data)[..o'.wrote - o.wrote];
    assert (received + data)[..o'.wrote] == received[..o.wrote] + programmed;
    ProgrammedLayout(
      AfterErase(o, |data|), o.wrote, received, SectorEnd(o.wrote + |data|), programmed, received + data);
  }

  /// Programming erased cells behind what was written.
  lemma ProgrammedLayout(c: Cells, wrote: nat, received: seq<byte>, e: nat, bytes: seq<byte>, all: seq<byte>)
    requires Layout(c, wrote, received, e) && wrote + |bytes| <= e && wrote + |bytes| <= |c|
    requires wrote + |bytes| <= |all| && all[..wrote + |bytes|] == received[..wrote] + bytes
    ensures Layout(Programmed(c, wrote, bytes), wrote + |bytes|, all, e)
  {
    var n := wrote + |bytes|;
    forall i | 0 <= i < n
      ensures Programmed(c, wrote, bytes)[i] == Holds(all[i])
    {
      assert all[i] == all[..n][i] == (received[..wrote] + bytes)[i];
    }
  }

  /// The erase discipline: it holds for every write of a sequential update.
  lemma SequentialWritesAreClean(o: Ota, received: seq<byte>, e: nat, data: seq<byte>)
    requires Sequential(o, received, e) && data != [] && WriteSpec(o, data).Ok?
    ensures CleanWrite(o, data)
  {
    hide EraseRange, SectorEnd, WriteSpec, AfterErase;
    WriteParts(o, data);
    ErasedAhead(o, received, e, |data|);
    EraseExtent(o.wrote, |data|);
    EraseReach(o.wrote, |o.partial|, |data|, o.encrypted);
    hide Whole, ErasedEnd;
  }

  lemma UpFrontStep(o: Ota, received: seq<byte>, data: seq<byte>, limit: nat)
    requires UpFront(o, received, limit) && data != [] && WriteSpec(o, data).Ok?
    ensures UpFront(WriteSpec(o, data).value, received + data, limit)
  {
    hide EraseRange, SectorEnd, WriteSpec;
    WriteParts(o, data);
    ShapeStep(o, received, data);
    var o' := WriteSpec(o, data).value;
    var programmed := (o.partial + data)[..o'.wrote - o.wrote];
    assert received[..o.wrote] + programmed == (received + data)[..o'.wrote];
    assert o'.cells == Programmed(o.cells, o.wrote, programmed);
  }

  // ---- Whole updates ----

  function Concat(chunks: seq<seq<byte>>): seq<byte> {
    if chunks == [] then [] else Concat(chunks[..|chunks| - 1]) + chunks[|chunks| - 1]
  }

  /// The writes of the chunks, one after the other, up to the first failure.
  function WriteAll(o: Ota, chunks: seq<seq<byte>>): Outcome<Ota>
    requires o.wrote <= |o.cells|
    ensures WriteAll(o, chunks).Ok? ==> WriteAll(o, chunks).value.wrote <= |WriteAll(o, chunks).value.cells|
  {
    if chunks == [] then Ok(o) else
      var r := WriteAll(o, chunks[..|chunks| - 1]);
      if r.Err? then r else WriteSpec(r.value, chunks[|chunks| - 1])
  }

  /// How far the sequential writes have erased.
  function ErasedBy(o: Ota, chunks: seq<seq<byte>>): nat
    requires o.wrote <= |o.cells| && WriteAll(o, chunks).Ok?
  {
    if chunks == [] then SectorEnd(o.wrote) else
      var k := |chunks| - 1;
      if chunks[k] == [] then ErasedBy(o, chunks[..k])
      else SectorEnd(WriteAll(o, chunks[..k]).value.wrote + |chunks[k]|)
  }

  lemma WriteNothing(o: Ota)
    requires o.wrote <= |o.cells|
    ensures WriteSpec(o, []) == Ok(o)
  {
  }

  lemma {:induction false} SequentialRun(o: Ota, chunks: seq<seq<byte>>)
    requires Sequential(o, [], SectorEnd(o.wrote)) && WriteAll(o, chunks).Ok?
    ensures Sequential(WriteAll(o, chunks).value, Concat(chunks), ErasedBy(o, chunks))
  {
    hide WriteSpec, SectorEnd, Layout, ErasedEnd;
    if chunks != [] {
      var k := |chunks| - 1;
      SequentialRun(o, chunks[..k]);
      if chunks[k] != [] {
        SequentialStep(WriteAll(o, chunks[..k]).value, Concat(chunks[..k]), ErasedBy(o, chunks[..k]), chunks[k]);
      } else {
        WriteNothing(WriteAll(o, chunks[..k]).value);
        assert Concat(chunks) == Concat(chunks[..k]);
      }
    }
  }

  lemma {:induction false} UpFrontRun(o: Ota, chunks: seq<seq<byte>>, limit: nat)
    requires UpFront(o, [], limit) && WriteAll(o, chunks).Ok?
    ensures UpFront(WriteAll(o, chunks).value, Concat(chunks), limit)
  {
    hide WriteSpec;
    if chunks != [] {
      var k := |chunks| - 1;
      UpFrontRun(o, chunks[..k], limit);
      if chunks[k] != [] {
        UpFrontStep(WriteAll(o, chunks[..k]).value, Concat(chunks[..k]), chunks[k], limit);
      } else {
        WriteNothing(WriteAll(o, chunks[..k]).value);
        assert Concat(chunks) == Concat(chunks[..k]);
      }
    }
  }

  // ---- When the writes succeed ----

  lemma ConcatStep(chunks: seq<seq<byte>>)
    requires chunks != []
    ensures var k := |chunks| - 1; Concat(chunks) == Concat(chunks[..k]) + chunks[k]
  {
  }

  /// A write inside the partition fails exactly when it is the first one with data
  /// and does not start with the magic byte.
  lemma WriteSucceeds(o: Ota, received: seq<byte>, data: seq<byte>)
    requires Shape(o, received) && |o.cells| % SEC == 0 && |received| + |data| <= |o.cells|
    requires data != []
    ensures WriteSpec(o, data).Ok? <==> received != [] || data[0] == MAGIC
    ensures WriteSpec(o, data).Err? ==> WriteSpec(o, data) == Err(BadMagic)
  {
    EraseExtent(o.wrote, |data|);
    SectorEndLeast(o.wrote + |data|, |o.cells|);
    hide EraseRange, SectorEnd;
  }

  ghost predicate Started(o: Ota, limit: nat) {
    && limit <= |o.cells| && |o.cells| % SEC == 0
    && (if o.needErase then Sequential(o, [], SectorEnd(o.wrote)) else UpFront(o, [], limit))
  }

  lemma {:induction false} RunShape(o: Ota, chunks: seq<seq<byte>>, limit: nat)
    requires Started(o, limit) && WriteAll(o, chunks).Ok?
    ensures Shape(WriteAll(o, chunks).value, Concat(chunks))
    ensures |WriteAll(o, chunks).value.cells| == |o.cells| && WriteAll(o, chunks).value.encrypted == o.encrypted
  {
    hide WriteSpec, EraseRange, SectorEnd;
    if chunks != [] {
      var k := |chunks| - 1;
      RunShape(o, chunks[..k], limit);
      var before := WriteAll(o, chunks[..k]).value;
      if chunks[k] == [] {
        WriteNothing(before);
        assert Concat(chunks) == Concat(chunks[..k]);
      } else {
        WriteParts(before, chunks[k]);
        ShapeStep(before, Concat(chunks[..k]), chunks[k]);
      }
    }
  }

  /// For every way of cutting an image that fits the partition, all writes
  /// succeed exactly when the image starts with the magic byte (or is empty).
  lemma {:induction false} WritesSucceed(o: Ota, chunks: seq<seq<byte>>, limit: nat)
    requires Started(o, limit) && |Concat(chunks)| <= |o.cells|
    ensures WriteAll(o, chunks).Ok? <==> Concat(chunks) == [] || Concat(chunks)[0] == MAGIC
    ensures WriteAll(o, chunks).Err? ==> WriteAll(o, chunks) == Err(BadMagic)
  {
    hide WriteSpec, EraseRange, SectorEnd;
    if chunks != [] {
      var k := |chunks| - 1;
      ConcatStep(chunks);
      WritesSucceed(o, chunks[..k], limit);
      if WriteAll(o, chunks[..k]).Ok? {
        RunShape(o, chunks[..k], limit);
        var before := WriteAll(o, chunks[..k]).value;
        if chunks[k] == [] {
          WriteNothing(before);
          assert Concat(chunks) == Concat(chunks[..k]);
        } else {
          WriteSucceeds(before, Concat(chunks[..k]), chunks[k]);
        }
      }
    }
  }

  // ---- The finished update ----

  /// The flash starts with the image.
  ghost predicate StartsWith(cells: Cells, image: seq<byte>) {
    |image| <= |cells| && forall i :: 0 <= i < |image| ==> cells[i] == Holds(image[i])
  }

  /// The part of an image that fills whole blocks.
  function WholePart(encrypted: bool, image: seq<byte>): seq<byte> {
    image[..Whole(encrypted, |image|)]
  }

  /// How many bytes of an image the writes program, however it is cut.
  lemma WroteIsWhole(o: Ota, received: seq<byte>)
    requires Shape(o, received)
    ensures o.wrote == Whole(o.encrypted, |received|)
  {
  }

  /// Finishing programs the carried bytes; the image is then on the flash exactly
  /// when the flash behind what was written is erased.
  lemma EndResult(o: Ota, received: seq<byte>, pad: seq<byte>, e: nat)
    requires Shape(o, received) && o.wrote > 0 && |pad| == BLOCK - |o.partial| && |o.partial| < BLOCK
    requires Layout(o.cells, o.wrote, received, e) && (o.wrote < e && o.partial != [] ==> o.wrote + BLOCK <= e)
    requires o.wrote + BLOCK <= |o.cells| || o.partial == []
    ensures EndSpec(o, pad).Ok?
    ensures StartsWith(EndSpec(o, pad).value, received) <==> o.partial == [] || o.wrote < e
  {
    if o.partial != [] {
      var c := EndSpec(o, pad).value;
      assert received[o.wrote..][0] == o.partial[0];
      if o.wrote < e {
        forall i | 0 <= i < |received| ensures c[i] == Holds(received[i]) {
          if i >= o.wrote {
            assert received[i] == o.partial[i - o.wrote] == (o.partial + pad)[i - o.wrote];
          }
        }
      } else {
        assert c[o.wrote] == Clashed;
      }
    }
  }

  /// Chunking independence for a range erased up front: for every way of cutting an
  /// image that fits the partition, the writes and the end succeed, and the flash
  /// starts with the image exactly if the image fits the erased range.
  lemma UpFrontUpdate(o: Ota, chunks: seq<seq<byte>>, limit: nat, pad: seq<byte>)
    requires UpFront(o, [], limit) && limit % SEC == 0 && |o.cells| % SEC == 0
    requires |Concat(chunks)| <= |o.cells| && |Concat(chunks)| >= (if o.encrypted then BLOCK else 1)
    requires Concat(chunks)[0] == MAGIC
    ensures WriteAll(o, chunks).Ok?
    ensures var end := WriteAll(o, chunks).value;
      && |end.partial| < BLOCK
      && (|pad| == BLOCK - |end.partial| ==>
            && EndSpec(end, pad).Ok?
            && (StartsWith(EndSpec(end, pad).value, Concat(chunks)) <==> |Concat(chunks)| <= limit))
  {
    hide WriteSpec, EndSpec;
    WritesSucceed(o, chunks, limit);
    UpFrontRun(o, chunks, limit);
    var end := WriteAll(o, chunks).value;
    var image := Concat(chunks);
    RunShape(o, chunks, limit);
    WroteIsWhole(end, image);
    WholeBlocks(0, |image|);
    if |pad| == BLOCK - |end.partial| {
      UpFrontEnd(end, image, pad, limit);
    }
  }

  lemma UpFrontEnd(o: Ota, received: seq<byte>, pad: seq<byte>, limit: nat)
    requires UpFront(o, received, limit) && o.wrote > 0 && limit % SEC == 0
    requires |received| <= |o.cells| && |o.cells| % SEC == 0
    requires |o.partial| < BLOCK && |pad| == BLOCK - |o.partial|
    ensures EndSpec(o, pad).Ok?
    ensures StartsWith(EndSpec(o, pad).value, received) <==> |received| <= limit
  {
    if o.partial != [] {
      SectorsAreBlocks(limit);
      SectorsAreBlocks(|o.cells|);
      BlocksApart(o.wrote + BLOCK, |o.cells|);
    }
    if |received| <= limit {
      UpFrontFits(o, received, pad, limit);
    } else {
      UpFrontExceeds(o, received, pad, limit);
    }
  }

  lemma UpFrontFits(o: Ota, received: seq<byte>, pad: seq<byte>, limit: nat)
    requires UpFront(o, received, limit) && |received| <= limit && limit % SEC == 0
    requires |o.partial| < BLOCK && |pad| == BLOCK - |o.partial| && EndSpec(o, pad).Ok?
    ensures StartsWith(EndSpec(o, pad).value, received)
  {
    if o.partial != [] {
      SectorsAreBlocks(limit);
      BlocksApart(o.wrote + BLOCK, limit);
      var c := EndSpec(o, pad).value;
      forall i | 0 <= i < |received| ensures c[i] == Holds(received[i]) {
        if i >= o.wrote {
          assert received[i] == received[o.wrote..][i - o.wrote] == (o.partial + pad)[i - o.wrote];
        }
      }
    }
  }

  /// The first byte behind the erased range is programmed without an erase.
  lemma UpFrontExceeds(o: Ota, received: seq<byte>, pad: seq<byte>, limit: nat)
    requires UpFront(o, received, limit) && |received| > limit && limit % SEC == 0
    requires |o.partial| < BLOCK && |pad| == BLOCK - |o.partial| && EndSpec(o, pad).Ok?
    ensures !StartsWith(EndSpec(o, pad).value, received)
  {
    SectorsAreBlocks(limit);
    if limit >= o.wrote {
      BlocksApart(limit, o.wrote);
    }
    assert EndSpec(o, pad).value[limit] == Clashed;
  }

  /// How many bytes were received before the last chunk with data.
  function ReceivedBefore(chunks: seq<seq<byte>>): nat {
    if chunks == [] then 0 else
      var k := |chunks| - 1;
      if chunks[k] == [] then ReceivedBefore(chunks[..k]) else |Concat(chunks[..k])|
  }

  /// Whether the last bytes of an image of `length` bytes are lost in sequential mode
  /// when `before` bytes were received before the last chunk: they are carried over
  /// past the end of a sector, and no more bytes than were carried into the last write.
  predicate LosesTail(encrypted: bool, length: nat, before: nat) {
    encrypted && 0 < length % BLOCK <= before % BLOCK && (length - length % BLOCK) % SEC == 0
  }

  /// In sequential mode too, every update of an image that fits succeeds, and the
  /// flash then starts with the image for every cut when encryption is off.  With
  /// encryption on it does so exactly for the cuts that do not lose the tail; what
  /// fills whole blocks is never lost.
  lemma SequentialUpdate(o: Ota, chunks: seq<seq<byte>>, pad: seq<byte>)
    requires Sequential(o, [], 0) && |o.cells| % SEC == 0
    requires |Concat(chunks)| <= |o.cells| && |Concat(chunks)| >= (if o.encrypted then BLOCK else 1)
    requires Concat(chunks)[0] == MAGIC
    ensures WriteAll(o, chunks).Ok?
    ensures var end := WriteAll(o, chunks).value;
      && |end.partial| < BLOCK
      && (|pad| == BLOCK - |end.partial| ==>
            && EndSpec(end, pad).Ok?
            && (StartsWith(EndSpec(end, pad).value, Concat(chunks)) <==>
                  !LosesTail(o.encrypted, |Concat(chunks)|, ReceivedBefore(chunks)))
            && StartsWith(EndSpec(end, pad).value, WholePart(o.encrypted, Concat(chunks))))
  {
    hide WriteSpec, Layout, ErasedEnd, EndSpec, LosesTail, StartsWith;
    SequentialResult(o, chunks, pad);
    TailByLengths(o, chunks);
    if |pad| == BLOCK - |WriteAll(o, chunks).value.partial| {
      WholePartSurvives(o, chunks, pad);
    }
  }

  /// The part of the image that fills whole blocks is on the flash in any case.
  lemma WholePartSurvives(o: Ota, chunks: seq<seq<byte>>, pad: seq<byte>)
    requires Sequential(o, [], 0) && |o.cells| % SEC == 0 && WriteAll(o, chunks).Ok?
    requires var end := WriteAll(o, chunks).value;
      |end.partial| < BLOCK && |pad| == BLOCK - |end.partial| && EndSpec(end, pad).Ok?
    ensures StartsWith(EndSpec(WriteAll(o, chunks).value, pad).value, WholePart(o.encrypted, Concat(chunks)))
  {
    hide WriteSpec, ErasedEnd, SectorEnd, Whole;
    StartsEmpty();
    SequentialRun(o, chunks);
    RunShape(o, chunks, 0);
    WroteIsWhole(WriteAll(o, chunks).value, Concat(chunks));
  }

  /// The condition of `SequentialResult` in terms of the lengths of the chunks.
  lemma TailByLengths(o: Ota, chunks: seq<seq<byte>>)
    requires Sequential(o, [], 0) && |o.cells| % SEC == 0 && WriteAll(o, chunks).Ok?
    ensures var end := WriteAll(o, chunks).value;
      end.partial == [] || end.wrote < ErasedBy(o, chunks) <==>
        !LosesTail(o.encrypted, |Concat(chunks)|, ReceivedBefore(chunks))
  {
    hide WriteSpec, Layout, ErasedEnd, LosesTail, SectorEnd;
    StartsEmpty();
    var end, n := WriteAll(o, chunks).value, |Concat(chunks)|;
    RunShape(o, chunks, 0);
    WroteIsWhole(end, Concat(chunks));
    ReachByLengths(o, chunks);
    var b := ReceivedBefore(chunks);
    if n == 0 {
      hide *;
      EmptyLosesNothing(o.encrypted, b);
    } else {
      LengthsDecide(o.encrypted, n, b);
    }
  }

  lemma StartsEmpty()
    ensures SectorEnd(0) == 0
  {
  }

  lemma EmptyLosesNothing(encrypted: bool, before: nat)
    ensures !LosesTail(encrypted, 0, before)
  {
  }

  /// How far the writes have erased.
  lemma {:induction false} ReachByLengths(o: Ota, chunks: seq<seq<byte>>)
    requires Sequential(o, [], 0) && |o.cells| % SEC == 0 && WriteAll(o, chunks).Ok?
    ensures var n, b := |Concat(chunks)|, ReceivedBefore(chunks);
      && b <= n && (n > 0 ==> b < n)
      && ErasedBy(o, chunks) == SectorEnd(if n == 0 then 0 else Whole(o.encrypted, b) + (n - b))
  {
    hide WriteSpec, Layout, ErasedEnd, SectorEnd, Whole;
    if chunks != [] {
      var k := |chunks| - 1;
      ConcatStep(chunks);
      if chunks[k] == [] {
        ReachByLengths(o, chunks[..k]);
      } else {
        StartsEmpty();
        RunShape(o, chunks[..k], 0);
        WroteIsWhole(WriteAll(o, chunks[..k]).value, Concat(chunks[..k]));
      }
    }
  }

  lemma LengthsDecide(encrypted: bool, n: nat, b: nat)
    requires b < n
    ensures var wrote := Whole(encrypted, n);
      n == wrote || wrote < SectorEnd(Whole(encrypted, b) + (n - b)) <==> !LosesTail(encrypted, n, b)
  {
    if encrypted && n % BLOCK > 0 {
      hide SectorEnd;
      TailReach(n, b);
      ReachesEnd(n - n % BLOCK, n - b % BLOCK);
    }
  }

  lemma TailReach(n: nat, b: nat)
    requires b < n
    ensures n - n % BLOCK <= SectorEnd(n - b % BLOCK)
  {
    hide SectorEnd;
    var q, r := b / BLOCK, b % BLOCK;
    assert b == BLOCK * q + r;
    BlocksCut(n, q);
    EraseReach(BLOCK * q, r, n - b, true);
  }

  lemma BlocksCut(n: nat, q: nat)
    requires BLOCK * q <= n
    ensures (n - BLOCK * q) % BLOCK == n % BLOCK
  {
    assert n == BLOCK * (n / BLOCK) + n % BLOCK;
  }

  lemma ReachesEnd(wrote: nat, x: nat)
    requires wrote <= SectorEnd(x)
    ensures wrote < SectorEnd(x) <==> !(x <= wrote && wrote % SEC == 0)
  {
    if x <= wrote && wrote % SEC == 0 {
      SectorEndLeast(x, wrote);
    }
    hide SectorEnd;
  }

  /// The outcome in terms of the state the writes end in: the image is on the flash
  /// exactly if nothing is carried over or the writes erased past what they programmed.
  lemma SequentialResult(o: Ota, chunks: seq<seq<byte>>, pad: seq<byte>)
    requires Sequential(o, [], 0) && |o.cells| % SEC == 0
    requires |Concat(chunks)| <= |o.cells| && |Concat(chunks)| >= (if o.encrypted then BLOCK else 1)
    requires Concat(chunks)[0] == MAGIC
    ensures WriteAll(o, chunks).Ok?
    ensures var end := WriteAll(o, chunks).value;
      && |end.partial| < BLOCK
      && (|pad| == BLOCK - |end.partial| ==>
            && EndSpec(end, pad).Ok?
            && (StartsWith(EndSpec(end, pad).value, Concat(chunks)) <==>
                  end.partial == [] || end.wrote < ErasedBy(o, chunks)))
      && (!o.encrypted ==> end.partial == [])
  {
    hide WriteSpec, Layout, ErasedEnd, EndSpec;
    assert SectorEnd(0) == 0;
    WritesSucceed(o, chunks, 0);
    SequentialRun(o, chunks);
    var end, image := WriteAll(o, chunks).value, Concat(chunks);
    RunShape(o, chunks, 0);
    WroteIsWhole(end, image);
    WholeBlocks(0, |image|);
    if |pad| == BLOCK - |end.partial| {
      SequentialEnd(end, image, pad, ErasedBy(o, chunks));
    }
  }

  lemma SequentialEnd(o: Ota, received: seq<byte>, pad: seq<byte>, e: nat)
    requires Sequential(o, received, e) && o.wrote > 0 && |received| <= |o.cells| && |o.cells| % SEC == 0
    requires |o.partial| < BLOCK && |pad| == BLOCK - |o.partial|
    ensures EndSpec(o, pad).Ok?
    ensures StartsWith(EndSpec(o, pad).value, received) <==> o.partial == [] || o.wrote < e
  {
    hide SectorEnd, EndSpec;
    if o.partial != [] {
      SectorsAreBlocks(|o.cells|);
      SectorsAreBlocks(e);
      BlocksApart(o.wrote + BLOCK, |o.cells|);
      if o.wrote < e {
        BlocksApart(o.wrote + BLOCK, e);
      }
    }
    EndResult(o, received, pad, e);
  }

  /// The two ways to begin lead to the two modes.
  lemma BeginStarts(cells: Cells, encrypted: bool, imageSize: u32)
    requires |cells| <= OBJECT_MAX && |cells| % SEC == 0
    requires forall i :: 0 <= i < |cells| ==> cells[i] == Stale
    ensures BeginSpec(cells, encrypted, imageSize).Ok? <==>
      imageSize == SEQUENTIAL_WRITES || ErasedFirst(|cells|, imageSize) <= |cells|
    ensures BeginSpec(cells, encrypted, imageSize).Ok? ==>
      var o := BeginSpec(cells, encrypted, imageSize).value;
      if imageSize == SEQUENTIAL_WRITES then Sequential(o, [], 0)
      else UpFront(o, [], ErasedFirst(|cells|, imageSize)) && ErasedFirst(|cells|, imageSize) % SEC == 0
  {
  }

  /// With size 0 or unknown the whole partition is erased.
  lemma UnknownSizeErasesAll(cells: Cells, encrypted: bool, imageSize: u32)
    requires |cells| <= OBJECT_MAX && |cells| % SEC == 0 && (imageSize == 0 || imageSize == SIZE_UNKNOWN)
    ensures BeginSpec(cells, encrypted, imageSize).Ok?
    ensures var o := BeginSpec(cells, encrypted, imageSize).value;
      !o.needErase && |o.cells| == |cells| && forall i :: 0 <= i < |cells| ==> o.cells[i] == Erased
  {
  }

  /// The range erased covers the announced image, except for the sizes whose rounding
  /// wraps around: for these nothing is erased.
  lemma AnnouncedIsErased(length: nat, imageSize: u32)
    requires imageSize != 0 && imageSize != SIZE_UNKNOWN
    ensures ErasedFirst(length, imageSize) == if imageSize > U32 - SEC then 0 else SectorEnd(imageSize)
  {
    if imageSize <= U32 - SEC {
      assert Add32(imageSize, SEC - 1) == imageSize + SEC - 1;
    } else {
      assert Add32(imageSize, SEC - 1) == imageSize + SEC - 1 - U32 < SEC;
    }
  }

  /// A run of sequential writes: each write that has data is clean.
  lemma SequentialRunIsClean(o: Ota, chunks: seq<seq<byte>>, k: nat)
    requires Sequential(o, [], SectorEnd(o.wrote)) && WriteAll(o, chunks).Ok?
    requires k < |chunks| && chunks[k] != []
    ensures WriteAll(o, chunks[..k]).Ok? && CleanWrite(WriteAll(o, chunks[..k]).value, chunks[k])
  {
    hide WriteSpec, Layout, ErasedEnd, SectorEnd, CleanWrite;
    if WriteAll(o, chunks[..k]).Err? {
      ErrorStays(o, chunks, k);
    }
    if WriteAll(o, chunks[..k + 1]).Err? {
      ErrorStays(o, chunks, k + 1);
    }
    assert chunks[..k + 1][..k] == chunks[..k];
    SequentialRun(o, chunks[..k]);
    SequentialWritesAreClean(
      WriteAll(o, chunks[..k]).value, Concat(chunks[..k]), ErasedBy(o, chunks[..k]), chunks[k]);
  }

  /// After a failed write the whole run has failed.
  lemma {:induction false} ErrorStays(o: Ota, chunks: seq<seq<byte>>, n: nat)
    requires o.wrote <= |o.cells| && n <= |chunks| && WriteAll(o, chunks[..n]).Err?
    ensures WriteAll(o, chunks) == WriteAll(o, chunks[..n])
    decreases |chunks|
  {
    if n < |chunks| {
      var k := |chunks| - 1;
      assert chunks[..k][..n] == chunks[..n];
      ErrorStays(o, chunks[..k], n);
    } else {
      assert chunks[..n] == chunks;
    }
  }

  /// With encryption on, sequential mode depends on the cut: of one and the same
  /// image of 4111 bytes, written at once it is on the flash; written as 4095 and
  /// 16 bytes it is not, since nothing erases the sector of the last 15 bytes.
  lemma CutMatters(o: Ota, image: seq<byte>, pad: seq<byte>)
    requires Sequential(o, [], 0) && o.encrypted && |o.cells| % SEC == 0 && |o.cells| >= 2 * SEC
    requires |image| == 4111 && image[0] == MAGIC && |pad| == 1
    ensures WriteAll(o, [image]).Ok? && WriteAll(o, [image[..4095], image[4095..]]).Ok?
    ensures var once, twice := WriteAll(o, [image]).value, WriteAll(o, [image[..4095], image[4095..]]).value;
      && |once.partial| == |twice.partial| == 15
      && EndSpec(once, pad).Ok? && StartsWith(EndSpec(once, pad).value, image)
      && EndSpec(twice, pad).Ok? && !StartsWith(EndSpec(twice, pad).value, image)
  {
    hide WriteSpec, EndSpec;
    var a, b := image[..4095], image[4095..];
    OneChunk(o, image);
    OneChunk(o, a);
    TwoChunks(o, a, b);
    assert a + b == image;
    SequentialUpdate(o, [image], pad);
    SequentialUpdate(o, [a], pad);
    SequentialUpdate(o, [a, b], pad);
    RunShape(o, [image], 0);
    RunShape(o, [a], 0);
    RunShape(o, [a, b], 0);
    WroteIsWhole(WriteAll(o, [image]).value, image);
    WroteIsWhole(WriteAll(o, [a]).value, a);
    WroteIsWhole(WriteAll(o, [a, b]).value, image);
  }

  lemma OneChunk(o: Ota, a: seq<byte>)
    requires o.wrote <= |o.cells| && a != []
    ensures Concat([a]) == a
    ensures WriteAll(o, [a]).Ok? ==> ErasedBy(o, [a]) == SectorEnd(o.wrote + |a|)
  {
    assert [a][..0] == [];
  }

  lemma TwoChunks(o: Ota, a: seq<byte>, b: seq<byte>)
    requires o.wrote <= |o.cells| && a != [] && b != []
    ensures Concat([a, b]) == a + b
    ensures WriteAll(o, [a, b]).Ok? ==>
      WriteAll(o, [a]).Ok? && ErasedBy(o, [a, b]) == SectorEnd(WriteAll(o, [a]).value.wrote + |b|)
  {
    hide WriteSpec, SectorEnd;
    OneChunk(o, a);
    assert [a, b][..1] == [a];
  }
}
