// The OTA session entry that esp_ota_write and esp_ota_end update in place.

module OtaWriter {
  import opened Machine
  import opened OtaFlash
  import opened OtaUpdate

  /// A flash partition; `programs` lists the ranges programmed, in order.
  class Flash {
    const cells: array<Cell>
    ghost var programs: seq<(nat, nat)>

    constructor (cells: array<Cell>)
      ensures this.cells == cells && programs == []
    {
      this.cells := cells;
      programs := [];
    }

    /// esp_partition_erase_range
    method Erase(off: nat, len: nat) returns (ok: bool)
      modifies cells
      ensures ok <==> old(CanErase(cells[..], off, len))
      ensures ok ==> cells[..] == EraseCells(old(cells[..]), off, len)
      ensures !ok ==> cells[..] == old(cells[..])
    {
      if off > cells.Length || off + len > cells.Length || len % SEC != 0 || off % SEC != 0 {
        return false;
      }
      for i := off to off + len
        invariant forall k :: 0 <= k < cells.Length ==> cells[k] == if off <= k < i then Erased else old(cells[k])
      {
        cells[i] := Erased;
      }
      return true;
    }

    /// esp_partition_write
    method Program(off: nat, data: seq<byte>) returns (ok: bool)
      modifies cells, this
      ensures ok <==> off + |data| <= cells.Length
      ensures ok ==> cells[..] == Programmed(old(cells[..]), off, data) && programs == old(programs) + [(off, |data|)]
      ensures !ok ==> cells[..] == old(cells[..]) && programs == old(programs)
    {
      if off > cells.Length || off + |data| > cells.Length {
        return false;
      }
      for i := off to off + |data|
        invariant programs == old(programs)
        invariant forall k :: 0 <= k < cells.Length ==>
          cells[k] == if off <= k < i then ProgramCell(old(cells[k]), data[k - off]) else old(cells[k])
      {
        cells[i] := ProgramCell(cells[i], data[i - off]);
      }
      programs := programs + [(off, |data|)];
      return true;
    }
  }

  class OtaEntry {
    const part: Flash
    const needErase: bool
    const encrypted: bool
    var wroteSize: nat
    var partialBytes: nat
    ghost var topped: bool  // whether the carry buffer has been filled and emptied
    const partialData: array<byte>

    ghost predicate Valid()
      reads this, part, part.cells, partialData
    {
      && part.cells.Length <= OBJECT_MAX && partialData.Length == BLOCK
      && wroteSize <= part.cells.Length
      && (if encrypted then partialBytes < BLOCK && wroteSize % BLOCK == 0 else partialBytes == 0)
      && (encrypted ==> Aligned(part.programs))
      && forall i :: partialBytes <= i < BLOCK ==> partialData[i] == if topped then 0xFF else 0
    }

    /// Every program so far was at a multiple of 16 and of a multiple of 16 bytes.
    static ghost predicate Aligned(programs: seq<(nat, nat)>) {
      forall p <- programs :: p.0 % BLOCK == 0 && p.1 % BLOCK == 0
    }

    ghost function View(): Ota
      requires Valid()
      reads this, part, part.cells, partialData
    {
      Ota(part.cells[..], needErase, encrypted, wroteSize, partialData[..partialBytes])
    }

    constructor (part: Flash, needErase: bool, encrypted: bool)
      requires part.cells.Length <= OBJECT_MAX && part.programs == []
      ensures Valid() && fresh(this) && fresh(partialData) && this.part == part
      ensures View() == Ota(part.cells[..], needErase, encrypted, 0, []) && !topped
    {
      this.part, this.needErase, this.encrypted := part, needErase, encrypted;
      wroteSize, partialBytes, topped := 0, 0, false;
      partialData := new byte[BLOCK](_ => 0);
    }

    /// esp_ota_begin once the partition has been checked.
    static method Begin(part: Flash, encrypted: bool, imageSize: u32) returns (r: Option<OtaEntry>)
      requires part.cells.Length <= OBJECT_MAX && part.programs == []
      modifies part.cells
      ensures r.Some? <==> BeginSpec(old(part.cells[..]), encrypted, imageSize).Ok?
      ensures r.Some? ==> fresh(r.value) && fresh(r.value.partialData) && r.value.Valid() && r.value.part == part
      ensures r.Some? ==> r.value.View() == BeginSpec(old(part.cells[..]), encrypted, imageSize).value
      ensures r.Some? ==> r.value.encrypted == encrypted
      ensures imageSize == 0 || imageSize == SIZE_UNKNOWN ==>
        (r.Some? <==> part.cells.Length % SEC == 0)
        && (r.Some? ==> forall i :: 0 <= i < part.cells.Length ==> part.cells[i] == Erased)
      ensures imageSize == SEQUENTIAL_WRITES ==> r.Some? && part.cells[..] == old(part.cells[..])
      ensures r.Some? ==> (r.value.needErase <==> imageSize == SEQUENTIAL_WRITES)
    {
      if imageSize != SEQUENTIAL_WRITES {
        var ok;
        if imageSize == 0 || imageSize == SIZE_UNKNOWN {
          ok := part.Erase(0, part.cells.Length);
        } else {
          ok := part.Erase(0, Add32(imageSize, SEC - 1) / SEC * SEC);
        }
        if !ok {
          return None;
        }
      }
      var entry := new OtaEntry(part, imageSize == SEQUENTIAL_WRITES, encrypted);
      return Some(entry);
    }

    /// The erase at the start of a sequential write.
    method EraseAhead(size: nat) returns (ok: bool)
      requires Valid() && 0 < size
      modifies part.cells
      ensures Valid()
      ensures var (off, len) := EraseRange(wroteSize, size);
        ok <==> needErase && len > 0 ==> old(CanErase(part.cells[..], off, len))
      ensures ok ==> part.cells[..] == old(AfterErase(View(), size))
      ensures !ok ==> part.cells[..] == old(part.cells[..])
    {
      ok := true;
      if needErase {
        var first := wroteSize / SEC;
        var last := (wroteSize + size - 1) / SEC;
        if wroteSize % SEC == 0 {
          ok := part.Erase(wroteSize, (last - first + 1) * SEC);
        } else if first != last {
          ok := part.Erase((first + 1) * SEC, (last - first) * SEC);
        }
      }
    }

    /// Fill the carry buffer; when it is full, program it and empty it.
    method FillPartial(data: seq<byte>) returns (ok: bool, used: nat)
      requires Valid() && encrypted && partialBytes > 0 && data != []
      modifies this, part.cells, part, partialData
      ensures ok <==> |old(View()).partial + data| < BLOCK || old(wroteSize) + BLOCK <= part.cells.Length
      ensures ok ==> Valid() && used <= |data|
      ensures ok && |old(View()).partial + data| < BLOCK ==>
        used == |data| && View() == old(View()).(partial := old(View()).partial + data)
      ensures ok && |old(View()).partial + data| >= BLOCK ==>
        && used == BLOCK - |old(View()).partial|
        && View() == old(View()).(
             cells := Programmed(old(View()).cells, old(wroteSize), old(View()).partial + data[..used]),
             wrote := old(wroteSize) + BLOCK,
             partial := [])
      ensures ok ==> topped == (old(topped) || |old(View()).partial + data| >= BLOCK)
      ensures !ok ==> wroteSize == old(wroteSize) && part.cells[..] == old(part.cells[..])
    {
      used := Min(BLOCK - partialBytes, |data|);
      ghost var carried := partialData[..partialBytes];
      Copy(partialData, partialBytes, data[..used]);
      partialBytes := partialBytes + used;
      assert partialData[..partialBytes] == carried + data[..used];
      if partialBytes != BLOCK {
        assert data[..used] == data;
        return true, used;
      }
      assert partialData[..] == carried + data[..used];
      ok := part.Program(wroteSize, partialData[..]);
      if ok {
        partialBytes := 0;
        ResetPartial();
        topped := true;
        wroteSize := wroteSize + BLOCK;
      }
    }

    method ResetPartial()
      requires partialData.Length == BLOCK
      modifies partialData
      ensures forall i :: 0 <= i < BLOCK ==> partialData[i] == 0xFF
    {
      for i := 0 to BLOCK
        invariant forall j :: 0 <= j < i ==> partialData[j] == 0xFF
      {
        partialData[i] := 0xFF;
      }
    }

    /// Program the whole blocks of `data` and carry the rest.
    method ProgramWhole(data: seq<byte>) returns (ok: bool)
      requires Valid() && partialBytes == 0
      modifies this, part.cells, part, partialData
      ensures var n := Whole(encrypted, |data|);
        && (ok <==> old(wroteSize) + n <= part.cells.Length)
        && (ok ==> Valid() && View() == old(View()).(
              cells := Programmed(old(View()).cells, old(wroteSize), data[..n]),
              wrote := old(wroteSize) + n,
              partial := data[n..]))
      ensures ok ==> topped == old(topped)
      ensures !ok ==> wroteSize == old(wroteSize) && part.cells[..] == old(part.cells[..])
    {
      var size := |data|;
      if encrypted {
        partialBytes := size % BLOCK;
        if partialBytes != 0 {
          size := size - partialBytes;
          Copy(partialData, 0, data[size..]);
        }
      }
      assert partialData[..partialBytes] == data[size..];
      ok := part.Program(wroteSize, data[..size]);
      if ok {
        wroteSize := wroteSize + size;
      }
    }

    /// What a failed flash write leaves: nothing is programmed, or only the block that
    /// completes the bytes carried over.
    ghost predicate HalfStored(o: Ota, data: seq<byte>)
      reads this, part.cells
    {
      || (wroteSize == o.wrote && part.cells[..] == o.cells)
      || (wroteSize == o.wrote + BLOCK && o.partial != [] && BLOCK <= |o.partial + data|
          && wroteSize <= |o.cells| && part.cells[..] == Programmed(o.cells, o.wrote, (o.partial + data)[..BLOCK]))
    }

    /// The bytes carried over become a whole block with `data`.
    static ghost predicate Completes(o: Ota, data: seq<byte>) {
      o.partial != [] && |o.partial + data| >= BLOCK
    }

    /// The part of esp_ota_write behind the magic check: the two flash writes it
    /// may make amount to one program of everything that is whole.
    method Store(data: seq<byte>) returns (ok: bool)
      requires Valid() && data != []
      modifies this, part.cells, part, partialData
      ensures var o, all := old(View()), old(View()).partial + data;
        var n := Whole(encrypted, |all|);
        && (ok <==> o.wrote + n <= |o.cells|)
        && (ok ==> Valid() && View() == o.(
              cells := Programmed(o.cells, o.wrote, all[..n]), wrote := o.wrote + n, partial := all[n..]))
      ensures ok ==> topped == (old(topped) || Completes(old(View()), data))
      ensures !ok ==> HalfStored(old(View()), data)
    {
      hide Programmed, Whole;
      ghost var o := View();
      var rest := data;
      WholeSize(|o.partial + data|);
      assert (o.partial + data)[..0] == [] && (o.partial + data)[0..] == o.partial + data;
      if encrypted && partialBytes != 0 {
        var used;
        ok, used := FillPartial(rest);
        if !ok {
          return;
        }
        if partialBytes != 0 {
          assert Programmed(o.cells, o.wrote, []) == o.cells;
          return;
        }
        rest := rest[used..];
        BlockThenRest(o.cells, o.wrote, encrypted, o.partial, data, used);
      }
      ok := ProgramWhole(rest);
    }

    /// esp_ota_write: it succeeds, and changes the state, exactly as specified.
    method Write(data: seq<byte>) returns (r: Outcome<()>)
      requires Valid() && |data| <= OBJECT_MAX
      modifies this, part.cells, part, partialData
      ensures r.Ok? ==> Valid() && WriteSpec(old(View()), data) == Ok(View())
      ensures r.Ok? ==> topped == (old(topped) || Completes(old(View()), data))
      ensures r.Err? ==> WriteSpec(old(View()), data) == Err(r.error)
      ensures r == Err(EraseFailed) ==> Valid() && View() == old(View())
      ensures r == Err(BadMagic) ==> Valid() && View() == old(View().(cells := AfterErase(View(), |data|)))
      ensures r == Err(WriteFailed) ==> HalfStored(old(View().(cells := AfterErase(View(), |data|))), data)
    {
      if data == [] {
        return Ok(());
      }
      var ok := EraseAhead(|data|);
      if !ok {
        return Err(EraseFailed);
      }
      if wroteSize == 0 && partialBytes == 0 && data[0] != MAGIC {
        return Err(BadMagic);
      }
      ok := Store(data);
      return if ok then Ok(()) else Err(WriteFailed);
    }

    /// esp_ota_end up to the image verification.
    method End() returns (r: Outcome<()>, ghost pad: seq<byte>)
      requires Valid()
      modifies this, part.cells, part
      // The last block is padded with 0xFF, or with 0 if the carry buffer was never filled.
      ensures |pad| == BLOCK - |old(View()).partial| && forall b <- pad :: b == if old(topped) then 0xFF else 0
      ensures r.Ok? ==> EndSpec(old(View()), pad) == Ok(part.cells[..]) && partialBytes == 0
      ensures r.Ok? && encrypted ==> Aligned(part.programs)
      ensures r.Err? ==> EndSpec(old(View()), pad) == Err(r.error) && part.cells[..] == old(part.cells[..])
    {
      pad := partialData[partialBytes..];
      if wroteSize == 0 {
        return Err(NothingWritten), pad;
      }
      if partialBytes > 0 {
        assert partialData[..] == partialData[..partialBytes] + pad;
        var ok := part.Program(wroteSize, partialData[..]);
        if !ok {
          return Err(WriteFailed), pad;
        }
        wroteSize := wroteSize + BLOCK;
        partialBytes := 0;
      }
      return Ok(()), pad;
    }
  }

  /// Images an update accepts: they start with the magic byte, fit the partition and
  /// fill at least one block with encryption on, and the announced size fits.
  predicate Acceptable(length: nat, encrypted: bool, imageSize: u32, image: seq<byte>) {
    && |image| >= (if encrypted then BLOCK else 1) && image[0] == MAGIC && |image| <= length
    && (imageSize in {SEQUENTIAL_WRITES, 0, SIZE_UNKNOWN} || imageSize > U32 - SEC || SectorEnd(imageSize) <= length)
  }

  /// Images that an update puts on the flash, as far as their length and the way they
  /// are cut matter: they fit what was erased up front, or do not lose their tail.
  predicate Survives(encrypted: bool, imageSize: u32, chunks: seq<seq<byte>>) {
    if imageSize == SEQUENTIAL_WRITES then !LosesTail(encrypted, |Concat(chunks)|, ReceivedBefore(chunks))
    else if imageSize == 0 || imageSize == SIZE_UNKNOWN then true
    else imageSize <= U32 - SEC && |Concat(chunks)| <= SectorEnd(imageSize)
  }

  /// A whole update with the image cut into `chunks` in any way: it succeeds exactly
  /// for the acceptable images, and then has put the image on the flash exactly if the
  /// image survives.
  method Update(part: Flash, encrypted: bool, imageSize: u32, chunks: seq<seq<byte>>) returns (r: Outcome<()>)
    requires part.cells.Length <= OBJECT_MAX && part.cells.Length % SEC == 0 && part.programs == []
    requires forall i :: 0 <= i < part.cells.Length ==> part.cells[i] == Stale
    requires forall c <- chunks :: |c| <= OBJECT_MAX
    modifies part, part.cells
    ensures r.Ok? <==> Acceptable(part.cells.Length, encrypted, imageSize, Concat(chunks))
    ensures r.Ok? ==>
      (StartsWith(part.cells[..], Concat(chunks)) <==> Survives(encrypted, imageSize, chunks))
    ensures r.Ok? && imageSize == SEQUENTIAL_WRITES ==>
      StartsWith(part.cells[..], WholePart(encrypted, Concat(chunks)))
    ensures r.Ok? && (imageSize == 0 || imageSize == SIZE_UNKNOWN) ==> StartsWith(part.cells[..], Concat(chunks))
    ensures r.Ok? && encrypted ==> OtaEntry.Aligned(part.programs)
  {
    hide BeginSpec, WriteSpec, EndSpec, Acceptable, LosesTail, SectorEnd, StartsWith, WholePart;
    ghost var cells := part.cells[..];
    UpdateResult(cells, encrypted, imageSize, chunks);
    var started := OtaEntry.Begin(part, encrypted, imageSize);
    if started.None? {
      return Err(EraseFailed);
    }
    var entry := started.value;
    ghost var o := entry.View();
    for i := 0 to |chunks|
      invariant fresh(entry) && fresh(entry.partialData) && entry.part == part && entry.Valid()
      invariant WriteAll(o, chunks[..i]) == Ok(entry.View())
    {
      assert chunks[..i + 1][..i] == chunks[..i];
      r := entry.Write(chunks[i]);
      if r.Err? {
        ErrorStays(o, chunks, i + 1);
        return;
      }
    }
    assert chunks[..|chunks|] == chunks;
    ghost var pad;
    r, pad := entry.End();
  }

  /// The calls of an update all succeed exactly for the acceptable images.
  lemma UpdateResult(cells: Cells, encrypted: bool, imageSize: u32, chunks: seq<seq<byte>>)
    requires |cells| <= OBJECT_MAX && |cells| % SEC == 0
    requires forall i :: 0 <= i < |cells| ==> cells[i] == Stale
    ensures BeginSpec(cells, encrypted, imageSize).Err? ==>
      !Acceptable(|cells|, encrypted, imageSize, Concat(chunks))
    ensures BeginSpec(cells, encrypted, imageSize).Ok? ==>
      var o := BeginSpec(cells, encrypted, imageSize).value;
      && (WriteAll(o, chunks).Err? ==> !Acceptable(|cells|, encrypted, imageSize, Concat(chunks)))
      && (WriteAll(o, chunks).Ok? ==> var end := WriteAll(o, chunks).value;
           |end.partial| < BLOCK && forall pad :: |pad| == BLOCK - |end.partial| ==>
             && (EndSpec(end, pad).Ok? <==> Acceptable(|cells|, encrypted, imageSize, Concat(chunks)))
             && (EndSpec(end, pad).Ok? ==> (StartsWith(EndSpec(end, pad).value, Concat(chunks)) <==>
                  Survives(encrypted, imageSize, chunks)))
             && (EndSpec(end, pad).Ok? && imageSize == SEQUENTIAL_WRITES ==>
                  StartsWith(EndSpec(end, pad).value, WholePart(encrypted, Concat(chunks)))))
  {
    BeginStarts(cells, encrypted, imageSize);
    if BeginSpec(cells, encrypted, imageSize).Ok? {
      var o := BeginSpec(cells, encrypted, imageSize).value;
      var limit := ErasedFirst(|cells|, imageSize);
      if imageSize != 0 && imageSize != SIZE_UNKNOWN {
        AnnouncedIsErased(|cells|, imageSize);
      }
      hide BeginSpec, EndSpec, WriteSpec, StartsWith, ErasedFirst, LosesTail, WholePart;
      if Acceptable(|cells|, encrypted, imageSize, Concat(chunks)) {
        AcceptedUpdate(o, chunks, limit);
      } else if WriteAll(o, chunks).Ok? {
        EndFails(o, chunks, limit);
      }
    }
  }

  ghost predicate Begun(o: Ota, limit: nat) {
    && |o.cells| % SEC == 0
    && if o.needErase then Sequential(o, [], 0) else UpFront(o, [], limit) && limit % SEC == 0
  }

  lemma AcceptedUpdate(o: Ota, chunks: seq<seq<byte>>, limit: nat)
    requires Begun(o, limit) && |Concat(chunks)| <= |o.cells|
    requires |Concat(chunks)| >= (if o.encrypted then BLOCK else 1) && Concat(chunks)[0] == MAGIC
    ensures WriteAll(o, chunks).Ok?
    ensures var end := WriteAll(o, chunks).value;
      && |end.partial| < BLOCK
      && forall pad :: |pad| == BLOCK - |end.partial| ==>
           && EndSpec(end, pad).Ok?
           && (StartsWith(EndSpec(end, pad).value, Concat(chunks)) <==>
                if o.needErase then !LosesTail(o.encrypted, |Concat(chunks)|, ReceivedBefore(chunks))
                else |Concat(chunks)| <= limit)
           && (o.needErase ==> StartsWith(EndSpec(end, pad).value, WholePart(o.encrypted, Concat(chunks))))
  {
    hide EndSpec, WriteSpec, StartsWith, LosesTail, Whole;
    forall pad: seq<byte>
      ensures WriteAll(o, chunks).Ok? && |WriteAll(o, chunks).value.partial| < BLOCK
      ensures var end := WriteAll(o, chunks).value;
        |pad| == BLOCK - |end.partial| ==>
          && EndSpec(end, pad).Ok?
          && (StartsWith(EndSpec(end, pad).value, Concat(chunks)) <==>
               if o.needErase then !LosesTail(o.encrypted, |Concat(chunks)|, ReceivedBefore(chunks))
               else |Concat(chunks)| <= limit)
          && (o.needErase ==> StartsWith(EndSpec(end, pad).value, WholePart(o.encrypted, Concat(chunks))))
    {
      if o.needErase {
        SequentialUpdate(o, chunks, pad);
      } else {
        UpFrontUpdate(o, chunks, limit, pad);
      }
    }
    assert WriteAll(o, chunks).Ok?;
  }

  /// If all writes succeed and the image is not acceptable, the end fails.
  lemma EndFails(o: Ota, chunks: seq<seq<byte>>, limit: nat)
    requires Begun(o, limit) && WriteAll(o, chunks).Ok?
    requires var image := Concat(chunks);
      |image| < (if o.encrypted then BLOCK else 1) || image[0] != MAGIC || |image| > |o.cells|
    ensures var end := WriteAll(o, chunks).value;
      |end.partial| < BLOCK && forall pad :: |pad| == BLOCK - |end.partial| ==> EndSpec(end, pad).Err?
  {
    hide WriteSpec, EndSpec, SectorEnd, Layout;
    var end, image := WriteAll(o, chunks).value, Concat(chunks);
    StartsEmpty();
    var l := if o.needErase then 0 else limit;
    RunShape(o, chunks, l);
    if |image| <= |o.cells| {
      WritesSucceed(o, chunks, l);
    }
    EndNeedsImage(end, image);
  }

  lemma EndNeedsImage(o: Ota, received: seq<byte>)
    requires Shape(o, received) && |o.cells| % SEC == 0
    requires |received| < (if o.encrypted then BLOCK else 1) || |received| > |o.cells|
    ensures |o.partial| < BLOCK && forall pad :: |pad| == BLOCK - |o.partial| ==> EndSpec(o, pad).Err?
  {
    WroteIsWhole(o, received);
    WholeSize(|received|);
    SectorsAreBlocks(|o.cells|);
    hide Whole;
    if |received| > |o.cells| && o.encrypted {
      BlocksApart(|o.cells|, o.wrote);
    }
  }

  lemma ProgramTwice(c: Cells, off: nat, a: seq<byte>, b: seq<byte>)
    requires off + |a| + |b| <= |c|
    ensures Programmed(Programmed(c, off, a), off + |a|, b) == Programmed(c, off, a + b)
  {
  }

  lemma WholeSize(n: nat)
    ensures if n < BLOCK then Whole(true, n) == 0 else BLOCK <= Whole(true, n) <= n
  {
  }

  /// Programming the filled carry block and then the rest is programming both at once.
  lemma BlockThenRest(c: Cells, off: nat, encrypted: bool, carried: seq<byte>, data: seq<byte>, used: nat)
    requires used <= |data|
    requires (carried == [] && used == 0) || (encrypted && |carried| + used == BLOCK)
    ensures var all, a, rest := carried + data, carried + data[..used], data[used..];
      var n, m := Whole(encrypted, |all|), Whole(encrypted, |rest|);
      && n == |a| + m && all[n..] == rest[m..]
      && (off + n <= |c| ==> Programmed(Programmed(c, off, a), off + |a|, rest[..m]) == Programmed(c, off, all[..n]))
  {
    var all, a, rest := carried + data, carried + data[..used], data[used..];
    var n, m := Whole(encrypted, |all|), Whole(encrypted, |rest|);
    assert all == a + rest;
    assert all[..n] == a + rest[..m];
    if off + n <= |c| {
      ProgramTwice(c, off, a, rest[..m]);
    }
  }
}
