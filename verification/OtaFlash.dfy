// What an OTA update does to its flash partition (esp_ota_ops.c), as a value.
//
// A flash cell must be erased before it is programmed.  Erasing works on whole
// sectors; with flash encryption on, programming works on 16-byte blocks, so
// bytes that do not fill a block are carried over to the next write.

module OtaFlash {
  import opened Machine

  const SEC: nat := 4096    // SPI_FLASH_SEC_SIZE
  const BLOCK: nat := 16
  const MAGIC: byte := 0xE9 // ESP_IMAGE_HEADER_MAGIC

  const SIZE_UNKNOWN: u32 := 0xFFFF_FFFF
  const SEQUENTIAL_WRITES: u32 := 0xFFFF_FFFE

  /// A flash byte: not erased since before the update, erased, programmed once after
  /// an erase, or programmed without an erase.  Nothing is known of the content of a
  /// `Stale` byte, and a `Clashed` one is not guaranteed to hold what was written.
  datatype Cell = Stale | Erased | Holds(b: byte) | Clashed

  type Cells = seq<Cell>

  function ProgramCell(c: Cell, b: byte): Cell {
    if c.Erased? then Holds(b) else Clashed
  }

  /// esp_partition_write when the range is inside the partition.
  function Programmed(cells: Cells, off: nat, data: seq<byte>): (r: Cells)
    requires off + |data| <= |cells|
    ensures |r| == |cells|
    ensures forall i :: 0 <= i < |cells| ==>
      r[i] == if off <= i < off + |data| then ProgramCell(cells[i], data[i - off]) else cells[i]
  {
    seq(|cells|, i requires 0 <= i < |cells| =>
      if off <= i < off + |data| then ProgramCell(cells[i], data[i - off]) else cells[i])
  }

  /// esp_partition_erase_range when the range is inside the partition and aligned.
  function EraseCells(cells: Cells, off: nat, len: nat): (r: Cells)
    requires off + len <= |cells|
    ensures |r| == |cells|
    ensures forall i :: 0 <= i < |cells| ==> r[i] == if off <= i < off + len then Erased else cells[i]
  {
    seq(|cells|, i requires 0 <= i < |cells| => if off <= i < off + len then Erased else cells[i])
  }

  predicate CanErase(cells: Cells, off: nat, len: nat) {
    off + len <= |cells| && off % SEC == 0 && len % SEC == 0
  }

  /// The end of the sector that holds the byte before `n`: `n` rounded up.
  function SectorEnd(n: nat): (e: nat)
    ensures e % SEC == 0 && n <= e < n + SEC
  {
    (n + SEC - 1) / SEC * SEC
  }

  lemma SectorEndLeast(n: nat, e: nat)
    requires n <= e && e % SEC == 0
    ensures SectorEnd(n) <= e
  {
  }

  /// The state of an update: flash, mode, bytes programmed, bytes carried over.
  datatype Ota = Ota(cells: Cells, needErase: bool, encrypted: bool, wrote: nat, partial: seq<byte>)

  datatype Error = EraseFailed | BadMagic | WriteFailed | NothingWritten

  datatype Outcome<T> = Ok(value: T) | Err(error: Error)

  /// The range a write of `size` bytes erases first.
  function EraseRange(wrote: nat, size: nat): (r: (nat, nat))
    requires size > 0
  {
    var first, last := wrote / SEC, (wrote + size - 1) / SEC;
    if wrote % SEC == 0 then (wrote, (last - first + 1) * SEC)
    else ((first + 1) * SEC, (last - first) * SEC)
  }

  /// How much of `n` available bytes one write programs.
  function Whole(encrypted: bool, n: nat): nat {
    if encrypted then n - n % BLOCK else n
  }

  /// esp_ota_write in one piece: erase ahead, program what is whole, carry the rest.
  function WriteSpec(o: Ota, data: seq<byte>): Outcome<Ota>
    requires o.wrote <= |o.cells|
  {
    if data == [] then Ok(o) else
      var (off, len) := EraseRange(o.wrote, |data|);
      if o.needErase && len > 0 && !CanErase(o.cells, off, len) then Err(EraseFailed) else
        var cells := if o.needErase && len > 0 then EraseCells(o.cells, off, len) else o.cells;
        if o.wrote == 0 && o.partial == [] && data[0] != MAGIC then Err(BadMagic) else
          var all := o.partial + data;
          var n := Whole(o.encrypted, |all|);
          if o.wrote + n > |cells| then Err(WriteFailed)
          else Ok(o.(cells := Programmed(cells, o.wrote, all[..n]), wrote := o.wrote + n, partial := all[n..]))
  }

  /// esp_ota_end up to the image verification; `pad` is what fills the last block.
  function EndSpec(o: Ota, pad: seq<byte>): Outcome<Cells>
    requires |o.partial| < BLOCK && |pad| == BLOCK - |o.partial|
  {
    if o.wrote == 0 then Err(NothingWritten)
    else if o.partial == [] then Ok(o.cells)
    else if o.wrote + BLOCK > |o.cells| then Err(WriteFailed)
    else Ok(Programmed(o.cells, o.wrote, o.partial + pad))
  }

  /// How much esp_ota_begin erases of a partition, for an announced size: the size
  /// rounded up, computed in 32 bits.
  function ErasedFirst(length: nat, imageSize: u32): nat {
    if imageSize == 0 || imageSize == SIZE_UNKNOWN then length else Add32(imageSize, SEC - 1) / SEC * SEC
  }

  /// esp_ota_begin: what is erased up front.
  function BeginSpec(cells: Cells, encrypted: bool, imageSize: u32): Outcome<Ota> {
    if imageSize == SEQUENTIAL_WRITES then Ok(Ota(cells, true, encrypted, 0, [])) else
      var len := ErasedFirst(|cells|, imageSize);
      if !CanErase(cells, 0, len) then Err(EraseFailed)
      else Ok(Ota(EraseCells(cells, 0, len), false, encrypted, 0, []))
  }
}
