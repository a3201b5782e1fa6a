// Selecting the partition to boot (esp_ota_ops.c, bootloader_common_loader.c).
//
// Two flash sectors each hold a select entry with a sequence number.  The valid
// entry with the larger number decides: number s boots slot (s - 1) modulo the
// number of slots.  A switch erases the other sector and writes a larger number.

module OtaBoot {
  import opened Machine
  import opened Modular

  const NO_SEQ: u32 := 0xFFFF_FFFF

  datatype ImageState = New | PendingVerify | Confirmed | Invalid | Aborted | Undefined

  datatype Entry = Entry(seqNo: u32, state: ImageState, crc: u32)

  /// What an erased sector reads as.
  const ERASED: Entry := Entry(NO_SEQ, Undefined, 0xFFFF_FFFF)

  datatype Choice = Default | Slot(k: nat)

  /// The board: the checksum of a sequence number, the number of OTA slots, and the
  /// image state given to a newly selected image.
  datatype Board = Board(crc: u32 -> u32, slots: nat, initial: ImageState) {

    ghost predicate Ok() {
      1 <= slots <= 16 && initial in {New, Undefined}
    }

    /// bootloader_common_ota_select_invalid
    static predicate Unusable(e: Entry) {
      e.seqNo == NO_SEQ || e.state == Invalid || e.state == Aborted
    }

    /// bootloader_common_ota_select_valid
    predicate Usable(e: Entry) {
      !Unusable(e) && e.crc == crc(e.seqNo)
    }

    /// bootloader_common_get_active_otadata
    function Active(two: (Entry, Entry)): Option<nat> {
      if Usable(two.0) && Usable(two.1) then
        if two.0.seqNo >= two.1.seqNo then Some(0) else Some(1)
      else if Usable(two.0) then Some(0)
      else if Usable(two.1) then Some(1)
      else None
    }

    function ActiveSeq(two: (Entry, Entry)): u32
      requires Active(two).Some?
    {
      if Active(two).value == 0 then two.0.seqNo else two.1.seqNo
    }

    /// esp_ota_get_boot_partition
    function Boot(two: (Entry, Entry)): Choice
      requires slots <= 16
    {
      if (Unusable(two.0) && Unusable(two.1)) || slots == 0 then Default
      else match Active(two)
        case Some(_) => Slot((ActiveSeq(two) + U32 - 1) % U32 % slots)
        case None => Default
    }

    /// Which sector a switch rewrites, and the number it writes there.
    function Target(two: (Entry, Entry), slot: nat): (nat, nat)
      requires slots > 0
    {
      match Active(two)
      case Some(a) => (1 - a % 2, NextSeq(ActiveSeq(two), slot, slots))
      case None => (0, slot + 1)
    }

    function Replace(two: (Entry, Entry), sector: nat, e: Entry): (Entry, Entry) {
      if sector == 0 then (e, two.1) else (two.0, e)
    }

    /// The flash between the erase and the write of a switch.
    function HalfSwitched(two: (Entry, Entry), slot: nat): (Entry, Entry)
      requires slots > 0
    {
      Replace(two, Target(two, slot).0, ERASED)
    }

    /// The flash after a switch.
    function Switched(two: (Entry, Entry), slot: nat): (Entry, Entry)
      requires slots > 0 && Target(two, slot).1 < U32
    {
      var s: u32 := Target(two, slot).1;
      Replace(two, Target(two, slot).0, Entry(s, initial, crc(s)))
    }

    /// An entry that may decide: written, with the right checksum, and not marked as
    /// invalid or aborted.
    ghost predicate MayDecide(e: Entry) {
      e.seqNo != NO_SEQ && e.state != Invalid && e.state != Aborted && e.crc == crc(e.seqNo)
    }

    /// A slot is booted exactly if the entry with the largest number of those that may
    /// decide selects it.
    lemma BootMeans(two: (Entry, Entry), k: nat)
      requires Ok()
      ensures Boot(two) == Slot(k) <==>
        exists e :: (e == two.0 || e == two.1) && MayDecide(e) && k == (e.seqNo + U32 - 1) % U32 % slots
          && (MayDecide(two.0) ==> two.0.seqNo <= e.seqNo) && (MayDecide(two.1) ==> two.1.seqNo <= e.seqNo)
      ensures Boot(two) == Default <==> !MayDecide(two.0) && !MayDecide(two.1)
    {
      if Active(two).Some? {
        var e := if Active(two).value == 0 then two.0 else two.1;
        assert MayDecide(e) && e.seqNo == ActiveSeq(two);
      }
    }

    /// Losing power after the erase does not change what boots.
    lemma PowerLossKeepsBoot(two: (Entry, Entry), slot: nat)
      requires Ok()
      ensures Boot(HalfSwitched(two, slot)) == Boot(two)
    {
    }

    lemma PowerLossKeepsActive(two: (Entry, Entry), slot: nat)
      requires Ok()
      ensures var half := HalfSwitched(two, slot);
        Active(half).Some? <==> Active(two).Some?
      ensures var half := HalfSwitched(two, slot);
        Active(two).Some? ==> ActiveSeq(half) == ActiveSeq(two)
    {
    }

    /// The number that decides after a completed switch.
    lemma SwitchDecides(two: (Entry, Entry), slot: nat)
      requires Ok() && slot < slots && Target(two, slot).1 < U32
      ensures var s: u32 := Target(two, slot).1;
        if s == NO_SEQ then Boot(Switched(two, slot)) == Boot(two) && Active(two).Some? && 0 < ActiveSeq(two) < NO_SEQ
        else Active(Switched(two, slot)).Some? && ActiveSeq(Switched(two, slot)) == s
    {
      if Active(two).Some? {
        NextSeqLeast(ActiveSeq(two), slot, slots);
      }
      hide NextSeq;
    }

    /// A completed switch boots the chosen slot, except when the new number is the
    /// one that marks an erased sector, or is 0 on a board whose slot count does not
    /// divide 2^32.
    lemma SwitchBoots(two: (Entry, Entry), slot: nat)
      requires Ok() && slot < slots && Target(two, slot).1 < U32
      ensures Boot(Switched(two, slot)) == Slot(slot) <==>
        Target(two, slot).1 != NO_SEQ && (Target(two, slot).1 == 0 ==> U32 % slots == 0)
    {
      SwitchDecides(two, slot);
      var s := Target(two, slot).1;
      if Active(two).Some? {
        NextSeqLeast(ActiveSeq(two), slot, slots);
      }
      if s == NO_SEQ {
        WrongSlot(ActiveSeq(two), slot, slots);
      } else if s == 0 {
        ZeroBoots(slot, slots);
      } else {
        SlotOf(s, slot, slots);
        assert (s + U32 - 1) % U32 == s - 1;
      }
      hide NextSeq;
    }

    // ---- Runs of switches, each of which may lose power half way ----

    /// The active number leaves room for `k` more switches; it is not 0 unless that
    /// selects the same slot as 2^32.
    ghost predicate RoomFor(two: (Entry, Entry), k: nat) {
      Ok() && match Active(two)
        case Some(_) => (ActiveSeq(two) == 0 ==> U32 % slots == 0) && ActiveSeq(two) + k * slots < NO_SEQ
        case None => k * slots < NO_SEQ
    }

    lemma RequestKeepsRoom(two: (Entry, Entry), r: Request, k: nat)
      requires RoomFor(two, k + 1) && r.slot < slots
      ensures Target(two, r.slot).1 < NO_SEQ
      ensures Target(two, r.slot).1 == 0 ==> U32 % slots == 0
      ensures RoomFor(Served(two, r), k)
    {
      assert (k + 1) * slots == k * slots + slots;
      hide NextSeq, Usable, Unusable;
      if Active(two).Some? {
        NextSeqLeast(ActiveSeq(two), r.slot, slots);
      }
      if r.powerLost {
        PowerLossKeepsActive(two, r.slot);
      } else {
        SwitchDecides(two, r.slot);
      }
      hide Active, ActiveSeq, Switched, HalfSwitched, Boot, Target;
    }

    function Served(two: (Entry, Entry), r: Request): (Entry, Entry)
      requires slots > 0 && Target(two, r.slot).1 < U32
    {
      if r.powerLost then HalfSwitched(two, r.slot) else Switched(two, r.slot)
    }

    ghost function Run(two: (Entry, Entry), rs: seq<Request>): (Entry, Entry)
      requires RoomFor(two, |rs|) && forall r <- rs :: r.slot < slots
      decreases |rs|
    {
      if rs == [] then two else
        RequestKeepsRoom(two, rs[0], |rs| - 1);
        Run(Served(two, rs[0]), rs[1..])
    }

    /// Whatever sequence of switches is made and wherever power is lost, the board
    /// boots the slot of the last completed switch, or what it booted at the start.
    lemma {:induction false} RunBoots(two: (Entry, Entry), rs: seq<Request>)
      requires RoomFor(two, |rs|) && forall r <- rs :: r.slot < slots
      ensures Boot(Run(two, rs)) == LastCompleted(rs, Boot(two))
      decreases |rs|
    {
      if rs != [] {
        var r := rs[0];
        RequestKeepsRoom(two, r, |rs| - 1);
        RunBoots(Served(two, r), rs[1..]);
        if r.powerLost {
          PowerLossKeepsBoot(two, r.slot);
        } else {
          SwitchBoots(two, r.slot);
        }
      }
    }
  }

  datatype Request = Request(slot: nat, powerLost: bool)

  function LastCompleted(rs: seq<Request>, start: Choice): Choice
    decreases |rs|
  {
    if rs == [] then start
    else LastCompleted(rs[1..], if rs[0].powerLost then start else Slot(rs[0].slot))
  }

  /// The i-th number the search of esp_rewrite_ota_data looks at, computed in 32 bits.
  function Candidate(slot: nat, n: nat, i: nat): u32
    requires n > 0
  {
    ((slot + 1) % n + i * n) % U32
  }

  /// The search ends at the i-th number.
  ghost predicate EndsAt(s: u32, slot: nat, n: nat, i: nat)
    requires n > 0
  {
    Candidate(slot, n, i) >= s && forall j: nat :: j < i ==> Candidate(slot, n, j) < s
  }

  /// The search ends with a number that selects the slot exactly if the least such
  /// number fits 32 bits.  Otherwise it ends with one for another slot, or never.
  lemma SearchSucceeds(s: u32, slot: nat, n: nat)
    requires n > 0
    ensures (exists i: nat :: EndsAt(s, slot, n, i) && Candidate(slot, n, i) % n == (slot + 1) % n) <==>
      NextSeq(s, slot, n) < U32
  {
    NextSeqLeast(s, slot, n);
    hide NextSeq;
    if NextSeq(s, slot, n) < U32 {
      var i := FindSeq(s, slot, n);
      assert EndsAt(s, slot, n, i);
    }
  }

  /// The search loop of esp_rewrite_ota_data: it ends at the least number that is not
  /// below `s` and selects `slot`.
  method SearchSeq(s: u32, slot: nat, n: nat) returns (r: u32)
    requires n > 0 && NextSeq(s, slot, n) < U32
    ensures r == NextSeq(s, slot, n)
  {
    var base := (slot + 1) % n;
    var i := 0;
    ghost var last := FindSeq(s, slot, n);
    while s > (base + i * n) % U32
      invariant i <= last
      decreases last - i
    {
      hide NextSeq;
      assert Candidate(slot, n, i) == (base + i * n) % U32;
      i := i + 1;
    }
    assert Candidate(slot, n, i) == (base + i * n) % U32;
    r := (base + i * n) % U32;
  }

  /// Where the search ends.
  lemma FindSeq(s: u32, slot: nat, n: nat) returns (i: nat)
    requires n > 0 && NextSeq(s, slot, n) < U32
    ensures EndsAt(s, slot, n, i) && Candidate(slot, n, i) == NextSeq(s, slot, n)
  {
    var base := (slot + 1) % n;
    i := 0;
    NextSeqLeast(s, slot, n);
    while s > base + i * n
      invariant base + i * n <= NextSeq(s, slot, n)
      invariant forall j: nat :: j < i ==> Candidate(slot, n, j) < s
      decreases s - (base + i * n)
    {
      hide NextSeq;
      NotYet(s, slot, n, i);
      assert Candidate(slot, n, i) == base + i * n;
      i := i + 1;
    }
    AddMultiple(base, i, n);
    DivModUnique(base, n, 0, base);
    assert Candidate(slot, n, i) == base + i * n;
  }

  /// The two sectors on flash.
  class SelectSectors {
    var first: Entry
    var second: Entry
    const board: Board

    ghost function View(): (Entry, Entry)
      reads this
    {
      (first, second)
    }

    constructor (board: Board, first: Entry, second: Entry)
      ensures this.board == board && View() == (first, second)
    {
      this.board, this.first, this.second := board, first, second;
    }

    method Put(sector: nat, e: Entry)
      modifies this
      ensures View() == board.Replace(old(View()), sector, e)
    {
      if sector == 0 {
        first := e;
      } else {
        second := e;
      }
    }

    /// rewrite_ota_seq: erase the sector, then write it.  `between` is the flash in
    /// between.
    method RewriteSeq(seqNo: u32, sector: nat) returns (ghost between: (Entry, Entry))
      requires sector <= 1
      modifies this
      ensures between == board.Replace(old(View()), sector, ERASED)
      ensures View() == board.Replace(old(View()), sector, Entry(seqNo, board.initial, board.crc(seqNo)))
    {
      Put(sector, ERASED);
      between := View();
      Put(sector, Entry(seqNo, board.initial, board.crc(seqNo)));
    }

    /// esp_rewrite_ota_data: the search for the next number ends at the least one.
    method RewriteOtaData(subtype: nat) returns (ok: bool, ghost between: (Entry, Entry))
      requires board.Ok() && board.Target(View(), subtype % 16).1 < U32
      modifies this
      ensures ok <==> subtype % 16 < board.slots
      ensures !ok ==> View() == between == old(View())
      ensures ok ==> between == board.HalfSwitched(old(View()), subtype % 16)
      ensures ok ==> View() == board.Switched(old(View()), subtype % 16)
    {
      between := View();
      var slot, n := subtype % 16, board.slots;
      if slot >= n {
        return false, between;
      }
      var active := board.Active((first, second));
      if active.Some? {
        var s := if active.value == 0 then first.seqNo else second.seqNo;
        var seqNo := SearchSeq(s, slot, n);
        between := RewriteSeq(seqNo, 1 - active.value % 2);
      } else {
        between := RewriteSeq(slot + 1, 0);
      }
      ok := true;
    }
  }

  /// While the candidate is below `s`, so is the search's result not yet passed.
  lemma NotYet(s: nat, slot: nat, n: nat, i: nat)
    requires n > 0 && s > (slot + 1) % n + i * n
    ensures (slot + 1) % n + (i + 1) * n <= NextSeq(s, slot, n)
    ensures (slot + 1) % n + (i + 1) * n == (slot + 1) % n + i * n + n
  {
    var base := (slot + 1) % n;
    NextSeqLeast(s, slot, n);
    AddMultiple(base, i, n);
    DivModUnique(base, n, 0, base);
    ModApart(base + i * n, NextSeq(s, slot, n), n);
  }

  /// The least number at or above `s` that boots `slot` among `n`.
  function NextSeq(s: nat, slot: nat, n: nat): (r: nat)
    requires n > 0
  {
    var base := (slot + 1) % n;
    if s <= base then base else base + (s - base + n - 1) / n * n
  }

  lemma NextSeqRange(s: nat, slot: nat, n: nat)
    requires n > 0
    ensures s <= NextSeq(s, slot, n) < s + n && NextSeq(s, slot, n) % n == (slot + 1) % n
  {
    var base := (slot + 1) % n;
    DivModUnique(base, n, 0, base);
    if s > base {
      var k := (s - base + n - 1) / n;
      RoundUp(s - base, n);
      AddMultiple(base, k, n);
      assert NextSeq(s, slot, n) == base + k * n;
    }
  }

  /// `NextSeq` is at least `s`, boots `slot`, is less than `n` above `s`, and is the
  /// least such number.
  lemma NextSeqLeast(s: nat, slot: nat, n: nat)
    requires n > 0
    ensures var r := NextSeq(s, slot, n);
      && s <= r < s + n
      && r % n == (slot + 1) % n
      && (forall m: nat :: s <= m && m % n == (slot + 1) % n ==> r <= m)
  {
    NextSeqRange(s, slot, n);
    hide NextSeq;
    var r := NextSeq(s, slot, n);
    forall m: nat | s <= m && m % n == (slot + 1) % n ensures r <= m {
      if m < r {
        ModApart(m, r, n);
      }
    }
  }

  lemma SlotOf(s: nat, slot: nat, n: nat)
    requires slot < n && s >= 1 && s % n == (slot + 1) % n
    ensures (s - 1) % n == slot
  {
    if slot + 1 == n {
      var q := s / n;
      assert s % n == 0 && s == q * n;
      assert s - 1 == (q - 1) * n + (n - 1);
      DivModUnique(s - 1, n, q - 1, n - 1);
    } else {
      var q := s / n;
      assert (slot + 1) % n == slot + 1;
      assert s - 1 == q * n + slot;
      DivModUnique(s - 1, n, q, slot);
    }
  }

  /// A number below the least one does not boot the slot.
  lemma WrongSlot(s: u32, slot: nat, n: nat)
    requires slot < n && 1 <= s < NextSeq(s, slot, n)
    ensures (s + U32 - 1) % U32 % n != slot
  {
    assert (s + U32 - 1) % U32 == s - 1;
    if (s - 1) % n == slot {
      var q := (s - 1) / n;
      assert s == q * n + (slot + 1);
      AddMultiple(slot + 1, q, n);
      NextSeqLeast(s, slot, n);
    }
  }

  lemma ZeroBoots(slot: nat, n: nat)
    requires slot < n && (slot + 1) % n == 0
    ensures (U32 - 1) % n == slot <==> U32 % n == 0
  {
    if slot + 1 < n {
      DivModUnique(slot + 1, n, 0, slot + 1);
    }
    NextMod(U32 - 1, n);
  }
}
