// Feeding a message to the HMAC peripheral (esp_hmac.c): the driver pads the
// message as SHA-256 asks for and hands it over in 64-byte blocks.

module HmacBlocks {
  import opened Machine

  const BLOCK: nat := 64  // SHA256_BLOCK_SZ
  const LENGTH: nat := 8  // SHA256_PAD_SZ

  /// The calls of the peripheral layer that carry data or start a block.
  datatype Command =
    | WriteOne(block: seq<byte>)  // hmac_hal_write_one_block_512: the only block
    | Write(block: seq<byte>)     // hmac_hal_write_block_512
    | NextNormal                  // hmac_hal_next_block_normal
    | NextPadding                 // hmac_hal_next_block_padding: the padded block follows

  function Zeros(n: nat): (z: seq<byte>)
    ensures |z| == n
  {
    seq(n, _ => 0)
  }

  /// `k` bytes, most significant first.
  function BigEndian(n: nat, k: nat): (r: seq<byte>)
    ensures |r| == k
    decreases k
  {
    if k == 0 then [] else BigEndian(n / 256, k - 1) + [n % 256]
  }

  /// The zero bytes between the mark and the length field: section 5.1.1 of
  /// FIPS 180-4 asks for the least number that leaves room for exactly the length.
  function ZeroCount(n: nat): nat {
    (BLOCK + BLOCK - LENGTH - 1 - n % BLOCK) % BLOCK
  }

  lemma ZeroCountLeast(n: nat, k: nat)
    ensures (n + 1 + ZeroCount(n)) % BLOCK == BLOCK - LENGTH
    ensures (n + 1 + k) % BLOCK == BLOCK - LENGTH ==> ZeroCount(n) <= k
  {
  }

  function Padded(message: seq<byte>, bits: nat): seq<byte> {
    message + [0x80] + Zeros(ZeroCount(|message|)) + BigEndian(bits, LENGTH)
  }

  /// The padded second part of the inner hash of HMAC: the length counts the key
  /// block that the peripheral has already processed (section 2 of RFC 2104).
  function StandardPadding(message: seq<byte>): seq<byte> {
    Padded(message, 8 * |message| + 512)
  }

  /// `message_len * 8 + 512` in the 32-bit `size_t` it is computed in.
  function BitLength(n: nat): nat {
    (n * 8 + 512) % U32
  }

  function Concat(blocks: seq<seq<byte>>): seq<byte> {
    if blocks == [] then [] else Concat(blocks[..|blocks| - 1]) + blocks[|blocks| - 1]
  }

  /// The blocks of a padded message.
  function Chop(s: seq<byte>): (r: seq<seq<byte>>)
    requires |s| % BLOCK == 0
    ensures |r| == |s| / BLOCK && forall b <- r :: |b| == BLOCK
  {
    if s == [] then [] else Chop(s[..|s| - BLOCK]) + [s[|s| - BLOCK..]]
  }

  /// Blocks written one after the other, each but the first after one command.
  function Normal(blocks: seq<seq<byte>>): seq<Command> {
    if blocks == [] then []
    else Normal(blocks[..|blocks| - 1]) + (if |blocks| > 1 then [NextNormal] else []) + [Write(blocks[|blocks| - 1])]
  }

  /// The protocol for several blocks: one next-block command between consecutive
  /// writes, the padding command before the last.  With `early` there is one more
  /// command before the first write.
  function Feed(blocks: seq<seq<byte>>, early: bool): seq<Command>
    requires blocks != []
  {
    (if early then [NextNormal] else []) + Normal(blocks[..|blocks| - 1]) + [NextPadding, Write(blocks[|blocks| - 1])]
  }

  lemma ConcatMore(blocks: seq<seq<byte>>, b: seq<byte>)
    ensures Concat(blocks + [b]) == Concat(blocks) + b
  {
    assert (blocks + [b])[..|blocks|] == blocks;
  }

  lemma NormalMore(blocks: seq<seq<byte>>, b: seq<byte>)
    ensures Normal(blocks + [b]) == Normal(blocks) + (if blocks != [] then [NextNormal] else []) + [Write(b)]
  {
    assert (blocks + [b])[..|blocks|] == blocks;
  }

  lemma ChopMore(s: seq<byte>, b: seq<byte>)
    requires |s| % BLOCK == 0 && |b| == BLOCK
    ensures |s + b| % BLOCK == 0 && Chop(s + b) == Chop(s) + [b]
  {
    var t := s + b;
    assert t[..|t| - BLOCK] == s && t[|t| - BLOCK..] == b;
  }

  /// Chopping undoes concatenation.
  lemma {:induction false} ChopConcat(blocks: seq<seq<byte>>)
    requires forall b <- blocks :: |b| == BLOCK
    ensures |Concat(blocks)| % BLOCK == 0 && Chop(Concat(blocks)) == blocks
  {
    if blocks != [] {
      var k := |blocks| - 1;
      ChopConcat(blocks[..k]);
      ChopMore(Concat(blocks[..k]), blocks[k]);
    }
  }

  /// write_and_padd
  method WriteAndPad(block: array<byte>, data: seq<byte>)
    requires block.Length == BLOCK && |data| < BLOCK
    modifies block
    ensures block[..] == data + [0x80] + Zeros(BLOCK - 1 - |data|)
  {
    Copy(block, 0, data);
    block[|data|] := 0x80;
    Copy(block, |data| + 1, Zeros(BLOCK - |data| - 1));
  }

  /// What the peripheral is told for a message.
  function Told(message: seq<byte>): seq<Command> {
    var padded := Padded(message, BitLength(|message|));
    PaddedSize(message, BitLength(|message|));
    if |message| + 1 + LENGTH <= BLOCK then [WriteOne(padded)]
    else Feed(Chop(padded), |message| < BLOCK)
  }

  lemma PaddedSize(message: seq<byte>, bits: nat)
    ensures |Padded(message, bits)| % BLOCK == 0 && |Padded(message, bits)| > 0
    ensures |message| + 1 + LENGTH <= BLOCK ==> |Padded(message, bits)| == BLOCK
  {
    ZeroCountLeast(|message|, 0);
  }

  /// The remainder of the message and the padding fit one block.
  lemma OneMoreBlock(message: seq<byte>, at: nat, bits: nat, last: seq<byte>)
    requires at <= |message| && at % BLOCK == 0 && |message| - at < BLOCK - LENGTH
    requires var rest := message[at..];
      last == Overwrite(rest + [0x80] + Zeros(BLOCK - 1 - |rest|), BLOCK - LENGTH, BigEndian(bits, LENGTH))
    ensures message[..at] + last == Padded(message, bits)
  {
    hide BigEndian;
    var rest := message[at..];
    assert |message| % BLOCK == |rest|;
    assert ZeroCount(|message|) == BLOCK - LENGTH - 1 - |rest|;
    assert last == rest + [0x80] + Zeros(ZeroCount(|message|)) + BigEndian(bits, LENGTH);
    assert message == message[..at] + rest;
  }

  /// The padding spills into a second block.
  lemma TwoMoreBlocks(message: seq<byte>, at: nat, bits: nat, first: seq<byte>, last: seq<byte>)
    requires at <= |message| && at % BLOCK == 0 && BLOCK - LENGTH <= |message| - at < BLOCK
    requires var rest := message[at..]; first == rest + [0x80] + Zeros(BLOCK - 1 - |rest|)
    requires last == Overwrite(Zeros(BLOCK), BLOCK - LENGTH, BigEndian(bits, LENGTH))
    ensures message[..at] + first + last == Padded(message, bits)
  {
    hide BigEndian;
    var rest := message[at..];
    assert |message| % BLOCK == |rest|;
    assert ZeroCount(|message|) == (BLOCK - 1 - |rest|) + (BLOCK - LENGTH);
    assert Zeros(ZeroCount(|message|)) == Zeros(BLOCK - 1 - |rest|) + Zeros(BLOCK - LENGTH);
    assert last == Zeros(BLOCK - LENGTH) + BigEndian(bits, LENGTH);
    assert message == message[..at] + rest;
  }

  /// A fed sequence of blocks, seen from its last block.
  lemma FeedParts(blocks: seq<seq<byte>>, last: seq<byte>, early: bool)
    requires |last| == BLOCK && forall b <- blocks :: |b| == BLOCK
    ensures |Concat(blocks) + last| % BLOCK == 0 && Chop(Concat(blocks) + last) == blocks + [last]
    ensures Feed(blocks + [last], early) ==
      (if early then [NextNormal] else []) + Normal(blocks) + [NextPadding, Write(last)]
  {
    ChopConcat(blocks);
    ChopMore(Concat(blocks), last);
    assert (blocks + [last])[..|blocks|] == blocks;
  }

  /// Writing the whole blocks of the message, before the padded ones.
  method WriteWholeBlocks(message: seq<byte>) returns (cmds: seq<Command>, at: nat, ghost blocks: seq<seq<byte>>)
    ensures at == |message| / BLOCK * BLOCK && Concat(blocks) == message[..at]
    ensures (blocks == [] <==> |message| < BLOCK) && forall b <- blocks :: |b| == BLOCK
    ensures cmds == Normal(blocks) && (blocks == [] ==> cmds == [])
  {
    var whole := |message| / BLOCK;
    cmds, at, blocks := [], 0, [];
    var i := 1;
    while i < whole
      invariant 1 <= i && (i <= whole || i == 1) && at == (i - 1) * BLOCK
      invariant Concat(blocks) == message[..at] && |blocks| == i - 1 && forall b <- blocks :: |b| == BLOCK
      invariant cmds == Normal(blocks) + if blocks == [] then [] else [NextNormal]
    {
      hide Concat, Normal;
      var b := message[at..at + BLOCK];
      ConcatMore(blocks, b);
      NormalMore(blocks, b);
      blocks := blocks + [b];
      cmds := cmds + [Write(b)];
      at := at + BLOCK;
      cmds := cmds + [NextNormal];
      i := i + 1;
    }
    if whole > 0 {
      hide Concat, Normal;
      var b := message[at..at + BLOCK];
      ConcatMore(blocks, b);
      NormalMore(blocks, b);
      blocks := blocks + [b];
      cmds := cmds + [Write(b)];
      at := at + BLOCK;
    }
  }

  /// Handing over the padded end of the message, behind the whole blocks.
  method WritePaddedEnd(message: seq<byte>, at: nat, bits: nat)
    returns (cmds: seq<Command>, spill: seq<seq<byte>>, last: seq<byte>)
    requires at == |message| / BLOCK * BLOCK && |message| + 1 + LENGTH > BLOCK
    ensures |last| == BLOCK && (spill == [] || (|spill| == 1 && |spill[0]| == BLOCK))
    ensures |message| < BLOCK ==> spill != []
    ensures message[..at] + (if spill == [] then [] else spill[0]) + last == Padded(message, bits)
    ensures cmds == (if spill == [] then [] else [NextNormal, Write(spill[0])]) + [NextPadding, Write(last)]
  {
    hide BigEndian, Padded, Zeros, Overwrite;
    cmds, spill := [], [];
    var block := new byte[BLOCK];
    var rest := message[at..];
    if |message| % BLOCK >= BLOCK - LENGTH {
      WriteAndPad(block, rest);
      cmds := cmds + [NextNormal];
      cmds := cmds + [Write(block[..])];
      spill := [block[..]];
      OverwriteAll(block[..], Zeros(BLOCK));
      Copy(block, 0, Zeros(BLOCK));
      Copy(block, BLOCK - LENGTH, BigEndian(bits, LENGTH));
      TwoMoreBlocks(message, at, bits, spill[0], block[..]);
    } else {
      WriteAndPad(block, rest);
      Copy(block, BLOCK - LENGTH, BigEndian(bits, LENGTH));
      OneMoreBlock(message, at, bits, block[..]);
      assert message[..at] + [] == message[..at];
    }
    last := block[..];
    cmds := cmds + [NextPadding];
    cmds := cmds + [Write(block[..])];
  }

  /// esp_hmac_calculate: the commands it issues once the peripheral is configured.
  method Calculate(message: seq<byte>) returns (cmds: seq<Command>)
    requires |message| <= OBJECT_MAX
    ensures cmds == Told(message)
  {
    hide BigEndian, Concat, Normal, Chop, Feed, Padded;
    var n := |message|;
    var bits := (n * 8 + 512) % U32;
    if n + 1 + LENGTH <= BLOCK {
      var block := new byte[BLOCK];
      WriteAndPad(block, message);
      assert message[0..] == message;
      Copy(block, BLOCK - LENGTH, BigEndian(bits, LENGTH));
      OneMoreBlock(message, 0, bits, block[..]);
      assert message[..0] + block[..] == block[..];
      cmds := [WriteOne(block[..])];
    } else {
      var at, more;
      ghost var blocks;
      var spill, last;
      cmds, at, blocks := WriteWholeBlocks(message);
      more, spill, last := WritePaddedEnd(message, at, bits);
      if spill == [] {
        TellOne(blocks, last);
        assert message[..at] + [] == message[..at];
        assert cmds + ([] + more) == cmds + more;
      } else {
        TellTwo(blocks, spill[0], last);
        SpillCommands(blocks, spill[0]);
        assert cmds + [NextNormal, Write(spill[0])] + [NextPadding, Write(last)] == cmds + more;
      }
      cmds := cmds + more;
    }
  }

  lemma TellOne(blocks: seq<seq<byte>>, last: seq<byte>)
    requires blocks != [] && |last| == BLOCK && forall b <- blocks :: |b| == BLOCK
    ensures var s := Concat(blocks) + last;
      |s| % BLOCK == 0 && |s| > 0 && Feed(Chop(s), false) == Normal(blocks) + [NextPadding, Write(last)]
  {
    hide Concat, Normal, Chop, Feed;
    FeedParts(blocks, last, false);
    assert [] + Normal(blocks) == Normal(blocks);
  }

  lemma TellTwo(blocks: seq<seq<byte>>, first: seq<byte>, last: seq<byte>)
    requires |first| == |last| == BLOCK && forall b <- blocks :: |b| == BLOCK
    ensures var s := Concat(blocks) + first + last;
      |s| % BLOCK == 0 && |s| > 0 && Feed(Chop(s), blocks == []) ==
        (if blocks == [] then [NextNormal] else []) + Normal(blocks + [first]) + [NextPadding, Write(last)]
  {
    hide Concat, Normal, Chop, Feed;
    ConcatMore(blocks, first);
    FeedParts(blocks + [first], last, blocks == []);
  }

  lemma SpillCommands(blocks: seq<seq<byte>>, first: seq<byte>)
    ensures (if blocks == [] then [NextNormal] else []) + Normal(blocks + [first]) ==
      Normal(blocks) + [NextNormal, Write(first)]
  {
    NormalMore(blocks, first);
  }

  // ---- What the commands amount to ----

  function DataOf(cmds: seq<Command>): seq<byte> {
    if cmds == [] then [] else
      DataOf(cmds[..|cmds| - 1]) +
      match cmds[|cmds| - 1]
      case WriteOne(b) => b
      case Write(b) => b
      case _ => []
  }

  lemma DataMore(cmds: seq<Command>, c: Command)
    ensures DataOf(cmds + [c]) == DataOf(cmds) + match c { case WriteOne(b) => b case Write(b) => b case _ => [] }
  {
    assert (cmds + [c])[..|cmds|] == cmds;
  }

  lemma {:induction false} NormalData(blocks: seq<seq<byte>>)
    ensures DataOf(Normal(blocks)) == Concat(blocks)
  {
    if blocks != [] {
      var k := |blocks| - 1;
      NormalData(blocks[..k]);
      var before := Normal(blocks[..k]);
      assert Normal(blocks) == (if k > 0 then before + [NextNormal] else before) + [Write(blocks[k])];
      hide Normal, DataOf;
      DataMore(before, NextNormal);
      DataMore(if k > 0 then before + [NextNormal] else before, Write(blocks[k]));
    }
  }

  lemma {:induction false} ConcatChop(s: seq<byte>)
    requires |s| % BLOCK == 0
    ensures Concat(Chop(s)) == s
  {
    if s != [] {
      ConcatChop(s[..|s| - BLOCK]);
      ConcatMore(Chop(s[..|s| - BLOCK]), s[|s| - BLOCK..]);
    }
  }

  lemma FeedData(blocks: seq<seq<byte>>, early: bool)
    requires blocks != []
    ensures DataOf(Feed(blocks, early)) == Concat(blocks)
  {
    hide DataOf, Normal, Concat;
    var k := |blocks| - 1;
    var start := if early then [NextNormal] else [];
    var c := start + Normal(blocks[..k]);
    LeadData(start, Normal(blocks[..k]));
    NormalData(blocks[..k]);
    DataMore(c, NextPadding);
    DataMore(c + [NextPadding], Write(blocks[k]));
    assert Feed(blocks, early) == c + [NextPadding] + [Write(blocks[k])];
    ConcatMore(blocks[..k], blocks[k]);
    assert blocks == blocks[..k] + [blocks[k]];
  }

  lemma {:induction false} LeadData(start: seq<Command>, cmds: seq<Command>)
    requires start == [] || start == [NextNormal]
    ensures DataOf(start + cmds) == DataOf(cmds)
  {
    if cmds == [] {
      assert start + cmds == start && (start != [] ==> start[..0] == []);
    } else {
      var k := |cmds| - 1;
      LeadData(start, cmds[..k]);
      assert (start + cmds)[..|start + cmds| - 1] == start + cmds[..k];
    }
  }

  /// The data handed over are the message, padded with the computed bit length.
  lemma ToldData(message: seq<byte>)
    ensures DataOf(Told(message)) == Padded(message, BitLength(|message|))
  {
    var padded := Padded(message, BitLength(|message|));
    PaddedSize(message, BitLength(|message|));
    if |message| + 1 + LENGTH <= BLOCK {
      DataMore([], WriteOne(padded));
      assert [] + [WriteOne(padded)] == [WriteOne(padded)];
    } else {
      FeedData(Chop(padded), |message| < BLOCK);
      ConcatChop(padded);
    }
  }

  function Pow256(k: nat): nat {
    if k == 0 then 1 else 256 * Pow256(k - 1)
  }

  function FromBigEndian(s: seq<byte>): nat {
    if s == [] then 0 else 256 * FromBigEndian(s[..|s| - 1]) + s[|s| - 1]
  }

  lemma {:induction false} BigEndianValue(n: nat, k: nat)
    requires n < Pow256(k)
    ensures FromBigEndian(BigEndian(n, k)) == n
    decreases k
  {
    if k > 0 {
      assert n / 256 < Pow256(k - 1);
      BigEndianValue(n / 256, k - 1);
      assert BigEndian(n, k)[..k - 1] == BigEndian(n / 256, k - 1);
    }
  }

  lemma PaddingTellsLength(message: seq<byte>, a: nat, b: nat)
    requires a < U64 && b < U64 && Padded(message, a) == Padded(message, b)
    ensures a == b
  {
    Pow256Eight();
    BigEndianValue(a, LENGTH);
    BigEndianValue(b, LENGTH);
    hide BigEndian, FromBigEndian;
    var start := message + [0x80] + Zeros(ZeroCount(|message|));
    assert (start + BigEndian(a, LENGTH))[|start|..] == BigEndian(a, LENGTH);
    assert (start + BigEndian(b, LENGTH))[|start|..] == BigEndian(b, LENGTH);
  }

  /// The peripheral gets the standard padding exactly when the bit length fits the
  /// 32-bit type it is computed in.
  lemma StandardExactlyWhenItFits(message: seq<byte>)
    requires |message| <= OBJECT_MAX
    ensures DataOf(Told(message)) == StandardPadding(message) <==> 8 * |message| + 512 < U32
  {
    hide Padded, Told, DataOf;
    ToldData(message);
    var told, bits := BitLength(|message|), 8 * |message| + 512;
    if bits < U32 {
      assert told == bits;
    } else if DataOf(Told(message)) == StandardPadding(message) {
      PaddingTellsLength(message, told, bits);
      assert false;
    }
  }

  lemma Pow256Eight()
    ensures Pow256(LENGTH) == U64
  {
    assert Pow256(2) == 0x1_0000 && Pow256(4) == 0x1_0000_0000 && Pow256(6) == 0x1_0000_0000_0000;
  }

  /// Between two writes there is exactly one next-block command.
  ghost predicate Alternates(cmds: seq<Command>) {
    && (forall i :: 0 <= i < |cmds| ==> !cmds[i].WriteOne?)
    && (forall i :: 0 <= i < |cmds| - 1 ==> (cmds[i].Write? <==> !cmds[i + 1].Write?))
  }

  lemma {:induction false} NormalAlternates(blocks: seq<seq<byte>>)
    ensures Alternates(Normal(blocks))
    ensures forall i :: 0 <= i < |Normal(blocks)| ==> Normal(blocks)[i] != NextPadding
    ensures blocks != [] ==>
      Normal(blocks) != [] && Normal(blocks)[0].Write? && Normal(blocks)[|Normal(blocks)| - 1].Write?
  {
    if blocks != [] {
      NormalAlternates(blocks[..|blocks| - 1]);
    }
  }

  /// A message of at most 55 bytes is handed over as one block.
  lemma ShortMessage(message: seq<byte>)
    ensures |message| <= 55 <==> |Told(message)| == 1
    ensures |message| <= 55 ==>
      Told(message)[0].WriteOne? && |Told(message)[0].block| == BLOCK && message + [0x80] <= Told(message)[0].block
  {
    PaddedSize(message, BitLength(|message|));
    if |message| > 55 {
      Protocol(message);
    }
    hide BigEndian;
  }

  /// The number a sequence of bytes stands for, most significant byte first.
  function Number(s: seq<byte>): nat {
    if s == [] then 0 else s[0] * Pow256(|s| - 1) + Number(s[1..])
  }

  lemma {:induction false} NumberMore(s: seq<byte>, b: byte)
    ensures Number(s + [b]) == 256 * Number(s) + b
  {
    if s == [] {
      assert [] + [b] == [b] && [b][1..] == [];
    } else {
      NumberMore(s[1..], b);
      assert (s + [b])[1..] == s[1..] + [b] && (s + [b])[0] == s[0];
      assert Pow256(|s|) == 256 * Pow256(|s| - 1);
    }
  }

  /// The length field stands for the length.
  lemma {:induction false} BigEndianStandsFor(n: nat, k: nat)
    requires n < Pow256(k)
    ensures Number(BigEndian(n, k)) == n
    decreases k
  {
    if k > 0 {
      BigEndianStandsFor(n / 256, k - 1);
      NumberMore(BigEndian(n / 256, k - 1), n % 256);
    }
  }

  /// The command protocol: writes and next-block commands alternate, the padding
  /// command comes exactly before the last write, and there is a command before the
  /// first write exactly for messages of 56 to 63 bytes.
  lemma Protocol(message: seq<byte>)
    requires |message| + 1 + LENGTH > BLOCK
    ensures var cmds := Told(message);
      && |cmds| >= 3 && Alternates(cmds)
      && cmds[|cmds| - 1].Write? && (forall i :: 0 <= i < |cmds| ==> (cmds[i] == NextPadding <==> i == |cmds| - 2))
      && (cmds[0] == NextNormal <==> |message| < BLOCK) && (cmds[0].Write? <==> |message| >= BLOCK)
  {
    hide Padded, Chop, Normal, Feed, Alternates;
    var bits := BitLength(|message|);
    PaddedSize(message, bits);
    PaddedBlocks(message, bits);
    var blocks := Chop(Padded(message, bits));
    FeedAlternates(blocks, |message| < BLOCK);
  }

  lemma FeedAlternates(blocks: seq<seq<byte>>, early: bool)
    requires |blocks| >= 2
    ensures var cmds := Feed(blocks, early);
      && |cmds| >= 3 && Alternates(cmds)
      && cmds[|cmds| - 1].Write? && (forall i :: 0 <= i < |cmds| ==> (cmds[i] == NextPadding <==> i == |cmds| - 2))
      && cmds[0] == (if early then NextNormal else Normal(blocks[..|blocks| - 1])[0])
      && (cmds[0].Write? <==> !early)
  {
    var start, first := if early then [NextNormal] else [], Normal(blocks[..|blocks| - 1]);
    var end := [NextPadding, Write(blocks[|blocks| - 1])];
    NormalAlternates(blocks[..|blocks| - 1]);
    hide Normal;
    JoinAlternates(start, first);
    JoinAlternates(start + first, end);
  }

  lemma JoinAlternates(x: seq<Command>, y: seq<Command>)
    requires Alternates(x) && Alternates(y) && y != []
    requires x != [] ==> (x[|x| - 1].Write? <==> !y[0].Write?)
    ensures Alternates(x + y)
  {
    forall i | 0 <= i < |x + y| - 1
      ensures (x + y)[i].Write? <==> !(x + y)[i + 1].Write?
    {
      if i < |x| {
        assert (x + y)[i] == x[i];
      } else {
        assert (x + y)[i] == y[i - |x|];
      }
    }
  }

  lemma PaddedBlocks(message: seq<byte>, bits: nat)
    requires |message| + 1 + LENGTH > BLOCK
    ensures |Padded(message, bits)| % BLOCK == 0 && |Padded(message, bits)| / BLOCK >= 2
  {
    PaddedSize(message, bits);
  }
}
