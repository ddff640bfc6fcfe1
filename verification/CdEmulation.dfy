// Reading an emulated disk off a bootable CD (int13_cdemu in bochs/bios/rombios.c): sectors of 512
// bytes, of an image that lies in blocks of 2048 bytes on the CD.
module CdEmulation {
  import opened Machine
  import opened PacketTransfer
  import Disk = DiskGeometry

  const BLOCK := 2048
  const SECTOR := 512

  // The emulated medium (section 2.2 of the El Torito specification gives the floppy types): its
  // geometry and the CD block its image starts at.
  datatype Medium = Medium(cylinders: nat, heads: nat, spt: nat, ilba: nat)

  // The registers of a read or verify request, unpacked.
  datatype Call = Call(verify: bool, cylinder: nat, head: nat, sector: nat, count: nat, es: nat, bx: nat)

  // CH and CL hold the cylinder and the sector as they do for the hard disk.
  function UnpackCylinder(ch: bv8, cl: bv8): bv16 { ((cl as bv16 & 0x00c0) << 2) | (ch as bv16) }

  lemma SameUnpacking(ch: bv8, cl: bv8)
    ensures UnpackCylinder(ch, cl) == Disk.UnpackCylinder(ch, cl)
  {
  }

  predicate InRegisters(c: Call) {
    c.cylinder < 1024 && c.head < 256 && c.sector < 64 && c.count < 256 && c.es < TWO16 && c.bx < TWO16
  }

  predicate Refused(m: Medium, c: Call) {
    c.sector > m.spt || c.cylinder >= m.cylinders || c.head >= m.heads
  }

  // The sector number inside the image, in the code's arithmetic: `sector - 1` is a 16-bit number.
  function VirtualBlock(m: Medium, c: Call): nat {
    U32(U32(U32(U32(c.cylinder * m.heads) + c.head) * m.spt) + U16(c.sector - 1))
  }

  function SectorNumber(m: Medium, c: Call): int {
    (c.cylinder * m.heads + c.head) * m.spt + c.sector - 1
  }

  lemma NarrowSum(a: nat, b: nat)
    ensures U32(U32(a) + b) == U32(a + b)
  {
  }

  lemma NarrowMultiple(a: nat, k: nat)
    ensures U32(k * TWO32 + a) == U32(a)
  {
  }

  lemma NarrowProduct(a: nat, b: nat)
    ensures U32(U32(a) * b) == U32(a * b)
  {
    var q := a / TWO32;
    assert a == q * TWO32 + U32(a);
    assert a * b == (q * b) * TWO32 + U32(a) * b;
    NarrowMultiple(U32(a) * b, q * b);
  }

  // What the code computes, narrowed only once.
  lemma VirtualBlockIs(m: Medium, c: Call)
    ensures VirtualBlock(m, c) == U32((c.cylinder * m.heads + c.head) * m.spt + U16(c.sector - 1))
  {
    hide U32, U16;
    var track := c.cylinder * m.heads + c.head;
    NarrowSum(c.cylinder * m.heads, c.head);
    NarrowProduct(track, m.spt);
    NarrowSum(track * m.spt, U16(c.sector - 1));
  }

  // Exactly the requests with a sector number other than 0 are read from the right place, on a
  // medium that 32 bits can count; sector 0, which gets past the checks, is taken for one far behind.
  lemma VirtualBlockIff(m: Medium, c: Call)
    requires c.sector < TWO16
    ensures VirtualBlock(m, c) == SectorNumber(m, c) <==> c.sector != 0 && SectorNumber(m, c) < TWO32
    ensures c.sector == 0 ==> VirtualBlock(m, c) == U32(SectorNumber(m, c) + TWO16)
  {
    VirtualBlockIs(m, c);
    hide VirtualBlock;
    assert (c.cylinder * m.heads + c.head) * m.spt >= 0;
  }

  // ---- Which sectors can be read ----

  // The request is for sector number `n` of the medium, counted from 0 along its tracks.
  predicate AddressesSector(m: Medium, c: Call, n: nat) {
    && n < m.cylinders * m.heads * m.spt && m.heads >= 1 && m.spt >= 1
    && c.cylinder == n / m.spt / m.heads && c.head == n / m.spt % m.heads && c.sector == n % m.spt + 1
  }

  // Of the requests with a sector number from 1 on, exactly those are let through that are for a sector
  // of the medium; of those with sector 0, the ones on a track of the medium.
  lemma LetThrough(m: Medium, c: Call)
    ensures c.sector >= 1 ==> (!Refused(m, c) <==> exists n: nat :: AddressesSector(m, c, n))
    ensures c.sector == 0 ==> (!Refused(m, c) <==> c.cylinder < m.cylinders && c.head < m.heads)
  {
    if c.sector >= 1 && !Refused(m, c) {
      LetThroughIsSector(m, c);
    }
    forall n: nat | AddressesSector(m, c, n) ensures !Refused(m, c) {
      SectorIsLetThrough(m, c, n);
    }
  }

  lemma LetThroughIsSector(m: Medium, c: Call)
    requires c.sector >= 1 && !Refused(m, c)
    ensures SectorNumber(m, c) >= 0 && AddressesSector(m, c, SectorNumber(m, c))
  {
    var track := c.cylinder * m.heads + c.head;
    Disk.Digits(c.cylinder, c.head, m.cylinders, m.heads);
    Disk.Digits(track, c.sector - 1, m.cylinders * m.heads, m.spt);
  }

  lemma SectorIsLetThrough(m: Medium, c: Call, n: nat)
    requires AddressesSector(m, c, n)
    ensures !Refused(m, c) && c.sector >= 1 && SectorNumber(m, c) == n
  {
    var track := n / m.spt;
    Disk.Quotient(n, m.cylinders * m.heads, m.spt);
    Disk.Quotient(track, m.cylinders, m.heads);
  }

  // ---- The packet ----

  const READ_10 := 0x28

  // READ (10): opcode, address and length, high bytes first.
  function Packet(lba: nat, count: nat): (p: seq<nat>)
    ensures |p| == 12
  {
    [READ_10, 0, lba / 0x100_0000 % 256, lba / 0x1_0000 % 256, lba / 0x100 % 256, lba % 256,
     0, count / 0x100 % 256, count % 256, 0, 0, 0]
  }

  function PacketLba(p: seq<nat>): nat
    requires |p| == 12
  {
    p[2] * 0x100_0000 + p[3] * 0x1_0000 + p[4] * 0x100 + p[5]
  }

  function PacketCount(p: seq<nat>): nat
    requires |p| == 12
  {
    p[7] * 0x100 + p[8]
  }

  lemma PacketRoundTrip(lba: nat, count: nat)
    requires lba < TWO32 && count < TWO16
    ensures PacketLba(Packet(lba, count)) == lba && PacketCount(Packet(lba, count)) == count
    ensures Packet(lba, count)[0] == 0x28
  {
    FourBytes(lba);
    TwoBytes(count);
  }

  lemma FourBytes(x: nat)
    requires x < TWO32
    ensures x / 0x100_0000 % 256 * 0x100_0000 + x / 0x1_0000 % 256 * 0x1_0000 + x / 0x100 % 256 * 0x100 + x % 256 == x
  {
    var y := x / 0x100;
    var z := y / 0x100;
    Digit(x, 0x100, y);
    Digit(y, 0x100, z);
    Digit(z, 0x100, z / 0x100);
    DivUnique(x, 0x1_0000, z, y % 256 * 0x100 + x % 256);
    DivUnique(x, 0x100_0000, z / 0x100, z % 256 * 0x1_0000 + y % 256 * 0x100 + x % 256);
    Digit(z / 0x100, 0x100, 0);
  }

  lemma Digit(x: nat, d: nat, q: nat)
    requires d >= 1 && q == x / d
    ensures x == q * d + x % d
  {
  }

  lemma TwoBytes(x: nat)
    requires x < TWO16
    ensures x / 0x100 % 256 * 0x100 + x % 256 == x
  {
  }

  // A drive that serves a packet and completes the command has sent the blocks it asks for, cut up in any
  // well-sized way; it cannot complete one for blocks that are not on the CD.
  predicate Serves(cd: seq<bv8>, p: seq<nat>, s: Session)
    requires |p| == 12
  {
    var from, to := PacketLba(p) * BLOCK, (PacketLba(p) + PacketCount(p)) * BLOCK;
    Sized(s) && (Completed(s) && p[0] == READ_10 ==> from <= to <= |cd| && Stream(s.pieces) == cd[from..to])
  }

  // The packet for `count` sectors from sector `vlba` of the image on, in the code's arithmetic, and the
  // one for the blocks that hold them.
  function Asked(ilba: nat, vlba: nat, count: nat): (p: seq<nat>)
    requires count >= 1
    ensures |p| == 12
  {
    Packet(U32(ilba + vlba / 4), U16(U16(U32(vlba + count - 1) / 4 - vlba / 4) + 1))
  }

  function Blocks(ilba: nat, vlba: nat, count: nat): (p: seq<nat>)
    requires count >= 1
    ensures |p| == 12
  {
    Packet(ilba + vlba / 4, (vlba + count - 1) / 4 - vlba / 4 + 1)
  }

  // The last sector and the last block have numbers of 32 bits.
  predicate Numbered(ilba: nat, vlba: nat, count: nat) {
    vlba + count <= TWO32 && ilba + (vlba + count - 1) / 4 < TWO32
  }

  lemma AskedIs(ilba: nat, vlba: nat, count: nat)
    requires 1 <= count < 256 && Numbered(ilba, vlba, count)
    ensures Asked(ilba, vlba, count) == Blocks(ilba, vlba, count)
  {
    hide Packet;
    Fits32(vlba + count - 1);
    Quarters(vlba, count);
    Fits32(ilba + vlba / 4);
    hide U32;
  }

  // The data that reaches memory: all that was wanted, or what came before a fault.
  function Delivered(vlba: nat, count: nat, s: Session): (r: seq<bv8>)
    ensures |r| <= count * SECTOR
  {
    Kept(Stream(Pieces(s)), vlba % 4 * SECTOR, count * SECTOR)
  }

  // Memory after what a session has sent for a request with a buffer at `at`: the delivered data there and
  // nothing else changed, if the buffer ends within the first megabyte, and in any case as Placed says.
  ghost predicate Transferred(was: seq<bv8>, now: seq<bv8>, at: nat, vlba: nat, count: nat, s: Session) {
    && |was| >= REACH && Sized(s)
    && now == Placed(was, Wrap(at), vlba % 4 * SECTOR, count * SECTOR, Pieces(s))
    && (at + count * SECTOR <= MEGABYTE ==> now == Written(was, at, Delivered(vlba, count, s)))
  }

  // `data` is the `count` sectors of the image from sector `vlba` on.
  predicate IsImage(cd: seq<bv8>, ilba: nat, vlba: nat, count: nat, data: seq<bv8>) {
    var start := ilba * 2048 + vlba * 512;
    start + count * 512 <= |cd| && data == cd[start..start + count * 512]
  }

  datatype Outcome = Done | Invalid | ReadError

  // The blocks a request asks for start at vlba / 4 of the image; it needs the ones from there to the
  // one its last sector is in. Dropping `before` sectors and keeping `count` leaves the wanted bytes.
  lemma WantedBytes(cd: seq<bv8>, ilba: nat, vlba: nat, count: nat)
    requires count >= 1 && (ilba + (vlba + count - 1) / 4 + 1) * BLOCK <= |cd|
    ensures var from, to := (ilba + vlba / 4) * BLOCK, (ilba + (vlba + count - 1) / 4 + 1) * BLOCK;
            var start := ilba * BLOCK + vlba * SECTOR;
            && from <= to && start + count * SECTOR <= |cd|
            && Kept(cd[from..to], vlba % 4 * SECTOR, count * SECTOR) == cd[start..start + count * SECTOR]
  {
    var from, to := (ilba + vlba / 4) * BLOCK, (ilba + (vlba + count - 1) / 4 + 1) * BLOCK;
    var start, header := ilba * BLOCK + vlba * SECTOR, vlba % 4 * SECTOR;
    assert from + header == start;
    assert start + count * SECTOR <= to;
    Slice(cd, from, to, header, header + count * SECTOR);
  }

  lemma Slice<T>(s: seq<T>, from: nat, to: nat, i: nat, j: nat)
    requires from <= to <= |s| && i <= j <= to - from
    ensures s[from..to][i..j] == s[from + i..from + j]
  {
    var a, b := s[from..to][i..j], s[from + i..from + j];
    assert |a| == |b| && forall k :: 0 <= k < |a| ==> a[k] == b[k];
  }

  // Functions 02h and 04h. A read that succeeds has put exactly the bytes of the wanted sectors of the
  // image into memory at ES:BX, in order, and touched nothing else, if these are numbered within 32 bits
  // and the buffer ends within the first megabyte. Beyond that the parts wrap as Placed says.
  method ReadSectors(m: Medium, c: Call, mode32: bool, cd: seq<bv8>, drive: seq<nat> -> Session,
                     mem: array<bv8>) returns (r: Outcome)
    requires InRegisters(c) && mem.Length >= REACH
    requires forall p: seq<nat> | |p| == 12 :: Serves(cd, p, drive(p))
    modifies mem
    ensures c.count == 0 ==> r == Done
    ensures c.count > 0 && c.sector >= 1 ==> (r != Invalid <==> exists n: nat :: AddressesSector(m, c, n))
    ensures c.count > 0 && c.sector == 0 ==> (r != Invalid <==> c.cylinder < m.cylinders && c.head < m.heads)
    ensures c.count == 0 || c.verify || r == Invalid ==> r != ReadError && mem[..] == old(mem[..])
    ensures c.sector >= 1 && SectorNumber(m, c) < TWO32 ==> VirtualBlock(m, c) == SectorNumber(m, c)
    ensures c.count > 0 && !c.verify && r != Invalid ==>
              var vlba, at := VirtualBlock(m, c), 16 * c.es + c.bx;
              var s := drive(Asked(m.ilba, vlba, c.count));
              && (r == Done <==> Completed(s))
              && Transferred(old(mem[..]), mem[..], at, vlba, c.count, s)
              && (r == Done && vlba + c.count <= TWO32 && m.ilba + (vlba + c.count - 1) / 4 < TWO32 ==>
                    IsImage(cd, m.ilba, vlba, c.count, Delivered(vlba, c.count, s)))
  {
    hide VirtualBlock, SectorNumber, Refused, Serves, Transferred, Delivered, U16, Linear, Asked, Completed, Wrap, IsImage,
         AddressesSector;
    VirtualBlockIff(m, c);
    VirtualBlockIs(m, c);
    LetThrough(m, c);
    if c.count == 0 {
      return Done;
    }
    if Refused(m, c) {
      return Invalid;
    }
    if c.verify {
      return Done;
    }
    var buf := Address(U16(c.es + c.bx / 16), c.bx % 16);
    Buffer(c, buf);
    ghost var was := mem[..];
    var ok := ReadImage(m.ilba, VirtualBlock(m, c), c.count, mode32, cd, drive, mem, buf);
    ThroughBuffer(c, buf, was, mem[..], VirtualBlock(m, c), drive(Asked(m.ilba, VirtualBlock(m, c), c.count)));
    return if ok then Done else ReadError;
  }

  // The part of the code that talks to the drive.
  method ReadImage(ilba: nat, vlba: nat, count: nat, mode32: bool, cd: seq<bv8>, drive: seq<nat> -> Session,
                   mem: array<bv8>, buf: Address) returns (ok: bool)
    requires vlba < TWO32 && 1 <= count < 256 && Narrow(buf) && Linear(buf) < MEGABYTE && mem.Length >= REACH
    requires forall p: seq<nat> | |p| == 12 :: Serves(cd, p, drive(p))
    modifies mem
    ensures var s := drive(Asked(ilba, vlba, count));
            && ok == Completed(s)
            && Transferred(old(mem[..]), mem[..], Linear(buf), vlba, count, s)
            && (ok && Numbered(ilba, vlba, count) ==> IsImage(cd, ilba, vlba, count, Delivered(vlba, count, s)))
  {
    hide Serves, Packet, Kept, Written, Placed, Stream, WellSized, U16, U32, Linear, Completed, IsImage, Wrap;
    WrapIs(Linear(buf), 0);
    var slba, before := vlba / 4, U16(vlba) % 4;
    var elba := U32(vlba + count - 1) / 4;
    var blocks := U16(U16(elba - slba) + 1);
    Quarters(vlba, count);
    var session := drive(Packet(U32(ilba + slba), blocks));
    assert session == drive(Asked(ilba, vlba, count));
    ServedIsSized(cd, Asked(ilba, vlba, count), session);
    assert before * SECTOR % 2 == 0 && count * SECTOR % 2 == 0;
    var status, transferred := AtaCmdPacket(DataIn, mode32, before * SECTOR, count * SECTOR, session, mem, buf);
    ok := status == Success;
    if ok && Numbered(ilba, vlba, count) {
      AskedIs(ilba, vlba, count);
      DeliveredIs(cd, ilba, vlba, count, session);
    }
  }

  lemma ServedIsSized(cd: seq<bv8>, p: seq<nat>, s: Session)
    requires |p| == 12 && Serves(cd, p, s)
    ensures Sized(s)
  {
  }

  lemma DeliveredIs(cd: seq<bv8>, ilba: nat, vlba: nat, count: nat, s: Session)
    requires 1 <= count < 256 && Numbered(ilba, vlba, count)
    requires Serves(cd, Blocks(ilba, vlba, count), s) && Completed(s)
    ensures IsImage(cd, ilba, vlba, count, Delivered(vlba, count, s))
  {
    hide Packet, Kept, Stream;
    Quarters(vlba, count);
    PacketRoundTrip(ilba + vlba / 4, (vlba + count - 1) / 4 - vlba / 4 + 1);
    WantedBytes(cd, ilba, vlba, count);
  }

  lemma Buffer(c: Call, buf: Address)
    requires InRegisters(c) && buf == Address(U16(c.es + c.bx / 16), c.bx % 16)
    ensures Narrow(buf) && Linear(buf) == Wrap(16 * c.es + c.bx)
  {
    var given := Address(c.es, c.bx);
    NormalForm(given, buf.segment, buf.offset);
  }

  // The normalized buffer stands for the one given.
  lemma ThroughBuffer(c: Call, buf: Address, was: seq<bv8>, now: seq<bv8>, vlba: nat, s: Session)
    requires InRegisters(c) && c.count >= 1 && Linear(buf) == Wrap(16 * c.es + c.bx)
    requires Transferred(was, now, Linear(buf), vlba, c.count, s)
    ensures Transferred(was, now, 16 * c.es + c.bx, vlba, c.count, s)
  {
    hide Placed, Written, Wrap, Linear, Delivered;
    WrapIs(Linear(buf), 0);
    if 16 * c.es + c.bx < MEGABYTE {
      WrapIs(16 * c.es + c.bx, 0);
    }
  }

  lemma Quarters(v: nat, n: nat)
    requires 1 <= n < 256
    ensures 0 <= (v + n - 1) / 4 - v / 4 <= 64
    ensures U16(v) % 4 == v % 4
  {
  }
}
