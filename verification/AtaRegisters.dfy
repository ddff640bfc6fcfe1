// The command registers of an ATA channel and the way ata_cmd_data_io (bochs/bios/rombios.c) loads
// them with a block address and a sector count.
module AtaRegisters {
  // A register of the 48-bit Address feature set: it remembers the value written before.
  datatype Latch = Latch(current: bv8, previous: bv8)

  const DH_LBA: bv8 := 0x40
  const EXT: bv8 := 0x04

  // What the drive takes a command to mean.
  datatype Request = Request(slave: bool, lba: bv48, count: nat, extended: bool)

  // The sectors a count register stands for: zero stands for one more than the largest count.
  function SectorsFor(count: bv16, extended: bool): nat {
    if count != 0 then count as nat else if extended then 0x1_0000 else 0x100
  }

  // The bytes of a word, lowest first.
  function Byte0(x: bv32): bv8 { (x & 0xff) as bv8 }
  function Byte1(x: bv32): bv8 { ((x >> 8) & 0xff) as bv8 }
  function Byte2(x: bv32): bv8 { ((x >> 16) & 0xff) as bv8 }
  function Byte3(x: bv32): bv8 { ((x >> 24) & 0xff) as bv8 }

  function Join16(a: bv8, b: bv8): bv16 {
    (a as bv16) | (b as bv16 << 8)
  }

  function Join32(a: bv16, b: bv16): bv32 {
    (a as bv32) | (b as bv32 << 16)
  }

  function Join48(a: bv8, b: bv8, c: bv8, d: bv8, e: bv8, f: bv8): bv48 {
    Block(Join32(Join16(a, b), Join16(c, d)), Join32(Join16(e, f), 0))
  }

  // The block number 2^32 * high + low, of which 48 bits are kept.
  function Block(low: bv32, high: bv32): bv48 {
    (high as bv48 << 32) | (low as bv48)
  }

  function LowHalf(x: bv32): bv16 { (x & 0xffff) as bv16 }
  function HighHalf(x: bv32): bv16 { (x >> 16) as bv16 }

  lemma SplitLowHalf(x: bv32)
    ensures Join16(Byte0(x), Byte1(x)) == LowHalf(x)
  {
  }

  lemma SplitHighHalf(x: bv32)
    ensures Join16(Byte2(x), Byte3(x)) == HighHalf(x)
  {
  }

  lemma SplitWord(x: bv32)
    ensures Join32(LowHalf(x), HighHalf(x)) == x
  {
  }

  lemma LowWord(x: bv32)
    ensures Join32(LowHalf(x), 0) == x & 0xffff
  {
  }

  lemma HighLost(low: bv32, high: bv32)
    ensures Block(low, high & 0xffff) == Block(low, high)
  {
  }

  lemma ZeroBytes()
    ensures Byte0(0) == 0 && Byte1(0) == 0
  {
  }

  lemma SplitBlock(low: bv32, high: bv32)
    ensures Join48(Byte0(low), Byte1(low), Byte2(low), Byte3(low), Byte0(high), Byte1(high))
            == Block(low, high)
    ensures high == 0 ==> Byte0(high) == 0 && Byte1(high) == 0
  {
    hide Byte0, Byte1, Byte2, Byte3, Join16, Join32, Block, LowHalf, HighHalf;
    SplitLowHalf(low);
    SplitHighHalf(low);
    SplitWord(low);
    SplitLowHalf(high);
    LowWord(high);
    HighLost(low, high);
    ZeroBytes();
  }

  function CountLow(count: bv16): bv8 { (count & 0xff) as bv8 }
  function CountHigh(count: bv16): bv8 { (count >> 8) as bv8 }

  lemma SplitCount(count: bv16)
    ensures Join16(CountLow(count), CountHigh(count)) == count
    ensures count >> 8 >= 1 <==> count >= 256
    ensures CountHigh(count) == 0 <==> count < 256
    ensures CountLow(count & 0xff) == CountLow(count)
  {
  }

  // What the last register writes take from the low word of the address.
  function SectorOf(low: bv32): bv8 { (low & 0xff) as bv8 }
  function CylinderLowOf(low: bv32): bv8 { (((low >> 8) & 0xffff) & 0xff) as bv8 }
  function CylinderHighOf(low: bv32): bv8 { (((low >> 8) & 0xffff) >> 8) as bv8 }
  function NibbleOf(low: bv32): bv8 { (((low >> 8) >> 16) & 0x0f) as bv8 }
  function HeadOf(low: bv32): bv8 { NibbleOf(low) | DH_LBA }

  lemma LowBytes(low: bv32)
    ensures SectorOf(low) == SectorOf(low & 0xff_ffff) == Byte0(low)
    ensures CylinderLowOf(low) == CylinderLowOf(low & 0xff_ffff) == Byte1(low)
    ensures CylinderHighOf(low) == CylinderHighOf(low & 0xff_ffff) == Byte2(low)
  {
  }

  function DeviceOf(slave: bool, head: bv8): bv8 { (if slave then 0xb0 else 0xa0) | head }
  function HeadBits(device: bv8): bv8 { device & 0x0f }
  predicate Selected(device: bv8) { device & 0x10 != 0 }
  predicate BlockAddressed(device: bv8) { device & 0x40 != 0 }

  lemma DeviceBits(slave: bool, low: bv32)
    ensures BlockAddressed(DeviceOf(slave, HeadOf(low))) && (Selected(DeviceOf(slave, HeadOf(low))) <==> slave)
    ensures low < 0x1000_0000 ==> HeadBits(DeviceOf(slave, HeadOf(low))) == Byte3(low)
  {
    hide HeadOf, Byte3;
    var head := HeadOf(low);
    HeadIs(low);
    SelectBits(head);
  }

  lemma SelectBits(head: bv8)
    ensures (0xa0 | head) & 0x0f == head & 0x0f && (0xb0 | head) & 0x0f == head & 0x0f
    ensures head & 0x10 == 0 ==> (0xa0 | head) & 0x10 == 0 && (0xb0 | head) & 0x10 != 0
    ensures head & 0x40 != 0 ==> (0xa0 | head) & 0x40 != 0 && (0xb0 | head) & 0x40 != 0
  {
  }

  lemma HeadIs(low: bv32)
    ensures HeadOf(low) & DH_LBA != 0 && HeadOf(low) & 0x10 == 0
    ensures low < 0x1000_0000 ==> HeadOf(low) & 0x0f == Byte3(low)
  {
    hide NibbleOf, Byte3;
    HeadFlag(NibbleOf(low));
    HeadNibble(low);
  }

  lemma HeadFlag(x: bv8)
    ensures (x | 0x40) & 0x40 != 0 && (x | 0x40) & 0x0f == x & 0x0f
    ensures x & 0x0f == x ==> (x | 0x40) & 0x10 == 0
  {
  }

  lemma HeadNibble(low: bv32)
    ensures NibbleOf(low) & 0x0f == NibbleOf(low)
    ensures low < 0x1000_0000 ==> NibbleOf(low) == Byte3(low)
  {
  }

  // The EXT bit of a command selects the long form.
  predicate IsLong(command: bv8) { command & EXT != 0 }
  function LongForm(command: bv8): bv8 { command | EXT }

  lemma CommandBits(cmd: bv8)
    ensures IsLong(LongForm(cmd))
    ensures LongForm(0x20) == 0x24 && LongForm(0x30) == 0x34 && !IsLong(0x20) && !IsLong(0x30)
  {
  }

  // The block `count` sectors on is below 2^28, and the count fits in one byte.
  predicate Short(low: bv32, high: bv32, count: bv16) {
    high == 0 && count < 256 && low < 0x1000_0000 && low + (count as bv32) < 0x1000_0000
  }

  // The code's test for the long form, in 32-bit arithmetic.
  predicate NeedsLong(low: bv32, high: bv32, count: bv16) {
    count >> 8 >= 1 || high != 0 || low >= 0x1000_0000 - (count as bv32)
  }

  lemma ShortForm(low: bv32, high: bv32, count: bv16)
    ensures NeedsLong(low, high, count) <==> !Short(low, high, count)
    ensures Short(low, high, count) ==> low < 0x1000_0000 && high == 0 && count < 256
  {
  }

  class Port {
    var features: Latch
    var count: Latch
    var sector: Latch
    var cylinderLow: Latch
    var cylinderHigh: Latch
    var device: bv8
    var command: bv8

    // How the drive decodes its registers: commands with the EXT bit use both values of each latch,
    // the others the current ones and four bits of the device register.
    function Decoded(): Request
      reads this
    {
      if IsLong(command) then
        Request(Selected(device),
                Join48(sector.current, cylinderLow.current, cylinderHigh.current,
                       sector.previous, cylinderLow.previous, cylinderHigh.previous),
                SectorsFor(Join16(count.current, count.previous), true), true)
      else
        Request(Selected(device),
                Join48(sector.current, cylinderLow.current, cylinderHigh.current, HeadBits(device), 0, 0),
                SectorsFor(Join16(count.current, 0), false), false)
    }

    // Write the five two-deep registers once.
    method Out(f: bv8, n: bv8, s: bv8, low: bv8, high: bv8)
      modifies this`features, this`count, this`sector, this`cylinderLow, this`cylinderHigh
      ensures features == Latch(f, old(features.current)) && count == Latch(n, old(count.current))
      ensures sector == Latch(s, old(sector.current)) && cylinderLow == Latch(low, old(cylinderLow.current))
      ensures cylinderHigh == Latch(high, old(cylinderHigh.current))
    {
      features := Latch(f, features.current);
      count := Latch(n, count.current);
      sector := Latch(s, sector.current);
      cylinderLow := Latch(low, cylinderLow.current);
      cylinderHigh := Latch(high, cylinderHigh.current);
    }

    // A block-addressed command: the registers end up meaning what was asked for. The 28-bit form is
    // used exactly when the count is below 256 and the block that many sectors on is below 2^28. A
    // count of 0 is passed on and stands for 256 or 65536 sectors, by the form.
    method LoadBlock(slave: bool, cmd: bv8, sectors: bv16, lbaLow: bv32, lbaHigh: bv32)
      requires !IsLong(cmd)
      modifies this
      ensures var r := Decoded();
              && r.slave == slave && r.lba == Block(lbaLow, lbaHigh) && r.count == SectorsFor(sectors, r.extended)
              && r.extended == !Short(lbaLow, lbaHigh, sectors) && command == (if r.extended then LongForm(cmd) else cmd)
      ensures features.current == 0 && BlockAddressed(device)
    {
      hide Byte0, Byte1, Byte2, Byte3, Join48, Join32, Join16, Block, SectorsFor, SectorOf, CylinderLowOf,
           CylinderHighOf, HeadOf, CountLow, CountHigh, Short, NeedsLong, IsLong, LongForm, DeviceOf, HeadBits,
           BlockAddressed, Selected;
      CommandBits(cmd);
      SplitBlock(lbaLow, lbaHigh);
      SplitCount(sectors);
      LowBytes(lbaLow);
      var low, n, c := lbaLow, sectors, cmd;
      ShortForm(low, lbaHigh, n);
      if NeedsLong(low, lbaHigh, n) {
        Out(0x00, CountHigh(n), Byte3(low), Byte0(lbaHigh), Byte1(lbaHigh));
        c := LongForm(c);
        n := n & 0xff;
        low := low & 0xff_ffff;
      }
      LowBytes(low);
      DeviceBits(slave, low);
      Out(0x00, CountLow(n), SectorOf(low), CylinderLowOf(low), CylinderHighOf(low));
      device := DeviceOf(slave, HeadOf(low));
      command := c;
    }
  }
}
