// Logical disk geometry of the BIOS (bochs/bios/rombios.c): the translation chosen at detection
// time, and the cylinder/head/sector addresses of the disk services.
module DiskGeometry {
  import opened Machine

  datatype Translation = NoTranslation | Lba | Large | RevisedEchs
  datatype Chs = Chs(cylinders: nat, heads: nat, spt: nat)

  function Capacity(g: Chs): nat {
    g.cylinders * g.heads * g.spt
  }

  // ---- LBA-assisted translation ----

  const HEADS := [16, 32, 64, 128, 255]

  // The head count for a disk with `q` times 1024 tracks: the least of 16, 32, 64, 128 and 255 that is
  // not below q, or 255.
  function HeadsFor(q: nat): (h: nat)
    ensures h in HEADS && (h == 255 || q <= h)
    ensures forall k :: 0 <= k < |HEADS| && HEADS[k] < h ==> HEADS[k] < q
  {
    if q > 128 then 255 else if q > 64 then 128 else if q > 32 then 64 else if q > 16 then 32 else 16
  }

  // The geometry that is meant, for a disk of any size: as many cylinders as there are tracks for, and
  // at most 1024.
  function LbaIntended(sectors: nat): Chs {
    var tracks := sectors / 63;
    var heads := HeadsFor(tracks / 1024);
    Chs(Min(1024, tracks / heads), heads, 63)
  }

  // The geometry that comes out: from the low 32 bits of the size, with head and cylinder counts that
  // pass through 16 bits.
  function LbaNarrowed(sectors: nat): Chs {
    var tracks := U32(sectors) / 63;
    var heads := HeadsFor(U16(tracks / 1024));
    Chs(Min(1024, U16(tracks / heads)), heads, 63)
  }

  // The disks that get the geometry that is meant.
  predicate LbaExact(sectors: nat) {
    var tracks := U32(sectors) / 63;
    if sectors < TWO32 then
      || tracks / 255 < TWO16
      || (U16(tracks / 255) >= 1024 && (tracks / 1024 < TWO16 || tracks / 1024 - TWO16 > 128))
    else U16(tracks / 1024) > 128 && U16(tracks / 255) >= 1024
  }

  // The LBA branch, on the low word of the size. No sector of the logical disk lies beyond the real
  // one, however large that is, and the geometry is the one that is meant exactly for LbaExact disks.
  method TranslateLba(sectorsLow: nat, ghost sectors: nat) returns (g: Chs)
    requires sectorsLow == U32(sectors)
    ensures Capacity(g) <= sectors && 16 <= g.heads <= 255 && g.cylinders <= 1024
    ensures g == LbaIntended(sectors) <==> LbaExact(sectors)
    ensures g == LbaNarrowed(sectors)
  {
    hide LbaIntended, LbaExact, Capacity;
    var tracks := sectorsLow / 63;
    var heads := U16(tracks / 1024);
    if heads > 128 { heads := 255; }
    else if heads > 64 { heads := 128; }
    else if heads > 32 { heads := 64; }
    else if heads > 16 { heads := 32; }
    else { heads := 16; }
    var cylinders := U16(tracks / heads);
    if cylinders > 1024 { cylinders := 1024; }
    g := Chs(cylinders, heads, 63);
    LbaFits(sectors);
    LbaIntendedIff(sectors);
  }

  lemma LbaFits(sectors: nat)
    ensures var g := LbaNarrowed(sectors); Capacity(g) <= sectors && 16 <= g.heads <= 255 && g.cylinders <= 1024
  {
    hide HeadsFor;
    var low, g := U32(sectors), LbaNarrowed(sectors);
    var tracks := low / 63;
    assert g.cylinders <= tracks / g.heads;
    Product(tracks, g.heads, g.cylinders);
    assert low <= sectors && tracks * 63 <= low;
  }

  lemma Product(a: nat, b: nat, c: nat)
    requires b >= 1 && c <= a / b
    ensures c * b <= a
  {
    assert a == (a / b) * b + a % b;
    ProductGrows(c, a / b, b);
  }

  lemma LbaIntendedIff(sectors: nat)
    ensures LbaNarrowed(sectors) == LbaIntended(sectors) <==> LbaExact(sectors)
  {
    hide HeadsFor, U16;
    var low := U32(sectors) / 63;
    if sectors < TWO32 {
      assert low == sectors / 63;
      if low / 1024 < TWO16 {
        HeadsKept(low);
      } else {
        HeadsWrap(low);
        ManyTracks(low);
      }
    } else {
      ManyTracks(sectors / 63);
      ManyHeads(U16(low / 1024));
    }
  }

  // The 16-bit head count is right, and only the cylinders of a disk with 255 heads can wrap.
  lemma HeadsKept(tracks: nat)
    requires tracks / 1024 < TWO16
    ensures U16(tracks / 1024) == tracks / 1024
    ensures var h := HeadsFor(tracks / 1024);
            Min(1024, U16(tracks / h)) == Min(1024, tracks / h)
            <==> tracks / 255 < TWO16 || U16(tracks / 255) >= 1024
  {
    var h := HeadsFor(tracks / 1024);
    if h < 255 {
      assert tracks < 129 * 1024;
      assert tracks / 16 < TWO16;
      assert tracks / h <= tracks / 16;
    }
  }

  lemma HeadsWrap(tracks: nat)
    requires TWO16 <= tracks / 1024 && tracks <= TWO32 / 63
    ensures tracks / 255 >= TWO16
    ensures U16(tracks / 1024) == tracks / 1024 - TWO16
    ensures HeadsFor(U16(tracks / 1024)) == 255 <==> tracks / 1024 - TWO16 > 128
  {
    ManyHeads(tracks / 1024 - TWO16);
  }

  lemma ManyHeads(q: nat)
    ensures HeadsFor(q) == 255 <==> q > 128
  {
  }

  lemma ManyTracks(tracks: nat)
    requires tracks >= 1024 * TWO16
    ensures HeadsFor(tracks / 1024) == 255 && Min(1024, tracks / 255) == 1024
  {
  }

  // Every disk of less than 1,052,835,840 sectors is one of these. At that size the cylinders wrap and
  // the logical disk has none; further on the heads wrap too.
  lemma LbaExactBelow(sectors: nat)
    requires sectors < TWO16 * 255 * 63
    ensures LbaNarrowed(sectors) == LbaIntended(sectors)
  {
    LbaIntendedIff(sectors);
  }

  lemma CylindersWrapAt()
    ensures LbaNarrowed(1_052_835_840) == Chs(0, 255, 63) && LbaIntended(1_052_835_840) == Chs(1024, 255, 63)
  {
    hide HeadsFor;
    assert U32(1_052_835_840) == 1_052_835_840 && 1_052_835_840 / 63 == 16_711_680;
    assert 16_711_680 / 1024 == U16(16_711_680 / 1024) == 16_320;
    ManyHeads(16_320);
    assert 16_711_680 / 255 == 65_536 && U16(65_536) == 0;
  }

  lemma HeadsWrapAt()
    ensures LbaNarrowed(4_228_890_624) == Chs(1024, 16, 63) && LbaIntended(4_228_890_624) == Chs(1024, 255, 63)
  {
    hide HeadsFor;
    assert U32(4_228_890_624) == 4_228_890_624 && 4_228_890_624 / 63 == 67_125_248;
    assert 67_125_248 / 1024 == 65_552 && U16(65_552) == 16 && 67_125_248 / 255 >= 1024;
    ManyHeads(65_552);
    FewHeads(16);
    assert 67_125_248 / 16 == 4_195_328 && U16(4_195_328) == 1024;
  }

  lemma FewHeads(q: nat)
    requires q <= 16
    ensures HeadsFor(q) == 16
  {
  }

  // ---- LARGE and revised ECHS translation ----

  function Pow2(k: nat): (p: nat)
    ensures p >= 1
  {
    if k == 0 then 1 else 2 * Pow2(k - 1)
  }

  // The cylinders halved and the heads doubled, in 16 bits, `k` times.
  function Halves(from: Chs, k: nat): Chs {
    if k == 0 then from
    else
      var g := Halves(from, k - 1);
      Chs(g.cylinders / 2, U16(g.heads * 2), g.spt)
  }

  lemma {:induction false} HalvesIs(from: Chs, k: nat)
    requires from.heads < TWO16
    ensures var g := Halves(from, k);
            g.cylinders == from.cylinders / Pow2(k) && g.heads == U16(from.heads * Pow2(k)) && g.spt == from.spt
  {
    hide U16;
    if k == 0 {
      Fits16(from.heads);
    } else {
      HalvesIs(from, k - 1);
      var p := Pow2(k - 1);
      DivTwice(from.cylinders, p);
      DoubledProduct(from.heads, p);
      NarrowTwice(from.heads * p);
    }
  }

  lemma Fits16(x: nat)
    requires x < TWO16
    ensures U16(x) == x
  {
  }

  // `g` is `from` after `k` halvings, no more than needed to get to 1024 cylinders or over 127 heads.
  ghost predicate Halved(from: Chs, g: Chs, k: nat) {
    && g == Halves(from, k) && (k > 0 ==> Halves(from, k - 1).cylinders > 1024)
    && forall j: nat :: 0 < j < k ==> Halves(from, j).heads <= 127
  }

  method HalveCylinders(from: Chs) returns (g: Chs, ghost k: nat)
    requires from.heads < TWO16
    ensures Halved(from, g, k) && (g.cylinders <= 1024 || (k > 0 && g.heads > 127))
    ensures g == Halves(from, k) && (k > 0 ==> Halves(from, k - 1).cylinders > 1024)
    ensures forall j: nat :: 0 < j < k ==> Halves(from, j).heads <= 127
    ensures g.spt == from.spt && (from.heads <= 127 ==> g.heads <= 254)
    ensures g.cylinders * g.heads <= from.cylinders * from.heads
  {
    hide Halved;
    g, k := from, 0;
    NotHalved(from);
    while g.cylinders > 1024
      invariant Halved(from, g, k) && g.spt == from.spt && g.heads < TWO16 && (k > 0 || from.heads <= 127 ==> g.heads <= 127)
      invariant g.cylinders * g.heads <= from.cylinders * from.heads
      decreases g.cylinders
    {
      HalvedMeans(from, g, k);
      HalvedOnceMore(from, g, k);
      g := g.(cylinders := g.cylinders / 2, heads := U16(g.heads * 2));
      k := k + 1;
      if g.heads > 127 { break; }
    }
    HalvedMeans(from, g, k);
  }

  lemma HalvedMeans(from: Chs, g: Chs, k: nat)
    requires Halved(from, g, k)
    ensures g == Halves(from, k) && (k > 0 ==> Halves(from, k - 1).cylinders > 1024)
    ensures forall j: nat :: 0 < j < k ==> Halves(from, j).heads <= 127
  {
  }

  lemma NotHalved(g: Chs)
    requires g.heads < TWO16
    ensures Halved(g, g, 0)
  {
  }

  lemma HalvedOnceMore(from: Chs, g: Chs, k: nat)
    requires Halved(from, g, k) && g.cylinders > 1024 && (k > 0 ==> g.heads <= 127)
    ensures Halved(from, Chs(g.cylinders / 2, U16(g.heads * 2), g.spt), k + 1)
    ensures (g.cylinders / 2) * U16(g.heads * 2) <= g.cylinders * g.heads
  {
    hide U16;
    HalfDouble(g.cylinders, g.heads);
    NarrowSmaller(g.heads * 2);
    ProductGrows(U16(g.heads * 2), g.heads * 2, g.cylinders / 2);
  }

  lemma NarrowTwice(x: nat)
    ensures U16(U16(x) * 2) == U16(x * 2)
  {
    var q := x / TWO16;
    assert x * 2 == U16(x) * 2 + 2 * q * TWO16;
    NarrowMultiple(U16(x) * 2, 2 * q);
  }

  lemma NarrowSmaller(x: nat)
    ensures U16(x) <= x
  {
  }

  lemma NarrowMultiple(a: nat, k: nat)
    ensures U16(a + k * TWO16) == U16(a)
  {
  }

  lemma DoubledProduct(h: nat, p: nat)
    ensures h * p * 2 == h * (2 * p)
  {
  }

  lemma HalfDouble(c: nat, h: nat)
    ensures (c / 2) * (2 * h) <= c * h
  {
  }

  lemma DivTwice(a: nat, d: nat)
    requires d >= 1
    ensures a / d / 2 == a / (2 * d)
  {
    var q := a / d;
    assert a == q * d + a % d;
    var r := q % 2 * d + a % d;
    assert a == (q / 2) * (2 * d) + r;
    DivUnique(a, 2 * d, q / 2, r);
  }

  // Sixteen physical heads become fifteen, and the cylinders as many as that allows, in 16 bits thanks to
  // their clip. Other head counts are left alone.
  method ReviseHeads(from: Chs) returns (g: Chs)
    requires from.cylinders < TWO16
    ensures g == Revised(from)
    ensures from.heads == 16 ==>
              && g.heads == 15 && g.spt == from.spt
              && g.cylinders * 15 <= Min(from.cylinders, 61439) * 16 < (g.cylinders + 1) * 15
    ensures from.heads != 16 ==> g == from
    ensures g.cylinders * g.heads <= from.cylinders * from.heads && g.cylinders < TWO16
  {
    g := from;
    if g.heads == 16 {
      if g.cylinders > 61439 { g := g.(cylinders := 61439); }
      g := g.(heads := 15);
      g := g.(cylinders := U16(U32(g.cylinders * 16) / 15));
    }
  }

  // No larger clip would do.
  lemma ClipIsTight(cylinders: nat)
    ensures cylinders * 16 / 15 < TWO16 <==> cylinders <= 61439
  {
  }

  function Clipped(g: Chs): (r: Chs)
    ensures r.heads == g.heads && r.spt == g.spt
    ensures if g.cylinders <= 1024 then r == g else r.cylinders == 1024
  {
    g.(cylinders := Min(1024, g.cylinders))
  }

  ghost predicate FullyHalved(from: Chs, g: Chs) {
    exists k: nat :: Halved(from, g, k) && (g.cylinders <= 1024 || (k > 0 && g.heads > 127))
  }

  lemma {:induction false} HalvesShrink(from: Chs, k: nat, m: nat)
    requires k <= m
    ensures Halves(from, m).cylinders <= Halves(from, k).cylinders
    decreases m
  {
    if k < m {
      HalvesShrink(from, k, m - 1);
    }
  }

  lemma FullyHalvedMeans(from: Chs, g: Chs) returns (k: nat)
    requires FullyHalved(from, g)
    ensures g == Halves(from, k) && (g.cylinders <= 1024 || (k > 0 && g.heads > 127))
    ensures k > 0 ==> Halves(from, k - 1).cylinders > 1024
    ensures forall j: nat :: 0 < j < k ==> Halves(from, j).heads <= 127
  {
    k :| Halved(from, g, k) && (g.cylinders <= 1024 || (k > 0 && g.heads > 127));
    HalvedMeans(from, g, k);
  }

  // There is only one way to have been halved as often as needed.
  lemma FullyHalvedIsUnique(from: Chs, g: Chs, h: Chs)
    requires FullyHalved(from, g) && FullyHalved(from, h)
    ensures g == h
  {
    hide Halves;
    var k: nat :| Halved(from, g, k) && (g.cylinders <= 1024 || (k > 0 && g.heads > 127));
    var m: nat :| Halved(from, h, m) && (h.cylinders <= 1024 || (m > 0 && h.heads > 127));
    if k < m {
      HalvesShrink(from, k, m - 1);
    } else if m < k {
      HalvesShrink(from, m, k - 1);
    }
  }

  function Revised(g: Chs): Chs {
    if g.heads == 16 then Chs(Min(g.cylinders, 61439) * 16 / 15, 15, g.spt) else g
  }

  // The whole translation.
  method Translate(t: Translation, physical: Chs, sectorsLow: nat, ghost sectors: nat) returns (g: Chs)
    requires physical.cylinders < TWO16 && physical.heads < TWO16 && sectorsLow == U32(sectors)
    ensures g.cylinders <= 1024 && (t == Lba || physical.heads <= 127 ==> g.heads <= 255)
    ensures t == Lba ==> Capacity(g) <= sectors
    ensures t != Lba ==> Capacity(g) <= Capacity(physical) && g.spt == physical.spt
    ensures t == NoTranslation ==> g == Clipped(physical)
    ensures t == Lba ==> (g == LbaIntended(sectors) <==> LbaExact(sectors))
    ensures t == Large ==> exists h :: FullyHalved(physical, h) && g == Clipped(h)
    ensures t == RevisedEchs ==> exists h :: FullyHalved(Revised(physical), h) && g == Clipped(h)
  {
    hide LbaIntended, LbaExact, LbaNarrowed, Halved;
    g := physical;
    match t {
      case NoTranslation =>
      case Lba =>
        g := TranslateLba(sectorsLow, sectors);
      case Large =>
        ghost var k;
        g, k := HalveCylinders(physical);
        assert FullyHalved(physical, g);
      case RevisedEchs =>
        ghost var k;
        g := ReviseHeads(physical);
        g, k := HalveCylinders(g);
        assert FullyHalved(Revised(physical), g);
    }
    ghost var h := g;
    if t != Lba {
      Scaled(g, physical);
    }
    if g.cylinders > 1024 {
      Scaled(g.(cylinders := 1024), g);
      g := g.(cylinders := 1024);
    }
    assert g == Clipped(h);
  }

  lemma Scaled(g: Chs, h: Chs)
    requires g.spt == h.spt && (g.cylinders * g.heads <= h.cylinders * h.heads
                                || (g.cylinders <= h.cylinders && g.heads == h.heads))
    ensures Capacity(g) <= Capacity(h)
  {
  }

  // ---- Addresses ----

  // A sector address as function 02h sees it; sectors count from 1.
  datatype Address = Address(cylinder: nat, head: nat, sector: nat)

  // The check that function 02h makes before it reads.
  predicate Accepted(a: Address, g: Chs) {
    a.sector != 0 && a.cylinder < g.cylinders && a.head < g.heads && a.sector <= g.spt
  }

  // The logical block address it computes, in 32 bits.
  function BlockOf(a: Address, g: Chs): nat {
    U32(U32(U32(U32(a.cylinder * g.heads) + a.head) * g.spt) + a.sector - 1)
  }

  // The address of a block, by division.
  function AddressOf(block: nat, g: Chs): Address
    requires g.heads >= 1 && g.spt >= 1
  {
    Address(block / g.spt / g.heads, block / g.spt % g.heads, block % g.spt + 1)
  }

  lemma Digits(i: nat, j: nat, m: nat, n: nat)
    requires i < m && j < n
    ensures i * n + j < m * n && (i * n + j) / n == i && (i * n + j) % n == j
  {
    assert (i + 1) * n <= m * n;
    DivUnique(i * n + j, n, i, j);
  }

  lemma Exact(a: Address, g: Chs)
    requires Accepted(a, g) && Capacity(g) <= TWO32
    ensures BlockOf(a, g) == (a.cylinder * g.heads + a.head) * g.spt + (a.sector - 1) < Capacity(g)
    ensures a.cylinder * g.heads + a.head < g.cylinders * g.heads
  {
    hide U32;
    var track := a.cylinder * g.heads + a.head;
    Digits(a.cylinder, a.head, g.cylinders, g.heads);
    Digits(track, a.sector - 1, g.cylinders * g.heads, g.spt);
    assert track <= track * g.spt;
    Fits32(a.cylinder * g.heads);
    Fits32(track);
    Fits32(track * g.spt);
    Fits32(track * g.spt + a.sector - 1);
  }

  // Function 02h maps the addresses it accepts into the logical disk, and division gives the
  // address back: no two addresses share a block.
  lemma AddressRecovered(a: Address, g: Chs)
    requires Accepted(a, g) && Capacity(g) <= TWO32
    ensures BlockOf(a, g) < Capacity(g) && AddressOf(BlockOf(a, g), g) == a
  {
    Exact(a, g);
    Digits(a.cylinder, a.head, g.cylinders, g.heads);
    Digits(a.cylinder * g.heads + a.head, a.sector - 1, g.cylinders * g.heads, g.spt);
  }

  // And every block of the logical disk is reached.
  lemma BlockReached(block: nat, g: Chs)
    requires block < Capacity(g) <= TWO32
    ensures g.heads >= 1 && g.spt >= 1 && Accepted(AddressOf(block, g), g)
    ensures BlockOf(AddressOf(block, g), g) == block
  {
    hide BlockOf;
    assert g.heads >= 1 && g.spt >= 1;
    var track := block / g.spt;
    Quotient(block, g.cylinders * g.heads, g.spt);
    Quotient(track, g.cylinders, g.heads);
    Exact(AddressOf(block, g), g);
  }

  lemma Quotient(a: nat, m: nat, n: nat)
    requires a < m * n && n >= 1
    ensures a / n < m && a == a / n * n + a % n
  {
    var q := a / n;
    assert a == q * n + a % n;
    assert q >= m ==> q * n >= m * n;
  }

  // ---- Register packing ----

  // CH and CL as function 08h sets them, and the cylinder and sector that function 02h reads.
  function PackCh(cylinder: bv16): bv8 { (cylinder & 0xff) as bv8 }
  function PackCl(cylinder: bv16, spt: bv16): bv8 { (((cylinder >> 2) & 0xc0) | (spt & 0x3f)) as bv8 }
  function UnpackCylinder(ch: bv8, cl: bv8): bv16 { (ch as bv16) | (((cl as bv16) << 2) & 0x300) }
  function UnpackSector(cl: bv8): bv16 { (cl & 0x3f) as bv16 }

  // Ten bits of cylinder and six of sector survive, and no more.
  lemma PackingRoundTrip(cylinder: bv16, spt: bv16)
    ensures UnpackCylinder(PackCh(cylinder), PackCl(cylinder, spt)) == cylinder & 0x3ff
    ensures UnpackSector(PackCl(cylinder, spt)) == spt & 0x3f
    ensures UnpackCylinder(PackCh(cylinder), PackCl(cylinder, spt)) == cylinder <==> cylinder < 1024
    ensures UnpackSector(PackCl(cylinder, spt)) == spt <==> spt < 64
  {
  }

  lemma Unpacked(last: bv16, spt: bv16)
    requires last as nat < 1024 && spt as nat < 64
    ensures UnpackCylinder(PackCh(last), PackCl(last, spt)) == last && UnpackSector(PackCl(last, spt)) == spt
  {
  }

  lemma LastBlock(g: Chs)
    requires 1 <= g.cylinders <= 1024 && 1 <= g.heads <= 256 && 1 <= g.spt < 64
    ensures var a := Address(g.cylinders - 1, g.heads - 1, g.spt);
            Accepted(a, g) && BlockOf(a, g) == Capacity(g) - 1
  {
    hide BlockOf;
    var a, tracks := Address(g.cylinders - 1, g.heads - 1, g.spt), g.cylinders * g.heads;
    ProductGrows(g.cylinders, 1024, g.heads);
    ProductGrows(g.heads, 256, 1024);
    ProductGrows(tracks, 1024 * 256, g.spt);
    ProductGrows(g.spt, 64, 1024 * 256);
    Exact(a, g);
    assert (g.cylinders - 1) * g.heads == tracks - g.heads;
    assert (tracks - 1) * g.spt == tracks * g.spt - g.spt;
  }

  // The registers that function 08h returns, read back by function 02h, address the last sector of
  // the logical disk.
  lemma ReportedIsLast(g: Chs, last: bv16, spt: bv16, a: Address)
    requires 1 <= g.cylinders <= 1024 && 1 <= g.heads <= 256 && 1 <= g.spt < 64
    requires last as nat == g.cylinders - 1 && spt as nat == g.spt
    requires a == Address(UnpackCylinder(PackCh(last), PackCl(last, spt)) as nat, g.heads - 1,
                          UnpackSector(PackCl(last, spt)) as nat)
    ensures Accepted(a, g) && BlockOf(a, g) == Capacity(g) - 1
  {
    Unpacked(last, spt);
    LastBlock(g);
  }
}
