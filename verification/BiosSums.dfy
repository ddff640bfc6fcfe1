// The checksum fixer for BIOS images (bochs/bios/biossums.c): it looks for five kinds of headers on
// 16-byte boundaries, sets the checksum of each kind that occurs once, and then that of the image.
module BiosSums {
  import opened Machine

  const LEN_BIOS_DATA := 0x1_0000
  const MAX_OFFSET := 0xFFFF

  type Image = d: seq<Byte> | |d| == LEN_BIOS_DATA witness seq(LEN_BIOS_DATA, _ => 0)

  // PCI BIOS, MP floating pointer and MP configuration (section 4.1 of the MultiProcessor
  // Specification 1.4), PCI interrupt routing, and plug and play.
  datatype Kind = Pci32 | Mp | Pcmp | Pir | Pnp

  // The four bytes a header starts with: "_32_", "_MP_", "PCMP", "$PIR" and "$PnP".
  function Signature(k: Kind): (s: seq<Byte>)
    ensures |s| == 4
  {
    match k
    case Pci32 => [0x5F, 0x33, 0x32, 0x5F]
    case Mp => [0x5F, 0x4D, 0x50, 0x5F]
    case Pcmp => [0x50, 0x43, 0x4D, 0x50]
    case Pir => [0x24, 0x50, 0x49, 0x52]
    case Pnp => [0x24, 0x50, 0x6E, 0x50]
  }

  function MinHeader(k: Kind): nat {
    match k
    case Pci32 => 16
    case Mp => 16
    case Pcmp => 42
    case Pir => 32
    case Pnp => 32
  }

  // Where in a header its checksum is.
  function ChecksumAt(k: Kind): nat {
    match k
    case Pci32 => 10
    case Mp => 10
    case Pcmp => 7
    case Pir => 31
    case Pnp => 8
  }

  // The places a header can be found at.
  predicate OnGrid(o: int) {
    16 <= o <= MAX_OFFSET - 15 && o % 16 == 0
  }

  predicate HeaderAt(k: Kind, d: Image, o: int)
    requires OnGrid(o)
  {
    d[o..o + 4] == Signature(k)
  }

  // The header length as the header itself gives it.
  function Length(k: Kind, d: Image, o: int): nat
    requires OnGrid(o)
  {
    match k
    case Pci32 => 16 * d[o + 9]
    case Mp => 16 * d[o + 8]
    case Pcmp => (d[o + 4] as int) + 256 * (d[o + 5] as int)
    case Pir => (d[o + 6] as int) + 256 * (d[o + 7] as int)
    case Pnp => d[o + 5]
  }

  function Text(s: string): seq<int> {
    seq(|s|, i requires 0 <= i < |s| => s[i] as int)
  }

  // The five formats by number.
  lemma Formats(d: Image, o: int)
    requires OnGrid(o)
    ensures Signature(Pci32) == Text("_32_") && Signature(Mp) == Text("_MP_") && Signature(Pcmp) == Text("PCMP")
    ensures Signature(Pir) == Text("$PIR") && Signature(Pnp) == Text("$PnP")
    ensures ChecksumAt(Pci32) == ChecksumAt(Mp) == 10 && ChecksumAt(Pcmp) == 7
    ensures ChecksumAt(Pir) == 31 && ChecksumAt(Pnp) == 8
    ensures MinHeader(Pci32) == MinHeader(Mp) == 16 && MinHeader(Pcmp) == 42 && MinHeader(Pir) == MinHeader(Pnp) == 32
    ensures Length(Pci32, d, o) == 16 * (d[o + 9] as int) && Length(Mp, d, o) == 16 * (d[o + 8] as int)
    ensures Length(Pnp, d, o) == d[o + 5]
    ensures Length(Pcmp, d, o) == (d[o + 4] as int) + 256 * (d[o + 5] as int)
    ensures Length(Pir, d, o) == (d[o + 6] as int) + 256 * (d[o + 7] as int)
  {
  }

  // The checks that end the program when they fail: a header lies within the image, and a PCMP header
  // has no extended tables.
  predicate InBounds(k: Kind, d: Image, o: int)
    requires OnGrid(o)
  {
    o + MinHeader(k) <= MAX_OFFSET && o + Length(k, d, o) <= MAX_OFFSET
  }

  predicate Acceptable(k: Kind, d: Image, o: int)
    requires OnGrid(o)
  {
    InBounds(k, d, o) && (k == Pcmp ==> d[o + 40] == 0 && d[o + 41] == 0 && d[o + 42] == 0)
  }

  // ---- Sums ----

  function Sum(s: seq<Byte>): nat
    decreases |s|
  {
    if s == [] then 0 else Sum(s[..|s| - 1]) + s[|s| - 1]
  }

  lemma {:induction false} SumAppend(a: seq<Byte>, b: seq<Byte>)
    ensures Sum(a + b) == Sum(a) + Sum(b)
    decreases |b|
  {
    if b == [] {
      assert a + b == a;
    } else {
      assert (a + b)[..|a + b| - 1] == a + b[..|b| - 1];
      SumAppend(a, b[..|b| - 1]);
    }
  }

  lemma SumWithout(s: seq<Byte>, i: nat)
    requires i < |s|
    ensures Sum(s) == Sum(s[..i]) + s[i] + Sum(s[i + 1..])
  {
    assert s == s[..i] + ([s[i]] + s[i + 1..]);
    SumAppend(s[..i], [s[i]] + s[i + 1..]);
    SumAppend([s[i]], s[i + 1..]);
    assert [s[i]][..0] == [];
  }

  // The sum over a stretch of the image, with one place left out.
  function SumExcept(d: Image, o: nat, len: nat, skip: nat): nat
    requires o + len <= |d|
    decreases len
  {
    if len == 0 then 0
    else SumExcept(d, o, len - 1, skip) + (if len - 1 == skip then 0 else d[o + len - 1] as int)
  }

  lemma {:induction false} SumExceptIs(d: Image, o: nat, len: nat, skip: nat)
    requires o + len <= |d|
    ensures SumExcept(d, o, len, skip) + (if skip < len then d[o + skip] else 0) == Sum(d[o..o + len])
    decreases len
  {
    if len > 0 {
      assert d[o..o + len][..len - 1] == d[o..o + len - 1];
      SumExceptIs(d, o, len - 1, skip);
    }
  }

  // The checksum value that makes a stretch add up to zero modulo 256.
  function Balance(sum: nat): (v: Byte)
    ensures (sum + v) % 256 == 0
  {
    if sum % 256 == 0 then 0 else 256 - sum % 256
  }

  lemma SumExceptStarts(d: Image, o: nat, skip: nat)
    requires o <= |d|
    ensures SumExcept(d, o, 0, skip) == 0
  {
  }

  lemma SumExceptStep(d: Image, o: nat, len: nat, skip: nat)
    requires o + len < |d|
    ensures SumExcept(d, o, len + 1, skip) == SumExcept(d, o, len, skip) + (if len == skip then 0 else d[o + len] as int)
  {
  }

  // The two's complement of a byte-wide sum is the balancing value.
  lemma NegationBalances(sum: nat, low: Byte, v: Byte)
    requires low == sum % 256 && v == (256 - low) % 256
    ensures v == Balance(sum)
  {
  }

  lemma SumModulo(a: nat, b: nat)
    ensures (a % 256 + b) % 256 == (a + b) % 256
  {
  }

  function NewChecksum(k: Kind, d: Image, o: int): Byte
    requires OnGrid(o) && Acceptable(k, d, o)
  {
    Balance(SumExcept(d, o, Length(k, d, o), ChecksumAt(k)))
  }

  // ---- One pass ----

  ghost predicate Only(k: Kind, d: Image, o: int) {
    OnGrid(o) && HeaderAt(k, d, o) && forall p :: OnGrid(p) && HeaderAt(k, d, p) ==> p == o
  }

  // All the headers of a kind pass the checks.
  ghost predicate AllAcceptable(k: Kind, d: Image) {
    forall o :: OnGrid(o) && HeaderAt(k, d, o) ==> Acceptable(k, d, o)
  }

  // The image after a pass.
  ghost predicate Passed(k: Kind, d: Image, r: Image) {
    && AllAcceptable(k, d)
    && (forall o :: Only(k, d, o) ==> Acceptable(k, d, o) && r == d[o + ChecksumAt(k) := NewChecksum(k, d, o)])
    && ((forall o :: !Only(k, d, o)) ==> r == d)
  }

  // A header whose checksum lies inside it adds up to zero after its pass.
  lemma PassBalances(k: Kind, d: Image, r: Image, o: int)
    requires Passed(k, d, r) && Only(k, d, o) && ChecksumAt(k) < Length(k, d, o)
    ensures Sum(r[o..o + Length(k, d, o)]) % 256 == 0
  {
    hide Sum, SumExcept, Length, HeaderAt;
    Balanced(d, o, Length(k, d, o), ChecksumAt(k));
  }

  lemma Balanced(d: Image, o: nat, len: nat, c: nat)
    requires o + len <= |d| && c < len
    ensures var r := d[o + c := Balance(SumExcept(d, o, len, c))];
            Sum(r[o..o + len]) % 256 == 0
  {
    hide Sum, SumExcept, Balance;
    var v := Balance(SumExcept(d, o, len, c));
    var r := d[o + c := v];
    var a, b := d[o..o + len], r[o..o + len];
    SumExceptIs(d, o, len, c);
    SumWithout(a, c);
    SumWithout(b, c);
    assert b[..c] == a[..c] && b[c + 1..] == a[c + 1..];
  }

  // Where a pass writes: never on a signature, on a length field or on the last byte of the image.
  lemma PassTouches(k: Kind, d: Image, r: Image, i: int)
    requires Passed(k, d, r) && 0 <= i < |d| && r[i] != d[i]
    ensures exists o :: Only(k, d, o) && i == o + ChecksumAt(k) && i < MAX_OFFSET
  {
  }

  lemma PassKeepsHeaders(k: Kind, d: Image, r: Image, j: Kind, o: int)
    requires Passed(k, d, r) && OnGrid(o)
    ensures HeaderAt(j, r, o) == HeaderAt(j, d, o)
  {
    forall i | o <= i < o + 4 ensures r[i] == d[i] {
      if r[i] != d[i] {
        PassTouches(k, d, r, i);
        var p :| Only(k, d, p) && i == p + ChecksumAt(k);
        assert false by { GridWrites(k, p, o, i); }
      }
    }
    assert r[o..o + 4] == d[o..o + 4];
  }

  lemma GridWrites(k: Kind, p: int, o: int, i: int)
    requires OnGrid(p) && OnGrid(o) && i == p + ChecksumAt(k)
    ensures i < o || i >= o + 7
    ensures o + 7 <= i < o + 10 ==> p == o && (k == Pcmp || k == Pnp)
  {
  }

  lemma PassKeepsLength(k: Kind, d: Image, r: Image, j: Kind, o: int)
    requires Passed(k, d, r) && OnGrid(o) && HeaderAt(j, d, o)
    ensures Length(j, r, o) == Length(j, d, o)
  {
    forall i | o <= i < o + 10 && r[i] != d[i]
      ensures (i == o + 7 && k == j == Pcmp) || (i == o + 8 && k == j == Pnp)
    {
      PassTouches(k, d, r, i);
      var p :| Only(k, d, p) && i == p + ChecksumAt(k);
      GridWrites(k, p, o, i);
      assert Signature(k) == Signature(j);
      SignaturesDiffer(k, j);
    }
  }

  lemma SignaturesDiffer(k: Kind, j: Kind)
    requires Signature(k) == Signature(j)
    ensures k == j
  {
  }

  // ---- All the passes ----

  // Two images with the same headers of the same lengths.
  ghost predicate SameHeaders(a: Image, b: Image) {
    && (forall k, o :: OnGrid(o) ==> HeaderAt(k, a, o) == HeaderAt(k, b, o))
    && (forall k, o :: OnGrid(o) && HeaderAt(k, a, o) ==> Length(k, a, o) == Length(k, b, o))
  }

  lemma PassKeepsAllHeaders(k: Kind, a: Image, d: Image, r: Image)
    requires Passed(k, d, r) && SameHeaders(a, d)
    ensures SameHeaders(a, r)
  {
    forall j, o | OnGrid(o) ensures HeaderAt(j, a, o) == HeaderAt(j, r, o) {
      PassKeepsHeaders(k, d, r, j, o);
    }
    forall j, o | OnGrid(o) && HeaderAt(j, a, o) ensures Length(j, a, o) == Length(j, r, o) {
      PassKeepsLength(k, d, r, j, o);
    }
  }

  // Writing the checksum of none of the kinds `ks` reaches the stretch of `len` bytes at `o`.
  ghost predicate Clear(d: Image, ks: seq<Kind>, o: int, len: nat) {
    forall k, p :: k in ks && Only(k, d, p) ==> !(o <= p + ChecksumAt(k) < o + len)
  }

  lemma PassKeepsOthers(k: Kind, a: Image, d: Image, r: Image, ks: seq<Kind>, o: int, len: nat)
    requires Passed(k, d, r) && SameHeaders(a, d) && k in ks && Clear(a, ks, o, len) && 0 <= o <= o + len <= |d|
    ensures r[o..o + len] == d[o..o + len]
  {
    forall i | o <= i < o + len ensures r[i] == d[i] {
      if r[i] != d[i] {
        PassTouches(k, d, r, i);
        var p :| Only(k, d, p) && i == p + ChecksumAt(k);
        assert Only(k, a, p);
      }
    }
  }

  // The images between the passes for the kinds `ks`.
  ghost predicate Chain(ks: seq<Kind>, ds: seq<Image>) {
    |ds| == |ks| + 1 && forall i :: 0 <= i < |ks| ==> Passed(ks[i], ds[i], ds[i + 1])
  }

  lemma {:induction false} ChainKeepsHeaders(ks: seq<Kind>, ds: seq<Image>, i: nat)
    requires Chain(ks, ds) && i < |ds|
    ensures SameHeaders(ds[0], ds[i])
  {
    if i > 0 {
      ChainKeepsHeaders(ks, ds, i - 1);
      PassKeepsAllHeaders(ks[i - 1], ds[0], ds[i - 1], ds[i]);
    }
  }

  // What differs after some of the passes is the checksum of a header that is the only one of its kind.
  lemma {:induction false} ChainTouches(ks: seq<Kind>, ds: seq<Image>, n: nat, i: int)
    requires Chain(ks, ds) && n < |ds| && 0 <= i < LEN_BIOS_DATA && ds[n][i] != ds[0][i]
    ensures exists k, o :: k in ks && Only(k, ds[0], o) && i == o + ChecksumAt(k)
    decreases n
  {
    hide Passed, HeaderAt, Length, ChecksumAt;
    if ds[n - 1][i] != ds[0][i] {
      ChainTouches(ks, ds, n - 1, i);
    } else {
      PassTouches(ks[n - 1], ds[n - 1], ds[n], i);
      ChainKeepsHeaders(ks, ds, n - 1);
      var o :| Only(ks[n - 1], ds[n - 1], o) && i == o + ChecksumAt(ks[n - 1]);
      assert Only(ks[n - 1], ds[0], o);
    }
  }

  lemma OnlyKept(j: Kind, a: Image, d: Image, r: Image, o: int)
    requires SameHeaders(a, d) && Only(j, a, o) && Passed(j, d, r)
    ensures OnGrid(o) && Only(j, d, o) && Length(j, d, o) == Length(j, a, o) && o + Length(j, a, o) <= MAX_OFFSET
  {
  }

  // After all the passes every header that is the only one of its kind adds up to zero, if its
  // checksum lies inside it and that of no kind passed later does.
  lemma {:induction false} ChainBalances(ks: seq<Kind>, ds: seq<Image>, t: nat, n: nat, o: int)
    requires Chain(ks, ds) && t < n <= |ks|
    requires Only(ks[t], ds[0], o) && ChecksumAt(ks[t]) < Length(ks[t], ds[0], o)
    requires Clear(ds[0], ks[t + 1..], o, Length(ks[t], ds[0], o))
    ensures o + Length(ks[t], ds[0], o) <= MAX_OFFSET
    ensures Sum(ds[n][o..o + Length(ks[t], ds[0], o)]) % 256 == 0
    decreases n
  {
    hide Passed, HeaderAt, Length, SameHeaders, Clear;
    var j, len := ks[t], Length(ks[t], ds[0], o);
    ChainKeepsHeaders(ks, ds, t);
    OnlyKept(j, ds[0], ds[t], ds[t + 1], o);
    if n == t + 1 {
      PassBalances(j, ds[t], ds[n], o);
    } else {
      ChainBalances(ks, ds, t, n - 1, o);
      ChainKeepsHeaders(ks, ds, n - 1);
      assert ks[n - 1] == ks[t + 1..][n - t - 2];
      PassKeepsOthers(ks[n - 1], ds[0], ds[n - 1], ds[n], ks[t + 1..], o, len);
    }
  }

  // ---- The program ----

  function RoundUp(offset: nat): nat {
    offset + 15 - (offset + 15) % 16
  }

  lemma HeaderIs(k: Kind, d: Image, o: int, s: seq<Byte>)
    requires OnGrid(o) && s == d[o..o + 4]
    ensures HeaderAt(k, d, o) <==> s == Signature(k)
  {
  }

  // The next header behind the 16-byte boundary at or after `offset`, or -1.
  method GetOffset(k: Kind, data: array<Byte>, offset: nat) returns (o: int)
    requires data.Length == LEN_BIOS_DATA
    ensures o == -1 || (OnGrid(o) && o > RoundUp(offset) && HeaderAt(k, data[..], o))
    ensures forall p :: OnGrid(p) && p > RoundUp(offset) && (o == -1 || p < o) ==> !HeaderAt(k, data[..], p)
  {
    hide Signature, HeaderAt;
    var start := RoundUp(offset);
    var at := start;
    while at + 16 < MAX_OFFSET
      invariant at >= start && at % 16 == 0
      invariant forall p :: OnGrid(p) && start < p <= at ==> !HeaderAt(k, data[..], p)
    {
      at := at + 16;
      HeaderIs(k, data[..], at, data[at..at + 4]);
      if data[at..at + 4] == Signature(k) {
        return at;
      }
    }
    return -1;
  }

  method CalcValue(k: Kind, data: array<Byte>, o: nat) returns (ok: bool, v: Byte)
    requires data.Length == LEN_BIOS_DATA && OnGrid(o)
    ensures ok == Acceptable(k, data[..], o)
    ensures ok ==> v == NewChecksum(k, data[..], o)
  {
    hide SumExcept, Balance;
    v := 0;
    if o + MinHeader(k) > MAX_OFFSET {
      return false, 0;
    }
    var len := Length(k, data[..], o);
    if o + len > MAX_OFFSET {
      return false, 0;
    }
    if k == Pcmp && (data[o + 40] != 0 || data[o + 41] != 0 || data[o + 42] != 0) {
      return false, 0;
    }
    v := NegatedSum(data, o, len, ChecksumAt(k));
    return true, v;
  }

  method NegatedSum(data: array<Byte>, o: nat, len: nat, skip: nat) returns (v: Byte)
    requires data.Length == LEN_BIOS_DATA && o + len <= LEN_BIOS_DATA
    ensures v == Balance(SumExcept(data[..], o, len, skip))
  {
    hide SumExcept, Balance;
    var sum: Byte := 0;
    SumExceptStarts(data[..], o, skip);
    for i := 0 to len
      invariant sum == SumExcept(data[..], o, i, skip) % 256
    {
      SumExceptStep(data[..], o, i, skip);
      if i != skip {
        SumModulo(SumExcept(data[..], o, i, skip), data[o + i]);
        sum := (sum + data[o + i]) % 256;
      }
    }
    v := (256 - (sum as int)) % 256;
    NegationBalances(SumExcept(data[..], o, len, skip), sum, v);
  }

  // The loop of a pass over the headers of a kind; false when a check fails.
  method ScanHeaders(k: Kind, data: array<Byte>) returns (ok: bool, hits: nat, offset: nat, value: Byte)
    requires data.Length == LEN_BIOS_DATA
    ensures ok == AllAcceptable(k, data[..])
    ensures ok && hits == 1 ==> && Only(k, data[..], offset) && Acceptable(k, data[..], offset)
                                && value == NewChecksum(k, data[..], offset)
    ensures ok && hits != 1 ==> forall o :: !Only(k, data[..], o)
  {
    hide HeaderAt, Acceptable, NewChecksum, Scanned;
    ghost var d: Image := data[..];
    hits, offset, value := 0, 0, 0;
    ScanStarts(k, d);
    var next := GetOffset(k, data, 0);
    while next != -1
      invariant RoundUp(offset) == offset
      invariant next == -1 || (OnGrid(next) && HeaderAt(k, d, next) && next > offset)
      invariant forall p :: OnGrid(p) && p > offset && (next == -1 || p < next) ==> !HeaderAt(k, d, p)
      invariant Scanned(k, d, offset, hits)
      invariant hits >= 1 ==> OnGrid(offset) && Acceptable(k, d, offset) && value == NewChecksum(k, d, offset)
      decreases if next == -1 then 0 else LEN_BIOS_DATA - offset
    {
      ok, value := CalcValue(k, data, next);
      if !ok {
        return;
      }
      ScanStep(k, d, offset, hits, next);
      offset := next;
      hits := hits + 1;
      next := GetOffset(k, data, offset);
    }
    ScanEnds(k, d, offset, hits);
    ok := true;
  }

  // One pass of the program; false when a check fails.
  method Pass(k: Kind, data: array<Byte>) returns (ok: bool)
    requires data.Length == LEN_BIOS_DATA
    modifies data
    ensures ok == AllAcceptable(k, old(data[..]))
    ensures ok ==> Passed(k, old(data[..]), data[..])
  {
    hide HeaderAt, Acceptable, NewChecksum;
    ghost var d: Image := data[..];
    var hits, offset, value;
    ok, hits, offset, value := ScanHeaders(k, data);
    if ok && hits == 1 {
      ChecksumInside(k, d, offset);
      if data[offset + ChecksumAt(k)] != value {
        data[offset + ChecksumAt(k)] := value;
      }
      assert data[..] == d[offset + ChecksumAt(k) := value];
    }
  }

  // What the loop of a pass knows when it has seen `hits` headers, the last one at `offset`.
  ghost predicate Scanned(k: Kind, d: Image, offset: int, hits: int) {
    && (forall p :: OnGrid(p) && p <= offset && HeaderAt(k, d, p) ==> Acceptable(k, d, p))
    && (hits == 0 ==> offset == 0)
    && (hits >= 1 ==> OnGrid(offset) && HeaderAt(k, d, offset))
    && (hits == 1 ==> forall p :: OnGrid(p) && p <= offset && HeaderAt(k, d, p) ==> p == offset)
    && (hits >= 2 ==> exists p :: OnGrid(p) && p < offset && HeaderAt(k, d, p))
  }

  lemma ScanStarts(k: Kind, d: Image)
    ensures Scanned(k, d, 0, 0)
  {
  }

  lemma ScanStep(k: Kind, d: Image, offset: int, hits: int, next: int)
    requires Scanned(k, d, offset, hits) && hits >= 0 && OnGrid(next) && next > offset
    requires HeaderAt(k, d, next) && Acceptable(k, d, next)
    requires forall p :: OnGrid(p) && offset < p < next ==> !HeaderAt(k, d, p)
    ensures Scanned(k, d, next, hits + 1)
  {
  }

  lemma ScanEnds(k: Kind, d: Image, offset: int, hits: int)
    requires Scanned(k, d, offset, hits) && hits >= 0
    requires forall p :: OnGrid(p) && offset < p ==> !HeaderAt(k, d, p)
    ensures AllAcceptable(k, d)
    ensures hits == 1 ==> Only(k, d, offset)
    ensures hits != 1 ==> forall o :: !Only(k, d, o)
  {
  }

  lemma ChecksumInside(k: Kind, d: Image, o: int)
    requires OnGrid(o) && Acceptable(k, d, o)
    ensures o + ChecksumAt(k) < MAX_OFFSET
  {
  }

  // The order of the passes, and the kinds passed after a given one.
  function Kinds(): seq<Kind> {
    [Pci32, Mp, Pcmp, Pir, Pnp]
  }

  function Rank(k: Kind): (t: nat)
    ensures t < 5 && Kinds()[t] == k
  {
    match k
    case Pci32 => 0
    case Mp => 1
    case Pcmp => 2
    case Pir => 3
    case Pnp => 4
  }

  function Later(k: Kind): seq<Kind> {
    Kinds()[Rank(k) + 1..]
  }

  lemma PassOrder()
    ensures Later(Pci32) == [Mp, Pcmp, Pir, Pnp] && Later(Mp) == [Pcmp, Pir, Pnp] && Later(Pcmp) == [Pir, Pnp]
    ensures Later(Pir) == [Pnp] && Later(Pnp) == []
  {
  }

  // The last step: the byte at the end makes the whole image add up to zero.
  method SetImageChecksum(data: array<Byte>)
    requires data.Length == LEN_BIOS_DATA
    modifies data
    ensures Sum(data[..]) % 256 == 0
    ensures data[..] == old(data[..])[MAX_OFFSET := data[MAX_OFFSET]]
  {
    hide Sum, Balance;
    ghost var d := data[..];
    var sum: Byte := 0;
    SumStep([], 0);
    for i := 0 to MAX_OFFSET
      invariant sum == Sum(d[..i]) % 256 && data[..] == d
    {
      assert d[..i + 1] == d[..i] + [d[i]];
      SumStep(d[..i], d[i]);
      SumModulo(Sum(d[..i]), d[i]);
      sum := (sum + data[i]) % 256;
    }
    var v: Byte := (256 - (sum as int)) % 256;
    NegationBalances(Sum(d[..MAX_OFFSET]), sum, v);
    if data[MAX_OFFSET] != v {
      data[MAX_OFFSET] := v;
    }
    assert data[..] == d[..MAX_OFFSET] + [v];
    SumStep(d[..MAX_OFFSET], v);
  }

  lemma SumStep(s: seq<Byte>, b: Byte)
    ensures Sum([]) == 0
    ensures Sum(s + [b]) == Sum(s) + b
  {
  }

  lemma LastByteIsFree(a: Image, d: Image, r: Image)
    requires SameHeaders(a, d) && r == d[MAX_OFFSET := r[MAX_OFFSET]]
    ensures SameHeaders(a, r)
  {
  }

  lemma Finished(ds: seq<Image>, r: Image, k: Kind, o: int)
    requires Chain(Kinds(), ds) && r == ds[5][MAX_OFFSET := r[MAX_OFFSET]]
    requires Only(k, ds[0], o) && ChecksumAt(k) < Length(k, ds[0], o) && Clear(ds[0], Later(k), o, Length(k, ds[0], o))
    ensures o + Length(k, ds[0], o) <= MAX_OFFSET
    ensures Sum(r[o..o + Length(k, ds[0], o)]) % 256 == 0
  {
    hide Passed, Length, Clear, Sum;
    ChainBalances(Kinds(), ds, Rank(k), 5, o);
    var len := Length(k, ds[0], o);
    assert r[o..o + len] == ds[5][o..o + len];
  }

  // ---- Which images the program finishes with ----

  ghost predicate AllInBounds(k: Kind, d: Image) {
    forall o :: OnGrid(o) && HeaderAt(k, d, o) ==> InBounds(k, d, o)
  }

  // No PCMP header has extended tables when its pass comes. A PCI or MP header 32 bytes into it, if it is
  // the only one, has its length on a byte that must be zero and its checksum on the last of the three,
  // which its own pass then clears.
  ghost predicate NoTables(d: Image) {
    forall o :: OnGrid(o) && HeaderAt(Pcmp, d, o) ==>
      && o + 42 < |d| && d[o + 40] == 0 && d[o + 41] == 0
      && (d[o + 42] == 0 || Only(Pci32, d, o + 32) || Only(Mp, d, o + 32))
  }

  // The images the program finishes with: all headers lie within the image, and there are no tables.
  ghost predicate Finishes(d: Image) {
    (forall k :: AllInBounds(k, d)) && NoTables(d)
  }

  // Its own writes never make the program give up ...
  lemma NeverSpoiled(d: Image)
    requires forall k :: AllAcceptable(k, d)
    ensures Finishes(d)
  {
    hide HeaderAt, Length;
    forall k ensures AllInBounds(k, d) {
      assert AllAcceptable(k, d);
    }
    assert AllAcceptable(Pcmp, d);
  }

  // ... and can save it from that. Here a PCMP header would be refused but for the PCI header in it.
  function RescuedByte(i: int): Byte {
    if 0x100 <= i < 0x104 then Signature(Pcmp)[i - 0x100]
    else if 0x120 <= i < 0x124 then Signature(Pci32)[i - 0x120]
    else if i == 0x12A then 1 else 0
  }

  const RESCUED: Image := seq<Byte>(LEN_BIOS_DATA, i => RescuedByte(i))

  lemma RescuedHeaders(k: Kind, o: int)
    requires OnGrid(o)
    ensures HeaderAt(k, RESCUED, o) <==> (k == Pcmp && o == 0x100) || (k == Pci32 && o == 0x120)
  {
    var s := RESCUED[o..o + 4];
    assert s[0] == RESCUED[o];
    if o == 0x100 {
      assert s == Signature(Pcmp);
    } else if o == 0x120 {
      assert s == Signature(Pci32);
    }
  }

  lemma Rescued()
    ensures Finishes(RESCUED) && !AllAcceptable(Pcmp, RESCUED)
  {
    hide HeaderAt;
    forall k, o | OnGrid(o)
      ensures HeaderAt(k, RESCUED, o) <==> (k == Pcmp && o == 0x100) || (k == Pci32 && o == 0x120)
    {
      RescuedHeaders(k, o);
    }
    assert OnGrid(0x100) && OnGrid(0x120);
    assert !Acceptable(Pcmp, RESCUED, 0x100);
    assert InBounds(Pcmp, RESCUED, 0x100) && InBounds(Pci32, RESCUED, 0x120);
    assert Only(Pci32, RESCUED, 0x120);
  }

  // What the two passes before make of the three bytes of a PCMP header that must be zero.
  lemma TableBytes(d: Image, d1: Image, d2: Image, o: int)
    requires Passed(Pci32, d, d1) && Passed(Mp, d1, d2) && SameHeaders(d, d1)
    requires OnGrid(o) && o + 42 < |d|
    ensures d2[o + 40] == d[o + 40] && d2[o + 41] == d[o + 41]
    ensures d[o + 40] == 0 && d[o + 41] == 0 ==>
              d2[o + 42] == if Only(Pci32, d, o + 32) || Only(Mp, d, o + 32) then 0 else d[o + 42]
  {
    hide NewChecksum, HeaderAt, Length;
    forall i | o + 40 <= i <= o + 42 && (d1[i] != d[i] || d2[i] != d1[i])
      ensures i == o + 42 && (Only(Pci32, d, o + 32) || Only(Mp, d, o + 32))
    {
      TableWrite(d, d1, d2, i, o);
    }
    if d[o + 40] == 0 && d[o + 41] == 0 {
      if Only(Pci32, d, o + 32) {
        NotBoth(d, o + 32);
        EmptyHeader(Pci32, d, o + 32);
      } else if Only(Mp, d, o + 32) {
        assert Only(Mp, d1, o + 32);
        EmptyHeader(Mp, d1, o + 32);
      }
    }
  }

  // A header of no length gets the checksum 0.
  lemma EmptyHeader(k: Kind, d: Image, o: int)
    requires OnGrid(o) && Acceptable(k, d, o) && (k == Pci32 || k == Mp) && d[o + 8] == 0 && d[o + 9] == 0
    ensures NewChecksum(k, d, o) == 0
  {
  }

  lemma NotBoth(d: Image, o: int)
    requires OnGrid(o)
    ensures !(HeaderAt(Pci32, d, o) && HeaderAt(Mp, d, o))
  {
    if HeaderAt(Pci32, d, o) && HeaderAt(Mp, d, o) {
      SignaturesDiffer(Pci32, Mp);
    }
  }

  lemma TableWrite(d: Image, d1: Image, d2: Image, i: int, o: int)
    requires Passed(Pci32, d, d1) && Passed(Mp, d1, d2) && SameHeaders(d, d1) && OnGrid(o)
    requires o + 40 <= i <= o + 42 && i < |d| && (d1[i] != d[i] || d2[i] != d1[i])
    ensures i == o + 42 && (Only(Pci32, d, o + 32) || Only(Mp, d, o + 32))
  {
    hide NewChecksum, HeaderAt, Length;
    if d1[i] != d[i] {
      PassTouches(Pci32, d, d1, i);
    } else {
      PassTouches(Mp, d1, d2, i);
    }
  }

  // What the next pass needs, in terms of the image at the beginning.
  lemma PassGoesOn(ds: seq<Image>, i: nat)
    requires i < 5 && Chain(Kinds()[..i], ds)
    ensures AllAcceptable(Kinds()[i], ds[i])
            <==> AllInBounds(Kinds()[i], ds[0]) && (i == 2 ==> NoTables(ds[0]))
  {
    hide Passed, Length, HeaderAt;
    var k, d := Kinds()[i], ds[0];
    ChainKeepsHeaders(Kinds()[..i], ds, i);
    BoundsKept(k, d, ds[i]);
    if i == 2 {
      assert Kinds()[..2][0] == Pci32 && Kinds()[..2][1] == Mp;
      ChainKeepsHeaders(Kinds()[..2], ds, 1);
      forall o | OnGrid(o) && HeaderAt(Pcmp, d, o) && o + 42 < |d|
        ensures ds[2][o + 40] == d[o + 40] && ds[2][o + 41] == d[o + 41]
        ensures d[o + 40] == 0 && d[o + 41] == 0 ==>
                  ds[2][o + 42] == if Only(Pci32, d, o + 32) || Only(Mp, d, o + 32) then 0 else d[o + 42]
      {
        TableBytes(d, ds[1], ds[2], o);
      }
    }
  }

  lemma BoundsKept(k: Kind, a: Image, d: Image)
    requires SameHeaders(a, d)
    ensures AllInBounds(k, a) <==> AllInBounds(k, d)
  {
    hide Length, HeaderAt;
  }

  // The bytes the program may change: a checksum of a header that is the only one of its kind, and the
  // last byte of the image.
  ghost predicate MayChange(d: Image, i: int) {
    || i == 0xFFFF
    || (exists o :: (Only(Pci32, d, o) || Only(Mp, d, o)) && i == o + 10)
    || (exists o :: Only(Pcmp, d, o) && i == o + 7)
    || (exists o :: Only(Pir, d, o) && i == o + 31)
    || (exists o :: Only(Pnp, d, o) && i == o + 8)
  }

  lemma ChangesOnly(ds: seq<Image>, r: Image, i: int)
    requires Chain(Kinds(), ds) && r == ds[5][MAX_OFFSET := r[MAX_OFFSET]] && 0 <= i < LEN_BIOS_DATA && r[i] != ds[0][i]
    ensures MayChange(ds[0], i)
  {
    hide Passed, Only;
    if i != MAX_OFFSET {
      ChainTouches(Kinds(), ds, 5, i);
      var k, o :| k in Kinds() && Only(k, ds[0], o) && i == o + ChecksumAt(k);
      match k
      case Pci32 => assert Only(Pci32, ds[0], o);
      case Mp => assert Only(Mp, ds[0], o);
      case Pcmp => assert Only(Pcmp, ds[0], o);
      case Pir => assert Only(Pir, ds[0], o);
      case Pnp => assert Only(Pnp, ds[0], o);
    }
  }

  // The whole program on an image; false when it gives up.
  method FixImage(data: array<Byte>) returns (ok: bool)
    requires data.Length == LEN_BIOS_DATA
    modifies data
    ensures ok == Finishes(old(data[..]))
    ensures ok ==> Sum(data[..]) % 256 == 0
    ensures ok ==> SameHeaders(old(data[..]), data[..])
    ensures ok ==> forall i :: 0 <= i < LEN_BIOS_DATA && data[i] != old(data[..])[i] ==> MayChange(old(data[..]), i)
    ensures ok ==> forall k, o :: Only(k, old(data[..]), o) && ChecksumAt(k) < Length(k, old(data[..]), o)
                                  && Clear(old(data[..]), Later(k), o, Length(k, old(data[..]), o)) ==>
                     && o + Length(k, old(data[..]), o) <= MAX_OFFSET
                     && Sum(data[..][o..o + Length(k, old(data[..]), o)]) % 256 == 0
  {
    hide Passed, HeaderAt, Length, Clear, SameHeaders, Sum, AllAcceptable, AllInBounds, NoTables, Later,
         MayChange;
    ghost var ds: seq<Image> := [data[..]];
    var ks := Kinds();
    for i := 0 to 5
      invariant Chain(ks[..i], ds) && ds[0] == old(data[..]) && ds[i] == data[..]
      invariant forall j :: 0 <= j < i ==> AllInBounds(ks[j], ds[0])
      invariant i > 2 ==> NoTables(ds[0])
    {
      PassGoesOn(ds, i);
      var fine := Pass(ks[i], data);
      if !fine {
        return false;
      }
      ds := ds + [data[..]];
    }
    assert ks[..5] == ks;
    SetImageChecksum(data);
    ghost var d, r: Image := ds[0], data[..];
    ChainKeepsHeaders(ks, ds, 5);
    LastByteIsFree(d, ds[5], r);
    forall i | 0 <= i < LEN_BIOS_DATA && r[i] != d[i] ensures MayChange(d, i) {
      ChangesOnly(ds, r, i);
    }
    forall k ensures AllInBounds(k, d) {
      assert AllInBounds(ks[Rank(k)], d);
    }
    forall k, o | Only(k, d, o) && ChecksumAt(k) < Length(k, d, o) && Clear(d, Later(k), o, Length(k, d, o))
      ensures o + Length(k, d, o) <= MAX_OFFSET && Sum(r[o..o + Length(k, d, o)]) % 256 == 0
    {
      Finished(ds, r, k, o);
    }
    return true;
  }
}
