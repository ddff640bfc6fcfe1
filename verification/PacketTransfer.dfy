// The data phase of a packet command in the BIOS (ata_cmd_packet in bochs/bios/rombios.c): the drive
// hands over its data in pieces of its own choosing, of which a given number of leading bytes is
// dropped, the next ones go to memory, and the rest is dropped too.
module PacketTransfer {
  import opened Machine

  const MEGABYTE := 0x10_0000
  // The memory that segments and offsets reach.
  const REACH := MEGABYTE + 0x1_0000
  // The byte count limit that the BIOS programs for one piece.
  const LIMIT := 0xfff0

  datatype Response = Data(bytes: seq<bv8>) | Fault

  // All the data in the pieces, up to a fault.
  function Stream(rs: seq<Response>): seq<bv8>
    decreases |rs|
  {
    if rs == [] || rs[0].Fault? then [] else rs[0].bytes + Stream(rs[1..])
  }

  predicate Faulty(rs: seq<Response>) {
    exists k :: 0 <= k < |rs| && rs[k].Fault?
  }

  // The pieces a drive may send: of even size, within the limit.
  predicate WellSized(rs: seq<Response>) {
    forall k :: 0 <= k < |rs| && rs[k].Data? ==> |rs[k].bytes| % 2 == 0 && |rs[k].bytes| <= LIMIT
  }

  // What is kept of a stream when `header` bytes are dropped and at most `length` are wanted.
  function Kept(s: seq<bv8>, header: nat, length: nat): (r: seq<bv8>)
    ensures |r| <= length
  {
    if |s| <= header then [] else s[header..Min(|s|, header + length)]
  }

  // A piece in three parts: dropped because it comes before, kept, dropped because it comes after.
  datatype Parts = Parts(before: nat, count: nat, after: nat)

  function Cut(size: nat, header: nat, length: nat): (p: Parts)
    ensures p.before + p.count + p.after == size
    ensures p.before == Min(header, size) && p.count == Min(size - p.before, length)
  {
    if header > size then Parts(size, 0, 0)
    else if size - header > length then Parts(header, length, size - header - length)
    else Parts(header, size - header, 0)
  }

  // Whatever follows a piece, the kept part of it all begins with the kept part of the piece.
  lemma KeptCons(b: seq<bv8>, s: seq<bv8>, header: nat, length: nat)
    ensures var p := Cut(|b|, header, length);
            Kept(b + s, header, length)
            == b[p.before..p.before + p.count] + Kept(s, header - p.before, length - p.count)
  {
    hide Cut;
    var p, end := Cut(|b|, header, length), Min(|b + s|, header + length);
    if |b + s| > header {
      Slices(b, s, header, end);
      if |b| <= header {
        assert p.before == |b| && p.count == 0;
      } else if header + length <= |b| {
        assert p.before == header && p.count == length;
      } else {
        assert p.before == header && p.count == |b| - header;
      }
    }
  }

  lemma Slices<T>(s: seq<T>, b: seq<T>, i: nat, j: nat)
    requires i <= j <= |s + b|
    ensures j <= |s| ==> (s + b)[i..j] == s[i..j]
    ensures |s| <= i ==> (s + b)[i..j] == b[i - |s|..j - |s|]
    ensures i <= |s| <= j ==> (s + b)[i..j] == s[i..] + b[..j - |s|]
  {
    var t := (s + b)[i..j];
    assert forall k :: 0 <= k < |t| ==> t[k] == if i + k < |s| then s[i + k] else b[i + k - |s|];
  }

  // Memory with `data` written at `addr`.
  function Written(m: seq<bv8>, addr: nat, data: seq<bv8>): (r: seq<bv8>)
    requires addr + |data| <= |m|
    ensures |r| == |m|
  {
    m[..addr] + data + m[addr + |data|..]
  }

  lemma WrittenAppend(m: seq<bv8>, addr: nat, a: seq<bv8>, b: seq<bv8>)
    requires addr + |a| + |b| <= |m|
    ensures Written(Written(m, addr, a), addr + |a|, b) == Written(m, addr, a + b)
  {
  }

  method InsertWord(mem: array<bv8>, addr: nat, word: seq<bv8>)
    requires addr + |word| <= mem.Length
    modifies mem
    ensures mem[..] == Written(old(mem[..]), addr, word)
  {
    ghost var was := mem[..];
    for k := 0 to |word|
      invariant mem[..] == Written(was, addr, word[..k])
    {
      mem[addr + k] := word[k];
      assert mem[..] == Written(was, addr, word[..k + 1]);
    }
    assert word[..|word|] == word;
  }

  // rep insw / rep insd: words of two or four bytes from the data port to memory.
  method InsertWords(mem: array<bv8>, addr: nat, data: seq<bv8>, unit: nat)
    requires (unit == 2 || unit == 4) && |data| % unit == 0 && addr + |data| <= mem.Length
    modifies mem
    ensures mem[..] == Written(old(mem[..]), addr, data)
  {
    hide Written;
    ghost var was := mem[..];
    var cx, pos: nat := |data| / unit, 0;
    NothingWritten(was, addr);
    while cx > 0
      invariant cx >= 0 && pos <= |data|
      invariant (unit == 2 ==> 2 * cx == |data| - pos) && (unit == 4 ==> 4 * cx == |data| - pos)
      invariant mem[..] == Written(was, addr, data[..pos])
    {
      var word := data[pos..pos + unit];
      WrittenAppend(was, addr, data[..pos], word);
      InsertWord(mem, addr + pos, word);
      assert data[..pos] + word == data[..pos + unit];
      cx, pos := cx - 1, pos + unit;
    }
    assert data[..pos] == data;
  }

  lemma NothingWritten(m: seq<bv8>, addr: nat)
    requires addr <= |m|
    ensures Written(m, addr, []) == m
  {
  }

  // ---- The transfer loop ----

  datatype Address = Address(segment: nat, offset: nat)

  function Linear(a: Address): nat {
    16 * a.segment + a.offset
  }

  // Addresses that are the same once they have been normalized.
  function Wrap(linear: nat): (r: nat)
    ensures r < MEGABYTE
  {
    linear % MEGABYTE
  }

  predicate Narrow(a: Address) {
    a.segment < TWO16 && a.offset < TWO16
  }

  // Memory after the pieces: the kept part of each goes to where the part before it has ended, and a part
  // that would begin beyond one megabyte begins again at the bottom.
  function Placed(m: seq<bv8>, at: nat, header: nat, length: nat, rs: seq<Response>): (r: seq<bv8>)
    requires |m| >= REACH && WellSized(rs)
    ensures |r| == |m|
    decreases |rs|
  {
    if rs == [] || rs[0].Fault? then m
    else
      var b := rs[0].bytes;
      var p := Cut(|b|, header, length);
      assert WellSized(rs[1..]);
      Placed(Written(m, Wrap(at), b[p.before..p.before + p.count]), at + p.count,
             header - p.before, length - p.count, rs[1..])
  }

  // In a buffer within the first megabyte the parts follow each other, however the drive cut them.
  lemma {:induction false} PlacedIsWritten(m: seq<bv8>, at: nat, header: nat, length: nat, rs: seq<Response>)
    requires |m| >= REACH && WellSized(rs) && at + length <= MEGABYTE
    ensures Placed(m, at, header, length, rs) == Written(m, at, Kept(Stream(rs), header, length))
    decreases |rs|
  {
    hide Kept, Cut, Written, Wrap, WellSized;
    if rs == [] || rs[0].Fault? {
      NothingKept(header, length);
      NothingWritten(m, at);
    } else {
      var b, rest := rs[0].bytes, rs[1..];
      FaultyNext(rs);
      var p := Cut(|b|, header, length);
      var part := b[p.before..p.before + p.count];
      WrittenBelow(m, at, part);
      KeptCons(b, Stream(rest), header, length);
      WrittenAppend(m, at, part, Kept(Stream(rest), header - p.before, length - p.count));
      PlacedIsWritten(Written(m, at, part), at + p.count, header - p.before, length - p.count, rest);
    }
  }

  lemma NothingKept(header: nat, length: nat)
    ensures Kept([], header, length) == []
  {
  }

  lemma WrittenBelow(m: seq<bv8>, at: nat, data: seq<bv8>)
    requires |m| >= REACH && at + |data| <= MEGABYTE
    ensures Written(m, Wrap(at), data) == Written(m, at, data)
  {
    if at == MEGABYTE {
      NothingWritten(m, at);
      NothingWritten(m, 0);
      assert data == [];
    }
  }

  // Words taken from the data port and dropped; `pos` is how far the piece has been read.
  method SkipWords(words: nat, unit: nat, pos: nat) returns (pos': nat)
    requires unit == 2 || unit == 4
    ensures pos' == pos + words * unit
  {
    pos' := pos;
    var cx := words;
    while cx > 0
      invariant 0 <= cx <= words
      invariant (unit == 2 ==> pos' + 2 * cx == pos + 2 * words) && (unit == 4 ==> pos' + 4 * cx == pos + 4 * words)
    {
      cx, pos' := cx - 1, pos' + unit;
    }
  }

  // One piece: the code's split of it, the choice of the word size, and the moves.
  method TransferPiece(mode32: bool, bytes: seq<bv8>, header: nat, length: nat, mem: array<bv8>, buf: Address)
      returns (header': nat, length': nat, buf': Address, count: nat, read: nat)
    requires |bytes| % 2 == 0 && |bytes| <= LIMIT && header % 2 == 0 && length % 2 == 0
    requires Narrow(buf) && mem.Length >= REACH
    modifies mem
    ensures var p := Cut(|bytes|, header, length);
            && header' == header - p.before && length' == length - p.count && count == p.count && read == |bytes|
            && Narrow(buf') && Wrap(Linear(buf')) == Wrap(Linear(buf) + p.count)
            && mem[..] == Written(old(mem[..]), Wrap(Linear(buf)), bytes[p.before..p.before + p.count])
  {
    hide Linear, Written, U16, Cut;
    CutEven(|bytes|, header, length);
    // Normalize the address.
    var segment, offset := U16(buf.segment + buf.offset / 16), buf.offset % 16;
    var p;
    p, header', length' := Divide(|bytes|, header, length);
    Linears(buf, segment, offset, p.count);
    // Words of four bytes only if every part is a multiple of four.
    var unit := if mode32 && p.before % 4 == 0 && p.count % 4 == 0 && p.after % 4 == 0 then 4 else 2;
    WholeWords(p.before, unit);
    WholeWords(p.count, unit);
    WholeWords(p.after, unit);
    read := SkipWords(p.before / unit, unit, 0);
    InsertWords(mem, 16 * segment + offset, bytes[read..read + p.count / unit * unit], unit);
    read := read + p.count / unit * unit;
    read := SkipWords(p.after / unit, unit, read);
    count := p.count;
    buf' := Address(segment, U16(offset + count));
  }

  lemma WholeWords(n: nat, unit: nat)
    requires (unit == 2 || unit == 4) && n % unit == 0
    ensures n / unit * unit == n
  {
  }

  // The code's way of cutting a piece in three.
  method Divide(size: nat, header: nat, length: nat) returns (p: Parts, header': nat, length': nat)
    ensures p == Cut(size, header, length) && header' == header - p.before && length' == length - p.count
  {
    header', length' := header, length;
    var lcount, lbefore, lafter := size, 0, 0;
    if header' > lcount {
      lbefore := lcount;
      header' := header' - lcount;
      lcount := 0;
    } else {
      lbefore := header';
      header' := 0;
      lcount := lcount - lbefore;
    }
    if lcount > length' {
      lafter := lcount - length';
      lcount := length';
      length' := 0;
    } else {
      length' := length' - lcount;
    }
    p := Parts(lbefore, lcount, lafter);
  }

  lemma Linears(buf: Address, segment: nat, offset: nat, count: nat)
    requires Narrow(buf) && count <= LIMIT
    requires segment == U16(buf.segment + buf.offset / 16) && offset == buf.offset % 16
    ensures 16 * segment + offset == Wrap(Linear(buf)) && Narrow(Address(segment, U16(offset + count)))
    ensures Wrap(Linear(Address(segment, U16(offset + count)))) == Wrap(Linear(buf) + count)
  {
    hide U16, Wrap;
    NormalForm(buf, segment, offset);
    Narrowed(offset + count);
    WrapSum(Linear(buf), count);
  }

  lemma Narrowed(offset: nat)
    ensures U16(offset) < TWO16 && (offset < TWO16 ==> U16(offset) == offset)
  {
  }

  lemma WrapSum(at: nat, count: nat)
    ensures Wrap(Wrap(at) + count) == Wrap(at + count)
  {
  }

  lemma NormalForm(buf: Address, segment: nat, offset: nat)
    requires Narrow(buf) && segment == U16(buf.segment + buf.offset / 16) && offset == buf.offset % 16
    ensures segment < TWO16 && 16 * segment + offset == Wrap(Linear(buf))
  {
    hide U16, Wrap;
    var s := buf.segment + buf.offset / 16;
    var q := if s < TWO16 then 0 else 1;
    NarrowIs(s, q);
    WrapIs(Linear(buf), q);
  }

  lemma NarrowIs(x: nat, q: nat)
    requires q * TWO16 <= x < (q + 1) * TWO16
    ensures U16(x) == x - q * TWO16
  {
    DivUnique(x, TWO16, q, x - q * TWO16);
  }

  lemma WrapIs(x: nat, q: nat)
    requires q * MEGABYTE <= x < (q + 1) * MEGABYTE
    ensures Wrap(x) == x - q * MEGABYTE
  {
    DivUnique(x, MEGABYTE, q, x - q * MEGABYTE);
  }

  // ---- The command ----

  datatype Direction = DataNone | DataIn | DataOut

  // What a drive does with a packet: it is busy, reports an error, does not ask for the packet, or takes
  // it, sends its data and is ready at the end or not.
  datatype Session = Busy | Rejected | NoRequest | Accepted(pieces: seq<Response>, ready: bool)

  predicate Sized(s: Session) {
    s.Accepted? ==> WellSized(s.pieces)
  }

  function Pieces(s: Session): seq<Response> {
    if s.Accepted? then s.pieces else []
  }

  // The drive has done all that was asked of it.
  predicate Completed(s: Session) {
    s.Accepted? && s.ready && !Faulty(s.pieces)
  }

  // What ata_cmd_packet returns: 0 to 4.
  datatype Status = Success | BadParameter | DriveBusy | DriveError | NotReady

  // The whole command. Whatever the drive does, memory is changed only by what it sent, part by part. In
  // a buffer within the first megabyte it holds the wanted part of all that was sent.
  method AtaCmdPacket(direction: Direction, mode32: bool, header: nat, length: nat, session: Session,
                      mem: array<bv8>, buf: Address)
      returns (status: Status, transferred: nat)
    requires Sized(session) && length % 2 == 0 && Narrow(buf) && mem.Length >= REACH
    modifies mem
    ensures status == BadParameter <==> direction == DataOut || header % 2 == 1
    ensures status != BadParameter ==> (status == DriveBusy <==> session == Busy)
    ensures status != BadParameter && direction == DataIn ==>
              && (status == Success <==> Completed(session))
              && (status == DriveError <==> session == Rejected || (session.Accepted? && Faulty(session.pieces)))
              && transferred == |Kept(Stream(Pieces(session)), header, length)|
              && mem[..] == Placed(old(mem[..]), Linear(buf), header, length, Pieces(session))
              && (Linear(buf) + length <= MEGABYTE ==>
                    mem[..] == Written(old(mem[..]), Linear(buf), Kept(Stream(Pieces(session)), header, length)))
    ensures status == BadParameter || direction == DataNone ==> mem[..] == old(mem[..]) && transferred == 0
    ensures status != BadParameter && direction == DataNone ==>
              && (status == Success <==> session.Accepted? && session.ready)
              && (status == DriveError <==> session == Rejected)
  {
    hide Kept, Placed, Written, Linear;
    transferred := 0;
    if direction == DataOut || header % 2 == 1 {
      return BadParameter, 0;
    }
    NothingSent(mem[..], Linear(buf), header, length);
    if Linear(buf) + length <= MEGABYTE {
      PlacedIsWritten(mem[..], Linear(buf), header, length, Pieces(session));
    }
    if session == Busy {
      return DriveBusy, 0;
    }
    if session == Rejected {
      return DriveError, 0;
    }
    if session == NoRequest {
      return NotReady, 0;
    }
    if direction == DataIn {
      var fault;
      fault, transferred := TransferAll(mode32, header, length, session.pieces, mem, buf);
      if fault {
        return DriveError, transferred;
      }
    }
    status := if session.ready then Success else NotReady;
  }

  lemma NothingSent(m: seq<bv8>, at: nat, header: nat, length: nat)
    requires |m| >= REACH
    ensures Placed(m, at, header, length, []) == m && Kept(Stream([]), header, length) == []
  {
  }

  // One step of the loop, in the terms of its invariant.
  lemma PieceDone(m: seq<bv8>, at: nat, header: nat, length: nat, rs: seq<Response>)
    requires |m| >= REACH && WellSized(rs) && rs != []
    ensures WellSized(rs[1..]) && (Faulty(rs) <==> rs[0].Fault? || Faulty(rs[1..]))
    ensures rs[0].Fault? ==> Placed(m, at, header, length, rs) == m && Kept(Stream(rs), header, length) == []
    ensures rs[0].Data? ==>
              var b := rs[0].bytes;
              var p := Cut(|b|, header, length);
              var part := b[p.before..p.before + p.count];
              && |b| % 2 == 0 && |b| <= LIMIT
              && Placed(m, at, header, length, rs)
                 == Placed(Written(m, Wrap(at), part), at + p.count, header - p.before, length - p.count, rs[1..])
              && |Kept(Stream(rs), header, length)|
                 == p.count + |Kept(Stream(rs[1..]), header - p.before, length - p.count)|
  {
    hide Cut, Written, Kept;
    FaultyNext(rs);
    NothingKept(header, length);
    if rs[0].Data? {
      KeptCons(rs[0].bytes, Stream(rs[1..]), header, length);
    }
  }

  lemma FaultyNext(rs: seq<Response>)
    requires rs != []
    ensures Faulty(rs) <==> rs[0].Fault? || Faulty(rs[1..])
    ensures WellSized(rs) ==> WellSized(rs[1..])
  {
    if k :| 0 <= k < |rs[1..]| && rs[1..][k].Fault? {
      assert rs[k + 1].Fault?;
    }
    if k :| 0 < k < |rs| && rs[k].Fault? {
      assert rs[1..][k - 1].Fault?;
    }
  }

  method TransferAll(mode32: bool, header: nat, length: nat, rs: seq<Response>, mem: array<bv8>, buf: Address)
      returns (fault: bool, transferred: nat)
    requires WellSized(rs) && header % 2 == 0 && length % 2 == 0 && Narrow(buf) && mem.Length >= REACH
    modifies mem
    ensures fault == Faulty(rs)
    ensures transferred == |Kept(Stream(rs), header, length)|
    ensures mem[..] == Placed(old(mem[..]), Linear(buf), header, length, rs)
  {
    hide Linear, Kept, Cut, Written, Stream, Placed, WellSized, Faulty, Narrow, Wrap;
    ghost var was := mem[..];
    var h, l, b, todo := header, length, buf, rs;
    transferred := 0;
    while todo != []
      invariant WellSized(todo) && h % 2 == 0 && l % 2 == 0 && Narrow(b) && (Faulty(todo) <==> Faulty(rs))
      invariant Wrap(Linear(b)) == Wrap(Linear(buf) + transferred)
      invariant Placed(mem[..], Linear(buf) + transferred, h, l, todo) == Placed(was, Linear(buf), header, length, rs)
      invariant transferred + |Kept(Stream(todo), h, l)| == |Kept(Stream(rs), header, length)|
      decreases |todo|
    {
      PieceDone(mem[..], Linear(buf) + transferred, h, l, todo);
      if todo[0].Fault? {
        return true, transferred;
      }
      CutEven(|todo[0].bytes|, h, l);
      ghost var place := Linear(b);
      var count, read;
      h, l, b, count, read := TransferPiece(mode32, todo[0].bytes, h, l, mem, b);
      WrapSum(place, count);
      WrapSum(Linear(buf) + transferred, count);
      transferred := transferred + count;
      todo := todo[1..];
    }
    NothingSent(mem[..], Linear(buf) + transferred, h, l);
    NoFault();
    return false, transferred;
  }

  lemma NoFault()
    ensures !Faulty([])
  {
  }

  lemma CutEven(size: nat, header: nat, length: nat)
    requires size % 2 == 0 && header % 2 == 0 && length % 2 == 0
    ensures var p := Cut(size, header, length); p.before % 2 == 0 && p.count % 2 == 0 && p.after % 2 == 0
  {
  }
}
